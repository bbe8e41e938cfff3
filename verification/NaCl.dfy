/** NOP padding for 32-byte bundles (src/cost/nacl2.cc): when the table filled by the cost function holds
    the least padding over all layouts that obey the bundle rules. */
module NaCl {

  const INFTY: nat := 0xefffffffffffffff

  // ----- Code and where it may be placed -----

  /** `Widen` is a zero extension that the validator of the format accepts before an indexed access. */
  datatype Kind = Ret | LabelDefn(name: nat) | Jump(name: nat) | Call | Nop | Widen(reg: nat) | Other

  /** `index` is the index register of an explicit memory operand, or negative. */
  datatype Instr = Instr(size: nat, kind: Kind, mem: bool, index: int)

  /** NOP bytes put before an instruction, or the removal of an existing NOP. */
  datatype Place = Pad(bytes: nat) | Drop

  function PlaceCost(p: Place): nat { match p case Pad(n) => n case Drop => 1 }

  ghost function CostOf(places: seq<Place>): nat {
    if places == [] then 0 else CostOf(places[..|places| - 1]) + PlaceCost(places[|places| - 1])
  }

  /** Instruction i is the access of a pair: it indexes by the register that the instruction before it,
      not an access of a pair itself, extends. */
  predicate Paired(code: seq<Instr>, i: nat) {
    && 0 < i < |code| && code[i - 1].kind.Widen? && code[i].mem && code[i].index == code[i - 1].kind.reg
    && !Paired(code, i - 1)
  }

  ghost predicate JumpedTo(code: seq<Instr>, l: nat) { exists i :: 0 <= i < |code| && code[i].kind == Jump(l) }

  /** A return is expanded to 12 bytes, a call to 5. */
  function Bytes(code: seq<Instr>, i: nat): nat
    requires i < |code|
  {
    if Paired(code, i) then code[i].size
    else match code[i].kind
      case LabelDefn(_) => 0
      case Call => 5
      case Ret => 12
      case _ => code[i].size
  }

  /** The bundle rules for instruction i, placed after n bytes of padding behind address `at`: the access
      of a pair follows without padding; labels that are jumped to are aligned; calls end a bundle;
      everything else lies within one, a pair as a whole; and nothing is put before a memory access. */
  ghost predicate Obeys(code: seq<Instr>, i: nat, at: nat, n: nat)
    requires i < |code|
  {
    if Paired(code, i) then n == 0
    else match code[i].kind
      case LabelDefn(l) => if JumpedTo(code, l) then (at + n) % 32 == 0 else n == 0
      case Call => (at + n) % 32 == 27
      case _ =>
        && (code[i].mem ==> n == 0)
        && (at + n) % 32 + Bytes(code, i) + (if Paired(code, i + 1) then Bytes(code, i + 1) else 0) <= 32
  }

  /** Instruction i is placed between two addresses. */
  ghost predicate PlacedAt(code: seq<Instr>, i: nat, from: nat, p: Place, to: nat)
    requires i < |code|
  {
    match p
    case Pad(n) => Obeys(code, i, from, n) && to == from + n + Bytes(code, i)
    case Drop => code[i].kind.Nop? && !Paired(code, i) && to == from
  }

  /** The first instructions of the code are placed, one behind the other, from address `start`. */
  ghost predicate Placement(code: seq<Instr>, start: nat, at: seq<nat>, places: seq<Place>) {
    && |places| <= |code| && |at| == |places| + 1 && at[0] == start
    && forall i :: 0 <= i < |places| ==> PlacedAt(code, i, at[i], places[i], at[i + 1])
  }

  // ----- Units of placement -----

  datatype Form = PlainLabel | TargetLabel | CallForm | Normal | Memory

  /** One instruction, or a zero extension together with the memory access that uses it. */
  datatype Unit = Unit(form: Form, size: nat, nop: bool)

  predicate Fuses(code: seq<Instr>, i: nat)
    requires i < |code|
  {
    code[i].kind.Widen? && i + 1 < |code| && code[i + 1].mem && code[i + 1].index == code[i].kind.reg
  }

  function FormOf(targets: set<nat>, x: Instr): Form {
    match x.kind
    case LabelDefn(l) => if l in targets then TargetLabel else PlainLabel
    case Call => CallForm
    case _ => if x.mem then Memory else Normal
  }

  function UnitAt(code: seq<Instr>, targets: set<nat>, i: nat): Unit
    requires i < |code|
  {
    var size := if code[i].kind == Ret then 12 else code[i].size;
    Unit(FormOf(targets, code[i]), if Fuses(code, i) then size + code[i + 1].size else size, code[i].kind.Nop?)
  }

  /** The units of the first i instructions. */
  ghost function Units(code: seq<Instr>, targets: set<nat>, i: nat): (units: seq<Unit>)
    requires i <= |code| && !Paired(code, i)
    ensures |units| <= i
  {
    if i == 0 then []
    else if Paired(code, i - 1) then Units(code, targets, i - 2) + [UnitAt(code, targets, i - 2)]
    else Units(code, targets, i - 1) + [UnitAt(code, targets, i - 1)]
  }

  // ----- Layouts -----

  function SizeOf(x: Unit): nat {
    match x.form
    case PlainLabel => 0
    case TargetLabel => 0
    case CallForm => 5
    case _ => x.size
  }

  function After(x: Unit, at: nat, p: Place): nat { match p case Pad(n) => at + n + SizeOf(x) case Drop => at }

  /** The bundle rules for placing x when the code so far ends at address `at`. */
  predicate Allowed(x: Unit, at: nat, p: Place) {
    match p
    case Drop => x.nop
    case Pad(n) =>
      match x.form
      case PlainLabel => n == 0
      case TargetLabel => (at + n) % 32 == 0
      case CallForm => (at + n) % 32 == 27
      case Normal => (at + n) % 32 + x.size <= 32
      case Memory => n == 0 && at % 32 + x.size <= 32
  }

  /** The places obey the rules for the units, starting at an address. */
  ghost predicate Layout(units: seq<Unit>, start: nat, places: seq<Place>) {
    && |places| == |units|
    && (units != [] ==>
          var n := |units| - 1;
          Layout(units[..n], start, places[..n]) && Allowed(units[n], EndOf(units[..n], start, places[..n]), places[n]))
  }

  ghost function EndOf(units: seq<Unit>, start: nat, places: seq<Place>): nat
    requires |places| == |units|
  {
    if units == [] then start
    else var n := |units| - 1; After(units[n], EndOf(units[..n], start, places[..n]), places[n])
  }

  // ----- What the table accounts for -----

  /** Some memory access of this size within a bundle ends at residue r. */
  predicate EndsAt(size: nat, r: nat) { size <= r || (r == 0 && size <= 32) }

  /** Of the placements that obey the rules, those the table accounts for: a NOP with a memory operand
      is not dropped at a residue where it could also end, because the entry for dropping it is
      overwritten. */
  predicate Tabled(x: Unit, at: nat, p: Place) {
    Allowed(x, at, p) && (p.Drop? && x.form == Memory ==> !EndsAt(x.size, at % 32))
  }

  ghost predicate TableLayout(units: seq<Unit>, start: nat, places: seq<Place>) {
    && |places| == |units|
    && (units != [] ==>
          var n := |units| - 1;
          && TableLayout(units[..n], start, places[..n])
          && Tabled(units[n], EndOf(units[..n], start, places[..n]), places[n]))
  }

  // ----- Columns of the table -----

  /** Entry r of a column is the least cost of the layouts that end at 32K + r, if there is one. */
  ghost predicate Column(units: seq<Unit>, start: nat, col: seq<nat>) {
    && |col| == 32
    && (forall places :: TableLayout(units, start, places) ==>
          col[EndOf(units, start, places) % 32] != INFTY && col[EndOf(units, start, places) % 32] <= CostOf(places))
    && (forall r :: 0 <= r < 32 && col[r] != INFTY ==> Attained(units, start, r, col[r]))
    && (forall r :: 0 <= r < 32 && col[r] != INFTY ==> col[r] <= 64 * |units|)
  }

  ghost predicate Attained(units: seq<Unit>, start: nat, r: nat, c: nat) {
    exists places :: TableLayout(units, start, places) && EndOf(units, start, places) % 32 == r && CostOf(places) == c
  }

  /** next[r] comes from an entry of col by a legal placement of x. */
  ghost predicate Comes(col: seq<nat>, x: Unit, r: nat, c: nat)
    requires |col| == 32
  {
    exists j: nat, p: Place :: j < 32 && col[j] != INFTY && Tabled(x, j, p) && After(x, j, p) % 32 == r &&
      c == col[j] + PlaceCost(p) && PlaceCost(p) <= 64
  }

  ghost predicate Sound(col: seq<nat>, x: Unit, next: seq<nat>) {
    |col| == |next| == 32 && forall r :: 0 <= r < 32 && next[r] != INFTY ==> Comes(col, x, r, next[r])
  }

  ghost predicate Complete(col: seq<nat>, x: Unit, next: seq<nat>) {
    |col| == |next| == 32 &&
    forall j: nat, p: Place :: j < 32 && col[j] != INFTY && Tabled(x, j, p) ==>
      next[After(x, j, p) % 32] <= col[j] + PlaceCost(p) && next[After(x, j, p) % 32] <= col[j] + 64
  }

  lemma ModAdd(a: nat, b: nat)
    ensures (a + b) % 32 == (a % 32 + b) % 32
  {
  }

  lemma TabledMod(x: Unit, at: nat, p: Place)
    ensures Tabled(x, at, p) <==> Tabled(x, at % 32, p)
    ensures After(x, at, p) % 32 == After(x, at % 32, p) % 32
  {
    match p
    case Drop =>
    case Pad(n) =>
      ModAdd(at, n);
      ModAdd(at, n + SizeOf(x));
  }

  lemma Extended(units: seq<Unit>, start: nat, places: seq<Place>, x: Unit, p: Place)
    requires |places| == |units|
    ensures TableLayout(units + [x], start, places + [p]) <==>
            TableLayout(units, start, places) && Tabled(x, EndOf(units, start, places), p)
    ensures EndOf(units + [x], start, places + [p]) == After(x, EndOf(units, start, places), p)
    ensures CostOf(places + [p]) == CostOf(places) + PlaceCost(p)
  {
    assert (units + [x])[..|units|] == units && (places + [p])[..|places|] == places;
  }

  // ----- When the table finds the least padding -----

  /** A NOP that the table may fail to drop. */
  predicate Lost(x: Unit) { x.nop && x.form == Memory && x.size < 32 }

  ghost predicate NoneLost(units: seq<Unit>) { forall i :: 0 <= i < |units| ==> !Lost(units[i]) }

  lemma ExtendedRules(units: seq<Unit>, start: nat, places: seq<Place>, x: Unit, p: Place)
    requires |places| == |units|
    ensures Layout(units + [x], start, places + [p]) <==>
            Layout(units, start, places) && Allowed(x, EndOf(units, start, places), p)
  {
    assert (units + [x])[..|units|] == units && (places + [p])[..|places|] == places;
  }

  lemma AllowedMod(x: Unit, at: nat, p: Place)
    ensures Allowed(x, at, p) <==> Allowed(x, at % 32, p)
  {
    match p
    case Drop =>
    case Pad(n) => ModAdd(at, n);
  }

  /** Every table layout obeys the rules. */
  lemma {:induction false} TableObeys(units: seq<Unit>, start: nat, places: seq<Place>)
    requires TableLayout(units, start, places)
    ensures Layout(units, start, places)
  {
    if units != [] {
      TableObeys(units[..|units| - 1], start, places[..|units| - 1]);
    }
  }

  /** Some table layout ends at the same residue and costs no more. */
  ghost predicate Matched(units: seq<Unit>, start: nat, places: seq<Place>)
    requires |places| == |units|
  {
    exists q :: TableLayout(units, start, q) && EndOf(units, start, q) % 32 == EndOf(units, start, places) % 32 &&
      CostOf(q) <= CostOf(places)
  }

  /** A placement from the same residue that is no dearer and that the table accounts for; at 32 bytes
      placing the NOP costs nothing. */
  lemma TabledInstead(x: Unit, at: nat, p: Place, at': nat) returns (p': Place)
    requires Allowed(x, at, p) && at' % 32 == at % 32 && !Lost(x)
    ensures Tabled(x, at', p') && PlaceCost(p') <= PlaceCost(p) && After(x, at', p') % 32 == After(x, at, p) % 32
  {
    AllowedMod(x, at, p);
    AllowedMod(x, at', p);
    TabledMod(x, at, p);
    TabledMod(x, at', p);
    p' := if Tabled(x, at', p) then p else Pad(0);
  }

  lemma {:induction false} TableMatches(units: seq<Unit>, start: nat, places: seq<Place>)
    requires Layout(units, start, places) && NoneLost(units)
    ensures Matched(units, start, places)
  {
    if units == [] {
      assert TableLayout(units, start, places);
    } else {
      var n := |units| - 1;
      var front, x, before, p := units[..n], units[n], places[..n], places[n];
      assert units == front + [x] && places == before + [p];
      TableMatches(front, start, before);
      var q :| TableLayout(front, start, q) && EndOf(front, start, q) % 32 == EndOf(front, start, before) % 32 &&
        CostOf(q) <= CostOf(before);
      var p' := TabledInstead(x, EndOf(front, start, before), p, EndOf(front, start, q));
      Extended(front, start, before, x, p);
      Extended(front, start, q, x, p');
      assert TableLayout(units, start, q + [p']);
    }
  }

  /** The least cost of the table layouts is that of all layouts. */
  ghost predicate Exact(units: seq<Unit>, start: nat) {
    forall places :: Layout(units, start, places) ==>
      exists q :: TableLayout(units, start, q) && CostOf(q) <= CostOf(places)
  }

  lemma NoneLostExact(units: seq<Unit>, start: nat)
    requires NoneLost(units)
    ensures Exact(units, start)
  {
    forall places | Layout(units, start, places)
      ensures exists q :: TableLayout(units, start, q) && CostOf(q) <= CostOf(places)
    {
      TableMatches(units, start, places);
    }
  }

  lemma DropFirst(x: Unit)
    requires Lost(x)
    ensures Layout([x], 0, [Drop]) && EndOf([x], 0, [Drop]) == 0 && CostOf([Drop]) == 1
  {
    assert [x][..0] == [] && [Drop][..0] == [];
  }

  lemma DropLayout(x: Unit, y: Unit)
    requires Lost(x) && Allowed(y, 0, Pad(0))
    ensures Layout([x, y], 0, [Drop, Pad(0)]) && CostOf([Drop, Pad(0)]) == 1
  {
    DropFirst(x);
    hide Layout, EndOf, CostOf;
    assert [x, y] == [x] + [y] && [Drop, Pad(0)] == [Drop] + [Pad(0)];
    ExtendedRules([x], 0, [Drop], y, Pad(0));
    Extended([x], 0, [Drop], y, Pad(0));
  }

  lemma PlacedFirst(x: Unit, p: Place)
    requires Lost(x) && TableLayout([x], 0, [p])
    ensures EndOf([x], 0, [p]) == x.size
  {
    assert [x][..0] == [] && [p][..0] == [];
  }

  lemma OnlyPlaced(x: Unit, y: Unit, places: seq<Place>)
    requires Lost(x) && |places| == 2 && TableLayout([x, y], 0, places)
    ensures Tabled(y, x.size, places[1])
  {
    hide EndOf, CostOf, TableLayout;
    assert [x, y] == [x] + [y] && places == [places[0]] + [places[1]];
    Extended([x], 0, [places[0]], y, places[1]);
    PlacedFirst(x, places[0]);
  }

  /** Before a whole bundle of memory access, such a NOP leaves the table without any layout, though
      dropping it obeys the rules and costs 1. */
  lemma LostLayout(x: Unit)
    requires Lost(x) && 0 < x.size
    ensures var units := [x, Unit(Memory, 32, false)];
            && Layout(units, 0, [Drop, Pad(0)]) && CostOf([Drop, Pad(0)]) == 1
            && forall places :: !TableLayout(units, 0, places)
  {
    var y := Unit(Memory, 32, false);
    DropLayout(x, y);
    hide Layout, CostOf;
    forall places
      ensures !TableLayout([x, y], 0, places)
    {
      assert TableLayout([x, y], 0, places) ==> |places| == 2;
      hide TableLayout;
      if TableLayout([x, y], 0, places) {
        OnlyPlaced(x, y, places);
        assert false;
      }
    }
  }

  ghost predicate OthersKept(units: seq<Unit>, x: Unit) { forall u :: u in units && u != x ==> !Lost(u) }

  /** The table finds the least padding of all code in which, other than x, no NOP is lost, if and only
      if x is not lost. */
  lemma ExactWithout(x: Unit)
    requires x.form == Memory ==> x.size > 0
    ensures !Lost(x) <==> forall units: seq<Unit>, start: nat :: OthersKept(units, x) ==> Exact(units, start)
  {
    if Lost(x) {
      var units := [x, Unit(Memory, 32, false)];
      LostLayout(x);
      assert !Exact(units, 0);
    } else {
      forall units: seq<Unit>, start: nat | OthersKept(units, x)
        ensures Exact(units, start)
      {
        NoneLostExact(units, start);
      }
    }
  }

  // ----- From one column to the next -----

  /** One column after another. */
  lemma ColumnStep(units: seq<Unit>, start: nat, col: seq<nat>, x: Unit, next: seq<nat>)
    requires Column(units, start, col) && Sound(col, x, next) && Complete(col, x, next) && 64 * |units| + 64 < INFTY
    ensures Column(units + [x], start, next)
  {
    var more := units + [x];
    forall places | TableLayout(more, start, places)
      ensures var c := next[EndOf(more, start, places) % 32]; c != INFTY && c <= CostOf(places)
    {
      var n := |units|;
      var q, p := places[..n], places[n];
      assert places == q + [p];
      Extended(units, start, q, x, p);
      var at := EndOf(units, start, q);
      TabledMod(x, at, p);
      assert col[at % 32] <= CostOf(q);
    }
    forall r | 0 <= r < 32 && next[r] != INFTY
      ensures Attained(more, start, r, next[r]) && next[r] <= 64 * |more|
    {
      assert Comes(col, x, r, next[r]);
      AttainedStep(units, start, col, x, r, next[r]);
    }
  }

  lemma AttainedStep(units: seq<Unit>, start: nat, col: seq<nat>, x: Unit, r: nat, c: nat)
    requires Column(units, start, col) && Comes(col, x, r, c)
    ensures Attained(units + [x], start, r, c) && c <= 64 * |units| + 64
  {
    var j: nat, p: Place :| j < 32 && col[j] != INFTY && Tabled(x, j, p) && After(x, j, p) % 32 == r &&
      c == col[j] + PlaceCost(p) && PlaceCost(p) <= 64;
    hide Tabled, After, PlaceCost;
    assert Attained(units, start, j, col[j]);
    var q :| TableLayout(units, start, q) && EndOf(units, start, q) % 32 == j && CostOf(q) == col[j];
    Extended(units, start, q, x, p);
    TabledMod(x, EndOf(units, start, q), p);
    assert TableLayout(units + [x], start, q + [p]);
  }

  // ----- Filling a column -----

  function Blank(): (col: seq<nat>)
    ensures |col| == 32 && forall r :: 0 <= r < 32 ==> col[r] == INFTY
  {
    seq(32, r => INFTY)
  }

  /** The least padding that moves residue j to residue k. */
  function Least(j: nat, k: nat): nat
    requires j < 32 && k < 32
  {
    if j <= k then k - j else 32 - j + k
  }

  lemma LeastPad(j: nat, k: nat, n: nat)
    requires j < 32 && k < 32
    ensures (j + Least(j, k)) % 32 == k && Least(j, k) < 32
    ensures (j + n) % 32 == k ==> Least(j, k) <= n
  {
  }

  /** Labels that are jump targets must be aligned. */
  method TargetStep(col: seq<nat>, x: Unit) returns (next: seq<nat>)
    requires |col| == 32 && x.form == TargetLabel && !x.nop
    requires forall r :: 0 <= r < 32 ==> col[r] == INFTY || col[r] + 64 < INFTY
    ensures Sound(col, x, next) && Complete(col, x, next)
  {
    next := Blank();
    var minCost := INFTY;
    ghost var from := 0;
    for j := 0 to 32
      invariant minCost <= INFTY
      invariant minCost != INFTY ==> from < j && col[from] != INFTY && minCost == col[from] + Least(from, 0)
      invariant forall m :: 0 <= m < j && col[m] != INFTY ==> minCost <= col[m] + Least(m, 0)
    {
      if col[j] != INFTY && col[j] + (32 - j) % 32 < minCost {
        minCost, from := col[j] + (32 - j) % 32, j;
      }
    }
    next := next[0 := minCost];
    if minCost != INFTY {
      LeastPad(from, 0, 0);
      assert Tabled(x, from, Pad(Least(from, 0))) && After(x, from, Pad(Least(from, 0))) % 32 == 0;
      assert Comes(col, x, 0, minCost);
    }
    forall j: nat, p: Place | j < 32 && col[j] != INFTY && Tabled(x, j, p)
      ensures After(x, j, p) % 32 == 0 && minCost <= col[j] + PlaceCost(p) && minCost <= col[j] + 64
    {
      LeastPad(j, 0, p.bytes);
    }
  }

  /** Calls must end at a bundle boundary. */
  method CallStep(col: seq<nat>, x: Unit) returns (next: seq<nat>)
    requires |col| == 32 && x.form == CallForm && !x.nop
    requires forall r :: 0 <= r < 32 ==> col[r] == INFTY || col[r] + 64 < INFTY
    ensures Sound(col, x, next) && Complete(col, x, next)
  {
    next := Blank();
    var minCost := INFTY;
    ghost var from := 0;
    for j := 0 to 28
      invariant minCost <= INFTY
      invariant minCost != INFTY ==> from < j && col[from] != INFTY && minCost == col[from] + Least(from, 27)
      invariant forall m :: 0 <= m < j && col[m] != INFTY ==> minCost <= col[m] + Least(m, 27)
    {
      if col[j] != INFTY && col[j] + (32 - 5 - j) < minCost {
        minCost, from := col[j] + (32 - 5 - j), j;
      }
    }
    for j := 28 to 32
      invariant minCost <= INFTY
      invariant minCost != INFTY ==> from < j && col[from] != INFTY && minCost == col[from] + Least(from, 27)
      invariant forall m :: 0 <= m < j && col[m] != INFTY ==> minCost <= col[m] + Least(m, 27)
    {
      if col[j] != INFTY && col[j] + (32 - j) + (32 - 5) < minCost {
        minCost, from := col[j] + (32 - j) + (32 - 5), j;
      }
    }
    next := next[0 := minCost];
    if minCost != INFTY {
      LeastPad(from, 27, 0);
      CallAt(x, from, Least(from, 27));
      assert Comes(col, x, 0, minCost);
    }
    forall j: nat, p: Place | j < 32 && col[j] != INFTY && Tabled(x, j, p)
      ensures After(x, j, p) % 32 == 0 && minCost <= col[j] + PlaceCost(p) && minCost <= col[j] + 64
    {
      LeastPad(j, 27, p.bytes);
      CallAt(x, j, p.bytes);
    }
  }

  lemma CallAt(x: Unit, j: nat, n: nat)
    requires x.form == CallForm && (j + n) % 32 == 27
    ensures Tabled(x, j, Pad(n)) && After(x, j, Pad(n)) % 32 == 0
  {
  }

  /** k modulo 32, for k up to 32. */
  function Wrap(k: nat): nat { if k == 32 then 0 else k }

  lemma MemoryAt(col: seq<nat>, x: Unit, j: nat)
    requires |col| == 32 && x.form == Memory && j < 32
    ensures forall p: Place :: p.Pad? && Tabled(x, j, p) ==>
            j + x.size <= 32 && p == Pad(0) && After(x, j, p) % 32 == Wrap(j + x.size)
    ensures j + x.size <= 32 ==> (j + x.size) % 32 == Wrap(j + x.size) && Tabled(x, j, Pad(0))
    ensures j + x.size <= 32 && col[j] != INFTY ==> Comes(col, x, Wrap(j + x.size), col[j])
  {
    if j + x.size <= 32 && col[j] != INFTY {
      assert Tabled(x, j, Pad(0)) && After(x, j, Pad(0)) % 32 == Wrap(j + x.size);
    }
  }

  /** Entry r once the accesses that follow residues below j are entered. */
  function MemoryEntry(col: seq<nat>, first: seq<nat>, size: nat, j: nat, r: nat): nat
    requires |col| == |first| == 32 && r < 32 && 0 < size
  {
    if size <= r && r - size < j then col[r - size]
    else if r == 0 && size <= 32 && 32 - size < j then col[32 - size]
    else first[r]
  }

  /** Memory accesses follow the previous instruction in the same bundle. */
  method MemoryStep(col: seq<nat>, x: Unit) returns (next: seq<nat>)
    requires |col| == 32 && x.form == Memory && 0 < x.size
    requires forall r :: 0 <= r < 32 ==> col[r] == INFTY || col[r] + 64 < INFTY
    ensures Sound(col, x, next) && Complete(col, x, next)
  {
    hide Comes, Tabled, After;
    var first := Blank();
    if x.nop {
      first := DropColumn(col);
    }
    next := first;
    var j := 0;
    while j + x.size <= 32
      invariant 0 <= j <= 32 && (j > 0 ==> j + x.size <= 33) && |next| == 32
      invariant forall r: nat :: r < 32 ==> next[r] == MemoryEntry(col, first, x.size, j, r)
      decreases 33 - j
    {
      next := next[(j + x.size) % 32 := col[j]];
      j := j + 1;
    }
    forall r: nat | r < 32 && next[r] != INFTY
      ensures Comes(col, x, r, next[r])
    {
      MemorySound(col, x, first, r);
    }
    forall m: nat, p: Place | m < 32 && col[m] != INFTY && Tabled(x, m, p)
      ensures next[After(x, m, p) % 32] <= col[m] + PlaceCost(p) && next[After(x, m, p) % 32] <= col[m] + 64
    {
      MemoryComplete(col, x, first, m, p);
    }
  }

  lemma MemorySound(col: seq<nat>, x: Unit, first: seq<nat>, r: nat)
    requires |col| == |first| == 32 && x.form == Memory && 0 < x.size && r < 32
    requires forall r :: 0 <= r < 32 ==> first[r] == if x.nop && col[r] != INFTY then col[r] + 1 else INFTY
    ensures var c := MemoryEntry(col, first, x.size, 33, r); c != INFTY ==> Comes(col, x, r, c)
  {
    if EndsAt(x.size, r) {
      MemoryAt(col, x, if r == 0 then 32 - x.size else r - x.size);
    } else if first[r] != INFTY {
      SmallResidue(r);
      assert Tabled(x, r, Drop) && After(x, r, Drop) % 32 == r;
    }
  }

  lemma MemoryComplete(col: seq<nat>, x: Unit, first: seq<nat>, m: nat, p: Place)
    requires |col| == |first| == 32 && x.form == Memory && 0 < x.size && m < 32 && col[m] != INFTY && Tabled(x, m, p)
    requires forall r :: 0 <= r < 32 ==> first[r] == if x.nop && col[r] != INFTY then col[r] + 1 else INFTY
    ensures MemoryEntry(col, first, x.size, 33, After(x, m, p) % 32) <= col[m] + PlaceCost(p)
    ensures MemoryEntry(col, first, x.size, 33, After(x, m, p) % 32) <= col[m] + 64
  {
    match p
    case Pad(_) => MemoryAt(col, x, m);
    case Drop => SmallResidue(m);
  }

  // ----- Normal instructions -----

  /** Placing x at residue k after residue j is accounted for. */
  ghost predicate Covered(col: seq<nat>, x: Unit, next: seq<nat>, j: nat, k: nat)
    requires |col| == |next| == 32 && j < 32 && k < 32
  {
    col[j] != INFTY && k + x.size <= 32 ==> next[(k + x.size) % 32] <= col[j] + Least(j, k)
  }

  method NormalStep(col: seq<nat>, x: Unit, first: seq<nat>) returns (next: seq<nat>)
    requires |col| == 32 && x.form == Normal && Sound(col, x, first)
    requires forall r :: 0 <= r < 32 ==> col[r] == INFTY || col[r] + 64 < INFTY
    ensures |next| == 32 && Sound(col, x, next) && (forall r :: 0 <= r < 32 ==> next[r] <= first[r])
    ensures forall j: nat, k: nat :: j < 32 && k < 32 ==> Covered(col, x, next, j, k)
  {
    next := first;
    for j := 0 to 32
      invariant Sound(col, x, next) && forall r :: 0 <= r < 32 ==> next[r] <= first[r]
      invariant forall m: nat, k: nat :: m < j && k < 32 ==> Covered(col, x, next, m, k)
    {
      ghost var before := next;
      next := SameBundle(col, x, next, j);
      ghost var mid := next;
      next := NextBundle(col, x, next, j);
      hide Covered, Comes;
      forall m: nat, k: nat | m <= j && k < 32
        ensures Covered(col, x, next, m, k)
      {
        if m < j {
          CoveredLower(col, x, before, next, m, k);
        } else if j <= k {
          CoveredLower(col, x, mid, next, m, k);
        }
      }
    }
  }

  lemma CoveredLower(col: seq<nat>, x: Unit, a: seq<nat>, b: seq<nat>, j: nat, k: nat)
    requires |col| == |a| == |b| == 32 && j < 32 && k < 32 && Covered(col, x, a, j, k)
    requires forall r :: 0 <= r < 32 ==> b[r] <= a[r]
    ensures Covered(col, x, b, j, k)
  {
  }

  /** A cheaper entry keeps a column sound and everything covered. */
  lemma Lowered(col: seq<nat>, x: Unit, a: seq<nat>, index: nat, c: nat)
    requires Sound(col, x, a) && index < 32 && c < a[index] && Comes(col, x, index, c)
    ensures Sound(col, x, a[index := c])
  {
    hide Comes;
  }

  lemma NormalAt(col: seq<nat>, x: Unit, j: nat, n: nat)
    requires |col| == 32 && x.form == Normal && j < 32 && col[j] != INFTY && n <= 64 && (j + n) % 32 + x.size <= 32
    ensures Comes(col, x, (j + n + x.size) % 32, col[j] + n)
  {
    assert Tabled(x, j, Pad(n));
  }

  lemma ModShift(a: nat, k: nat, s: nat)
    requires a % 32 == k % 32
    ensures (a + s) % 32 == (k + s) % 32
  {
  }

  /** Ways to fit into the bundle at hand. */
  method SameBundle(col: seq<nat>, x: Unit, first: seq<nat>, j: nat) returns (next: seq<nat>)
    requires |col| == |first| == 32 && x.form == Normal && Sound(col, x, first) && j < 32
    ensures |next| == 32 && Sound(col, x, next) && (forall r :: 0 <= r < 32 ==> next[r] <= first[r])
    ensures forall k: nat :: j <= k < 32 ==> Covered(col, x, next, j, k)
  {
    hide Comes, Sound;
    next := first;
    var k := j;
    while k + x.size <= 32
      invariant j <= k <= 33 && |next| == 32 && Sound(col, x, next) && forall r :: 0 <= r < 32 ==> next[r] <= first[r]
      invariant forall m: nat :: j <= m < k && m < 32 ==> Covered(col, x, next, j, m)
      decreases 33 - k
    {
      ghost var before := next;
      var index := (k + x.size) % 32;
      if col[j] != INFTY && col[j] + k - j < next[index] {
        NormalAt(col, x, j, k - j);
        Lowered(col, x, next, index, col[j] + k - j);
        next := next[index := col[j] + k - j];
      }
      assert k < 32 ==> Covered(col, x, next, j, k);
      forall m: nat | j <= m < k && m < 32
        ensures Covered(col, x, next, j, m)
      {
        CoveredLower(col, x, before, next, j, m);
      }
      k := k + 1;
    }
  }

  /** Ways to fit into the next bundle. */
  method NextBundle(col: seq<nat>, x: Unit, first: seq<nat>, j: nat) returns (next: seq<nat>)
    requires |col| == |first| == 32 && x.form == Normal && Sound(col, x, first) && j < 32
    ensures |next| == 32 && Sound(col, x, next) && (forall r :: 0 <= r < 32 ==> next[r] <= first[r])
    ensures forall k: nat :: k < j ==> Covered(col, x, next, j, k)
  {
    hide Comes, Sound;
    next := first;
    var k := 0;
    while k + x.size <= 32
      invariant 0 <= k <= 33 && |next| == 32 && Sound(col, x, next) && forall r :: 0 <= r < 32 ==> next[r] <= first[r]
      invariant forall m: nat :: m < k && m < j ==> Covered(col, x, next, j, m)
      decreases 33 - k
    {
      ghost var before := next;
      var index := (k + x.size) % 32;
      if col[j] != INFTY && col[j] + (32 - j) + k < next[index] {
        ModShift(j + (32 - j) + k, k, x.size);
        NormalAt(col, x, j, 32 - j + k);
        Lowered(col, x, next, index, col[j] + (32 - j) + k);
        next := next[index := col[j] + (32 - j) + k];
      }
      assert k < j ==> Covered(col, x, next, j, k);
      forall m: nat | m < k && m < j
        ensures Covered(col, x, next, j, m)
      {
        CoveredLower(col, x, before, next, j, m);
      }
      k := k + 1;
    }
  }

  /** For a cost of one an existing NOP leaves everything where it was. */
  method DropColumn(col: seq<nat>) returns (first: seq<nat>)
    requires |col| == 32
    ensures |first| == 32 && forall r :: 0 <= r < 32 ==> first[r] == if col[r] != INFTY then col[r] + 1 else INFTY
  {
    first := Blank();
    for j := 0 to 32
      invariant |first| == 32
      invariant forall r :: 0 <= r < 32 ==> first[r] == if r < j && col[r] != INFTY then col[r] + 1 else INFTY
    {
      if col[j] != INFTY {
        first := first[j := col[j] + 1];
      }
    }
  }

  /** Normal instructions, and existing NOPs, which may be dropped instead. */
  method PlaceNormal(col: seq<nat>, x: Unit) returns (next: seq<nat>)
    requires |col| == 32 && x.form == Normal && forall r :: 0 <= r < 32 ==> col[r] == INFTY || col[r] + 64 < INFTY
    ensures Sound(col, x, next) && Complete(col, x, next)
  {
    hide Comes, Covered, Complete;
    var first := Blank();
    if x.nop {
      first := DropColumn(col);
      DropSound(col, x, first);
    }
    next := NormalStep(col, x, first);
    NormalComplete(col, x, next);
  }

  lemma NormalComplete(col: seq<nat>, x: Unit, next: seq<nat>)
    requires |col| == |next| == 32 && x.form == Normal
    requires forall j: nat, k: nat :: j < 32 && k < 32 ==> Covered(col, x, next, j, k)
    requires x.nop ==> forall r :: 0 <= r < 32 && col[r] != INFTY ==> next[r] <= col[r] + 1
    ensures Complete(col, x, next)
  {
    hide Covered;
    forall j: nat, p: Place | j < 32 && col[j] != INFTY && Tabled(x, j, p)
      ensures next[After(x, j, p) % 32] <= col[j] + PlaceCost(p) && next[After(x, j, p) % 32] <= col[j] + 64
    {
      match p
      case Pad(n) => PadCovered(col, x, next, j, n);
      case Drop => SmallResidue(j);
    }
  }

  lemma SmallResidue(j: nat)
    requires j < 32
    ensures j % 32 == j
  {
  }

  lemma DropSound(col: seq<nat>, x: Unit, first: seq<nat>)
    requires |col| == |first| == 32 && x.nop && x.form == Normal
    requires forall r :: 0 <= r < 32 ==> first[r] == if col[r] != INFTY then col[r] + 1 else INFTY
    ensures Sound(col, x, first)
  {
    forall r | 0 <= r < 32 && first[r] != INFTY
      ensures Comes(col, x, r, first[r])
    {
      SmallResidue(r);
      assert Tabled(x, r, Drop) && After(x, r, Drop) % 32 == r;
    }
  }

  lemma PadCovered(col: seq<nat>, x: Unit, next: seq<nat>, j: nat, n: nat)
    requires |col| == |next| == 32 && x.form == Normal && j < 32 && col[j] != INFTY && Tabled(x, j, Pad(n))
    requires forall k: nat :: k < 32 ==> Covered(col, x, next, j, k)
    ensures next[After(x, j, Pad(n)) % 32] <= col[j] + n && next[After(x, j, Pad(n)) % 32] <= col[j] + 64
  {
    var k := (j + n) % 32;
    LeastPad(j, k, n);
    ModShift(j + n, k, x.size);
    assert Covered(col, x, next, j, k);
  }

  /** One column of the table from the previous one. */
  method NextColumn(col: seq<nat>, x: Unit) returns (next: seq<nat>)
    requires |col| == 32 && (x.nop ==> x.form == Normal || x.form == Memory) && (x.form == Memory ==> x.size > 0)
    requires forall r :: 0 <= r < 32 ==> col[r] == INFTY || col[r] + 64 < INFTY
    ensures Sound(col, x, next) && Complete(col, x, next)
  {
    match x.form
    case PlainLabel =>
      next := col;
      CopySound(col, x);
    case TargetLabel => next := TargetStep(col, x);
    case CallForm => next := CallStep(col, x);
    case Normal => next := PlaceNormal(col, x);
    case Memory => next := MemoryStep(col, x);
  }

  lemma CopySound(col: seq<nat>, x: Unit)
    requires |col| == 32 && x.form == PlainLabel && !x.nop
    ensures Sound(col, x, col) && Complete(col, x, col)
  {
    forall r | 0 <= r < 32 && col[r] != INFTY
      ensures Comes(col, x, r, col[r])
    {
      SmallResidue(r);
      assert Tabled(x, r, Pad(0)) && After(x, r, Pad(0)) % 32 == r;
    }
    forall j: nat, p: Place | j < 32 && col[j] != INFTY && Tabled(x, j, p)
      ensures After(x, j, p) % 32 == j
    {
      SmallResidue(j);
    }
  }

  // ----- The table -----

  /** The destinations of the jumps in the code. */
  method JumpTargets(code: seq<Instr>) returns (targets: set<nat>)
    ensures TargetsAre(code, targets)
  {
    targets := {};
    for i := 0 to |code|
      invariant forall l :: l in targets <==> exists k :: 0 <= k < i && code[k].kind == Jump(l)
    {
      if code[i].kind.Jump? {
        targets := targets + {code[i].kind.name};
      }
    }
  }

  /** Memory accesses are not empty. */
  ghost predicate Sane(code: seq<Instr>) { forall i :: 0 <= i < |code| && code[i].mem ==> code[i].size > 0 }

  /** The units go on with the unit that starts at instruction i. */
  lemma UnitsNext(code: seq<Instr>, targets: set<nat>, i: nat)
    requires i < |code| && !Paired(code, i)
    ensures Fuses(code, i) == Paired(code, i + 1)
    ensures var k := if Fuses(code, i) then i + 2 else i + 1;
            && k <= |code| && !Paired(code, k)
            && Units(code, targets, k) == Units(code, targets, i) + [UnitAt(code, targets, i)]
  {
  }

  lemma UnitSane(code: seq<Instr>, targets: set<nat>, i: nat)
    requires Sane(code) && i < |code|
    ensures var x := UnitAt(code, targets, i);
            (x.nop ==> x.form == Normal || x.form == Memory) && (x.form == Memory ==> x.size > 0)
  {
  }

  // ----- Layouts of the units are placements of the code -----

  ghost predicate TargetsAre(code: seq<Instr>, targets: set<nat>) { forall l :: l in targets <==> JumpedTo(code, l) }

  /** Two places for a pair, one for any other unit. */
  lemma UnitPlaced(code: seq<Instr>, targets: set<nat>, i: nat, from: nat, p: Place)
    requires i < |code| && !Paired(code, i) && TargetsAre(code, targets)
    requires Allowed(UnitAt(code, targets, i), from, p) && !Fuses(code, i)
    ensures PlacedAt(code, i, from, p, After(UnitAt(code, targets, i), from, p))
  {
    UnitsNext(code, targets, i);
    hide JumpedTo, Units;
  }

  lemma PairPlaced(code: seq<Instr>, targets: set<nat>, i: nat, from: nat, p: Place)
    requires i < |code| && !Paired(code, i) && TargetsAre(code, targets)
    requires Allowed(UnitAt(code, targets, i), from, p) && Fuses(code, i)
    ensures p.Pad? && i + 1 < |code|
    ensures var mid := from + p.bytes + Bytes(code, i);
            && PlacedAt(code, i, from, p, mid)
            && PlacedAt(code, i + 1, mid, Pad(0), After(UnitAt(code, targets, i), from, p))
  {
    UnitsNext(code, targets, i);
    hide JumpedTo, Units, TargetsAre;
  }

  lemma PlacedUnit(code: seq<Instr>, targets: set<nat>, i: nat, from: nat, p: Place, mid: nat, p': Place, to: nat)
    requires i < |code| && !Paired(code, i) && TargetsAre(code, targets)
    requires PlacedAt(code, i, from, p, mid)
    requires if Fuses(code, i) then i + 1 < |code| && PlacedAt(code, i + 1, mid, p', to) else to == mid
    ensures Allowed(UnitAt(code, targets, i), from, p) && After(UnitAt(code, targets, i), from, p) == to
    ensures Fuses(code, i) ==> PlaceCost(p') == 0
  {
    UnitsNext(code, targets, i);
    hide JumpedTo, Units;
  }

  lemma CostMore(places: seq<Place>, p: Place)
    ensures CostOf(places + [p]) == CostOf(places) + PlaceCost(p)
  {
    assert (places + [p])[..|places|] == places;
  }

  lemma PlaceMore(code: seq<Instr>, start: nat, at: seq<nat>, places: seq<Place>, p: Place, to: nat)
    requires Placement(code, start, at, places) && |places| < |code|
    requires PlacedAt(code, |places|, at[|places|], p, to)
    ensures Placement(code, start, at + [to], places + [p])
  {
    var more, all := at + [to], places + [p];
    forall i | 0 <= i < |all|
      ensures PlacedAt(code, i, more[i], all[i], more[i + 1])
    {
      if i < |places| {
        assert more[i] == at[i] && more[i + 1] == at[i + 1];
      }
    }
  }

  /** One more unit placed. */
  lemma UnitPlaces(code: seq<Instr>, targets: set<nat>, start: nat, at0: seq<nat>, places0: seq<Place>, p: Place)
    returns (at: seq<nat>, places: seq<Place>)
    requires Placement(code, start, at0, places0) && |places0| < |code| && !Paired(code, |places0|)
    requires |at0| == |places0| + 1 && TargetsAre(code, targets)
    requires Allowed(UnitAt(code, targets, |places0|), at0[|places0|], p)
    ensures Placement(code, start, at, places) && |at| == |places| + 1
    ensures |places| == if Fuses(code, |places0|) then |places0| + 2 else |places0| + 1
    ensures at[|places|] == After(UnitAt(code, targets, |places0|), at0[|places0|], p)
    ensures CostOf(places) == CostOf(places0) + PlaceCost(p)
  {
    var k := |places0|;
    var to := After(UnitAt(code, targets, k), at0[k], p);
    if Fuses(code, k) {
      PairPlaced(code, targets, k, at0[k], p);
      at, places := PlacePair(code, start, at0, places0, p, at0[k] + p.bytes + Bytes(code, k), to);
    } else {
      UnitPlaced(code, targets, k, at0[k], p);
      hide UnitAt, Allowed, After, CostOf, PlacedAt, TargetsAre, Placement, Fuses, Paired;
      CostMore(places0, p);
      PlaceMore(code, start, at0, places0, p, to);
      at, places := at0 + [to], places0 + [p];
    }
  }

  lemma PlacePair(code: seq<Instr>, start: nat, at0: seq<nat>, places0: seq<Place>, p: Place, mid: nat, to: nat)
    returns (at: seq<nat>, places: seq<Place>)
    requires Placement(code, start, at0, places0) && |places0| + 1 < |code| && |at0| == |places0| + 1
    requires PlacedAt(code, |places0|, at0[|places0|], p, mid) && PlacedAt(code, |places0| + 1, mid, Pad(0), to)
    ensures Placement(code, start, at, places) && |at| == |places| + 1 == |places0| + 3
    ensures at[|places|] == to && CostOf(places) == CostOf(places0) + PlaceCost(p)
  {
    hide CostOf, PlacedAt, Placement;
    CostMore(places0, p);
    PlaceMore(code, start, at0, places0, p, mid);
    var at1, places1 := at0 + [mid], places0 + [p];
    CostMore(places1, Pad(0));
    PlaceMore(code, start, at1, places1, Pad(0), to);
    at, places := at1 + [to], places1 + [Pad(0)];
  }

  /** The last of the units. */
  lemma LastUnit(code: seq<Instr>, targets: set<nat>, i: nat) returns (k: nat)
    requires 0 < i <= |code| && !Paired(code, i)
    ensures k < i && !Paired(code, k) && i == (if Fuses(code, k) then k + 2 else k + 1)
    ensures Units(code, targets, i) == Units(code, targets, k) + [UnitAt(code, targets, k)]
  {
    k := if Paired(code, i - 1) then i - 2 else i - 1;
    UnitsNext(code, targets, k);
  }

  lemma SplitLayout(units: seq<Unit>, x: Unit, start: nat, q: seq<Place>) returns (front: seq<Place>, p: Place)
    requires Layout(units + [x], start, q)
    ensures q == front + [p] && Layout(units, start, front) && Allowed(x, EndOf(units, start, front), p)
    ensures EndOf(units + [x], start, q) == After(x, EndOf(units, start, front), p)
    ensures CostOf(q) == CostOf(front) + PlaceCost(p)
  {
    var n := |units|;
    front, p := q[..n], q[n];
    assert q == front + [p];
    ExtendedRules(units, start, front, x, p);
    Extended(units, start, front, x, p);
  }

  /** A layout of the units is a placement of the instructions at the same cost, with the same end. */
  lemma {:induction false} LayoutPlaces(code: seq<Instr>, targets: set<nat>, start: nat, i: nat, q: seq<Place>)
    returns (at: seq<nat>, places: seq<Place>)
    requires i <= |code| && !Paired(code, i) && TargetsAre(code, targets)
    requires Layout(Units(code, targets, i), start, q)
    ensures Placement(code, start, at, places) && |places| == i && |at| == i + 1
    ensures at[i] == EndOf(Units(code, targets, i), start, q) && CostOf(places) == CostOf(q)
    decreases i
  {
    if i == 0 {
      at, places := [start], [];
    } else {
      var k := LastUnit(code, targets, i);
      hide Units, UnitAt, Allowed, After, Layout, CostOf, EndOf, TargetsAre, Placement, Paired, Fuses;
      var front, p := SplitLayout(Units(code, targets, k), UnitAt(code, targets, k), start, q);
      at, places := LayoutPlaces(code, targets, start, k, front);
      at, places := UnitPlaces(code, targets, start, at, places, p);
    }
  }

  lemma PlacementFront(code: seq<Instr>, start: nat, at: seq<nat>, places: seq<Place>, n: nat)
    requires Placement(code, start, at, places) && n <= |places|
    ensures Placement(code, start, at[..n + 1], places[..n])
  {
    forall i | 0 <= i < n
      ensures PlacedAt(code, i, at[..n + 1][i], places[..n][i], at[..n + 1][i + 1])
    {
      assert PlacedAt(code, i, at[i], places[i], at[i + 1]);
    }
  }

  /** The places of the last unit. */
  lemma UnitLays(code: seq<Instr>, targets: set<nat>, start: nat, at: seq<nat>, places: seq<Place>, k: nat)
    returns (p: Place)
    requires Placement(code, start, at, places) && k < |places| && !Paired(code, k) && TargetsAre(code, targets)
    requires |places| == if Fuses(code, k) then k + 2 else k + 1
    ensures |at| == |places| + 1 && Placement(code, start, at[..k + 1], places[..k])
    ensures Allowed(UnitAt(code, targets, k), at[k], p) && After(UnitAt(code, targets, k), at[k], p) == at[|places|]
    ensures CostOf(places) == CostOf(places[..k]) + PlaceCost(p)
  {
    var i := |places|;
    p := places[k];
    assert PlacedAt(code, k, at[k], p, at[k + 1]) && PlacedAt(code, i - 1, at[i - 1], places[i - 1], at[i]);
    PlacementFront(code, start, at, places, k);
    PlacedUnit(code, targets, k, at[k], p, at[k + 1], places[i - 1], at[i]);
    hide UnitAt, Allowed, After, CostOf, PlacedAt, TargetsAre, Placement, Paired;
    CostMore(places[..k], p);
    assert places[..k + 1] == places[..k] + [p];
    CostMore(places[..k + 1], places[i - 1]);
    assert places == if Fuses(code, k) then places[..k + 1] + [places[i - 1]] else places[..k + 1];
  }

  /** And every placement of the instructions comes from a layout of the units. */
  lemma {:induction false} PlacementLays(code: seq<Instr>, targets: set<nat>,
                                         start: nat, at: seq<nat>, places: seq<Place>)
    returns (q: seq<Place>)
    requires Placement(code, start, at, places) && |places| <= |code| && |at| == |places| + 1
    requires !Paired(code, |places|) && TargetsAre(code, targets)
    ensures Layout(Units(code, targets, |places|), start, q)
    ensures EndOf(Units(code, targets, |places|), start, q) == at[|places|] && CostOf(q) == CostOf(places)
    decreases |places|
  {
    if |places| == 0 {
      q := [];
    } else {
      var k := LastUnit(code, targets, |places|);
      hide Units, UnitAt, Allowed, After, Layout, CostOf, EndOf, TargetsAre, Placement, Paired, Fuses;
      var units, x := Units(code, targets, k), UnitAt(code, targets, k);
      var p := UnitLays(code, targets, start, at, places, k);
      q := PlacementLays(code, targets, start, at[..k + 1], places[..k]);
      ExtendedRules(units, start, q, x, p);
      Extended(units, start, q, x, p);
      q := q + [p];
    }
  }

  /** No NOP with a memory operand is shorter than 32 bytes, unless it is the access of a pair. */
  ghost predicate LongNops(code: seq<Instr>) {
    forall i: nat :: i < |code| && code[i].kind.Nop? && code[i].mem && !Paired(code, i) ==> code[i].size >= 32
  }

  lemma {:induction false} LongNopsKept(code: seq<Instr>, targets: set<nat>, i: nat)
    requires LongNops(code) && i <= |code| && !Paired(code, i)
    ensures NoneLost(Units(code, targets, i))
    decreases i
  {
    if i > 0 {
      var k := if Paired(code, i - 1) then i - 2 else i - 1;
      UnitsNext(code, targets, k);
      LongNopsKept(code, targets, k);
      assert !Lost(UnitAt(code, targets, k));
    }
  }

  lemma FirstColumn(start: nat)
    ensures Column([], start, Blank()[start % 32 := 0])
  {
    var col := Blank()[start % 32 := 0];
    forall places | TableLayout([], start, places)
      ensures col[EndOf([], start, places) % 32] == 0
    {
    }
    assert TableLayout([], start, []) && EndOf([], start, []) % 32 == start % 32 && CostOf([]) == 0;
    assert Attained([], start, start % 32, 0);
  }

  lemma ColumnRoom(units: seq<Unit>, start: nat, col: seq<nat>)
    requires Column(units, start, col) && 64 * |units| + 64 < INFTY
    ensures |col| == 32 && forall r :: 0 <= r < 32 ==> (col[r] == INFTY || col[r] + 64 < INFTY) && col[r] <= INFTY
  {
  }

  /** The column after unit i. */
  method PlaceUnit(code: seq<Instr>, targets: set<nat>, ghost done: seq<Unit>, ghost start: nat, col: seq<nat>, i: nat)
    returns (next: seq<nat>)
    requires Sane(code) && i < |code| && |done| <= |code| && 64 * |code| + 64 < INFTY && Column(done, start, col)
    ensures Column(done + [UnitAt(code, targets, i)], start, next)
  {
    hide Sound, Complete, Column, Sane, UnitAt;
    var x := UnitAt(code, targets, i);
    UnitSane(code, targets, i);
    ColumnRoom(done, start, col);
    next := NextColumn(col, x);
    ColumnStep(done, start, col, x, next);
  }

  /** The last column of the table. */
  method FillTable(code: seq<Instr>, targets: set<nat>, ripOffset: nat) returns (last: seq<nat>)
    requires Sane(code) && 64 * |code| + 64 < INFTY
    ensures Column(Units(code, targets, |code|), ripOffset, last)
  {
    hide Column, Sane, UnitAt, Fuses;
    var size := |code|;
    var table := seq(size + 1, i => Blank());
    table := table[0 := Blank()[ripOffset % 32 := 0]];
    FirstColumn(ripOffset);
    assert !Paired(code, 0) && Units(code, targets, 0) == [];
    hide Units, Paired;
    var i := 0;
    while i < size
      invariant 0 <= i <= size && |table| == size + 1 && !Paired(code, i)
      invariant Column(Units(code, targets, i), ripOffset, table[i])
      decreases size - i
    {
      UnitsNext(code, targets, i);
      var next := PlaceUnit(code, targets, Units(code, targets, i), ripOffset, table[i], i);
      if Fuses(code, i) {
        table := table[i + 1 := table[i]];
        i := i + 1;
      }
      table := table[i + 1 := next];
      i := i + 1;
    }
    last := table[size];
  }

  /** The score is infinite or the padding of some placement of the code that obeys the bundle rules.  If
      the code has no short NOP with a memory operand, no such placement pads with less, and an infinite
      score means that there is none; for all code, no layout that the table accounts for pads with less. */
  method Padding(code: seq<Instr>, ripOffset: nat) returns (score: nat, targets: set<nat>)
    requires Sane(code) && 64 * |code| + 64 < INFTY
    ensures TargetsAre(code, targets)
    ensures score != INFTY ==> exists at, places ::
              Placement(code, ripOffset, at, places) && |places| == |code| && CostOf(places) == score
    ensures LongNops(code) ==> forall at, places :: Placement(code, ripOffset, at, places) && |places| == |code| ==>
              score != INFTY && score <= CostOf(places)
    ensures forall q :: TableLayout(Units(code, targets, |code|), ripOffset, q) ==>
              score != INFTY && score <= CostOf(q)
  {
    targets := JumpTargets(code);
    hide Column, Sane, TableLayout, Layout, CostOf, Units, NoneLost, TargetsAre, PlacedAt, LongNops;
    var last := FillTable(code, targets, ripOffset);
    ghost var units := Units(code, targets, |code|);
    ColumnRoom(units, ripOffset, last);
    score := LeastEntry(last);
    LeastIsBest(units, ripOffset, last, score);
    if score != INFTY {
      ghost var q :| TableLayout(units, ripOffset, q) && CostOf(q) == score;
      TableObeys(units, ripOffset, q);
      ghost var at, places := LayoutPlaces(code, targets, ripOffset, |code|, q);
    }
    if LongNops(code) {
      LongNopsKept(code, targets, |code|);
      NoneLostExact(units, ripOffset);
      forall at, places | Placement(code, ripOffset, at, places) && |places| == |code|
        ensures score != INFTY && score <= CostOf(places)
      {
        var q := PlacementLays(code, targets, ripOffset, at, places);
      }
    }
  }

  method LeastEntry(col: seq<nat>) returns (score: nat)
    requires |col| == 32
    ensures score <= INFTY && (forall r :: 0 <= r < 32 ==> score <= col[r]) && (score == INFTY || score in col)
  {
    score := INFTY;
    for i := 0 to 32
      invariant score <= INFTY && (forall r :: 0 <= r < i ==> score <= col[r]) && (score == INFTY || score in col)
    {
      score := if score < col[i] then score else col[i];
    }
  }

  lemma LeastIsBest(units: seq<Unit>, start: nat, col: seq<nat>, score: nat)
    requires Column(units, start, col) && score <= INFTY && (forall r :: 0 <= r < 32 ==> score <= col[r])
    requires score == INFTY || score in col
    requires forall r :: 0 <= r < 32 ==> col[r] <= INFTY
    ensures forall places :: TableLayout(units, start, places) ==> score != INFTY && score <= CostOf(places)
    ensures score != INFTY ==> exists places :: TableLayout(units, start, places) && CostOf(places) == score
  {
    if score != INFTY {
      var r :| 0 <= r < 32 && col[r] == score;
      assert Attained(units, start, r, score);
    }
  }
}
