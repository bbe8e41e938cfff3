/** The search moves (src/transform/rotate.cc, global_swap.cc, delete.cc, add_nops.cc, opcode.cc): each
    edits the code in place, and its undo restores code, displacements and tables exactly. */
module Moves {
  import opened TUnits
  import opened Searches

  // ----- What the moves do -----

  /** A move and the positions it drew; an opcode move also drew the new instruction. */
  datatype Move =
    | RotateMove(x: nat, y: nat)
    | SwapMove(x: nat, y: nat)
    | DeleteMove(index: nat)
    | NopMove(index: nat)
    | OpcodeMove(index: nat, instr: Instr)

  /** What the undo of a move needs: the instruction that was removed or replaced. */
  datatype Info = Info(move: Move, instr: Instr)

  const NOP := Instr(0, 1, false, false, 0)

  /** Short code, equal positions and control instructions are refused. */
  predicate Possible(code: seq<Instr>, move: Move, isControl: Instr -> bool) {
    match move
    case RotateMove(x, y) => |code| >= 3 && x < |code| && y < |code| && x != y && !isControl(code[x]) &&
      !isControl(code[y])
    case SwapMove(x, y) => |code| >= 3 && x < |code| && y < |code| && x != y && !isControl(code[x]) &&
      !isControl(code[y])
    case DeleteMove(index) => |code| >= 3 && index < |code| && !isControl(code[index])
    case NopMove(index) => |code| >= 3 && index < |code|
    case OpcodeMove(index, _) => index < |code| && !isControl(code[index])
  }

  /** Where the instructions come from in a move. */
  function Forth(n: nat, move: Move): seq<int> {
    match move
    case RotateMove(x, y) => Rotation(n, x, y)
    case SwapMove(x, y) => Swapped(n, x, y)
    case DeleteMove(index) => if index < n then Without(n, index) else Identity(n)
    case NopMove(index) => With(n, index)
    case OpcodeMove(index, _) => Except(n, index)
  }

  /** Where they come from when it is undone. */
  function Back(n: nat, move: Move): seq<int> {
    match move
    case RotateMove(x, y) => Rotation(n, y, x)
    case SwapMove(x, y) => Swapped(n, x, y)
    case DeleteMove(index) => With(n, index)
    case NopMove(index) => if index < n then Without(n, index) else Identity(n)
    case OpcodeMove(index, _) => Except(n, index)
  }

  /** The instruction a move brings in; a new opcode keeps the address of its operand. */
  function Added(code: seq<Instr>, move: Move): Instr {
    if move.OpcodeMove? && move.index < |code| then Patch(move.instr, code[move.index].size - move.instr.size) else NOP
  }

  /** The instruction it takes out. */
  function Removed(code: seq<Instr>, move: Move): Instr {
    if (move.DeleteMove? || move.OpcodeMove?) && move.index < |code| then code[move.index] else NOP
  }

  /** A rearrangement by positions that exist. */
  function Rearrange(code: seq<Instr>, from: seq<int>, added: Instr): seq<Instr> {
    if forall k :: 0 <= k < |from| ==> from[k] < |code| then Arrange(code, from, added) else code
  }

  /** The code a move leads to. */
  function Next(code: seq<Instr>, move: Move): seq<Instr> { Rearrange(code, Forth(|code|, move), Added(code, move)) }

  /** A move on the code alone: it is kept if possible and the new code passes the check. */
  function Apply(code: seq<Instr>, move: Move, isControl: Instr -> bool, check: seq<Instr> -> bool)
    : (bool, seq<Instr>, Info)
  {
    var info := Info(move, Removed(code, move));
    var next := Next(code, move);
    if Possible(code, move, isControl) && check(next) then (true, next, info) else (false, code, info)
  }

  function Undo(code: seq<Instr>, info: Info): seq<Instr> { Rearrange(code, Back(|code|, info.move), info.instr) }

  /** The moves as the search takes them. */
  function MoveTransform(isControl: Instr -> bool, check: seq<Instr> -> bool): Transform<seq<Instr>, Move, Info> {
    Transform((code: seq<Instr>, move: Move) => Apply(code, move, isControl, check),
              (code: seq<Instr>, info: Info) => Undo(code, info))
  }

  /** q takes back what p did; positions that q fills anew lie at `anew`. */
  ghost predicate TakesBack(p: seq<int>, q: seq<int>, n: nat, anew: int) {
    && |q| == n && (forall k :: 0 <= k < |p| ==> p[k] < n)
    && forall k :: 0 <= k < n ==> if q[k] < 0 then k == anew else q[k] < |p| && p[q[k]] == k
  }

  lemma RotationBack(n: nat, x: nat, y: nat)
    requires x < n && y < n
    ensures |Rotation(n, x, y)| == n && TakesBack(Rotation(n, x, y), Rotation(n, y, x), n, -1)
  {
  }

  lemma SwappedBack(n: nat, x: nat, y: nat)
    requires x < n && y < n
    ensures |Swapped(n, x, y)| == n && TakesBack(Swapped(n, x, y), Swapped(n, x, y), n, -1)
  {
  }

  lemma WithBack(n: nat, index: nat)
    requires index < n
    ensures TakesBack(Without(n, index), With(n - 1, index), n, index) && |Without(n, index)| == n - 1
  {
  }

  lemma WithoutBack(n: nat, index: nat)
    requires index < n
    ensures TakesBack(With(n, index), Without(n + 1, index), n, -1) && |With(n, index)| == n + 1
  {
  }

  lemma ForthAndBack(code: seq<Instr>, move: Move, isControl: Instr -> bool)
    requires Possible(code, move, isControl)
    ensures var p := Forth(|code|, move);
            var q := Back(|p|, move);
            && Sources(code, p) && |q| == |code|
            && forall k :: 0 <= k < |q| ==>
                 if q[k] < 0 then k < |code| && Removed(code, move) == code[k] else q[k] < |p| && p[q[k]] == k
  {
    match move
    case RotateMove(x, y) => RotationBack(|code|, x, y);
    case SwapMove(x, y) => SwappedBack(|code|, x, y);
    case DeleteMove(index) => WithBack(|code|, index);
    case NopMove(index) => WithoutBack(|code|, index);
    case OpcodeMove(index, _) =>
  }

  /** The code a move leads to, instruction by instruction but for the displacements: the first of two
      rotated instructions lies where the second was, and what was in between and at the second moves one
      place towards the first. */
  lemma NextMeans(code: seq<Instr>, move: Move)
    ensures move.RotateMove? && move.x < |code| && move.y < |code| ==>
      var c, r, x, y := Bare(code), Bare(Next(code, move)), move.x, move.y;
      && |r| == |c| && r[y] == c[x]
      && (x < y ==> r[..x] == c[..x] && r[x..y] == c[x + 1..y + 1] && r[y + 1..] == c[y + 1..])
      && (y < x ==> r[..y] == c[..y] && r[y + 1..x + 1] == c[y..x] && r[x + 1..] == c[x + 1..])
    ensures move.SwapMove? && move.x < |code| && move.y < |code| ==>
      var c := Bare(code); Bare(Next(code, move)) == c[move.x := c[move.y]][move.y := c[move.x]]
    ensures move.DeleteMove? && move.index < |code| ==>
      var c := Bare(code); Bare(Next(code, move)) == c[..move.index] + c[move.index + 1..]
    ensures move.NopMove? && move.index < |code| ==>
      var c := Bare(code); Bare(Next(code, move)) == c[..move.index] + [NOP] + c[move.index..]
    ensures move.OpcodeMove? && move.index < |code| ==>
      Bare(Next(code, move)) == Bare(code)[move.index := move.instr.(disp := 0)]
  {
    if move.RotateMove? || move.SwapMove? {
      if move.x < |code| && move.y < |code| {
        PairMeans(code, move);
      }
    } else if move.index < |code| {
      SingleMeans(code, move);
    }
  }

  lemma PairMeans(code: seq<Instr>, move: Move)
    requires (move.RotateMove? || move.SwapMove?) && move.x < |code| && move.y < |code|
    ensures var c, r, x, y := Bare(code), Bare(Next(code, move)), move.x, move.y;
            if move.SwapMove? then r == c[x := c[y]][y := c[x]]
            else if x < y then r == c[..x] + c[x + 1..y + 1] + [c[x]] + c[y + 1..]
            else r == c[..y] + [c[x]] + c[y..x] + c[x + 1..]
  {
    var x, y := move.x, move.y;
    RearrangeRelocates(code, Forth(|code|, move), Added(code, move));
    hide Rearrange, Relocated;
    if move.SwapMove? {
      SwappedBare(code, Next(code, move), x, y);
    } else if x < y {
      RotatedLeftBare(code, Next(code, move), x, y);
    } else {
      RotatedRightBare(code, Next(code, move), y, x);
    }
  }

  lemma SingleMeans(code: seq<Instr>, move: Move)
    requires !move.RotateMove? && !move.SwapMove? && move.index < |code|
    ensures var c, r, i := Bare(code), Bare(Next(code, move)), move.index;
            match move
            case DeleteMove(_) => r == c[..i] + c[i + 1..]
            case NopMove(_) => r == c[..i] + [NOP] + c[i..]
            case OpcodeMove(_, instr) => r == c[i := instr.(disp := 0)]
            case _ => false
  {
    RearrangeRelocates(code, Forth(|code|, move), Added(code, move));
    var next := Next(code, move);
    assert !move.DeleteMove? ==> next[move.index] == Added(code, move);
    hide Rearrange, Relocated, Next;
    match move
    case DeleteMove(index) => WithoutBare(code, next, index);
    case NopMove(index) => WithBare(code, next, index);
    case OpcodeMove(index, _) => ExceptBare(code, next, index);
  }

  /** Code moved as the move says is what it leaves, if it passes the check. */
  lemma Applies(a: seq<Instr>, move: Move, isControl: Instr -> bool, check: seq<Instr> -> bool, b: seq<Instr>)
    requires Possible(a, move, isControl) && Relocated(a, b, Forth(|a|, move))
    requires forall k :: 0 <= k < |b| && Forth(|a|, move)[k] < 0 ==> b[k] == Added(a, move)
    ensures Apply(a, move, isControl, check) == (check(b), if check(b) then b else a, Info(move, Removed(a, move)))
    ensures b == Next(a, move)
  {
    ForthAndBack(a, move, isControl);
    hide Forth, Back, Added, Removed, Possible, Rearrange, Relocated;
    RearrangeOnly(a, Forth(|a|, move), Added(a, move), b);
  }

  lemma RearrangeOnly(a: seq<Instr>, from: seq<int>, added: Instr, b: seq<Instr>)
    requires Sources(a, from) && Relocated(a, b, from) && forall k :: 0 <= k < |b| && from[k] < 0 ==> b[k] == added
    ensures b == Rearrange(a, from, added)
  {
    forall k: nat | k < |b|
      ensures ArrangedAt(a, from, added, b, k)
    {
      hide Moved;
    }
    hide Relocated, ArrangedAt, Arrange;
    ArrangeExactly(a, from, added, b);
  }

  lemma RearrangeRelocates(a: seq<Instr>, from: seq<int>, added: Instr)
    requires Sources(a, from)
    ensures var b := Rearrange(a, from, added);
            Relocated(a, b, from) && forall k :: 0 <= k < |b| && from[k] < 0 ==> b[k] == added
  {
    var b := Rearrange(a, from, added);
    ArrangeExactly(a, from, added, b);
    forall k | 0 <= k < |b|
      ensures if from[k] < 0 then b[k] == added else Moved(a, from[k], b, k)
    {
      assert ArrangedAt(a, from, added, b, k);
    }
  }

  /** Every move is undone exactly, so the moves are a transform as the search needs one. */
  lemma MovesUndo(isControl: Instr -> bool, check: seq<Instr> -> bool)
    ensures MoveTransform(isControl, check).Valid()
  {
    forall code: seq<Instr>, move: Move
      ensures MoveTransform(isControl, check).Undoes(code, move)
    {
      if Possible(code, move, isControl) {
        UndoneExactly(code, move, isControl);
      }
    }
  }

  lemma UndoneExactly(code: seq<Instr>, move: Move, isControl: Instr -> bool)
    requires Possible(code, move, isControl)
    ensures Undo(Next(code, move), Info(move, Removed(code, move))) == code
  {
    var p := Forth(|code|, move);
    var q := Back(|p|, move);
    ForthAndBack(code, move, isControl);
    hide Forth, Back, Added, Removed, Possible;
    RearrangeRelocates(code, p, Added(code, move));
    var next := Rearrange(code, p, Added(code, move));
    RearrangeRelocates(next, q, Removed(code, move));
    hide Rearrange;
    UndoExact(code, next, Rearrange(next, q, Removed(code, move)), p, q);
  }

  // ----- Rotate -----

  /** Where a rotate move of x and y takes the instructions. */
  function Rotation(n: nat, x: nat, y: nat): seq<int> { if x < y then RotatedLeft(n, x, y) else RotatedRight(n, y, x) }

  method RotateUndo(u: TUnit, x: nat, y: nat, ghost before: seq<Instr>)
    requires u.Valid() && x < |u.code| && y < |u.code| && x != y && |before| == |u.code|
    requires Relocated(before, u.code, Rotation(|before|, x, y))
    modifies u
    ensures u.Valid() && u.code == before
  {
    ghost var moved := u.code;
    if x < y {
      u.RotateRight(x, y);
      UndoExact(before, moved, u.code, RotatedLeft(|before|, x, y), RotatedRight(|before|, x, y));
    } else {
      u.RotateLeft(y, x);
      UndoExact(before, moved, u.code, RotatedRight(|before|, y, x), RotatedLeft(|before|, y, x));
    }
  }

  /** The move; `check` stands for the CFG invariants of the new code. */
  method Rotate(u: TUnit, x: nat, y: nat, isControl: Instr -> bool, check: seq<Instr> -> bool) returns (success: bool)
    requires u.Valid() && (|u.code| >= 3 ==> x < |u.code| && y < |u.code|)
    modifies u
    ensures u.Valid()
    ensures var r := Apply(old(u.code), RotateMove(x, y), isControl, check); success == r.0 && u.code == r.1
    ensures success <==>
              (old(|u.code|) >= 3 && x != y && !isControl(old(u.code)[x]) && !isControl(old(u.code)[y]) &&
               check(Next(old(u.code), RotateMove(x, y))))
    ensures success ==> check(u.code) && Relocated(old(u.code), u.code, Rotation(old(|u.code|), x, y))
    ensures success ==>
      var c := old(Bare(u.code));
      Bare(u.code) == if x < y then c[..x] + c[x + 1..y + 1] + [c[x]] + c[y + 1..]
                      else c[..y] + [c[x]] + c[y..x] + c[x + 1..]
    ensures !success ==> u.code == old(u.code) && u.offsets == old(u.offsets) && u.sizes == old(u.sizes)
  {
    if |u.code| < 3 || x == y || isControl(u.code[x]) || isControl(u.code[y]) {
      return false;
    }
    ghost var code, offsets, sizes := u.code, u.offsets, u.sizes;
    if x < y {
      u.RotateLeft(x, y);
    } else {
      u.RotateRight(y, x);
    }
    Applies(code, RotateMove(x, y), isControl, check, u.code);
    if !check(u.code) {
      RotateUndo(u, x, y, code);
      TablesUnique(code, offsets, sizes, u.offsets, u.sizes);
      return false;
    }
    success := true;
  }

  // ----- Swap -----

  method SwapUndo(u: TUnit, x: nat, y: nat, ghost before: seq<Instr>)
    requires u.Valid() && x < |u.code| && y < |u.code| && |before| == |u.code|
    requires Relocated(before, u.code, Swapped(|before|, x, y))
    modifies u
    ensures u.Valid() && u.code == before
  {
    ghost var moved := u.code;
    u.Swap(x, y);
    UndoExact(before, moved, u.code, Swapped(|before|, x, y), Swapped(|before|, x, y));
  }

  method GlobalSwap(u: TUnit, x: nat, y: nat, isControl: Instr -> bool, check: seq<Instr> -> bool)
    returns (success: bool)
    requires u.Valid() && (|u.code| >= 3 ==> x < |u.code| && y < |u.code|)
    modifies u
    ensures u.Valid()
    ensures var r := Apply(old(u.code), SwapMove(x, y), isControl, check); success == r.0 && u.code == r.1
    ensures success <==>
              (old(|u.code|) >= 3 && x != y && !isControl(old(u.code)[x]) && !isControl(old(u.code)[y]) &&
               check(Next(old(u.code), SwapMove(x, y))))
    ensures success ==> check(u.code) && Relocated(old(u.code), u.code, Swapped(old(|u.code|), x, y))
    ensures success ==> var c := old(Bare(u.code)); Bare(u.code) == c[x := c[y]][y := c[x]]
    ensures !success ==> u.code == old(u.code) && u.offsets == old(u.offsets) && u.sizes == old(u.sizes)
  {
    if |u.code| < 3 || x == y || isControl(u.code[x]) || isControl(u.code[y]) {
      return false;
    }
    ghost var code, offsets, sizes := u.code, u.offsets, u.sizes;
    u.Swap(x, y);
    Applies(code, SwapMove(x, y), isControl, check, u.code);
    if !check(u.code) {
      SwapUndo(u, x, y, code);
      TablesUnique(code, offsets, sizes, u.offsets, u.sizes);
      return false;
    }
    success := true;
  }

  // ----- Delete -----

  method DeleteUndo(u: TUnit, index: nat, instr: Instr, ghost before: seq<Instr>)
    requires u.Valid() && index < |before| && |u.code| == |before| - 1 && instr == before[index]
    requires Relocated(before, u.code, Without(|before|, index))
    modifies u
    ensures u.Valid() && u.code == before
  {
    ghost var moved := u.code;
    u.Insert(index, instr, false);
    UndoExact(before, moved, u.code, Without(|before|, index), With(|moved|, index));
  }

  /** The move also reports the instruction its undo needs. */
  method Delete(u: TUnit, index: nat, isControl: Instr -> bool, check: seq<Instr> -> bool)
    returns (success: bool, undo: Instr)
    requires u.Valid() && (|u.code| >= 3 ==> index < |u.code|)
    modifies u
    ensures u.Valid()
    ensures var r := Apply(old(u.code), DeleteMove(index), isControl, check);
            success == r.0 && u.code == r.1 && (success ==> undo == r.2.instr)
    ensures success <==>
      old(|u.code|) >= 3 && !isControl(old(u.code)[index]) && check(Next(old(u.code), DeleteMove(index)))
    ensures success ==> index < old(|u.code|) && undo == old(u.code)[index]
    ensures success ==> check(u.code) && |u.code| == old(|u.code|) - 1
    ensures success ==> Relocated(old(u.code), u.code, Without(old(|u.code|), index))
    ensures success ==> var c := old(Bare(u.code)); Bare(u.code) == c[..index] + c[index + 1..]
    ensures !success ==> u.code == old(u.code) && u.offsets == old(u.offsets) && u.sizes == old(u.sizes)
  {
    undo := NOP;
    if |u.code| < 3 {
      return false, undo;
    }
    undo := u.code[index];
    if isControl(undo) {
      return false, undo;
    }
    ghost var code, offsets, sizes := u.code, u.offsets, u.sizes;
    u.Remove(index);
    Applies(code, DeleteMove(index), isControl, check, u.code);
    if !check(u.code) {
      DeleteUndo(u, index, undo, code);
      TablesUnique(code, offsets, sizes, u.offsets, u.sizes);
      return false, undo;
    }
    success := true;
  }

  // ----- NOP insertion -----

  method AddNopUndo(u: TUnit, index: nat, ghost before: seq<Instr>)
    requires u.Valid() && index <= |before| && |u.code| == |before| + 1
    requires Relocated(before, u.code, With(|before|, index))
    modifies u
    ensures u.Valid() && u.code == before
  {
    ghost var moved := u.code;
    u.Remove(index);
    UndoExact(before, moved, u.code, With(|before|, index), Without(|moved|, index));
  }

  method AddNop(u: TUnit, index: nat, ghost isControl: Instr -> bool, check: seq<Instr> -> bool) returns (success: bool)
    requires u.Valid() && (|u.code| >= 3 ==> index < |u.code|)
    modifies u
    ensures u.Valid()
    ensures var r := Apply(old(u.code), NopMove(index), isControl, check); success == r.0 && u.code == r.1
    ensures success <==> old(|u.code|) >= 3 && check(Next(old(u.code), NopMove(index)))
    ensures success ==> check(u.code) && |u.code| == old(|u.code|) + 1 && index < |u.code| && u.code[index] == NOP
    ensures success ==> Relocated(old(u.code), u.code, With(old(|u.code|), index))
    ensures success ==> var c := old(Bare(u.code)); Bare(u.code) == c[..index] + [NOP] + c[index..]
    ensures !success ==> u.code == old(u.code) && u.offsets == old(u.offsets) && u.sizes == old(u.sizes)
  {
    if |u.code| < 3 {
      return false;
    }
    ghost var code, offsets, sizes := u.code, u.offsets, u.sizes;
    u.Insert(index, NOP, false);
    Applies(code, NopMove(index), isControl, check, u.code);
    if !check(u.code) {
      AddNopUndo(u, index, code);
      TablesUnique(code, offsets, sizes, u.offsets, u.sizes);
      return false;
    }
    success := true;
  }

  // ----- Opcode -----

  method OpcodeUndo(u: TUnit, index: nat, instr: Instr, ghost before: seq<Instr>)
    requires u.Valid() && index < |before| == |u.code| && instr == before[index]
    requires Relocated(before, u.code, Except(|before|, index))
    modifies u
    ensures u.Valid() && u.code == before
  {
    ghost var moved := u.code;
    u.Replace(index, instr, true, false);
    UndoExact(before, moved, u.code, Except(|before|, index), Except(|before|, index));
  }

  /** Replace the opcode (and with it the size) of an instruction; its operands stay, so a
      RIP-relative one must go on naming the same address. */
  method Opcode(u: TUnit, index: nat, instr: Instr, isControl: Instr -> bool, check: seq<Instr> -> bool)
    returns (success: bool, undo: Instr)
    requires u.Valid() && index < |u.code|
    modifies u
    ensures u.Valid() && undo == old(u.code)[index]
    ensures var r := Apply(old(u.code), OpcodeMove(index, instr), isControl, check);
            success == r.0 && u.code == r.1 && undo == r.2.instr
    ensures success <==> !isControl(old(u.code)[index]) && check(Next(old(u.code), OpcodeMove(index, instr)))
    ensures success ==> check(u.code) && Relocated(old(u.code), u.code, Except(old(|u.code|), index))
    ensures success ==> |u.code| == old(|u.code|) && Bare(u.code) == old(Bare(u.code))[index := instr.(disp := 0)]
    ensures success && instr.rip && instr.disp == undo.disp ==>
      u.code[index].rip && Target(u.ripOffset, u.code, index) == Target(u.ripOffset, old(u.code), index)
    ensures !success ==> u.code == old(u.code) && u.offsets == old(u.offsets) && u.sizes == old(u.sizes)
  {
    undo := u.code[index];
    if isControl(undo) {
      return false, undo;
    }
    ghost var code, offsets, sizes := u.code, u.offsets, u.sizes;
    hide Apply, Rearrange, TargetsOf, Offset;
    u.Replace(index, instr, false, false);
    NewOpcode(u.ripOffset, code, u.code, index, instr);
    hide Target, End, Patch;
    Applies(code, OpcodeMove(index, instr), isControl, check, u.code);
    if !check(u.code) {
      OpcodeUndo(u, index, undo, code);
      TablesUnique(code, offsets, sizes, u.offsets, u.sizes);
      return false, undo;
    }
    KeepsTarget(u.ripOffset, code, u.code, index, instr);
    success := true;
  }

  /** The new instruction's displacement is corrected for its size. */
  lemma NewOpcode(base: int, a: seq<Instr>, b: seq<Instr>, i: nat, instr: Instr)
    requires i < |a| == |b| && Relocated(a, b, Except(|a|, i)) && b[i] == instr.(disp := b[i].disp)
    requires if !instr.rip then b[i].disp == instr.disp
             else Target(base, b, i) == base + Offset(a, i) + a[i].size + instr.disp
    ensures b[i] == Patch(instr, a[i].size - instr.size)
  {
    PrefixOffset(a, b, i);
  }

  lemma KeepsTarget(base: int, a: seq<Instr>, b: seq<Instr>, i: nat, instr: Instr)
    requires i < |a| == |b| && Relocated(a, b, Except(|a|, i)) && b[i] == Patch(instr, a[i].size - instr.size)
    ensures instr.rip && instr.disp == a[i].disp ==> b[i].rip && Target(base, b, i) == Target(base, a, i)
  {
    PrefixOffset(a, b, i);
  }

  lemma PrefixOffset(a: seq<Instr>, b: seq<Instr>, i: nat)
    requires i < |a| == |b| && Relocated(a, b, Except(|a|, i))
    ensures Offset(a, i) == Offset(b, i)
  {
    var from := Except(|a|, i);
    forall k | 0 <= k < i
      ensures a[k].size == b[k].size
    {
      assert Moved(a, from[k], b, k);
    }
    OffsetSameSizes(a, b, i);
  }
}
