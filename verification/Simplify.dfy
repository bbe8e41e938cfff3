/** The term simplifier (src/symstate/simplify.cc over src/symstate/transform_visitor.h): three
    bottom-up rewriting passes, run in turn until nothing changes. */
module Simplify {
  import opened Bits
  import opened NormalForms
  import opened Terms

  // ----- Merging extracts -----

  function Merge(t: Term): Term {
    match t
    case Extract(x, high, low) =>
      if Width(x) == Width(t) then x
      else if x.Extract? then Extract(x.bv, high + x.low, low + x.low)
      else t
    case Binop(op, x, y) =>
      if op == Concat && x.Extract? && y.Extract? && x.bv == y.bv && x.low == y.high + 1
      then Extract(x.bv, x.high, y.low)
      else t
    case _ => t
  }

  // ----- Moving extracts inwards -----

  function Monus(a: nat, b: nat): nat { if a < b then 0 else a - b }

  function Move(t: Term): Term {
    match t
    case Extract(Binop(op, x, y), high, low) =>
      if op == And || op == Or || op == Xor then Binop(op, Extract(x, high, low), Extract(y, high, low))
      else if op == Concat then
        var w := Width(y);
        if low >= w then Extract(x, Monus(high, w), low - w)
        else if high < w then Extract(y, high, low)
        else Binop(Concat, Extract(x, high - w, 0), Extract(y, w - 1, low))
      else t
    case Extract(SignExtend(x, _), high, low) => if high < Width(x) then Extract(x, high, low) else t
    case Extract(Ite(c, x, y), high, low) => Ite(c, Extract(x, high, low), Extract(y, high, low))
    case Extract(Unop(op, x), high, low) => if op == Not then Unop(Not, Extract(x, high, low)) else t
    case _ => t
  }

  // ----- Constant propagation -----

  /** The low bits of a word; constants wider than a word are zero. */
  function Mask(n: nat, c: nat): nat { if n < 64 then c % Pow2(n) else c }

  function ReadConst(t: Term): nat
    requires t.Const?
  {
    Mask(t.size, t.value)
  }

  /** The constant shifted to the top of a word and back with its sign. */
  function ReadSigned(t: Term): int
    requires t.Const?
  {
    if t.size > 64 then ReadConst(t)
    else SignedWord(ReadConst(t) * Pow2(64 - t.size), 64) / Pow2(64 - t.size)
  }

  function MakeConst(n: nat, c: int): (r: Term)
    ensures r.Const? && r.size == n
  {
    Const(n, Mask(n, c % Pow2(64)))
  }

  predicate IsZero(t: Term) { t.Const? && ReadConst(t) == 0 }

  predicate Foldable(op: BvOp) {
    op == And || op == Concat || op == Minus || op == Mod || op == Mult || op == Or || op == Plus || op == Xor
  }

  function FoldBinop(op: BvOp, n: nat, x: Term, y: Term): Term
    requires x.Const? && y.Const?
  {
    var l, r := ReadConst(x), ReadConst(y);
    var ls, rs := ReadSigned(x), ReadSigned(y);
    MakeConst(n,
              match op
              case And => AndWord(l, r, 64)
              case Concat => OrWord(l * Pow2(Width(y)) % Pow2(64), r, 64)
              case Minus => ls - rs
              case Mod => SignedRem(ls, rs)
              case Mult => ls * rs
              case Or => OrWord(l, r, 64)
              case Plus => ls + rs
              case Xor => XorWord(l, r, 64)
              case _ => 0)
  }

  function PropBinop(t: Term): Term
    requires t.Binop?
  {
    var Binop(op, x, y) := t;
    if x.Const? && y.Const? && Width(t) <= 64 && Foldable(op) then FoldBinop(op, Width(t), x, y)
    else if op == Plus && IsZero(x) then y
    else if op == Plus && IsZero(y) then x
    else if op == Minus && IsZero(y) then x
    else if x.Ite? && x.a.Const? && y.Const? then Ite(x.cond, Binop(op, x.a, y), Binop(op, x.b, y))
    else if y.Ite? && y.a.Const? && x.Const? then Ite(y.cond, Binop(op, x, y.a), Binop(op, x, y.b))
    else if op == Xor && x == y then MakeConst(Width(t), 0)
    else if op == Or && x == y then x
    else if op == And && x == y then x
    else t
  }

  predicate FoldCompare(cmp: CmpOp, x: Term, y: Term)
    requires x.Const? && y.Const?
  {
    match cmp
    case Eq => ReadConst(x) == ReadConst(y)
    case Ge => ReadConst(x) >= ReadConst(y)
    case Gt => ReadConst(x) > ReadConst(y)
    case Le => ReadConst(x) <= ReadConst(y)
    case Lt => ReadConst(x) < ReadConst(y)
    case SignGe => ReadSigned(x) >= ReadSigned(y)
    case SignGt => ReadSigned(x) > ReadSigned(y)
    case SignLe => ReadSigned(x) <= ReadSigned(y)
    case SignLt => ReadSigned(x) < ReadSigned(y)
  }

  function PropApply(t: Term): Term
    requires t.Apply?
  {
    var Apply(f, args) := t;
    if |f.args| == 2 && |args| == 2 && f.name in SUBS && IsZero(args[1]) then args[0]
    else if |f.args| == 2 && |args| == 2 && f.name in ADDS && IsZero(args[1]) then args[0]
    else if |f.args| == 2 && |args| == 2 && f.name in ADDS && IsZero(args[0]) then args[1]
    else if |f.args| == 2 && |args| == 2 && f.name in MULS && IsZero(args[0]) && IsZero(args[1])
    then MakeConst(f.ret, 0)
    else if |f.args| == 1 && |args| == 1 && f.name in ZERO_TO_ZERO && IsZero(args[0]) then MakeConst(f.ret, 0)
    else t
  }

  function Prop(t: Term): Term {
    match t
    case Apply(_, _) => PropApply(t)
    case SignExtend(x, n) => if x.Const? && n <= 64 then MakeConst(n, ReadSigned(x)) else t
    case Extract(x, high, low) => if x.Const? then MakeConst(Width(t), ReadConst(x) / Pow2(low)) else t
    case Binop(_, _, _) => PropBinop(t)
    case Unop(op, x) =>
      if x.Const? && Width(t) <= 64 then
        MakeConst(Width(t), match op case Not => NotWord(ReadConst(x), 64) case UMinus => -ReadSigned(x))
      else t
    case Ite(c, x, y) =>
      if c.BoolConst? then (if c.truth then x else y)
      else if x == y then x
      else t
    case Compare(cmp, x, y) => if x.Const? && y.Const? then BoolConst(FoldCompare(cmp, x, y)) else t
    case BoolBinop(op, x, y) =>
      if x.BoolConst? && y.BoolConst? then BoolConst(Connect(op, x.truth, y.truth)) else t
    case BoolNot(x) => if x.BoolConst? then BoolConst(!x.truth) else t
    case _ => t
  }

  // ----- The passes -----

  datatype Pass = Mover | Merger | Propagator

  /** What a pass does to a node whose children it has already rewritten. */
  function Local(p: Pass, t: Term): Term {
    match p
    case Mover => Move(t)
    case Merger => Merge(t)
    case Propagator => Prop(t)
  }

  /** The node over its rewritten children. */
  function Rebuild(p: Pass, t: Term): Term
    decreases t, 0
  {
    match t
    case Extract(x, high, low) => Extract(Run(p, x), high, low)
    case SignExtend(x, n) => SignExtend(Run(p, x), n)
    case Unop(op, x) => Unop(op, Run(p, x))
    case Binop(op, x, y) => Binop(op, Run(p, x), Run(p, y))
    case Ite(c, x, y) => Ite(Run(p, c), Run(p, x), Run(p, y))
    case Lookup(x, k) => Lookup(Run(p, x), Run(p, k))
    case Apply(f, args) => Apply(f, seq(|args|, i requires 0 <= i < |args| => Run(p, args[i])))
    case BoolNot(x) => BoolNot(Run(p, x))
    case Compare(cmp, x, y) => Compare(cmp, Run(p, x), Run(p, y))
    case BoolBinop(op, x, y) => BoolBinop(op, Run(p, x), Run(p, y))
    case ArrayEq(x, y) => ArrayEq(Run(p, x), Run(p, y))
    case Store(x, k, v) => Store(Run(p, x), Run(p, k), Run(p, v))
    case _ => t
  }

  function Run(p: Pass, t: Term): Term
    decreases t, 1
  {
    Local(p, Rebuild(p, t))
  }

  // ----- MODs folded by a pass -----

  /** The pass folds this node, a MOD of two constants. */
  ghost predicate FoldsHere(p: Pass, t: Term) {
    p == Propagator && t.Binop? && t.op == Mod && t.a.Const? && t.b.Const? && Width(t) <= 64
  }

  ghost predicate FoldsBelow(p: Pass, t: Term)
    decreases t, 0
  {
    match t
    case Extract(x, _, _) => FoldsMod(p, x)
    case SignExtend(x, _) => FoldsMod(p, x)
    case Unop(_, x) => FoldsMod(p, x)
    case Binop(_, x, y) => FoldsMod(p, x) || FoldsMod(p, y)
    case Ite(c, x, y) => FoldsMod(p, c) || FoldsMod(p, x) || FoldsMod(p, y)
    case Lookup(x, k) => FoldsMod(p, x) || FoldsMod(p, k)
    case Apply(_, args) => exists i :: 0 <= i < |args| && FoldsMod(p, args[i])
    case BoolNot(x) => FoldsMod(p, x)
    case Compare(_, x, y) => FoldsMod(p, x) || FoldsMod(p, y)
    case BoolBinop(_, x, y) => FoldsMod(p, x) || FoldsMod(p, y)
    case ArrayEq(x, y) => FoldsMod(p, x) || FoldsMod(p, y)
    case Store(x, k, v) => FoldsMod(p, x) || FoldsMod(p, k) || FoldsMod(p, v)
    case _ => false
  }

  /** Somewhere in the term the pass folds a MOD. */
  ghost predicate FoldsMod(p: Pass, t: Term)
    decreases t, 1
  {
    FoldsBelow(p, t) || FoldsHere(p, Rebuild(p, t))
  }

  // ----- Each rule keeps type and value -----

  /** If MODs may be folded, those that are evaluated agree with their folds. */
  ghost predicate Trusted(t: Term, env: Env, scope: Scope) { scope.mods ==> ModsAgree(t, env) }

  /** r may replace t: still well formed, of the same sort and of the same value. */
  ghost predicate Replaces(r: Term, t: Term, env: Env, scope: Scope) {
    && Good(r, scope) && SortOf(r) == SortOf(t)
    && (Trusted(t, env, scope) ==> Eval(r, env) == Eval(t, env) && Trusted(r, env, scope))
  }

  lemma MergeExtract(x: Term, high: nat, low: nat, env: Env, scope: Scope)
    requires Good(Extract(x, high, low), scope)
    ensures Replaces(Merge(Extract(x, high, low)), Extract(x, high, low), env, scope)
  {
    hide Good, SortOf, Eval, ModsAgree, ModOk, Slice;
    OfExtract(x, high, low, env, scope);
    EvalSort(x, env, scope);
    if Width(x) == high + 1 - low {
      SliceAll(B(Eval(x, env)), high, low);
    } else if x.Extract? {
      OfExtract(x.bv, x.high, x.low, env, scope);
      OfExtract(x.bv, high + x.low, low + x.low, env, scope);
      SliceSlice(B(Eval(x.bv, env)), x.high, x.low, high, low);
    }
  }

  lemma MergeConcat(z: Term, h: nat, mid: nat, l: nat, env: Env, scope: Scope)
    requires Good(Binop(Concat, Extract(z, h, mid + 1), Extract(z, mid, l)), scope)
    ensures Replaces(Extract(z, h, l), Binop(Concat, Extract(z, h, mid + 1), Extract(z, mid, l)), env, scope)
  {
    hide Good, SortOf, Eval, ModsAgree, ModOk, Slice;
    OfBinop(Concat, Extract(z, h, mid + 1), Extract(z, mid, l), env, scope);
    OfExtract(z, h, mid + 1, env, scope);
    OfExtract(z, mid, l, env, scope);
    OfExtract(z, h, l, env, scope);
    SliceJoin(B(Eval(z, env)), h, mid, l);
  }

  lemma MergeSound(t: Term, env: Env, scope: Scope)
    requires Good(t, scope)
    ensures Replaces(Merge(t), t, env, scope)
  {
    hide Good, SortOf, Eval, ModsAgree, ModOk;
    match t
    case Extract(x, high, low) => MergeExtract(x, high, low, env, scope);
    case Binop(op, x, y) =>
      if op == Concat && x.Extract? && y.Extract? && x.bv == y.bv && x.low == y.high + 1 {
        MergeConcat(x.bv, x.high, y.high, y.low, env, scope);
      }
    case _ =>
  }

  lemma MoveBinop(op: BvOp, x: Term, y: Term, high: nat, low: nat, env: Env, scope: Scope)
    requires Good(Extract(Binop(op, x, y), high, low), scope) && (op == And || op == Or || op == Xor)
    ensures Replaces(Binop(op, Extract(x, high, low), Extract(y, high, low)), Extract(Binop(op, x, y), high, low),
                     env, scope)
  {
    hide Good, SortOf, Eval, ModsAgree, ModOk, Slice, AndBits, OrBits, XorBits, NotBits;
    OfExtract(Binop(op, x, y), high, low, env, scope);
    OfBinop(op, x, y, env, scope);
    OfExtract(x, high, low, env, scope);
    OfExtract(y, high, low, env, scope);
    OfBinop(op, Extract(x, high, low), Extract(y, high, low), env, scope);
    EvalSort(x, env, scope);
    EvalSort(y, env, scope);
    SliceBitwise(B(Eval(x, env)), B(Eval(y, env)), high, low);
  }

  lemma MoveConcat(x: Term, y: Term, high: nat, low: nat, env: Env, scope: Scope)
    requires Good(Extract(Binop(Concat, x, y), high, low), scope)
    ensures Replaces(Move(Extract(Binop(Concat, x, y), high, low)), Extract(Binop(Concat, x, y), high, low), env, scope)
  {
    hide Good, SortOf, Eval, ModsAgree, ModOk, Slice;
    OfExtract(Binop(Concat, x, y), high, low, env, scope);
    OfBinop(Concat, x, y, env, scope);
    EvalSort(x, env, scope);
    EvalSort(y, env, scope);
    SliceConcat(B(Eval(x, env)), B(Eval(y, env)), high, low);
    var w := Width(y);
    if low >= w {
      OfExtract(x, high - w, low - w, env, scope);
    } else if high < w {
      OfExtract(y, high, low, env, scope);
    } else {
      OfExtract(x, high - w, 0, env, scope);
      OfExtract(y, w - 1, low, env, scope);
      OfBinop(Concat, Extract(x, high - w, 0), Extract(y, w - 1, low), env, scope);
    }
  }

  lemma MoveSignExtend(x: Term, n: nat, high: nat, low: nat, env: Env, scope: Scope)
    requires Good(Extract(SignExtend(x, n), high, low), scope) && high < Width(x)
    ensures Replaces(Extract(x, high, low), Extract(SignExtend(x, n), high, low), env, scope)
  {
    hide Good, SortOf, Eval, ModsAgree, ModOk, Slice, SignExt;
    OfExtract(SignExtend(x, n), high, low, env, scope);
    OfSignExtend(x, n, env, scope);
    OfExtract(x, high, low, env, scope);
    EvalSort(x, env, scope);
    SliceExtended(B(Eval(x, env)), n, high, low);
  }

  lemma MoveIte(c: Term, x: Term, y: Term, high: nat, low: nat, env: Env, scope: Scope)
    requires Good(Extract(Ite(c, x, y), high, low), scope)
    ensures Replaces(Ite(c, Extract(x, high, low), Extract(y, high, low)), Extract(Ite(c, x, y), high, low), env, scope)
  {
    hide Good, SortOf, Eval, ModsAgree, ModOk, Slice;
    OfExtract(Ite(c, x, y), high, low, env, scope);
    OfIte(c, x, y, env, scope);
    OfExtract(x, high, low, env, scope);
    OfExtract(y, high, low, env, scope);
    OfIte(c, Extract(x, high, low), Extract(y, high, low), env, scope);
  }

  lemma MoveNot(x: Term, high: nat, low: nat, env: Env, scope: Scope)
    requires Good(Extract(Unop(Not, x), high, low), scope)
    ensures Replaces(Unop(Not, Extract(x, high, low)), Extract(Unop(Not, x), high, low), env, scope)
  {
    hide Good, SortOf, Eval, ModsAgree, ModOk, Slice, NotBits;
    OfExtract(Unop(Not, x), high, low, env, scope);
    OfUnop(Not, x, env, scope);
    OfExtract(x, high, low, env, scope);
    OfUnop(Not, Extract(x, high, low), env, scope);
    EvalSort(x, env, scope);
    SliceBitwise(B(Eval(x, env)), B(Eval(x, env)), high, low);
  }

  lemma MoveExtracted(op: BvOp, x: Term, y: Term, high: nat, low: nat, env: Env, scope: Scope)
    requires Good(Extract(Binop(op, x, y), high, low), scope)
    ensures Replaces(Move(Extract(Binop(op, x, y), high, low)), Extract(Binop(op, x, y), high, low), env, scope)
  {
    hide Good, SortOf, Eval, ModsAgree, ModOk, Replaces;
    if op == Concat {
      MoveConcat(x, y, high, low, env, scope);
    } else if op == And || op == Or || op == Xor {
      MoveBinop(op, x, y, high, low, env, scope);
    } else {
      Unchanged(Extract(Binop(op, x, y), high, low), env, scope);
    }
  }

  lemma MoveSound(t: Term, env: Env, scope: Scope)
    requires Good(t, scope)
    ensures Replaces(Move(t), t, env, scope)
  {
    hide Good, SortOf, Eval, ModsAgree, ModOk, Replaces;
    match t
    case Extract(Binop(op, x, y), high, low) => MoveExtracted(op, x, y, high, low, env, scope);
    case Extract(SignExtend(x, n), high, low) =>
      if high < Width(x) {
        MoveSignExtend(x, n, high, low, env, scope);
      } else {
        Unchanged(t, env, scope);
      }
    case Extract(Ite(c, x, y), high, low) => MoveIte(c, x, y, high, low, env, scope);
    case Extract(Unop(op, x), high, low) =>
      if op == Not {
        MoveNot(x, high, low, env, scope);
      } else {
        Unchanged(t, env, scope);
      }
    case _ => Unchanged(t, env, scope);
  }

  lemma Unchanged(t: Term, env: Env, scope: Scope)
    requires Good(t, scope)
    ensures Replaces(t, t, env, scope)
  {
  }

  lemma SliceExtended(b: seq<bool>, n: nat, high: nat, low: nat)
    requires low <= high < n
    ensures high < |b| ==> Slice(SignExt(b, n), high, low) == Slice(b, high, low)
  {
  }

  // ----- Constants -----

  lemma MaskedBits(n: nat, c: nat, w: nat)
    requires w <= n
    ensures ToBits(Mask(n, c), w) == ToBits(c, w)
  {
    if n < 64 {
      ToBitsMod(c, w, n);
    }
  }

  /** Reading a constant gives its value, unsigned and signed. */
  lemma ReadConstValue(t: Term)
    requires t.Const? && GoodConst(t.size, t.value)
    ensures ToBits(ReadConst(t), t.size) == ToBits(t.value, t.size)
    ensures ReadConst(t) == FromBits(ToBits(t.value, t.size)) < Pow2(t.size)
    ensures ReadSigned(t) == SignedOf(ToBits(t.value, t.size))
  {
    var n, c := t.size, t.value;
    MaskedBits(n, c, n);
    FromToBits(c, n);
    if n <= 64 {
      if n == 64 {
        SmallMod(c, Pow2(64));
      }
      ShiftPair(ReadConst(t), n, 64);
    } else {
      SmallMod(0, Pow2(n));
      ToBitsConstant(false, n);
      SignedValue(ToBits(c, n));
    }
  }

  lemma MakeConstValue(n: nat, c: int, scope: Scope)
    requires 0 < n <= 64
    ensures Good(MakeConst(n, c), scope) && SortOf(MakeConst(n, c)) == BitsOf(n)
    ensures ToBits(MakeConst(n, c).value, n) == ToBits(c, n)
  {
    hide ToBits, Pow2;
    ToBitsMod(c, n, 64);
    MaskedBits(n, c % Pow2(64), n);
    Pow2Mono(n, 64);
  }

  lemma MakeZero(n: nat, scope: Scope)
    requires n > 0
    ensures Good(MakeConst(n, 0), scope) && SortOf(MakeConst(n, 0)) == BitsOf(n)
    ensures MakeConst(n, 0) == Const(n, 0)
  {
    SmallMod(0, Pow2(n));
  }

  // ----- Folding -----

  /** The number a folded operator stores, as a word. */
  lemma FoldBits(op: BvOp, n: nat, x: Term, y: Term, env: Env)
    requires x.Const? && y.Const? && GoodConst(x.size, x.value) && GoodConst(y.size, y.value)
    requires 0 < n <= 64 && Foldable(op) && op != Mod
    requires if op == Concat then n == x.size + y.size else n == x.size == y.size
    ensures FoldBinop(op, n, x, y).Const?
    ensures ToBits(FoldBinop(op, n, x, y).value, n) ==
            BinopBits(env, op, ToBits(x.value, x.size), ToBits(y.value, y.size))
  {
    hide ToBits, FromBits, SignedOf, Pow2, Mask, ReadConst, ReadSigned, AndBits, OrBits, XorBits, AndWord, OrWord,
      XorWord;
    ReadConstValue(x);
    ReadConstValue(y);
    var l, r, ls, rs := ReadConst(x), ReadConst(y), ReadSigned(x), ReadSigned(y);
    match op
    case Concat =>
      var w := OrWord(l * Pow2(y.size) % Pow2(64), r, 64);
      MakeConstValue(n, w, ANY);
      ConcatWords(l, r, x.size, y.size, 64);
    case And => MakeConstValue(n, AndWord(l, r, 64), ANY); BitwiseWords(l, r, n, 64);
    case Or => MakeConstValue(n, OrWord(l, r, 64), ANY); BitwiseWords(l, r, n, 64);
    case Xor => MakeConstValue(n, XorWord(l, r, 64), ANY); BitwiseWords(l, r, n, 64);
    case Plus => MakeConstValue(n, ls + rs, ANY); SignedArithmetic(ToBits(x.value, n), ToBits(y.value, n));
    case Minus => MakeConstValue(n, ls - rs, ANY); SignedArithmetic(ToBits(x.value, n), ToBits(y.value, n));
    case Mult => MakeConstValue(n, ls * rs, ANY); SignedArithmetic(ToBits(x.value, n), ToBits(y.value, n));
  }

  lemma FoldSound(op: BvOp, x: Term, y: Term, env: Env, scope: Scope)
    requires Good(Binop(op, x, y), scope) && x.Const? && y.Const? && Width(Binop(op, x, y)) <= 64 && Foldable(op)
    requires op == Mod ==> scope.mods
    ensures Replaces(PropBinop(Binop(op, x, y)), Binop(op, x, y), env, scope)
  {
    hide Good, SortOf, Eval, ModsAgree, ModOk, ToBits, BinopBits;
    OfBinop(op, x, y, env, scope);
    OfConst(x.size, x.value, env, scope);
    OfConst(y.size, y.value, env, scope);
    var n := Width(Binop(op, x, y));
    var r := FoldBinop(op, n, x, y);
    FoldGood(op, n, x, y, scope);
    OfConst(n, r.value, env, scope);
    if op != Mod {
      FoldBits(op, n, x, y, env);
    } else if ModOk(ToBits(x.value, n), ToBits(y.value, n)) {
      FoldModBits(n, x, y, env);
    }
  }

  /** A MOD folded where it may be. */
  lemma FoldModBits(n: nat, x: Term, y: Term, env: Env)
    requires 0 < n <= 64 && x.Const? && y.Const? && x.size == y.size == n && GoodConst(n, x.value)
    requires GoodConst(n, y.value)
    requires ModOk(ToBits(x.value, n), ToBits(y.value, n))
    ensures FoldBinop(Mod, n, x, y).Const?
    ensures ToBits(FoldBinop(Mod, n, x, y).value, n) == BinopBits(env, Mod, ToBits(x.value, n), ToBits(y.value, n))
  {
    hide ToBits, FromBits, SignedOf, Pow2, Mask, ReadConst, ReadSigned, SignedRem, RemAgrees, MakeConst;
    ReadConstValue(x);
    ReadConstValue(y);
    var c := SignedRem(ReadSigned(x), ReadSigned(y));
    assert FoldBinop(Mod, n, x, y) == MakeConst(n, c);
    MakeConstValue(n, c, ANY);
    ModFoldBits(n, x, y);
  }

  lemma FoldGood(op: BvOp, n: nat, x: Term, y: Term, scope: Scope)
    requires x.Const? && y.Const? && 0 < n <= 64
    ensures FoldBinop(op, n, x, y).Const? && FoldBinop(op, n, x, y).size == n && Good(FoldBinop(op, n, x, y), scope)
  {
    hide ReadConst, ReadSigned, AndWord, OrWord, XorWord, SignedRem, Good;
    var c :| FoldBinop(op, n, x, y) == MakeConst(n, c);
    MakeConstValue(n, c, scope);
  }

  lemma ZeroBits(x: Term, env: Env, scope: Scope)
    requires Good(x, scope) && IsZero(x)
    ensures FromBits(B(Eval(x, env))) == 0
  {
    hide Good, Eval, ToBits, FromBits, Mask;
    OfConst(x.size, x.value, env, scope);
    ReadConstValue(x);
  }

  lemma ModFoldBits(n: nat, x: Term, y: Term)
    requires 0 < n <= 64 && x.Const? && y.Const? && x.size == y.size == n
    requires GoodConst(n, x.value) && GoodConst(n, y.value) && ReadConst(y) != 0
    ensures ToBits(SignedRem(ReadSigned(x), ReadSigned(y)), n) == ToBits(ReadConst(x) % ReadConst(y), n) <==>
            RemAgrees(ReadConst(x), ReadConst(y), Pow2(n - 1))
  {
    hide ToBits, FromBits, SignedOf, ReadConst, ReadSigned, RemAgrees, SignedRem, Pow2;
    var l, r, p := ReadConst(x), ReadConst(y), Pow2(n);
    ReadConstValue(x);
    ReadConstValue(y);
    SignedReads(x);
    SignedReads(y);
    var c := SignedRem(ReadSigned(x), ReadSigned(y));
    FromToBits(c, n);
    FromToBits(l % r, n);
    ModBounds(l, r);
    SmallMod(l % r, p);
    ToBitsMod(c, n, n);
    RemCases(l, r, Pow2(n - 1), p);
  }

  lemma ModValue(n: nat, a: nat, b: nat, env: Env)
    requires GoodConst(n, a) && GoodConst(n, b) && ReadConst(Const(n, b)) != 0
    ensures Eval(Binop(Mod, Const(n, a), Const(n, b)), env) ==
            VBits(ToBits(ReadConst(Const(n, a)) % ReadConst(Const(n, b)), n))
  {
    hide ToBits, FromBits, ReadConst, ReadSigned, Good, Eval;
    ReadConstValue(Const(n, a));
    ReadConstValue(Const(n, b));
    OfConst(n, a, env, ANY);
    OfConst(n, b, env, ANY);
    OfBinop(Mod, Const(n, a), Const(n, b), env, ANY);
  }

  /** MOD is folded as a signed remainder but means the unsigned one: the folded constant is right
      exactly for these operands (a zero divisor is undefined in the source). */
  lemma ModFoldExactly(n: nat, a: nat, b: nat, env: Env)
    requires n <= 64 && GoodConst(n, a) && GoodConst(n, b) && ReadConst(Const(n, b)) != 0
    ensures var t := Binop(Mod, Const(n, a), Const(n, b));
            Eval(PropBinop(t), env) == Eval(t, env) <==> RemAgrees(ReadConst(t.a), ReadConst(t.b), Pow2(n - 1))
  {
    hide ToBits, ReadConst, ReadSigned, RemAgrees, SignedRem, Pow2, MakeConst, Good, Eval;
    var x, y := Const(n, a), Const(n, b);
    var c := SignedRem(ReadSigned(x), ReadSigned(y));
    OfConst(n, a, env, ANY);
    OfBinop(Mod, x, y, env, ANY);
    assert PropBinop(Binop(Mod, x, y)) == MakeConst(n, c);
    MakeConstValue(n, c, ANY);
    OfConst(n, MakeConst(n, c).value, env, ANY);
    ModValue(n, a, b, env);
    ModFoldBits(n, x, y);
  }

  lemma SignedReads(x: Term)
    requires x.Const? && GoodConst(x.size, x.value)
    ensures ReadSigned(x) == if ReadConst(x) >= Pow2(x.size - 1) then ReadConst(x) - Pow2(x.size) else ReadConst(x)
    ensures Pow2(x.size) == 2 * Pow2(x.size - 1)
  {
    ReadConstValue(x);
    SignedValue(ToBits(x.value, x.size));
  }

  /** 7 mod 254 on bytes is 7, but is folded to 1, the remainder of 7 by -2. */
  lemma ModFoldWrong(env: Env)
    ensures var t := Binop(Mod, Const(8, 7), Const(8, 254)); Eval(PropBinop(t), env) != Eval(t, env)
  {
    hide Eval, PropBinop;
    assert Mask(8, 7) == 7 && Mask(8, 254) == 254;
    ModFoldExactly(8, 7, 254, env);
  }

  /** Adding or subtracting zero. */
  lemma ZeroSound(op: BvOp, x: Term, y: Term, env: Env, scope: Scope)
    requires Good(Binop(op, x, y), scope)
    ensures op == Plus && IsZero(x) ==> Replaces(y, Binop(op, x, y), env, scope)
    ensures (op == Plus || op == Minus) && IsZero(y) ==> Replaces(x, Binop(op, x, y), env, scope)
  {
    hide Good, SortOf, Eval, ModsAgree, ModOk, ToBits, FromBits, IsZero;
    OfBinop(op, x, y, env, scope);
    EvalSort(x, env, scope);
    EvalSort(y, env, scope);
    if op == Plus && IsZero(x) {
      ZeroBits(x, env, scope);
      ToFromBits(B(Eval(y, env)));
    }
    if (op == Plus || op == Minus) && IsZero(y) {
      ZeroBits(y, env, scope);
      ToFromBits(B(Eval(x, env)));
    }
  }

  /** An operator moves over a conditional operand. */
  lemma DistributeSound(op: BvOp, c: Term, x: Term, y: Term, z: Term, env: Env, scope: Scope)
    ensures Good(Binop(op, Ite(c, x, y), z), scope) ==>
            Replaces(Ite(c, Binop(op, x, z), Binop(op, y, z)), Binop(op, Ite(c, x, y), z), env, scope)
    ensures Good(Binop(op, z, Ite(c, x, y)), scope) ==>
            Replaces(Ite(c, Binop(op, z, x), Binop(op, z, y)), Binop(op, z, Ite(c, x, y)), env, scope)
  {
    hide Good, SortOf, Eval, ModsAgree, ModOk, BinopBits;
    OfBinop(op, Ite(c, x, y), z, env, scope);
    OfBinop(op, z, Ite(c, x, y), env, scope);
    OfIte(c, x, y, env, scope);
    OfBinop(op, x, z, env, scope);
    OfBinop(op, y, z, env, scope);
    OfBinop(op, z, x, env, scope);
    OfBinop(op, z, y, env, scope);
    OfIte(c, Binop(op, x, z), Binop(op, y, z), env, scope);
    OfIte(c, Binop(op, z, x), Binop(op, z, y), env, scope);
  }

  lemma SelfSound(op: BvOp, x: Term, env: Env, scope: Scope)
    requires Good(Binop(op, x, x), scope)
    ensures op == Xor ==> Replaces(MakeConst(Width(Binop(op, x, x)), 0), Binop(op, x, x), env, scope)
    ensures op == Or || op == And ==> Replaces(x, Binop(op, x, x), env, scope)
  {
    hide Good, SortOf, Eval, ModsAgree, ModOk, ToBits, MakeConst;
    OfBinop(op, x, x, env, scope);
    EvalSort(x, env, scope);
    var b := B(Eval(x, env));
    SelfBits(b);
    MakeZero(|b|, scope);
    OfConst(|b|, 0, env, scope);
  }

  lemma SelfBits(b: seq<bool>)
    ensures XorBits(b, b) == ToBits(0, |b|) && OrBits(b, b) == b && AndBits(b, b) == b
  {
    ToBitsConstant(false, |b|);
    assert XorBits(b, b) == seq(|b|, i => false);
  }

  lemma PropBinopSound(t: Term, env: Env, scope: Scope)
    requires Good(t, scope) && t.Binop? && (FoldsHere(Propagator, t) ==> scope.mods)
    ensures Replaces(PropBinop(t), t, env, scope)
  {
    hide Good, SortOf, Eval, ModsAgree, ModOk, Replaces, FoldBinop, MakeConst, IsZero, Width;
    var Binop(op, x, y) := t;
    if x.Const? && y.Const? && Width(t) <= 64 && Foldable(op) {
      FoldSound(op, x, y, env, scope);
    } else {
      ZeroSound(op, x, y, env, scope);
      Unchanged(t, env, scope);
      if x.Ite? {
        DistributeSound(op, x.cond, x.a, x.b, y, env, scope);
      }
      if y.Ite? {
        DistributeSound(op, y.cond, y.a, y.b, x, env, scope);
      }
      if x == y {
        SelfSound(op, x, env, scope);
      }
    }
  }

  lemma PropSignExtend(x: Term, n: nat, env: Env, scope: Scope)
    requires Good(SignExtend(x, n), scope) && x.Const? && n <= 64
    ensures Replaces(MakeConst(n, ReadSigned(x)), SignExtend(x, n), env, scope)
  {
    hide Good, SortOf, Eval, ModsAgree, ModOk, ToBits, SignExt, SignedOf, ReadSigned, FromBits;
    OfSignExtend(x, n, env, scope);
    OfConst(x.size, x.value, env, scope);
    ReadConstValue(x);
    MakeConstValue(n, ReadSigned(x), scope);
    ToBitsSigned(ToBits(x.value, x.size), n);
    OfConst(n, MakeConst(n, ReadSigned(x)).value, env, scope);
  }

  lemma ConstSlice(x: Term, high: nat, low: nat, scope: Scope)
    requires x.Const? && GoodConst(x.size, x.value) && low <= high < x.size
    ensures var r := MakeConst(high + 1 - low, ReadConst(x) / Pow2(low));
            Good(r, scope) && ToBits(r.value, r.size) == ToBits(ReadConst(x) / Pow2(low), r.size)
  {
    hide Good, SortOf, ToBits, ReadConst, MakeConst, Pow2;
    var n := high + 1 - low;
    if n <= 64 {
      MakeConstValue(n, ReadConst(x) / Pow2(low), scope);
    } else {
      WideZero(x);
      DivZero(Pow2(low));
      MakeZero(n, scope);
    }
  }

  lemma PropExtract(x: Term, high: nat, low: nat, env: Env, scope: Scope)
    requires Good(Extract(x, high, low), scope) && x.Const?
    ensures Replaces(MakeConst(high + 1 - low, ReadConst(x) / Pow2(low)), Extract(x, high, low), env, scope)
  {
    hide Good, SortOf, Eval, ModsAgree, ModOk, ToBits, Slice, ReadConst, ReadSigned, MakeConst, FromBits, Pow2;
    OfExtract(x, high, low, env, scope);
    OfConst(x.size, x.value, env, scope);
    ReadConstValue(x);
    var c := ReadConst(x);
    ToBitsSlice(c, x.size, low, high + 1 - low);
    SliceIs(ToBits(x.value, x.size), high, low);
    ConstSlice(x, high, low, scope);
    OfConst(high + 1 - low, MakeConst(high + 1 - low, c / Pow2(low)).value, env, scope);
  }

  lemma WideZero(x: Term)
    requires x.Const? && GoodConst(x.size, x.value) && x.size > 64
    ensures ReadConst(x) == 0
  {
  }

  lemma DivZero(d: nat)
    requires d > 0
    ensures 0 / d == 0
  {
    ModUnique(0, d, 0, 0);
  }

  lemma SliceIs(b: seq<bool>, high: nat, low: nat)
    requires low <= high < |b|
    ensures Slice(b, high, low) == b[low..high + 1]
  {
  }

  lemma PropUnop(op: UnOp, x: Term, env: Env, scope: Scope)
    requires Good(Unop(op, x), scope) && x.Const? && Width(x) <= 64
    ensures Replaces(Prop(Unop(op, x)), Unop(op, x), env, scope)
  {
    hide Good, SortOf, Eval, ModsAgree, ModOk, ToBits, NotBits, NotWord, SignedOf, ReadSigned, ReadConst, MakeConst,
      FromBits;
    OfUnop(op, x, env, scope);
    OfConst(x.size, x.value, env, scope);
    ReadConstValue(x);
    var n, c := x.size, match op case Not => NotWord(ReadConst(x), 64) case UMinus => -ReadSigned(x);
    MakeConstValue(n, c, scope);
    BitwiseWords(ReadConst(x), 0, n, 64);
    SignedNegation(ToBits(x.value, n));
    OfConst(n, MakeConst(n, c).value, env, scope);
  }

  lemma PropIte(c: Term, x: Term, y: Term, env: Env, scope: Scope)
    requires Good(Ite(c, x, y), scope)
    ensures Replaces(Prop(Ite(c, x, y)), Ite(c, x, y), env, scope)
  {
    hide Good, SortOf;
    OfIte(c, x, y, env, scope);
  }

  lemma ConstCompare(cmp: CmpOp, x: Term, y: Term)
    requires x.Const? && y.Const? && GoodConst(x.size, x.value) && GoodConst(y.size, y.value) && x.size == y.size
    ensures FoldCompare(cmp, x, y) == CompareBits(cmp, ToBits(x.value, x.size), ToBits(y.value, y.size))
  {
    hide ToBits, FromBits, SignedOf, ReadConst, ReadSigned;
    ReadConstValue(x);
    ReadConstValue(y);
    ToFromBits(ToBits(x.value, x.size));
    ToFromBits(ToBits(y.value, y.size));
  }

  lemma PropCompare(cmp: CmpOp, x: Term, y: Term, env: Env, scope: Scope)
    requires Good(Compare(cmp, x, y), scope)
    ensures Replaces(Prop(Compare(cmp, x, y)), Compare(cmp, x, y), env, scope)
  {
    hide Good, SortOf, Eval, ModsAgree, ModOk, ToBits, FoldCompare, CompareBits;
    if x.Const? && y.Const? {
      OfCompare(cmp, x, y, env, scope);
      OfConst(x.size, x.value, env, scope);
      OfConst(y.size, y.value, env, scope);
      OfBoolConst(FoldCompare(cmp, x, y), env, scope);
      ConstCompare(cmp, x, y);
    }
  }

  lemma ZeroResult(f: SymFunction, r: seq<bool>, env: Env, scope: Scope)
    requires |r| == f.ret > 0 && FromBits(r) == 0
    ensures Good(MakeConst(f.ret, 0), scope) && SortOf(MakeConst(f.ret, 0)) == BitsOf(f.ret)
    ensures Eval(MakeConst(f.ret, 0), env) == VBits(r) && ModsAgree(MakeConst(f.ret, 0), env)
  {
    ToFromBits(r);
    MakeZero(f.ret, scope);
    AgreeLeaf(MakeConst(f.ret, 0), env);
    hide ToBits, FromBits, MakeConst;
  }

  lemma PropUnary(f: SymFunction, x: Term, env: Env, scope: Scope)
    requires Good(Apply(f, [x]), scope) && (scope.floats ==> FloatLaws(env))
    requires f.name in ZERO_TO_ZERO && IsZero(x)
    ensures Replaces(MakeConst(f.ret, 0), Apply(f, [x]), env, scope)
  {
    var t := Apply(f, [x]);
    var r := Fit(env.fn(f, [B(Eval(x, env))]), f.ret);
    UnaryValue(f, x, env, scope);
    assert FloatName(f.name);
    assert UnaryLaw(env, f, B(Eval(x, env)));
    hide Eval, Good, ModsAgree, Fit, FromBits, IsZero, SortOf, MakeConst;
    ZeroBits(x, env, scope);
    ZeroResult(f, r, env, scope);
  }

  lemma UnaryValue(f: SymFunction, x: Term, env: Env, scope: Scope)
    requires Good(Apply(f, [x]), scope)
    ensures Good(x, scope) && f.ret > 0 && SortOf(Apply(f, [x])) == BitsOf(f.ret)
    ensures FloatName(f.name) ==> scope.floats
    ensures Eval(Apply(f, [x]), env) == VBits(Fit(env.fn(f, [B(Eval(x, env))]), f.ret))
  {
    hide Fit, FromBits, FloatName, Good, Eval;
    var args := [x];
    assert args[0] == x;
    OfApply(f, args, env, scope);
    assert Values(args, env) == [B(Eval(x, env))];
  }

  lemma BinaryValue(f: SymFunction, x: Term, y: Term, env: Env, scope: Scope)
    requires Good(Apply(f, [x, y]), scope)
    ensures Good(x, scope) && Good(y, scope) && f.ret > 0 && SortOf(Apply(f, [x, y])) == BitsOf(f.ret)
    ensures FloatName(f.name) ==> scope.floats
    ensures f.name in ADDS || f.name in SUBS ==> IsBits(x) && IsBits(y) && Width(x) == f.ret == Width(y)
    ensures Eval(Apply(f, [x, y]), env) == VBits(Fit(env.fn(f, [B(Eval(x, env)), B(Eval(y, env))]), f.ret))
    ensures ModsAgree(Apply(f, [x, y]), env) ==> ModsAgree(x, env) && ModsAgree(y, env)
  {
    hide Fit, FromBits, FloatName, ModsAgree, Good, Eval;
    var args := [x, y];
    assert args[0] == x && args[1] == y;
    OfApply(f, args, env, scope);
    assert Values(args, env) == [B(Eval(x, env)), B(Eval(y, env))];
  }

  lemma PropMul(f: SymFunction, x: Term, y: Term, env: Env, scope: Scope)
    requires Good(Apply(f, [x, y]), scope) && (scope.floats ==> FloatLaws(env)) && f.name in MULS && IsZero(x)
    requires IsZero(y)
    ensures Replaces(MakeConst(f.ret, 0), Apply(f, [x, y]), env, scope)
  {
    BinaryValue(f, x, y, env, scope);
    assert FloatName(f.name);
    assert BinaryLaw(env, f, B(Eval(x, env)), B(Eval(y, env)));
    hide Eval, Good, ModsAgree, Fit, FromBits, IsZero, SortOf, MakeConst, FloatName;
    ZeroBits(x, env, scope);
    ZeroBits(y, env, scope);
    ZeroResult(f, Fit(env.fn(f, [B(Eval(x, env)), B(Eval(y, env))]), f.ret), env, scope);
  }

  lemma PropAdd(f: SymFunction, x: Term, y: Term, env: Env, scope: Scope)
    requires Good(Apply(f, [x, y]), scope) && (scope.floats ==> FloatLaws(env)) && (f.name in SUBS || f.name in ADDS)
    ensures IsZero(y) ==> Replaces(x, Apply(f, [x, y]), env, scope)
    ensures f.name in ADDS && IsZero(x) ==> Replaces(y, Apply(f, [x, y]), env, scope)
  {
    BinaryValue(f, x, y, env, scope);
    assert FloatName(f.name);
    assert BinaryLaw(env, f, B(Eval(x, env)), B(Eval(y, env)));
    hide Eval, Good, ModsAgree, Fit, FromBits, IsZero, SortOf, FloatName;
    EvalSort(x, env, scope);
    EvalSort(y, env, scope);
    if IsZero(x) {
      ZeroBits(x, env, scope);
    }
    if IsZero(y) {
      ZeroBits(y, env, scope);
    }
  }

  /** A sum of a number with only its sign bit set and zero. */
  function SignedZeroSum(n: nat): Term
    requires n > 0
  {
    Apply(SymFunction("add_single", n, [n, n]), [Const(n, Pow2(n - 1)), Const(n, 0)])
  }

  /** Under IEEE 754 (section 6.3) negative zero plus positive zero is positive zero.  An assignment that
      adds like that (n is 32) breaks the laws, and the rewriting of x + 0 to x changes the value of
      such a sum. */
  lemma NegativeZeroWrong(env: Env, n: nat)
    requires 0 < n <= 64
    requires Fit(env.fn(SignedZeroSum(n).f, [ToBits(Pow2(n - 1), n), ToBits(0, n)]), n) == ToBits(0, n)
    ensures !FloatLaws(env)
    ensures Good(SignedZeroSum(n), Scope(true, true))
    ensures Eval(Prop(SignedZeroSum(n)), env) != Eval(SignedZeroSum(n), env)
  {
    hide ToBits, FromBits, Fit, Prop, Good, Eval, ModsAgree, Pow2;
    SignBitBits(n);
    SignedZeroProp(n);
    SignedZeroValue(env, n);
    OfConst(n, Pow2(n - 1), env, Scope(true, true));
    assert !BinaryLaw(env, SignedZeroSum(n).f, ToBits(Pow2(n - 1), n), ToBits(0, n));
  }

  lemma SignedZeroValue(env: Env, n: nat)
    requires 0 < n <= 64
    ensures var f := SignedZeroSum(n).f;
            Eval(SignedZeroSum(n), env) == VBits(Fit(env.fn(f, [ToBits(Pow2(n - 1), n), ToBits(0, n)]), n))
    ensures Good(SignedZeroSum(n), Scope(true, true))
  {
    hide ToBits, FromBits, Fit, Prop, Good, Eval, ModsAgree, Pow2;
    var t := SignedZeroSum(n);
    SignedZeroProp(n);
    OfConst(n, Pow2(n - 1), env, Scope(true, true));
    OfConst(n, 0, env, Scope(true, true));
    OfApply(t.f, t.args, env, Scope(true, true));
    assert Values(t.args, env) == [ToBits(Pow2(n - 1), n), ToBits(0, n)];
  }

  lemma SignedZeroProp(n: nat)
    requires 0 < n <= 64
    ensures Prop(SignedZeroSum(n)) == Const(n, Pow2(n - 1)) && GoodConst(n, Pow2(n - 1)) && GoodConst(n, 0)
  {
    Pow2Mono(n, 64);
    SmallMod(0, Pow2(n));
    var t := SignedZeroSum(n);
    assert IsZero(t.args[1]);
  }

  lemma SignBitBits(n: nat)
    requires n > 0
    ensures ToBits(Pow2(n - 1), n) != ToBits(0, n) && FromBits(ToBits(0, n)) == 0
  {
    FromToBits(Pow2(n - 1), n);
    FromToBits(0, n);
    SmallMod(Pow2(n - 1), Pow2(n));
    SmallMod(0, Pow2(n));
    hide ToBits, FromBits;
  }

  lemma PropApplySound(t: Term, env: Env, scope: Scope)
    requires Good(t, scope) && t.Apply? && (scope.floats ==> FloatLaws(env))
    ensures Replaces(PropApply(t), t, env, scope)
  {
    hide Good, SortOf, Eval, ModsAgree, ModOk, MakeConst, IsZero;
    var Apply(f, args) := t;
    if |args| == 2 {
      assert args == [args[0], args[1]];
      if f.name in SUBS || f.name in ADDS {
        PropAdd(f, args[0], args[1], env, scope);
      } else if f.name in MULS && IsZero(args[0]) && IsZero(args[1]) {
        PropMul(f, args[0], args[1], env, scope);
      }
    } else if |args| == 1 && f.name in ZERO_TO_ZERO && IsZero(args[0]) {
      assert args == [args[0]];
      PropUnary(f, args[0], env, scope);
    }
  }

  lemma PropBool(t: Term, env: Env, scope: Scope)
    requires Good(t, scope) && (t.BoolBinop? || t.BoolNot?)
    ensures Replaces(Prop(t), t, env, scope)
  {
  }

  lemma PropSound(t: Term, env: Env, scope: Scope)
    requires Good(t, scope) && (scope.floats ==> FloatLaws(env)) && (FoldsHere(Propagator, t) ==> scope.mods)
    ensures Replaces(Prop(t), t, env, scope)
  {
    hide Good, SortOf, Eval, ModsAgree, ModOk, Replaces, MakeConst, ReadConst, ReadSigned, PropBinop, PropApply,
      FoldCompare;
    Unchanged(t, env, scope);
    match t
    case Apply(_, _) => PropApplySound(t, env, scope);
    case SignExtend(x, n) =>
      if x.Const? && n <= 64 {
        PropSignExtend(x, n, env, scope);
      }
    case Extract(x, high, low) =>
      OfExtract(x, high, low, env, scope);
      if x.Const? {
        PropExtract(x, high, low, env, scope);
      }
    case Binop(_, _, _) => PropBinopSound(t, env, scope);
    case Unop(op, x) =>
      OfUnop(op, x, env, scope);
      if x.Const? && Width(x) <= 64 {
        PropUnop(op, x, env, scope);
      }
    case Ite(c, x, y) => PropIte(c, x, y, env, scope);
    case Compare(cmp, x, y) => PropCompare(cmp, x, y, env, scope);
    case BoolBinop(_, _, _) => PropBool(t, env, scope);
    case BoolNot(_) => PropBool(t, env, scope);
    case _ =>
  }

  lemma LocalSound(p: Pass, t: Term, env: Env, scope: Scope)
    requires Good(t, scope) && (scope.floats ==> FloatLaws(env)) && (FoldsHere(p, t) ==> scope.mods)
    ensures Replaces(Local(p, t), t, env, scope)
  {
    hide Good, Replaces, Merge, Move, Prop;
    match p
    case Mover => MoveSound(t, env, scope);
    case Merger => MergeSound(t, env, scope);
    case Propagator => PropSound(t, env, scope);
  }

  // ----- Whole passes -----

  lemma KeepExtract(x: Term, x': Term, high: nat, low: nat, env: Env, scope: Scope)
    requires Good(Extract(x, high, low), scope) && (Good(x, scope) ==> Replaces(x', x, env, scope))
    ensures Replaces(Extract(x', high, low), Extract(x, high, low), env, scope)
  {
    hide Good, SortOf, Eval, ModsAgree, ModOk, Slice;
    OfExtract(x, high, low, env, scope);
    OfExtract(x', high, low, env, scope);
  }

  lemma KeepSignExtend(x: Term, x': Term, n: nat, env: Env, scope: Scope)
    requires Good(SignExtend(x, n), scope) && (Good(x, scope) ==> Replaces(x', x, env, scope))
    ensures Replaces(SignExtend(x', n), SignExtend(x, n), env, scope)
  {
    hide Good, SortOf, Eval, ModsAgree, ModOk, SignExt;
    OfSignExtend(x, n, env, scope);
    OfSignExtend(x', n, env, scope);
  }

  lemma KeepUnop(op: UnOp, x: Term, x': Term, env: Env, scope: Scope)
    requires Good(Unop(op, x), scope) && (Good(x, scope) ==> Replaces(x', x, env, scope))
    ensures Replaces(Unop(op, x'), Unop(op, x), env, scope)
  {
    hide Good, SortOf, Eval, ModsAgree, ModOk, UnopBits;
    OfUnop(op, x, env, scope);
    OfUnop(op, x', env, scope);
  }

  lemma KeepBinop(op: BvOp, x: Term, x': Term, y: Term, y': Term, env: Env, scope: Scope)
    requires Good(Binop(op, x, y), scope)
    requires (Good(x, scope) ==> Replaces(x', x, env, scope)) && (Good(y, scope) ==> Replaces(y', y, env, scope))
    ensures Replaces(Binop(op, x', y'), Binop(op, x, y), env, scope)
  {
    hide Good, SortOf, Eval, ModsAgree, ModOk, BinopBits;
    OfBinop(op, x, y, env, scope);
    OfBinop(op, x', y', env, scope);
  }

  lemma KeepIte(c: Term, c': Term, x: Term, x': Term, y: Term, y': Term, env: Env, scope: Scope)
    requires Good(Ite(c, x, y), scope) && (Good(c, scope) ==> Replaces(c', c, env, scope))
    requires (Good(x, scope) ==> Replaces(x', x, env, scope)) && (Good(y, scope) ==> Replaces(y', y, env, scope))
    ensures Replaces(Ite(c', x', y'), Ite(c, x, y), env, scope)
  {
    hide Good, SortOf, Eval, ModsAgree, ModOk;
    OfIte(c, x, y, env, scope);
    OfIte(c', x', y', env, scope);
  }

  lemma KeepCompare(cmp: CmpOp, x: Term, x': Term, y: Term, y': Term, env: Env, scope: Scope)
    requires Good(Compare(cmp, x, y), scope)
    requires (Good(x, scope) ==> Replaces(x', x, env, scope)) && (Good(y, scope) ==> Replaces(y', y, env, scope))
    ensures Replaces(Compare(cmp, x', y'), Compare(cmp, x, y), env, scope)
  {
    hide Good, SortOf, Eval, ModsAgree, ModOk, CompareBits;
    OfCompare(cmp, x, y, env, scope);
    OfCompare(cmp, x', y', env, scope);
  }

  lemma KeepLookup(x: Term, x': Term, k: Term, k': Term, env: Env, scope: Scope)
    requires Good(Lookup(x, k), scope)
    requires (Good(x, scope) ==> Replaces(x', x, env, scope)) && (Good(k, scope) ==> Replaces(k', k, env, scope))
    ensures Replaces(Lookup(x', k'), Lookup(x, k), env, scope)
  {
    hide Good, SortOf, Eval, ModsAgree, ModOk, Fit;
    OfLookup(x, k, env, scope);
    OfLookup(x', k', env, scope);
  }

  lemma KeepArrayEq(x: Term, x': Term, y: Term, y': Term, env: Env, scope: Scope)
    requires Good(ArrayEq(x, y), scope)
    requires (Good(x, scope) ==> Replaces(x', x, env, scope)) && (Good(y, scope) ==> Replaces(y', y, env, scope))
    ensures Replaces(ArrayEq(x', y'), ArrayEq(x, y), env, scope)
  {
    hide Good, SortOf, Eval, ModsAgree, ModOk, SameArray;
    OfArrayEq(x, y, env, scope);
    OfArrayEq(x', y', env, scope);
  }

  lemma KeepStore(x: Term, x': Term, k: Term, k': Term, v: Term, v': Term, env: Env, scope: Scope)
    requires Good(Store(x, k, v), scope) && (Good(v, scope) ==> Replaces(v', v, env, scope))
    requires (Good(x, scope) ==> Replaces(x', x, env, scope)) && (Good(k, scope) ==> Replaces(k', k, env, scope))
    ensures Replaces(Store(x', k', v'), Store(x, k, v), env, scope)
  {
    hide Good, SortOf, Eval, ModsAgree, ModOk, EvalStore;
    OfStore(x, k, v, scope);
    OfStore(x', k', v', scope);
    StoreValue(x, k, v, env);
    StoreValue(x', k', v', env);
  }

  lemma KeepBools(op: BoolOp, x: Term, x': Term, y: Term, y': Term, env: Env, scope: Scope)
    requires (Good(x, scope) ==> Replaces(x', x, env, scope)) && (Good(y, scope) ==> Replaces(y', y, env, scope))
    ensures Good(BoolBinop(op, x, y), scope) ==> Replaces(BoolBinop(op, x', y'), BoolBinop(op, x, y), env, scope)
    ensures Good(BoolNot(x), scope) ==> Replaces(BoolNot(x'), BoolNot(x), env, scope)
  {
    hide Good, SortOf, Eval, ModsAgree, ModOk, Connect;
    OfBools(op, x, y, env, scope);
    OfBools(op, x', y', env, scope);
  }

  lemma KeepApply(f: SymFunction, args: seq<Term>, args': seq<Term>, env: Env, scope: Scope)
    requires Good(Apply(f, args), scope) && |args'| == |args|
    requires forall i :: 0 <= i < |args| && Good(args[i], scope) ==> Replaces(args'[i], args[i], env, scope)
    ensures Replaces(Apply(f, args'), Apply(f, args), env, scope)
  {
    hide Good, SortOf, Eval, ModsAgree, ModOk, Fit;
    OfApply(f, args, env, scope);
    OfApply(f, args', env, scope);
    if Trusted(Apply(f, args), env, scope) {
      assert forall i :: 0 <= i < |args| ==> Trusted(args[i], env, scope);
      assert Values(args', env) == Values(args, env);
    }
  }

  /** Rewriting the children keeps the meaning of a node. */
  lemma {:induction false} RebuildSound(p: Pass, t: Term, env: Env, scope: Scope)
    requires Good(t, scope) && (scope.floats ==> FloatLaws(env)) && (FoldsBelow(p, t) ==> scope.mods)
    ensures Replaces(Rebuild(p, t), t, env, scope)
    decreases t, 0
  {
    hide Good, SortOf, Eval, ModsAgree, ModOk, Replaces, Run, FoldsHere;
    match t
    case Extract(x, high, low) =>
      RunSound(p, x, env, scope);
      KeepExtract(x, Run(p, x), high, low, env, scope);
    case SignExtend(x, n) =>
      RunSound(p, x, env, scope);
      KeepSignExtend(x, Run(p, x), n, env, scope);
    case Unop(op, x) =>
      RunSound(p, x, env, scope);
      KeepUnop(op, x, Run(p, x), env, scope);
    case Binop(op, x, y) =>
      RunSound(p, x, env, scope);
      RunSound(p, y, env, scope);
      KeepBinop(op, x, Run(p, x), y, Run(p, y), env, scope);
    case Ite(c, x, y) =>
      RunSound(p, c, env, scope);
      RunSound(p, x, env, scope);
      RunSound(p, y, env, scope);
      KeepIte(c, Run(p, c), x, Run(p, x), y, Run(p, y), env, scope);
    case Lookup(x, k) =>
      RunSound(p, x, env, scope);
      RunSound(p, k, env, scope);
      KeepLookup(x, Run(p, x), k, Run(p, k), env, scope);
    case Apply(f, args) =>
      forall i | 0 <= i < |args|
        ensures Good(args[i], scope) ==> Replaces(Run(p, args[i]), args[i], env, scope)
      {
        assert FoldsMod(p, args[i]) ==> FoldsBelow(p, t);
        RunSound(p, args[i], env, scope);
      }
      KeepApply(f, args, Rebuild(p, t).args, env, scope);
    case BoolNot(x) =>
      RunSound(p, x, env, scope);
      KeepBools(BAnd, x, Run(p, x), x, Run(p, x), env, scope);
    case Compare(cmp, x, y) =>
      RunSound(p, x, env, scope);
      RunSound(p, y, env, scope);
      KeepCompare(cmp, x, Run(p, x), y, Run(p, y), env, scope);
    case BoolBinop(op, x, y) =>
      RunSound(p, x, env, scope);
      RunSound(p, y, env, scope);
      KeepBools(op, x, Run(p, x), y, Run(p, y), env, scope);
    case ArrayEq(x, y) =>
      RunSound(p, x, env, scope);
      RunSound(p, y, env, scope);
      KeepArrayEq(x, Run(p, x), y, Run(p, y), env, scope);
    case Store(x, k, v) =>
      RunSound(p, x, env, scope);
      RunSound(p, k, env, scope);
      RunSound(p, v, env, scope);
      KeepStore(x, Run(p, x), k, Run(p, k), v, Run(p, v), env, scope);
    case _ => Unchanged(t, env, scope);
  }

  /** A pass returns a term of the same sort and, under every assignment, the same value; if it folds
      a MOD, then under every assignment for which the MODs agree with their folds. */
  lemma {:induction false} RunSound(p: Pass, t: Term, env: Env, scope: Scope)
    requires scope.floats ==> FloatLaws(env)
    ensures Good(t, scope) && (FoldsMod(p, t) ==> scope.mods) ==> Replaces(Run(p, t), t, env, scope)
    decreases t, 1
  {
    hide Good, SortOf, Eval, ModsAgree, ModOk, Local, FoldsHere, FoldsBelow;
    if Good(t, scope) && (FoldsMod(p, t) ==> scope.mods) {
      RebuildSound(p, t, env, scope);
      LocalSound(p, Rebuild(p, t), env, scope);
    }
  }

  // ----- Termination -----

  /** Extracts weigh exponentially and operators multiply, so moving an extract inwards and
      distributing an operator over a conditional make a term lighter although they copy parts of it. */
  ghost function Weight(t: Term): (w: nat)
    ensures w >= 3
  {
    match t
    case Extract(x, _, _) => Pow2(Weight(x))
    case SignExtend(x, _) => Weight(x) + 1
    case Unop(_, x) => Weight(x) + 1
    case Binop(_, x, y) => MulLe(3, Weight(x), Weight(y)); Weight(x) * Weight(y)
    case Ite(c, x, y) => Weight(c) + Weight(x) + Weight(y) + 1
    case Lookup(x, k) => Weight(x) + Weight(k) + 1
    case Apply(_, args) => 3 + TotalWeight(args)
    case BoolNot(x) => Weight(x) + 1
    case Compare(_, x, y) => Weight(x) + Weight(y) + 1
    case BoolBinop(_, x, y) => Weight(x) + Weight(y) + 1
    case ArrayEq(x, y) => Weight(x) + Weight(y) + 1
    case Store(x, k, v) => Weight(x) + Weight(k) + Weight(v) + 1
    case _ => 3
  }

  ghost function TotalWeight(args: seq<Term>): nat {
    if args == [] then 0 else Weight(args[0]) + TotalWeight(args[1..])
  }

  /** Unchanged, or lighter. */
  ghost predicate Lighter(r: Term, t: Term) { r == t || Weight(r) < Weight(t) }

  lemma {:induction false} Pow2Strict(m: nat, n: nat)
    requires m < n
    ensures Pow2(m) < Pow2(n)
  {
    Pow2Mono(m + 1, n);
  }

  lemma MulStrict(a: nat, b: nat, c: nat)
    requires a < b && c > 0
    ensures a * c < b * c && c * a < c * b
  {
  }

  lemma WeightExtract(x: Term, high: nat, low: nat)
    ensures Weight(Extract(x, high, low)) == Pow2(Weight(x))
  {
  }

  lemma WeightBinop(op: BvOp, x: Term, y: Term)
    ensures Weight(Binop(op, x, y)) == Weight(x) * Weight(y)
  {
  }

  lemma WeightIte(c: Term, x: Term, y: Term)
    ensures Weight(Ite(c, x, y)) == Weight(c) + Weight(x) + Weight(y) + 1
  {
  }

  lemma WeightUnary(op: UnOp, x: Term, n: nat)
    ensures Weight(Unop(op, x)) == Weight(x) + 1 == Weight(SignExtend(x, n))
  {
  }

  lemma MergeLighter(t: Term)
    ensures Lighter(Merge(t), t)
  {
    hide Pow2, Weight;
    if t.Extract? {
      WeightExtract(t.bv, t.high, t.low);
      if t.bv.Extract? {
        var x := t.bv;
        WeightExtract(x.bv, x.high, x.low);
        WeightExtract(x.bv, t.high + x.low, t.low + x.low);
      }
    } else if t.Binop? && t.a.Extract? && t.b.Extract? && t.a.bv == t.b.bv {
      var x := t.a.bv;
      WeightBinop(t.op, t.a, t.b);
      WeightExtract(x, t.a.high, t.a.low);
      WeightExtract(x, t.b.high, t.b.low);
      WeightExtract(x, t.a.high, t.b.low);
      MulStrict(1, Pow2(Weight(x)), Pow2(Weight(x)));
    }
  }

  /** Two halves are lighter than the whole. */
  lemma SplitLighter(x: nat, y: nat)
    requires x >= 3 && y >= 3
    ensures Pow2(x) * Pow2(y) < Pow2(x * y)
    ensures Pow2(x) < Pow2(x * y) && Pow2(y) < Pow2(x * y)
  {
    assert x * y >= 3 * x && x * y >= 3 * y by {
      MulLe(3, y, x);
      MulLe(3, x, y);
    }
    Pow2Add(x, y);
    Pow2Strict(x + y, x * y);
    Pow2Strict(x, x * y);
    Pow2Strict(y, x * y);
  }

  lemma IteLighter(c: nat, x: nat, y: nat)
    requires c >= 3 && x >= 3 && y >= 3
    ensures c + Pow2(x) + Pow2(y) + 1 < Pow2(c + x + y + 1)
  {
    Pow2Mono(x, x + y);
    Pow2Mono(y, x + y);
    Pow2Add(c, x + y);
    var p, q := Pow2(c), Pow2(x + y);
    MulLe(8, p, q);
    MulLe(4, q, p);
    Pow2Mono(3, c);
    assert Pow2(c + x + y + 1) == 2 * (p * q);
  }

  lemma MoveBinopLighter(op: BvOp, x: Term, y: Term, high: nat, low: nat)
    ensures Lighter(Move(Extract(Binop(op, x, y), high, low)), Extract(Binop(op, x, y), high, low))
  {
    hide Pow2, Weight, Width;
    var t := Extract(Binop(op, x, y), high, low);
    var r := Move(t);
    WeightExtract(Binop(op, x, y), high, low);
    WeightBinop(op, x, y);
    SplitLighter(Weight(x), Weight(y));
    if r.Binop? {
      WeightBinop(op, r.a, r.b);
      WeightExtract(r.a.bv, r.a.high, r.a.low);
      WeightExtract(r.b.bv, r.b.high, r.b.low);
    } else {
      WeightExtract(r.bv, r.high, r.low);
    }
  }

  lemma MoveLighter(t: Term)
    ensures Lighter(Move(t), t)
  {
    hide Pow2, Weight, Width;
    if t.Extract? {
      WeightExtract(t.bv, t.high, t.low);
    }
    match t
    case Extract(Binop(op, x, y), high, low) => MoveBinopLighter(op, x, y, high, low);
    case Extract(SignExtend(x, n), high, low) =>
      WeightUnary(Not, x, n);
      WeightExtract(x, high, low);
      Pow2Strict(Weight(x), Weight(x) + 1);
    case Extract(Ite(c, x, y), high, low) =>
      WeightIte(c, x, y);
      WeightExtract(x, high, low);
      WeightExtract(y, high, low);
      WeightIte(c, Extract(x, high, low), Extract(y, high, low));
      IteLighter(Weight(c), Weight(x), Weight(y));
    case Extract(Unop(op, x), high, low) =>
      WeightUnary(op, x, 0);
      WeightExtract(x, high, low);
      WeightUnary(op, Extract(x, high, low), 0);
      Pow2Double(Weight(x));
    case _ =>
  }

  lemma Pow2Double(n: nat)
    requires n >= 1
    ensures Pow2(n + 1) == 2 * Pow2(n) && Pow2(n) + 1 < Pow2(n + 1)
  {
  }

  lemma PropBinopLighter(t: Term)
    requires t.Binop?
    ensures Lighter(PropBinop(t), t)
  {
    hide FoldBinop, MakeConst, IsZero, Width, Weight;
    var Binop(op, x, y) := t;
    WeightBinop(op, x, y);
    MulStrict(1, Weight(x), Weight(y));
    MulStrict(1, Weight(y), Weight(x));
    MulLe(3, Weight(x), Weight(y));
    if x.Ite? {
      DistributeLighter(op, x.cond, x.a, x.b, y);
    }
    if y.Ite? {
      DistributeLighter(op, y.cond, y.a, y.b, x);
    }
    if x.Const? && y.Const? {
      FoldConst(op, Width(t), x, y);
      WeightConst(FoldBinop(op, Width(t), x, y));
    }
    WeightConst(MakeConst(Width(t), 0));
  }

  lemma WeightConst(t: Term)
    requires t.Const?
    ensures Weight(t) == 3
  {
  }

  lemma DistributeLighter(op: BvOp, c: Term, x: Term, y: Term, z: Term)
    ensures Weight(Ite(c, Binop(op, x, z), Binop(op, y, z))) < Weight(Binop(op, Ite(c, x, y), z))
    ensures Weight(Ite(c, Binop(op, z, x), Binop(op, z, y))) < Weight(Binop(op, z, Ite(c, x, y)))
  {
    hide Weight;
    WeightIte(c, Binop(op, x, z), Binop(op, y, z));
    WeightIte(c, Binop(op, z, x), Binop(op, z, y));
    WeightIte(c, x, y);
    WeightBinop(op, x, z);
    WeightBinop(op, y, z);
    WeightBinop(op, z, x);
    WeightBinop(op, z, y);
    WeightBinop(op, Ite(c, x, y), z);
    WeightBinop(op, z, Ite(c, x, y));
    Distribute(Weight(c), Weight(x), Weight(y), Weight(z));
  }

  lemma FoldConst(op: BvOp, n: nat, x: Term, y: Term)
    ensures x.Const? && y.Const? ==> FoldBinop(op, n, x, y).Const?
  {
    hide ReadConst, ReadSigned, AndWord, OrWord, XorWord, SignedRem;
  }

  lemma Distribute(c: nat, x: nat, y: nat, z: nat)
    requires c >= 3 && z >= 3
    ensures c + x * z + y * z + 1 < (c + x + y + 1) * z
    ensures c + z * x + z * y + 1 < z * (c + x + y + 1)
  {
    assert (c + x + y + 1) * z == c * z + x * z + y * z + z;
    MulStrict(1, z, c);
  }

  lemma {:induction false} ArgLighter(args: seq<Term>, i: nat)
    requires i < |args|
    ensures Weight(args[i]) <= TotalWeight(args)
  {
    if i > 0 {
      ArgLighter(args[1..], i - 1);
    }
  }

  lemma PropApplyLighter(t: Term)
    requires t.Apply?
    ensures Lighter(PropApply(t), t)
  {
    hide IsZero, MakeConst;
    if |t.args| > 0 {
      ArgLighter(t.args, 0);
      ArgLighter(t.args, |t.args| - 1);
    }
  }

  lemma PropLighter(t: Term)
    ensures Lighter(Prop(t), t)
  {
    hide MakeConst, ReadConst, ReadSigned, PropBinop, FoldCompare, PropApply, Width;
    match t
    case Binop(_, _, _) => PropBinopLighter(t);
    case Apply(_, _) => PropApplyLighter(t);
    case _ =>
  }

  lemma LocalLighter(p: Pass, t: Term)
    ensures Lighter(Local(p, t), t)
  {
    MergeLighter(t);
    MoveLighter(t);
    PropLighter(t);
  }

  lemma WeightTail(args: seq<Term>)
    requires args != []
    ensures TotalWeight(args) == Weight(args[0]) + TotalWeight(args[1..])
  {
  }

  lemma {:induction false} ArgsLighter(args: seq<Term>, args': seq<Term>)
    requires |args'| == |args| && forall i :: 0 <= i < |args| ==> Lighter(args'[i], args[i])
    ensures args' == args || TotalWeight(args') < TotalWeight(args)
  {
    if args != [] {
      assert Lighter(args'[0], args[0]);
      hide Weight, Lighter;
      assert forall i :: 0 <= i < |args[1..]| ==> args[1..][i] == args[i + 1] && args'[1..][i] == args'[i + 1];
      ArgsLighter(args[1..], args'[1..]);
      WeightTail(args);
      WeightTail(args');
      hide TotalWeight;
      assert args == [args[0]] + args[1..] && args' == [args'[0]] + args'[1..];
    }
  }

  lemma ExtractLighter(x: Term, x': Term, high: nat, low: nat)
    requires Lighter(x', x)
    ensures Lighter(Extract(x', high, low), Extract(x, high, low))
  {
    if Weight(x') < Weight(x) {
      Pow2Strict(Weight(x'), Weight(x));
    }
  }

  lemma BinopLighter(op: BvOp, x: Term, x': Term, y: Term, y': Term)
    requires Lighter(x', x) && Lighter(y', y)
    ensures Lighter(Binop(op, x', y'), Binop(op, x, y))
  {
    var a, a', b, b' := Weight(x), Weight(x'), Weight(y), Weight(y');
    MulLe(a', a, b');
    MulLe(b', b, a);
    if a' < a {
      MulStrict(a', a, b');
    }
    if b' < b {
      MulStrict(b', b, a);
    }
  }

  lemma ApplyLighter(f: SymFunction, args: seq<Term>, args': seq<Term>)
    requires |args'| == |args| && forall i :: 0 <= i < |args| ==> Lighter(args'[i], args[i])
    ensures Lighter(Apply(f, args'), Apply(f, args))
  {
    ArgsLighter(args, args');
  }

  lemma UnaryLighter(x: Term, x': Term, op: UnOp, n: nat)
    requires Lighter(x', x)
    ensures Lighter(Unop(op, x'), Unop(op, x)) && Lighter(SignExtend(x', n), SignExtend(x, n))
    ensures Lighter(BoolNot(x'), BoolNot(x))
  {
  }

  lemma PairLighter(x: Term, x': Term, y: Term, y': Term, cmp: CmpOp)
    requires Lighter(x', x) && Lighter(y', y)
    ensures Lighter(Lookup(x', y'), Lookup(x, y)) && Lighter(Compare(cmp, x', y'), Compare(cmp, x, y))
  {
  }

  lemma BoolPairLighter(x: Term, x': Term, y: Term, y': Term, op: BoolOp)
    requires Lighter(x', x) && Lighter(y', y)
    ensures Lighter(BoolBinop(op, x', y'), BoolBinop(op, x, y)) && Lighter(ArrayEq(x', y'), ArrayEq(x, y))
  {
  }

  lemma TripleLighter(x: Term, x': Term, y: Term, y': Term, z: Term, z': Term)
    requires Lighter(x', x) && Lighter(y', y) && Lighter(z', z)
    ensures Lighter(Ite(x', y', z'), Ite(x, y, z)) && Lighter(Store(x', y', z'), Store(x, y, z))
  {
  }

  lemma {:induction false} RebuildLighter(p: Pass, t: Term)
    ensures Lighter(Rebuild(p, t), t)
    decreases t, 0
  {
    hide Run, Lighter;
    match t
    case Extract(x, high, low) =>
      RunLighter(p, x);
      ExtractLighter(x, Run(p, x), high, low);
    case SignExtend(x, n) =>
      RunLighter(p, x);
      UnaryLighter(x, Run(p, x), Not, n);
    case Unop(op, x) =>
      RunLighter(p, x);
      UnaryLighter(x, Run(p, x), op, 0);
    case BoolNot(x) =>
      RunLighter(p, x);
      UnaryLighter(x, Run(p, x), Not, 0);
    case Binop(op, x, y) =>
      RunLighter(p, x);
      RunLighter(p, y);
      BinopLighter(op, x, Run(p, x), y, Run(p, y));
    case Lookup(x, y) =>
      RunLighter(p, x);
      RunLighter(p, y);
      PairLighter(x, Run(p, x), y, Run(p, y), Eq);
    case Compare(cmp, x, y) =>
      RunLighter(p, x);
      RunLighter(p, y);
      PairLighter(x, Run(p, x), y, Run(p, y), cmp);
    case BoolBinop(op, x, y) =>
      RunLighter(p, x);
      RunLighter(p, y);
      BoolPairLighter(x, Run(p, x), y, Run(p, y), op);
    case ArrayEq(x, y) =>
      RunLighter(p, x);
      RunLighter(p, y);
      BoolPairLighter(x, Run(p, x), y, Run(p, y), BAnd);
    case Ite(x, y, z) =>
      RunLighter(p, x);
      RunLighter(p, y);
      RunLighter(p, z);
      TripleLighter(x, Run(p, x), y, Run(p, y), z, Run(p, z));
    case Store(x, y, z) =>
      RunLighter(p, x);
      RunLighter(p, y);
      RunLighter(p, z);
      TripleLighter(x, Run(p, x), y, Run(p, y), z, Run(p, z));
    case Apply(f, args) =>
      forall i | 0 <= i < |args|
        ensures Lighter(Run(p, args[i]), args[i])
      {
        RunLighter(p, args[i]);
      }
      ApplyLighter(f, args, Rebuild(p, t).args);
    case _ => SameLighter(t);
  }

  lemma SameLighter(t: Term)
    ensures Lighter(t, t)
  {
  }

  /** A pass leaves the term alone or makes it lighter. */
  lemma {:induction false} RunLighter(p: Pass, t: Term)
    ensures Lighter(Run(p, t), t)
    decreases t, 1
  {
    hide Local;
    RebuildLighter(p, t);
    LocalLighter(p, Rebuild(p, t));
  }

  // ----- A term that no pass changes is in normal form -----

  /** If a pass leaves a term alone, it leaves the node alone. */
  lemma Stays(p: Pass, t: Term)
    requires Run(p, t) == t
    ensures Rebuild(p, t) == t && Local(p, t) == t
  {
    RebuildLighter(p, t);
    LocalLighter(p, Rebuild(p, t));
    hide Local, Rebuild, Weight;
  }

  lemma NothingIsZero(t: Term)
    ensures IsNothing(t) ==> IsZero(t)
  {
    if IsNothing(t) && t.size < 64 {
      SmallMod(0, Pow2(t.size));
    }
  }

  lemma ExtractStays(x: Term, high: nat, low: nat)
    requires Move(Extract(x, high, low)) == Extract(x, high, low)
    requires Merge(Extract(x, high, low)) == Extract(x, high, low)
    requires Prop(Extract(x, high, low)) == Extract(x, high, low)
    ensures NormalExtract(x, high, low)
  {
    assert x < Extract(x, high, low);
    match x
    case SignExtend(y, _) => assert y < x;
    case Binop(_, y, z) => assert y < x && z < x;
    case _ =>
  }

  lemma BinopStays(op: BvOp, x: Term, y: Term)
    requires Merge(Binop(op, x, y)) == Binop(op, x, y) && PropBinop(Binop(op, x, y)) == Binop(op, x, y)
    ensures NormalBinop(op, x, y)
  {
    assert x < Binop(op, x, y) && y < Binop(op, x, y);
    NothingIsZero(x);
    NothingIsZero(y);
    hide IsZero, ReadConst, MakeConst;
  }

  lemma ApplyStays(f: SymFunction, args: seq<Term>)
    requires PropApply(Apply(f, args)) == Apply(f, args)
    ensures NormalApply(f, args)
  {
    forall i | 0 <= i < |args|
      ensures (IsNothing(args[i]) ==> IsZero(args[i])) && args[i] != Apply(f, args)
    {
      NothingIsZero(args[i]);
      assert args[i] < Apply(f, args);
    }
    hide IsZero, IsNothing, MakeConst;
  }

  lemma NodeStays(t: Term)
    requires Local(Mover, t) == t && Local(Merger, t) == t && Local(Propagator, t) == t
    ensures NormalNode(t)
  {
    match t
    case Extract(x, high, low) => ExtractStays(x, high, low);
    case Ite(_, x, y) => assert x < t && y < t;
    case Binop(op, x, y) => BinopStays(op, x, y);
    case Apply(f, args) => ApplyStays(f, args);
    case _ =>
  }

  lemma {:induction false} StableIsNormal(t: Term)
    requires Run(Mover, t) == t && Run(Merger, t) == t && Run(Propagator, t) == t
    ensures Normal(t)
  {
    Stays(Mover, t);
    Stays(Merger, t);
    Stays(Propagator, t);
    NodeStays(t);
    hide Local, NormalNode, Run;
    match t
    case Extract(x, _, _) => StableIsNormal(x);
    case SignExtend(x, _) => StableIsNormal(x);
    case Unop(_, x) => StableIsNormal(x);
    case Binop(_, x, y) =>
      StableIsNormal(x);
      StableIsNormal(y);
    case Ite(c, x, y) =>
      StableIsNormal(c);
      StableIsNormal(x);
      StableIsNormal(y);
    case Lookup(x, k) =>
      StableIsNormal(x);
      StableIsNormal(k);
    case Apply(f, args) =>
      forall i | 0 <= i < |args|
        ensures Normal(args[i])
      {
        assert Rebuild(Mover, t).args[i] == args[i];
        assert Rebuild(Merger, t).args[i] == args[i];
        assert Rebuild(Propagator, t).args[i] == args[i];
        StableIsNormal(args[i]);
      }
    case BoolNot(x) => StableIsNormal(x);
    case Compare(_, x, y) =>
      StableIsNormal(x);
      StableIsNormal(y);
    case BoolBinop(_, x, y) =>
      StableIsNormal(x);
      StableIsNormal(y);
    case ArrayEq(x, y) =>
      StableIsNormal(x);
      StableIsNormal(y);
    case Store(x, k, v) =>
      StableIsNormal(x);
      StableIsNormal(k);
      StableIsNormal(v);
    case _ =>
  }

  // ----- The driver -----

  /** The floating-point identities are consistent: some assignment satisfies them. */
  lemma SomeEnv() returns (env: Env)
    ensures FloatLaws(env)
  {
    env := Env((name: string, n: nat) => [], (name: string) => false,
      (name: string, k: nat, n: nat) => ((x: seq<bool>) => []),
               (op: BvOp, a: seq<bool>, b: seq<bool>) => [],
               (f: SymFunction, args: seq<seq<bool>>) =>
                 if (f.name in ADDS || f.name in SUBS) && |args| == 2
                 then (if FromBits(args[1]) == 0 then args[0] else args[1]) else []);
    forall f: SymFunction, a: seq<bool>, b: seq<bool>
      ensures BinaryLaw(env, f, a, b)
    {
      ZeroFit(f.ret);
      NamesDiffer(f.name);
      ToFromBits(a);
      ToFromBits(b);
      hide FromBits, ToBits;
      assert [a, b][0] == a && [a, b][1] == b;
      assert |a| == f.ret ==> Fit(a, f.ret) == a;
      assert |b| == f.ret ==> Fit(b, f.ret) == b;
    }
    forall f: SymFunction, a: seq<bool>
      ensures UnaryLaw(env, f, a)
    {
      ZeroFit(f.ret);
      NamesDiffer(f.name);
    }
  }

  lemma NamesDiffer(name: string)
    ensures name in ADDS || name in SUBS ==> name !in MULS && name !in ZERO_TO_ZERO
  {
    assert name in ADDS || name in SUBS ==> |name| == 10 && name[0] != 'm';
    assert name in ZERO_TO_ZERO ==> |name| > 10;
    assert name in MULS ==> name[0] == 'm';
  }

  lemma ZeroFit(n: nat)
    ensures FromBits(Fit([], n)) == 0
  {
    ToBitsConstant(false, n);
    assert Fit([], n) == seq(n, i => false) == ToBits(0, n);
    SmallMod(0, Pow2(n));
    FromToBits(0, n);
  }

  /** r may replace t under every assignment in question. */
  ghost predicate Equivalent(r: Term, t: Term, scope: Scope) {
    forall env :: (scope.floats ==> FloatLaws(env)) ==> Replaces(r, t, env, scope)
  }

  lemma RunEquivalent(p: Pass, r: Term, t: Term, scope: Scope)
    requires Equivalent(r, t, scope) && (FoldsMod(p, r) ==> scope.mods)
    ensures Equivalent(Run(p, r), t, scope)
  {
    hide Good, SortOf, Eval, ModsAgree, ModOk, Run, FloatLaws;
    forall env | scope.floats ==> FloatLaws(env)
      ensures Replaces(Run(p, r), t, env, scope)
    {
      hide Replaces, FoldsMod;
      RunReplaces(p, r, t, env, scope);
    }
  }

  lemma RunReplaces(p: Pass, r: Term, t: Term, env: Env, scope: Scope)
    requires (scope.floats ==> FloatLaws(env)) && (FoldsMod(p, r) ==> scope.mods) && Replaces(r, t, env, scope)
    ensures Replaces(Run(p, r), t, env, scope)
  {
    hide Good, SortOf, Eval, ModsAgree, ModOk, Run, FloatLaws, FoldsMod;
    RunSound(p, r, env, scope);
  }

  /** One round of the three passes. */
  function RoundOf(t: Term): Term { Run(Propagator, Run(Merger, Run(Mover, t))) }

  ghost predicate RoundFolds(t: Term) {
    var moved := Run(Mover, t);
    FoldsMod(Mover, t) || FoldsMod(Merger, moved) || FoldsMod(Propagator, Run(Merger, moved))
  }

  lemma RoundLighter(t: Term)
    ensures RoundOf(t) != t ==> Weight(RoundOf(t)) < Weight(t)
    ensures RoundOf(t) == t ==> Run(Mover, t) == t && Run(Merger, t) == t && Run(Propagator, t) == t
  {
    hide Run, Weight;
    var moved := Run(Mover, t);
    var merged := Run(Merger, moved);
    RunLighter(Mover, t);
    RunLighter(Merger, moved);
    RunLighter(Propagator, merged);
  }

  /** In some round of the simplification of t a MOD is folded. */
  ghost predicate EverFolds(t: Term)
    decreases Weight(t)
  {
    RoundLighter(t);
    RoundFolds(t) || (RoundOf(t) != t && EverFolds(RoundOf(t)))
  }

  /** Everything a finished simplification promises: no pass can change the result, and if the term
      was well formed, so is the result, with the same sort and the same value: under every assignment
      if no MOD was folded, and otherwise under every assignment for which the MODs agree with their
      folds. */
  ghost predicate Simplified(r: Term, t: Term, scope: Scope) {
    && Normal(r)
    && (Good(t, scope) && (EverFolds(t) ==> scope.mods) ==>
          && Good(r, scope) && SortOf(r) == SortOf(t)
          && forall env :: (scope.floats ==> FloatLaws(env)) && Trusted(t, env, scope) ==> Eval(r, env) == Eval(t, env))
  }

  lemma EquivalentSimplified(r: Term, t: Term, scope: Scope)
    requires Run(Mover, r) == r && Run(Merger, r) == r && Run(Propagator, r) == r
    requires Good(t, scope) && (EverFolds(t) ==> scope.mods) ==> Equivalent(r, t, scope)
    ensures Simplified(r, t, scope)
  {
    hide Good, SortOf, Eval, ModsAgree, ModOk, Run, FloatLaws, EverFolds, Normal;
    StableIsNormal(r);
    var env := SomeEnv();
    if Good(t, scope) && (EverFolds(t) ==> scope.mods) {
      assert Replaces(r, t, env, scope);
      forall env | (scope.floats ==> FloatLaws(env)) && Trusted(t, env, scope)
        ensures Eval(r, env) == Eval(t, env)
      {
        assert Replaces(r, t, env, scope);
      }
    }
  }

  /** The simplifier with the caches that its passes share between calls.  Nodes are identified with
      the terms they stand for. */
  class SymSimplify {
    var cache: map<(Pass, Term), Term>

    /** Every cached result is what the pass would compute. */
    ghost predicate Valid()
      reads this
    {
      forall k :: k in cache ==> cache[k] == Run(k.0, k.1)
    }

    constructor ()
      ensures Valid()
    {
      cache := map[];
    }

    /** Apply a pass to a node, looking it up first. */
    method Visit(p: Pass, t: Term) returns (r: Term)
      requires Valid()
      modifies this
      ensures Valid() && r == Run(p, t)
      decreases t, 2
    {
      hide Local, Run;
      if t.Const? || t.Var? || t.BoolConst? || t.BoolVar? || t.ArrayVar? {
        r := LeafUnchanged(p, t);
        return;
      }
      if (p, t) in cache {
        return cache[(p, t)];
      }
      var node := VisitChildren(p, t);
      r := Local(p, node);
      RunIs(p, t);
      cache := cache[(p, t) := r];
    }

    method VisitChildren(p: Pass, t: Term) returns (r: Term)
      requires Valid()
      modifies this
      ensures Valid() && r == Rebuild(p, t)
      decreases t, 1
    {
      hide Run;
      r := t;
      match t
      case Extract(x, high, low) =>
        var x' := Visit(p, x);
        r := Extract(x', high, low);
      case SignExtend(x, n) =>
        var x' := Visit(p, x);
        r := SignExtend(x', n);
      case Unop(op, x) =>
        var x' := Visit(p, x);
        r := Unop(op, x');
      case Binop(op, x, y) =>
        var x' := Visit(p, x);
        var y' := Visit(p, y);
        r := Binop(op, x', y');
      case Ite(c, x, y) =>
        var c' := Visit(p, c);
        var x' := Visit(p, x);
        var y' := Visit(p, y);
        r := Ite(c', x', y');
      case Lookup(x, k) =>
        var x' := Visit(p, x);
        var k' := Visit(p, k);
        r := Lookup(x', k');
      case Apply(f, args) =>
        var args' := VisitArgs(p, t);
        r := Apply(f, args');
      case BoolNot(_) | Compare(_, _, _) | BoolBinop(_, _, _) | ArrayEq(_, _) | Store(_, _, _) =>
        r := VisitOthers(p, t);
      case _ =>
    }

    /** The terms that denote booleans or arrays. */
    method VisitOthers(p: Pass, t: Term) returns (r: Term)
      requires Valid() && (t.BoolNot? || t.Compare? || t.BoolBinop? || t.ArrayEq? || t.Store?)
      modifies this
      ensures Valid() && r == Rebuild(p, t)
      decreases t, 0
    {
      hide Run;
      r := t;
      match t
      case BoolNot(x) =>
        var x' := Visit(p, x);
        r := BoolNot(x');
      case Compare(cmp, x, y) =>
        var x' := Visit(p, x);
        var y' := Visit(p, y);
        r := Compare(cmp, x', y');
      case BoolBinop(op, x, y) =>
        var x' := Visit(p, x);
        var y' := Visit(p, y);
        r := BoolBinop(op, x', y');
      case ArrayEq(x, y) =>
        var x' := Visit(p, x);
        var y' := Visit(p, y);
        r := ArrayEq(x', y');
      case Store(x, k, v) =>
        var x' := Visit(p, x);
        var k' := Visit(p, k);
        var v' := Visit(p, v);
        r := Store(x', k', v');
      case _ =>
    }

    method VisitArgs(p: Pass, t: Term) returns (args: seq<Term>)
      requires Valid() && t.Apply?
      modifies this
      ensures Valid() && args == Rebuild(p, t).args
      decreases t, 0
    {
      hide Run;
      args := [];
      for i := 0 to |t.args|
        invariant Valid() && |args| == i && forall k :: 0 <= k < i ==> args[k] == Run(p, t.args[k])
      {
        var arg := Visit(p, t.args[i]);
        args := args + [arg];
      }
    }

    /** The driver: the three passes in turn until the term no longer changes.  It terminates on
        every term. */
    method Simplify(t: Term, ghost scope: Scope) returns (r: Term)
      requires Valid()
      modifies this
      ensures Valid() && Normal(r) && Simplified(r, t, scope)
    {
      hide Normal, Good, SortOf, Eval, ModsAgree, ModOk, Run, Weight, FloatLaws, Equivalent, EverFolds, RoundFolds;
      r := t;
      SelfEquivalent(t, scope);
      ghost var claimed := Good(t, scope) && (EverFolds(t) ==> scope.mods);
      while true
        invariant Valid() && (claimed ==> Equivalent(r, t, scope) && (EverFolds(r) ==> scope.mods))
        decreases Weight(r)
      {
        var before := r;
        var moved := Visit(Mover, r);
        var merged := Visit(Merger, moved);
        r := Visit(Propagator, merged);
        RoundLighter(before);
        if claimed {
          Round(before, t, scope);
        }
        if before == r {
          break;
        }
      }
      EquivalentSimplified(r, t, scope);
    }
  }

  lemma SelfEquivalent(t: Term, scope: Scope)
    ensures Good(t, scope) ==> Equivalent(t, t, scope)
  {
  }

  /** One round of passes keeps the value. */
  lemma Round(before: Term, t: Term, scope: Scope)
    requires Equivalent(before, t, scope) && (EverFolds(before) ==> scope.mods)
    ensures Equivalent(RoundOf(before), t, scope)
    ensures RoundOf(before) != before ==> (EverFolds(RoundOf(before)) ==> scope.mods)
  {
    hide Good, SortOf, Eval, ModsAgree, ModOk, Run, Weight, FloatLaws, Equivalent, FoldsMod;
    RoundLighter(before);
    RunEquivalent(Mover, before, t, scope);
    RunEquivalent(Merger, Run(Mover, before), t, scope);
    RunEquivalent(Propagator, Run(Merger, Run(Mover, before)), t, scope);
  }

  lemma RunIs(p: Pass, t: Term)
    ensures Run(p, t) == Local(p, Rebuild(p, t))
  {
  }

  /** Leaves are returned as they are. */
  method LeafUnchanged(p: Pass, t: Term) returns (r: Term)
    requires t.Const? || t.Var? || t.BoolConst? || t.BoolVar? || t.ArrayVar?
    ensures r == Run(p, t)
  {
    r := t;
  }
}
