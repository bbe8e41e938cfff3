/** Symbolic terms (src/symstate/bitvector.h, bool.h, array.h), their types and their meaning. */
module Terms {
  import opened Bits

  datatype BvOp = And | Concat | Div | Minus | Mod | Mult | Or | Plus | RotateLeft | RotateRight
                | ShiftRight | ShiftLeft | SignDiv | SignMod | SignShiftRight | Xor

  datatype UnOp = Not | UMinus

  datatype CmpOp = Eq | Ge | Gt | Le | Lt | SignGe | SignGt | SignLe | SignLt

  datatype BoolOp = BAnd | BIff | BImplies | BOr | BXor

  datatype SymFunction = SymFunction(name: string, ret: nat, args: seq<nat>)

  datatype Term =
    | Const(size: nat, value: nat)
    | Var(size: nat, name: string)
    | Extract(bv: Term, high: nat, low: nat)
    | SignExtend(bv: Term, size: nat)
    | Unop(unop: UnOp, bv: Term)
    | Binop(op: BvOp, a: Term, b: Term)
    | Ite(cond: Term, a: Term, b: Term)
    | Lookup(array: Term, key: Term)
    | Apply(f: SymFunction, args: seq<Term>)
    | BoolConst(truth: bool)
    | BoolVar(name: string)
    | BoolNot(arg: Term)
    | Compare(cmp: CmpOp, a: Term, b: Term)
    | BoolBinop(bop: BoolOp, a: Term, b: Term)
    | ArrayEq(a: Term, b: Term)
    | ArrayVar(keySize: nat, valueSize: nat, name: string)
    | Store(array: Term, key: Term, val: Term)

  // ----- Types -----

  datatype Sort = BitsOf(width: nat) | Bool | Array(keySize: nat, valueSize: nat)

  function WidthOf(s: Sort): nat { if s.BitsOf? then s.width else 0 }

  function SortOf(t: Term): Sort {
    match t
    case Const(n, _) => BitsOf(n)
    case Var(n, _) => BitsOf(n)
    case Extract(_, high, low) => BitsOf(if low <= high then high + 1 - low else 0)
    case SignExtend(_, n) => BitsOf(n)
    case Unop(_, x) => SortOf(x)
    case Binop(op, x, y) => BitsOf(if op == Concat then WidthOf(SortOf(x)) + WidthOf(SortOf(y)) else WidthOf(SortOf(x)))
    case Ite(_, x, _) => SortOf(x)
    case Lookup(x, _) => BitsOf(var s := SortOf(x); if s.Array? then s.valueSize else 0)
    case Apply(f, _) => BitsOf(f.ret)
    case ArrayVar(k, n, _) => Array(k, n)
    case Store(x, _, _) => SortOf(x)
    case _ => Bool
  }

  /** The width_ field of a bit-vector node. */
  function Width(t: Term): nat { WidthOf(SortOf(t)) }

  /** Functions that constant propagation rewrites by floating-point identities. */
  const ADDS: set<string> := {"add_single", "add_double"}
  const SUBS: set<string> := {"sub_single", "sub_double"}
  const MULS: set<string> := {"mul_single", "mul_double"}
  const ZERO_TO_ZERO: set<string> := {
    "sqrt_double", "sqrt_single", "cvt_int32_to_double", "cvt_int32_to_single", "cvt_double_to_int32",
    "cvt_double_to_single", "cvt_single_to_int32", "cvt_single_to_double", "cvt_double_to_int64",
    "cvt_int64_to_double", "cvt_int64_to_single", "cvt_single_to_int64", "cvt_double_to_int32_truncate",
    "cvt_single_to_int32_truncate", "cvt_double_to_int64_truncate", "cvt_single_to_int64_truncate"}

  predicate FloatName(name: string) { name in ADDS || name in SUBS || name in MULS || name in ZERO_TO_ZERO }

  /** A constant the folding code reads correctly: at most 64 bits wide, or zero. */
  predicate GoodConst(n: nat, value: nat) { n > 0 && value < Pow2(64) && (n <= 64 || value == 0) }

  predicate IsBits(t: Term) { SortOf(t).BitsOf? && Width(t) > 0 }

  /** What a claim about the simplifier covers: terms with floating-point functions, under their laws;
      and MODs that get folded, where the fold is right. */
  datatype Scope = Scope(floats: bool, mods: bool)

  const ANY: Scope := Scope(false, false)

  /** Well typed as the type checker of the source demands, constants as above; the floating-point
      functions only if in scope. */
  predicate Good(t: Term, scope: Scope) {
    match t
    case Const(n, value) => GoodConst(n, value)
    case Var(n, _) => n > 0
    case Extract(x, high, low) => Good(x, scope) && IsBits(x) && low <= high < Width(x)
    case SignExtend(x, n) => Good(x, scope) && IsBits(x) && Width(x) <= n
    case Unop(_, x) => Good(x, scope) && IsBits(x)
    case Binop(op, x, y) =>
      Good(x, scope) && Good(y, scope) && IsBits(x) && IsBits(y) && (op == Concat || Width(x) == Width(y))
    case Ite(c, x, y) => Good(c, scope) && SortOf(c) == Bool && Good(x, scope) && Good(y, scope) && IsBits(x) &&
      SortOf(y) == SortOf(x)
    case Lookup(x, k) => Good(x, scope) && Good(k, scope) && SortOf(x).Array? &&
      SortOf(k) == BitsOf(SortOf(x).keySize) && SortOf(x).valueSize > 0
    case Apply(f, args) =>
      && f.ret > 0 && |args| == |f.args| && (FloatName(f.name) ==> scope.floats)
      && (f.name in ADDS || f.name in SUBS ==> f.args == [f.ret, f.ret])
      && forall i :: 0 <= i < |args| ==> Good(args[i], scope) && IsBits(args[i]) && Width(args[i]) == f.args[i]
    case BoolNot(x) => Good(x, scope) && SortOf(x) == Bool
    case Compare(_, x, y) => Good(x, scope) && Good(y, scope) && IsBits(x) && SortOf(y) == SortOf(x)
    case BoolBinop(_, x, y) => Good(x, scope) && Good(y, scope) && SortOf(x) == SortOf(y) == Bool
    case ArrayEq(x, y) => Good(x, scope) && Good(y, scope) && SortOf(x).Array? && SortOf(y) == SortOf(x)
    case Store(x, k, v) =>
      Good(x, scope) && Good(k, scope) && Good(v, scope) && SortOf(x).Array? &&
      SortOf(k) == BitsOf(SortOf(x).keySize) && SortOf(v) == BitsOf(SortOf(x).valueSize)
    case _ => true
  }

  // ----- Meaning -----

  datatype Value = VBits(bits: seq<bool>) | VBool(truth: bool) | VArray(contents: seq<bool> -> seq<bool>)

  /** An assignment, with any meaning for the operators and functions that are never folded. */
  datatype Env = Env(
    bits: (string, nat) -> seq<bool>,
    bools: string -> bool,
    arrays: (string, nat, nat) -> (seq<bool> -> seq<bool>),
    other: (BvOp, seq<bool>, seq<bool>) -> seq<bool>,
    fn: (SymFunction, seq<seq<bool>>) -> seq<bool>)

  ghost function B(v: Value): seq<bool> { if v.VBits? then v.bits else [] }
  ghost predicate T(v: Value) { v.VBool? && v.truth }
  ghost function A(v: Value): seq<bool> -> seq<bool> { if v.VArray? then v.contents else (k: seq<bool>) => [] }

  ghost function UnopBits(op: UnOp, a: seq<bool>): seq<bool> {
    match op
    case Not => NotBits(a)
    case UMinus => ToBits(0 - FromBits(a), |a|)
  }

  ghost function BinopBits(env: Env, op: BvOp, a: seq<bool>, b: seq<bool>): seq<bool> {
    match op
    case And => AndBits(a, b)
    case Or => OrBits(a, b)
    case Xor => XorBits(a, b)
    case Concat => b + a
    case Plus => ToBits(FromBits(a) + FromBits(b), |a|)
    case Minus => ToBits(FromBits(a) - FromBits(b), |a|)
    case Mult => ToBits(FromBits(a) * FromBits(b), |a|)
    case Mod => ToBits(if FromBits(b) == 0 then FromBits(a) else FromBits(a) % FromBits(b), |a|)
    case _ => Fit(env.other(op, a, b), |a|)
  }

  ghost predicate CompareBits(cmp: CmpOp, a: seq<bool>, b: seq<bool>) {
    match cmp
    case Eq => a == b
    case Ge => FromBits(a) >= FromBits(b)
    case Gt => FromBits(a) > FromBits(b)
    case Le => FromBits(a) <= FromBits(b)
    case Lt => FromBits(a) < FromBits(b)
    case SignGe => SignedOf(a) >= SignedOf(b)
    case SignGt => SignedOf(a) > SignedOf(b)
    case SignLe => SignedOf(a) <= SignedOf(b)
    case SignLt => SignedOf(a) < SignedOf(b)
  }

  predicate Connect(op: BoolOp, a: bool, b: bool) {
    match op
    case BAnd => a && b
    case BIff => a == b
    case BImplies => a ==> b
    case BOr => a || b
    case BXor => a != b
  }

  ghost function Update(f: seq<bool> -> seq<bool>, k: seq<bool>, v: seq<bool>): seq<bool> -> seq<bool> {
    (x: seq<bool>) => if x == k then v else f(x)
  }

  ghost predicate SameArray(f: seq<bool> -> seq<bool>, g: seq<bool> -> seq<bool>, keySize: nat, valueSize: nat) {
    forall k :: |k| == keySize ==> Fit(f(k), valueSize) == Fit(g(k), valueSize)
  }

  ghost function Eval(t: Term, env: Env): Value {
    match t
    case Const(n, value) => VBits(ToBits(value, n))
    case Var(n, name) => VBits(Fit(env.bits(name, n), n))
    case Extract(x, high, low) => VBits(Slice(B(Eval(x, env)), high, low))
    case SignExtend(x, n) => VBits(SignExt(B(Eval(x, env)), n))
    case Unop(op, x) => VBits(UnopBits(op, B(Eval(x, env))))
    case Binop(op, x, y) => VBits(BinopBits(env, op, B(Eval(x, env)), B(Eval(y, env))))
    case Ite(c, x, y) => if T(Eval(c, env)) then Eval(x, env) else Eval(y, env)
    case Lookup(x, k) => VBits(Fit(A(Eval(x, env))(B(Eval(k, env))), Width(t)))
    case Apply(f, args) => VBits(Fit(env.fn(f, Values(args, env)), f.ret))
    case BoolConst(b) => VBool(b)
    case BoolVar(name) => VBool(env.bools(name))
    case BoolNot(x) => VBool(!T(Eval(x, env)))
    case Compare(cmp, x, y) => VBool(CompareBits(cmp, B(Eval(x, env)), B(Eval(y, env))))
    case BoolBinop(op, x, y) => VBool(Connect(op, T(Eval(x, env)), T(Eval(y, env))))
    case ArrayEq(x, y) =>
      VBool(SortOf(x).Array? && SameArray(A(Eval(x, env)), A(Eval(y, env)), SortOf(x).keySize, SortOf(x).valueSize))
    case ArrayVar(k, n, name) => VArray(env.arrays(name, k, n))
    case Store(x, k, v) => EvalStore(Eval(x, env), Eval(k, env), Eval(v, env))
  }

  ghost function Values(args: seq<Term>, env: Env): (vs: seq<seq<bool>>)
    ensures |vs| == |args| && forall i :: 0 <= i < |args| ==> vs[i] == B(Eval(args[i], env))
  {
    seq(|args|, i requires 0 <= i < |args| => B(Eval(args[i], env)))
  }

  /** The identities the simplifier uses for floating-point functions. */
  ghost predicate BinaryLaw(env: Env, f: SymFunction, a: seq<bool>, b: seq<bool>) {
    var r := Fit(env.fn(f, [a, b]), f.ret);
    && ((f.name in ADDS || f.name in SUBS) && |a| == |b| == f.ret && FromBits(b) == 0 ==> r == a)
    && (f.name in ADDS && |a| == |b| == f.ret && FromBits(a) == 0 ==> r == b)
    && (f.name in MULS && FromBits(a) == 0 && FromBits(b) == 0 ==> FromBits(r) == 0)
  }

  ghost predicate UnaryLaw(env: Env, f: SymFunction, a: seq<bool>) {
    f.name in ZERO_TO_ZERO && FromBits(a) == 0 ==> FromBits(Fit(env.fn(f, [a]), f.ret)) == 0
  }

  ghost predicate FloatLaws(env: Env) {
    && (forall f: SymFunction, a: seq<bool>, b: seq<bool> :: BinaryLaw(env, f, a, b))
    && (forall f: SymFunction, a: seq<bool> :: UnaryLaw(env, f, a))
  }

  // ----- MODs that may be folded -----

  /** Folding MOD of these operands as a signed remainder gives the unsigned one. */
  ghost predicate ModOk(a: seq<bool>, b: seq<bool>) {
    0 < |a| <= 64 ==> FromBits(b) != 0 && RemAgrees(FromBits(a), FromBits(b), Pow2(|a| - 1))
  }

  /** So it is for every MOD that the assignment evaluates: of a conditional only the branch taken
      counts. */
  ghost predicate ModsAgree(t: Term, env: Env) {
    match t
    case Extract(x, _, _) => ModsAgree(x, env)
    case SignExtend(x, _) => ModsAgree(x, env)
    case Unop(_, x) => ModsAgree(x, env)
    case Binop(op, x, y) =>
      ModsAgree(x, env) && ModsAgree(y, env) && (op == Mod ==> ModOk(B(Eval(x, env)), B(Eval(y, env))))
    case Ite(c, x, y) => ModsAgree(c, env) && if T(Eval(c, env)) then ModsAgree(x, env) else ModsAgree(y, env)
    case Lookup(x, k) => ModsAgree(x, env) && ModsAgree(k, env)
    case Apply(_, args) => forall i :: 0 <= i < |args| ==> ModsAgree(args[i], env)
    case BoolNot(x) => ModsAgree(x, env)
    case Compare(_, x, y) => ModsAgree(x, env) && ModsAgree(y, env)
    case BoolBinop(_, x, y) => ModsAgree(x, env) && ModsAgree(y, env)
    case ArrayEq(x, y) => ModsAgree(x, env) && ModsAgree(y, env)
    case Store(x, k, v) => ModsAgree(x, env) && ModsAgree(k, env) && ModsAgree(v, env)
    case _ => true
  }

  /** No MOD occurs in the term. */
  predicate ModFree(t: Term) {
    match t
    case Extract(x, _, _) => ModFree(x)
    case SignExtend(x, _) => ModFree(x)
    case Unop(_, x) => ModFree(x)
    case Binop(op, x, y) => op != Mod && ModFree(x) && ModFree(y)
    case Ite(c, x, y) => ModFree(c) && ModFree(x) && ModFree(y)
    case Lookup(x, k) => ModFree(x) && ModFree(k)
    case Apply(_, args) => forall i :: 0 <= i < |args| ==> ModFree(args[i])
    case BoolNot(x) => ModFree(x)
    case Compare(_, x, y) => ModFree(x) && ModFree(y)
    case BoolBinop(_, x, y) => ModFree(x) && ModFree(y)
    case ArrayEq(x, y) => ModFree(x) && ModFree(y)
    case Store(x, k, v) => ModFree(x) && ModFree(k) && ModFree(v)
    case _ => true
  }

  /** Such a term is in scope of every claim, whatever the assignment. */
  lemma ModFreeAgrees(t: Term, env: Env)
    requires ModFree(t)
    ensures ModsAgree(t, env)
  {
    hide Eval, ModOk;
    match t
    case Apply(_, args) =>
      forall i | 0 <= i < |args|
        ensures ModsAgree(args[i], env)
      {
        ModFreeAgrees(args[i], env);
      }
    case _ =>
  }

  lemma AgreeOne(x: Term, env: Env, high: nat, low: nat, op: UnOp)
    ensures ModsAgree(Extract(x, high, low), env) == ModsAgree(SignExtend(x, high), env) == ModsAgree(x, env)
    ensures ModsAgree(Unop(op, x), env) == ModsAgree(BoolNot(x), env) == ModsAgree(x, env)
  {
    hide Eval, ModOk;
  }

  lemma AgreeTwo(x: Term, y: Term, env: Env, cmp: CmpOp, op: BoolOp)
    ensures ModsAgree(Lookup(x, y), env) <==> ModsAgree(x, env) && ModsAgree(y, env)
    ensures ModsAgree(Compare(cmp, x, y), env) <==> ModsAgree(x, env) && ModsAgree(y, env)
    ensures ModsAgree(BoolBinop(op, x, y), env) <==> ModsAgree(x, env) && ModsAgree(y, env)
    ensures ModsAgree(ArrayEq(x, y), env) <==> ModsAgree(x, env) && ModsAgree(y, env)
  {
    hide Eval, ModOk;
  }

  lemma AgreeBinop(op: BvOp, x: Term, y: Term, env: Env)
    ensures ModsAgree(Binop(op, x, y), env) <==>
            ModsAgree(x, env) && ModsAgree(y, env) && (op == Mod ==> ModOk(B(Eval(x, env)), B(Eval(y, env))))
  {
    hide Eval, ModOk;
  }

  lemma AgreeIte(c: Term, x: Term, y: Term, env: Env)
    ensures ModsAgree(Ite(c, x, y), env) <==>
            ModsAgree(c, env) && if T(Eval(c, env)) then ModsAgree(x, env) else ModsAgree(y, env)
  {
    hide Eval, ModOk;
  }

  lemma AgreeStore(x: Term, k: Term, v: Term, env: Env)
    ensures ModsAgree(Store(x, k, v), env) <==> ModsAgree(x, env) && ModsAgree(k, env) && ModsAgree(v, env)
  {
    hide Eval, ModOk;
  }

  lemma AgreeApply(f: SymFunction, args: seq<Term>, env: Env)
    ensures ModsAgree(Apply(f, args), env) <==> forall i :: 0 <= i < |args| ==> ModsAgree(args[i], env)
  {
    hide Eval, ModOk;
  }

  lemma AgreeLeaf(t: Term, env: Env)
    requires t.Const? || t.BoolConst?
    ensures ModsAgree(t, env)
  {
  }

  // ----- Unfoldings, one constructor at a time -----

  lemma OfConst(n: nat, c: nat, env: Env, scope: Scope)
    ensures Good(Const(n, c), scope) <==> GoodConst(n, c)
    ensures SortOf(Const(n, c)) == BitsOf(n) && Eval(Const(n, c), env) == VBits(ToBits(c, n))
    ensures ModsAgree(Const(n, c), env)
  {
    hide A, B, T, Fit, SameArray, UnopBits, BinopBits, CompareBits, Connect, Slice, SignExt, ToBits, EvalStore,
      FloatName, GoodConst;
    hide ModsAgree, ModOk;
    AgreeLeaf(Const(n, c), env);
  }

  lemma OfExtract(x: Term, high: nat, low: nat, env: Env, scope: Scope)
    ensures var t := Extract(x, high, low);
            && (Good(t, scope) <==> Good(x, scope) && IsBits(x) && low <= high < Width(x))
            && SortOf(t) == BitsOf(if low <= high then high + 1 - low else 0)
            && Eval(t, env) == VBits(Slice(B(Eval(x, env)), high, low))
    ensures ModsAgree(Extract(x, high, low), env) == ModsAgree(x, env)
  {
    hide A, B, T, Fit, SameArray, UnopBits, BinopBits, CompareBits, Connect, Slice, SignExt, ToBits, EvalStore,
      FloatName, GoodConst;
    hide ModsAgree, ModOk;
    AgreeOne(x, env, high, low, Not);
  }

  lemma OfSignExtend(x: Term, n: nat, env: Env, scope: Scope)
    ensures var t := SignExtend(x, n);
            && (Good(t, scope) <==> Good(x, scope) && IsBits(x) && Width(x) <= n)
            && SortOf(t) == BitsOf(n) && Eval(t, env) == VBits(SignExt(B(Eval(x, env)), n))
    ensures ModsAgree(SignExtend(x, n), env) == ModsAgree(x, env)
  {
    hide A, B, T, Fit, SameArray, UnopBits, BinopBits, CompareBits, Connect, Slice, SignExt, ToBits, EvalStore,
      FloatName, GoodConst;
    hide ModsAgree, ModOk;
    AgreeOne(x, env, n, 0, Not);
  }

  lemma OfUnop(op: UnOp, x: Term, env: Env, scope: Scope)
    ensures var t := Unop(op, x);
            && (Good(t, scope) <==> Good(x, scope) && IsBits(x))
            && SortOf(t) == SortOf(x) && Eval(t, env) == VBits(UnopBits(op, B(Eval(x, env))))
    ensures ModsAgree(Unop(op, x), env) == ModsAgree(x, env)
  {
    hide A, B, T, Fit, SameArray, UnopBits, BinopBits, CompareBits, Connect, Slice, SignExt, ToBits, EvalStore,
      FloatName, GoodConst;
    hide ModsAgree, ModOk;
    AgreeOne(x, env, 0, 0, op);
  }

  lemma OfBinop(op: BvOp, x: Term, y: Term, env: Env, scope: Scope)
    ensures var t := Binop(op, x, y);
            && (Good(t, scope) <==> Good(x, scope) && Good(y, scope) && IsBits(x) && IsBits(y) &&
                                     (op == Concat || Width(x) == Width(y)))
            && SortOf(t) == BitsOf(if op == Concat then Width(x) + Width(y) else Width(x))
            && Eval(t, env) == VBits(BinopBits(env, op, B(Eval(x, env)), B(Eval(y, env))))
    ensures ModsAgree(Binop(op, x, y), env) <==>
            ModsAgree(x, env) && ModsAgree(y, env) && (op == Mod ==> ModOk(B(Eval(x, env)), B(Eval(y, env))))
  {
    hide A, B, T, Fit, SameArray, UnopBits, BinopBits, CompareBits, Connect, Slice, SignExt, ToBits, EvalStore,
      FloatName, GoodConst;
    hide ModsAgree, ModOk;
    AgreeBinop(op, x, y, env);
  }

  lemma OfIte(c: Term, x: Term, y: Term, env: Env, scope: Scope)
    ensures var t := Ite(c, x, y);
            && (Good(t, scope) <==>
                && Good(c, scope) && SortOf(c) == Bool
                && Good(x, scope) && Good(y, scope) && IsBits(x) && SortOf(y) == SortOf(x))
            && SortOf(t) == SortOf(x)
            && Eval(t, env) == if T(Eval(c, env)) then Eval(x, env) else Eval(y, env)
    ensures ModsAgree(Ite(c, x, y), env) <==>
            ModsAgree(c, env) && if T(Eval(c, env)) then ModsAgree(x, env) else ModsAgree(y, env)
  {
    hide A, B, T, Fit, SameArray, UnopBits, BinopBits, CompareBits, Connect, Slice, SignExt, ToBits, EvalStore,
      FloatName, GoodConst;
    hide ModsAgree, ModOk;
    AgreeIte(c, x, y, env);
  }

  lemma OfCompare(cmp: CmpOp, x: Term, y: Term, env: Env, scope: Scope)
    ensures var t := Compare(cmp, x, y);
            && (Good(t, scope) <==> Good(x, scope) && Good(y, scope) && IsBits(x) && SortOf(y) == SortOf(x))
            && SortOf(t) == Bool
            && Eval(t, env) == VBool(CompareBits(cmp, B(Eval(x, env)), B(Eval(y, env))))
    ensures ModsAgree(Compare(cmp, x, y), env) <==> ModsAgree(x, env) && ModsAgree(y, env)
  {
    hide A, B, T, Fit, SameArray, UnopBits, BinopBits, CompareBits, Connect, Slice, SignExt, ToBits, EvalStore,
      FloatName, GoodConst;
    hide ModsAgree, ModOk;
    AgreeTwo(x, y, env, cmp, BAnd);
  }

  lemma OfLookup(x: Term, k: Term, env: Env, scope: Scope)
    ensures var t := Lookup(x, k); var s := SortOf(x);
            && (Good(t, scope) <==>
                Good(x, scope) && Good(k, scope) && s.Array? && SortOf(k) == BitsOf(s.keySize) && s.valueSize > 0)
            && SortOf(t) == BitsOf(if s.Array? then s.valueSize else 0)
            && Eval(t, env) == VBits(Fit(A(Eval(x, env))(B(Eval(k, env))), Width(t)))
    ensures ModsAgree(Lookup(x, k), env) <==> ModsAgree(x, env) && ModsAgree(k, env)
  {
    hide A, B, T, Fit, SameArray, UnopBits, BinopBits, CompareBits, Connect, Slice, SignExt, ToBits, EvalStore,
      FloatName, GoodConst;
    hide ModsAgree, ModOk;
    AgreeTwo(x, k, env, Eq, BAnd);
  }

  lemma OfArrayEq(x: Term, y: Term, env: Env, scope: Scope)
    ensures var t := ArrayEq(x, y); var s := SortOf(x);
            && (Good(t, scope) <==> Good(x, scope) && Good(y, scope) && s.Array? && SortOf(y) == s)
            && SortOf(t) == Bool
            && Eval(t, env) == VBool(s.Array? && SameArray(A(Eval(x, env)), A(Eval(y, env)), s.keySize, s.valueSize))
    ensures ModsAgree(ArrayEq(x, y), env) <==> ModsAgree(x, env) && ModsAgree(y, env)
  {
    hide A, B, T, Fit, SameArray, UnopBits, BinopBits, CompareBits, Connect, Slice, SignExt, ToBits, EvalStore,
      FloatName, GoodConst;
    hide ModsAgree, ModOk;
    AgreeTwo(x, y, env, Eq, BAnd);
  }

  lemma OfStore(x: Term, k: Term, v: Term, scope: Scope)
    ensures var t := Store(x, k, v); var s := SortOf(x);
            && (Good(t, scope) <==> Good(x, scope) && Good(k, scope) && Good(v, scope) && s.Array? &&
                                     SortOf(k) == BitsOf(s.keySize) && SortOf(v) == BitsOf(s.valueSize))
            && SortOf(t) == s
  {
    hide A, B, T, Fit, SameArray, UnopBits, BinopBits, CompareBits, Connect, Slice, SignExt, ToBits, EvalStore,
      FloatName, GoodConst;
  }

  ghost function EvalStore(memory: Value, key: Value, val: Value): Value { VArray(Update(A(memory), B(key), B(val))) }

  lemma StoreValue(x: Term, k: Term, v: Term, env: Env)
    ensures Eval(Store(x, k, v), env) == EvalStore(Eval(x, env), Eval(k, env), Eval(v, env))
    ensures ModsAgree(Store(x, k, v), env) <==> ModsAgree(x, env) && ModsAgree(k, env) && ModsAgree(v, env)
  {
    hide EvalStore, A, B, T, Fit, SameArray, UnopBits, BinopBits, CompareBits, Connect, Slice, SignExt, ToBits, SortOf;
    hide ModsAgree, ModOk;
    AgreeStore(x, k, v, env);
  }

  lemma OfBools(op: BoolOp, x: Term, y: Term, env: Env, scope: Scope)
    ensures var t := BoolBinop(op, x, y);
            && (Good(t, scope) <==> Good(x, scope) && Good(y, scope) && SortOf(x) == SortOf(y) == Bool)
            && SortOf(t) == Bool
            && Eval(t, env) == VBool(Connect(op, T(Eval(x, env)), T(Eval(y, env))))
    ensures var t := BoolNot(x);
            (Good(t, scope) <==> Good(x, scope) && SortOf(x) == Bool) && SortOf(t) == Bool &&
              Eval(t, env) == VBool(!T(Eval(x, env)))
    ensures ModsAgree(BoolBinop(op, x, y), env) <==> ModsAgree(x, env) && ModsAgree(y, env)
    ensures ModsAgree(BoolNot(x), env) == ModsAgree(x, env)
  {
    hide A, B, T, Fit, SameArray, UnopBits, BinopBits, CompareBits, Connect, Slice, SignExt, ToBits, EvalStore,
      FloatName, GoodConst;
    hide ModsAgree, ModOk;
    AgreeTwo(x, y, env, Eq, op);
    AgreeOne(x, env, 0, 0, Not);
  }

  lemma OfApply(f: SymFunction, args: seq<Term>, env: Env, scope: Scope)
    ensures var t := Apply(f, args);
            && (Good(t, scope) <==>
                && f.ret > 0 && |args| == |f.args| && (FloatName(f.name) ==> scope.floats)
                && (f.name in ADDS || f.name in SUBS ==> f.args == [f.ret, f.ret])
                && forall i :: 0 <= i < |args| ==>
                     Good(args[i], scope) && IsBits(args[i]) && Width(args[i]) == f.args[i])
            && SortOf(t) == BitsOf(f.ret)
            && Eval(t, env) == VBits(Fit(env.fn(f, Values(args, env)), f.ret))
    ensures ModsAgree(Apply(f, args), env) <==> forall i :: 0 <= i < |args| ==> ModsAgree(args[i], env)
  {
    hide A, B, T, Fit, SameArray, UnopBits, BinopBits, CompareBits, Connect, Slice, SignExt, ToBits, EvalStore,
      FloatName, GoodConst;
    hide ModsAgree, ModOk;
    AgreeApply(f, args, env);
  }

  lemma OfBoolConst(b: bool, env: Env, scope: Scope)
    ensures Good(BoolConst(b), scope) && SortOf(BoolConst(b)) == Bool && Eval(BoolConst(b), env) == VBool(b)
    ensures ModsAgree(BoolConst(b), env)
  {
    hide A, B, T, Fit, SameArray, UnopBits, BinopBits, CompareBits, Connect, Slice, SignExt, ToBits, EvalStore,
      FloatName, GoodConst;
    hide ModsAgree, ModOk;
    AgreeLeaf(BoolConst(b), env);
  }

  /** A well-typed bit-vector term has a value of its width. */
  lemma {:induction false} EvalSort(t: Term, env: Env, scope: Scope)
    requires Good(t, scope) && IsBits(t)
    ensures Eval(t, env).VBits? && |Eval(t, env).bits| == Width(t)
  {
    hide Good, SortOf, Eval, ToBits, FromBits, Fit;
    match t
    case Unop(op, x) =>
      OfUnop(op, x, env, scope);
      EvalSort(x, env, scope);
    case Binop(op, x, y) =>
      OfBinop(op, x, y, env, scope);
      EvalSort(x, env, scope);
      EvalSort(y, env, scope);
    case Ite(c, x, y) =>
      OfIte(c, x, y, env, scope);
      EvalSort(x, env, scope);
      EvalSort(y, env, scope);
    case _ => EvalSortOther(t, env, scope);
  }

  lemma EvalSortOther(t: Term, env: Env, scope: Scope)
    requires Good(t, scope) && IsBits(t) && !t.Unop? && !t.Binop? && !t.Ite?
    ensures Eval(t, env).VBits? && |Eval(t, env).bits| == Width(t)
  {
  }
}
