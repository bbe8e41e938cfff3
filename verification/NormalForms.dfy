/** What a simplified term looks like, said of the term alone (src/symstate/simplify.cc: every shape that
    one of the passes replaces). */
module NormalForms {
  import opened Terms

  predicate IsNothing(t: Term) { t.Const? && t.value == 0 }

  /** No bits are taken from a whole operand, a constant, another extract, or an operator that the
      extract could be moved into. */
  predicate NormalExtract(x: Term, high: nat, low: nat) {
    && Width(x) != Width(Extract(x, high, low))
    && !x.Const? && !x.Extract? && !x.Ite?
    && !(x.Unop? && x.unop == Not)
    && !(x.Binop? && (x.op == And || x.op == Or || x.op == Xor || x.op == Concat))
    && !(x.SignExtend? && high < Width(x.bv))
  }

  /** Nothing can be computed, no operand is neutral or repeated, no constants are behind a conditional,
      and no adjacent extracts of one term are put together. */
  predicate NormalBinop(op: BvOp, x: Term, y: Term) {
    && !(x.Const? && y.Const? && Width(Binop(op, x, y)) <= 64 &&
         (op == And || op == Concat || op == Minus || op == Mod || op == Mult || op == Or || op == Plus || op == Xor))
    && !(op == Plus && (IsNothing(x) || IsNothing(y))) && !(op == Minus && IsNothing(y))
    && !((op == Xor || op == Or || op == And) && x == y)
    && !(x.Ite? && x.a.Const? && y.Const?) && !(y.Ite? && y.a.Const? && x.Const?)
    && !(op == Concat && x.Extract? && y.Extract? && x.bv == y.bv && x.low == y.high + 1)
  }

  /** No floating-point sum or difference with zero, no product of zeros, no square root or conversion of
      zero. */
  predicate NormalApply(f: SymFunction, args: seq<Term>) {
    && (|f.args| == 2 && |args| == 2 ==>
          && !((f.name == "sub_single" || f.name == "sub_double") && IsNothing(args[1]))
          && !((f.name == "add_single" || f.name == "add_double") && (IsNothing(args[0]) || IsNothing(args[1])))
          && !((f.name == "mul_single" || f.name == "mul_double") && IsNothing(args[0]) && IsNothing(args[1])))
    && (|f.args| == 1 && |args| == 1 && IsNothing(args[0]) ==>
          && f.name != "sqrt_double" && f.name != "sqrt_single"
          && f.name != "cvt_int32_to_double" && f.name != "cvt_int32_to_single"
          && f.name != "cvt_double_to_int32" && f.name != "cvt_double_to_single"
          && f.name != "cvt_single_to_int32" && f.name != "cvt_single_to_double"
          && f.name != "cvt_double_to_int64" && f.name != "cvt_int64_to_double"
          && f.name != "cvt_int64_to_single" && f.name != "cvt_single_to_int64"
          && f.name != "cvt_double_to_int32_truncate" && f.name != "cvt_single_to_int32_truncate"
          && f.name != "cvt_double_to_int64_truncate" && f.name != "cvt_single_to_int64_truncate")
  }

  predicate NormalNode(t: Term) {
    match t
    case Extract(x, high, low) => NormalExtract(x, high, low)
    case SignExtend(x, n) => !(x.Const? && n <= 64)
    case Unop(_, x) => !(x.Const? && Width(x) <= 64)
    case Binop(op, x, y) => NormalBinop(op, x, y)
    case Ite(c, x, y) => !c.BoolConst? && x != y
    case Apply(f, args) => NormalApply(f, args)
    case BoolNot(x) => !x.BoolConst?
    case Compare(_, x, y) => !(x.Const? && y.Const?)
    case BoolBinop(_, x, y) => !(x.BoolConst? && y.BoolConst?)
    case _ => true
  }

  /** So it is throughout the term. */
  predicate Normal(t: Term) {
    && NormalNode(t)
    && match t
       case Extract(x, _, _) => Normal(x)
       case SignExtend(x, _) => Normal(x)
       case Unop(_, x) => Normal(x)
       case Binop(_, x, y) => Normal(x) && Normal(y)
       case Ite(c, x, y) => Normal(c) && Normal(x) && Normal(y)
       case Lookup(x, k) => Normal(x) && Normal(k)
       case Apply(_, args) => forall i :: 0 <= i < |args| ==> Normal(args[i])
       case BoolNot(x) => Normal(x)
       case Compare(_, x, y) => Normal(x) && Normal(y)
       case BoolBinop(_, x, y) => Normal(x) && Normal(y)
       case ArrayEq(x, y) => Normal(x) && Normal(y)
       case Store(x, k, v) => Normal(x) && Normal(k) && Normal(v)
       case _ => true
  }
}
