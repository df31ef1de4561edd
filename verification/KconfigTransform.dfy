/** expr_transform: De Morgan normalisation and removal of boolean comparisons
    (nemu/tools/kconfig/expr.c:694-849). */
module KconfigTransform {
  import opened KconfigExpr

  /** Doubling under NOT makes pushing a NOT through && or || strictly cheaper. A comparison
      weighs as much as the negated symbol it may turn into. */
  function Weight(e: Expr): nat
    ensures Weight(e) >= 1
  {
    match e
    case Sym(_) => 1
    case Cmp(_, _, _) => 2
    case Not(a) => 2 * Weight(a)
    case And(l, r) => Weight(l) + Weight(r) + 1
    case Or(l, r) => Weight(l) + Weight(r) + 1
  }

  /** A comparison that the boolean rules would rewrite. */
  predicate BooleanTest(op: CmpOp, a: Symbol, b: Symbol) {
    TypeOf(a) == Boolean && (op == Equal || op == Unequal) && IsTriConst(b)
  }

  function TransformCmp(op: CmpOp, a: Symbol, b: Symbol): Expr {
    if !BooleanTest(op, a, b) then Cmp(op, a, b)
    else if op == Equal then
      if b == NO then Not(Sym(a)) else if b == MOD then Sym(NO) else Sym(a)
    else
      if b == NO then Sym(a) else if b == MOD then Sym(YES) else Not(Sym(a))
  }

  function Negated(op: CmpOp): CmpOp {
    match op
    case Equal => Unequal
    case Unequal => Equal
    case Leq => Gth
    case Geq => Lth
    case Lth => Geq
    case Gth => Leq
  }

  /** Pushing NOT through a junction is paid for by the doubling. */
  lemma PushingIsCheaper(l: Expr, r: Expr)
    ensures Weight(And(Not(l), Not(r))) < Weight(Not(Or(l, r)))
    ensures Weight(Or(Not(l), Not(r))) < Weight(Not(And(l, r)))
  {
    assert Weight(Not(l)) == 2 * Weight(l) && Weight(Not(r)) == 2 * Weight(r);
    assert Weight(Or(l, r)) == Weight(And(l, r)) == Weight(l) + Weight(r) + 1;
  }

  function Transform(e: Expr): (r: Expr)
    ensures Weight(r) <= Weight(e)
    decreases Weight(e)
  {
    match e
    case Sym(_) => e
    case Cmp(op, a, b) => TransformCmp(op, a, b)
    case And(l, r) => And(Transform(l), Transform(r))
    case Or(l, r) => Or(Transform(l), Transform(r))
    case Not(a) =>
      var c := Transform(a);
      match c
      case Not(x) => Transform(x)
      case Cmp(op, s, t) => Cmp(Negated(op), s, t)
      case Or(l, r) => PushingIsCheaper(l, r); Transform(And(Not(l), Not(r)))
      case And(l, r) => PushingIsCheaper(l, r); Transform(Or(Not(l), Not(r)))
      case Sym(s) =>
        if s == YES then Sym(NO) else if s == MOD then Sym(MOD)
        else if s == NO then Sym(YES) else Not(c)
  }

  /** Fully transformed: NOT stands only above symbols other than y, m and n, and no boolean
      symbol is compared for (in)equality with y, m or n. */
  predicate Normal(e: Expr) {
    match e
    case Sym(_) => true
    case Cmp(op, a, b) => TypeOf(a) == Boolean && b in {YES, MOD, NO} ==> op != Equal && op != Unequal
    case Not(a) => a.Sym? && a.sym !in {YES, MOD, NO}
    case And(l, r) => Normal(l) && Normal(r)
    case Or(l, r) => Normal(l) && Normal(r)
  }

  lemma {:induction false} TransformCmpPreservesValue(op: CmpOp, a: Symbol, b: Symbol, env: Env)
    ensures Value(TransformCmp(op, a, b), env) == Value(Cmp(op, a, b), env)
  {
    if BooleanTest(op, a, b) {
      ComparesExactly(a, if b == NO then TRI_NO else if b == MOD then TRI_MOD else TRI_YES, env);
    }
  }

  lemma {:induction false} TransformPreservesValue(e: Expr, env: Env)
    ensures Value(Transform(e), env) == Value(e, env)
    decreases Weight(e)
  {
    match e
    case Sym(_) =>
    case Cmp(op, a, b) => TransformCmpPreservesValue(op, a, b, env);
    case And(l, r) => TransformPreservesValue(l, env); TransformPreservesValue(r, env);
    case Or(l, r) => TransformPreservesValue(l, env); TransformPreservesValue(r, env);
    case Not(a) =>
      TransformPreservesValue(a, env);
      var t := Transform(a);
      if t.Not? { TransformPreservesValue(t.arg, env); }
      if t.Or? { PushingIsCheaper(t.left, t.right); TransformPreservesValue(And(Not(t.left), Not(t.right)), env); }
      if t.And? { PushingIsCheaper(t.left, t.right); TransformPreservesValue(Or(Not(t.left), Not(t.right)), env); }
      if t.Or? || t.And? { TransformNotNode(a, env); } else { TransformNotLeaf(a, env); }
  }

  /** NOT above a junction, given the recursive calls. */
  lemma TransformNotNode(a: Expr, env: Env)
    requires var t := Transform(a);
             && (t.Or? || t.And?) && Value(t, env) == Value(a, env)
             && (t.Or? ==>
                   Value(Transform(And(Not(t.left), Not(t.right))), env) == Value(And(Not(t.left), Not(t.right)), env))
             && (t.And? ==>
                   Value(Transform(Or(Not(t.left), Not(t.right))), env) == Value(Or(Not(t.left), Not(t.right)), env))
    ensures Value(Transform(Not(a)), env) == Value(Not(a), env)
  {}

  /** NOT above anything else. */
  lemma TransformNotLeaf(a: Expr, env: Env)
    requires var t := Transform(a);
             && !t.Or? && !t.And? && Value(t, env) == Value(a, env)
             && (t.Not? ==> Value(Transform(t.arg), env) == Value(t.arg, env))
    ensures Value(Transform(Not(a)), env) == Value(Not(a), env)
  {}

  lemma {:induction false} TransformIsNormal(e: Expr)
    ensures Normal(Transform(e))
    decreases Weight(e)
  {
    match e
    case Sym(_) =>
    case Cmp(op, a, b) =>
    case And(l, r) => TransformIsNormal(l); TransformIsNormal(r);
    case Or(l, r) => TransformIsNormal(l); TransformIsNormal(r);
    case Not(a) =>
      TransformIsNormal(a);
      match Transform(a)
      case Not(x) => TransformIsNormal(x);
      case Cmp(op, s, t) =>
      case Or(l, r) => PushingIsCheaper(l, r); TransformIsNormal(And(Not(l), Not(r)));
      case And(l, r) => PushingIsCheaper(l, r); TransformIsNormal(Or(Not(l), Not(r)));
      case Sym(s) =>
  }

  /** The rules for booleans, one by one. */
  lemma BooleanRules(a: Symbol)
    requires TypeOf(a) == Boolean
    ensures Transform(Cmp(Equal, a, YES)) == Transform(Cmp(Unequal, a, NO)) == Sym(a)
    ensures Transform(Cmp(Equal, a, NO)) == Transform(Cmp(Unequal, a, YES)) == Not(Sym(a))
    ensures Transform(Cmp(Equal, a, MOD)) == Sym(NO) && Transform(Cmp(Unequal, a, MOD)) == Sym(YES)
  {
    assert YES.name[0] != MOD.name[0] && YES.name[0] != NO.name[0] && MOD.name[0] != NO.name[0];
  }

  lemma {:induction false} NormalIsFixed(e: Expr)
    requires Normal(e)
    ensures Transform(e) == e
  {
    match e
    case Sym(_) =>
    case Cmp(op, a, b) =>
    case Not(a) =>
    case And(l, r) => NormalIsFixed(l); NormalIsFixed(r);
    case Or(l, r) => NormalIsFixed(l); NormalIsFixed(r);
  }

  /** The normal forms are exactly the fixed points, so transforming twice changes nothing more. */
  lemma TransformFixedPoints(e: Expr)
    ensures Transform(e) == e <==> Normal(e)
    ensures Transform(Transform(e)) == Transform(e)
  {
    TransformIsNormal(e);
    NormalIsFixed(Transform(e));
    if Normal(e) { NormalIsFixed(e); }
  }
}
