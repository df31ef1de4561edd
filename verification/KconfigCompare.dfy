/** Inserting and removing explicit comparisons: expr_trans_compare, expr_trans_bool, rewrite_m
    (nemu/tools/kconfig/expr.c:399-426 and 907-985, nemu/tools/kconfig/menu.c:80-110). */
module KconfigCompare {
  import opened Options
  import opened KconfigExpr
  import opened KconfigTransform
  import opened KconfigDups

  // ----- expr_trans_compare -----

  /** The comparison with y or n is equality when `eq`, else inequality. */
  function TestOp(eq: bool): CmpOp {
    if eq then Equal else Unequal
  }

  function NotIf(b: bool, e: Expr): Expr {
    if b then Not(e) else e
  }

  /** Compare with the constant y, m or n given as a tristate. */
  function TransCompare(e: Expr, eq: bool, c: Tristate): Expr {
    match e
    case And(l, r) =>
      var e1, e2 := TransCompare(l, true, c), TransCompare(r, true, c);
      NotIf(!eq, if c == TRI_YES then And(e1, e2) else if c == TRI_NO then Or(e1, e2) else e)
    case Or(l, r) =>
      var e1, e2 := TransCompare(l, true, c), TransCompare(r, true, c);
      NotIf(!eq, if c == TRI_YES then Or(e1, e2) else if c == TRI_NO then And(e1, e2) else e)
    case Not(a) => TransCompare(a, !eq, c)
    case Cmp(_, _, _) =>
      if c == TRI_MOD then Sym(if eq then NO else YES)
      else NotIf(eq != (c == TRI_YES), e)
    case Sym(s) => Cmp(TestOp(eq), s, TriConst(c))
  }

  function TransCompareOpt(e: Option<Expr>, eq: bool, c: Tristate): Expr {
    if e.None? then NotIf(!eq, Sym(TriConst(c))) else TransCompare(e.value, eq, c)
  }

  /** What the inserted comparisons really compute: each symbol is first collapsed to a truth
      value -- "is y" when comparing with y, "is not n" when comparing with n -- and the operators
      then act on truth values. */
  predicate Collapsed(e: Expr, c: Tristate, env: Env) {
    match e
    case Sym(s) => (CompareSymbols(s, TriConst(c), env) == 0) == (c == TRI_YES)
    case Not(a) => !Collapsed(a, c, env)
    case And(l, r) => Collapsed(l, c, env) && Collapsed(r, c, env)
    case Or(l, r) => Collapsed(l, c, env) || Collapsed(r, c, env)
    case Cmp(op, a, b) => Holds(op, CompareSymbols(a, b, env))
  }

  predicate CollapsedOpt(e: Option<Expr>, c: Tristate, env: Env) {
    e.None? || Collapsed(e.value, c, env)
  }

  /** Exactly what expr_trans_compare computes, for every expression and environment. */
  lemma {:induction false} TransCompareExact(e: Expr, eq: bool, c: Tristate, env: Env)
    requires c != TRI_MOD
    ensures Value(TransCompare(e, eq, c), env) == Truth(Collapsed(e, c, env) == (eq == (c == TRI_YES)))
  {
    match e
    case And(l, r) => TransCompareExact(l, true, c, env); TransCompareExact(r, true, c, env);
    case Or(l, r) => TransCompareExact(l, true, c, env); TransCompareExact(r, true, c, env);
    case Not(a) => TransCompareExact(a, !eq, c, env);
    case Cmp(_, _, _) =>
    case Sym(s) =>
  }

  lemma TransCompareOptExact(e: Option<Expr>, eq: bool, c: Tristate, env: Env)
    requires c != TRI_MOD
    ensures Value(TransCompareOpt(e, eq, c), env) == Truth(CollapsedOpt(e, c, env) == (eq == (c == TRI_YES)))
  {
    if e.Some? { TransCompareExact(e.value, eq, c, env); }
  }

  /** Every symbol used as a truth value is boolean, tristate or one of y, m, n. */
  predicate LogicalLeaves(e: Expr) {
    match e
    case Sym(s) => Logical(s) || IsTriConst(s)
    case Not(a) => LogicalLeaves(a)
    case And(l, r) => LogicalLeaves(l) && LogicalLeaves(r)
    case Or(l, r) => LogicalLeaves(l) && LogicalLeaves(r)
    case Cmp(_, _, _) => true
  }

  /** No symbol of the expression has value mod. */
  predicate TwoValued(e: Expr, env: Env) {
    match e
    case Sym(s) => TriOf(s, env) != TRI_MOD
    case Not(a) => TwoValued(a, env)
    case And(l, r) => TwoValued(l, env) && TwoValued(r, env)
    case Or(l, r) => TwoValued(l, env) && TwoValued(r, env)
    case Cmp(_, _, _) => true
  }

  /** Below every NOT all symbols are two-valued. */
  predicate NotsTwoValued(e: Expr, env: Env) {
    match e
    case Not(a) => TwoValued(a, env)
    case And(l, r) => NotsTwoValued(l, env) && NotsTwoValued(r, env)
    case Or(l, r) => NotsTwoValued(l, env) && NotsTwoValued(r, env)
    case _ => true
  }

  predicate Satisfies(v: Tristate, c: Tristate) {
    if c == TRI_YES then v == TRI_YES else v != TRI_NO
  }

  lemma LeafCollapses(s: Symbol, c: Tristate, env: Env)
    requires c != TRI_MOD && (Logical(s) || IsTriConst(s))
    ensures Collapsed(Sym(s), c, env) <==> Satisfies(TriOf(s, env), c)
  {
    if Logical(s) {
      ComparesExactly(s, c, env);
    } else {
      TriTextIsNoNumber(TRI_NO);
      TriTextIsNoNumber(TRI_MOD);
      TriTextIsNoNumber(TRI_YES);
      StrCmpZero(s.name, TriConst(c).name);
      assert TextOf(s, env) == s.name && TextOf(TriConst(c), env) == TriConst(c).name;
    }
  }

  lemma {:induction false} TwoValuedCollapse(e: Expr, c: Tristate, env: Env)
    requires c != TRI_MOD && LogicalLeaves(e) && TwoValued(e, env)
    ensures Value(e, env) != TRI_MOD
    ensures Collapsed(e, c, env) <==> Satisfies(Value(e, env), c)
  {
    match e
    case Sym(s) => LeafCollapses(s, c, env);
    case Not(a) => TwoValuedCollapse(a, c, env);
    case And(l, r) => TwoValuedCollapse(l, c, env); TwoValuedCollapse(r, c, env);
    case Or(l, r) => TwoValuedCollapse(l, c, env); TwoValuedCollapse(r, c, env);
    case Cmp(_, _, _) =>
  }

  lemma {:induction false} CollapseIsFaithful(e: Expr, c: Tristate, env: Env)
    requires c != TRI_MOD && LogicalLeaves(e) && NotsTwoValued(e, env)
    ensures Collapsed(e, c, env) <==> Satisfies(Value(e, env), c)
  {
    match e
    case Sym(s) => LeafCollapses(s, c, env);
    case Not(a) => TwoValuedCollapse(a, c, env);
    case And(l, r) => CollapseIsFaithful(l, c, env); CollapseIsFaithful(r, c, env);
    case Or(l, r) => CollapseIsFaithful(l, c, env); CollapseIsFaithful(r, c, env);
    case Cmp(_, _, _) =>
  }

  /** With NOT above symbols only, "is not n" is never claimed wrongly, whatever is mod. */
  lemma {:induction false} CollapseNeverOverstates(e: Expr, env: Env)
    requires LogicalLeaves(e) && NotsOverSymbols(e) && Collapsed(e, TRI_NO, env)
    ensures Value(e, env) != TRI_NO
  {
    match e
    case Sym(s) => LeafCollapses(s, TRI_NO, env);
    case Not(a) => LeafCollapses(a.sym, TRI_NO, env);
    case And(l, r) => CollapseNeverOverstates(l, env); CollapseNeverOverstates(r, env);
    case Or(l, r) =>
      if Collapsed(l, TRI_NO, env) { CollapseNeverOverstates(l, env); } else { CollapseNeverOverstates(r, env); }
    case Cmp(_, _, _) =>
  }

  /** Where no symbol below a NOT is mod, the inserted comparison evaluates to yes exactly when the
      original value satisfies it. */
  lemma TransCompareMeaning(e: Expr, eq: bool, c: Tristate, env: Env)
    requires c != TRI_MOD && LogicalLeaves(e) && NotsTwoValued(e, env)
    ensures Value(TransCompare(e, eq, c), env) == Truth((Value(e, env) == c) == eq)
  {
    CollapseIsFaithful(e, c, env);
    TransCompareExact(e, eq, c, env);
  }

  /** Below a NOT the comparison is right in every environment exactly for symbols that cannot
      be mod: !A != n is rewritten to A = n, which a mod A fails. */
  lemma NegatedCompareExact(s: Symbol, c: Tristate)
    requires c != TRI_MOD && Logical(s)
    ensures (forall env: Env :: Value(TransCompare(Not(Sym(s)), true, c), env)
                                == Truth(Value(Not(Sym(s)), env) == c))
            <==> TypeOf(s) == Boolean
  {
    if TypeOf(s) == Boolean {
      forall env: Env ensures Value(TransCompare(Not(Sym(s)), true, c), env) == Truth(Value(Not(Sym(s)), env) == c) {
        TransCompareMeaning(Not(Sym(s)), true, c, env);
      }
    } else {
      var env: Env := map[s := Setting(TRI_MOD, "")];
      TransCompareExact(Not(Sym(s)), true, c, env);
      LeafCollapses(s, c, env);
      assert Value(TransCompare(Not(Sym(s)), true, c), env) != Truth(Value(Not(Sym(s)), env) == c);
    }
  }

  // ----- expressions on which comparing is right everywhere -----

  /** Every symbol used as a truth value is boolean. */
  predicate BooleanOnly(e: Expr) {
    match e
    case Sym(s) => TypeOf(s) == Boolean
    case Not(a) => BooleanOnly(a)
    case And(l, r) => BooleanOnly(l) && BooleanOnly(r)
    case Or(l, r) => BooleanOnly(l) && BooleanOnly(r)
    case Cmp(_, _, _) => true
  }

  /** No NOT, and every symbol used as a truth value is boolean or tristate. */
  predicate NotFree(e: Expr) {
    match e
    case Sym(s) => Logical(s)
    case Not(_) => false
    case And(l, r) => NotFree(l) && NotFree(r)
    case Or(l, r) => NotFree(l) && NotFree(r)
    case Cmp(_, _, _) => true
  }

  lemma {:induction false} BooleanIsTwoValued(e: Expr, env: Env)
    requires BooleanOnly(e)
    ensures LogicalLeaves(e) && TwoValued(e, env) && NotsTwoValued(e, env)
  {
    match e
    case Not(a) => BooleanIsTwoValued(a, env);
    case And(l, r) => BooleanIsTwoValued(l, env); BooleanIsTwoValued(r, env);
    case Or(l, r) => BooleanIsTwoValued(l, env); BooleanIsTwoValued(r, env);
    case _ =>
  }

  lemma {:induction false} NotFreeIsTwoValued(e: Expr, env: Env)
    requires NotFree(e)
    ensures LogicalLeaves(e) && NotsTwoValued(e, env)
  {
    match e
    case And(l, r) => NotFreeIsTwoValued(l, env); NotFreeIsTwoValued(r, env);
    case Or(l, r) => NotFreeIsTwoValued(l, env); NotFreeIsTwoValued(r, env);
    case _ =>
  }

  /** On expressions of booleans, and on expressions without NOT, a comparison with y or n is pushed
      to the symbols without loss in every environment. */
  lemma ComparingIsRight(e: Expr, eq: bool, c: Tristate, env: Env)
    requires c != TRI_MOD && (BooleanOnly(e) || NotFree(e))
    ensures Value(TransCompare(e, eq, c), env) == Truth((Value(e, env) == c) == eq)
  {
    if BooleanOnly(e) { BooleanIsTwoValued(e, env); } else { NotFreeIsTwoValued(e, env); }
    TransCompareMeaning(e, eq, c, env);
  }

  /** The transformations that the documentation gives as examples, tree by tree. */
  lemma DocumentedComparisons(a: Symbol, b: Symbol, c: Symbol)
    ensures var x, y, z := Sym(a), Sym(b), Sym(c);
            var xn, yn, zn := Cmp(Equal, a, NO), Cmp(Equal, b, NO), Cmp(Equal, c, NO);
            && TransCompare(x, false, TRI_NO) == Cmp(Unequal, a, NO)
            && TransCompare(Not(x), false, TRI_NO) == xn
            && TransCompare(And(x, y), false, TRI_NO) == Not(Or(xn, yn))
            && TransCompare(Or(x, y), false, TRI_NO) == Not(And(xn, yn))
            && TransCompare(And(x, Or(y, z)), false, TRI_NO) == Not(Or(xn, And(yn, zn)))
  {
    assert TransCompare(Or(Sym(b), Sym(c)), true, TRI_NO) == And(Cmp(Equal, b, NO), Cmp(Equal, c, NO));
  }

  /** With m: right for symbols and comparisons; && and || are not compared at all. */
  lemma ComparingWithMod(e: Expr, eq: bool, env: Env)
    ensures e.Cmp? || (e.Sym? && Logical(e.sym)) ==>
              Value(TransCompare(e, eq, TRI_MOD), env) == Truth((Value(e, env) == TRI_MOD) == eq)
    ensures e.And? || e.Or? ==>
              Value(TransCompare(e, eq, TRI_MOD), env) == if eq then Value(e, env) else TRI_YES - Value(e, env)
    ensures e.Not? ==> TransCompare(e, eq, TRI_MOD) == TransCompare(e.arg, !eq, TRI_MOD)
  {
    if e.Sym? && Logical(e.sym) { ComparesExactly(e.sym, TRI_MOD, env); }
  }

  // ----- expr_trans_bool -----

  function TransBool(e: Expr): Expr {
    match e
    case And(l, r) => And(TransBool(l), TransBool(r))
    case Or(l, r) => Or(TransBool(l), TransBool(r))
    case Not(a) => Not(TransBool(a))
    case Cmp(op, a, b) => if IsNotNoTest(op, a, b) then Sym(a) else e
    case Sym(_) => e
  }

  /** The comparison that the rule replaces by its symbol. */
  predicate IsNotNoTest(op: CmpOp, a: Symbol, b: Symbol) { op == Unequal && TypeOf(a) == Tri && b == NO }

  predicate TestFree(e: Expr) {
    match e
    case And(l, r) => TestFree(l) && TestFree(r)
    case Or(l, r) => TestFree(l) && TestFree(r)
    case Not(a) => TestFree(a)
    case Cmp(op, a, b) => op == Unequal && TypeOf(a) == Tri ==> b != NO
    case Sym(_) => true
  }

  /** No such comparison stands below a NOT. */
  predicate NotsTestFree(e: Expr) {
    match e
    case And(l, r) => NotsTestFree(l) && NotsTestFree(r)
    case Or(l, r) => NotsTestFree(l) && NotsTestFree(r)
    case Not(a) => TestFree(a)
    case _ => true
  }

  lemma {:induction false} TestFreeIsKept(e: Expr)
    requires TestFree(e)
    ensures TransBool(e) == e
  {
    match e
    case And(l, r) => TestFreeIsKept(l); TestFreeIsKept(r);
    case Or(l, r) => TestFreeIsKept(l); TestFreeIsKept(r);
    case Not(a) => TestFreeIsKept(a);
    case _ =>
  }

  /** No such comparison is left anywhere, and expressions without one are left alone. */
  lemma {:induction false} TransBoolIsTestFree(e: Expr)
    ensures TestFree(TransBool(e))
    ensures TestFree(e) ==> TransBool(e) == e
  {
    match e
    case And(l, r) => TransBoolIsTestFree(l); TransBoolIsTestFree(r);
    case Or(l, r) => TransBoolIsTestFree(l); TransBoolIsTestFree(r);
    case Not(a) => TransBoolIsTestFree(a);
    case _ =>
  }

  lemma {:induction false} TransBoolKeepsNo(e: Expr, env: Env)
    requires NotsTestFree(e)
    ensures Value(TransBool(e), env) == TRI_NO <==> Value(e, env) == TRI_NO
    ensures Value(TransBool(e), env) <= Value(e, env)
  {
    match e
    case And(l, r) => TransBoolKeepsNo(l, env); TransBoolKeepsNo(r, env);
    case Or(l, r) => TransBoolKeepsNo(l, env); TransBoolKeepsNo(r, env);
    case Not(a) => TestFreeIsKept(a);
    case Cmp(op, a, b) => if IsNotNoTest(op, a, b) { ComparesExactly(a, TRI_NO, env); }
    case _ =>
  }

  /** Directly below a NOT the rule keeps "is n" in every environment exactly for the comparisons that it
      does not replace: !(A!=n) is n for a mod A, and !A is not. */
  lemma TransBoolBelowNot(op: CmpOp, a: Symbol, b: Symbol)
    ensures var e := Not(Cmp(op, a, b));
            (forall env: Env :: Value(TransBool(e), env) == TRI_NO <==> Value(e, env) == TRI_NO)
            <==> !(op == Unequal && TypeOf(a) == Tri && b == NO)
  {
    if IsNotNoTest(op, a, b) {
      var env: Env := map[a := Setting(TRI_MOD, "")];
      ComparesExactly(a, TRI_NO, env);
      var cmp := Cmp(op, a, b);
      assert TriOf(a, env) == TRI_MOD;
      assert Value(cmp, env) == TRI_YES;
      assert Value(Not(cmp), env) == TRI_NO;
      assert TransBool(cmp) == Sym(a) && TransBool(Not(cmp)) == Not(Sym(a));
      assert Value(Sym(a), env) == TRI_MOD;
      assert Value(Not(Sym(a)), env) == TRI_MOD;
    } else {
      assert TransBool(Cmp(op, a, b)) == Cmp(op, a, b);
      assert TransBool(Not(Cmp(op, a, b))) == Not(Cmp(op, a, b));
    }
  }

  /** After expr_transform no comparison stands below a NOT. */
  lemma {:induction false} NotsOverSymbolsAreTestFree(e: Expr)
    requires NotsOverSymbols(e)
    ensures NotsTestFree(e)
  {
    match e
    case And(l, r) => NotsOverSymbolsAreTestFree(l); NotsOverSymbolsAreTestFree(r);
    case Or(l, r) => NotsOverSymbolsAreTestFree(l); NotsOverSymbolsAreTestFree(r);
    case _ =>
  }

  lemma {:induction false} NormalNotsOverSymbols(e: Expr)
    requires Normal(e)
    ensures NotsOverSymbols(e)
  {
    match e
    case And(l, r) => NormalNotsOverSymbols(l); NormalNotsOverSymbols(r);
    case Or(l, r) => NormalNotsOverSymbols(l); NormalNotsOverSymbols(r);
    case _ =>
  }

  // ----- rewrite_m -----

  function RewriteM(e: Expr, modules: Symbol): Expr {
    match e
    case Not(a) => Not(RewriteM(a, modules))
    case And(l, r) => And(RewriteM(l, modules), RewriteM(r, modules))
    case Or(l, r) => Or(RewriteM(l, modules), RewriteM(r, modules))
    case Sym(s) => if s == MOD then And(e, Sym(modules)) else e
    case Cmp(_, _, _) => e
  }

  /** Every literal m replaced by n. */
  function WithoutM(e: Expr): Expr {
    match e
    case Not(a) => Not(WithoutM(a))
    case And(l, r) => And(WithoutM(l), WithoutM(r))
    case Or(l, r) => Or(WithoutM(l), WithoutM(r))
    case Sym(s) => if s == MOD then Sym(NO) else e
    case Cmp(_, _, _) => e
  }

  /** Running without modules, m counts as n; otherwise nothing changes. */
  lemma {:induction false} RewriteMMeaning(e: Expr, modules: Symbol, env: Env)
    ensures Value(RewriteM(e, modules), env)
         == Value(if TriOf(modules, env) == TRI_NO then WithoutM(e) else e, env)
  {
    match e
    case Not(a) => RewriteMMeaning(a, modules, env);
    case And(l, r) => RewriteMMeaning(l, modules, env); RewriteMMeaning(r, modules, env);
    case Or(l, r) => RewriteMMeaning(l, modules, env); RewriteMMeaning(r, modules, env);
    case _ =>
  }
}
