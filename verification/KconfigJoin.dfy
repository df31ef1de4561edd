/** Joining two operands of one level into a single simpler one
    (expr_join_or and expr_join_and, nemu/tools/kconfig/expr.c:428-582). */
module KconfigJoin {
  import opened Options
  import opened Strtol
  import opened KconfigExpr
  import opened KconfigEq

  predicate IsEquality(e: Expr) {
    e.Cmp? && (e.op == Equal || e.op == Unequal)
  }

  /** The symbol the first operand speaks about, if it has one of the joinable forms. */
  function FirstSymbol(e: Expr): Option<Symbol> {
    match e
    case Sym(s) => Some(s)
    case Cmp(_, a, _) => if IsEquality(e) then Some(a) else None
    case Not(x) => if x.Sym? then Some(x.sym) else if IsEquality(x) then Some(x.lsym) else None
    case _ => None
  }

  /** The same for the second operand, where NOT may stand only above a symbol. */
  function SecondSymbol(e: Expr): Option<Symbol> {
    if e.Not? && !e.arg.Sym? then None else FirstSymbol(e)
  }

  predicate IsTest(e: Expr, op: CmpOp, c: Symbol) {
    e.Cmp? && e.op == op && e.rsym == c
  }

  /** One operand passes each test, in either order. */
  predicate Tests(e1: Expr, e2: Expr, op: CmpOp, c: Symbol, d: Symbol) {
    (IsTest(e1, op, c) && IsTest(e2, op, d)) || (IsTest(e1, op, d) && IsTest(e2, op, c))
  }

  /** A symbol beside a test, in either order. */
  predicate SymbolAndTest(e1: Expr, e2: Expr, op: CmpOp, c: Symbol) {
    (e1.Sym? && IsTest(e2, op, c)) || (e2.Sym? && IsTest(e1, op, c))
  }

  predicate Complements(e1: Expr, e2: Expr) {
    (e1.Not? && e1.arg.Sym? && e2.Sym?) || (e2.Not? && e2.arg.Sym? && e1.Sym?)
  }

  /** The symbol both operands speak about, when a rule may apply to it. */
  function SharedSymbol(e1: Expr, e2: Expr): Option<Symbol> {
    var s1, s2 := FirstSymbol(e1), SecondSymbol(e2);
    if s1.Some? && s1 == s2 && Logical(s1.value) then s1 else None
  }

  function JoinOr(e1: Expr, e2: Expr): Option<Expr> {
    if Eq(e1, e2) then Some(e1)
    else if SharedSymbol(e1, e2).None? then None
    else
      var s := SharedSymbol(e1, e2).value;
      if TypeOf(s) == Tri then
        if Tests(e1, e2, Equal, YES, MOD) then Some(Cmp(Unequal, s, NO))
        else if Tests(e1, e2, Equal, YES, NO) then Some(Cmp(Unequal, s, MOD))
        else if Tests(e1, e2, Equal, MOD, NO) then Some(Cmp(Unequal, s, YES))
        else None
      else if Complements(e1, e2) then Some(Sym(YES))
      else None
  }

  /** (a='b') && (a!='c') with two constants, in either order: the pair (b, c). */
  function ConstantPair(e1: Expr, e2: Expr): Option<(Symbol, Symbol)> {
    if e1.Cmp? && e2.Cmp? && e1.op == Equal && e2.op == Unequal && e1.rsym.Const? && e2.rsym.Const?
    then Some((e1.rsym, e2.rsym))
    else if e1.Cmp? && e2.Cmp? && e1.op == Unequal && e2.op == Equal && e1.rsym.Const? && e2.rsym.Const?
    then Some((e2.rsym, e1.rsym))
    else None
  }

  function JoinAnd(e1: Expr, e2: Expr): Option<Expr> {
    if Eq(e1, e2) then Some(e1)
    else if SharedSymbol(e1, e2).None? then None
    else
      var s := SharedSymbol(e1, e2).value;
      if SymbolAndTest(e1, e2, Equal, YES) then Some(Cmp(Equal, s, YES))
      else if SymbolAndTest(e1, e2, Unequal, NO) then Some(Sym(s))
      else if SymbolAndTest(e1, e2, Unequal, MOD) then Some(Cmp(Equal, s, YES))
      else if TypeOf(s) != Tri then None
      else
        var p := ConstantPair(e1, e2);
        if p.Some? then
          Some(if p.value.0 != p.value.1 then Cmp(Equal, s, p.value.0) else Sym(NO))
        else if Tests(e1, e2, Unequal, YES, NO) then Some(Cmp(Equal, s, MOD))
        else if Tests(e1, e2, Unequal, YES, MOD) then Some(Cmp(Equal, s, NO))
        else if Tests(e1, e2, Unequal, MOD, NO) then Some(Cmp(Equal, s, YES))
        else None
  }

  function Join(j: Junction, e1: Expr, e2: Expr): Option<Expr> {
    if j == Conj then JoinAnd(e1, e2) else JoinOr(e1, e2)
  }

  // ----- when two operands are joined -----

  /** Both operands compare one tristate symbol by op with different constants of y, m and n. */
  predicate TwoTests(e1: Expr, e2: Expr, op: CmpOp) {
    && e1.Cmp? && e2.Cmp? && e1.op == e2.op == op
    && e1.lsym == e2.lsym && TypeOf(e1.lsym) == Tri
    && e1.rsym in {YES, MOD, NO} && e2.rsym in {YES, MOD, NO} && e1.rsym != e2.rsym
  }

  /** a and !a for a boolean a. */
  predicate Opposite(e1: Expr, e2: Expr) {
    e1.Sym? && TypeOf(e1.sym) == Boolean && e2 == Not(e1)
  }

  /** a beside a=y, a!=n or a!=m. */
  predicate ImpliedBy(e1: Expr, e2: Expr) {
    && e1.Sym? && (TypeOf(e1.sym) == Boolean || TypeOf(e1.sym) == Tri)
    && (e2 == Cmp(Equal, e1.sym, YES) || e2 == Cmp(Unequal, e1.sym, NO) || e2 == Cmp(Unequal, e1.sym, MOD))
  }

  /** a='b' beside a!='c' for a tristate a and any two constants. */
  predicate EqualBesideUnequal(e1: Expr, e2: Expr) {
    && e1.Cmp? && e2.Cmp? && e1.op == Equal && e2.op == Unequal
    && e1.lsym == e2.lsym && TypeOf(e1.lsym) == Tri && e1.rsym.Const? && e2.rsym.Const?
  }

  /** The pairs of operands for which there is a simpler form. */
  predicate Joinable(j: Junction, e1: Expr, e2: Expr) {
    || Eq(e1, e2)
    || (j == Disj && (TwoTests(e1, e2, Equal) || Opposite(e1, e2) || Opposite(e2, e1)))
    || (j == Conj && (TwoTests(e1, e2, Unequal) || ImpliedBy(e1, e2) || ImpliedBy(e2, e1)
                      || EqualBesideUnequal(e1, e2) || EqualBesideUnequal(e2, e1)))
  }

  lemma OrJoinsExactly(e1: Expr, e2: Expr)
    ensures JoinOr(e1, e2).Some? <==> Joinable(Disj, e1, e2)
  {}

  lemma AndJoinsExactly(e1: Expr, e2: Expr)
    ensures JoinAnd(e1, e2).Some? <==> Joinable(Conj, e1, e2)
  {}

  /** Two operands are joined exactly if they are equal or one of the rules covers them. */
  lemma JoinsExactly(j: Junction, e1: Expr, e2: Expr)
    ensures Join(j, e1, e2).Some? <==> Joinable(j, e1, e2)
  {
    OrJoinsExactly(e1, e2);
    AndJoinsExactly(e1, e2);
  }

  // ----- when joining preserves the value -----

  /** A tristate symbol of value t passes the test against the constant c. */
  predicate Matches(c: Symbol, t: Tristate) {
    CompareText(TriText(t), Tri, c.name, Unknown) == 0
  }

  /** Two constants that some tristate value passes at once, such as 'y' and '2'. */
  predicate Clash(b: Symbol, c: Symbol) {
    || (Matches(b, TRI_NO) && Matches(c, TRI_NO))
    || (Matches(b, TRI_MOD) && Matches(c, TRI_MOD))
    || (Matches(b, TRI_YES) && Matches(c, TRI_YES))
  }

  /** The one case in which expr_join_and changes the meaning. */
  predicate ClashingJoin(e1: Expr, e2: Expr) {
    && !Eq(e1, e2)
    && SharedSymbol(e1, e2).Some? && TypeOf(SharedSymbol(e1, e2).value) == Tri
    && ConstantPair(e1, e2).Some?
    && var (b, c) := ConstantPair(e1, e2).value; b != c && Clash(b, c)
  }

  lemma ComparesExactlyToAll(s: Symbol, env: Env)
    requires Logical(s)
    ensures CompareSymbols(s, YES, env) == 0 <==> TriOf(s, env) == TRI_YES
    ensures CompareSymbols(s, MOD, env) == 0 <==> TriOf(s, env) == TRI_MOD
    ensures CompareSymbols(s, NO, env) == 0 <==> TriOf(s, env) == TRI_NO
  {
    ComparesExactly(s, TRI_YES, env);
    ComparesExactly(s, TRI_MOD, env);
    ComparesExactly(s, TRI_NO, env);
  }

  lemma MatchesIsComparison(s: Symbol, c: Symbol, env: Env)
    requires TypeOf(s) == Tri && c.Const?
    ensures CompareSymbols(s, c, env) == 0 <==> Matches(c, TriOf(s, env))
  {
    assert TextOf(s, env) == TriText(TriOf(s, env)) && TextOf(c, env) == c.name;
  }

  /** A test of a logical symbol against y, m or n is exact. */
  lemma TestValue(e: Expr, op: CmpOp, t: Tristate, env: Env)
    requires IsTest(e, op, TriConst(t)) && IsEquality(e) && Logical(e.lsym)
    ensures Value(e, env) == Truth((TriOf(e.lsym, env) == t) == (op == Equal))
  {
    ComparesExactly(e.lsym, t, env);
  }

  lemma {:induction false} JoinOrPreservesValue(e1: Expr, e2: Expr, env: Env)
    requires JoinOr(e1, e2).Some?
    ensures Value(JoinOr(e1, e2).value, env) == Value(Or(e1, e2), env)
  {
    if Eq(e1, e2) {
      EqIsSound(e1, e2, env);
    } else {
      ComparesExactlyToAll(SharedSymbol(e1, e2).value, env);
    }
  }

  lemma {:induction false} SymbolAndTestJoins(e1: Expr, e2: Expr, op: CmpOp, t: Tristate, env: Env)
    requires SymbolAndTest(e1, e2, op, TriConst(t)) && (op == Equal || op == Unequal)
    requires SharedSymbol(e1, e2).Some?
    ensures var v := TriOf(SharedSymbol(e1, e2).value, env);
            Value(And(e1, e2), env) == Combine(Conj, v, Truth((v == t) == (op == Equal)))
  {
    if e1.Sym? && IsTest(e2, op, TriConst(t)) {
      TestValue(e2, op, t, env);
    } else {
      TestValue(e1, op, t, env);
    }
  }

  lemma {:induction false} TestsJoin(e1: Expr, e2: Expr, t: Tristate, u: Tristate, env: Env)
    requires Tests(e1, e2, Unequal, TriConst(t), TriConst(u))
    requires SharedSymbol(e1, e2).Some?
    ensures var v := TriOf(SharedSymbol(e1, e2).value, env);
            Value(And(e1, e2), env) == Truth(v != t && v != u)
  {
    if IsTest(e1, Unequal, TriConst(t)) && IsTest(e2, Unequal, TriConst(u)) {
      TestValue(e1, Unequal, t, env);
      TestValue(e2, Unequal, u, env);
    } else {
      TestValue(e1, Unequal, u, env);
      TestValue(e2, Unequal, t, env);
    }
  }

  lemma {:induction false} ConstantPairJoins(e1: Expr, e2: Expr, env: Env)
    requires SharedSymbol(e1, e2).Some? && TypeOf(SharedSymbol(e1, e2).value) == Tri
    requires ConstantPair(e1, e2).Some?
    ensures var s := SharedSymbol(e1, e2).value;
            var (b, c) := ConstantPair(e1, e2).value;
            && Value(And(e1, e2), env) == Truth(Matches(b, TriOf(s, env)) && !Matches(c, TriOf(s, env)))
            && Value(Cmp(Equal, s, b), env) == Truth(Matches(b, TriOf(s, env)))
  {
    var s := SharedSymbol(e1, e2).value;
    var (b, c) := ConstantPair(e1, e2).value;
    MatchesIsComparison(s, b, env);
    MatchesIsComparison(s, c, env);
  }

  lemma {:induction false} JoinAndPreservesValue(e1: Expr, e2: Expr, env: Env)
    requires JoinAnd(e1, e2).Some? && !ClashingJoin(e1, e2)
    ensures Value(JoinAnd(e1, e2).value, env) == Value(And(e1, e2), env)
  {
    if Eq(e1, e2) {
      EqIsSound(e1, e2, env);
      return;
    }
    var s := SharedSymbol(e1, e2).value;
    var v := TriOf(s, env);
    assert TriConst(TRI_YES) == YES && TriConst(TRI_MOD) == MOD && TriConst(TRI_NO) == NO;
    if SymbolAndTest(e1, e2, Equal, YES) {
      SymbolAndTestJoins(e1, e2, Equal, TRI_YES, env);
      TestValue(Cmp(Equal, s, YES), Equal, TRI_YES, env);
    } else if SymbolAndTest(e1, e2, Unequal, NO) {
      SymbolAndTestJoins(e1, e2, Unequal, TRI_NO, env);
    } else if SymbolAndTest(e1, e2, Unequal, MOD) {
      SymbolAndTestJoins(e1, e2, Unequal, TRI_MOD, env);
      TestValue(Cmp(Equal, s, YES), Equal, TRI_YES, env);
    } else if ConstantPair(e1, e2).Some? {
      ConstantPairJoins(e1, e2, env);
    } else if Tests(e1, e2, Unequal, YES, NO) {
      TestsJoin(e1, e2, TRI_YES, TRI_NO, env);
      TestValue(Cmp(Equal, s, MOD), Equal, TRI_MOD, env);
    } else if Tests(e1, e2, Unequal, YES, MOD) {
      TestsJoin(e1, e2, TRI_YES, TRI_MOD, env);
      TestValue(Cmp(Equal, s, NO), Equal, TRI_NO, env);
    } else {
      TestsJoin(e1, e2, TRI_MOD, TRI_NO, env);
      TestValue(Cmp(Equal, s, YES), Equal, TRI_YES, env);
    }
  }

  /** Even a clashing join only ever raises the value. */
  lemma {:induction false} JoinAndNeverDrops(e1: Expr, e2: Expr, env: Env)
    requires JoinAnd(e1, e2).Some?
    ensures Value(And(e1, e2), env) <= Value(JoinAnd(e1, e2).value, env)
  {
    if ClashingJoin(e1, e2) { ConstantPairJoins(e1, e2, env); } else { JoinAndPreservesValue(e1, e2, env); }
  }

  /** expr_join_and keeps the value in every environment exactly when its constants do not clash. */
  lemma {:induction false} JoinAndExact(e1: Expr, e2: Expr)
    requires JoinAnd(e1, e2).Some?
    ensures Equivalent(JoinAnd(e1, e2).value, And(e1, e2)) <==> !ClashingJoin(e1, e2)
  {
    if ClashingJoin(e1, e2) {
      var s := SharedSymbol(e1, e2).value;
      var (b, c) := ConstantPair(e1, e2).value;
      var t: Tristate :| Matches(b, t) && Matches(c, t);
      var env: Env := map[s := Setting(t, "")];
      assert TriOf(s, env) == t;
      MatchesIsComparison(s, b, env);
      MatchesIsComparison(s, c, env);
      assert Value(JoinAnd(e1, e2).value, env) != Value(And(e1, e2), env);
    } else {
      forall env: Env ensures Value(JoinAnd(e1, e2).value, env) == Value(And(e1, e2), env) {
        JoinAndPreservesValue(e1, e2, env);
      }
    }
  }

  /** A concrete clash: a='y' && a!='2' is always n, yet it is joined to a='y'. */
  lemma JoinAndClashes(a: Symbol)
    requires TypeOf(a) == Tri
    ensures var e1, e2 := Cmp(Equal, a, YES), Cmp(Unequal, a, Const("2"));
            && JoinAnd(e1, e2) == Some(Cmp(Equal, a, YES))
            && ClashingJoin(e1, e2)
            && (forall env: Env :: Value(And(e1, e2), env) == TRI_NO)
  {
    var two := Const("2");
    assert AllDigits("2", 10) && DigitsValue("2", 10) == 2 by { assert DigitsValue("", 10) == 0; }
    assert SkipSpace("2") == "2" && WholeSigned("2", 0) == Some(2);
    assert YES != two by { assert YES.name[0] != two.name[0]; }
    assert forall t: Tristate :: Matches(two, t) <==> t == TRI_YES;
    TriTextIsNoNumber(TRI_YES);
    forall t: Tristate ensures Matches(YES, t) <==> t == TRI_YES {
      StrCmpZero(TriText(t), "y");
    }
    forall env: Env ensures Value(And(Cmp(Equal, a, YES), Cmp(Unequal, a, two)), env) == TRI_NO {
      assert CompareSymbols(a, YES, env) == 0 <==> Matches(YES, TriOf(a, env));
      assert CompareSymbols(a, two, env) == 0 <==> Matches(two, TriOf(a, env));
    }
  }
}
