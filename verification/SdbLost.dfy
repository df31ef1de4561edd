/** The comparisons <= and >=, which make_token reads without leaving a token: two printed expressions
    with nothing between them (nemu/src/monitor/sdb/expr.c:50-51 and 130-190). */
module SdbLost {
  import opened Options
  import opened SdbLex
  import opened SdbExpr
  import opened SdbPrint

  // ----- a leading * becomes a product -----

  /** t op r, where t was printed without regard to op: the tree with these tokens. */
  function Extend(t: Expr, op: Op, r: Expr): (e: Expr)
    requires WellPrinted(t) && WellPrinted(r) && Level(r) > PrecOf(op)
    ensures WellPrinted(e) && Level(e) == (if Level(t) < PrecOf(op) then Level(t) else PrecOf(op))
    ensures HasLess(e) <==> HasLess(t) || op == Lt || HasLess(r)
  {
    if t.Bin? && PrecOf(t.op) < PrecOf(op) then Bin(t.op, t.left, Extend(t.right, op, r)) else Bin(op, t, r)
  }

  lemma Regroup(a: seq<Token>, b: seq<Token>, t: Token, c: seq<Token>)
    ensures (a + b) + [t] + c == a + (b + [t] + c)
    ensures b == [] ==> a + [t] + c == a + ([t] + c)
  {}

  lemma {:induction false} ExtendTokens(t: Expr, op: Op, r: Expr, product: bool)
    requires WellPrinted(t) && WellPrinted(r) && Level(r) > PrecOf(op)
    ensures Marked(Extend(t, op, r), product) == Marked(t, product) + [Infix(op)] + Marked(r, false)
    ensures StarAfterParen(Extend(t, op, r), product) <==> StarAfterParen(t, product) || StarAfterParen(r, false)
  {
    if t.Bin? && PrecOf(t.op) < PrecOf(op) {
      ExtendTokens(t.right, op, r, false);
      Regroup(Marked(t.left, product) + [Infix(t.op)], Marked(t.right, false), Infix(op), Marked(r, false));
    }
  }

  /** l and r side by side, where the * that r starts with multiplies. */
  function Graft(l: Expr, r: Expr): (e: Expr)
    requires WellPrinted(l) && WellPrinted(r) && LeadingStar(r)
    ensures WellPrinted(e) && (HasLess(e) <==> HasLess(l) || HasLess(r))
  {
    if r.Star? then Extend(l, Mul, r.arg) else Extend(Graft(l, r.left), r.op, r.right)
  }

  lemma {:induction false} GraftTokens(l: Expr, r: Expr)
    requires WellPrinted(l) && WellPrinted(r) && LeadingStar(r)
    ensures Marked(Graft(l, r), false) == Marked(l, false) + Marked(r, true)
    ensures StarAfterParen(Graft(l, r), false) <==> StarAfterParen(l, false) || StarAfterParen(r, false)
  {
    if r.Star? {
      ExtendTokens(l, Mul, r.arg, false);
      Regroup(Marked(l, false), [], Infix(Mul), Marked(r.arg, false));
    } else {
      GraftTokens(l, r.left);
      ExtendTokens(Graft(l, r.left), r.op, r.right, false);
      Regroup(Marked(l, false), Marked(r.left, true), Infix(r.op), Marked(r.right, false));
    }
  }

  // ----- no operator in between -----

  lemma {:induction false} MarkedAlike(e: Expr)
    requires WellPrinted(e) && !LeadingStar(e)
    ensures Marked(e, true) == Marked(e, false)
  {
    if e.Bin? { MarkedAlike(e.left); }
  }

  lemma SideBySide(a: seq<Token>, b: seq<Token>)
    requires |a| >= 1 && |b| >= 1 && (a[0] == Open ==> Nesting(a, 0) == None)
    ensures Surrounded(a + b) == Some(false)
  {
    assert (a + b)[..|a + b| - 1] == a + b[..|b| - 1];
    NestingAppend(a, b[..|b| - 1], 0);
  }

  lemma NotSurroundedBeside(l: Expr, product: bool, r: Expr)
    requires WellPrinted(l) && WellPrinted(r)
    ensures var ts := Marked(l, product) + Marked(r, false); |ts| >= 2 && Surrounded(ts) == Some(false)
  {
    MarkedSize(l, product);
    MarkedSize(r, false);
    if Marked(l, product)[0] == Open { NestingReturns(l, product); }
    SideBySide(Marked(l, product), Marked(r, false));
  }

  /** Evaluation around a main operator. */
  lemma EvalAt(env: Env, a: seq<Token>, t: Token, b: seq<Token>)
    requires |a + [t] + b| >= 2 && Surrounded(a + [t] + b) == Some(false)
    requires ScanAll(a + [t] + b, 0, START).position == |a|
    ensures Eval(env, a + [t] + b) == Combine(env, t, if t == Deref then Panic else Eval(env, a), Eval(env, b))
  {
    EvalIs(env, a + [t] + b);
    CutAround(a, t, b);
  }

  /** Wherever the scan meets these tokens outside parentheses, they compete at one level. */
  ghost predicate Compete(ts: seq<Token>, level: nat) { FoldedCompete(ts, level, 1) }

  /** The definition of Compete, folded like Eval. */
  ghost predicate FoldedCompete(ts: seq<Token>, level: nat, folds: nat)
    decreases folds, level
  {
    if folds > 0 then FoldedCompete(ts, level, folds - 1)
    else forall k, st: Scan :: st.cnt == 0 ==> Outer(ts, level, k, st)
  }

  lemma CompeteAt(ts: seq<Token>, level: nat, k: nat, st: Scan)
    requires Compete(ts, level) && st.cnt == 0
    ensures Outer(ts, level, k, st)
  {
    assert FoldedCompete(ts, level, 1) == FoldedCompete(ts, level, 0);
  }

  lemma Competes(e: Expr, product: bool)
    requires WellPrinted(e)
    ensures Compete(Marked(e, product), MarkedLevel(e, product))
  {
    var ts, level := Marked(e, product), MarkedLevel(e, product);
    forall k, st: Scan | st.cnt == 0 ensures Outer(ts, level, k, st) { ScanOuter(e, product, k, st); }
    assert FoldedCompete(ts, level, 1) == FoldedCompete(ts, level, 0);
  }

  lemma ScanLeft(a: seq<Token>, op: Op, y: seq<Token>, b: seq<Token>, level: nat)
    requires ScanAll(a + [Infix(op)] + y, 0, START) == Scan(0, PrecOf(op), |a|) && PrecOf(op) < level
    requires Compete(b, level)
    ensures (a + [Infix(op)] + y) + b == a + [Infix(op)] + (y + b)
    ensures ScanAll(a + [Infix(op)] + (y + b), 0, START).position == |a|
  {
    ScanAppend(a + [Infix(op)] + y, b, 0, START);
    CompeteAt(b, level, |a| + 1 + |y|, Scan(0, PrecOf(op), |a|));
    assert (a + [Infix(op)] + y) + b == a + [Infix(op)] + (y + b);
  }

  /** The root of the left expression, if it binds less tightly than the right one. */
  lemma RootOfLeft(op: Op, x: Expr, y: Expr, product: bool, r: Expr)
    requires WellPrinted(Bin(op, x, y)) && WellPrinted(r) && PrecOf(op) < Level(r)
    ensures var a, b := Marked(x, product), Marked(y, false) + Marked(r, false);
            && Marked(Bin(op, x, y), product) + Marked(r, false) == a + [Infix(op)] + b
            && ScanAll(a + [Infix(op)] + b, 0, START).position == |a|
  {
    RootIsChosen(op, x, y, product);
    Competes(r, false);
    ScanLeft(Marked(x, product), op, Marked(y, false), Marked(r, false), Level(r));
  }

  lemma ScanRight(a: seq<Token>, x: seq<Token>, op: Op, y: seq<Token>, la: nat, lx: nat, ly: nat)
    requires Compete(a, la) && Compete(x, lx) && Compete(y, ly)
    requires PrecOf(op) <= la <= 100 && PrecOf(op) <= lx && PrecOf(op) < ly
    ensures a + (x + [Infix(op)] + y) == (a + x) + [Infix(op)] + y
    ensures ScanAll((a + x) + [Infix(op)] + y, 0, START).position == |a + x|
  {
    CompeteAt(a, la, 0, START);
    CompeteAt(x, lx, |a|, ScanAll(a, 0, START));
    CompeteAt(y, ly, |a + x| + 1, Scan(0, PrecOf(op), |a + x|));
    ScanAppend(a, x, 0, START);
    ScanAround(a + x, Infix(op), y, 0, START);
    assert Scan1(Infix(op), |a + x|, ScanAll(a + x, 0, START)) == Scan(0, PrecOf(op), |a + x|);
    Regroup(a, x, Infix(op), y);
  }

  /** The root of the right expression, if it binds no more tightly than the left one. */
  lemma RootOfRight(l: Expr, product: bool, op: Op, x: Expr, y: Expr)
    requires WellPrinted(l) && WellPrinted(x) && WellPrinted(y)
    requires PrecOf(op) <= MarkedLevel(l, product) <= 7 && PrecOf(op) <= Level(x) && PrecOf(op) < Level(y)
    ensures var a, b := Marked(l, product) + Marked(x, false), Marked(y, false);
            && Marked(l, product) + (Marked(x, false) + [Infix(op)] + b) == a + [Infix(op)] + b
            && ScanAll(a + [Infix(op)] + b, 0, START).position == |a|
  {
    Competes(l, product);
    Competes(x, false);
    Competes(y, false);
    ScanRight(Marked(l, product), Marked(x, false), op, Marked(y, false), MarkedLevel(l, product), Level(x), Level(y));
  }

  lemma ScanStar(t: Token, a: seq<Token>, b: seq<Token>, la: nat, lb: nat)
    requires (t == Infix(Mul) || t == Deref) && Prec(t) < la && Prec(t) < lb
    requires Compete(a, la) && Compete(b, lb)
    ensures ([t] + a) + b == [] + [t] + (a + b)
    ensures ScanAll([] + [t] + (a + b), 0, START).position == 0
  {
    CompeteAt(a, la, 1, Scan(0, Prec(t), 0));
    CompeteAt(b, lb, 1 + |a|, Scan(0, Prec(t), 0));
    ScanAround([], t, a + b, 0, START);
    assert ScanAll([], 0, START) == START && Scan1(t, 0, START) == Scan(0, Prec(t), 0);
    ScanAppend(a, b, 1, Scan(0, Prec(t), 0));
  }

  lemma RootIsStar(arg: Expr, product: bool, r: Expr)
    requires WellPrinted(Star(arg)) && WellPrinted(r) && Level(r) == 7
    ensures var t, b := if product then Infix(Mul) else Deref, Marked(arg, false) + Marked(r, false);
            && Marked(Star(arg), product) + Marked(r, false) == [] + [t] + b
            && ScanAll([] + [t] + b, 0, START).position == 0
  {
    var t := if product then Infix(Mul) else Deref;
    Competes(arg, false);
    Competes(r, false);
    ScanStar(t, Marked(arg, false), Marked(r, false), 7, 7);
  }

  lemma NoOperator(env: Env, a: seq<Token>, b: seq<Token>)
    requires |a + b| >= 2 && Surrounded(a + b) == Some(false)
    requires Compete(a, 7) && Compete(b, 7)
    ensures Eval(env, a + b) == Panic
  {
    CompeteAt(a, 7, 0, START);
    CompeteAt(b, 7, |a|, ScanAll(a, 0, START));
    ScanAppend(a, b, 0, START);
    MainOpIsBest(a + b);
    assert Prec((a + b)[MainOp(a + b)]) >= 7;
    EvalIs(env, a + b);
  }

  /** Two operands: whatever is taken for the operator is none. */
  lemma TwoOperands(env: Env, l: Expr, product: bool, r: Expr)
    requires WellPrinted(l) && WellPrinted(r) && Level(l) == 7 && Level(r) == 7
    ensures Eval(env, Marked(l, product) + Marked(r, false)) == Panic
  {
    NotSurroundedBeside(l, product, r);
    Competes(l, product);
    Competes(r, false);
    NoOperator(env, Marked(l, product), Marked(r, false));
  }

  /** Two printed expressions with no operator in between. */
  lemma {:induction false} Juxtaposed(env: Env, l: Expr, product: bool, r: Expr)
    requires WellPrinted(l) && WellPrinted(r) && !LeadingStar(r)
    ensures Eval(env, Marked(l, product) + Marked(r, false)) == Panic
    decreases l, r
  {
    NotSurroundedBeside(l, product, r);
    if l.Bin? && PrecOf(l.op) < Level(r) {
      RootOfLeft(l.op, l.left, l.right, product, r);
      EvalAt(env, Marked(l.left, product), Infix(l.op), Marked(l.right, false) + Marked(r, false));
      Juxtaposed(env, l.right, false, r);
    } else if r.Bin? {
      RootOfRight(l, product, r.op, r.left, r.right);
      EvalAt(env, Marked(l, product) + Marked(r.left, false), Infix(r.op), Marked(r.right, false));
      Juxtaposed(env, l, product, r.left);
    } else if l.Star? {
      RootIsStar(l.arg, product, r);
      EvalAt(env, [], if product then Infix(Mul) else Deref, Marked(l.arg, false) + Marked(r, false));
      Juxtaposed(env, l.arg, false, r);
      EvalIs(env, []);
    } else {
      TwoOperands(env, l, product, r);
    }
  }

  // ----- <= and >= -----

  function LostComparisonText(l: Expr, g: Gaps, c: Lost, r: Expr, h: Gaps): string {
    Spaced(l, g) + (LostText(c) + Spaced(r, h))
  }

  lemma LostTokens(l: Expr, g: Gaps, c: Lost, r: Expr, h: Gaps)
    requires WellPrinted(l) && WellPrinted(r)
    ensures Lex(LostComparisonText(l, g, c, r, h), None) == Tokens(Marked(l, false) + Marked(r, true))
  {
    var right := LostText(c) + Spaced(r, h);
    assert Lex(right, Some(LastToken(l))) == Tokens(Marked(r, true)) && Delimited(right) && !StartsBlank(right) by {
      LexLost(c, Spaced(r, h), Some(LastToken(l)));
      LastIsOperand(l);
      SpacedLexes(r, h, Some(LastToken(l)));
    }
    LeftTokens(l, g, right, Marked(r, true));
  }

  lemma LeftTokens(l: Expr, g: Gaps, right: string, ts: seq<Token>)
    requires WellPrinted(l) && Delimited(right) && !StartsBlank(right) && Lex(right, Some(LastToken(l))) == Tokens(ts)
    ensures Lex(Spaced(l, g) + right, None) == Tokens(Marked(l, false) + ts)
  {
    var n := g(Count(l));
    BlanksDelimit(n, right);
    LexSpread(l, g, 0, Blanks(n) + right, None);
    YieldsIs(Spread(l, g, 0), Blanks(n) + right, None, Marked(l, false), LastToken(l));
    LexBlanks(n, right, Some(LastToken(l)));
    assert (Spread(l, g, 0) + Blanks(n)) + right == Spread(l, g, 0) + (Blanks(n) + right);
  }

  /** l <= r and l >= r panic, unless r starts with a *: then they are the product of l and what follows,
      regrouped by precedence. */
  lemma LostComparison(env: Env, l: Expr, g: Gaps, c: Lost, r: Expr, h: Gaps)
    requires WellPrinted(l) && WellPrinted(r)
    ensures Evaluate(env, LostComparisonText(l, g, c, r, h))
         == Some(if !LeadingStar(r) || Stuck(l, false) || Stuck(r, false) then Panic
                 else Value(Meaning(env, Graft(l, r))))
  {
    LostTokens(l, g, c, r, h);
    if LeadingStar(r) {
      GraftTokens(l, r);
      EvalMarked(env, Graft(l, r), false);
    } else {
      MarkedAlike(r);
      Juxtaposed(env, l, false, r);
    }
  }

  /** x<=*y is the product of x and y for all literals. */
  lemma LostStar(env: Env, s: string, c: Lost, t: string)
    requires IsAtom(s) && IsAtom(t)
    ensures Evaluate(env, s + LostText(c) + "*" + t)
         == Some(Value(Apply(Mul, Leaf(env, AtomToken(s)), Leaf(env, AtomToken(t)))))
  {
    var l, r := Atom(s), Star(Atom(t));
    assert WellPrinted(Atom(t)) && Level(Atom(t)) == 7;
    SpacedNothing(l);
    SpacedNothing(r);
    assert Text(l) == s && Text(r) == "*" + Text(Atom(t)) && Text(Atom(t)) == t;
    assert LostComparisonText(l, NO_GAPS, c, r, NO_GAPS) == s + (LostText(c) + ("*" + t)) == s + LostText(c) + "*" + t;
    assert !HasLess(Atom(s)) && !HasLess(Atom(t)) && !StarAfterParen(Atom(s), false) && !StarAfterParen(Atom(t), false);
    LostComparison(env, l, NO_GAPS, c, r, NO_GAPS);
    assert Graft(l, r) == Bin(Mul, l, Atom(t));
  }
}
