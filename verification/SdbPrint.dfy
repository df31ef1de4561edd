/** Printed expressions: what the lexer and the evaluator make of the text of a tree
    (nemu/src/monitor/sdb/expr.c:105-305). */
module SdbPrint {
  import opened Options
  import opened SdbLex
  import opened SdbExpr

  /** An expression as printed: with the parentheses that were written. */
  datatype Expr = Atom(lexeme: string) | Paren(inner: Expr) | Star(arg: Expr) | Bin(op: Op, left: Expr, right: Expr)

  /** Its text without spaces. */
  function Text(e: Expr): string {
    match e
    case Atom(s) => s
    case Paren(i) => "(" + Text(i) + ")"
    case Star(a) => "*" + Text(a)
    case Bin(op, l, r) => Text(l) + OpText(op) + Text(r)
  }

  function Level(e: Expr): nat { if e.Bin? then PrecOf(e.op) else if e.Star? then 6 else 7 }

  /** Parentheses are present wherever precedence or left associativity needs them; a unary * stands
      before a literal or a parenthesis. */
  predicate WellPrinted(e: Expr) {
    match e
    case Atom(s) => IsAtom(s)
    case Paren(i) => WellPrinted(i)
    case Star(a) => WellPrinted(a) && Level(a) == 7
    case Bin(op, l, r) => WellPrinted(l) && WellPrinted(r) && Level(l) >= PrecOf(op) && Level(r) > PrecOf(op)
  }

  /** The word at an address. */
  function Fetch(env: Env, a: Word): Word { if a in env.mem then env.mem[a] else 0 }

  /** The operator '<', for which the evaluator has no case. */
  predicate HasLess(e: Expr) {
    match e
    case Atom(_) => false
    case Paren(i) => HasLess(i)
    case Star(a) => HasLess(a)
    case Bin(op, l, r) => op == Lt || HasLess(l) || HasLess(r)
  }

  /** The value of the tree: arithmetic modulo 2^32, where dividing by zero yields the dividend. */
  function Meaning(env: Env, e: Expr): Word
    requires WellPrinted(e) && !HasLess(e)
  {
    match e
    case Atom(s) => Leaf(env, AtomToken(s))
    case Paren(i) => Meaning(env, i)
    case Star(a) => Fetch(env, Meaning(env, a))
    case Bin(op, l, r) => Apply(op, Meaning(env, l), Meaning(env, r))
  }

  // ----- spaces -----

  /** How many spaces stand before a token. */
  type Gap = n: int | 0 <= n <= 32

  /** The same for every token, by its number, and for the end of the text. */
  type Gaps = nat -> Gap

  function Count(e: Expr): nat {
    match e
    case Atom(_) => 1
    case Paren(i) => Count(i) + 2
    case Star(a) => 1 + Count(a)
    case Bin(_, l, r) => Count(l) + 1 + Count(r)
  }

  /** The text of a tree whose first token is number k. */
  function Spread(e: Expr, g: Gaps, k: nat): string {
    match e
    case Atom(s) => Blanks(g(k)) + s
    case Paren(i) => Blanks(g(k)) + ("(" + (Spread(i, g, k + 1) + (Blanks(g(k + 1 + Count(i))) + ")")))
    case Star(a) => Blanks(g(k)) + ("*" + Spread(a, g, k + 1))
    case Bin(op, l, r) =>
      Spread(l, g, k) + (Blanks(g(k + Count(l))) + (OpText(op) + Spread(r, g, k + Count(l) + 1)))
  }

  function Spaced(e: Expr, g: Gaps): string { Spread(e, g, 0) + Blanks(g(Count(e))) }

  const NO_GAPS: Gaps := (k: nat) => 0

  lemma {:induction false} SpreadNothing(e: Expr, k: nat)
    ensures Spread(e, NO_GAPS, k) == Text(e)
  {
    match e
    case Atom(_) =>
    case Paren(i) => SpreadNothing(i, k + 1);
    case Star(a) => SpreadNothing(a, k + 1);
    case Bin(_, l, r) => SpreadNothing(l, k); SpreadNothing(r, k + Count(l) + 1);
  }

  lemma SpacedNothing(e: Expr)
    ensures Spaced(e, NO_GAPS) == Text(e)
  {
    SpreadNothing(e, 0);
  }

  // ----- from text to tokens -----

  /** A '*' is taken for a product. */
  predicate AsProduct(prev: Option<Token>) { StarToken(prev) == Infix(Mul) }

  /** The tokens of a tree, where `product` says what a leading * is taken for: behind '(' it is a
      product. */
  function Marked(e: Expr, product: bool): seq<Token>
    requires WellPrinted(e)
  {
    match e
    case Atom(s) => [AtomToken(s)]
    case Paren(i) => [Open] + Marked(i, true) + [Close]
    case Star(a) => [if product then Infix(Mul) else Deref] + Marked(a, false)
    case Bin(op, l, r) => Marked(l, product) + [Infix(op)] + Marked(r, false)
  }

  function LastToken(e: Expr): Token
    requires WellPrinted(e)
  {
    match e
    case Atom(s) => AtomToken(s)
    case Paren(_) => Close
    case Star(a) => LastToken(a)
    case Bin(_, _, r) => LastToken(r)
  }

  predicate LeadingStar(e: Expr) { e.Star? || (e.Bin? && LeadingStar(e.left)) }

  lemma {:induction false} LastIsOperand(e: Expr)
    requires WellPrinted(e)
    ensures Prec(LastToken(e)) > 5
  {
    match e
    case Atom(s) => AtomIsOperand(s);
    case Paren(_) =>
    case Star(a) => LastIsOperand(a);
    case Bin(_, _, r) => LastIsOperand(r);
  }

  /** No tree's text starts with '='. */
  lemma {:induction false} SpreadStart(e: Expr, g: Gaps, k: nat, rest: string)
    requires WellPrinted(e)
    ensures Spread(e, g, k) != [] && !StartsEqual(Spread(e, g, k) + rest)
  {
    match e
    case Atom(s) => assert s[0] != '=';
    case Bin(_, l, _) => SpreadStart(l, g, k, rest);
    case _ =>
  }

  /** Lexing a text before rest yields the tokens ts, the last of which is `last`. */
  ghost predicate Yields(text: string, rest: string, prev: Option<Token>, ts: seq<Token>, last: Token) {
    FoldedYields(text, rest, prev, ts, last, 1)
  }

  /** The definition of Yields, folded like Lex. */
  ghost predicate FoldedYields(text: string, rest: string, prev: Option<Token>, ts: seq<Token>, last: Token, folds: nat)
    decreases folds, text
  {
    if folds > 0 then FoldedYields(text, rest, prev, ts, last, folds - 1)
    else Lex(text + rest, prev) == Join(ts, Lex(rest, Some(last)))
  }

  lemma YieldsIs(text: string, rest: string, prev: Option<Token>, ts: seq<Token>, last: Token)
    ensures Yields(text, rest, prev, ts, last) <==> Lex(text + rest, prev) == Join(ts, Lex(rest, Some(last)))
  {
    assert FoldedYields(text, rest, prev, ts, last, 1) == FoldedYields(text, rest, prev, ts, last, 0);
  }

  lemma LexParen(n: Gap, t: string, m: Gap, rest: string, ts: seq<Token>, last: Token, prev: Option<Token>)
    requires Yields(t, Blanks(m) + (")" + rest), Some(Open), ts, last)
    ensures Yields(Blanks(n) + ("(" + (t + (Blanks(m) + ")"))), rest, prev, [Open] + ts + [Close], Close)
  {
    YieldsIs(t, Blanks(m) + (")" + rest), Some(Open), ts, last);
    YieldsIs(Blanks(n) + ("(" + (t + (Blanks(m) + ")"))), rest, prev, [Open] + ts + [Close], Close);
    var inner := t + (Blanks(m) + (")" + rest));
    assert (Blanks(n) + ("(" + (t + (Blanks(m) + ")")))) + rest == Blanks(n) + ("(" + inner);
    LexBlanks(n, "(" + inner, prev);
    LexSymbol('(', inner, prev);
    LexBlanks(m, ")" + rest, Some(last));
    LexSymbol(')', rest, Some(last));
    JoinTwice(ts, [Close], Lex(rest, Some(Close)));
    JoinTwice([Open], ts + [Close], Lex(rest, Some(Close)));
    assert [Open] + (ts + [Close]) == [Open] + ts + [Close];
  }

  lemma LexStar(n: Gap, t: string, rest: string, ts: seq<Token>, last: Token, prev: Option<Token>)
    requires Yields(t, rest, Some(StarToken(prev)), ts, last)
    ensures Yields(Blanks(n) + ("*" + t), rest, prev, [StarToken(prev)] + ts, last)
  {
    YieldsIs(t, rest, Some(StarToken(prev)), ts, last);
    YieldsIs(Blanks(n) + ("*" + t), rest, prev, [StarToken(prev)] + ts, last);
    assert (Blanks(n) + ("*" + t)) + rest == Blanks(n) + ("*" + (t + rest));
    LexBlanks(n, "*" + (t + rest), prev);
    LexSymbol('*', t + rest, prev);
    JoinTwice([StarToken(prev)], ts, Lex(rest, Some(last)));
  }

  /** What follows the left operand of an infix operator. */
  function OpTail(m: Gap, op: Op, rest: string): (tail: string)
    ensures Delimited(tail)
  {
    BlanksDelimit(m, OpText(op) + rest);
    Blanks(m) + (OpText(op) + rest)
  }

  lemma LexBin(t: string, m: Gap, op: Op, u: string, rest: string, a: seq<Token>, b: seq<Token>,
               last: Token, end: Token, prev: Option<Token>)
    requires Prec(last) > 5 && !StartsEqual(u + rest)
    requires Yields(t, OpTail(m, op, u + rest), prev, a, last)
    requires Yields(u, rest, Some(Infix(op)), b, end)
    ensures Yields(t + (Blanks(m) + (OpText(op) + u)), rest, prev, a + [Infix(op)] + b, end)
  {
    YieldsIs(t, Blanks(m) + (OpText(op) + (u + rest)), prev, a, last);
    YieldsIs(u, rest, Some(Infix(op)), b, end);
    YieldsIs(t + (Blanks(m) + (OpText(op) + u)), rest, prev, a + [Infix(op)] + b, end);
    assert (t + (Blanks(m) + (OpText(op) + u))) + rest == t + (Blanks(m) + (OpText(op) + (u + rest)));
    LexOp(op, u + rest, last);
    LexBlanks(m, OpText(op) + (u + rest), Some(last));
    JoinTwice([Infix(op)], b, Lex(rest, Some(end)));
    JoinTwice(a, [Infix(op)] + b, Lex(rest, Some(end)));
    assert a + ([Infix(op)] + b) == a + [Infix(op)] + b;
  }

  lemma LexLiteral(n: Gap, s: string, rest: string, prev: Option<Token>)
    requires IsAtom(s) && Delimited(rest)
    ensures Yields(Blanks(n) + s, rest, prev, [AtomToken(s)], AtomToken(s))
  {
    YieldsIs(Blanks(n) + s, rest, prev, [AtomToken(s)], AtomToken(s));
    assert (Blanks(n) + s) + rest == Blanks(n) + (s + rest);
    LexBlanks(n, s + rest, prev);
    LexAtom(s, rest, prev);
  }

  /** Lexing the spaced text of a tree yields its marked tokens, whatever delimiter follows. */
  lemma {:induction false} LexSpread(e: Expr, g: Gaps, k: nat, rest: string, prev: Option<Token>)
    requires WellPrinted(e) && Delimited(rest)
    ensures Yields(Spread(e, g, k), rest, prev, Marked(e, AsProduct(prev)), LastToken(e))
    decreases e, 1
  {
    match e
    case Atom(s) => LexLiteral(g(k), s, rest, prev);
    case Paren(i) => LexSpreadParen(e, g, k, rest, prev);
    case Star(a) => LexSpreadStar(e, g, k, rest, prev);
    case Bin(op, l, r) => LexSpreadBin(e, g, k, rest, prev);
  }

  lemma {:induction false} LexSpreadParen(e: Expr, g: Gaps, k: nat, rest: string, prev: Option<Token>)
    requires e.Paren? && WellPrinted(e)
    ensures Yields(Spread(e, g, k), rest, prev, Marked(e, AsProduct(prev)), Close)
    decreases e, 0
  {
    var i := e.inner;
    var m := g(k + 1 + Count(i));
    BlanksDelimit(m, ")" + rest);
    LexSpread(i, g, k + 1, Blanks(m) + (")" + rest), Some(Open));
    LexParen(g(k), Spread(i, g, k + 1), m, rest, Marked(i, true), LastToken(i), prev);
  }

  lemma {:induction false} LexSpreadStar(e: Expr, g: Gaps, k: nat, rest: string, prev: Option<Token>)
    requires e.Star? && WellPrinted(e) && Delimited(rest)
    ensures Yields(Spread(e, g, k), rest, prev, Marked(e, AsProduct(prev)), LastToken(e))
    decreases e, 0
  {
    var a := e.arg;
    LexSpread(a, g, k + 1, rest, Some(StarToken(prev)));
    assert Marked(a, AsProduct(Some(StarToken(prev)))) == Marked(a, false);
    LexStar(g(k), Spread(a, g, k + 1), rest, Marked(a, false), LastToken(a), prev);
  }

  lemma {:induction false} LexSpreadBin(e: Expr, g: Gaps, k: nat, rest: string, prev: Option<Token>)
    requires e.Bin? && WellPrinted(e) && Delimited(rest)
    ensures Yields(Spread(e, g, k), rest, prev, Marked(e, AsProduct(prev)), LastToken(e))
    decreases e, 0
  {
    var m, n := g(k + Count(e.left)), k + Count(e.left) + 1;
    var t, u := Spread(e.left, g, k), Spread(e.right, g, n);
    LexSpread(e.left, g, k, OpTail(m, e.op, u + rest), prev);
    LexSpread(e.right, g, n, rest, Some(Infix(e.op)));
    assert !StartsEqual(u + rest) by { SpreadStart(e.right, g, n, rest); }
    LexAround(e, t, m, u, rest, prev);
  }

  /** The same for any texts of the two operands. */
  lemma LexAround(e: Expr, t: string, m: Gap, u: string, rest: string, prev: Option<Token>)
    requires e.Bin? && WellPrinted(e) && !StartsEqual(u + rest)
    requires Yields(t, OpTail(m, e.op, u + rest), prev, Marked(e.left, AsProduct(prev)), LastToken(e.left))
    requires Yields(u, rest, Some(Infix(e.op)), Marked(e.right, AsProduct(Some(Infix(e.op)))), LastToken(e.right))
    ensures Yields(t + (Blanks(m) + (OpText(e.op) + u)), rest, prev, Marked(e, AsProduct(prev)), LastToken(e))
  {
    assert Prec(LastToken(e.left)) > 5 by { LastIsOperand(e.left); }
    assert !AsProduct(Some(Infix(e.op)));
    LexBin(t, m, e.op, u, rest, Marked(e.left, AsProduct(prev)), Marked(e.right, false),
           LastToken(e.left), LastToken(e.right), prev);
  }

  lemma LexText(e: Expr, rest: string, prev: Option<Token>)
    requires WellPrinted(e) && Delimited(rest)
    ensures Lex(Text(e) + rest, prev) == Join(Marked(e, AsProduct(prev)), Lex(rest, Some(LastToken(e))))
  {
    SpreadNothing(e, 0);
    LexSpread(e, NO_GAPS, 0, rest, prev);
    YieldsIs(Text(e), rest, prev, Marked(e, AsProduct(prev)), LastToken(e));
  }

  /** What a spaced text yields behind the token prev. */
  lemma SpacedLexes(e: Expr, g: Gaps, prev: Option<Token>)
    requires WellPrinted(e)
    ensures Lex(Spaced(e, g), prev) == Tokens(Marked(e, AsProduct(prev)))
  {
    var end := Blanks(g(Count(e)));
    assert end + "" == end;
    LexBlanks(g(Count(e)), "", Some(LastToken(e)));
    LexSpread(e, g, 0, end, prev);
    YieldsIs(Spread(e, g, 0), end, prev, Marked(e, AsProduct(prev)), LastToken(e));
    LexIs("", Some(LastToken(e)));
    assert Marked(e, AsProduct(prev)) + [] == Marked(e, AsProduct(prev));
  }

  // ----- nesting -----

  lemma {:induction false} MarkedSize(e: Expr, product: bool)
    requires WellPrinted(e)
    ensures |Marked(e, product)| >= 1
    ensures !e.Atom? ==> |Marked(e, product)| >= 2
  {
    match e
    case Atom(_) =>
    case Paren(i) => MarkedSize(i, true);
    case Star(a) => MarkedSize(a, false);
    case Bin(_, l, r) => MarkedSize(l, product); MarkedSize(r, false);
  }

  /** Gaps are numbered by tokens. */
  lemma {:induction false} CountIsTokens(e: Expr, product: bool)
    requires WellPrinted(e)
    ensures |Marked(e, product)| == Count(e)
  {
    match e
    case Atom(_) =>
    case Paren(i) => CountIsTokens(i, true);
    case Star(a) => CountIsTokens(a, false);
    case Bin(_, l, r) => CountIsTokens(l, product); CountIsTokens(r, false);
  }

  lemma NestingOne(t: Token, cnt: int)
    ensures Nesting([t], cnt) == if cnt + Nest(t) == 0 then None else Some(cnt + Nest(t))
  {
    assert Nesting([t][1..], cnt + Nest(t)) == Some(cnt + Nest(t));
  }

  lemma NestingAround(a: seq<Token>, t: Token, b: seq<Token>, cnt: int)
    requires Nesting(a, cnt) == Some(cnt) && Nest(t) == 0 && cnt != 0
    ensures Nesting(a + [t] + b, cnt) == Nesting(b, cnt)
  {
    NestingAppend(a + [t], b, cnt);
    NestingAppend(a, [t], cnt);
    NestingOne(t, cnt);
  }

  lemma NestingBehind(t: Token, a: seq<Token>, cnt: int)
    requires Nest(t) == 0 && cnt != 0
    ensures Nesting([t] + a, cnt) == Nesting(a, cnt)
  {
    assert ([t] + a)[1..] == a;
  }

  lemma NestingWrapped(a: seq<Token>, cnt: int)
    requires cnt >= 0 && Nesting(a, cnt + 1) == Some(cnt + 1)
    ensures Nesting([Open] + a, cnt) == Some(cnt + 1)
    ensures Nesting([Open] + a + [Close], cnt) == if cnt == 0 then None else Some(cnt)
  {
    assert ([Open] + a)[1..] == a;
    NestingAppend([Open] + a, [Close], cnt);
    NestingOne(Close, cnt + 1);
  }

  /** Inside an product parenthesis the counter comes back to where it was. */
  lemma {:induction false} NestingOfInner(e: Expr, product: bool, cnt: int)
    requires WellPrinted(e) && cnt >= 1
    ensures Nesting(Marked(e, product), cnt) == Some(cnt)
  {
    match e
    case Atom(s) => AtomIsOperand(s); NestingOne(AtomToken(s), cnt);
    case Paren(i) =>
      NestingOfInner(i, true, cnt + 1);
      NestingWrapped(Marked(i, true), cnt);
    case Star(a) =>
      NestingOfInner(a, false, cnt);
      NestingBehind(if product then Infix(Mul) else Deref, Marked(a, false), cnt);
    case Bin(op, l, r) =>
      NestingOfInner(l, product, cnt);
      NestingOfInner(r, false, cnt);
      NestingAround(Marked(l, product), Infix(op), Marked(r, false), cnt);
  }

  /** Whatever starts with a parenthesis brings the counter back to zero by its end. */
  lemma {:induction false} NestingReturns(e: Expr, product: bool)
    requires WellPrinted(e) && Marked(e, product) != [] && Marked(e, product)[0] == Open
    ensures Nesting(Marked(e, product), 0) == None
  {
    match e
    case Atom(s) => AtomIsOperand(s);
    case Paren(i) =>
      NestingOfInner(i, true, 1);
      NestingWrapped(Marked(i, true), 0);
    case Star(_) =>
    case Bin(op, l, r) =>
      MarkedSize(l, product);
      NestingReturns(l, product);
      NestingAppend(Marked(l, product) + [Infix(op)], Marked(r, false), 0);
      NestingAppend(Marked(l, product), [Infix(op)], 0);
  }

  lemma ParenIsSurrounded(i: Expr, product: bool)
    requires WellPrinted(i)
    ensures var ts := Marked(Paren(i), product);
            |ts| >= 2 && Surrounded(ts) == Some(true) && ts[1..|ts| - 1] == Marked(i, true)
  {
    var ts := Marked(Paren(i), product);
    assert ts[..|ts| - 1] == [Open] + Marked(i, true);
    NestingOfInner(i, true, 1);
    NestingWrapped(Marked(i, true), 0);
  }

  lemma BinIsNotSurrounded(op: Op, l: Expr, r: Expr, product: bool)
    requires WellPrinted(l) && WellPrinted(r)
    ensures var ts := Marked(l, product) + [Infix(op)] + Marked(r, false);
            |ts| >= 2 && Surrounded(ts) == Some(false)
  {
    MarkedSize(l, product);
    MarkedSize(r, false);
    if Marked(l, product)[0] == Open { NestingReturns(l, product); }
    NotSurrounded(Marked(l, product), Infix(op), Marked(r, false));
  }

  lemma NotSurrounded(a: seq<Token>, t: Token, b: seq<Token>)
    requires |a| >= 1 && |b| >= 1 && (a[0] == Open ==> Nesting(a, 0) == None)
    ensures Surrounded(a + [t] + b) == Some(false)
  {
    DropLast(a, t, b);
    NestingAppend(a, [t] + b[..|b| - 1], 0);
  }

  lemma DropLast(a: seq<Token>, t: Token, b: seq<Token>)
    requires |a| >= 1 && |b| >= 1
    ensures var ts := a + [t] + b;
            ts[0] == a[0] && ts[..|ts| - 1] == a + ([t] + b[..|b| - 1])
  {
    var n := |b| - 1;
    assert b == b[..n] + [b[n]];
    assert a + [t] + b == a + ([t] + b[..n]) + [b[n]];
  }

  // ----- the main operator -----

  lemma ScanAround(a: seq<Token>, t: Token, b: seq<Token>, k: nat, st: Scan)
    ensures ScanAll(a + [t] + b, k, st) == ScanAll(b, k + |a| + 1, Scan1(t, k + |a|, ScanAll(a, k, st)))
  {
    ScanAppend(a + [t], b, k, st);
    ScanLast(a, t, k, st);
  }

  lemma ScanParen(i: Expr, k: nat, st: Scan)
    requires WellPrinted(i)
    ensures var st1 := ScanAll(Marked(i, true), k + 1, Scan1(Open, k, st));
            forall product :: ScanAll(Marked(Paren(i), product), k, st) == Scan1(Close, k + 1 + |Marked(i, true)|, st1)
  {
    ScanLast([Open] + Marked(i, true), Close, k, st);
    ScanFirst(Open, Marked(i, true), k, st);
  }

  /** Inside parentheses nothing is considered. */
  lemma {:induction false} ScanInner(e: Expr, product: bool, k: nat, st: Scan)
    requires WellPrinted(e) && st.cnt >= 1
    ensures ScanAll(Marked(e, product), k, st) == st
  {
    match e
    case Atom(s) => AtomIsOperand(s); ScanOne(AtomToken(s), k, st);
    case Paren(i) =>
      ScanParen(i, k, st);
      ScanInner(i, true, k + 1, st.(cnt := st.cnt + 1));
    case Star(a) =>
      ScanFirst(if product then Infix(Mul) else Deref, Marked(a, false), k, st);
      ScanInner(a, false, k + 1, st);
    case Bin(op, l, r) =>
      ScanInner(l, product, k, st);
      ScanInner(r, false, k + |Marked(l, product)| + 1, st);
      InnerAround(Marked(l, product), op, Marked(r, false), k, st);
  }

  lemma InnerAround(a: seq<Token>, op: Op, b: seq<Token>, k: nat, st: Scan)
    requires st.cnt >= 1 && ScanAll(a, k, st) == st && ScanAll(b, k + |a| + 1, st) == st
    ensures ScanAll(a + [Infix(op)] + b, k, st) == st
  {
    ScanAround(a, Infix(op), b, k, st);
  }

  /** The level at which a tree competes for the main operator. */
  function MarkedLevel(e: Expr, product: bool): nat { if e.Star? && product then 5 else Level(e) }

  /** Outside parentheses, an expression is passed over when something binds less tightly already,
      and otherwise leaves its own level or a looser one. */
  lemma {:induction false} ScanOuter(e: Expr, product: bool, k: nat, st: Scan)
    requires WellPrinted(e) && st.cnt == 0
    ensures Outer(Marked(e, product), MarkedLevel(e, product), k, st)
  {
    match e
    case Atom(s) => AtomIsOperand(s); ScanOne(AtomToken(s), k, st);
    case Paren(i) =>
      ScanParen(i, k, st);
      ScanInner(i, true, k + 1, Scan1(Open, k, st));
    case Star(a) =>
      var t := if product then Infix(Mul) else Deref;
      ScanFirst(t, Marked(a, false), k, st);
      ScanOuter(a, false, k + 1, Scan1(t, k, st));
    case Bin(op, l, r) =>
      var a, b := Marked(l, product), Marked(r, false);
      ScanOuter(l, product, k, st);
      ScanOuter(r, false, k + |a| + 1, Scan1(Infix(op), k + |a|, ScanAll(a, k, st)));
      OuterAround(a, op, b, k, st, MarkedLevel(l, product), MarkedLevel(r, false));
  }

  /** What ScanOuter says of a list of tokens at a level. */
  predicate Outer(ts: seq<Token>, level: nat, k: nat, st: Scan) {
    var r := ScanAll(ts, k, st);
    r.cnt == 0 && (st.best < level ==> r == st) && (st.best >= level ==> r.best >= level)
  }

  lemma OuterAround(a: seq<Token>, op: Op, b: seq<Token>, k: nat, st: Scan, la: nat, lb: nat)
    requires st.cnt == 0 && la >= PrecOf(op) && lb > PrecOf(op) && Outer(a, la, k, st)
    requires Outer(b, lb, k + |a| + 1, Scan1(Infix(op), k + |a|, ScanAll(a, k, st)))
    ensures Outer(a + [Infix(op)] + b, PrecOf(op), k, st)
  {
    ScanAround(a, Infix(op), b, k, st);
  }

  lemma RootIsChosen(op: Op, l: Expr, r: Expr, product: bool)
    requires WellPrinted(Bin(op, l, r))
    ensures var ts := Marked(l, product) + [Infix(op)] + Marked(r, false);
            ScanAll(ts, 0, START) == Scan(0, PrecOf(op), |Marked(l, product)|)
  {
    var a, b := Marked(l, product), Marked(r, false);
    ScanOuter(l, product, 0, START);
    ScanOuter(r, false, |a| + 1, Scan(0, PrecOf(op), |a|));
    RootAround(a, op, b, MarkedLevel(l, product), MarkedLevel(r, false));
  }

  lemma RootAround(a: seq<Token>, op: Op, b: seq<Token>, la: nat, lb: nat)
    requires la >= PrecOf(op) && lb > PrecOf(op) && la <= 7 && Outer(a, la, 0, START)
    requires Outer(b, lb, |a| + 1, Scan(0, PrecOf(op), |a|))
    ensures ScanAll(a + [Infix(op)] + b, 0, START) == Scan(0, PrecOf(op), |a|)
  {
    ScanAround(a, Infix(op), b, 0, START);
    assert Scan1(Infix(op), |a|, ScanAll(a, 0, START)) == Scan(0, PrecOf(op), |a|);
  }

  /** The main operator of a printed tree is the operator at its root. */
  lemma MainOpIsRoot(op: Op, l: Expr, r: Expr, product: bool)
    requires WellPrinted(Bin(op, l, r))
    ensures var ts := Marked(l, product) + [Infix(op)] + Marked(r, false);
            ts != [] && MainOp(ts) == |Marked(l, product)|
  {
    RootIsChosen(op, l, r, product);
  }

  // ----- evaluation -----

  lemma CutAround(a: seq<Token>, t: Token, b: seq<Token>)
    ensures var ts := a + [t] + b;
            ts[|a|] == t && ts[..|a|] == a && ts[|a| + 1..] == b
  {}

  lemma EvalBin(env: Env, op: Op, l: Expr, r: Expr, product: bool)
    requires WellPrinted(Bin(op, l, r))
    ensures Eval(env, Marked(Bin(op, l, r), product))
         == Combine(env, Infix(op), Eval(env, Marked(l, product)), Eval(env, Marked(r, false)))
  {
    var a, b := Marked(l, product), Marked(r, false);
    BinIsNotSurrounded(op, l, r, product);
    MainOpIsRoot(op, l, r, product);
    EvalIs(env, a + [Infix(op)] + b);
    CutAround(a, Infix(op), b);
  }

  /** A leading * is the main operator: a dereference, or a product whose left operand is missing. */
  lemma EvalStar(env: Env, a: Expr, product: bool)
    requires WellPrinted(Star(a))
    ensures Eval(env, Marked(Star(a), product))
         == if product then Panic else Combine(env, Deref, Panic, Eval(env, Marked(a, false)))
  {
    var t, ts := if product then Infix(Mul) else Deref, Marked(a, false);
    var all := [t] + ts;
    MarkedSize(a, false);
    ScanFirst(t, ts, 0, START);
    ScanOuter(a, false, 1, Scan1(t, 0, START));
    assert MainOp(all) == 0 && all[1..] == ts && all[..0] == [];
    EvalIs(env, all);
    EvalIs(env, []);
  }

  /** A unary * stands directly after '('. */
  predicate StarAfterParen(e: Expr, product: bool) {
    match e
    case Atom(_) => false
    case Paren(i) => StarAfterParen(i, true)
    case Star(a) => product || StarAfterParen(a, false)
    case Bin(_, l, r) => StarAfterParen(l, product) || StarAfterParen(r, false)
  }

  /** What the evaluator panics on. */
  predicate Stuck(e: Expr, product: bool) { HasLess(e) || StarAfterParen(e, product) }

  lemma {:induction false} EvalMarked(env: Env, e: Expr, product: bool)
    requires WellPrinted(e)
    ensures Eval(env, Marked(e, product)) == if Stuck(e, product) then Panic else Value(Meaning(env, e))
  {
    match e
    case Atom(s) => EvalIs(env, Marked(e, product));
    case Paren(i) =>
      ParenIsSurrounded(i, product);
      EvalIs(env, Marked(e, product));
      EvalMarked(env, i, true);
    case Star(a) =>
      EvalStar(env, a, product);
      EvalMarked(env, a, false);
    case Bin(op, l, r) =>
      EvalBin(env, op, l, r, product);
      EvalMarked(env, l, product);
      EvalMarked(env, r, false);
  }

  /** Evaluating the text of an expression, with any spaces between its tokens, yields the value of the
      tree, except that '<' and a unary * directly after '(' always panic. */
  lemma EvalPrinted(env: Env, e: Expr, g: Gaps)
    requires WellPrinted(e)
    ensures Evaluate(env, Spaced(e, g)) == Some(if Stuck(e, false) then Panic else Value(Meaning(env, e)))
  {
    SpacedLexes(e, g, None);
    EvalMarked(env, e, false);
  }

  /** The exact condition. */
  lemma EvalPrintedExact(e: Expr, g: Gaps)
    requires WellPrinted(e) && !HasLess(e)
    ensures (forall env: Env :: Evaluate(env, Spaced(e, g)) == Some(Value(Meaning(env, e))))
            <==> !StarAfterParen(e, false)
  {
    if StarAfterParen(e, false) {
      var env: Env := Env(0, map[], map[]);
      EvalPrinted(env, e, g);
      assert Evaluate(env, Spaced(e, g)) != Some(Value(Meaning(env, e)));
    } else {
      forall env: Env ensures Evaluate(env, Spaced(e, g)) == Some(Value(Meaning(env, e))) {
        EvalPrinted(env, e, g);
      }
    }
  }

  /** '>' evaluates to the opposite comparison, and '<' panics. */
  lemma Comparisons(env: Env, l: Expr, r: Expr, g: Gaps)
    requires WellPrinted(l) && WellPrinted(r) && Level(l) >= 3 && Level(r) > 3
    ensures Evaluate(env, Spaced(Bin(Lt, l, r), g)) == Some(Panic)
    ensures Evaluate(env, Spaced(Bin(Gt, l, r), g))
         == Some(if Stuck(l, false) || Stuck(r, false) then Panic
                 else Value(if Meaning(env, l) <= Meaning(env, r) then 1 else 0))
  {
    EvalPrinted(env, Bin(Lt, l, r), g);
    EvalPrinted(env, Bin(Gt, l, r), g);
    if !Stuck(l, false) && !Stuck(r, false) { ApplyIs(Gt, Meaning(env, l), Meaning(env, r)); }
  }

  /** (*x) panics for every literal x. */
  lemma StarInParens(env: Env, s: string)
    requires IsAtom(s)
    ensures Evaluate(env, "(*" + s + ")") == Some(Panic)
  {
    var star := Star(Atom(s));
    assert WellPrinted(Atom(s)) && Level(Atom(s)) == 7;
    assert WellPrinted(star);
    assert Text(star) == "*" + Text(Atom(s));
    var e := Paren(star);
    assert Text(e) == "(" + Text(star) + ")";
    StarText(s);
    assert StarAfterParen(star, true);
    SpacedNothing(e);
    EvalPrinted(env, e, NO_GAPS);
  }

  lemma StarText(s: string)
    ensures "(" + ("*" + s) + ")" == "(*" + s + ")"
  {
    assert "(*" == "(" + "*";
    assert "(" + ("*" + s) == "(*" + s;
  }

  /** The second of two stars is taken for a product, whose left operand, a lone star, counts as zero:
      **x is 0 for every literal x, whatever memory holds. */
  lemma TwoStars(env: Env, s: string)
    requires IsAtom(s)
    ensures Evaluate(env, "**" + s) == Some(Value(0))
  {
    var x := AtomToken(s);
    AtomIsOperand(s);
    assert s + "" == s;
    LexAtom(s, "", Some(Infix(Mul)));
    LexIs("", Some(x));
    LexSymbol('*', s, Some(Deref));
    LexSymbol('*', "*" + s, None);
    assert "**" + s == "*" + ("*" + s);
    JoinTwice([Infix(Mul)], [x], Tokens([]));
    JoinTwice([Deref], [Infix(Mul), x], Tokens([]));
    var ts := [Deref] + [Infix(Mul)] + [x];
    assert Lex("**" + s, None) == Tokens(ts);
    ProductAfterStar(env, x);
  }

  lemma ProductAfterStar(env: Env, x: Token)
    requires x.Number? || x.Register?
    ensures Eval(env, [Deref] + [Infix(Mul)] + [x]) == Value(0)
  {
    var ts := [Deref] + [Infix(Mul)] + [x];
    ScanAround([Deref], Infix(Mul), [x], 0, START);
    ScanOne(Deref, 0, START);
    ScanOne(x, 2, Scan(0, 5, 1));
    assert MainOp(ts) == 1;
    CutAround([Deref], Infix(Mul), [x]);
    EvalIs(env, ts);
    EvalIs(env, [Deref]);
    EvalIs(env, [x]);
    ApplyIs(Mul, 0, Leaf(env, x));
  }
}
