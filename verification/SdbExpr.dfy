/** The debugger's expression evaluator on token lists (nemu/src/monitor/sdb/expr.c:203-305). */
module SdbExpr {
  import opened Options
  import opened Strtol
  import opened SdbLex

  const W: int := 0x1_0000_0000
  type Word = w: int | 0 <= w < 0x1_0000_0000

  datatype Outcome = Value(v: Word) | Panic

  /** Registers by name, and memory words by address. */
  datatype Env = Env(pc: Word, regs: map<string, Word>, mem: map<Word, Word>)

  // ----- numbers: (uint32_t)strtol(text, NULL, 0) -----

  function DigitPrefix(s: string, base: nat): string {
    if s == [] || Digit(s[0]) >= base then [] else [s[0]] + DigitPrefix(s[1..], base)
  }

  function ParseNumber(s: string): Word {
    var (digits, base) :=
      if |s| >= 3 && s[0] == '0' && (s[1] == 'x' || s[1] == 'X') && Digit(s[2]) < 16 then (s[2..], 16)
      else if s != [] && s[0] == '0' then (s, 8) else (s, 10);
    var v := DigitsValue(DigitPrefix(digits, base), base);
    (if v < TWO_63 then v else TWO_63 - 1) % 0x1_0000_0000
  }

  function Leaf(env: Env, t: Token): Word {
    match t
    case Number(text) => ParseNumber(text)
    case Register(text) =>
      if text == "pc" then env.pc else if text in env.regs then env.regs[text] else 0
    case _ => 0
  }

  // ----- check_parentheses -----

  function Nest(t: Token): int { if t == Open then 1 else if t == Close then -1 else 0 }

  /** The counter after all but the last token, or None once it has returned to zero. */
  function Nesting(ts: seq<Token>, cnt: int): Option<int> {
    if ts == [] then Some(cnt)
    else
      var c := cnt + Nest(ts[0]);
      if c == 0 then None else Nesting(ts[1..], c)
  }

  /** None stands for the panic. */
  function Surrounded(ts: seq<Token>): Option<bool>
    requires |ts| >= 2
  {
    if ts[0] != Open || ts[|ts| - 1] != Close then Some(false)
    else match Nesting(ts[..|ts| - 1], 0)
      case None => Some(false)
      case Some(c) => if c == 1 then Some(true) else None
  }

  lemma {:induction false} NestingAppend(a: seq<Token>, b: seq<Token>, cnt: int)
    ensures Nesting(a + b, cnt) == (match Nesting(a, cnt) case None => None case Some(c) => Nesting(b, c))
  {
    if a == [] {
      assert a + b == b;
    } else {
      assert (a + b)[1..] == a[1..] + b;
      NestingAppend(a[1..], b, cnt + Nest(a[0]));
    }
  }

  method CheckParentheses(tokens: seq<Token>, p: nat, q: nat) returns (r: Option<bool>)
    requires p < q < |tokens|
    ensures r == Surrounded(tokens[p..q + 1])
  {
    ghost var ts := tokens[p..q + 1];
    if tokens[p] != Open || tokens[q] != Close {
      return Some(false);
    }
    var cnt := 0;
    var i := p;
    assert ts[..|ts| - 1] == tokens[p..q];
    while i < q
      invariant p <= i <= q
      invariant Nesting(ts[..|ts| - 1], 0) == Nesting(tokens[i..q], cnt)
    {
      var c := cnt + (if tokens[i] == Open then 1 else 0) - (if tokens[i] == Close then 1 else 0);
      assert tokens[i..q][0] == tokens[i] && tokens[i..q][1..] == tokens[i + 1..q];
      if c == 0 {
        return Some(false);
      }
      cnt := c;
      i := i + 1;
    }
    if cnt == 1 {
      return Some(true);
    } else {
      return None;
    }
  }

  // ----- find_op_position -----

  datatype Scan = Scan(cnt: int, best: nat, position: nat)

  function Scan1(t: Token, k: nat, st: Scan): Scan {
    var s1 := if st.cnt == 0 && Prec(t) <= st.best then st.(best := Prec(t), position := k) else st;
    s1.(cnt := s1.cnt + Nest(t))
  }

  function ScanAll(ts: seq<Token>, k: nat, st: Scan): Scan {
    if ts == [] then st else ScanAll(ts[1..], k + 1, Scan1(ts[0], k, st))
  }

  lemma {:induction false} ScanAppend(a: seq<Token>, b: seq<Token>, k: nat, st: Scan)
    ensures ScanAll(a + b, k, st) == ScanAll(b, k + |a|, ScanAll(a, k, st))
  {
    if a == [] {
      assert a + b == b;
    } else {
      assert (a + b)[1..] == a[1..] + b;
      ScanAppend(a[1..], b, k + 1, Scan1(a[0], k, st));
    }
  }

  lemma ScanOne(t: Token, k: nat, st: Scan)
    ensures ScanAll([t], k, st) == Scan1(t, k, st)
  {
    assert ScanAll([t][1..], k + 1, Scan1(t, k, st)) == Scan1(t, k, st);
  }

  lemma ScanLast(a: seq<Token>, t: Token, k: nat, st: Scan)
    ensures ScanAll(a + [t], k, st) == Scan1(t, k + |a|, ScanAll(a, k, st))
  {
    ScanAppend(a, [t], k, st);
    ScanOne(t, k + |a|, ScanAll(a, k, st));
  }

  lemma ScanFirst(t: Token, a: seq<Token>, k: nat, st: Scan)
    ensures ScanAll([t] + a, k, st) == ScanAll(a, k + 1, Scan1(t, k, st))
  {
    assert ([t] + a)[1..] == a;
  }

  const START: Scan := Scan(0, 100, 0)

  /** How many parentheses are open behind the list. */
  function Depth(ts: seq<Token>): int {
    if ts == [] then 0 else Depth(ts[..|ts| - 1]) + Nest(ts[|ts| - 1])
  }

  predicate Outermost(ts: seq<Token>, i: nat)
    requires i < |ts|
  {
    Depth(ts[..i]) == 0
  }

  /** Among the tokens outside parentheses, k has the lowest precedence and is the last of those. */
  ghost predicate LastLowest(ts: seq<Token>, k: nat) {
    && k < |ts| && Outermost(ts, k)
    && (forall i :: 0 <= i < |ts| && Outermost(ts, i) ==> Prec(ts[k]) <= Prec(ts[i]))
    && (forall i :: k < i < |ts| && Outermost(ts, i) ==> Prec(ts[k]) < Prec(ts[i]))
  }

  lemma LastLowestIsOne(ts: seq<Token>, j: nat, k: nat)
    requires LastLowest(ts, j) && LastLowest(ts, k)
    ensures j == k
  {}

  lemma OutermostEarlier(a: seq<Token>, t: Token, i: nat)
    requires i < |a|
    ensures Outermost(a + [t], i) == Outermost(a, i)
  {
    assert (a + [t])[..i] == a[..i];
  }

  /** One more token, outside parentheses or not. */
  lemma LastLowestStep(a: seq<Token>, t: Token, k: nat)
    requires LastLowest(a, k)
    ensures var next := if Depth(a) == 0 && Prec(t) <= Prec(a[k]) then |a| else k;
            LastLowest(a + [t], next)
  {
    var ts := a + [t];
    assert ts[..|a|] == a;
    forall i | 0 <= i < |a| ensures Outermost(ts, i) == Outermost(a, i) && ts[i] == a[i] {
      OutermostEarlier(a, t, i);
    }
    forall i | 0 <= i < |ts| && Outermost(ts, i) ensures i == |a| || Prec(a[k]) <= Prec(ts[i]) {
      if i < |a| { assert Outermost(a, i); }
    }
  }

  lemma {:induction false} ScanMeaning(ts: seq<Token>)
    requires ts != []
    ensures var st := ScanAll(ts, 0, START);
            st.cnt == Depth(ts) && LastLowest(ts, st.position) && st.best == Prec(ts[st.position])
  {
    var a, t := ts[..|ts| - 1], ts[|ts| - 1];
    assert ts == a + [t];
    ScanLast(a, t, 0, START);
    if a == [] {
      assert ts == [t] && Depth([]) == 0 && ts[..0] == [];
    } else {
      ScanMeaning(a);
      LastLowestStep(a, t, ScanAll(a, 0, START).position);
    }
  }

  /** The main operator of the tokens from p to q: the last of lowest precedence outside parentheses. */
  method FindOpPosition(tokens: seq<Token>, p: nat, q: nat) returns (position: nat)
    requires p <= q < |tokens|
    ensures p <= position <= q && LastLowest(tokens[p..q + 1], position - p)
    ensures position == ScanAll(tokens[p..q + 1], p, START).position
  {
    position := ScanTokens(tokens, p, q);
    MainOpAt(tokens[p..q + 1], p);
    ScanMeaning(tokens[p..q + 1]);
  }

  /** The loop of find_op_position. */
  method ScanTokens(tokens: seq<Token>, p: nat, q: nat) returns (position: nat)
    requires p <= q < |tokens|
    ensures position == ScanAll(tokens[p..q + 1], p, START).position
  {
    var cnt, best := 0, 100;
    position := 0;
    var i := p;
    while i <= q
      invariant p <= i <= q + 1
      invariant ScanAll(tokens[p..q + 1], p, START) == ScanAll(tokens[i..q + 1], i, Scan(cnt, best, position))
    {
      assert tokens[i..q + 1][0] == tokens[i] && tokens[i..q + 1][1..] == tokens[i + 1..q + 1];
      if cnt == 0 {
        if Prec(tokens[i]) <= best {
          best := Prec(tokens[i]);
          position := i;
        }
      }
      if tokens[i] == Open { cnt := cnt + 1; }
      if tokens[i] == Close { cnt := cnt - 1; }
      i := i + 1;
    }
  }

  // ----- eval -----

  /** What the evaluator computes on uint32_t. '>' gives <=, and '<' is not among its cases. */
  function Operate(op: Op, x: Word, y: Word): Word
    requires op != Lt
  {
    match op
    case Add => (x + y) % 0x1_0000_0000
    case Sub => ((x as int) - (y as int)) % 0x1_0000_0000
    case Mul => (x * y) % 0x1_0000_0000
    case Div => Quotient(x, y)
    case Eq => if x == y then 1 else 0
    case Gt => if x <= y then 1 else 0
    case And => if x != 0 && y != 0 then 1 else 0
  }

  /** Operate, folded so that proofs about evaluation order do not compute with it. */
  function Apply(op: Op, x: Word, y: Word): Word
    requires op != Lt
  {
    FoldedApply(op, x, y, 1)
  }

  function FoldedApply(op: Op, x: Word, y: Word, folds: nat): Word
    requires op != Lt
    decreases folds, x, y
  {
    if folds > 0 then FoldedApply(op, x, y, folds - 1) else Operate(op, x, y)
  }

  lemma ApplyIs(op: Op, x: Word, y: Word)
    requires op != Lt
    ensures Apply(op, x, y) == Operate(op, x, y)
  {
    assert FoldedApply(op, x, y, 1) == FoldedApply(op, x, y, 0);
  }

  /** Division by zero yields the dividend. */
  function Quotient(x: Word, y: Word): Word {
    if y == 0 then x else
      QuotientBound(x, y, x / y);
      x / y
  }

  lemma QuotientBound(x: nat, y: nat, d: nat)
    requires y > 0 && d == x / y
    ensures d <= x
  {
    DivTimes(x, y);
    Grows(d, y);
  }

  lemma DivTimes(x: nat, y: nat)
    requires y > 0
    ensures (x / y) * y <= x
  {}

  lemma Grows(d: nat, y: nat)
    requires y > 0
    ensures d <= d * y
  {}

  /** The index of the main operator of a list. */
  function MainOp(ts: seq<Token>): (k: nat)
    requires ts != []
    ensures k < |ts|
  {
    ScanMeaning(ts);
    ScanAll(ts, 0, START).position
  }

  lemma MainOpIsBest(ts: seq<Token>)
    requires ts != []
    ensures Prec(ts[MainOp(ts)]) == ScanAll(ts, 0, START).best
  {
    ScanMeaning(ts);
  }

  function Combine(env: Env, t: Token, x: Outcome, y: Outcome): Outcome {
    if t == Deref then (if y.Panic? then Panic else Value(if y.v in env.mem then env.mem[y.v] else 0))
    else if x.Panic? || y.Panic? then Panic
    else if t.Infix? && t.op != Lt then Value(Apply(t.op, x.v, y.v))
    else Panic
  }

  /** One level of the evaluator, on lists of any length. */
  function EvalOnce(env: Env, ts: seq<Token>): Outcome
    decreases |ts|, 0
  {
    if ts == [] then Panic
    else if |ts| == 1 then Value(Leaf(env, ts[0]))
    else match Surrounded(ts)
      case None => Panic
      case Some(true) => Eval(env, ts[1..|ts| - 1])
      case Some(false) =>
        var k := MainOp(ts);
        Combine(env, ts[k], if ts[k] == Deref then Panic else Eval(env, ts[..k]), Eval(env, ts[k + 1..]))
  }

  /** eval(p, q) on the tokens from p to q, folded like Apply. */
  function Eval(env: Env, ts: seq<Token>): Outcome
    decreases |ts|, 3
  {
    FoldedEval(env, ts, 1)
  }

  function FoldedEval(env: Env, ts: seq<Token>, folds: nat): Outcome
    requires folds <= 1
    decreases |ts|, 1 + folds
  {
    if folds > 0 then FoldedEval(env, ts, folds - 1) else EvalOnce(env, ts)
  }

  lemma EvalIs(env: Env, ts: seq<Token>)
    ensures Eval(env, ts) == EvalOnce(env, ts)
  {
    assert FoldedEval(env, ts, 1) == FoldedEval(env, ts, 0);
  }

  lemma {:induction false} ScanShift(ts: seq<Token>, k: nat, d: nat, st: Scan)
    ensures ScanAll(ts, k + d, st.(position := st.position + d))
            == ScanAll(ts, k, st).(position := ScanAll(ts, k, st).position + d)
  {
    if ts != [] {
      ScanShift(ts[1..], k + 1, d, Scan1(ts[0], k, st));
    }
  }

  /** Where the list starts in the token array does not matter. */
  lemma MainOpAt(ts: seq<Token>, p: nat)
    requires ts != []
    ensures ScanAll(ts, p, START).position == p + MainOp(ts)
  {
    ScanShift(ts[1..], 1, p, Scan1(ts[0], 0, START));
  }

  lemma EvalInside(env: Env, tokens: seq<Token>, p: nat, q: nat)
    requires p < q < |tokens|
    ensures Surrounded(tokens[p..q + 1]) == None ==> Eval(env, tokens[p..q + 1]) == Panic
    ensures Surrounded(tokens[p..q + 1]) == Some(true) ==> Eval(env, tokens[p..q + 1]) == Eval(env, tokens[p + 1..q])
  {
    EvalIs(env, tokens[p..q + 1]);
    SplitInside(tokens, p, q);
  }

  lemma SplitInside(tokens: seq<Token>, p: nat, q: nat)
    requires p < q < |tokens|
    ensures var ts := tokens[p..q + 1]; |ts| >= 2 && ts[1..|ts| - 1] == tokens[p + 1..q]
  {
    var ts, inner := tokens[p..q + 1], tokens[p + 1..q];
    assert ts == [tokens[p]] + inner + [tokens[q]];
  }

  lemma EvalAround(env: Env, tokens: seq<Token>, p: nat, q: nat, k: int)
    requires p < q < |tokens| && Surrounded(tokens[p..q + 1]) == Some(false)
    requires k == ScanAll(tokens[p..q + 1], p, START).position
    ensures p <= k <= q
    ensures Eval(env, tokens[p..q + 1])
         == Combine(env, tokens[k], if tokens[k] == Deref then Panic else Eval(env, tokens[p..k]),
                    Eval(env, tokens[k + 1..q + 1]))
  {
    MainOpAt(tokens[p..q + 1], p);
    EvalIs(env, tokens[p..q + 1]);
    SplitAround(tokens, p, q, k);
  }

  lemma SplitAround(tokens: seq<Token>, p: nat, q: nat, k: nat)
    requires p <= k <= q < |tokens|
    ensures var ts := tokens[p..q + 1];
            ts[k - p] == tokens[k] && ts[..k - p] == tokens[p..k] && ts[k - p + 1..] == tokens[k + 1..q + 1]
  {
    var ts := tokens[p..q + 1];
    assert ts == tokens[p..k] + [tokens[k]] + tokens[k + 1..q + 1];
  }

  /** The recursive evaluator over the token array. */
  method EvalTokens(env: Env, tokens: seq<Token>, p: int, q: int) returns (r: Outcome)
    requires 0 <= p <= q + 1 <= |tokens|
    ensures r == Eval(env, tokens[p..q + 1])
    decreases q - p + 1
  {
    if q <= p {
      EvalIs(env, tokens[p..q + 1]);
      return if p > q then Panic else Value(Leaf(env, tokens[p]));
    }
    var wrapped := CheckParentheses(tokens, p, q);
    EvalInside(env, tokens, p, q);
    if wrapped == None {
      return Panic;
    }
    if wrapped == Some(true) {
      r := EvalTokens(env, tokens, p + 1, q - 1);
      assert q - 1 + 1 == q;
      return;
    }
    var k: int := FindOpPosition(tokens, p, q);
    EvalAround(env, tokens, p, q, k);
    var x := Panic;
    if tokens[k] != Deref {
      x := EvalTokens(env, tokens, p, k - 1);
      assert k - 1 + 1 == k;
    }
    var y := EvalTokens(env, tokens, k + 1, q);
    r := Combine(env, tokens[k], x, y);
  }

  /** expr(): None when the text has no tokens. */
  function Evaluate(env: Env, text: string): Option<Outcome> {
    match Lex(text, None)
    case NoMatch => None
    case TooLong => Some(Panic)
    case Tokens(ts) => Some(Eval(env, ts))
  }

  method EvaluateText(env: Env, text: string) returns (r: Option<Outcome>)
    ensures r == Evaluate(env, text)
  {
    var lexed := MakeToken(text);
    if lexed.NoMatch? {
      return None;
    }
    if lexed.TooLong? {
      return Some(Panic);
    }
    var v := EvalTokens(env, lexed.ts, 0, |lexed.ts| - 1);
    assert lexed.ts[0..|lexed.ts|] == lexed.ts;
    return Some(v);
  }
}
