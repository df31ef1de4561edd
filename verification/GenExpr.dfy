/** The generator of random test expressions (nemu/tools/gen-expr/gen-expr.c:36-128). It prints an
    expression while it computes the expected value. */
module GenExpr {
  import opened Options
  import opened Strtol
  import opened SdbLex
  import opened SdbExpr
  import opened SdbPrint

  // ----- decimal digits -----

  function Tenths(n: nat, k: nat): nat
    decreases k
  {
    if k == 0 then n else Tenths(n, k - 1) / 10
  }

  function DigitChar(d: nat): char
    requires d < 10
  {
    ('0' as int + d) as char
  }

  /** The decimal digits of a number; zero has none. */
  function Decimal(n: nat): string {
    if n == 0 then [] else Decimal(n / 10) + [DigitChar(n % 10)]
  }

  lemma {:induction false} TenthsTenth(n: nat, k: nat)
    ensures Tenths(n / 10, k) == Tenths(n, k + 1)
  {
    if k > 0 { TenthsTenth(n, k - 1); }
  }

  method CntNum(num: nat) returns (cnt: nat)
    ensures Tenths(num, cnt) == 0
    ensures cnt > 0 ==> Tenths(num, cnt - 1) > 0
  {
    cnt := 0;
    var n := num;
    while n != 0
      invariant n == Tenths(num, cnt)
      invariant cnt > 0 ==> Tenths(num, cnt - 1) > 0
      decreases n
    {
      cnt := cnt + 1;
      n := n / 10;
    }
  }

  /** Cutting off k digits of a number that has more than k. */
  lemma {:induction false} TenthsPositive(n: nat, k: nat, m: nat)
    requires k <= m && Tenths(n, m) > 0
    ensures Tenths(n, k) > 0
    decreases m
  {
    if k < m { TenthsPositive(n, k, m - 1); }
  }

  /** The digits of num, most significant first. */
  method PrintNum(num: nat) returns (text: string)
    ensures text == Decimal(num)
  {
    var cnt := CntNum(num);
    text := [];
    var i: int := (cnt as int) - 1;
    while i >= 0
      invariant -1 <= i < cnt
      invariant text == Decimal(Tenths(num, i + 1))
    {
      var tmp := num;
      for j := 0 to i
        invariant tmp == Tenths(num, j)
      {
        tmp := tmp / 10;
      }
      TenthsPositive(num, i, cnt - 1);
      text := text + [DigitChar(tmp % 10)];
      i := i - 1;
    }
  }

  // ----- reading the digits back -----

  lemma DigitOfChar(d: nat)
    requires d < 10
    ensures Digit(DigitChar(d)) == d
  {}

  predicate DecimalDigits(s: string) { forall i :: 0 <= i < |s| ==> Digit(s[i]) < 10 }

  lemma {:induction false} DecimalReads(n: nat)
    ensures DigitsValue(Decimal(n), 10) == n && DecimalDigits(Decimal(n))
    ensures n > 0 ==> Decimal(n) != [] && Decimal(n)[0] != '0'
  {
    if n > 0 {
      DecimalReads(n / 10);
      DigitOfChar(n % 10);
      var s := Decimal(n);
      assert s[..|s| - 1] == Decimal(n / 10);
    }
  }

  lemma {:induction false} WholePrefix(s: string)
    requires DecimalDigits(s)
    ensures DigitPrefix(s, 10) == s
  {
    if s != [] { WholePrefix(s[1..]); }
  }

  /** A printed literal is read back as the number, provided that it is not zero. */
  lemma NumberRoundTrip(n: nat)
    requires 0 < n < 1_000_000
    ensures ParseNumber(Decimal(n)) == n
  {
    DecimalReads(n);
    DecimalParses(Decimal(n));
  }

  lemma DecimalParses(s: string)
    requires s != [] && s[0] != '0' && DecimalDigits(s) && DigitsValue(s, 10) < W
    ensures ParseNumber(s) == DigitsValue(s, 10)
  {
    WholePrefix(s);
  }

  // ----- literals -----

  lemma {:induction false} DecimalLength(n: nat, k: nat)
    requires Tenths(n, k) == 0
    ensures |Decimal(n)| <= k
  {
    if k > 0 && n > 0 {
      TenthsTenth(n, k - 1);
      DecimalLength(n / 10, k - 1);
    }
  }

  lemma SixDigits(n: nat)
    requires n < 1_000_000
    ensures |Decimal(n)| <= 6
  {
    assert Tenths(n, 0) < 1_000_000 && Tenths(n, 1) < 100_000 && Tenths(n, 2) < 10_000;
    assert Tenths(n, 3) < 1_000 && Tenths(n, 4) < 100 && Tenths(n, 5) < 10 && Tenths(n, 6) == 0;
    DecimalLength(n, 6);
  }

  lemma {:induction false} RunOfDigits(s: string)
    requires DecimalDigits(s) && forall i :: 0 <= i < |s| ==> '0' <= s[i] <= '9'
    ensures Run(Digits, s + "u") == |s| && Run(Digits, s) == |s|
  {
    if s == [] {
      assert s + "u" == "u";
    } else {
      assert (s + "u")[1..] == s[1..] + "u";
      RunOfDigits(s[1..]);
    }
  }

  lemma {:induction false} DecimalChars(n: nat)
    ensures forall i :: 0 <= i < |Decimal(n)| ==> '0' <= Decimal(n)[i] <= '9'
  {
    if n > 0 { DecimalChars(n / 10); }
  }

  lemma DigitsAndU(d: string)
    requires 0 < |d| < 31 && d[0] != '0' && DecimalDigits(d) && forall i :: 0 <= i < |d| ==> '0' <= d[i] <= '9'
    ensures IsAtom(d + "u") && AtomToken(d + "u") == Number(d)
  {
    var s := d + "u";
    RunOfDigits(d);
    assert HexLength(s) == 0 && DecLength(s) == |s|;
    assert RuleAt(s) == Some((Dec, |s|));
    assert s[|s| - 1] == 'u' && s[..|s| - 1] == d;
    assert Copied(d) == d;
  }

  /** A printed literal other than zero is one token, read as the number. */
  lemma LiteralIsAtom(n: nat)
    requires 0 < n < 1_000_000
    ensures var s := Decimal(n) + "u";
            IsAtom(s) && AtomToken(s) == Number(Decimal(n)) && forall env: Env :: Leaf(env, AtomToken(s)) == n
  {
    SixDigits(n);
    DecimalReads(n);
    DecimalChars(n);
    DigitsAndU(Decimal(n));
    NumberRoundTrip(n);
  }

  lemma OneIsAtom()
    ensures IsAtom("1") && forall env: Env :: Leaf(env, AtomToken("1")) == 1
  {
    RunOfDigits("1");
    assert HexLength("1") == 0 && DecLength("1") == 1;
    assert AtomToken("1") == Number("1");
    assert DigitsValue("1", 10) == 1;
    DecimalParses("1");
  }

  // ----- what is printed -----

  predicate Arithmetic(op: Op) { op == Add || op == Sub || op == Mul || op == Div }

  /** What the generator prints: literals, and operations on parenthesised operands, except that a
      divisor may be a bare 1. */
  ghost predicate Generated(e: Expr) {
    match e
    case Atom(s) => exists n: nat :: n < 1_000_000 && s == Decimal(n) + "u"
    case Bin(op, l, r) =>
      && l.Paren? && Generated(l.inner) && Arithmetic(op)
      && (r == Atom("1") || (r.Paren? && Generated(r.inner)))
    case _ => false
  }

  /** No literal of the tree is zero, which prints as a bare u. */
  predicate NoZero(e: Expr) {
    match e
    case Atom(s) => s != "u"
    case Paren(i) => NoZero(i)
    case Star(a) => NoZero(a)
    case Bin(_, l, r) => NoZero(l) && NoZero(r)
  }

  lemma LiteralCases(s: string) returns (n: nat)
    requires exists n: nat :: n < 1_000_000 && s == Decimal(n) + "u"
    ensures n < 1_000_000 && s == Decimal(n) + "u" && (s == "u" <==> n == 0)
  {
    n :| n < 1_000_000 && s == Decimal(n) + "u";
    if n > 0 { DecimalReads(n); }
  }

  lemma {:induction false} GeneratedIsWellPrinted(e: Expr)
    requires Generated(e) && NoZero(e)
    ensures WellPrinted(e) && !Stuck(e, false) && !Stuck(e, true)
  {
    match e
    case Atom(s) =>
      var n := LiteralCases(s);
      LiteralIsAtom(n);
    case Bin(_, l, r) =>
      GeneratedIsWellPrinted(l.inner);
      if r.Paren? { GeneratedIsWellPrinted(r.inner); } else { OneIsAtom(); }
      assert !HasLess(l) && !HasLess(r) && !StarAfterParen(l, false) && !StarAfterParen(l, true)
          && !StarAfterParen(r, false);
  }

  // ----- zero literals -----

  lemma BareU(rest: string, prev: Option<Token>)
    ensures Lex("u" + rest, prev) == NoMatch
  {
    var s := "u" + rest;
    assert s[0] == 'u' && Run(Digits, s) == 0;
    assert RuleAt(s) == None;
    LexIs(s, prev);
  }

  /** A zero literal anywhere in the output stops the lexer. */
  lemma {:induction false} ZeroStopsLexing(e: Expr, rest: string, prev: Option<Token>)
    requires Generated(e) && !NoZero(e) && Delimited(rest)
    ensures Lex(Text(e) + rest, prev) == NoMatch
  {
    match e
    case Atom(s) => BareU(rest, prev);
    case Bin(op, l, r) =>
      var tail := OpText(op) + (Text(r) + rest);
      assert Text(e) + rest == Text(l) + tail;
      if !NoZero(l.inner) {
        ZeroInParens(l.inner, tail, prev);
        ZeroStopsLexing(l.inner, ")" + tail, Some(Open));
      } else {
        GeneratedIsWellPrinted(l.inner);
        assert r.Paren? && (Text(r) + rest)[0] == '(';
        LexOp(op, Text(r) + rest, Close);
        LexText(l, tail, prev);
        ZeroInParens(r.inner, rest, Some(Infix(op)));
        ZeroStopsLexing(r.inner, ")" + rest, Some(Open));
      }
  }

  lemma ZeroInParens(i: Expr, rest: string, prev: Option<Token>)
    ensures Delimited(")" + rest)
    ensures Lex(Text(i) + (")" + rest), Some(Open)) == NoMatch ==> Lex(Text(Paren(i)) + rest, prev) == NoMatch
  {
    assert Text(Paren(i)) + rest == "(" + (Text(i) + (")" + rest));
    LexSymbol('(', Text(i) + (")" + rest), prev);
  }

  /** Every u has a digit before it; `digit` says whether one precedes s. */
  predicate NoBareU(s: string, digit: bool) {
    s == [] || ((s[0] == 'u' ==> digit) && NoBareU(s[1..], In(Digits, s[0])))
  }

  function EndsInDigit(s: string, digit: bool): bool { if s == [] then digit else In(Digits, s[|s| - 1]) }

  lemma {:induction false} NoBareUAppend(a: string, b: string, digit: bool)
    ensures NoBareU(a + b, digit) <==> NoBareU(a, digit) && NoBareU(b, EndsInDigit(a, digit))
  {
    if a == [] {
      assert a + b == b;
    } else {
      assert (a + b)[1..] == a[1..] + b;
      NoBareUAppend(a[1..], b, In(Digits, a[0]));
    }
  }

  lemma {:induction false} DigitsHaveNoU(s: string, digit: bool)
    requires forall i :: 0 <= i < |s| ==> '0' <= s[i] <= '9'
    ensures NoBareU(s, digit)
  {
    if s != [] { DigitsHaveNoU(s[1..], true); }
  }

  lemma NoBareUOne(c: char, digit: bool)
    ensures NoBareU([c], digit) <==> (c == 'u' ==> digit)
  {
    assert NoBareU([c][1..], In(Digits, c));
  }

  lemma LiteralShowsZero(n: nat)
    requires n < 1_000_000
    ensures NoBareU(Decimal(n) + "u", false) <==> n > 0
  {
    DecimalChars(n);
    if n > 0 { DecimalReads(n); }
    NoBareUAppend(Decimal(n), "u", false);
    DigitsHaveNoU(Decimal(n), false);
    NoBareUOne('u', EndsInDigit(Decimal(n), false));
  }

  lemma ParenShowsZero(i: Expr, digit: bool)
    ensures NoBareU(Text(Paren(i)), digit) <==> NoBareU(Text(i), false)
    ensures !EndsInDigit(Text(Paren(i)), digit)
  {
    NoBareUAppend("(" + Text(i), ")", digit);
    NoBareUAppend("(", Text(i), digit);
    NoBareUOne('(', digit);
    NoBareUOne(')', EndsInDigit("(" + Text(i), digit));
  }

  /** The output shows whether it holds a zero literal. */
  lemma {:induction false} TextShowsZero(e: Expr)
    requires Generated(e)
    ensures NoBareU(Text(e), false) <==> NoZero(e)
  {
    match e
    case Atom(s) =>
      var n := LiteralCases(s);
      LiteralShowsZero(n);
    case Bin(op, l, r) =>
      TextShowsZero(l.inner);
      ParenShowsZero(l.inner, false);
      NoBareUAppend(Text(l) + OpText(op), Text(r), false);
      NoBareUAppend(Text(l), OpText(op), false);
      NoBareUOne(OpText(op)[0], false);
      assert OpText(op) == [OpText(op)[0]];
      var d := EndsInDigit(Text(l) + OpText(op), false);
      if r.Paren? {
        TextShowsZero(r.inner);
        ParenShowsZero(r.inner, d);
      } else {
        NoBareUOne('1', d);
      }
  }

  // ----- the generator -----

  class Generator {
    var buf: string
    var cnt: nat

    constructor ()
      ensures buf == [] && cnt == 0
    {
      buf, cnt := [], 0;
    }

    /** The digits and a u. */
    method GenNum(ghost env: Env) returns (num: Word, ghost e: Expr)
      modifies this`buf
      ensures buf == old(buf) + Text(e) && Generated(e)
      ensures NoZero(e) ==> WellPrinted(e) && !HasLess(e) && Meaning(env, e) == num
    {
      var n: nat :| n < 1_000_000;
      num := n;
      var text := PrintNum(n);
      e := Atom(text + "u");
      buf := buf + text + "u";
      if n > 0 { LiteralIsAtom(n); }
    }

    method GenRandOp() returns (op: Op, ghost k: nat)
      modifies this`buf
      ensures k < 4 && op == [Add, Sub, Mul, Div][k] && buf == old(buf) + OpText(op)
    {
      var choice: nat :| choice < 4;
      k := choice;
      op := if choice == 0 then Add else if choice == 1 then Sub else if choice == 2 then Mul else Div;
      buf := buf + OpText(op);
    }

    /** The text appended is that of an expression, and the value returned is its value. */
    method GenRandExpr(ghost env: Env) returns (ret: Word, ghost e: Expr)
      modifies this
      ensures buf == old(buf) + Text(e) && Generated(e)
      ensures NoZero(e) ==> WellPrinted(e) && !HasLess(e) && Meaning(env, e) == ret
      ensures cnt > old(cnt)
      decreases 100 - cnt, 0
    {
      cnt := cnt + 1;
      if cnt >= 100 {
        ret, e := GenNum(env);
        return;
      }
      var choice: nat :| choice < 3;
      if choice == 0 {
        ret, e := GenNum(env);
      } else if choice == 1 {
        ret, e := GenRandExpr(env);
      } else {
        ret, e := GenOperation(env);
      }
    }

    /** '(', an expression and ')'. */
    method GenOperand(ghost env: Env) returns (ret: Word, ghost e: Expr)
      modifies this
      ensures e.Paren? && Generated(e.inner) && buf == old(buf) + Text(e)
      ensures NoZero(e) ==> WellPrinted(e) && !HasLess(e) && Meaning(env, e) == ret
      ensures cnt > old(cnt)
      decreases 100 - cnt, 1
    {
      ghost var before, i := buf, Atom("");
      buf := buf + "(";
      ret, i := GenRandExpr(env);
      buf := buf + ")";
      e := Paren(i);
      assert buf == before + Text(e);
    }

    method GenOperation(ghost env: Env) returns (ret: Word, ghost e: Expr)
      requires cnt < 100
      modifies this
      ensures buf == old(buf) + Text(e) && Generated(e)
      ensures NoZero(e) ==> WellPrinted(e) && !HasLess(e) && Meaning(env, e) == ret
      ensures cnt > old(cnt)
      decreases 100 - cnt, 2
    {
      ghost var before := buf;
      ghost var e3, e4;
      var ret3, ret4;
      ret3, e3 := GenOperand(env);
      var op;
      ghost var k;
      op, k := GenRandOp();
      var start := |buf|;
      ghost var prefix := buf;
      ret4, e4 := GenOperand(env);
      if op == Div && ret4 == 0 {
        buf := buf[..start] + "1";
        ret := ret3;
        e := Bin(op, e3, Atom("1"));
        assert buf == prefix + "1";
        if NoZero(e3) { DividedByOne(env, e3); }
      } else {
        ret := Apply(op, ret3, ret4);
        e := Bin(op, e3, e4);
      }
      assert buf == before + Text(e);
    }

    /** One round of the test tool: for all random choices, lexing and evaluating the output gives the
        generator's number if and only if no zero literal is left in it. */
    method Round(ghost env: Env) returns (ret: Word)
      modifies this
      ensures Evaluate(env, buf) == Some(Value(ret)) <==> NoBareU(buf, false)
    {
      buf, cnt := [], 0;
      ghost var e;
      ret, e := GenRandExpr(env);
      assert buf == Text(e);
      TextShowsZero(e);
      if NoZero(e) {
        GeneratedIsWellPrinted(e);
        SpacedNothing(e);
        EvalPrinted(env, e, NO_GAPS);
      } else {
        assert Text(e) + "" == Text(e);
        ZeroStopsLexing(e, "", None);
      }
    }
  }

  /** After the rewind the printed divisor is 1. */
  lemma DividedByOne(env: Env, e: Expr)
    requires WellPrinted(e) && !HasLess(e) && Level(e) == 7
    ensures WellPrinted(Bin(Div, e, Atom("1"))) && !HasLess(Bin(Div, e, Atom("1")))
    ensures Meaning(env, Bin(Div, e, Atom("1"))) == Meaning(env, e)
  {
    OneIsAtom();
    ApplyIs(Div, Meaning(env, e), 1);
  }

  /** The output for a single zero: the generator's number is 0, and the evaluator has no answer. */
  lemma ZeroOutput(env: Env)
    ensures Decimal(0) + "u" == "u" && Evaluate(env, "u") == None
  {
    assert "u" + "" == "u";
    BareU("", None);
  }
}
