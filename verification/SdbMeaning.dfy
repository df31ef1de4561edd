/** What the debugger's expressions mean, stated apart from the evaluator: C's grammar, C's operators and
    written numbers (nemu/src/monitor/sdb/expr.c:58-76 and 237-293). */
module SdbMeaning {
  import opened Options
  import opened Strtol
  import opened Numerals
  import opened SdbLex
  import opened SdbExpr
  import opened SdbPrint

  // ----- the grammar of section 6.5 of the C standard, as far as the debugger has it -----

  predicate IsPrimary(e: Expr)
    decreases e, 0
  {
    match e
    case Atom(s) => IsAtom(s)
    case Paren(i) => IsLogicalAnd(i)
    case _ => false
  }

  /** A unary * stands before a literal or a parenthesis. */
  predicate IsUnary(e: Expr)
    decreases e, 1
  {
    IsPrimary(e) || (e.Star? && IsPrimary(e.arg))
  }

  predicate IsMultiplicative(e: Expr)
    decreases e, 2
  {
    IsUnary(e) || (e.Bin? && (e.op == Mul || e.op == Div) && IsMultiplicative(e.left) && IsUnary(e.right))
  }

  predicate IsAdditive(e: Expr)
    decreases e, 3
  {
    IsMultiplicative(e) || (e.Bin? && (e.op == Add || e.op == Sub) && IsAdditive(e.left) && IsMultiplicative(e.right))
  }

  predicate IsRelational(e: Expr)
    decreases e, 4
  {
    IsAdditive(e) || (e.Bin? && (e.op == Gt || e.op == Lt) && IsRelational(e.left) && IsAdditive(e.right))
  }

  predicate IsEquality(e: Expr)
    decreases e, 5
  {
    IsRelational(e) || (e.Bin? && e.op == Eq && IsEquality(e.left) && IsRelational(e.right))
  }

  predicate IsLogicalAnd(e: Expr)
    decreases e, 6
  {
    IsEquality(e) || (e.Bin? && e.op == And && IsLogicalAnd(e.left) && IsEquality(e.right))
  }

  /** The texts covered are those of this grammar: precedence and left associativity are C's. */
  lemma {:induction false} GrammarIsC(e: Expr)
    ensures WellPrinted(e) <==> IsLogicalAnd(e)
    ensures WellPrinted(e) && Level(e) > 1 <==> IsEquality(e)
    ensures WellPrinted(e) && Level(e) > 2 <==> IsRelational(e)
    ensures WellPrinted(e) && Level(e) > 3 <==> IsAdditive(e)
    ensures WellPrinted(e) && Level(e) > 4 <==> IsMultiplicative(e)
    ensures WellPrinted(e) && Level(e) > 5 <==> IsUnary(e)
    ensures WellPrinted(e) && Level(e) > 6 <==> IsPrimary(e)
  {
    match e
    case Atom(_) => Nested(e);
    case Paren(i) => GrammarIsC(i); Nested(e);
    case Star(a) => GrammarIsC(a); Nested(e);
    case Bin(_, l, r) => GrammarIsC(l); GrammarIsC(r); Nested(e);
  }

  /** Each level contains the tighter ones and adds its own operators. */
  lemma Nested(e: Expr)
    ensures !e.Bin? ==> (IsLogicalAnd(e) <==> IsUnary(e)) && (IsEquality(e) <==> IsUnary(e))
    ensures !e.Bin? ==> (IsRelational(e) <==> IsUnary(e)) && (IsAdditive(e) <==> IsUnary(e))
    ensures !e.Bin? ==> (IsMultiplicative(e) <==> IsUnary(e))
    ensures e.Bin? ==> !IsUnary(e) && BinaryLevels(e)
  {
    assert IsMultiplicative(e) ==> IsAdditive(e);
    assert IsAdditive(e) ==> IsRelational(e);
    assert IsRelational(e) ==> IsEquality(e);
  }

  predicate BinaryLevels(e: Expr)
    requires e.Bin?
  {
    var op, l, r := e.op, e.left, e.right;
    var mul := (op == Mul || op == Div) && IsMultiplicative(l) && IsUnary(r);
    var add := mul || ((op == Add || op == Sub) && IsAdditive(l) && IsMultiplicative(r));
    var rel := add || ((op == Gt || op == Lt) && IsRelational(l) && IsAdditive(r));
    var eq := rel || (op == Eq && IsEquality(l) && IsRelational(r));
    var all := eq || (op == And && IsLogicalAnd(l) && IsEquality(r));
    && IsMultiplicative(e) == mul && IsAdditive(e) == add && IsRelational(e) == rel
    && IsEquality(e) == eq && IsLogicalAnd(e) == all
  }

  // ----- the operators -----

  /** v is the word that differs from x by a multiple of 2^32. */
  predicate WordOf(v: Word, x: int) { (x - v) % 0x1_0000_0000 == 0 }

  predicate IsTruth(v: Word, b: bool) { v == if b then 1 else 0 }

  /** The result v of an operator, by its defining property. */
  predicate ResultOf(op: Op, x: Word, y: Word, v: Word) {
    match op
    case Add => WordOf(v, x + y)
    case Sub => WordOf(v, (x as int) - (y as int))
    case Mul => WordOf(v, x * y)
    case Div => if y == 0 then v == x else v * y <= x < (v + 1) * y
    case Eq => IsTruth(v, x == y)
    case Gt => IsTruth(v, x <= y)
    case Lt => false
    case And => IsTruth(v, x != 0 && y != 0)
  }

  lemma RemainderIsWord(x: int)
    ensures WordOf(x % 0x1_0000_0000, x)
  {}

  lemma QuotientMeans(x: nat, y: nat)
    requires y > 0
    ensures x / y * y <= x < (x / y + 1) * y
  {
    assert x == x / y * y + x % y;
    assert (x / y + 1) * y == x / y * y + y;
  }

  /** Each operator has the result that C defines, with 2^32 wrapped around, except that dividing by
      zero yields the dividend and that '>' means <=. */
  lemma OperatorsMean(op: Op, x: Word, y: Word)
    requires op != Lt
    ensures ResultOf(op, x, y, Apply(op, x, y))
  {
    ApplyIs(op, x, y);
    match op
    case Add => RemainderIsWord(x + y);
    case Sub => RemainderIsWord((x as int) - (y as int));
    case Mul => RemainderIsWord(x * y);
    case Div => if y > 0 { QuotientMeans(x, y); }
    case _ =>
  }

  // ----- + - * in unbounded integers -----

  predicate Polynomial(e: Expr) {
    match e
    case Atom(_) => true
    case Paren(i) => Polynomial(i)
    case Star(_) => false
    case Bin(op, l, r) => (op == Add || op == Sub || op == Mul) && Polynomial(l) && Polynomial(r)
  }

  /** The value without any wrapping. */
  function Exact(env: Env, e: Expr): int
    requires WellPrinted(e) && Polynomial(e)
  {
    match e
    case Atom(s) => Leaf(env, AtomToken(s))
    case Paren(i) => Exact(env, i)
    case Bin(op, l, r) =>
      if op == Add then Exact(env, l) + Exact(env, r)
      else if op == Sub then Exact(env, l) - Exact(env, r)
      else Exact(env, l) * Exact(env, r)
  }

  /** Words stand for integers: sums, differences and products of the words stand for those of the
      integers. */
  lemma SumsAgree(x: int, y: int, v: Word, w: Word, r: Word)
    requires WordOf(v, x) && WordOf(w, y)
    ensures WordOf(r, v + w) ==> WordOf(r, x + y)
    ensures WordOf(r, (v as int) - (w as int)) ==> WordOf(r, x - y)
  {}

  lemma ProductsAgree(x: int, y: int, v: Word, w: Word, r: Word)
    requires WordOf(v, x) && WordOf(w, y) && WordOf(r, v * w)
    ensures WordOf(r, x * y)
  {
    var a, b := (x - v) / 0x1_0000_0000, (y - w) / 0x1_0000_0000;
    assert x == v + 0x1_0000_0000 * a && y == w + 0x1_0000_0000 * b;
    ProductExpands(v, w, a, b);
    Shifted(r, v * w, x * y, a * w + v * b + 0x1_0000_0000 * (a * b));
  }

  lemma Shifted(r: Word, p: int, q: int, k: int)
    requires WordOf(r, p) && q - p == 0x1_0000_0000 * k
    ensures WordOf(r, q)
  {}

  lemma ProductExpands(v: int, w: int, a: int, b: int)
    ensures (v + 0x1_0000_0000 * a) * (w + 0x1_0000_0000 * b) - v * w
         == 0x1_0000_0000 * (a * w + v * b + 0x1_0000_0000 * (a * b))
  {
    var k := 0x1_0000_0000;
    assert (v + k * a) * (w + k * b) == v * (w + k * b) + (k * a) * (w + k * b);
    assert v * (w + k * b) == v * w + k * (v * b);
    assert (k * a) * (w + k * b) == k * (a * w) + k * (k * (a * b));
  }

  /** Wrapping at every step is wrapping once at the end. */
  lemma {:induction false} MeaningIsExact(env: Env, e: Expr)
    requires WellPrinted(e) && Polynomial(e)
    ensures !HasLess(e) && !StarAfterParen(e, false) && !StarAfterParen(e, true)
    ensures WordOf(Meaning(env, e), Exact(env, e))
  {
    match e
    case Atom(_) =>
    case Paren(i) => MeaningIsExact(env, i);
    case Bin(op, l, r) =>
      MeaningIsExact(env, l);
      MeaningIsExact(env, r);
      var x, y, v, w := Exact(env, l), Exact(env, r), Meaning(env, l), Meaning(env, r);
      StepAgrees(op, x, y, v, w);
  }

  lemma StepAgrees(op: Op, x: int, y: int, v: Word, w: Word)
    requires WordOf(v, x) && WordOf(w, y) && (op == Add || op == Sub || op == Mul)
    ensures WordOf(Apply(op, v, w), if op == Add then x + y else if op == Sub then x - y else x * y)
  {
    OperatorsMean(op, v, w);
    if op == Mul { ProductsAgree(x, y, v, w, Apply(op, v, w)); } else { SumsAgree(x, y, v, w, Apply(op, v, w)); }
  }

  lemma WordIsOne(v: Word, x: int)
    requires WordOf(v, x)
    ensures v == x % 0x1_0000_0000
  {}

  /** The text of a tree over + - * evaluates to its value in the integers modulo 2^32. */
  lemma PolynomialsEvaluate(env: Env, e: Expr, g: Gaps)
    requires WellPrinted(e) && Polynomial(e)
    ensures Evaluate(env, Spaced(e, g)) == Some(Value(Exact(env, e) % 0x1_0000_0000))
  {
    EvalPrinted(env, e, g);
    MeaningIsExact(env, e);
    WordIsOne(Meaning(env, e), Exact(env, e));
  }

  // ----- literals -----

  predicate IsDigit(c: char) { 48 <= c as int <= 57 }

  predicate IsLetter(c: char) { 65 <= c as int <= 90 || 97 <= c as int <= 122 }

  predicate IsHexDigit(c: char) { IsDigit(c) || 65 <= c as int <= 70 || 97 <= c as int <= 102 }

  /** Digits, and perhaps a u at the end. */
  predicate DecimalForm(s: string) {
    && s != [] && (forall i :: 0 <= i < |s| - 1 ==> IsDigit(s[i]))
    && (IsDigit(s[|s| - 1]) || (|s| >= 2 && s[|s| - 1] == 'u'))
  }

  predicate HexForm(s: string) {
    |s| >= 3 && s[0] == '0' && (s[1] == 'x' || s[1] == 'X') && forall i :: 2 <= i < |s| ==> IsHexDigit(s[i])
  }

  /** $, l letters and up to two digits. */
  predicate RegisterForm(s: string, l: nat) {
    && l < |s| <= l + 3 && s[0] == '$'
    && (forall i :: 1 <= i <= l ==> IsLetter(s[i])) && (forall i :: l < i < |s| ==> IsDigit(s[i]))
  }

  lemma {:induction false} RunStopsAt(cls: Class, s: string)
    ensures var n := Run(cls, s);
            (forall i :: 0 <= i < n ==> In(cls, s[i])) && (n < |s| ==> !In(cls, s[n]))
  {
    if s != [] && In(cls, s[0]) {
      RunStopsAt(cls, s[1..]);
      var n := Run(cls, s[1..]);
      forall i | 0 <= i < n + 1 ensures In(cls, s[i]) { if i > 0 { assert s[i] == s[1..][i - 1]; } }
    }
  }

  lemma {:induction false} RunAtLeast(cls: Class, s: string, n: nat)
    requires n <= |s| && forall i :: 0 <= i < n ==> In(cls, s[i])
    ensures Run(cls, s) >= n
  {
    if n > 0 { RunAtLeast(cls, s[1..], n - 1); }
  }

  lemma HexExactly(s: string)
    ensures HexLength(s) == |s| > 0 <==> HexForm(s)
  {
    if |s| >= 3 {
      var t := s[2..];
      RunStopsAt(HexDigits, t);
      if HexLength(s) == |s| {
        forall i | 2 <= i < |s| ensures IsHexDigit(s[i]) { assert s[i] == t[i - 2]; }
      }
      if HexForm(s) {
        forall i | 0 <= i < |t| ensures In(HexDigits, t[i]) { assert t[i] == s[i + 2] && IsHexDigit(s[i + 2]); }
        RunAtLeast(HexDigits, t, |t|);
      }
    }
  }

  lemma DecimalExactly(s: string)
    ensures DecLength(s) == |s| > 0 <==> DecimalForm(s)
    ensures DecimalForm(s) ==> HexLength(s) == 0
  {
    RunStopsAt(Digits, s);
    if DecimalForm(s) {
      RunAtLeast(Digits, s, |s| - 1);
      if IsDigit(s[|s| - 1]) { RunAtLeast(Digits, s, |s|); }
      if |s| >= 3 { assert IsDigit(s[1]); }
    }
  }

  lemma RegisterExactly(s: string)
    ensures RegisterLength(s) == |s| > 0 <==> RegisterForm(s, 1) || RegisterForm(s, 2)
  {
    if |s| >= 2 && s[0] == '$' && In(Letters, s[1]) {
      var l := if |s| >= 3 && In(Letters, s[2]) then 3 else 2;
      var t := s[l..];
      RunStopsAt(Digits, t);
      if RegisterLength(s) == |s| {
        forall i | l - 1 < i < |s| ensures IsDigit(s[i]) { assert s[i] == t[i - l]; }
        assert RegisterForm(s, l - 1);
      }
      if RegisterForm(s, 1) || RegisterForm(s, 2) {
        forall i | 0 <= i < |t| ensures In(Digits, t[i]) { assert t[i] == s[l + i]; }
        RunAtLeast(Digits, t, |t|);
      }
    }
  }

  /** The literals are the decimal and hexadecimal numbers and the register names of fewer than 32
      characters, and nothing else. */
  lemma LiteralsExactly(s: string)
    ensures IsAtom(s) <==> |s| < 32 && (DecimalForm(s) || HexForm(s) || RegisterForm(s, 1) || RegisterForm(s, 2))
  {
    HexExactly(s);
    DecimalExactly(s);
    RegisterExactly(s);
    if s != [] && s[0] == '$' { assert Run(Digits, s) == 0; }
  }

  // ----- lengths -----

  /** A run of more than 32 spaces panics. */
  lemma TooManySpaces(env: Env, n: nat, rest: string)
    requires n > 32 && !StartsBlank(rest)
    ensures Evaluate(env, Blanks(n) + rest) == Some(Panic)
  {
    var s := Blanks(n) + rest;
    BlanksRun(n, rest);
    assert s[0] == ' ' && Run(Digits, s) == 0;
    LexIs(s, None);
  }

  /** So do more than 32 digits; exactly 32 are copied as an empty text and count as 0. */
  lemma LongNumbers(env: Env, s: string)
    requires |s| >= 32 && forall i :: 0 <= i < |s| ==> IsDigit(s[i])
    ensures Evaluate(env, s) == Some(if |s| == 32 then Value(0) else Panic)
  {
    DecimalExactly(s);
    assert RuleAt(s) == Some((Dec, |s|));
    LexIs(s, None);
    if |s| == 32 {
      assert s[..32] == s && s[32..] == [] && s[..0] == [];
      LexMatch(s, None, Dec, 32, Number([]));
      LexIs([], Some(Number([])));
      assert Lex(s, None) == Tokens([Number([])]);
      EvalIs(env, [Number([])]);
      assert ParseNumber([]) == 0;
    }
  }

  // ----- numbers -----

  lemma {:induction false} AllInPrefix(s: string, base: nat)
    requires s == [] || AllDigits(s, base)
    ensures DigitPrefix(s, base) == s
  {
    if s != [] { AllInPrefix(s[1..], base); }
  }

  /** A hexadecimal literal is the number written, modulo 2^32. */
  lemma HexLiteral(n: nat)
    requires n < TWO_63
    ensures ParseNumber("0x" + Numeral(n, 16)) == n % 0x1_0000_0000
  {
    var s := "0x" + Numeral(n, 16);
    NumeralReads(n, 16);
    NumeralFirst(n, 16);
    assert s[2..] == Numeral(n, 16) && s[2] == Numeral(n, 16)[0];
    AllInPrefix(Numeral(n, 16), 16);
  }

  lemma DecimalLiteral(n: nat)
    requires n < TWO_63
    ensures ParseNumber(Numeral(n, 10)) == n % 0x1_0000_0000
  {
    NumeralReads(n, 10);
    NumeralStart(n, 10);
    AllInPrefix(Numeral(n, 10), 10);
    if n == 0 {
      assert Numeral(0, 10) == "0";
      AllInPrefix("0", 8);
      assert DigitsValue([], 8) == 0;
    }
  }

  lemma OctalDigits(s: string)
    requires AllDigits(s, 8)
    ensures AllDigits("0" + s, 8) && ("0" + s)[1] !in "xX"
  {
    assert Digit(s[0]) < 8;
  }

  /** A leading 0 makes a literal octal. */
  lemma OctalLiteral(n: nat)
    requires n < TWO_63
    ensures ParseNumber("0" + Numeral(n, 8)) == n % 0x1_0000_0000
  {
    NumeralReads(n, 8);
    NumeralFirst(n, 8);
    var s := "0" + Numeral(n, 8);
    assert s[0] == '0' && s[1] == Numeral(n, 8)[0];
    ZeroInFront(Numeral(n, 8), 8);
    OctalDigits(Numeral(n, 8));
    AllInPrefix(s, 8);
  }

  /** Digits end at the first character that is none in the base, as 8 is in octal. */
  lemma {:induction false} DigitsEnd(s: string, c: char, rest: string, base: nat)
    requires (s == [] || AllDigits(s, base)) && Digit(c) >= base
    ensures DigitPrefix(s + [c] + rest, base) == s
  {
    if s == [] {
      assert (s + [c] + rest)[0] == c;
    } else {
      assert (s + [c] + rest)[1..] == s[1..] + [c] + rest;
      DigitsEnd(s[1..], c, rest, base);
    }
  }

  // ----- registers -----

  lemma RegisterToken(s: string)
    requires IsAtom(s) && s[0] == '$'
    ensures AtomToken(s) == Register(s[1..])
  {
    assert Run(Digits, s) == 0;
  }

  lemma AtomEvaluates(env: Env, s: string)
    requires IsAtom(s)
    ensures Evaluate(env, s) == Some(Value(Leaf(env, AtomToken(s))))
  {
    var e := Atom(s);
    assert WellPrinted(e) && !HasLess(e) && !StarAfterParen(e, false) && Text(e) == s;
    SpacedNothing(e);
    EvalPrinted(env, e, NO_GAPS);
  }

  /** $name is the program counter, a register, or 0 where there is no such register. */
  lemma RegistersEvaluate(env: Env, name: string)
    requires IsAtom("$" + name)
    ensures Evaluate(env, "$" + name)
         == Some(Value(if name == "pc" then env.pc else if name in env.regs then env.regs[name] else 0))
  {
    assert ("$" + name)[1..] == name && ("$" + name)[0] == '$';
    RegisterToken("$" + name);
    AtomEvaluates(env, "$" + name);
  }
}
