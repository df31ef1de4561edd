/** What the comparisons of expr_calc_value decide, stated on numbers, tristates and strings
    (nemu/tools/kconfig/expr.c:987-1120). */
module KconfigOrder {
  import opened Options
  import opened Strtol
  import opened Numerals
  import opened KconfigExpr

  /** The six relations on integers. */
  predicate Relation(op: CmpOp, x: int, y: int) {
    match op
    case Equal => x == y
    case Unequal => x != y
    case Lth => x < y
    case Leq => x <= y
    case Gth => x > y
    case Geq => x >= y
  }

  lemma SignDecides(op: CmpOp, x: int, y: int)
    ensures Holds(op, Sign(x, y)) <==> Relation(op, x, y)
  {}

  // ----- tristates -----

  /** Boolean and tristate symbols compare as n < m < y. */
  lemma TristatesCompare(op: CmpOp, a: Symbol, b: Symbol, env: Env)
    requires Logical(a) && Logical(b)
    ensures Value(Cmp(op, a, b), env) == Truth(Relation(op, TriOf(a, env), TriOf(b, env)))
  {
    TriNumbers(TriOf(a, env));
    TriNumbers(TriOf(b, env));
    SignDecides(op, TriOf(a, env), TriOf(b, env));
  }

  lemma TriNumbers(t: Tristate)
    ensures TriNumber(TriText(t)) == t
  {
    assert "n"[0] != "m"[0] && "n"[0] != "y"[0] && "m"[0] != "y"[0];
  }

  // ----- numbers -----

  /** The text of an integer. */
  function Written(v: int): string { Numerals.Signed(v < 0, Numeral(if v < 0 then -v else v, 10)) }

  /** An int symbol, a constant or an undeclared symbol whose text is the number v. */
  predicate IsNumber(s: Symbol, v: int, env: Env) {
    (TypeOf(s) == Int || TypeOf(s) == Unknown) && TextOf(s, env) == Written(v)
  }

  predicate Fits(v: int) { -TWO_63 <= v < TWO_63 }

  lemma NumberParses(s: Symbol, v: int, env: Env)
    requires IsNumber(s, v, env) && Fits(v)
    ensures ParseString(TextOf(s, env), TypeOf(s)) == KconfigExpr.Signed(v)
  {
    WholeDecimal(v < 0, if v < 0 then -v else v, if TypeOf(s) == Int then 10 else 0);
  }

  /** Numbers compare as numbers, whatever their digits. */
  lemma NumbersCompare(op: CmpOp, a: Symbol, b: Symbol, x: int, y: int, env: Env)
    requires IsNumber(a, x, env) && IsNumber(b, y, env) && Fits(x) && Fits(y)
    ensures Value(Cmp(op, a, b), env) == Truth(Relation(op, x, y))
  {
    NumberParses(a, x, env);
    NumberParses(b, y, env);
    SignDecides(op, x, y);
  }

  /** A hex symbol whose text is the number v. */
  predicate IsHex(s: Symbol, v: nat, env: Env) {
    TypeOf(s) == Hex && TextOf(s, env) == "0x" + Numeral(v, 16)
  }

  lemma HexParses(s: Symbol, v: nat, env: Env)
    requires IsHex(s, v, env) && v < TWO_64
    ensures ParseString(TextOf(s, env), TypeOf(s)) == Unsigned(v)
  {
    WholeHex(false, v, 16);
    SmallMod(v);
    assert Numerals.Signed(false, TextOf(s, env)) == TextOf(s, env);
  }

  lemma SmallMod(x: nat)
    requires x < TWO_64
    ensures x % TWO_64 == x
  {}

  lemma UnsignedCompare(s: string, t: string, x: nat, y: nat)
    requires ParseString(s, Hex) == Unsigned(x) && ParseString(t, Hex) == Unsigned(y) && x < TWO_64 && y < TWO_64
    ensures CompareText(s, Hex, t, Hex) == Sign(x, y)
  {
    SmallMod(x);
    SmallMod(y);
  }

  /** Hex symbols compare as unsigned numbers. */
  lemma HexesCompare(op: CmpOp, a: Symbol, b: Symbol, x: nat, y: nat, env: Env)
    requires IsHex(a, x, env) && IsHex(b, y, env) && x < TWO_64 && y < TWO_64
    ensures Value(Cmp(op, a, b), env) == Truth(Relation(op, x, y))
  {
    HexParses(a, x, env);
    HexParses(b, y, env);
    var s, t := TextOf(a, env), TextOf(b, env);
    assert CompareText(s, Hex, t, Hex) == Sign(x, y) by { UnsignedCompare(s, t, x, y); }
    SignDecides(op, x, y);
  }

  /** A hex symbol beside a number: both are taken as unsigned 64-bit numbers. */
  lemma MixedCompare(op: CmpOp, a: Symbol, b: Symbol, x: nat, y: int, env: Env)
    requires IsHex(a, x, env) && x < TWO_64 && IsNumber(b, y, env) && Fits(y)
    ensures var u: int := if y < 0 then y + TWO_64 else y;
            && Value(Cmp(op, a, b), env) == Truth(Relation(op, x, u))
            && Value(Cmp(op, b, a), env) == Truth(Relation(op, u, x))
  {
    HexParses(a, x, env);
    NumberParses(b, y, env);
    var u: int := if y < 0 then y + TWO_64 else y;
    var s, t := TextOf(a, env), TextOf(b, env);
    assert CompareText(s, Hex, t, TypeOf(b)) == Sign(x, u) && CompareText(t, TypeOf(b), s, Hex) == Sign(u, x) by {
      MixedText(s, t, TypeOf(b), x, y);
    }
    SignDecides(op, x, u);
    SignDecides(op, u, x);
  }

  lemma MixedText(s: string, t: string, ty: SymbolType, x: nat, y: int)
    requires ParseString(s, Hex) == Unsigned(x) && ParseString(t, ty) == KconfigExpr.Signed(y) && ty != Str
    requires x < TWO_64 && Fits(y)
    ensures var u: int := if y < 0 then y + TWO_64 else y;
            CompareText(s, Hex, t, ty) == Sign(x, u) && CompareText(t, ty, s, Hex) == Sign(u, x)
  {
    SmallMod(x);
    WrappedMod(y);
  }

  lemma WrappedMod(y: int)
    requires Fits(y)
    ensures y % TWO_64 == if y < 0 then y + TWO_64 else y
  {}

  // ----- strings -----

  /** Lexicographic order: the texts agree up to k, where the first ends or has the smaller character. */
  ghost predicate Precedes(a: string, b: string) {
    exists k :: PrecedesAt(a, b, k)
  }

  predicate PrecedesAt(a: string, b: string, k: int) {
    && 0 <= k <= |a| && k < |b| && a[..k] == b[..k]
    && (k == |a| || a[k] < b[k])
  }

  ghost predicate TextRelation(op: CmpOp, a: string, b: string) {
    match op
    case Equal => a == b
    case Unequal => a != b
    case Lth => Precedes(a, b)
    case Leq => a == b || Precedes(a, b)
    case Gth => Precedes(b, a)
    case Geq => a == b || Precedes(b, a)
  }

  lemma StrCmpTurned(a: string, b: string)
    ensures StrCmp(b, a) == -StrCmp(a, b)
  {}

  /** Texts with different first characters, or one of them empty, differ at the start. */
  lemma PrecedesAtStart(a: string, b: string, k: nat)
    requires PrecedesAt(a, b, k)
    ensures PrecedesAt(a, b, 0) || (a != [] && b != [] && a[0] == b[0])
  {
    if k > 0 { assert a[0] == a[..k][0] && b[0] == b[..k][0]; }
  }

  lemma {:induction false} StrCmpIsOrder(a: string, b: string)
    ensures StrCmp(a, b) < 0 <==> Precedes(a, b)
  {
    if a == [] || b == [] || a[0] != b[0] {
      if StrCmp(a, b) < 0 { assert PrecedesAt(a, b, 0); }
      forall k | PrecedesAt(a, b, k) ensures PrecedesAt(a, b, 0) { PrecedesAtStart(a, b, k); }
    } else {
      StrCmpIsOrder(a[1..], b[1..]);
      PrecedesTails(a, b);
    }
  }

  lemma PrecedesTails(a: string, b: string)
    requires a != [] && b != [] && a[0] == b[0]
    ensures Precedes(a, b) <==> Precedes(a[1..], b[1..])
  {
    if Precedes(a, b) {
      var k :| PrecedesAt(a, b, k);
      assert a[1..][..k - 1] == a[..k][1..] && b[1..][..k - 1] == b[..k][1..];
      assert PrecedesAt(a[1..], b[1..], k - 1);
    }
    if Precedes(a[1..], b[1..]) {
      var k :| PrecedesAt(a[1..], b[1..], k);
      assert a[..k + 1] == [a[0]] + a[1..][..k] && b[..k + 1] == [b[0]] + b[1..][..k];
      assert PrecedesAt(a, b, k + 1);
    }
  }

  /** Lexicographic comparison: of two string symbols, and of any two symbols one of which is no number. */
  lemma StringsCompare(op: CmpOp, a: Symbol, b: Symbol, env: Env)
    requires || TypeOf(a) == TypeOf(b) == Str
             || ParseString(TextOf(a, env), TypeOf(a)).Text? || ParseString(TextOf(b, env), TypeOf(b)).Text?
    ensures Value(Cmp(op, a, b), env) == Truth(TextRelation(op, TextOf(a, env), TextOf(b, env)))
  {
    var s, t := TextOf(a, env), TextOf(b, env);
    assert CompareSymbols(a, b, env) == StrCmp(s, t);
    StrCmpZero(s, t);
    StrCmpTurned(s, t);
    StrCmpIsOrder(s, t);
    StrCmpIsOrder(t, s);
  }

  /** An int symbol without a value is no number. */
  lemma EmptyIsText(ty: SymbolType)
    requires ty == Int || ty == Hex || ty == Str || ty == Unknown
    ensures ParseString("", ty) == Text
  {}

  // ----- what a setting gives -----

  /** A tristate symbol has the value it is set to, so has a boolean one set to y or n, and the others
      have the text; constants and undeclared symbols are their own text. */
  lemma SettingsRead(s: Symbol, given: Setting, env: Env)
    requires s in env && env[s] == given
    ensures TypeOf(s) == Tri || (TypeOf(s) == Boolean && given.tri != TRI_MOD) ==> TriOf(s, env) == given.tri
    ensures TypeOf(s) == Int || TypeOf(s) == Hex || TypeOf(s) == Str ==> TextOf(s, env) == given.text
    ensures TypeOf(s) == Unknown ==> TextOf(s, env) == s.name
    ensures Logical(s) ==> TextOf(s, env) == ["n", "m", "y"][TriOf(s, env)]
  {}

  // ----- the connectives -----

  /** && is the smaller, || the larger of two values, ! turns the scale round. */
  lemma Connectives(l: Expr, r: Expr, env: Env)
    ensures var a, b := Value(l, env), Value(r, env);
            && (Value(And(l, r), env) == a <= b || Value(And(l, r), env) == b <= a)
            && (Value(Or(l, r), env) == a >= b || Value(Or(l, r), env) == b >= a)
            && Value(Not(l), env) + a == TRI_YES
  {}
}
