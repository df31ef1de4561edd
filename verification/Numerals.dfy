/** Written numbers: what strtoll and strtoull read back from the digits of a number. */
module Numerals {
  import opened Options
  import opened Strtol

  predicate IsRadix(base: nat) { base == 8 || base == 10 || base == 16 }

  function DigitChar(d: nat): char
    requires d < 16
  {
    "0123456789abcdef"[d]
  }

  /** The digits of a number, without leading zeros. */
  function Numeral(n: nat, base: nat): string
    requires IsRadix(base)
    decreases n
  {
    if n < base then [DigitChar(n)] else Numeral(Head(n, base), base) + [DigitChar(Last(n, base))]
  }

  /** All digits but the last, and the last one. */
  function Head(n: nat, base: nat): nat
    requires IsRadix(base)
  {
    if base == 8 then n / 8 else if base == 10 then n / 10 else n / 16
  }

  function Last(n: nat, base: nat): (d: nat)
    requires IsRadix(base)
    ensures d < base
  {
    if base == 8 then n % 8 else if base == 10 then n % 10 else n % 16
  }

  lemma DigitOfChar(d: nat)
    requires d < 16
    ensures Digit(DigitChar(d)) == d && !IsSpace(DigitChar(d)) && DigitChar(d) !in "-+xX"
    ensures DigitChar(d) == '0' <==> d == 0
  {}

  /** v * base, one base at a time. */
  function Times(v: nat, base: nat): nat
    requires IsRadix(base)
  {
    if base == 8 then 8 * v else if base == 10 then 10 * v else 16 * v
  }

  lemma TimesIs(v: nat, base: nat)
    requires IsRadix(base)
    ensures v * base == Times(v, base)
  {}

  lemma AppendDigit(s: string, d: nat, base: nat)
    requires IsRadix(base) && d < base && (s == [] || AllDigits(s, base))
    ensures AllDigits(s + [DigitChar(d)], base)
    ensures DigitsValue(s + [DigitChar(d)], base) == Times(DigitsValue(s, base), base) + d
  {
    DigitOfChar(d);
    assert (s + [DigitChar(d)])[..|s|] == s;
    TimesIs(DigitsValue(s, base), base);
  }

  lemma HeadAndLast(n: nat, base: nat)
    requires IsRadix(base)
    ensures Times(Head(n, base), base) + Last(n, base) == n
    ensures n >= base ==> 0 < Head(n, base) < n
  {}

  /** A number is read back from its digits. */
  lemma {:induction false} NumeralReads(n: nat, base: nat)
    requires IsRadix(base)
    ensures AllDigits(Numeral(n, base), base) && DigitsValue(Numeral(n, base), base) == n
    ensures n > 0 ==> Numeral(n, base)[0] != '0'
    decreases n
  {
    if n < base {
      AppendDigit([], n, base);
      assert [] + [DigitChar(n)] == [DigitChar(n)] && DigitsValue([], base) == 0;
    } else {
      HeadAndLast(n, base);
      NumeralReads(Head(n, base), base);
      AppendDigit(Numeral(Head(n, base), base), Last(n, base), base);
    }
  }

  lemma NumeralStart(n: nat, base: nat)
    requires IsRadix(base)
    ensures var s := Numeral(n, base); s != [] && !IsSpace(s[0]) && s[0] != '-' && s[0] != '+'
    ensures |Numeral(n, base)| >= 2 ==> Numeral(n, base)[1] !in "xX"
  {
    NumeralReads(n, base);
  }

  /** An optional sign in front of some digits. */
  function Signed(negative: bool, digits: string): string { if negative then "-" + digits else digits }

  predicate StartsNumber(digits: string) {
    digits != [] && !IsSpace(digits[0]) && digits[0] != '-' && digits[0] != '+'
  }

  lemma SignIsSplit(negative: bool, digits: string)
    requires StartsNumber(digits)
    ensures var t := Signed(negative, digits);
            SkipSpace(t) == t && (if negative then t[0] == '-' && t[1..] == digits else t == digits)
  {
    if negative { assert Signed(negative, digits)[1..] == digits; }
  }

  lemma NegatedMod(m: int)
    requires 0 <= m < TWO_64
    ensures m % TWO_64 == m && (-m) % TWO_64 == (TWO_64 - m) % TWO_64
  {}

  lemma SignedReads(negative: bool, digits: string, base: nat)
    requires StartsNumber(digits)
    ensures var m := Magnitude(digits, base);
            var v := if m.None? then 0 else if negative then -m.value else m.value;
            WholeSigned(Signed(negative, digits), base)
              == (if m.Some? && -TWO_63 <= v < TWO_63 then Some(v) else None)
  {
    SignIsSplit(negative, digits);
  }

  lemma UnsignedReads(negative: bool, digits: string, base: nat)
    requires StartsNumber(digits) && (Magnitude(digits, base).Some? ==> Magnitude(digits, base).value >= 0)
    ensures var m := Magnitude(digits, base);
            var v := if m.None? then 0 else if negative then -m.value else m.value;
            WholeUnsigned(Signed(negative, digits), base)
              == (if m.Some? && m.value < TWO_64 then Some(v % TWO_64) else None)
  {
    SignIsSplit(negative, digits);
    var m := Magnitude(digits, base);
    if m.Some? && m.value < TWO_64 { NegatedMod(m.value); }
  }

  /** A plus sign changes nothing. */
  lemma PlusReads(digits: string, base: nat)
    requires StartsNumber(digits)
    ensures WholeSigned("+" + digits, base) == WholeSigned(digits, base)
    ensures WholeUnsigned("+" + digits, base) == WholeUnsigned(digits, base)
  {
    var t := "+" + digits;
    assert SkipSpace(t) == t && SkipSpace(digits) == digits && t[1..] == digits;
  }

  /** Decimal: in base 10, and in base 0 because no digits other than 0 itself start with 0. */
  lemma DecimalReads(n: nat)
    ensures Magnitude(Numeral(n, 10), 10) == Some(n) && Magnitude(Numeral(n, 10), 0) == Some(n)
  {
    NumeralReads(n, 10);
    NumeralStart(n, 10);
    if n == 0 { assert DigitsValue([], 8) == 0 && Numeral(0, 10) == "0"; }
  }

  /** Hexadecimal, with or without 0x. */
  lemma HexReads(n: nat)
    ensures Magnitude(Numeral(n, 16), 16) == Some(n)
    ensures Magnitude("0x" + Numeral(n, 16), 16) == Magnitude("0x" + Numeral(n, 16), 0) == Some(n)
  {
    NumeralReads(n, 16);
    NumeralStart(n, 16);
    assert ("0x" + Numeral(n, 16))[2..] == Numeral(n, 16);
  }

  /** Octal: a leading 0 in base 0. */
  lemma OctalReads(n: nat)
    ensures Magnitude("0" + Numeral(n, 8), 0) == Some(n)
  {
    NumeralReads(n, 8);
    NumeralStart(n, 8);
    ZeroInFront(Numeral(n, 8), 8);
    assert ("0" + Numeral(n, 8))[1] == Numeral(n, 8)[0];
    NumeralFirst(n, 8);
  }

  lemma NumeralFirst(n: nat, base: nat)
    requires IsRadix(base)
    ensures Numeral(n, base) != [] && Digit(Numeral(n, base)[0]) < base
  {
    NumeralReads(n, base);
  }

  lemma {:induction false} ZeroInFront(s: string, base: nat)
    ensures DigitsValue("0" + s, base) == DigitsValue(s, base)
  {
    if s == [] {
      assert "0" + s == "0" && DigitsValue([], base) == 0;
    } else {
      assert ("0" + s)[..|s|] == "0" + s[..|s| - 1];
      ZeroInFront(s[..|s| - 1], base);
    }
  }

  /** strtoll and strtoull on a whole decimal number with an optional sign. */
  lemma WholeDecimal(negative: bool, n: nat, base: nat)
    requires base == 10 || base == 0
    ensures var v := if negative then 0 - n else n;
            && WholeSigned(Signed(negative, Numeral(n, 10)), base)
                 == (if -TWO_63 <= v < TWO_63 then Some(v) else None)
            && WholeUnsigned(Signed(negative, Numeral(n, 10)), base)
                 == (if n < TWO_64 then Some(v % TWO_64) else None)
  {
    DecimalReads(n);
    NumeralStart(n, 10);
    SignedReads(negative, Numeral(n, 10), base);
    UnsignedReads(negative, Numeral(n, 10), base);
  }

  /** The same on a hexadecimal number after 0x, in base 16 or found by its prefix. */
  lemma WholeHex(negative: bool, n: nat, base: nat)
    requires base == 16 || base == 0
    ensures var v := if negative then 0 - n else n;
            && WholeSigned(Signed(negative, "0x" + Numeral(n, 16)), base)
                 == (if -TWO_63 <= v < TWO_63 then Some(v) else None)
            && WholeUnsigned(Signed(negative, "0x" + Numeral(n, 16)), base)
                 == (if n < TWO_64 then Some(v % TWO_64) else None)
  {
    HexReads(n);
    SignedReads(negative, "0x" + Numeral(n, 16), base);
    UnsignedReads(negative, "0x" + Numeral(n, 16), base);
  }

  /** The six blanks of C may stand in front of a number, and nothing else. */
  lemma LeadingCharacter(c: char, s: string)
    ensures c as int in {9, 10, 11, 12, 13, 32} ==>
              WholeSigned([c] + s, 10) == WholeSigned(s, 10) && WholeUnsigned([c] + s, 10) == WholeUnsigned(s, 10)
    ensures c as int !in {9, 10, 11, 12, 13, 32} && Digit(c) >= 10 && c != '-' && c != '+' ==>
              WholeSigned([c] + s, 10) == None == WholeUnsigned([c] + s, 10)
  {
    assert ([c] + s)[0] == c && ([c] + s)[1..] == s;
    assert IsSpace(c) <==> c as int in {9, 10, 11, 12, 13, 32};
    if !IsSpace(c) { assert SkipSpace([c] + s) == [c] + s; }
  }
}
