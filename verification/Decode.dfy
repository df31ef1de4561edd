/** Instruction patterns: the key, mask and shift computed from a pattern string, and what they match
    (nemu/include/cpu/decode.h:31-60 and 90-97). */
module Decode {
  import opened Bits
  import opened Options

  datatype Pattern = Pattern(key: nat, mask: nat, shift: nat)

  predicate Legal(c: char) { c == '0' || c == '1' || c == '?' }

  // ----- pattern strings -----

  /** A pattern without its spaces. */
  function Strip(s: string): string {
    if s == [] then []
    else Strip(s[..|s| - 1]) + (if s[|s| - 1] == ' ' then [] else [s[|s| - 1]])
  }

  function KeyOf(b: string): nat {
    if b == [] then 0 else 2 * KeyOf(b[..|b| - 1]) + (if b[|b| - 1] == '1' then 1 else 0)
  }

  function MaskOf(b: string): nat {
    if b == [] then 0 else 2 * MaskOf(b[..|b| - 1]) + (if b[|b| - 1] == '?' then 0 else 1)
  }

  /** The number of trailing question marks. */
  function Trailing(b: string): (t: nat)
    ensures t <= |b|
  {
    if b == [] || b[|b| - 1] != '?' then 0 else Trailing(b[..|b| - 1]) + 1
  }

  predicate AllLegal(s: string) { forall i :: 0 <= i < |s| ==> s[i] == ' ' || Legal(s[i]) }

  /** Key, mask and shift, or None where the program panics. */
  method PatternDecode(str: string) returns (r: Option<Pattern>)
    ensures r.None? <==> |str| >= 64 || !AllLegal(str)
    ensures r.Some? ==>
              r.value == (var b := Strip(str); var t := Trailing(b); Pattern(Shr(KeyOf(b), t), Shr(MaskOf(b), t), t))
  {
    var key, mask, shift := 0, 0, 0;
    var i := 0;
    ghost var b := [];
    while i < |str|
      invariant 0 <= i <= |str| && i <= 64
      invariant forall j :: 0 <= j < i ==> str[j] == ' ' || Legal(str[j])
      invariant b == Strip(str[..i]) && key == KeyOf(b) && mask == MaskOf(b) && shift == Trailing(b)
    {
      if i == 64 {
        return None;
      }
      var c := str[i];
      Extend(str, i);
      if c != ' ' {
        if !Legal(c) {
          return None;
        }
        BitsLast(b, c);
        b := b + [c];
        key := 2 * key + if c == '1' then 1 else 0;
        mask := 2 * mask + if c == '?' then 0 else 1;
        shift := if c == '?' then shift + 1 else 0;
      }
      i := i + 1;
    }
    assert str[..i] == str;
    if i == 64 {
      return None;
    }
    return Some(Pattern(Shr(key, shift), Shr(mask, shift), shift));
  }

  /** One more character of the string. */
  lemma Extend(str: string, i: nat)
    requires i < |str|
    ensures Strip(str[..i + 1]) == if str[i] == ' ' then Strip(str[..i]) else Strip(str[..i]) + [str[i]]
  {
    assert str[..i + 1][..i] == str[..i];
  }

  /** One more bit of the pattern. */
  lemma BitsLast(b: string, c: char)
    ensures KeyOf(b + [c]) == 2 * KeyOf(b) + (if c == '1' then 1 else 0)
    ensures MaskOf(b + [c]) == 2 * MaskOf(b) + (if c == '?' then 0 else 1)
    ensures Trailing(b + [c]) == if c == '?' then Trailing(b) + 1 else 0
  {
    assert (b + [c])[..|b|] == b;
  }

  // ----- what matches -----

  /** The comparison made for each instruction word. */
  predicate Matches(p: Pattern, x: nat) {
    Bitwise(AndOp, Shr(x, p.shift), p.mask, 64) == p.key
  }

  /** Each 0 and 1 of the pattern agrees with its bit. */
  predicate Agrees(b: string, x: nat) {
    b == [] || ((b[|b| - 1] == '0' ==> x % 2 == 0) && (b[|b| - 1] == '1' ==> x % 2 == 1) && Agrees(b[..|b| - 1], x / 2))
  }

  function BitAt(x: nat, k: nat): nat { Shr(x, k) % 2 }

  predicate BitAgrees(b: string, x: nat, k: nat)
    requires k < |b|
  {
    var c := b[|b| - 1 - k];
    (c == '0' ==> BitAt(x, k) == 0) && (c == '1' ==> BitAt(x, k) == 1)
  }

  /** The same, one bit position at a time. */
  lemma {:induction false} AgreesBitByBit(b: string, x: nat)
    ensures Agrees(b, x) <==> forall k :: 0 <= k < |b| ==> BitAgrees(b, x, k)
  {
    if b != [] {
      var rest := b[..|b| - 1];
      AgreesBitByBit(rest, x / 2);
      assert BitAt(x, 0) == x % 2;
      assert BitAgrees(b, x, 0) <==> (b[|b| - 1] == '0' ==> x % 2 == 0) && (b[|b| - 1] == '1' ==> x % 2 == 1);
      forall k | 0 <= k < |rest| ensures BitAgrees(rest, x / 2, k) <==> BitAgrees(b, x, k + 1) {
        assert BitAt(x, k + 1) == BitAt(x / 2, k);
      }
      if Agrees(b, x) {
        forall k | 0 <= k < |b| ensures BitAgrees(b, x, k) {
          if k > 0 { assert BitAgrees(rest, x / 2, k - 1); }
        }
      }
    }
  }

  lemma {:induction false} AndZero(x: nat, n: nat)
    ensures Bitwise(AndOp, x, 0, n) == 0
  {
    if n > 0 { AndZero(x / 2, n - 1); }
  }

  /** Without a shift. */
  lemma {:induction false} MaskMatch(b: string, x: nat, n: nat)
    requires |b| <= n && forall i :: 0 <= i < |b| ==> Legal(b[i])
    ensures Bitwise(AndOp, x, MaskOf(b), n) == KeyOf(b) <==> Agrees(b, x)
  {
    if b == [] {
      AndZero(x, n);
    } else {
      MaskMatch(b[..|b| - 1], x / 2, n - 1);
    }
  }

  /** Trailing question marks can be shifted out. */
  lemma {:induction false} ShiftOut(b: string, x: nat)
    ensures var t := Trailing(b);
            && Shr(KeyOf(b), t) == KeyOf(b[..|b| - t]) && Shr(MaskOf(b), t) == MaskOf(b[..|b| - t])
            && (Agrees(b, x) <==> Agrees(b[..|b| - t], Shr(x, t)))
  {
    if b == [] || b[|b| - 1] != '?' {
      assert b[..|b|] == b;
    } else {
      var rest := b[..|b| - 1];
      ShiftOut(rest, x / 2);
      assert rest[..|rest| - Trailing(rest)] == b[..|b| - Trailing(b)];
    }
  }

  /** The test succeeds exactly when every 0 and 1 of the pattern agrees with its bit. */
  lemma DecodeMatches(b: string, x: nat)
    requires |b| < 64 && forall i :: 0 <= i < |b| ==> Legal(b[i])
    ensures var t := Trailing(b);
            Matches(Pattern(Shr(KeyOf(b), t), Shr(MaskOf(b), t), t), x) <==> Agrees(b, x)
  {
    var t := Trailing(b);
    ShiftOut(b, x);
    MaskMatch(b[..|b| - t], Shr(x, t), 64);
  }

  lemma {:induction false} StripLegal(s: string)
    requires AllLegal(s)
    ensures |Strip(s)| <= |s| && forall i :: 0 <= i < |Strip(s)| ==> Legal(Strip(s)[i])
  {
    if s != [] { StripLegal(s[..|s| - 1]); }
  }

  /** From the pattern string to the decision, in one step. */
  method InstPat(str: string, x: nat) returns (hit: Option<bool>)
    ensures hit.None? <==> |str| >= 64 || !AllLegal(str)
    ensures hit.Some? ==> (hit.value <==> Agrees(Strip(str), x))
  {
    var p := PatternDecode(str);
    if p == None {
      return None;
    }
    StripLegal(str);
    DecodeMatches(Strip(str), x);
    return Some(Matches(p.value, x));
  }

  // ----- patterns made of fields -----

  lemma {:induction false} AgreesAppend(a: string, b: string, x: nat)
    ensures Agrees(a + b, x) <==> Agrees(b, x) && Agrees(a, Shr(x, |b|))
  {
    if b == [] {
      assert a + b == a;
    } else {
      assert (a + b)[..|a + b| - 1] == a + b[..|b| - 1];
      AgreesAppend(a, b[..|b| - 1], x / 2);
    }
  }

  /** A field without question marks fixes its bits. */
  lemma {:induction false} FixedField(b: string, x: nat)
    requires forall i :: 0 <= i < |b| ==> b[i] == '0' || b[i] == '1'
    ensures Agrees(b, x) <==> Low(x, |b|) == KeyOf(b)
  {
    if b != [] {
      FixedField(b[..|b| - 1], x / 2);
    }
  }
}
