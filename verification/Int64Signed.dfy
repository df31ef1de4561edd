/** Signed 64-bit division in two's complement (abstract-machine/klib/src/int64.c:355-390). */
module Int64Signed {
  import opened Bits
  import opened Int64
  import opened Int64Div

  predicate IsInt64(x: int) { -W63 <= x < W63 }

  function ToWord(x: int): nat { x % W64 }
  function ToSigned(u: nat): int { if u >= W63 then u - W64 else u }

  /** Two's complement: every 64-bit word is one number of this range, and back. */
  lemma WordRoundTrip(u: nat)
    requires u < W64
    ensures IsInt64(ToSigned(u)) && ToWord(ToSigned(u)) == u
  {
    DivMod(ToSigned(u), W64, if u >= W63 then -1 else 0, u);
  }

  /** x >> 63 for a signed x: all ones when negative. */
  function SignMask(x: int): nat { Mask64(x < 0) }

  /** (u ^ s) - s, with s a sign mask: negate if s is -1. */
  function NegateIf(u: nat, s: nat): nat { ToWord(Xor64(u, s) - s) }

  lemma NegateIfMeaning(u: nat, b: bool)
    requires u < W64
    ensures NegateIf(u, Mask64(b)) == if b then ToWord(-(u as int)) else u
  {
    MaskedWord(u, b);
    if b {
      assert Xor64(u, Mask64(b)) - Mask64(b) == -(u as int);
    } else {
      DivMod(u, W64, 0, u);
    }
  }

  function Abs(x: int): nat { if x < 0 then -x else x }

  /** C's quotient and remainder, truncating toward zero. */
  function TruncDiv(a: int, b: int): int
    requires b != 0
  {
    if (a < 0) == (b < 0) then Abs(a) / Abs(b) else -(Abs(a) / Abs(b))
  }

  function TruncMod(a: int, b: int): int
    requires b != 0
  {
    if a < 0 then -(Abs(a) % Abs(b)) else Abs(a) % Abs(b)
  }

  /** The defining laws of truncated division. */
  lemma TruncLaws(a: int, b: int)
    requires b != 0
    ensures a == TruncDiv(a, b) * b + TruncMod(a, b)
    ensures Abs(TruncMod(a, b)) < Abs(b)
    ensures TruncMod(a, b) != 0 ==> (TruncMod(a, b) < 0 <==> a < 0)
  {
    var q, r := Abs(a) / Abs(b), Abs(a) % Abs(b);
    assert Abs(a) == Abs(b) * q + r;
    if a < 0 { assert a == -(Abs(b) * q) - r; }
    if b < 0 { assert Abs(b) * q == -(q * b); }
  }

  lemma AbsoluteWord(x: int)
    requires IsInt64(x)
    ensures NegateIf(ToWord(x), SignMask(x)) == Abs(x)
  {
    if x < 0 {
      DivMod(x, W64, -1, x + W64);
      DivMod(-(x + W64), W64, -1, -x);
    } else {
      DivMod(x, W64, 0, x);
    }
    NegateIfMeaning(ToWord(x), x < 0);
  }

  /** A magnitude up to 2^63 with a sign, wrapped to 64 bits: exact unless it is +2^63. */
  lemma SignedResult(u: nat, negative: bool)
    requires u <= W63
    ensures var t: int := if negative then -(u as int) else u;
            && ToSigned(if negative then ToWord(-(u as int)) else u) == ToSigned(ToWord(t))
            && (ToSigned(ToWord(t)) == t <==> !(u == W63 && !negative))
  {}

  lemma SignOfQuotient(a: int, b: int)
    ensures Xor64(SignMask(a), SignMask(b)) == Mask64((a < 0) != (b < 0))
  {
    MaskedWord(SignMask(a), b < 0);
  }

  lemma QuotientRange(a: nat, b: nat)
    requires b > 0 && a <= W63
    ensures a / b <= W63
    ensures a / b == W63 ==> a == W63 && b == 1
  {
    var q := a / b;
    assert a == b * q + a % b;
    FactorBound(q, b, a % b);
    if q == W63 { assert b >= 2 ==> b * q >= 2 * q; }
  }

  lemma RemainderRange(a: nat, b: nat)
    requires b > 0 && b <= W63
    ensures a % b < W63
  {}

  /** __divdi3: the truncated quotient modulo 2^64, exact unless it overflows. */
  method Divdi3(a: int, b: int) returns (r: int)
    requires IsInt64(a) && IsInt64(b) && b != 0
    ensures r == ToSigned(ToWord(TruncDiv(a, b)))
    ensures r == TruncDiv(a, b) <==> !(a == -W63 && b == -1)
  {
    var sa, sb := SignMask(a), SignMask(b);
    AbsoluteWord(a);
    AbsoluteWord(b);
    var q, _ := Udivmoddi4(NegateIf(ToWord(a), sa), NegateIf(ToWord(b), sb));
    ghost var negative := (a < 0) != (b < 0);
    SignOfQuotient(a, b);
    sa := Xor64(sa, sb);
    QuotientRange(Abs(a), Abs(b));
    NegateIfMeaning(q, negative);
    SignedResult(q, negative);
    r := ToSigned(NegateIf(q, sa));
  }

  /** __moddi3: the truncated remainder, always representable. */
  method Moddi3(a: int, b: int) returns (r: int)
    requires IsInt64(a) && IsInt64(b) && b != 0
    ensures r == TruncMod(a, b)
  {
    AbsoluteWord(a);
    AbsoluteWord(b);
    var _, u := Udivmoddi4(NegateIf(ToWord(a), SignMask(a)), NegateIf(ToWord(b), SignMask(b)));
    RemainderRange(Abs(a), Abs(b));
    NegateIfMeaning(u, a < 0);
    SignedResult(u, a < 0);
    r := ToSigned(NegateIf(u, SignMask(a)));
  }

  /** __divmoddi4: the remainder is right even when the quotient overflows. */
  method Divmoddi4(a: int, b: int) returns (d: int, rem: int)
    requires IsInt64(a) && IsInt64(b) && b != 0
    ensures d == ToSigned(ToWord(TruncDiv(a, b)))
    ensures rem == TruncMod(a, b)
  {
    d := Divdi3(a, b);
    rem := ToSigned(ToWord(a - ToSigned(ToWord(d * b))));
    TruncLaws(a, b);
    if a == -W63 && b == -1 {
      assert TruncMod(a, b) == 0;
    } else {
      RemainderRange(Abs(a), Abs(b));
      DifferenceFits(a, d * b);
    }
  }

  /** Wrapping the product does not disturb a difference that fits. */
  lemma DifferenceFits(a: int, p: int)
    requires IsInt64(a - p)
    ensures ToSigned(ToWord(a - ToSigned(ToWord(p)))) == a - p
  {
    var k := p / W64;
    assert ToSigned(ToWord(p)) == p - k * W64 || ToSigned(ToWord(p)) == p - (k + 1) * W64;
  }
}
