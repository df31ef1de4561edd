/** 64-bit division and bit counting in terms of 32-bit words
    (abstract-machine/klib/src/int64.c:355-718). */
module Int64 {
  import opened Bits

  const W32: int := 0x1_0000_0000
  const W63: int := 0x8000_0000_0000_0000
  const W64: int := 0x1_0000_0000_0000_0000

  function And32(x: nat, y: nat): nat { Bitwise(AndOp, x, y, 32) }
  function Or32(x: nat, y: nat): nat { Bitwise(OrOp, x, y, 32) }
  function And64(x: nat, y: nat): nat { Bitwise(AndOp, x, y, 64) }
  function Xor64(x: nat, y: nat): nat { Bitwise(XorOp, x, y, 64) }
  function Shl32(x: nat, k: nat): nat { Low(Shl(x, k), 32) }

  /** C's arithmetic on 32-bit unsigned words. */
  function Wrap32(x: int): nat { x % W32 }

  /** -(b) for a truth value b: all ones or zero. */
  function Mask32(b: bool): nat { if b then W32 - 1 else 0 }

  // ----- counting leading zeros -----

  /** c leading zeros in a w-bit word. */
  predicate LeadingZeros(x: nat, w: nat, c: nat) {
    if x == 0 then c == w else c < w && Pow2(w - 1 - c) <= x < Pow2(w - c)
  }

  /** The test of the upper half, 0xFFFF0000, 0xFF00, 0xF0 or 0xC. */
  lemma UpperHalfTest(x: nat, w: nat, mask: nat)
    requires x < Pow2(2 * w) && 2 * w <= 32 && mask == Shl(Pow2(w) - 1, w)
    ensures And32(x, mask) == 0 <==> x < Pow2(w)
  {
    Pow2Monotone(2 * w, 32);
    AndField(x, w, w, 32);
    ShrBound(x, w, w);
    SmallIsLow(Shr(x, w), w);
    ShrLow(x, w);
    ShlPositive(Shr(x, w), w);
  }

  lemma {:induction false} ShlPositive(x: nat, k: nat)
    ensures x == 0 ==> Shl(x, k) == 0
    ensures x > 0 ==> Shl(x, k) >= Pow2(k)
  {
    if k > 0 { ShlPositive(x, k - 1); }
  }

  lemma {:induction false} ShrRange(x: nat, k: nat, a: nat, b: nat)
    requires Pow2(a) <= Shr(x, k) < Pow2(b)
    ensures Pow2(a + k) <= x < Pow2(b + k)
  {
    if k > 0 { ShrRange(x / 2, k - 1, a, b); }
  }

  /** Narrowing the count to one half of the word. */
  lemma HalveLeading(x: nat, w: nat, t: nat, c: nat)
    requires w > 0 && x < Pow2(2 * w) && t == (if x < Pow2(w) then w else 0)
    requires LeadingZeros(Shr(x, w - t), w, c)
    ensures LeadingZeros(x, 2 * w, t + c)
  {
    if t == 0 {
      ShrLow(x, w);
      ShlPositive(Shr(x, w), w);
      ShrRange(x, w, w - 1 - c, w - c);
    }
  }

  lemma HalfBound(x: nat, w: nat, t: nat)
    requires x < Pow2(2 * w) && t == (if x < Pow2(w) then w else 0)
    ensures Shr(x, w - t) < Pow2(w)
  {
    if t == 0 { ShrBound(x, w, w); }
  }

  lemma Masks()
    ensures Shl(Pow2(16) - 1, 16) == 0xFFFF_0000 && Shl(Pow2(8) - 1, 8) == 0xFF00
    ensures Shl(Pow2(4) - 1, 4) == 0xF0 && Shl(Pow2(2) - 1, 2) == 0xC && Shl(Pow2(1) - 1, 1) == 2
  {
    Pow2Small();
    ShlIsMul(0xFFFF, 16);
    ShlIsMul(0xFF, 8);
    ShlIsMul(0xF, 4);
    ShlIsMul(3, 2);
    ShlIsMul(1, 1);
  }

  /** x & -b for a truth value b. */
  lemma AndWithMask(x: nat, b: bool)
    requires x < W32
    ensures And32(x, Mask32(b)) == if b then x else 0
  {
    Pow2At32();
    BitwiseWithOnes(x, 32);
    BitwiseWithZero(x, 32);
  }

  /** One halving: t = ((x & mask) == 0) << log2(w); x >>= w - t. */
  method HalveTowardsTop(x: nat, w: nat, mask: nat) returns (y: nat, t: nat)
    requires x < Pow2(2 * w) && 0 < w <= 16 && mask == Shl(Pow2(w) - 1, w)
    ensures y < Pow2(w) && forall c :: LeadingZeros(y, w, c) ==> LeadingZeros(x, 2 * w, t + c)
  {
    UpperHalfTest(x, w, mask);
    t := if And32(x, mask) == 0 then w else 0;
    y := Shr(x, w - t);
    HalfBound(x, w, t);
    forall c | LeadingZeros(y, w, c) ensures LeadingZeros(x, 2 * w, t + c) {
      HalveLeading(x, w, t, c);
    }
  }

  /** The branch-free last step: (2 - x) & -((x & 2) == 0). */
  lemma LastLeading(x: nat)
    requires x < 4
    ensures And32(Wrap32(W32 + 2 - x), Mask32(And32(x, 2) == 0)) == if x < 2 then 2 - x else 0
  {
    Masks();
    UpperHalfTest(x, 1, 2);
    if x < 2 { DivMod(W32 + 2 - x, W32, 1, 2 - x); }
    AndWithMask(Wrap32(W32 + 2 - x), And32(x, 2) == 0);
  }

  lemma LeadingInTwoBits(x: nat)
    requires x < 4
    ensures LeadingZeros(x, 2, if x < 2 then 2 - x else 0)
  {
    assert Pow2(0) == 1 && Pow2(1) == 2 && Pow2(2) == 4;
  }

  /** The branch-free end of the count. */
  method LastTwoBits(x: nat) returns (c: nat)
    requires x < Pow2(2)
    ensures LeadingZeros(x, 2, c)
  {
    assert x < 4 by { assert Pow2(2) == 4; }
    LastLeading(x);
    LeadingInTwoBits(x);
    c := And32(Wrap32(W32 + 2 - x), Mask32(And32(x, 2) == 0));
  }

  /** The last three steps, on what has been narrowed down to eight bits. */
  method Clz8(x2: nat) returns (r: nat)
    requires x2 < Pow2(8)
    ensures LeadingZeros(x2, 8, r)
  {
    Masks();
    var x3, t3 := HalveTowardsTop(x2, 4, 0xF0);
    var x4, t4 := HalveTowardsTop(x3, 2, 0xC);
    var c := LastTwoBits(x4);
    assert LeadingZeros(x3, 4, t4 + c);
    r := t3 + (t4 + c);
  }

  method Clzsi2(a: nat) returns (r: nat)
    requires a < W32
    ensures LeadingZeros(a, 32, r)
  {
    Pow2Small();
    Pow2At32();
    Masks();
    var x1, t1 := HalveTowardsTop(a, 16, 0xFFFF_0000);
    var x2, t2 := HalveTowardsTop(x1, 8, 0xFF00);
    var c := Clz8(x2);
    assert LeadingZeros(x1, 16, t2 + c);
    r := t1 + (t2 + c);
  }

  // ----- counting trailing zeros -----

  /** The number of zeros below the lowest one bit among the low w bits. */
  function TrailingZeros(x: nat, w: nat): nat
    decreases w, x
  {
    if w == 0 || x % 2 == 1 then 0 else 1 + TrailingZeros(x / 2, w - 1)
  }

  /** A nonzero word is an odd number shifted left by that count. */
  lemma {:induction false} TrailingZerosMeaning(x: nat, w: nat)
    requires 0 < x < Pow2(w)
    ensures TrailingZeros(x, w) < w
    ensures Shl(Shr(x, TrailingZeros(x, w)), TrailingZeros(x, w)) == x
    ensures Shr(x, TrailingZeros(x, w)) % 2 == 1
  {
    if x % 2 == 0 { TrailingZerosMeaning(x / 2, w - 1); }
  }

  lemma {:induction false} TrailingZerosSplit(x: nat, w: nat, v: nat)
    ensures TrailingZeros(x, w + v)
         == if Low(x, w) == 0 then w + TrailingZeros(Shr(x, w), v) else TrailingZeros(x, w)
  {
    if w > 0 { TrailingZerosSplit(x / 2, w - 1, v); }
  }

  /** One halving: t = ((x & mask) == 0) << log2(w); x >>= t. Bits above the field are garbage. */
  method HalveTowardsBottom(x: nat, w: nat, mask: nat) returns (y: nat, t: nat)
    requires x < W32 && w <= 16 && mask == Pow2(w) - 1
    ensures y < W32 && TrailingZeros(x, 2 * w) == t + TrailingZeros(y, w)
  {
    Pow2At32();
    AndLow(x, w, 32);
    t := if And32(x, mask) == 0 then w else 0;
    y := Shr(x, t);
    ShrLow(x, t);
    ShlGrows(y, t);
    TrailingZerosSplit(x, w, w);
  }

  lemma {:induction false} ShlGrows(x: nat, k: nat)
    ensures Shl(x, k) >= x
  {
    if k > 0 { ShlGrows(x, k - 1); }
  }

  method Ctzsi2(a: nat) returns (r: nat)
    requires a < W32
    ensures r == TrailingZeros(a, 32)
  {
    Pow2Small();
    var x, t := HalveTowardsBottom(a, 16, 0xFFFF);
    r := t;
    x, t := HalveTowardsBottom(x, 8, 0xFF);
    r := r + t;
    x, t := HalveTowardsBottom(x, 4, 0xF);
    r := r + t;
    x, t := HalveTowardsBottom(x, 2, 3);
    r := r + t;
    var c := LastTrailing(x);
    r := r + c;
  }

  /** The end of the count: x &= 3; (2 - (x >> 1)) & -((x & 1) == 0). */
  method LastTrailing(x0: nat) returns (c: nat)
    requires x0 < W32
    ensures c == TrailingZeros(x0, 2)
  {
    Pow2At32();
    AndLow(x0, 2, 32);
    LowOneOrTwo(x0);
    var x := And32(x0, 3);
    AndLow(x, 1, 32);
    LowOneOrTwo(x);
    AndWithMask(2 - x / 2, And32(x, 1) == 0);
    c := And32(2 - x / 2, Mask32(And32(x, 1) == 0));
    TrailingInTwoBits(x0);
  }

  lemma LowOneOrTwo(x: nat)
    ensures Low(x, 1) == x % 2 && Low(x, 2) == x % 4
    ensures Pow2(1) == 2 && Pow2(2) == 4
  {
    assert Low(x / 2, 1) == x / 2 % 2 + 2 * Low(x / 2 / 2, 0);
  }

  lemma TrailingInTwoBits(x: nat)
    ensures TrailingZeros(x, 2) == if x % 4 % 2 == 1 then 0 else 2 - x % 4 / 2
  {
    assert TrailingZeros(x / 2, 1) == if x / 2 % 2 == 1 then 0 else 1;
  }

  // ----- 64-bit counts -----

  /** (a & -b) | (c & ~-b): selection by a mask. */
  lemma SelectByMask(a: nat, c: nat, b: bool)
    requires a < W32 && c < W32
    ensures Or32(And32(a, Mask32(b)), And32(c, Mask32(!b))) == if b then a else c
  {
    Pow2At32();
    AndWithMask(a, b);
    AndWithMask(c, !b);
    BitwiseWithZero(a, 32);
    BitwiseWithZero(c, 32);
  }

  method Ctzdi2(a: nat) returns (r: nat)
    requires a < W64
    ensures r == TrailingZeros(a, 64)
  {
    var high, low := a / W32, a % W32;
    var f := low == 0;
    SelectByMask(high, low, f);
    var c := Ctzsi2(Or32(And32(high, Mask32(f)), And32(low, Mask32(!f))));
    AndWithMask32(f);
    r := c + And32(Mask32(f), 32);
    Pow2At32();
    ShrIsDiv(a, 32);
    TrailingZerosSplit(a, 32, 32);
    TrailingZerosOfLow(a, 32);
  }

  lemma AndWithMask32(f: bool)
    ensures And32(Mask32(f), 32) == if f then 32 else 0
  {
    BitwiseCommutes(AndOp, Mask32(f), 32, 32);
    AndWithMask(32, f);
  }

  lemma {:induction false} TrailingZerosOfLow(x: nat, w: nat)
    ensures TrailingZeros(Low(x, w), w) == TrailingZeros(x, w)
  {
    if w > 0 {
      LowStep(x, w);
      TrailingZerosOfLow(x / 2, w - 1);
    }
  }

  method Clzdi2(a: nat) returns (r: nat)
    requires a < W64
    ensures LeadingZeros(a, 64, r)
  {
    var high, low := a / W32, a % W32;
    var f := high == 0;
    SelectByMask(low, high, f);
    BitwiseCommutes(OrOp, And32(low, Mask32(f)), And32(high, Mask32(!f)), 32);
    var c := Clzsi2(Or32(And32(high, Mask32(!f)), And32(low, Mask32(f))));
    AndWithMask32(f);
    r := c + And32(Mask32(f), 32);
    LeadingOfHalves(a, c);
  }

  lemma LeadingOfHalves(a: nat, c: nat)
    requires a < W64
    requires LeadingZeros(if a / W32 == 0 then a % W32 else a / W32, 32, c)
    ensures LeadingZeros(a, 64, (if a / W32 == 0 then 32 else 0) + c)
  {
    Pow2At32();
    Pow2At64();
    ShrIsDiv(a, 32);
    HalveLeading(a, 32, if a / W32 == 0 then 32 else 0, c);
  }
}
