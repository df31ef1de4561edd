/** __udivmoddi4 (abstract-machine/klib/src/int64.c:412-620). A 64-bit
    value is held in two 32-bit halves, as in the source's `udwords`. */
module Int64Div {
  import opened Bits
  import opened Int64

  function Join(high: nat, low: nat): nat { high * W32 + low }

  // ----- shifting a pair of halves -----

  lemma {:induction false} ShlBound(x: nat, l: nat, a: nat, b: nat)
    requires x < Pow2(a) && l < Pow2(b)
    ensures Shl(x, b) + l < Pow2(a + b)
  {
    if b > 0 { ShlBound(x, l / 2, a, b - 1); }
  }

  lemma JoinIsShl(high: nat, low: nat)
    ensures Join(high, low) == Shl(high, 32) + low
  {
    Pow2At32();
    ShlIsMul(high, 32);
  }

  /** Shifting right by s inside a number split at bit k. */
  lemma ShrOfSplit(a: nat, b: nat, k: nat, s: nat)
    requires b < Pow2(k) && s <= k
    ensures Shr(Shl(a, k) + b, s) == Shl(a, k - s) + Shr(b, s)
    ensures Low(Shl(a, k) + b, s) == Low(b, s)
  {
    ShlShl(a, k - s, s);
    ShrLow(b, s);
    ShlAdd(Shl(a, k - s), Shr(b, s), s);
    SplitUnique(Shl(a, k - s) + Shr(b, s), Low(b, s), s);
  }

  /** Shifting left by k and truncating to n bits keeps the low n - k bits; the rest is carried out. */
  lemma ShlSplits(x: nat, k: nat, n: nat)
    requires k <= n
    ensures Low(Shl(x, k), n) == Shl(Low(x, n - k), k)
    ensures Shl(x, k) == Shl(Shr(x, n - k), n) + Low(Shl(x, k), n)
  {
    var s := n - k;
    ShrLow(x, s);
    ShlAdd(Shl(Shr(x, s), s), Low(x, s), k);
    ShlShl(Shr(x, s), s, k);
    ShlBound(Low(x, s), 0, s, k);
    SplitUnique(Shr(x, s), Shl(Low(x, s), k), n);
  }

  lemma Shl32Splits(x: nat, k: nat)
    requires k <= 32
    ensures Shl32(x, k) == Shl(Low(x, 32 - k), k)
    ensures Shl(x, k) == Join(Shr(x, 32 - k), Shl32(x, k))
  {
    ShlSplits(x, k, 32);
    JoinIsShl(Shr(x, 32 - k), Shl32(x, k));
  }

  /** The two-word shift (h << (32 - s)) | (l >> s). */
  lemma FunnelShift(h: nat, l: nat, s: nat)
    requires h < W32 && l < W32 && 0 < s < 32
    ensures Or32(Shl32(h, 32 - s), Shr(l, s)) == Shl32(h, 32 - s) + Shr(l, s)
    ensures Join(Shr(h, s), Or32(Shl32(h, 32 - s), Shr(l, s))) == Shr(Join(h, l), s)
    ensures Shl32(h, 32 - s) + Shr(l, s) < W32
  {
    Pow2At32();
    Shl32Splits(h, 32 - s);
    ShrBound(l, s, 32 - s);
    ShrLow(h, s);
    OrOfDisjoint(Low(h, s), Shr(l, s), 32 - s, s);
    ShlBound(Low(h, s), Shr(l, s), s, 32 - s);
    JoinIsShl(h, l);
    ShrOfSplit(h, l, 32, s);
  }

  // ----- the starting point of the division loop -----

  /** r = n >> sr and q = n << (64 - sr). */
  predicate Aligned(n: nat, sr: nat, q: nat, r: nat) {
    0 < sr < 64 && r == Shr(n, sr) && q == Shl(Low(n, sr), 64 - sr)
  }

  lemma AlignBelow32(nh: nat, nl: nat, sr: nat)
    requires nh < W32 && nl < W32 && 0 < sr < 32
    ensures Aligned(Join(nh, nl), sr, Join(Shl32(nl, 32 - sr), 0),
                    Join(Shr(nh, sr), Or32(Shl32(nh, 32 - sr), Shr(nl, sr))))
  {
    FunnelShift(nh, nl, sr);
    JoinIsShl(nh, nl);
    Pow2At32();
    ShrOfSplit(nh, nl, 32, sr);
    Shl32Splits(nl, 32 - sr);
    ShlShl(Low(nl, sr), 32 - sr, 32);
    JoinIsShl(Shl32(nl, 32 - sr), 0);
  }

  lemma AlignAt32(nh: nat, nl: nat)
    requires nh < W32 && nl < W32
    ensures Aligned(Join(nh, nl), 32, Join(nl, 0), nh)
  {
    Pow2At32();
    JoinIsShl(nh, nl);
    JoinIsShl(nl, 0);
    SplitUnique(nh, nl, 32);
  }

  lemma AlignAbove32(nh: nat, nl: nat, sr: nat)
    requires nh < W32 && nl < W32 && 32 < sr < 64
    ensures Aligned(Join(nh, nl), sr,
                    Join(Or32(Shl32(nh, 64 - sr), Shr(nl, sr - 32)), Shl32(nl, 64 - sr)), Shr(nh, sr - 32))
  {
    HighPart(nh, nl, sr - 32);
    FunnelShift(nh, nl, sr - 32);
    FunnelQuotient(nh, nl, sr - 32);
  }

  /** Cutting a pair above its low half. */
  lemma HighPart(nh: nat, nl: nat, u: nat)
    requires nl < W32
    ensures Shr(Join(nh, nl), 32 + u) == Shr(nh, u)
    ensures Low(Join(nh, nl), 32 + u) == Shl(Low(nh, u), 32) + nl
  {
    Pow2At32();
    JoinIsShl(nh, nl);
    SplitUnique(nh, nl, 32);
    ShrShr(Join(nh, nl), 32, u);
    LowShr(Join(nh, nl), 32, u);
  }

  lemma FunnelQuotient(nh: nat, nl: nat, u: nat)
    requires u < 32
    ensures Shl(Shl(Low(nh, u), 32) + nl, 32 - u)
         == Join(Shl32(nh, 32 - u) + Shr(nl, u), Shl32(nl, 32 - u))
  {
    var x := Low(nh, u);
    Shl32Splits(nh, 32 - u);
    Shl32Splits(nl, 32 - u);
    ShlAdd(Shl(x, 32), nl, 32 - u);
    ShlShl(x, 32, 32 - u);
    ShlShl(x, 32 - u, 32);
    JoinIsShl(Shl(x, 32 - u), 0);
  }

  lemma {:induction false} LowShr(x: nat, a: nat, b: nat)
    ensures Low(x, a + b) == Low(x, a) + Shl(Low(Shr(x, a), b), a)
  {
    if a > 0 { LowShr(x / 2, a - 1, b); }
  }

  // ----- one iteration of the loop -----

  lemma TopBit(x: nat)
    requires x < W32
    ensures Shr(x, 31) == x / 0x8000_0000 && Low(x, 31) == x % 0x8000_0000
  {
    Pow2At32();
    assert Pow2(32) == 2 * Pow2(31);
    ShrIsDiv(x, 31);
  }

  /** (x << 1) | b on n-bit words. */
  lemma ShiftInBit(x: nat, b: nat, n: nat)
    requires n > 0 && b <= 1
    ensures Bitwise(OrOp, Low(Shl(x, 1), n), b, n) == 2 * Low(x, n - 1) + b
  {
    assert Shl(x, 1) == 2 * x;
    LowStep(2 * x, n);
    ShrLow(x, n - 1);
    BitwiseWithZero(Low(x, n - 1), n - 1);
  }

  lemma ShiftIn(x: nat, b: nat)
    requires x < W32 && b <= 1
    ensures Or32(Shl32(x, 1), b) == 2 * x % W32 + b
  {
    ShiftInBit(x, b, 32);
    TopBit(x);
    DoubleMod(x);
  }

  lemma DoubleMod(x: nat)
    ensures 2 * x % W32 == 2 * (x % 0x8000_0000)
  {}

  /** Shifting two halves at once, in numbers. */
  lemma ShiftHalves(h: nat, l: nat, c: nat)
    requires h < W32 && l < W32 && c <= 1
    ensures Join(2 * h % W32 + l / 0x8000_0000, 2 * l % W32 + c) == (2 * Join(h, l) + c) % W64
    ensures Join(h, l) / W63 == h / 0x8000_0000
  {
    var a, b := h / 0x8000_0000, l / 0x8000_0000;
    assert 2 * h % W32 == 2 * h - a * W32 && 2 * l % W32 == 2 * l - b * W32;
    assert 2 * Join(h, l) + c == a * W64 + Join(2 * h % W32 + b, 2 * l % W32 + c);
    DivMod(2 * Join(h, l) + c, W64, a, Join(2 * h % W32 + b, 2 * l % W32 + c));
    DivMod(Join(h, l), W63, a, Join(h % 0x8000_0000, l));
  }

  lemma ShiftTwo(h: nat, l: nat, c: nat)
    requires h < W32 && l < W32 && c <= 1
    ensures Join(Or32(Shl32(h, 1), Shr(l, 31)), Or32(Shl32(l, 1), c)) == (2 * Join(h, l) + c) % W64
  {
    TopBit(l);
    ShiftIn(h, l / 0x8000_0000);
    ShiftIn(l, c);
    ShiftHalves(h, l, c);
  }

  lemma TopOfPair(h: nat, l: nat)
    requires h < W32 && l < W32
    ensures Shr(h, 31) == Join(h, l) / W63 <= 1
  {
    TopBit(h);
    ShiftHalves(h, l, 0);
  }

  /** The state of the division: the quotient bits so far, twice low plus the carry, times d plus
      the remainder make up all but the sr bits of n still waiting at the top of q. */
  ghost predicate Dividing(n: nat, d: nat, sr: nat, q: nat, r: nat, carry: nat, low: nat, top: nat) {
    && sr < 64 && carry <= 1
    && low < Pow2(64 - sr) && top < Pow2(sr)
    && q == Shl(top, 64 - sr) + low
    && n == Shl((2 * low + carry) * d + r, sr) + top
    && r < d
    && (d > W63 && sr > 0 ==> sr == 1 && low == 0 && carry == 0 && n >= W63)
  }

  lemma DividingStarts(n: nat, d: nat, sr: nat, q: nat, r: nat)
    requires Aligned(n, sr, q, r) && r < d
    requires d > W63 ==> sr == 1 && n >= W63
    ensures Dividing(n, d, sr, q, r, 0, 0, Low(n, sr))
  {
    ShrLow(n, sr);
  }

  /** Taking the next bit of n off the top of q. */
  lemma NextBit(q: nat, sr: nat, low: nat, top: nat)
    requires 0 < sr < 64 && low < Pow2(64 - sr) && top < Pow2(sr) && q == Shl(top, 64 - sr) + low
    ensures Shr(top, sr - 1) <= 1 && Low(top, sr - 1) < Pow2(sr - 1)
    ensures q / W63 == Shr(top, sr - 1)
    ensures 2 * q % W64 == Shl(Low(top, sr - 1), 64 - (sr - 1)) + 2 * low
  {
    TopSplits(q, sr, low, top);
    DoubleSplit(Shr(top, sr - 1), Shl(Low(top, sr - 1), 64 - sr) + low);
    assert Shl(Low(top, sr - 1), 64 - (sr - 1)) == 2 * Shl(Low(top, sr - 1), 64 - sr);
  }

  /** The register, divided at its top bit. */
  lemma TopSplits(q: nat, sr: nat, low: nat, top: nat)
    requires 0 < sr < 64 && low < Pow2(64 - sr) && top < Pow2(sr) && q == Shl(top, 64 - sr) + low
    ensures Shr(top, sr - 1) <= 1 && Low(top, sr - 1) < Pow2(sr - 1)
    ensures q == Shr(top, sr - 1) * W63 + (Shl(Low(top, sr - 1), 64 - sr) + low)
    ensures Shl(Low(top, sr - 1), 64 - sr) + low < W63
  {
    var b, rest := Shr(top, sr - 1), Low(top, sr - 1);
    Pow2At64();
    ShrLow(top, sr - 1);
    ShrBound(top, sr - 1, 1);
    assert Pow2(1) == 2;
    ShlAdd(Shl(b, sr - 1), rest, 64 - sr);
    ShlShl(b, sr - 1, 64 - sr);
    ShlIsMul(b, 63);
    ShlBound(rest, low, sr - 1, 64 - sr);
  }

  lemma DoubleSplit(b: nat, y: nat)
    requires b <= 1 && y < W63
    ensures (b * W63 + y) / W63 == b && 2 * (b * W63 + y) % W64 == 2 * y
  {
    DivMod(b * W63 + y, W63, b, y);
    DivMod(2 * (b * W63 + y), W64, b, 2 * y);
  }

  /** The sign of d - r - 1, computed modulo 2^64, tells whether r >= d. */
  lemma SignTest(d: nat, r: nat)
    requires 0 < d < W64 && r < W64
    requires d <= W63 ==> r < 2 * d
    requires d > W63 ==> r >= W63
    ensures (W64 + d - r - 1) % W64 >= W63 <==> r >= d
  {}

  /** The top waiting bit moves over to the part of the dividend consumed so far. */
  lemma NextDividend(n: nat, s: nat, sr: nat, top: nat)
    requires sr > 0 && top < Pow2(sr) && n == Shl(s, sr) + top
    ensures Shr(top, sr - 1) <= 1 && Low(top, sr - 1) < Pow2(sr - 1)
    ensures n == Shl(2 * s + Shr(top, sr - 1), sr - 1) + Low(top, sr - 1)
  {
    ShrLow(top, sr - 1);
    ShrBound(top, sr - 1, 1);
    assert Pow2(1) == 2;
    ShlAdd(2 * s, Shr(top, sr - 1), sr - 1);
    ShlOfDouble(s, sr - 1);
  }

  /** The next bit of n joins the remainder; the sign test on it is right. */
  lemma NextRemainder(n: nat, d: nat, sr: nat, q: nat, r: nat, carry: nat, low: nat, top: nat)
    requires Dividing(n, d, sr, q, r, carry, low, top) && sr > 0 && n < W64 && 0 < d < W64
    ensures Shr(top, sr - 1) <= 1 && Low(top, sr - 1) < Pow2(sr - 1)
    ensures n == Shl(2 * ((2 * low + carry) * d + r) + Shr(top, sr - 1), sr - 1) + Low(top, sr - 1)
    ensures var r1 := 2 * r + Shr(top, sr - 1);
            r1 < W64 && ((W64 + d - r1 - 1) % W64 >= W63 <==> r1 >= d)
  {
    var b, s := Shr(top, sr - 1), (2 * low + carry) * d + r;
    NextDividend(n, s, sr, top);
    if d > W63 { assert s == r && Shl(2 * s + b, 0) == 2 * r + b; }
    SignTest(d, 2 * r + b);
  }

  /** Where an iteration takes the division: one more bit of n, one more bit of quotient. */
  lemma DivideStep(n: nat, d: nat, sr: nat, q: nat, r: nat, carry: nat, low: nat, top: nat)
    requires Dividing(n, d, sr, q, r, carry, low, top) && sr > 0 && n < W64 && 0 < d < W64
    ensures var r1 := 2 * r + q / W63;
            && r1 < W64
            && ((W64 + d - r1 - 1) % W64 >= W63 <==> r1 >= d)
            && var c1 := if r1 >= d then 1 else 0;
               Dividing(n, d, sr - 1, (2 * q + carry) % W64, r1 - c1 * d, c1, 2 * low + carry, Low(top, sr - 1))
  {
    NextBit(q, sr, low, top);
    NextRemainder(n, d, sr, q, r, carry, low, top);
    var b := Shr(top, sr - 1);
    var c1 := if 2 * r + b >= d then 1 else 0;
    NextQuotientBit(low, carry, d, r, b, c1);
    NoWrap(2 * q % W64, q, carry);
  }

  lemma NextQuotientBit(low: nat, carry: nat, d: nat, r: nat, b: nat, c1: nat)
    requires c1 <= 1 && 2 * r + b >= c1 * d
    ensures 2 * ((2 * low + carry) * d + r) + b == (2 * (2 * low + carry) + c1) * d + (2 * r + b - c1 * d)
  {
    var k := 2 * low + carry;
    assert (2 * k + c1) * d == 2 * (k * d) + c1 * d;
  }

  lemma NoWrap(m: nat, q: nat, c: nat)
    requires m == 2 * q % W64 && c <= 1
    ensures (2 * q + c) % W64 == m + c
  {
    var k := 2 * q / W64;
    assert m == 2 * (q - k * W63);
    DivMod(2 * q + c, W64, k, m + c);
  }

  /** x ^ mask and d & mask for a 64-bit mask of all ones or none. */
  lemma MaskedWord(x: nat, b: bool)
    requires x < W64
    ensures And64(x, Mask64(b)) == if b then x else 0
    ensures Xor64(x, Mask64(b)) == if b then W64 - 1 - x else x
    ensures And64(Mask64(b), 1) == if b then 1 else 0
  {
    Pow2At64();
    BitwiseWithOnes(x, 64);
    BitwiseWithZero(x, 64);
    BitwiseCommutes(AndOp, Mask64(b), 1, 64);
    BitwiseWithOnes(1, 64);
    BitwiseWithZero(1, 64);
  }

  /** -1 or 0 as a 64-bit word. */
  function Mask64(b: bool): nat { if b then W64 - 1 else 0 }

  /** Two words shifted left by one, a bit coming in. */
  method ShiftPair(h: nat, l: nat, bit: nat) returns (h': nat, l': nat)
    requires h < W32 && l < W32 && bit <= 1
    ensures h' < W32 && l' < W32
    ensures Join(h', l') == (2 * Join(h, l) + bit) % W64
  {
    ShiftTwo(h, l, bit);
    h' := Or32(Shl32(h, 1), Shr(l, 31));
    l' := Or32(Shl32(l, 1), bit);
    WordBound(Shl32(h, 1), Shr(l, 31));
    WordBound(Shl32(l, 1), bit);
  }

  /** r:q = (r:q << 1) | carry. */
  method ShiftRegisters(qh: nat, ql: nat, rh: nat, rl: nat, carry: nat)
    returns (qh': nat, ql': nat, rh': nat, rl': nat)
    requires qh < W32 && ql < W32 && rh < W32 && rl < W32 && carry <= 1
    ensures qh' < W32 && ql' < W32
    ensures Join(rh', rl') == (2 * Join(rh, rl) + Join(qh, ql) / W63) % W64
    ensures Join(qh', ql') == (2 * Join(qh, ql) + carry) % W64
  {
    TopOfPair(qh, ql);
    rh', rl' := ShiftPair(rh, rl, Shr(qh, 31));
    qh', ql' := ShiftPair(qh, ql, carry);
  }

  lemma WrappedDifference(x: nat, y: nat)
    requires y <= x < W64
    ensures (W64 + x - y) % W64 == x - y
  {}

  /** Subtract d from r if that does not go below zero, deciding by the sign bit of d - r - 1 and
      without a branch. */
  method SubtractIfFits(d: nat, r: nat) returns (r': nat, carry: nat)
    requires 0 < d < W64 && r < W64
    requires (W64 + d - r - 1) % W64 >= W63 <==> r >= d
    ensures carry == (if r >= d then 1 else 0)
    ensures r' == (if r >= d then r - d else r)
  {
    var negative := (W64 + d - r - 1) % W64 >= W63;
    var s := Mask64(negative);
    MaskedWord(d, negative);
    carry := And64(s, 1);
    r' := (W64 + r - And64(d, s)) % W64;
    WrappedDifference(r, And64(d, s));
  }

  /** The body of the loop. */
  method Iterate(ghost n: nat, d: nat, ghost sr: nat, qh: nat, ql: nat, rh: nat, rl: nat, carry: nat,
                 ghost low: nat, ghost top: nat)
    returns (qh': nat, ql': nat, rh': nat, rl': nat, carry': nat)
    requires n < W64 && 0 < d < W64 && sr > 0
    requires qh < W32 && ql < W32 && rh < W32 && rl < W32
    requires Dividing(n, d, sr, Join(qh, ql), Join(rh, rl), carry, low, top)
    ensures qh' < W32 && ql' < W32 && rh' < W32 && rl' < W32
    ensures Dividing(n, d, sr - 1, Join(qh', ql'), Join(rh', rl'), carry', 2 * low + carry, Low(top, sr - 1))
  {
    ghost var r0, q0 := Join(rh, rl), Join(qh, ql);
    DivideStep(n, d, sr, q0, r0, carry, low, top);
    qh', ql', rh', rl' := ShiftRegisters(qh, ql, rh, rl, carry);
    ghost var r1 := 2 * r0 + q0 / W63;
    SmallMod(r1);
    assert Join(rh', rl') == r1;
    var r;
    r, carry' := SubtractIfFits(d, Join(rh', rl'));
    rh', rl' := r / W32, r % W32;
    Halves(r);
    assert carry' * d == if r1 >= d then d else 0;
  }

  lemma SmallMod(x: nat)
    requires x < W64
    ensures x % W64 == x
  {}

  lemma Halves(x: nat)
    ensures Join(x / W32, x % W32) == x
    ensures x < W64 ==> x / W32 < W32
  {}

  lemma WordBound(x: nat, y: nat)
    ensures Or32(x, y) < W32
  {
    Pow2At32();
    BitwiseBound(OrOp, x, y, 32);
  }

  /** The loop at the end of __udivmoddi4. */
  method DivideLoop(ghost n: nat, d: nat, sr0: nat, qh0: nat, ql0: nat, rh0: nat, rl0: nat) returns (q: nat, rem: nat)
    requires n < W64 && 0 < d < W64
    requires qh0 < W32 && ql0 < W32 && rh0 < W32 && rl0 < W32
    requires Aligned(n, sr0, Join(qh0, ql0), Join(rh0, rl0)) && Join(rh0, rl0) < d
    requires d > W63 ==> sr0 == 1 && n >= W63
    ensures q == n / d && rem == n % d
  {
    var sr: nat, qh: nat, ql: nat, rh: nat, rl: nat, carry: nat := sr0, qh0, ql0, rh0, rl0, 0;
    ghost var low: nat, top: nat := 0, Low(n, sr);
    DividingStarts(n, d, sr, Join(qh, ql), Join(rh, rl));
    while sr > 0
      invariant qh < W32 && ql < W32 && rh < W32 && rl < W32
      invariant Dividing(n, d, sr, Join(qh, ql), Join(rh, rl), carry, low, top)
    {
      ghost var c := carry;
      qh, ql, rh, rl, carry := Iterate(n, d, sr, qh, ql, rh, rl, carry, low, top);
      low, top := 2 * low + c, Low(top, sr - 1);
      sr := sr - 1;
    }
    DividingEnds(n, d, Join(qh, ql), Join(rh, rl), carry, low, top);
    q := Bitwise(OrOp, Low(Shl(Join(qh, ql), 1), 64), carry, 64);
    rem := Join(rh, rl);
  }

  lemma DividingEnds(n: nat, d: nat, q: nat, r: nat, carry: nat, low: nat, top: nat)
    requires Dividing(n, d, 0, q, r, carry, low, top) && n < W64 && 0 < d
    ensures Bitwise(OrOp, Low(Shl(q, 1), 64), carry, 64) == n / d && r == n % d
  {
    assert top == 0 && n == (2 * low + carry) * d + r;
    assert Shl(0, 64) == 0 by { ShlIsMul(0, 64); }
    DivMod(n, d, 2 * low + carry, r);
    FactorBound(2 * low + carry, d, r);
    ShiftInBit(q, carry, 64);
    assert q < Pow2(63) by { Pow2At64(); }
    SmallIsLow(q, 63);
  }

  lemma FactorBound(k: nat, d: nat, r: nat)
    requires d > 0
    ensures k <= k * d + r
  {}

  // ----- __udivmoddi4 -----

  lemma PairOrder(nh: nat, nl: nat, dh: nat, dl: nat)
    requires nl < W32 && dl < W32 && nh < dh
    ensures Join(nh, nl) < Join(dh, dl)
  {}

  /** Shifting n right by the difference of the leading zeros, plus one, brings it below d. */
  lemma AlignedBelow(n: nat, d: nat, cn: nat, cd: nat, sr: nat)
    requires LeadingZeros(n, 64, cn) && LeadingZeros(d, 64, cd) && n > 0 && d > 0
    requires sr == cd + 1 - cn && cd >= cn
    ensures Shr(n, sr) < d
  {
    ShrBound(n, sr, 63 - cd);
  }

  lemma LeadingOfPair(h: nat, l: nat, c: nat)
    requires 0 < h < W32 && l < W32 && LeadingZeros(h, 32, c)
    ensures LeadingZeros(Join(h, l), 64, c)
  {
    Pow2At32();
    JoinIsShl(h, l);
    SplitUnique(h, l, 32);
    ShrRange(Join(h, l), 32, 31 - c, 32 - c);
  }

  lemma LeadingOfLow(l: nat, c: nat)
    requires 0 < l < W32 && LeadingZeros(l, 32, c)
    ensures LeadingZeros(l, 64, 32 + c)
  {}

  /** Dividing by a power of two held in the high half. */
  lemma HighPowerOfTwo(nh: nat, nl: nat, k: nat)
    requires nl < W32
    ensures Join(nh, nl) / Join(Pow2(k), 0) == Shr(nh, k)
    ensures Join(nh, nl) % Join(Pow2(k), 0) == Join(Low(nh, k), nl)
  {
    ShrLow(nh, k);
    ShlIsMul(Shr(nh, k), k);
    var q, p := Shr(nh, k), Pow2(k);
    Reassociate(q, p, W32);
    PairOrder(Low(nh, k), nl, p, 0);
    DivMod(Join(nh, nl), Join(p, 0), q, Join(Low(nh, k), nl));
  }

  lemma Reassociate(x: int, y: int, z: int)
    ensures x * (y * z) == (x * y) * z
  {}

  lemma {:induction false} TrailingZerosOfPow2(k: nat, w: nat)
    requires k < w
    ensures TrailingZeros(Pow2(k), w) == k
  {
    if k > 0 { TrailingZerosOfPow2(k - 1, w - 1); }
  }

  /** q = n << (64 - sr) and r = n >> sr, half by half, and then the loop. */
  method AlignAndDivide(nh: nat, nl: nat, d: nat, sr: nat) returns (q: nat, rem: nat)
    requires nh < W32 && nl < W32 && 0 < d < W64 && 0 < sr < 64
    requires Shr(Join(nh, nl), sr) < d
    requires d > W63 ==> sr == 1 && Join(nh, nl) >= W63
    ensures q == Join(nh, nl) / d && rem == Join(nh, nl) % d
  {
    if sr == 32 {
      AlignAt32(nh, nl);
      q, rem := DivideLoop(Join(nh, nl), d, sr, nl, 0, 0, nh);
    } else if sr < 32 {
      AlignBelow32(nh, nl, sr);
      HalvesInRange(nh, nl, sr);
      q, rem := DivideLoop(Join(nh, nl), d, sr, Shl32(nl, 32 - sr), 0,
                           Shr(nh, sr), Or32(Shl32(nh, 32 - sr), Shr(nl, sr)));
    } else {
      AlignAbove32(nh, nl, sr);
      HalvesInRange(nh, nl, sr - 32);
      q, rem := DivideLoop(Join(nh, nl), d, sr, Or32(Shl32(nh, 64 - sr), Shr(nl, sr - 32)), Shl32(nl, 64 - sr),
                           0, Shr(nh, sr - 32));
    }
  }

  /** Both halves of the divisor matter: K X / K K and K K / K 0 after the special cases. */
  method DivideByHigh(nh: nat, nl: nat, dh: nat, dl: nat, limit: nat) returns (q: nat, rem: nat)
    requires 0 < nh < W32 && nl < W32 && 0 < dh < W32 && dl < W32
    requires limit == 31 || (limit == 30 && dh > 1)
    ensures q == Join(nh, nl) / Join(dh, dl) && rem == Join(nh, nl) % Join(dh, dl)
  {
    var cd := Clzsi2(dh);
    var cn := Clzsi2(nh);
    var sr := Wrap32(cd as int - cn as int);
    HighBitOrder(nh, dh, cn, cd);
    WrappedCounts(cd, cn);
    if sr > limit {
      SmallerDividend(nh, nl, dh, dl);
      return 0, Join(nh, nl);
    }
    AlignedForHigh(nh, nl, dh, dl, cn, cd);
    q, rem := AlignAndDivide(nh, nl, Join(dh, dl), sr + 1);
  }

  lemma WrappedCounts(cd: int, cn: int)
    requires 0 <= cd <= 32 && 0 <= cn <= 32
    ensures Wrap32(cd - cn) == if cd >= cn then cd - cn else cd - cn + W32
  {
    DivMod(cd - cn, W32, if cd >= cn then 0 else -1, if cd >= cn then cd - cn else cd - cn + W32);
  }

  lemma SmallerDividend(nh: nat, nl: nat, dh: nat, dl: nat)
    requires nl < W32 && dl < W32 && nh < dh
    ensures Join(nh, nl) / Join(dh, dl) == 0 && Join(nh, nl) % Join(dh, dl) == Join(nh, nl)
  {
    PairOrder(nh, nl, dh, dl);
    DivMod(Join(nh, nl), Join(dh, dl), 0, Join(nh, nl));
  }

  lemma AlignedForHigh(nh: nat, nl: nat, dh: nat, dl: nat, cn: nat, cd: nat)
    requires 0 < nh < W32 && nl < W32 && 0 < dh < W32 && dl < W32 && cn <= cd
    requires LeadingZeros(nh, 32, cn) && LeadingZeros(dh, 32, cd)
    ensures Shr(Join(nh, nl), cd + 1 - cn) < Join(dh, dl) < W64
    ensures Join(dh, dl) > W63 ==> cd == cn && Join(nh, nl) >= W63
  {
    LeadingOfPair(nh, nl, cn);
    LeadingOfPair(dh, dl, cd);
    AlignedBelow(Join(nh, nl), Join(dh, dl), cn, cd, cd + 1 - cn);
    if Join(dh, dl) > W63 { TopHeavy(Join(nh, nl), Join(dh, dl), cn, cd); }
  }

  lemma HalvesInRange(nh: nat, nl: nat, sr: nat)
    requires nh < W32 && nl < W32 && 0 < sr < 32
    ensures Shl32(nl, 32 - sr) < W32 && Shr(nh, sr) < W32 && Shl32(nh, 32 - sr) < W32
    ensures Or32(Shl32(nh, 32 - sr), Shr(nl, sr)) < W32
  {
    Pow2At32();
    ShrLow(Shl(nl, 32 - sr), 32);
    ShrLow(Shl(nh, 32 - sr), 32);
    WordBound(Shl32(nh, 32 - sr), Shr(nl, sr));
    ShrLow(nh, sr);
    ShlGrows(Shr(nh, sr), sr);
  }

  /** More leading zeros means a smaller number, and a word with 31 of them is 1. */
  lemma HighBitOrder(nh: nat, dh: nat, cn: nat, cd: nat)
    requires nh > 0 && dh > 0 && LeadingZeros(nh, 32, cn) && LeadingZeros(dh, 32, cd)
    ensures cn > cd ==> nh < dh
    ensures cd == 31 ==> dh == 1
  {
    if cn > cd { Pow2Monotone(32 - cn, 31 - cd); }
  }

  /** A divisor above 2^63 and a dividend that is not shorter both use the top bit. */
  lemma TopHeavy(n: nat, d: nat, cn: nat, cd: nat)
    requires n > 0 && d > W63 && cn <= cd && LeadingZeros(n, 64, cn) && LeadingZeros(d, 64, cd)
    ensures cn == 0 && cd == 0 && n >= W63
  {
    Pow2At64();
    if cd > 0 { Pow2Monotone(64 - cd, 63); }
  }

  /** K X / 0 K: a divisor of one word, not a power of two. */
  method DivideByLow(nh: nat, nl: nat, dl: nat) returns (q: nat, rem: nat)
    requires 0 < nh < W32 && nl < W32 && 2 < dl < W32
    ensures q == Join(nh, nl) / dl && rem == Join(nh, nl) % dl
  {
    var cd := Clzsi2(dl);
    var cn := Clzsi2(nh);
    var sr := 1 + 32 + cd - cn;
    LeadingOfPair(nh, nl, cn);
    LeadingOfLow(dl, cd);
    AlignedBelow(Join(nh, nl), dl, cn, 32 + cd, sr);
    HighBitOrder(nh, dl, cn, cd);
    q, rem := AlignAndDivide(nh, nl, dl, sr);
  }

  /** K X / 0 K with a power of two. */
  method DivideByPowerOfTwo(nh: nat, nl: nat, dl: nat) returns (q: nat, rem: nat)
    requires nh < W32 && nl < W32 && 0 < dl < W32 && And32(dl, dl - 1) == 0
    ensures q == Join(nh, nl) / dl && rem == Join(nh, nl) % dl
  {
    Pow2At32();
    ghost var k := PowerOfTwoTest(dl, 32);
    JoinIsShl(nh, nl);
    ShrOfSplit(nh, nl, 32, k);
    ShrIsDiv(Join(nh, nl), k);
    AndLow(nl, k, 32);
    rem := And32(nl, dl - 1);
    if dl == 1 { return Join(nh, nl), rem; }
    var sr := Ctzsi2(dl);
    TrailingZerosOfPow2(k, 32);
    FunnelShift(nh, nl, sr);
    q := Join(Shr(nh, sr), Or32(Shl32(nh, 32 - sr), Shr(nl, sr)));
  }

  /** K K / K 0 where the high half is a power of two. */
  method DivideByHighPower(nh: nat, nl: nat, dh: nat) returns (q: nat, rem: nat)
    requires nh < W32 && nl < W32 && 0 < dh < W32 && And32(dh, dh - 1) == 0
    ensures q == Join(nh, nl) / Join(dh, 0) && rem == Join(nh, nl) % Join(dh, 0)
  {
    Pow2At32();
    ghost var k := PowerOfTwoTest(dh, 32);
    AndLow(nh, k, 32);
    TrailingZerosOfPow2(k, 32);
    HighPowerOfTwo(nh, nl, k);
    var c := Ctzsi2(dh);
    return Shr(nh, c), Join(And32(nh, dh - 1), nl);
  }

  /** K X / K 0: the low half of the divisor is zero. */
  method DivideByHighOnly(nh: nat, nl: nat, dh: nat) returns (q: nat, rem: nat)
    requires 0 < nh < W32 && nl < W32 && 0 < dh < W32
    ensures q == Join(nh, nl) / Join(dh, 0) && rem == Join(nh, nl) % Join(dh, 0)
  {
    if nl == 0 {
      CommonFactor(nh, dh);
      return nh / dh, Join(nh % dh, 0);
    }
    if And32(dh, dh - 1) == 0 {
      q, rem := DivideByHighPower(nh, nl, dh);
      return;
    }
    assert And32(1, 0) == 0 by { Pow2At32(); BitwiseWithZero(1, 32); }
    q, rem := DivideByHigh(nh, nl, dh, 0, 30);
  }

  lemma CommonFactor(a: nat, b: nat)
    requires b > 0
    ensures Join(a, 0) / Join(b, 0) == a / b && Join(a, 0) % Join(b, 0) == Join(a % b, 0)
  {
    var q, r := a / b, a % b;
    assert a * W32 == q * (b * W32) + r * W32 by { assert a == q * b + r; assert (q * b) * W32 == q * (b * W32); }
    DivMod(a * W32, b * W32, q, r * W32);
  }

  /** __udivmoddi4: exact quotient and remainder for every divisor other than zero. */
  method Udivmoddi4(a: nat, b: nat) returns (q: nat, rem: nat)
    requires a < W64 && 0 < b < W64
    ensures q == a / b && rem == a % b
  {
    var nh, nl, dh, dl := a / W32, a % W32, b / W32, b % W32;
    Halves(a);
    Halves(b);
    if nh == 0 {
      if dh == 0 { return nl / dl, nl % dl; }
      DivMod(a, b, 0, nl);
      return 0, nl;
    }
    if dl == 0 {
      q, rem := DivideByHighOnly(nh, nl, dh);
    } else if dh == 0 {
      q, rem := DivideByWord(nh, nl, dl);
    } else {
      q, rem := DivideByHigh(nh, nl, dh, dl, 31);
    }
  }

  /** K X / 0 K. */
  method DivideByWord(nh: nat, nl: nat, dl: nat) returns (q: nat, rem: nat)
    requires 0 < nh < W32 && nl < W32 && 0 < dl < W32
    ensures q == Join(nh, nl) / dl && rem == Join(nh, nl) % dl
  {
    if And32(dl, dl - 1) == 0 {
      q, rem := DivideByPowerOfTwo(nh, nl, dl);
    } else {
      SmallPowers();
      q, rem := DivideByLow(nh, nl, dl);
    }
  }

  lemma SmallPowers()
    ensures And32(1, 0) == 0 && And32(2, 1) == 0
  {
    Pow2At32();
    BitwiseWithZero(1, 32);
    AndLow(2, 1, 32);
    assert Pow2(1) == 2;
    LowOneOrTwo(2);
  }
}
