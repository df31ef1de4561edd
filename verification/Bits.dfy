/** Machine words as natural numbers: powers of two, shifts, and C's bitwise operators bit by bit. */
module Bits {

  function Pow2(n: nat): nat
    ensures Pow2(n) >= 1
  {
    if n == 0 then 1 else 2 * Pow2(n - 1)
  }

  /** x << k, before truncation to a word. */
  function Shl(x: nat, k: nat): nat
    decreases k, x
  {
    if k == 0 then x else 2 * Shl(x, k - 1)
  }

  /** x >> k on unsigned words. */
  function Shr(x: nat, k: nat): nat
    decreases k, x
  {
    if k == 0 then x else Shr(x / 2, k - 1)
  }

  /** The low k bits of x. */
  function Low(x: nat, k: nat): nat
    decreases k, x
  {
    if k == 0 then 0 else x % 2 + 2 * Low(x / 2, k - 1)
  }

  datatype LogicOp = AndOp | OrOp | XorOp

  type BitValue = b: nat | b <= 1

  function OnBits(op: LogicOp, a: BitValue, b: BitValue): BitValue {
    match op
    case AndOp => if a == 1 && b == 1 then 1 else 0
    case OrOp => if a == 1 || b == 1 then 1 else 0
    case XorOp => if a != b then 1 else 0
  }

  /** x & y, x | y or x ^ y on n-bit words. */
  function Bitwise(op: LogicOp, x: nat, y: nat, n: nat): nat
    decreases n, x, y
  {
    if n == 0 then 0 else OnBits(op, x % 2, y % 2) + 2 * Bitwise(op, x / 2, y / 2, n - 1)
  }

  // ----- powers of two -----

  lemma {:induction false} Pow2Add(a: nat, b: nat)
    ensures Pow2(a + b) == Pow2(a) * Pow2(b)
  {
    if a == 0 {
      assert Pow2(0) * Pow2(b) == Pow2(b);
    } else {
      Pow2Add(a - 1, b);
      assert Pow2(a + b) == 2 * (Pow2(a - 1) * Pow2(b)) == (2 * Pow2(a - 1)) * Pow2(b);
    }
  }

  lemma {:induction false} Pow2Monotone(a: nat, b: nat)
    requires a <= b
    ensures Pow2(a) <= Pow2(b)
    decreases b
  {
    if a < b { Pow2Monotone(a, b - 1); }
  }

  lemma Pow2Small()
    ensures Pow2(1) == 2 && Pow2(2) == 4 && Pow2(3) == 8 && Pow2(4) == 16 && Pow2(5) == 32
    ensures Pow2(8) == 0x100 && Pow2(16) == 0x1_0000
  {
    assert Pow2(8) == 0x100;
    Pow2Add(8, 8);
  }

  lemma Pow2At32()
    ensures Pow2(32) == 0x1_0000_0000
  {
    Pow2Small();
    Pow2Add(16, 16);
  }

  lemma Pow2At64()
    ensures Pow2(63) == 0x8000_0000_0000_0000 && Pow2(64) == 0x1_0000_0000_0000_0000
  {
    Pow2At32();
    Pow2Add(32, 32);
    Pow2Add(63, 1);
  }

  // ----- quotient and remainder -----

  /** The form x == q * m + r determines quotient and remainder. */
  lemma DivMod(x: int, m: int, q: int, r: int)
    requires m > 0 && 0 <= r < m && x == q * m + r
    ensures x / m == q && x % m == r
  {
    var d := x / m - q;
    assert d * m == r - x % m;
    assert -m < d * m < m;
    assert d >= 1 ==> d * m >= m;
    assert d <= -1 ==> d * m <= -m;
  }

  lemma Regroup(x: nat, p: nat)
    ensures 2 * (x * p) == x * (2 * p)
  {}

  lemma {:induction false} ShlIsMul(x: nat, k: nat)
    ensures Shl(x, k) == x * Pow2(k)
  {
    if k > 0 {
      ShlIsMul(x, k - 1);
      Regroup(x, Pow2(k - 1));
    }
  }

  lemma {:induction false} ShlOfDouble(x: nat, k: nat)
    ensures Shl(2 * x, k) == 2 * Shl(x, k)
  {
    if k > 0 { ShlOfDouble(x, k - 1); }
  }

  lemma {:induction false} ShlAdd(x: nat, y: nat, k: nat)
    ensures Shl(x + y, k) == Shl(x, k) + Shl(y, k)
  {
    if k > 0 { ShlAdd(x, y, k - 1); }
  }

  lemma {:induction false} ShlShl(x: nat, a: nat, b: nat)
    ensures Shl(Shl(x, a), b) == Shl(x, a + b)
  {
    if b > 0 { ShlShl(x, a, b - 1); }
  }

  /** Shifting and masking split a number at bit k. */
  lemma {:induction false} ShrLow(x: nat, k: nat)
    ensures x == Shl(Shr(x, k), k) + Low(x, k)
    ensures Low(x, k) < Pow2(k)
  {
    if k > 0 {
      ShrLow(x / 2, k - 1);
    }
  }

  /** ... and that split is unique. */
  lemma {:induction false} SplitUnique(q: nat, r: nat, k: nat)
    requires r < Pow2(k)
    ensures Shr(Shl(q, k) + r, k) == q && Low(Shl(q, k) + r, k) == r
  {
    if k > 0 {
      assert (Shl(q, k) + r) / 2 == Shl(q, k - 1) + r / 2;
      assert (Shl(q, k) + r) % 2 == r % 2;
      SplitUnique(q, r / 2, k - 1);
    }
  }

  lemma ShrIsDiv(x: nat, k: nat)
    ensures Shr(x, k) == x / Pow2(k) && Low(x, k) == x % Pow2(k)
  {
    ShrLow(x, k);
    ShlIsMul(Shr(x, k), k);
    DivMod(x, Pow2(k), Shr(x, k), Low(x, k));
  }

  lemma LowStep(x: nat, k: nat)
    requires k > 0
    ensures Low(x, k) % 2 == x % 2 && Low(x, k) / 2 == Low(x / 2, k - 1)
  {}

  lemma {:induction false} ShrShr(x: nat, a: nat, b: nat)
    ensures Shr(Shr(x, a), b) == Shr(x, a + b)
  {
    if a > 0 { ShrShr(x / 2, a - 1, b); }
  }

  lemma {:induction false} ShrBound(x: nat, k: nat, n: nat)
    requires x < Pow2(k + n)
    ensures Shr(x, k) < Pow2(n)
  {
    if k > 0 { ShrBound(x / 2, k - 1, n); }
  }

  lemma {:induction false} ShrShrinks(x: nat, k: nat)
    ensures Shr(x, k) <= x
  {
    if k > 0 { ShrShrinks(x / 2, k - 1); }
  }

  lemma {:induction false} SmallIsLow(x: nat, k: nat)
    requires x < Pow2(k)
    ensures Low(x, k) == x && Shr(x, k) == 0
  {
    if k > 0 { SmallIsLow(x / 2, k - 1); }
  }

  // ----- bitwise operators -----

  lemma {:induction false} BitwiseBound(op: LogicOp, x: nat, y: nat, n: nat)
    ensures Bitwise(op, x, y, n) < Pow2(n)
  {
    if n > 0 { BitwiseBound(op, x / 2, y / 2, n - 1); }
  }

  lemma {:induction false} BitwiseCommutes(op: LogicOp, x: nat, y: nat, n: nat)
    ensures Bitwise(op, x, y, n) == Bitwise(op, y, x, n)
  {
    if n > 0 { BitwiseCommutes(op, x / 2, y / 2, n - 1); }
  }

  /** A word operation acts on the low k and the high m bits separately. */
  lemma {:induction false} BitwiseSplit(op: LogicOp, x: nat, y: nat, k: nat, m: nat)
    ensures Bitwise(op, x, y, k + m)
         == Bitwise(op, Low(x, k), Low(y, k), k) + Shl(Bitwise(op, Shr(x, k), Shr(y, k), m), k)
  {
    if k > 0 {
      BitwiseSplit(op, x / 2, y / 2, k - 1, m);
      LowStep(x, k);
      LowStep(y, k);
    }
  }

  lemma {:induction false} BitwiseWithZero(x: nat, n: nat)
    requires x < Pow2(n)
    ensures Bitwise(AndOp, x, 0, n) == 0 && Bitwise(OrOp, x, 0, n) == x && Bitwise(XorOp, x, 0, n) == x
    ensures Bitwise(AndOp, 0, x, n) == 0 && Bitwise(OrOp, 0, x, n) == x && Bitwise(XorOp, 0, x, n) == x
  {
    if n > 0 { BitwiseWithZero(x / 2, n - 1); }
  }

  /** All ones: & keeps the word, | gives all ones, ^ complements the word. */
  lemma {:induction false} BitwiseWithOnes(x: nat, n: nat)
    requires x < Pow2(n)
    ensures Bitwise(AndOp, x, Pow2(n) - 1, n) == x
    ensures Bitwise(OrOp, x, Pow2(n) - 1, n) == Pow2(n) - 1
    ensures Bitwise(XorOp, x, Pow2(n) - 1, n) == Pow2(n) - 1 - x
  {
    if n > 0 {
      assert (Pow2(n) - 1) % 2 == 1 && (Pow2(n) - 1) / 2 == Pow2(n - 1) - 1;
      BitwiseWithOnes(x / 2, n - 1);
    }
  }

  /** The operators in terms of addition: common bits count twice in a sum, ^ leaves them out. */
  lemma {:induction false} BitwiseSums(x: nat, y: nat, n: nat)
    requires x < Pow2(n) && y < Pow2(n)
    ensures Bitwise(OrOp, x, y, n) + Bitwise(AndOp, x, y, n) == x + y
    ensures Bitwise(XorOp, x, y, n) + 2 * Bitwise(AndOp, x, y, n) == x + y
  {
    if n > 0 { BitwiseSums(x / 2, y / 2, n - 1); }
  }

  /** Bit i of the result is the operator on the bits i of the operands. */
  lemma {:induction false} BitOfBitwise(op: LogicOp, x: nat, y: nat, n: nat, i: nat)
    requires i < n
    ensures var a, b, r := Shr(x, i) % 2 == 1, Shr(y, i) % 2 == 1, Shr(Bitwise(op, x, y, n), i) % 2 == 1;
            match op case AndOp => r == (a && b) case OrOp => r == (a || b) case XorOp => r == (a != b)
  {
    if i > 0 { BitOfBitwise(op, x / 2, y / 2, n - 1, i - 1); }
  }

  /** | of words without a common bit is +. */
  lemma OrOfDisjoint(h: nat, l: nat, k: nat, m: nat)
    requires h < Pow2(m) && l < Pow2(k)
    ensures Bitwise(OrOp, Shl(h, k), l, k + m) == Shl(h, k) + l
  {
    SplitUnique(h, 0, k);
    SmallIsLow(l, k);
    BitwiseSplit(OrOp, Shl(h, k), l, k, m);
    BitwiseWithZero(l, k);
    BitwiseWithZero(h, m);
  }

  /** & with a mask of the low k bits. */
  lemma {:induction false} AndLow(x: nat, k: nat, n: nat)
    requires k <= n && x < Pow2(n)
    ensures Bitwise(AndOp, x, Pow2(k) - 1, n) == Low(x, k)
  {
    if k == 0 {
      BitwiseWithZero(x, n);
    } else {
      assert (Pow2(k) - 1) % 2 == 1 && (Pow2(k) - 1) / 2 == Pow2(k - 1) - 1;
      AndLow(x / 2, k - 1, n - 1);
    }
  }

  /** & with a contiguous mask of w bits from bit lo selects that field. */
  lemma {:induction false} AndField(x: nat, lo: nat, w: nat, n: nat)
    requires lo + w <= n && x < Pow2(n)
    ensures Bitwise(AndOp, x, Shl(Pow2(w) - 1, lo), n) == Shl(Low(Shr(x, lo), w), lo)
  {
    if lo == 0 {
      AndLow(x, w, n);
    } else {
      AndField(x / 2, lo - 1, w, n - 1);
    }
  }

  /** d & (d - 1) == 0 only for powers of two. */
  lemma {:induction false} PowerOfTwoTest(d: nat, n: nat) returns (k: nat)
    requires 0 < d < Pow2(n) && Bitwise(AndOp, d, d - 1, n) == 0
    ensures k < n && d == Pow2(k)
  {
    if d % 2 == 1 {
      assert (d - 1) / 2 == d / 2;
      AndSelf(d / 2, n - 1);
      k := 0;
    } else {
      assert (d - 1) / 2 == d / 2 - 1;
      var j := PowerOfTwoTest(d / 2, n - 1);
      k := j + 1;
    }
  }

  lemma {:induction false} AndSelf(x: nat, n: nat)
    requires x < Pow2(n)
    ensures Bitwise(AndOp, x, x, n) == x
  {
    if n > 0 { AndSelf(x / 2, n - 1); }
  }
}
