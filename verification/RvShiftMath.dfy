/** Why adding table entries byte by byte shifts a whole word
    (abstract-machine/tools/minirv/inst-replace.h:392-513, abstract-machine/tools/minirv/gen-lut.c:22-24). */
module RvShiftMath {
  import opened Bits
  import opened RvMachine
  import opened RvTables
  import opened RvBasic

  // ----- left shifts: sums modulo 2^32 -----

  lemma SllAdd(u: Word, v: Word, k: nat)
    requires u + v < W
    ensures Wrap(Sll(u, k) + Sll(v, k)) == Sll(u + v, k)
  {
    ShlAdd(u, v, k);
    WrapAdds(Shl(u, k), Shl(v, k));
  }

  lemma WrapAdds(x: int, y: int)
    ensures Wrap(Wrap(x) + Wrap(y)) == Wrap(x + y)
  {
    WrapIsMod(x);
    WrapIsMod(y);
    WrapIsMod(x + y);
    WrapIsMod(x % 0x1_0000_0000 + y % 0x1_0000_0000);
  }

  lemma SllSwap(w: Word, j: nat, k: nat)
    ensures Sll(Sll(w, j), k) == Sll(Sll(w, k), j)
  {
    SllSll(w, j, k);
    SllSll(w, k, j);
    assert j + k == k + j;
  }

  /** Byte i of x in its place. */
  function Placed(x: Word, i: nat): Word
    requires i < 4
  {
    if i == 0 then ByteOf(x, 0) else if i == 1 then 0x100 * ByteOf(x, 1)
    else if i == 2 then 0x1_0000 * ByteOf(x, 2) else 0x100_0000 * ByteOf(x, 3)
  }

  lemma PlacedIsShl(x: Word, i: nat)
    requires i < 4
    ensures Placed(x, i) == Shl(ByteOf(x, i), 8 * i) == Sll(ByteOf(x, i), 8 * i)
  {
    ShlIsMul(ByteOf(x, i), 8 * i);
    Pow2Small();
    Pow2Add(8, 16);
  }

  /** Entry i of the left shift table, moved to byte i, is the shift of byte i in its place. */
  lemma SllPlaced(x: Word, i: nat, a: nat)
    requires i < 4
    ensures Sll(Sll(ByteOf(x, i), a), 8 * i) == Sll(Placed(x, i), a)
  {
    SllSwap(ByteOf(x, i), a, 8 * i);
    PlacedIsShl(x, i);
  }

  lemma SllOfBytes(x: Word, a: nat)
    ensures var y3, y2, y1, y0 := Sll(ByteOf(x, 3), a), Sll(ByteOf(x, 2), a), Sll(ByteOf(x, 1), a),
            Sll(ByteOf(x, 0), a);
            Wrap(Wrap(Wrap(Sll(y3, 24) + Sll(y2, 16)) + Sll(y1, 8)) + y0) == Sll(x, a)
  {
    BytesOfWord(x);
    SllPlaced(x, 3, a);
    SllPlaced(x, 2, a);
    SllPlaced(x, 1, a);
    SllAdd(Placed(x, 3), Placed(x, 2), a);
    SllAdd(Placed(x, 3) + Placed(x, 2), Placed(x, 1), a);
    SllAdd(Placed(x, 3) + Placed(x, 2) + Placed(x, 1), Placed(x, 0), a);
  }

  // ----- right shifts: sums without carries -----

  /** Bits a to a + k of x. */
  function Field(x: nat, a: nat, k: nat): nat { Low(Shr(x, a), k) }

  lemma {:induction false} LowSplit(u: nat, v: nat, m: nat, k: nat)
    requires v < Pow2(m)
    ensures Low(Shl(u, m) + v, k) == Low(Shl(u, m), k) + Low(v, k)
    decreases k
  {
    if m == 0 {
      LowOfZero(k);
    } else if k > 0 {
      assert (Shl(u, m) + v) / 2 == Shl(u, m - 1) + v / 2 && (Shl(u, m) + v) % 2 == v % 2;
      assert Shl(u, m) / 2 == Shl(u, m - 1) && Shl(u, m) % 2 == 0;
      LowSplit(u, v / 2, m - 1, k - 1);
    }
  }

  lemma {:induction false} LowOfZero(k: nat)
    ensures Low(0, k) == 0 && Shr(0, k) == 0
  {
    if k > 0 { LowOfZero(k - 1); }
  }

  /** Numbers that share no bit can be shifted and cut separately. */
  lemma {:induction false} FieldSplit(u: nat, v: nat, m: nat, a: nat, k: nat)
    requires v < Pow2(m)
    ensures Shr(Shl(u, m) + v, a) == Shr(Shl(u, m), a) + Shr(v, a)
    ensures Field(Shl(u, m) + v, a, k) == Field(Shl(u, m), a, k) + Field(v, a, k)
    decreases a
  {
    if m == 0 {
      LowOfZero(a);
      LowOfZero(k);
    } else if a == 0 {
      LowSplit(u, v, m, k);
    } else {
      assert (Shl(u, m) + v) / 2 == Shl(u, m - 1) + v / 2;
      assert Shl(u, m) / 2 == Shl(u, m - 1);
      FieldSplit(u, v / 2, m - 1, a - 1, k);
    }
  }

  /** The low three bytes of x. */
  function Tail(x: Word): Word { Placed(x, 2) + Placed(x, 1) + Placed(x, 0) }

  /** The three low bytes contribute separately to every field of the shifted word. */
  lemma TailFields(x: Word, a: nat, k: nat)
    ensures Field(Tail(x), a, k) == Field(Placed(x, 2), a, k) + Field(Placed(x, 1), a, k) + Field(Placed(x, 0), a, k)
  {
    PlacedIsShl(x, 2);
    PlacedIsShl(x, 1);
    Pow2Small();
    FieldSplit(ByteOf(x, 2), Placed(x, 1) + Placed(x, 0), 16, a, k);
    FieldSplit(ByteOf(x, 1), Placed(x, 0), 8, a, k);
  }

  /** Entry of the logical right shift table for byte i of x. */
  function Entry(x: Word, i: nat, a: nat): Word
    requires i < 4
  {
    Srl(0x100_0000 * ByteOf(x, i), a)
  }

  /** Byte j + 3 - i of entry i is what byte i of x contributes to byte j. */
  lemma EntryBytes(x: Word, i: nat, a: nat, j: nat)
    requires i < 4
    ensures ByteOf(Entry(x, i, a), j + 3 - i) == Field(Placed(x, i), a + 8 * j, 8)
  {
    var b := ByteOf(x, i);
    var d: nat := 3 - i;
    AtTop(b);
    PlacedIsShl(x, i);
    ByteIsField(Entry(x, i, a), j + d);
    ShrShr(Shl(b, 24), a, 8 * (j + d));
    ShiftedDown(b, 8 * i, 8 * d, a + 8 * j);
    assert a + 8 * (j + d) == 8 * d + (a + 8 * j);
  }

  lemma AtTop(b: Byte)
    ensures 0x100_0000 * b == Shl(b, 24)
  {
    ShlIsMul(b, 24);
    Pow2Small();
    Pow2Add(8, 16);
  }

  lemma ShiftedDown(b: nat, i: nat, d: nat, k: nat)
    ensures Shr(Shl(b, i + d), d + k) == Shr(Shl(b, i), k)
  {
    ShlShl(b, i, d);
    ShrShr(Shl(b, i + d), d, k);
    SplitUnique(Shl(b, i), 0, d);
  }

  lemma ByteIsField(w: nat, k: nat)
    ensures ByteOf(w, k) == Field(w, 8 * k, 8)
  {
    ByteOfIs(w, k);
    ShrIsDiv(Shr(w, 8 * k), 8);
    Pow2Small();
  }

  /** A byte has no bits beyond its own end. */
  lemma NothingAbove(x: Word, i: nat, a: nat)
    requires i < 4
    ensures Field(Placed(x, i), a + 8 * (i + 1), 8) == 0
  {
    PlacedIsShl(x, i);
    var p := Placed(x, i);
    ShlIsMul(ByteOf(x, i), 8 * i);
    Pow2Small();
    Pow2Add(8, 16);
    Pow2Add(16, 16);
    assert p < Pow2(8 * (i + 1));
    SmallIsLow(p, 8 * (i + 1));
    ShrShr(p, 8 * (i + 1), a);
    LowOfZero(a);
    LowOfZero(8);
    assert 8 * (i + 1) + a == a + 8 * (i + 1);
  }

  /** Byte j of the shifted tail. */
  lemma TailByte(x: Word, a: nat, j: nat)
    ensures ByteOf(Srl(Tail(x), a), j)
         == Field(Placed(x, 2), a + 8 * j, 8) + Field(Placed(x, 1), a + 8 * j, 8) + Field(Placed(x, 0), a + 8 * j, 8)
  {
    ByteIsField(Srl(Tail(x), a), j);
    ShrShr(Tail(x), a, 8 * j);
    TailFields(x, a + 8 * j, 8);
  }

  /** The byte sums of the right shift macros: they are the bytes of the shifted tail, so none carries. */
  lemma ByteSums(x: Word, a: nat)
    ensures var y2, y1, y0, z := Entry(x, 2, a), Entry(x, 1, a), Entry(x, 0, a), Srl(Tail(x), a);
            && ByteOf(y2, 1) + ByteOf(y1, 2) + ByteOf(y0, 3) == ByteOf(z, 0) < 0x100
            && ByteOf(y2, 2) + ByteOf(y1, 3) == ByteOf(z, 1) < 0x100
            && ByteOf(y2, 3) == ByteOf(z, 2)
            && ByteOf(z, 3) == 0
  {
    EntryBytes(x, 2, a, 0);
    EntryBytes(x, 1, a, 0);
    EntryBytes(x, 0, a, 0);
    EntryBytes(x, 2, a, 1);
    EntryBytes(x, 1, a, 1);
    EntryBytes(x, 2, a, 2);
    TailByte(x, a, 0);
    TailByte(x, a, 1);
    TailByte(x, a, 2);
    TailByte(x, a, 3);
    NothingAbove(x, 0, a);
    NothingAbove(x, 1, a);
    NothingAbove(x, 0, a + 8);
    NothingAbove(x, 2, a);
    NothingAbove(x, 1, a + 8);
    NothingAbove(x, 0, a + 16);
  }

  lemma SrlOfParts(x: Word, a: nat)
    ensures Srl(Tail(x), a) + Srl(Placed(x, 3), a) == Srl(x, a)
  {
    BytesOfWord(x);
    PlacedIsShl(x, 3);
    Pow2Small();
    Pow2Add(8, 16);
    FieldSplit(ByteOf(x, 3), Tail(x), 24, a, 0);
  }

  /** What an arithmetic shift adds to a logical one. */
  function Fill(x: Word, a: nat): int
    requires a <= 32
  {
    if x >= 0x8000_0000 then 0x1_0000_0000 - Pow2(32 - a) else 0
  }

  lemma SraIsFill(x: Word, a: nat)
    requires a <= 32
    ensures Sra(x, a) == Srl(x, a) + Fill(x, a)
  {
    ShrIsDiv(x, a);
    Pow2At32();
    Pow2Add(a, 32 - a);
    if x >= 0x8000_0000 {
      ShrBound(x, a, 32 - a);
      NegativeQuotient(x, Pow2(a), Pow2(32 - a), Shr(x, a));
    }
  }

  lemma NegativeQuotient(x: Word, p: int, q: int, d: int)
    requires p > 0 && p * q == 0x1_0000_0000 && d == x / p && 0 <= d < q
    ensures Wrap((x - 0x1_0000_0000) / p) == d + (0x1_0000_0000 - q)
  {
    DivShift(x, p, q);
    AtMostProduct(p, q);
  }

  lemma AtMostProduct(p: int, q: int)
    requires p > 0 && q > 0
    ensures q <= p * q
  {}

  lemma DivShift(x: int, p: int, q: int)
    requires p > 0 && p * q == 0x1_0000_0000
    ensures (x - 0x1_0000_0000) / p == x / p - q
  {
    var d := x / p;
    assert (d - q) * p == d * p - p * q;
    DivMod(x - 0x1_0000_0000, p, d - q, x % p);
  }

  lemma SraOfParts(x: Word, a: nat)
    requires a <= 32
    ensures Srl(Tail(x), a) + Sra(Placed(x, 3), a) == Sra(x, a)
  {
    SrlOfParts(x, a);
    SraIsFill(x, a);
    SraIsFill(Placed(x, 3), a);
    BytesOfWord(x);
  }

  /** Two's complement. */
  lemma ToSignedMeans(w: Word)
    ensures -0x8000_0000 <= ToSigned(w) < 0x8000_0000 && (ToSigned(w) - w) % W == 0
  {}

  /** The three shifts as arithmetic: multiplication, and division rounding down. */
  lemma ShiftsMean(w: Word, k: nat)
    requires k < 32
    ensures Shift(ShiftLeft, w, k) == (w * Pow2(k)) % W
    ensures Shift(ShiftRight, w, k) == w / Pow2(k)
    ensures ToSigned(Shift(ShiftArith, w, k)) == ToSigned(w) / Pow2(k)
  {
    ShlIsMul(w, k);
    WrapIsMod(w * Pow2(k));
    ShrIsDiv(w, k);
    QuotientInRange(ToSigned(w), Pow2(k));
    WrapSigned(ToSigned(w) / Pow2(k));
  }

  lemma QuotientInRange(x: int, d: nat)
    requires d > 0 && -0x8000_0000 <= x < 0x8000_0000
    ensures -0x8000_0000 <= x / d < 0x8000_0000
  {
    var q := x / d;
    Grows(q, d);
    Grows(q + 1, d);
    NextMultiple(x, d, q);
  }

  lemma Grows(q: int, d: nat)
    requires d > 0
    ensures q >= 0 ==> q * d >= q
    ensures q <= 0 ==> q * d <= q
  {}

  lemma NextMultiple(x: int, d: nat, q: int)
    requires d > 0 && q == x / d
    ensures q * d <= x < (q + 1) * d
  {
    assert x == d * q + x % d;
    assert (q + 1) * d == q * d + d;
  }

  lemma WrapSigned(x: int)
    requires -0x8000_0000 <= x < 0x8000_0000
    ensures ToSigned(Wrap(x)) == x
  {}
}
