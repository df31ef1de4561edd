/** The read-only lookup tables of minirv (abstract-machine/tools/minirv/inst-replace.h:42-78) and
    the generator of the large one (abstract-machine/tools/minirv/gen-lut.c:9-24). */
module RvTables {
  import opened Bits
  import opened RvMachine

  // ----- offsets from the start of the section; `.align 8` aligns to 256 bytes -----

  const SAME: int := 0
  const ZERO8: int := 8
  const SLT1: int := 264
  const SLTU1: int := 272
  const OR1: int := 280
  const LUT: int := 512
  const SLL_TABLE: int := 0x3_0000
  const SRL_TABLE: int := 0x3_8000
  const SRA_TABLE: int := 0x4_0000
  const LUT_SIZE: int := 0x4_8000
  const ROM_SIZE: int := LUT + LUT_SIZE

  // ----- entries -----

  function ToSigned(w: Word): int { if w >= 0x8000_0000 then w - W else w }

  /** (int32_t)w >> k: division rounding down. */
  function Sra(w: Word, k: nat): Word { Wrap(ToSigned(w) / Pow2(k)) }

  function Sll(w: Word, k: nat): Word { Wrap(Shl(w, k)) }

  function Srl(w: Word, k: nat): (r: Word)
  {
    ShrShrinks(w, k);
    Shr(w, k)
  }

  function LogicByte(op: LogicOp, a: Byte, b: Byte): Byte { FoldedLogic(op, a, b, 1) }

  /** The definition of LogicByte, folded so that proofs about lookups do not compute with bits. */
  function FoldedLogic(op: LogicOp, a: Byte, b: Byte, folds: nat): Byte
    decreases folds, a, b
  {
    BitwiseBound(op, a, b, 8);
    assert Pow2(8) == 256;
    if folds > 0 then FoldedLogic(op, a, b, folds - 1) else Bitwise(op, a, b, 8)
  }

  lemma LogicByteIs(op: LogicOp, a: Byte, b: Byte)
    ensures LogicByte(op, a, b) == Bitwise(op, a, b, 8)
  {
    assert FoldedLogic(op, a, b, 1) == FoldedLogic(op, a, b, 0);
  }

  datatype ShiftOp = ShiftLeft | ShiftRight | ShiftArith

  function Shift(op: ShiftOp, w: Word, k: nat): Word {
    match op
    case ShiftLeft => Sll(w, k)
    case ShiftRight => Srl(w, k)
    case ShiftArith => Sra(w, k)
  }

  /** Column i of the left shift table holds i, of the right shift tables i << 24. */
  function ShiftEntry(op: ShiftOp, row: nat, col: Byte): Word {
    Shift(op, if op == ShiftLeft then col else col * 0x100_0000, row)
  }

  function TableOf(op: LogicOp): int {
    match op
    case AndOp => 0
    case OrOp => 0x1_0000
    case XorOp => 0x2_0000
  }

  function ShiftTableOf(op: ShiftOp): int {
    match op
    case ShiftLeft => SLL_TABLE
    case ShiftRight => SRL_TABLE
    case ShiftArith => SRA_TABLE
  }

  /** Byte k of a table of one-byte entries. */
  function LogicTableByte(op: LogicOp, k: int): Byte
    requires 0 <= k < 0x1_0000
  {
    LogicByte(op, k / 256, k % 256)
  }

  /** Byte k of a table of four-byte entries. */
  function ShiftTableByte(op: ShiftOp, k: int): Byte
    requires 0 <= k < 0x8000
  {
    ByteOf(ShiftEntry(op, k / 1024, k % 1024 / 4), k % 4)
  }

  /** The contents of lut.bin: three 256 x 256 byte tables and three 32 x 256 word tables. */
  function LutByte(off: int): Byte
    requires 0 <= off < LUT_SIZE
  {
    if off < 0x1_0000 then LogicTableByte(AndOp, off)
    else if off < 0x2_0000 then LogicTableByte(OrOp, off - 0x1_0000)
    else if off < SLL_TABLE then LogicTableByte(XorOp, off - 0x2_0000)
    else if off < SRL_TABLE then ShiftTableByte(ShiftLeft, off - SLL_TABLE)
    else if off < SRA_TABLE then ShiftTableByte(ShiftRight, off - SRL_TABLE)
    else ShiftTableByte(ShiftArith, off - SRA_TABLE)
  }

  const SLT1_ENTRIES: seq<Byte> := [0, 1, 0, 0, 1, 1, 0, 1]
  const SLTU1_ENTRIES: seq<Byte> := [0, 1, 1, 1, 0, 0, 0, 1]

  /** The whole read-only section. */
  function RomByte(off: int): Byte
    requires 0 <= off < ROM_SIZE
  {
    if off < ZERO8 then (if off == SAME then 1 else 0)
    else if off < SLT1 then (if off == ZERO8 then 0 else 1)
    else if off < SLTU1 then SLT1_ENTRIES[off - SLT1]
    else if off < OR1 then SLTU1_ENTRIES[off - SLTU1]
    else if off < OR1 + 4 then (if off == OR1 then 0 else 1)
    else if off < LUT then 0
    else LutByte(off - LUT)
  }

  lemma RowAndColumn(row: Byte, col: Byte)
    ensures (256 * row + col) / 256 == row && (256 * row + col) % 256 == col
  {
    DivMod(256 * row + col, 256, row, col);
  }

  lemma LogicEntry(op: LogicOp, row: Byte, col: Byte)
    ensures RomByte(LUT + TableOf(op) + 256 * row + col) == LogicByte(op, row, col)
  {
    RowAndColumn(row, col);
    var k := 256 * row + col;
    match op
    case AndOp => assert LutByte(k) == LogicTableByte(AndOp, k);
    case OrOp => assert LutByte(0x1_0000 + k) == LogicTableByte(OrOp, k);
    case XorOp => assert LutByte(0x2_0000 + k) == LogicTableByte(XorOp, k);
  }

  // ----- generating lut.bin -----

  /** gen_table with one-byte entries: 256 rows of 256 columns. */
  method GenByteTable(op: LogicOp) returns (out: seq<Byte>)
    ensures |out| == 0x1_0000
    ensures forall k :: 0 <= k < 0x1_0000 ==> out[k] == LogicTableByte(op, k)
  {
    out := [];
    for j := 0 to 256
      invariant |out| == 256 * j
      invariant forall k :: 0 <= k < 256 * j ==> out[k] == LogicTableByte(op, k)
    {
      for i := 0 to 256
        invariant |out| == 256 * j + i
        invariant forall k :: 0 <= k < 256 * j + i ==> out[k] == LogicTableByte(op, k)
      {
        RowAndColumn(j, i);
        out := out + [LogicByte(op, j, i)];
      }
    }
  }

  lemma WordEntry(op: ShiftOp, j: nat, i: Byte, b: nat)
    requires j < 32 && b < 4
    ensures ShiftTableByte(op, 1024 * j + 4 * i + b) == ByteOf(ShiftEntry(op, j, i), b)
  {
    var k := 1024 * j + 4 * i + b;
    DivMod(k, 1024, j, 4 * i + b);
    DivMod(4 * i + b, 4, i, b);
    DivMod(k, 4, 256 * j + i, b);
  }

  /** gen_table with four-byte entries: 32 rows of 256 columns. */
  method GenWordTable(op: ShiftOp) returns (out: seq<Byte>)
    ensures |out| == 0x8000
    ensures forall k :: 0 <= k < 0x8000 ==> out[k] == ShiftTableByte(op, k)
  {
    out := [];
    for j := 0 to 32
      invariant |out| == 1024 * j
      invariant forall k :: 0 <= k < 1024 * j ==> out[k] == ShiftTableByte(op, k)
    {
      for i := 0 to 256
        invariant |out| == 1024 * j + 4 * i
        invariant forall k :: 0 <= k < 1024 * j + 4 * i ==> out[k] == ShiftTableByte(op, k)
      {
        var res := ShiftEntry(op, j, i);
        forall b | 0 <= b < 4 ensures ShiftTableByte(op, 1024 * j + 4 * i + b) == ByteOf(res, b) {
          WordEntry(op, j, i, b);
        }
        out := out + [ByteOf(res, 0), ByteOf(res, 1), ByteOf(res, 2), ByteOf(res, 3)];
      }
    }
  }

  method GenLogicTables() returns (out: seq<Byte>)
    ensures |out| == SLL_TABLE
    ensures forall off :: 0 <= off < SLL_TABLE ==> out[off] == LutByte(off)
  {
    var a := GenByteTable(AndOp);
    var o := GenByteTable(OrOp);
    var x := GenByteTable(XorOp);
    out := a + o + x;
  }

  method GenShiftTables() returns (out: seq<Byte>)
    ensures |out| == LUT_SIZE - SLL_TABLE
    ensures forall off :: SLL_TABLE <= off < LUT_SIZE ==> out[off - SLL_TABLE] == LutByte(off)
  {
    var l := GenWordTable(ShiftLeft);
    var r := GenWordTable(ShiftRight);
    var s := GenWordTable(ShiftArith);
    out := l + r + s;
  }

  /** The tables of gen-lut.c, in the order in which they are written. */
  method GenLut() returns (out: seq<Byte>)
    ensures |out| == LUT_SIZE
    ensures forall off :: 0 <= off < LUT_SIZE ==> out[off] == LutByte(off)
  {
    var logic := GenLogicTables();
    var shift := GenShiftTables();
    out := logic + shift;
  }
}
