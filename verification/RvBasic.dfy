/** The macros on which the others are built: getbyte, sh, slli, msb, not and sub
    (abstract-machine/tools/minirv/inst-replace.h:110-126, 526-552, 597-601 and 629-657). */
module RvBasic {
  import opened Bits
  import opened RvMachine
  import opened RvTables
  import opened RvScratch

  // ----- getbyte and sh -----

  function GetByte(rd: Reg, rs1: Reg, b: nat): seq<Instr> {
    StoreVar(rs1, C) + LoadTop(rd, -24 + b)
  }

  lemma GetByteWorks(l: Layout, s: State, rd: Reg, rs1: Reg, b: nat)
    requires Ready(l, s) && b < 4
    ensures Gives(l, s, Exec(GetByte(rd, rs1, b), s), rd, ByteOf(R(s, rs1), b), ZERO, ZERO, -24, -20)
    ensures rd != SP ==> Ready(l, Exec(GetByte(rd, rs1, b), s))
  {
    Pieces2(StoreVar(rs1, C), LoadTop(rd, -24 + b), s);
    StoreVarWorks(l, s, rs1, C);
    LoadTopWorks(l, Exec(StoreVar(rs1, C), s), rd, -24 + b);
  }

  function Sh(rs: Reg, off: int, base: Reg): seq<Instr> {
    [SB(rs, off, base)] + GetByte(TP, rs, 1) + [SB(TP, off + 1, base)]
  }

  /** sh into the upper half of a scratch slot. */
  lemma ShUpperWorks(l: Layout, s: State, rs: Reg, n: nat)
    requires Ready(l, s) && (n == A || n == B)
    requires Top(s, -4 * n) == 0 && Top(s, -4 * n + 1) == 0
    ensures var t := Exec(Sh(rs, -4 * n + 2, SP), s);
            && Keeps(l, s, t, TP, ZERO, ZERO, -24, -4 * n + 4) && Ready(l, t)
            && Holds(t, n, Sll(R(s, rs), 16))
  {
    Pieces3(StoreTop(rs, -4 * n + 2), GetByte(TP, rs, 1), StoreTop(TP, -4 * n + 3), s);
    StoreTopWorks(l, s, rs, -4 * n + 2);
    var s1 := Exec(StoreTop(rs, -4 * n + 2), s);
    GetByteWorks(l, s1, TP, rs, 1);
    var s2 := Exec(GetByte(TP, rs, 1), s1);
    StoreTopWorks(l, s2, TP, -4 * n + 3);
    UpperHolds(Exec(StoreTop(TP, -4 * n + 3), s2), n, R(s, rs));
  }

  lemma UpperHolds(t: State, n: nat, w: Word)
    requires Top(t, -4 * n) == 0 && Top(t, -4 * n + 1) == 0
    requires Top(t, -4 * n + 2) == ByteOf(w, 0) && Top(t, -4 * n + 3) == ByteOf(w, 1)
    ensures Holds(t, n, Sll(w, 16))
  {
    Sll16(w);
  }

  // ----- slli -----

  /** `add rd, rd, rd` n times. */
  function Doubles(rd: Reg, n: nat): seq<Instr> {
    if n == 0 then [] else Doubles(rd, n - 1) + [ADD(rd, rd, rd)]
  }

  function ShiftInto3(rd: Reg, rs1: Reg): seq<Instr> {
    StoreVar(ZERO, A) + StoreTop(rs1, -13) + LoadVar(rd, A)
  }

  function ShiftInto2(rd: Reg, rs1: Reg): seq<Instr> {
    StoreVar(ZERO, A) + Sh(rs1, -14, SP) + LoadVar(rd, A)
  }

  function Slli(rd: Reg, rs1: Reg, imm: nat): seq<Instr>
    decreases imm
  {
    if imm == 0 then (if rd != rs1 then [ADDI(rd, rs1, 0)] else [])
    else if imm >= 24 then ShiftInto3(rd, rs1) + Slli(rd, rd, imm - 24)
    else if imm >= 16 then ShiftInto2(rd, rs1) + Slli(rd, rd, imm - 16)
    else [ADD(rd, rs1, rs1)] + Doubles(rd, imm - 1)
  }

  lemma SllStep(w: Word, k: nat)
    ensures Sll(w, k + 1) == Wrap(Sll(w, k) + Sll(w, k))
  {
    var x := Shl(w, k);
    assert Shl(w, k + 1) == 2 * x;
    WrapIsMod(x);
    WrapIsMod(2 * x);
  }

  /** Shifting what has been shifted and cut to 32 bits. */
  lemma {:induction false} SllSll(w: Word, j: nat, k: nat)
    ensures Sll(Sll(w, j), k) == Sll(w, j + k)
  {
    if k > 0 {
      SllSll(w, j, k - 1);
      SllStep(Sll(w, j), k - 1);
      SllStep(w, j + k - 1);
    }
  }

  lemma SllNone(w: Word)
    ensures Sll(w, 0) == w
  {}

  lemma {:induction false} DoublesIs(s: State, rd: Reg, v: Word, n: nat)
    requires rd != ZERO
    ensures Exec(Doubles(rd, n), SetR(s, rd, v)) == SetR(s, rd, Sll(v, n))
  {
    if n == 0 {
      SllNone(v);
      ExecNothing(SetR(s, rd, v));
    } else {
      DoublesIs(s, rd, v, n - 1);
      var t := SetR(s, rd, Sll(v, n - 1));
      Pieces2(Doubles(rd, n - 1), [ADD(rd, rd, rd)], SetR(s, rd, v));
      Exec1(ADD(rd, rd, rd), t);
      SllStep(v, n - 1);
      assert SetR(t, rd, Sll(v, n)).regs == SetR(s, rd, Sll(v, n)).regs;
    }
  }

  lemma {:induction false} DoublesOfZero(s: State, n: nat)
    ensures Exec(Doubles(ZERO, n), s) == s
  {
    if n == 0 {
      ExecNothing(s);
    } else {
      DoublesOfZero(s, n - 1);
      Pieces2(Doubles(ZERO, n - 1), [ADD(ZERO, ZERO, ZERO)], s);
      Exec1(ADD(ZERO, ZERO, ZERO), s);
    }
  }

  /** Shifts by less than 16 use neither memory nor another register. */
  lemma SlliSmallIs(s: State, rd: Reg, rs1: Reg, imm: nat)
    requires imm < 16
    ensures var t := Exec(Slli(rd, rs1, imm), s);
            t == SetR(s, rd, Sll(R(s, rs1), imm)) || (t == s && imm == 0 && rd == rs1)
  {
    SllNone(R(s, rs1));
    if imm == 0 {
      if rd != rs1 { Exec1(ADDI(rd, rs1, 0), s); } else { ExecNothing(s); }
    } else {
      Pieces2([ADD(rd, rs1, rs1)], Doubles(rd, imm - 1), s);
      Exec1(ADD(rd, rs1, rs1), s);
      if rd == ZERO {
        DoublesOfZero(s, imm - 1);
      } else {
        SllStep(R(s, rs1), 0);
        SllSll(R(s, rs1), 1, imm - 1);
        DoublesIs(s, rd, Sll(R(s, rs1), 1), imm - 1);
      }
    }
  }

  lemma SlliSmallWorks(l: Layout, s: State, rd: Reg, rs1: Reg, imm: nat)
    requires RomLoaded(l, s) && imm < 16
    ensures Gives(l, s, Exec(Slli(rd, rs1, imm), s), rd, Sll(R(s, rs1), imm), ZERO, ZERO, 0, 0)
    ensures Ready(l, s) && rd != SP ==> Ready(l, Exec(Slli(rd, rs1, imm), s))
  {
    SlliSmallIs(s, rd, rs1, imm);
    SllNone(R(s, rs1));
    SetKeepsRom(l, s, rd, Sll(R(s, rs1), imm));
  }

  lemma Sll16(w: Word)
    ensures var v := Sll(w, 16);
            && ByteOf(v, 0) == ByteOf(v, 1) == 0 && ByteOf(v, 2) == ByteOf(w, 0) && ByteOf(v, 3) == ByteOf(w, 1)
  {
    BytesOfWord(w);
    ShlIsMul(w, 16);
    Pow2Small();
    WrapMultiple(0x1_0000 * ByteOf(w, 0) + 0x100_0000 * ByteOf(w, 1), ByteOf(w, 2) + 0x100 * ByteOf(w, 3));
    BytesDetermineWord(Sll(w, 16), 0, 0, ByteOf(w, 0), ByteOf(w, 1));
  }

  lemma Sll24(w: Word)
    ensures var v := Sll(w, 24);
            && ByteOf(v, 0) == ByteOf(v, 1) == ByteOf(v, 2) == 0 && ByteOf(v, 3) == ByteOf(w, 0)
  {
    BytesOfWord(w);
    ShlIsMul(w, 24);
    Pow2Small();
    Pow2Add(8, 16);
    WrapMultiple(0x100_0000 * ByteOf(w, 0), ByteOf(w, 1) + 0x100 * ByteOf(w, 2) + 0x1_0000 * ByteOf(w, 3));
    BytesDetermineWord(Sll(w, 24), 0, 0, 0, ByteOf(w, 0));
  }

  lemma WrapMultiple(w: Word, q: int)
    ensures Wrap(w + 0x1_0000_0000 * q) == w
  {
    WrapIsMod(w + 0x1_0000_0000 * q);
  }

  /** The first step of a shift by 24 or more. */
  lemma ShiftInto3Works(l: Layout, s: State, rd: Reg, rs1: Reg)
    requires Ready(l, s)
    ensures Gives(l, s, Exec(ShiftInto3(rd, rs1), s), rd, Sll(R(s, rs1), 24), ZERO, ZERO, -16, -12)
  {
    Pieces3(StoreVar(ZERO, A), StoreTop(rs1, -13), LoadVar(rd, A), s);
    StoreVarWorks(l, s, ZERO, A);
    var s1 := Exec(StoreVar(ZERO, A), s);
    SmallByte(0);
    StoreTopWorks(l, s1, rs1, -13);
    Sll24(R(s, rs1));
    LoadVarWorks(l, Exec(StoreTop(rs1, -13), s1), rd, A, Sll(R(s, rs1), 24));
  }

  /** The first step of a shift by 16 to 23. */
  lemma ShiftInto2Works(l: Layout, s: State, rd: Reg, rs1: Reg)
    requires Ready(l, s) && rs1 != TP
    ensures Gives(l, s, Exec(ShiftInto2(rd, rs1), s), rd, Sll(R(s, rs1), 16), TP, ZERO, -24, -12)
  {
    Pieces3(StoreVar(ZERO, A), Sh(rs1, -14, SP), LoadVar(rd, A), s);
    StoreVarWorks(l, s, ZERO, A);
    var s1 := Exec(StoreVar(ZERO, A), s);
    SmallByte(0);
    ShUpperWorks(l, s1, rs1, A);
    LoadVarWorks(l, Exec(Sh(rs1, -14, SP), s1), rd, A, Sll(R(s, rs1), 16));
  }

  /** Every left shift by a constant is right. */
  lemma SlliWorks(l: Layout, s: State, rd: Reg, rs1: Reg, imm: nat)
    requires Ready(l, s) && imm < 32 && rs1 != TP
    ensures Gives(l, s, Exec(Slli(rd, rs1, imm), s), rd, Sll(R(s, rs1), imm), TP, ZERO, -24, -12)
  {
    if imm < 16 {
      SlliSmallWorks(l, s, rd, rs1, imm);
    } else {
      var first, k := if imm >= 24 then ShiftInto3(rd, rs1) else ShiftInto2(rd, rs1), if imm >= 24 then 24 else 16;
      if imm >= 24 { ShiftInto3Works(l, s, rd, rs1); } else { ShiftInto2Works(l, s, rd, rs1); }
      Pieces2(first, Slli(rd, rd, imm - k), s);
      SlliSmallWorks(l, Exec(first, s), rd, rd, imm - k);
      SllSll(R(s, rs1), k, imm - k);
    }
  }

  // ----- msb -----

  function Msb(rd: Reg, rs1: Reg): seq<Instr> {
    GetByte(rd, rs1, 3) + Slli(rd, rd, 1) + GetByte(rd, rd, 1)
  }

  /** The sign bit. */
  function SignBit(w: Word): Word { if w < 0x8000_0000 then 0 else 1 }

  lemma MsbWorks(l: Layout, s: State, rd: Reg, rs1: Reg)
    requires Ready(l, s) && rd != SP
    ensures Gives(l, s, Exec(Msb(rd, rs1), s), rd, SignBit(R(s, rs1)), ZERO, ZERO, -24, -20)
    ensures Ready(l, Exec(Msb(rd, rs1), s))
  {
    Pieces3(GetByte(rd, rs1, 3), Slli(rd, rd, 1), GetByte(rd, rd, 1), s);
    var s1 := Exec(GetByte(rd, rs1, 3), s);
    GetByteWorks(l, s, rd, rs1, 3);
    var s2 := Exec(Slli(rd, rd, 1), s1);
    SlliSmallWorks(l, s1, rd, rd, 1);
    GetByteWorks(l, s2, rd, rd, 1);
    SignBitByBytes(R(s, rs1));
  }

  lemma SignBitByBytes(w: Word)
    ensures ByteOf(Sll(ByteOf(w, 3), 1), 1) == SignBit(w)
  {
    BytesOfWord(w);
    var b := ByteOf(w, 3);
    SllNone(b);
    SllStep(b, 0);
    var hi: Byte := if b >= 128 then 1 else 0;
    assert 0 <= 2 * b - 0x100 * hi < 0x100;
    BytesDetermineWord(2 * b, 2 * b - 0x100 * hi, hi, 0, 0);
  }

  // ----- not -----

  /** The complement of byte b of slot C, through the table at tp, into slot D. */
  function NotByte(b: nat): seq<Instr> {
    LoadTop(GP, -24 + b) + [ADD(GP, GP, TP)] + [LBU(GP, 0, GP)] + StoreTop(GP, -28 + b)
  }

  lemma NotByteWorks(l: Layout, s: State, b: nat)
    requires Ready(l, s) && b < 4 && R(s, TP) == l.rom + LUT + TableOf(XorOp) + 0xff00
    ensures var t := Exec(NotByte(b), s);
            && Keeps(l, s, t, GP, ZERO, ZERO, -28 + b, -28 + b + 1) && Ready(l, t)
            && Top(t, -28 + b) == 0xff - Top(s, -24 + b)
  {
    Pieces4(LoadTop(GP, -24 + b), [ADD(GP, GP, TP)], [LBU(GP, 0, GP)], StoreTop(GP, -28 + b), s);
    LoadTopWorks(l, s, GP, -24 + b);
    var s1 := Exec(LoadTop(GP, -24 + b), s);
    AddWorks(l, s1, GP, GP, TP);
    var s2 := Exec([ADD(GP, GP, TP)], s1);
    LbuWorks(l, s2, GP, 0, GP);
    NotLookup(l, s2, Top(s, -24 + b));
    StoreTopWorks(l, Exec([LBU(GP, 0, GP)], s2), GP, -28 + b);
  }

  /** The last row of the xor table holds complements. */
  lemma NotLookup(l: Layout, s: State, x: Byte)
    requires RomLoaded(l, s)
    ensures M8(s, l.rom + LUT + TableOf(XorOp) + 0xff00 + x) == 0xff - x
  {
    RomLogic(l, s, XorOp, 0xff, x);
    XorOnes(x);
  }

  lemma XorOnes(x: Byte)
    ensures LogicByte(XorOp, 0xff, x) == 0xff - x
  {
    Pow2Small();
    BitwiseWithOnes(x, 8);
    BitwiseCommutes(XorOp, 0xff, x, 8);
    LogicByteIs(XorOp, 0xff, x);
  }

  function NotBytes(): seq<Instr> { NotByte(3) + NotByte(2) + NotByte(1) + NotByte(0) }

  lemma NotBytesWork(l: Layout, s: State, w: Word)
    requires Ready(l, s) && Holds(s, C, w) && R(s, TP) == l.rom + LUT + TableOf(XorOp) + 0xff00
    ensures var t := Exec(NotBytes(), s);
            && Keeps(l, s, t, GP, ZERO, ZERO, -28, -24) && Ready(l, t)
            && Holds(t, D, 0xffff_ffff - w)
  {
    Pieces4(NotByte(3), NotByte(2), NotByte(1), NotByte(0), s);
    NotByteWorks(l, s, 3);
    var s1 := Exec(NotByte(3), s);
    NotByteWorks(l, s1, 2);
    var s2 := Exec(NotByte(2), s1);
    NotByteWorks(l, s2, 1);
    var s3 := Exec(NotByte(1), s2);
    NotByteWorks(l, s3, 0);
    NotOfBytes(w);
  }

  lemma NotOfBytes(w: Word)
    ensures var v := 0xffff_ffff - w;
            && ByteOf(v, 0) == 0xff - ByteOf(w, 0) && ByteOf(v, 1) == 0xff - ByteOf(w, 1)
            && ByteOf(v, 2) == 0xff - ByteOf(w, 2) && ByteOf(v, 3) == 0xff - ByteOf(w, 3)
  {
    BytesOfWord(w);
    BytesDetermineWord(0xffff_ffff - w, 0xff - ByteOf(w, 0), 0xff - ByteOf(w, 1), 0xff - ByteOf(w, 2),
        0xff - ByteOf(w, 3));
  }

  function NotHead(l: Layout, rs1: Reg): seq<Instr> {
    StoreVar(GP, 3) + StoreVar(rs1, C) + La(TP, l.rom + LUT + TableOf(XorOp) + 0xff00)
  }

  function Not(l: Layout, rd: Reg, rs1: Reg): seq<Instr> {
    NotHead(l, rs1) + NotBytes() + LoadVar(GP, 3) + LoadVar(rd, D)
  }

  lemma NotHeadWorks(l: Layout, s: State, rs1: Reg)
    requires Ready(l, s)
    ensures var t := Exec(NotHead(l, rs1), s);
            && Keeps(l, s, t, TP, ZERO, ZERO, -24, -8) && Ready(l, t)
            && R(t, TP) == l.rom + LUT + TableOf(XorOp) + 0xff00 && Holds(t, 3, R(s, GP)) && Holds(t, C, R(s, rs1))
  {
    var table := l.rom + LUT + TableOf(XorOp) + 0xff00;
    Pieces3(StoreVar(GP, 3), StoreVar(rs1, C), La(TP, table), s);
    StoreVarWorks(l, s, GP, 3);
    var s1 := Exec(StoreVar(GP, 3), s);
    StoreVarWorks(l, s1, rs1, C);
    LaWorks(l, Exec(StoreVar(rs1, C), s1), TP, table);
  }

  /** The complement of every bit; gp is saved and restored. */
  lemma NotWorks(l: Layout, s: State, rd: Reg, rs1: Reg)
    requires Ready(l, s) && rd != GP
    ensures Gives(l, s, Exec(Not(l, rd, rs1), s), rd, 0xffff_ffff - R(s, rs1), TP, ZERO, -28, -8)
    ensures rd != SP ==> Ready(l, Exec(Not(l, rd, rs1), s))
  {
    Pieces4(NotHead(l, rs1), NotBytes(), LoadVar(GP, 3), LoadVar(rd, D), s);
    NotHeadWorks(l, s, rs1);
    var s1 := Exec(NotHead(l, rs1), s);
    NotBytesWork(l, s1, R(s, rs1));
    var s2 := Exec(NotBytes(), s1);
    LoadVarWorks(l, s2, GP, 3, R(s, GP));
    LoadVarWorks(l, Exec(LoadVar(GP, 3), s2), rd, D, 0xffff_ffff - R(s, rs1));
  }

  // ----- sub -----

  function Sub(l: Layout, rd: Reg, rs1: Reg, rs2: Reg): seq<Instr> {
    Not(l, TP, rs2) + [ADD(rd, rs1, TP)] + [ADDI(rd, rd, 1)]
  }

  lemma SubWorks(l: Layout, s: State, rd: Reg, rs1: Reg, rs2: Reg)
    requires Ready(l, s) && rs1 != TP
    ensures Gives(l, s, Exec(Sub(l, rd, rs1, rs2), s), rd, Wrap(R(s, rs1) - R(s, rs2)), TP, ZERO, -28, -8)
    ensures rd != SP ==> Ready(l, Exec(Sub(l, rd, rs1, rs2), s))
  {
    Pieces3(Not(l, TP, rs2), [ADD(rd, rs1, TP)], [ADDI(rd, rd, 1)], s);
    NotWorks(l, s, TP, rs2);
    var s1 := Exec(Not(l, TP, rs2), s);
    AddWorks(l, s1, rd, rs1, TP);
    AddiWorks(l, Exec([ADD(rd, rs1, TP)], s1), rd, rd, 1);
  }
}
