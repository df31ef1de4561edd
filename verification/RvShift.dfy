/** The shift amount, table lookups and sll (abstract-machine/tools/minirv/inst-replace.h:384-430). */
module RvShift {
  import opened Bits
  import opened RvMachine
  import opened RvTables
  import opened RvScratch
  import opened RvBasic
  import opened RvShiftMath

  // ----- the shift amount and the table row -----

  function Masked(w: Word): nat { w % 32 }

  /** The low five bits of rs into s0, through the and-table's row 0x1f. */
  function GetShamt(l: Layout, rs: Reg): seq<Instr> {
    StoreTop(rs, -20) + LoadTop(S0, -20) + La(TP, l.rom + LUT + TableOf(AndOp) + 0x1f00) + [ADD(S0, S0, TP)]
        + [LBU(S0, 0, S0)]
  }

  lemma MaskByTable(w: Word)
    ensures LogicByte(AndOp, 0x1f, ByteOf(w, 0)) == Masked(w)
  {
    var b := ByteOf(w, 0);
    LogicByteIs(AndOp, 0x1f, b);
    Pow2Small();
    BitwiseCommutes(AndOp, 0x1f, b, 8);
    AndLow(b, 5, 8);
    ShrIsDiv(b, 5);
    LowBitsOfByte(w);
  }

  lemma LowBitsOfByte(w: Word)
    ensures ByteOf(w, 0) % 32 == w % 32
  {
    ByteOfIs(w, 0);
    assert Shr(w, 0) == w;
    var r := w % 0x100;
    DivMod(w, 32, 8 * (w / 0x100) + r / 32, r % 32);
  }

  lemma GetShamtWorks(l: Layout, s: State, rs: Reg)
    requires Ready(l, s)
    ensures var t := Exec(GetShamt(l, rs), s);
            && Gives(l, s, t, S0, Masked(R(s, rs)), TP, ZERO, -20, -19) && Ready(l, t)
  {
    var table := l.rom + LUT + TableOf(AndOp) + 0x1f00;
    Pieces5(StoreTop(rs, -20), LoadTop(S0, -20), La(TP, table), [ADD(S0, S0, TP)], [LBU(S0, 0, S0)], s);
    StoreTopWorks(l, s, rs, -20);
    var s1 := Exec(StoreTop(rs, -20), s);
    LoadTopWorks(l, s1, S0, -20);
    var s2 := Exec(LoadTop(S0, -20), s1);
    LaWorks(l, s2, TP, table);
    var s3 := Exec(La(TP, table), s2);
    AddWorks(l, s3, S0, S0, TP);
    var s4 := Exec([ADD(S0, S0, TP)], s3);
    LbuWorks(l, s4, S0, 0, S0);
    RomLogic(l, s4, AndOp, 0x1f, ByteOf(R(s, rs), 0));
    MaskByTable(R(s, rs));
  }

  /** s0 times 1024, by way of slot B. */
  function TimesRow(): seq<Instr> {
    StoreVar(ZERO, B) + StoreTop(S0, -19) + LoadVar(S0, B) + Slli(S0, S0, 2)
  }

  lemma TimesRowWorks(l: Layout, s: State)
    requires Ready(l, s) && R(s, S0) < 32
    ensures var t := Exec(TimesRow(), s);
            && Gives(l, s, t, S0, 1024 * R(s, S0), ZERO, ZERO, -20, -16) && Ready(l, t)
  {
    Pieces4(StoreVar(ZERO, B), StoreTop(S0, -19), LoadVar(S0, B), Slli(S0, S0, 2), s);
    StoreVarWorks(l, s, ZERO, B);
    SmallByte(0);
    var s1 := Exec(StoreVar(ZERO, B), s);
    StoreTopWorks(l, s1, S0, -19);
    var s2 := Exec(StoreTop(S0, -19), s1);
    var w := 0x100 * R(s, S0);
    BytesDetermineWord(w, 0, R(s, S0), 0, 0);
    LoadVarWorks(l, s2, S0, B, w);
    var s3 := Exec(LoadVar(S0, B), s2);
    SlliSmallWorks(l, s3, S0, S0, 2);
    TimesFour(w);
  }

  lemma TimesFour(w: Word)
    requires w < 0x4000_0000
    ensures Sll(w, 2) == 4 * w
  {
    SllNone(w);
    SllStep(w, 0);
    SllStep(w, 1);
  }

  /** The address of the table row for the shift amount in rs. */
  function RowOf(l: Layout, op: ShiftOp, a: nat): int { l.rom + LUT + ShiftTableOf(op) + 1024 * a }

  function FindRow(l: Layout, op: ShiftOp, rs: Reg): seq<Instr> {
    GetShamt(l, rs) + TimesRow() + La(TP, l.rom + LUT + ShiftTableOf(op)) + [ADD(S0, S0, TP)]
  }

  lemma FindRowWorks(l: Layout, s: State, op: ShiftOp, rs: Reg)
    requires Ready(l, s)
    ensures var t := Exec(FindRow(l, op, rs), s);
            && Gives(l, s, t, S0, RowOf(l, op, Masked(R(s, rs))), TP, ZERO, -20, -16) && Ready(l, t)
  {
    var table := l.rom + LUT + ShiftTableOf(op);
    Pieces4(GetShamt(l, rs), TimesRow(), La(TP, table), [ADD(S0, S0, TP)], s);
    GetShamtWorks(l, s, rs);
    var s1 := Exec(GetShamt(l, rs), s);
    TimesRowWorks(l, s1);
    var s2 := Exec(TimesRow(), s1);
    LaWorks(l, s2, TP, table);
    AddWorks(l, Exec(La(TP, table), s2), S0, S0, TP);
  }

  /** get_shift_byte_in_tp: the entry for byte b of slot A in the row at base. */
  function GetEntry(b: nat): seq<Instr> {
    LoadTop(TP, -16 + b) + Slli(TP, TP, 2) + [ADD(TP, S0, TP)] + [LW(TP, 0, TP)]
  }

  lemma GetEntryWorks(l: Layout, s: State, op: ShiftOp, a: nat, b: nat)
    requires Ready(l, s) && a < 32 && b < 4 && R(s, S0) == RowOf(l, op, a)
    ensures var t := Exec(GetEntry(b), s);
            && Gives(l, s, t, TP, ShiftEntry(op, a, Top(s, -16 + b)), ZERO, ZERO, 0, 0) && Ready(l, t)
  {
    Pieces4(LoadTop(TP, -16 + b), Slli(TP, TP, 2), [ADD(TP, S0, TP)], [LW(TP, 0, TP)], s);
    LoadTopWorks(l, s, TP, -16 + b);
    var s1 := Exec(LoadTop(TP, -16 + b), s);
    SlliSmallWorks(l, s1, TP, TP, 2);
    TimesFour(Top(s, -16 + b));
    var s2 := Exec(Slli(TP, TP, 2), s1);
    AddWorks(l, s2, TP, S0, TP);
    var s3 := Exec([ADD(TP, S0, TP)], s2);
    LwWorks(l, s3, TP, 0, TP);
    RomWord(l, s3, op, a, Top(s, -16 + b));
  }

  // ----- sll -----

  /** An entry in tp moves to the top byte, through an empty slot B. */
  function LiftB(): seq<Instr> { StoreTop(TP, -17) + LoadVar(GP, B) }

  lemma LiftBWorks(l: Layout, s: State)
    requires Ready(l, s) && Top(s, -20) == 0 && Top(s, -19) == 0 && Top(s, -18) == 0
    ensures var t := Exec(LiftB(), s);
            && Gives(l, s, t, GP, Sll(R(s, TP), 24), ZERO, ZERO, -17, -16) && Ready(l, t)
  {
    Pieces2(StoreTop(TP, -17), LoadVar(GP, B), s);
    StoreTopWorks(l, s, TP, -17);
    Sll24(R(s, TP));
    LoadVarWorks(l, Exec(StoreTop(TP, -17), s), GP, B, Sll(R(s, TP), 24));
  }

  /** The contribution of byte 3, into gp. */
  function SllByte3(): seq<Instr> { StoreVar(ZERO, B) + GetEntry(3) + LiftB() }

  lemma SllByte3Works(l: Layout, s: State, a: nat, x: Word)
    requires Ready(l, s) && a < 32 && R(s, S0) == RowOf(l, ShiftLeft, a) && Holds(s, A, x)
    ensures var t := Exec(SllByte3(), s);
            && Gives(l, s, t, GP, Sll(Sll(ByteOf(x, 3), a), 24), TP, ZERO, -20, -16) && Ready(l, t)
            && Top(t, -20) == 0 && Top(t, -19) == 0
  {
    Pieces3(StoreVar(ZERO, B), GetEntry(3), LiftB(), s);
    StoreVarWorks(l, s, ZERO, B);
    SmallByte(0);
    var s1 := Exec(StoreVar(ZERO, B), s);
    GetEntryWorks(l, s1, ShiftLeft, a, 3);
    LiftBWorks(l, Exec(GetEntry(3), s1));
  }

  /** Adds the contribution of byte 2. */
  function SllByte2(): seq<Instr> { GetEntry(2) + Sh(TP, -18, SP) + LoadVar(TP, B) + [ADD(GP, GP, TP)] }

  lemma SllByte2Works(l: Layout, s: State, a: nat, x: Word)
    requires Ready(l, s) && a < 32 && R(s, S0) == RowOf(l, ShiftLeft, a) && Holds(s, A, x)
    requires Top(s, -20) == 0 && Top(s, -19) == 0
    ensures var t := Exec(SllByte2(), s);
            && Gives(l, s, t, GP, Wrap(R(s, GP) + Sll(Sll(ByteOf(x, 2), a), 16)), TP, ZERO, -24, -16) && Ready(l, t)
  {
    Pieces4(GetEntry(2), Sh(TP, -18, SP), LoadVar(TP, B), [ADD(GP, GP, TP)], s);
    GetEntryWorks(l, s, ShiftLeft, a, 2);
    var s1 := Exec(GetEntry(2), s);
    var y := Sll(ByteOf(x, 2), a);
    assert R(s1, TP) == y;
    ShUpperWorks(l, s1, TP, B);
    var s2 := Exec(Sh(TP, -18, SP), s1);
    LoadVarWorks(l, s2, TP, B, Sll(y, 16));
    AddWorks(l, Exec(LoadVar(TP, B), s2), GP, GP, TP);
  }

  /** Adds the contribution of byte 1 and leaves that of byte 0 in tp. */
  function SllByte1(): seq<Instr> { GetEntry(1) + Slli(TP, TP, 8) + [ADD(GP, GP, TP)] + GetEntry(0) }

  lemma SllByte1Works(l: Layout, s: State, a: nat, x: Word)
    requires Ready(l, s) && a < 32 && R(s, S0) == RowOf(l, ShiftLeft, a) && Holds(s, A, x)
    ensures var t := Exec(SllByte1(), s);
            && Gives(l, s, t, GP, Wrap(R(s, GP) + Sll(Sll(ByteOf(x, 1), a), 8)), TP, ZERO, 0, 0) && Ready(l, t)
            && R(t, TP) == Sll(ByteOf(x, 0), a)
  {
    Pieces4(GetEntry(1), Slli(TP, TP, 8), [ADD(GP, GP, TP)], GetEntry(0), s);
    GetEntryWorks(l, s, ShiftLeft, a, 1);
    var s1 := Exec(GetEntry(1), s);
    SlliSmallWorks(l, s1, TP, TP, 8);
    var s2 := Exec(Slli(TP, TP, 8), s1);
    AddWorks(l, s2, GP, GP, TP);
    GetEntryWorks(l, Exec([ADD(GP, GP, TP)], s2), ShiftLeft, a, 0);
  }

  function SllLow(): seq<Instr> { SllByte2() + SllByte1() }

  lemma SllLowWorks(l: Layout, s: State, a: nat, x: Word)
    requires Ready(l, s) && a < 32 && R(s, S0) == RowOf(l, ShiftLeft, a) && Holds(s, A, x)
    requires Top(s, -20) == 0 && Top(s, -19) == 0
    ensures var t := Exec(SllLow(), s);
            && Keeps(l, s, t, GP, TP, ZERO, -24, -16) && Ready(l, t) && R(t, TP) == Sll(ByteOf(x, 0), a)
            && R(t, GP) == Wrap(Wrap(R(s, GP) + Sll(Sll(ByteOf(x, 2), a), 16)) + Sll(Sll(ByteOf(x, 1), a), 8))
  {
    Pieces2(SllByte2(), SllByte1(), s);
    SllByte2Works(l, s, a, x);
    SllByte1Works(l, Exec(SllByte2(), s), a, x);
  }

  function SllSum(): seq<Instr> { SllByte3() + SllLow() }

  lemma SllSumWorks(l: Layout, s: State, a: nat, x: Word)
    requires Ready(l, s) && a < 32 && R(s, S0) == RowOf(l, ShiftLeft, a) && Holds(s, A, x)
    ensures var t := Exec(SllSum(), s);
            && Keeps(l, s, t, GP, TP, ZERO, -24, -16) && Ready(l, t) && Wrap(R(t, GP) + R(t, TP)) == Sll(x, a)
  {
    Pieces2(SllByte3(), SllLow(), s);
    SllByte3Works(l, s, a, x);
    SllLowWorks(l, Exec(SllByte3(), s), a, x);
    SllOfBytes(x, a);
  }

  /** PUSH(s0, 1) and the operand into slot A. */
  function ShiftHead(rs1: Reg): seq<Instr> { StoreVar(S0, 1) + StoreVar(rs1, A) }

  lemma ShiftHeadWorks(l: Layout, s: State, rs1: Reg)
    requires Ready(l, s)
    ensures var t := Exec(ShiftHead(rs1), s);
            && Keeps(l, s, t, ZERO, ZERO, ZERO, -16, 0) && Ready(l, t)
            && Holds(t, 1, R(s, S0)) && Holds(t, A, R(s, rs1))
  {
    Pieces2(StoreVar(S0, 1), StoreVar(rs1, A), s);
    StoreVarWorks(l, s, S0, 1);
    StoreVarWorks(l, Exec(StoreVar(S0, 1), s), rs1, A);
  }

  /** POP(s0, 1) and the final addition. */
  function ShiftEnd(rd: Reg): seq<Instr> { LoadVar(S0, 1) + [ADD(rd, GP, TP)] }

  lemma ShiftEndWorks(l: Layout, s: State, rd: Reg, w0: Word)
    requires Ready(l, s) && Holds(s, 1, w0)
    ensures var t := Exec(ShiftEnd(rd), s);
            && Gives(l, s, t, rd, Wrap(R(s, GP) + R(s, TP)), S0, ZERO, 0, 0) && (rd != S0 ==> R(t, S0) == w0)
            && (rd != SP ==> Ready(l, t))
  {
    Pieces2(LoadVar(S0, 1), [ADD(rd, GP, TP)], s);
    LoadVarWorks(l, s, S0, 1, w0);
    AddWorks(l, Exec(LoadVar(S0, 1), s), rd, GP, TP);
  }

  function SllMacro(l: Layout, rd: Reg, rs1: Reg, rs2: Reg): seq<Instr> {
    ShiftHead(rs1) + FindRow(l, ShiftLeft, rs2) + SllSum() + ShiftEnd(rd)
  }

  lemma SllWorks(l: Layout, s: State, rd: Reg, rs1: Reg, rs2: Reg)
    requires Ready(l, s)
    ensures Gives(l, s, Exec(SllMacro(l, rd, rs1, rs2), s), rd, Sll(R(s, rs1), Masked(R(s, rs2))), GP, TP, -24, 0)
    ensures rd != SP ==> Ready(l, Exec(SllMacro(l, rd, rs1, rs2), s))
  {
    Pieces4(ShiftHead(rs1), FindRow(l, ShiftLeft, rs2), SllSum(), ShiftEnd(rd), s);
    ShiftHeadWorks(l, s, rs1);
    var s1 := Exec(ShiftHead(rs1), s);
    FindRowWorks(l, s1, ShiftLeft, rs2);
    var s2 := Exec(FindRow(l, ShiftLeft, rs2), s1);
    SllSumWorks(l, s2, Masked(R(s, rs2)), R(s, rs1));
    ShiftEndWorks(l, Exec(SllSum(), s2), rd, R(s, S0));
  }
}
