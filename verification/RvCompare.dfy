/** Comparisons by table lookup: slt, sltu, seq and seqz
    (abstract-machine/tools/minirv/inst-replace.h:42-63, 128-163 and 213-273). */
module RvCompare {
  import opened RvMachine
  import opened RvTables
  import opened RvScratch
  import opened RvBasic

  function Flag(b: bool): Word { if b then 1 else 0 }

  // ----- slt and sltu -----

  /** PUSH(s0, 1) and PUSH(s1, 2). */
  function Save(): seq<Instr> { StoreVar(S0, 1) + StoreVar(S1, 2) }

  lemma SaveWorks(l: Layout, s: State)
    requires Ready(l, s)
    ensures var t := Exec(Save(), s);
            && Keeps(l, s, t, ZERO, ZERO, ZERO, -8, 0) && Ready(l, t)
            && Holds(t, 1, R(s, S0)) && Holds(t, 2, R(s, S1))
  {
    Pieces2(StoreVar(S0, 1), StoreVar(S1, 2), s);
    StoreVarWorks(l, s, S0, 1);
    StoreVarWorks(l, Exec(StoreVar(S0, 1), s), S1, 2);
  }

  /** The two operands into s0 and s1, whose values are saved. */
  function SltLoad(rs1: Reg, rs2: Reg): seq<Instr> {
    Save() + StoreVar(rs2, A) + [ADDI(S0, rs1, 0)] + LoadVar(S1, A)
  }

  lemma SltLoadWorks(l: Layout, s: State, rs1: Reg, rs2: Reg)
    requires Ready(l, s)
    ensures var t := Exec(SltLoad(rs1, rs2), s);
            && Keeps(l, s, t, S0, S1, ZERO, -16, 0) && Ready(l, t)
            && R(t, S0) == R(s, rs1) && R(t, S1) == R(s, rs2)
            && Holds(t, 1, R(s, S0)) && Holds(t, 2, R(s, S1))
  {
    Pieces4(Save(), StoreVar(rs2, A), [ADDI(S0, rs1, 0)], LoadVar(S1, A), s);
    SaveWorks(l, s);
    var s1 := Exec(Save(), s);
    StoreVarWorks(l, s1, rs2, A);
    var s2 := Exec(StoreVar(rs2, A), s1);
    AddiWorks(l, s2, S0, rs1, 0);
    LoadVarWorks(l, Exec([ADDI(S0, rs1, 0)], s2), S1, A, R(s, rs2));
  }

  /** The sign bits of both operands into gp. */
  function SltSigns(): seq<Instr> {
    Msb(GP, S0) + Slli(GP, GP, 1) + Msb(TP, S1) + [ADD(GP, GP, TP)] + Slli(GP, GP, 1)
  }

  lemma SltSignsWork(l: Layout, s: State)
    requires Ready(l, s)
    ensures var t := Exec(SltSigns(), s);
            && Gives(l, s, t, GP, 4 * SignBit(R(s, S0)) + 2 * SignBit(R(s, S1)), TP, ZERO, -24, -20) && Ready(l, t)
  {
    Pieces5(Msb(GP, S0), Slli(GP, GP, 1), Msb(TP, S1), [ADD(GP, GP, TP)], Slli(GP, GP, 1), s);
    MsbWorks(l, s, GP, S0);
    var s1 := Exec(Msb(GP, S0), s);
    SlliSmallWorks(l, s1, GP, GP, 1);
    SllOnce(R(s1, GP));
    var s2 := Exec(Slli(GP, GP, 1), s1);
    MsbWorks(l, s2, TP, S1);
    var s3 := Exec(Msb(TP, S1), s2);
    AddWorks(l, s3, GP, GP, TP);
    var s4 := Exec([ADD(GP, GP, TP)], s3);
    SlliSmallWorks(l, s4, GP, GP, 1);
    SllOnce(R(s4, GP));
  }

  lemma SllOnce(w: Word)
    ensures Sll(w, 1) == Wrap(w + w)
  {
    SllNone(w);
    SllStep(w, 0);
  }

  /** The sign bit of the difference, and the table entry's address into tp. */
  function SltIndex(l: Layout, table: int): seq<Instr> {
    Sub(l, TP, S0, S1) + Msb(TP, TP) + [ADD(GP, GP, TP)] + La(TP, table) + [ADD(TP, TP, GP)]
  }

  lemma SltIndexWorks(l: Layout, s: State, table: Word)
    requires Ready(l, s) && table + 8 <= W && R(s, GP) <= 6
    ensures var t := Exec(SltIndex(l, table), s);
            && Gives(l, s, t, TP, table + R(s, GP) + SignBit(Wrap(R(s, S0) - R(s, S1))), GP, ZERO, -28, -8)
            && Ready(l, t)
  {
    Pieces5(Sub(l, TP, S0, S1), Msb(TP, TP), [ADD(GP, GP, TP)], La(TP, table), [ADD(TP, TP, GP)], s);
    SubWorks(l, s, TP, S0, S1);
    var s1 := Exec(Sub(l, TP, S0, S1), s);
    MsbWorks(l, s1, TP, TP);
    var s2 := Exec(Msb(TP, TP), s1);
    AddWorks(l, s2, GP, GP, TP);
    var s3 := Exec([ADD(GP, GP, TP)], s2);
    LaWorks(l, s3, TP, table);
    AddWorks(l, Exec(La(TP, table), s3), TP, TP, GP);
  }

  function SltEnd(rd: Reg): seq<Instr> { LoadVar(S1, 2) + LoadVar(S0, 1) + [LBU(rd, 0, TP)] }

  lemma SltEndWorks(l: Layout, s: State, rd: Reg, w0: Word, w1: Word, off: int)
    requires Ready(l, s) && Holds(s, 1, w0) && Holds(s, 2, w1) && 0 <= off < ROM_SIZE && R(s, TP) == l.rom + off
    ensures var t := Exec(SltEnd(rd), s);
            && Gives(l, s, t, rd, RomByte(off), S0, S1, 0, 0)
            && (rd != S0 ==> R(t, S0) == w0) && (rd != S1 ==> R(t, S1) == w1)
  {
    Pieces3(LoadVar(S1, 2), LoadVar(S0, 1), [LBU(rd, 0, TP)], s);
    LoadVarWorks(l, s, S1, 2, w1);
    var s1 := Exec(LoadVar(S1, 2), s);
    LoadVarWorks(l, s1, S0, 1, w0);
    var s2 := Exec(LoadVar(S0, 1), s1);
    LbuWorks(l, s2, rd, 0, TP);
    RomLookup(l, s2, off);
  }

  predicate Less(signed: bool, a: Word, b: Word) {
    if signed then ToSigned(a) < ToSigned(b) else a < b
  }

  /** The offset of the entry for two operands. */
  function SltOffset(signed: bool, a: Word, b: Word): int {
    (if signed then SLT1 else SLTU1) + 4 * SignBit(a) + 2 * SignBit(b) + SignBit(Wrap((a as int) - (b as int)))
  }

  /** The two eight-entry tables decide both orders from three sign bits. */
  lemma TablesDecide(signed: bool, a: Word, b: Word)
    ensures RomByte(SltOffset(signed, a, b)) == Flag(Less(signed, a, b))
  {}

  function SltAddress(l: Layout, signed: bool): seq<Instr> {
    SltSigns() + SltIndex(l, l.rom + if signed then SLT1 else SLTU1)
  }

  lemma SltAddressWorks(l: Layout, s: State, signed: bool)
    requires Ready(l, s)
    ensures var t := Exec(SltAddress(l, signed), s);
            && Gives(l, s, t, TP, l.rom + SltOffset(signed, R(s, S0), R(s, S1)), GP, ZERO, -28, -8) && Ready(l, t)
  {
    var base := if signed then SLT1 else SLTU1;
    Pieces2(SltSigns(), SltIndex(l, l.rom + base), s);
    SltSignsWork(l, s);
    SltIndexWorks(l, Exec(SltSigns(), s), l.rom + base);
  }

  function Slt(l: Layout, signed: bool, rd: Reg, rs1: Reg, rs2: Reg): seq<Instr> {
    SltLoad(rs1, rs2) + SltAddress(l, signed) + SltEnd(rd)
  }

  /** The result is right whatever registers are named, the saved ones included. */
  lemma SltWorks(l: Layout, s: State, signed: bool, rd: Reg, rs1: Reg, rs2: Reg)
    requires Ready(l, s)
    ensures Gives(l, s, Exec(Slt(l, signed, rd, rs1, rs2), s), rd, Flag(Less(signed, R(s, rs1), R(s, rs2))), GP, TP,
            -28, 0)
    ensures rd != SP ==> Ready(l, Exec(Slt(l, signed, rd, rs1, rs2), s))
  {
    Pieces3(SltLoad(rs1, rs2), SltAddress(l, signed), SltEnd(rd), s);
    SltLoadWorks(l, s, rs1, rs2);
    var s1 := Exec(SltLoad(rs1, rs2), s);
    SltAddressWorks(l, s1, signed);
    var s2 := Exec(SltAddress(l, signed), s1);
    SltEndWorks(l, s2, rd, R(s, S0), R(s, S1), SltOffset(signed, R(s, rs1), R(s, rs2)));
    TablesDecide(signed, R(s, rs1), R(s, rs2));
  }

  // ----- seqz -----

  /** 0 if byte b of slot A is zero, otherwise 1. */
  function ZeroByte(r: Reg, b: nat): seq<Instr> {
    LoadTop(r, -16 + b) + [ADD(r, S0, r)] + [LBU(r, 0, r)]
  }

  lemma ZeroByteWorks(l: Layout, s: State, r: Reg, b: nat)
    requires Ready(l, s) && b < 4 && R(s, S0) == l.rom + ZERO8 && r != S0 && r != SP && r != ZERO
    ensures var t := Exec(ZeroByte(r, b), s);
            && Gives(l, s, t, r, Flag(Top(s, -16 + b) != 0), ZERO, ZERO, 0, 0) && Ready(l, t)
  {
    Pieces3(LoadTop(r, -16 + b), [ADD(r, S0, r)], [LBU(r, 0, r)], s);
    LoadTopWorks(l, s, r, -16 + b);
    var s1 := Exec(LoadTop(r, -16 + b), s);
    AddWorks(l, s1, r, S0, r);
    var s2 := Exec([ADD(r, S0, r)], s1);
    LbuWorks(l, s2, r, 0, r);
    RomLookup(l, s2, ZERO8 + Top(s, -16 + b));
  }

  /** Adds the verdict on byte b, in r, to gp. */
  function AddZeroByte(b: nat): seq<Instr> { ZeroByte(TP, b) + [ADD(GP, GP, TP)] }

  lemma AddZeroByteWorks(l: Layout, s: State, b: nat)
    requires Ready(l, s) && b < 4 && R(s, S0) == l.rom + ZERO8 && R(s, GP) <= 3
    ensures var t := Exec(AddZeroByte(b), s);
            && Gives(l, s, t, GP, R(s, GP) + Flag(Top(s, -16 + b) != 0), TP, ZERO, 0, 0) && Ready(l, t)
  {
    Pieces2(ZeroByte(TP, b), [ADD(GP, GP, TP)], s);
    ZeroByteWorks(l, s, TP, b);
    AddWorks(l, Exec(ZeroByte(TP, b), s), GP, GP, TP);
  }

  function CountZeroBytes(): seq<Instr> {
    ZeroByte(GP, 0) + AddZeroByte(1) + AddZeroByte(2) + AddZeroByte(3)
  }

  lemma CountZeroBytesWorks(l: Layout, s: State, w: Word)
    requires Ready(l, s) && R(s, S0) == l.rom + ZERO8 && Holds(s, A, w)
    ensures var t := Exec(CountZeroBytes(), s);
            && Keeps(l, s, t, GP, TP, ZERO, 0, 0) && Ready(l, t) && R(t, GP) <= 4
            && (R(t, GP) == 0 <==> w == 0)
  {
    Pieces4(ZeroByte(GP, 0), AddZeroByte(1), AddZeroByte(2), AddZeroByte(3), s);
    ZeroByteWorks(l, s, GP, 0);
    var s1 := Exec(ZeroByte(GP, 0), s);
    AddZeroByteWorks(l, s1, 1);
    var s2 := Exec(AddZeroByte(1), s1);
    AddZeroByteWorks(l, s2, 2);
    var s3 := Exec(AddZeroByte(2), s2);
    AddZeroByteWorks(l, s3, 3);
    BytesOfWord(w);
  }

  /** rd becomes 1 if gp is zero, otherwise 0. */
  function Verdict(l: Layout, rd: Reg): seq<Instr> { La(TP, l.rom + SAME) + [ADD(TP, TP, GP)] + [LBU(rd, 0, TP)] }

  lemma VerdictWorks(l: Layout, s: State, rd: Reg)
    requires Ready(l, s) && R(s, GP) <= 4
    ensures Gives(l, s, Exec(Verdict(l, rd), s), rd, Flag(R(s, GP) == 0), TP, ZERO, 0, 0)
    ensures rd != SP ==> Ready(l, Exec(Verdict(l, rd), s))
  {
    Pieces3(La(TP, l.rom + SAME), [ADD(TP, TP, GP)], [LBU(rd, 0, TP)], s);
    LaWorks(l, s, TP, l.rom + SAME);
    var s1 := Exec(La(TP, l.rom + SAME), s);
    AddWorks(l, s1, TP, TP, GP);
    var s2 := Exec([ADD(TP, TP, GP)], s1);
    LbuWorks(l, s2, rd, 0, TP);
    RomLookup(l, s2, SAME + R(s, GP));
  }

  function SeqzHead(l: Layout, rs1: Reg): seq<Instr> {
    StoreVar(rs1, A) + StoreVar(S0, 1) + La(S0, l.rom + ZERO8) + CountZeroBytes()
  }

  lemma SeqzHeadWorks(l: Layout, s: State, rs1: Reg)
    requires Ready(l, s)
    ensures var t := Exec(SeqzHead(l, rs1), s);
            && Keeps(l, s, t, S0, GP, TP, -16, 0) && Ready(l, t) && Holds(t, 1, R(s, S0))
            && R(t, GP) <= 4 && (R(t, GP) == 0 <==> R(s, rs1) == 0)
  {
    Pieces4(StoreVar(rs1, A), StoreVar(S0, 1), La(S0, l.rom + ZERO8), CountZeroBytes(), s);
    StoreVarWorks(l, s, rs1, A);
    var s1 := Exec(StoreVar(rs1, A), s);
    StoreVarWorks(l, s1, S0, 1);
    var s2 := Exec(StoreVar(S0, 1), s1);
    LaWorks(l, s2, S0, l.rom + ZERO8);
    CountZeroBytesWorks(l, Exec(La(S0, l.rom + ZERO8), s2), R(s, rs1));
  }

  function Seqz(l: Layout, rd: Reg, rs1: Reg): seq<Instr> {
    SeqzHead(l, rs1) + Verdict(l, rd) + LoadVar(S0, 1)
  }

  lemma SeqzWorks(l: Layout, s: State, rd: Reg, rs1: Reg)
    requires Ready(l, s) && rd != S0 && rd != SP
    ensures var t := Exec(Seqz(l, rd, rs1), s);
            && Gives(l, s, t, rd, Flag(R(s, rs1) == 0), GP, TP, -16, 0) && Ready(l, t)
  {
    Pieces3(SeqzHead(l, rs1), Verdict(l, rd), LoadVar(S0, 1), s);
    SeqzHeadWorks(l, s, rs1);
    var s1 := Exec(SeqzHead(l, rs1), s);
    VerdictWorks(l, s1, rd);
    LoadVarWorks(l, Exec(Verdict(l, rd), s1), S0, 1, R(s, S0));
  }

  /** seqz s0, r loses its result: s0 is restored after it was written. So the macro is right exactly
      when rd is another register, or s0 happens to hold the answer already. */
  lemma SeqzExact(l: Layout, s: State, rd: Reg, rs1: Reg)
    requires Ready(l, s) && rd != SP && rd != ZERO
    ensures R(Exec(Seqz(l, rd, rs1), s), rd) == Flag(R(s, rs1) == 0) <==> rd != S0 || R(s, S0) == Flag(R(s, rs1) == 0)
  {
    if rd != S0 {
      SeqzWorks(l, s, rd, rs1);
    } else {
      Pieces3(SeqzHead(l, rs1), Verdict(l, S0), LoadVar(S0, 1), s);
      SeqzHeadWorks(l, s, rs1);
      var s1 := Exec(SeqzHead(l, rs1), s);
      VerdictWorks(l, s1, S0);
      LoadVarWorks(l, Exec(Verdict(l, S0), s1), S0, 1, R(s, S0));
    }
  }

  // ----- seq -----

  /** sb r, (ra), where ra points into _check_same_array. */
  lemma StoreCsaWorks(l: Layout, s: State, r: Reg, ra: Reg, x: Byte)
    requires Ready(l, s) && R(s, ra) == l.csa + x
    ensures var t := Exec([SB(r, 0, ra)], s);
            && Keeps(l, s, t, ZERO, ZERO, ZERO, 0, 0) && Ready(l, t) && t.regs == s.regs
            && M8(t, l.csa + x) == ByteOf(R(s, r), 0)
            && (forall a: int {:trigger M8(t, a)} :: a != l.csa + x ==> M8(t, a) == M8(s, a))
  {
    Exec1(SB(r, 0, ra), s);
    ReadyKept(l, s, Exec([SB(r, 0, ra)], s), ZERO, ZERO, ZERO, 0, 0);
  }

  /** Marks entry A_b, leaving its address in tp. */
  function Mark(r: Reg, b: nat): seq<Instr> {
    LoadTop(r, -16 + b) + [ADD(TP, S0, r)] + [ADDI(r, ZERO, 1)] + [SB(r, 0, TP)]
  }

  lemma MarkWorks(l: Layout, s: State, r: Reg, b: nat)
    requires Ready(l, s) && b < 4 && R(s, S0) == l.csa && r != S0 && r != SP && r != ZERO && r != TP
    ensures var t := Exec(Mark(r, b), s);
            && Keeps(l, s, t, r, TP, ZERO, 0, 0) && Ready(l, t)
            && R(t, TP) == l.csa + Top(s, -16 + b) && M8(t, l.csa + Top(s, -16 + b)) == 1
  {
    Pieces4(LoadTop(r, -16 + b), [ADD(TP, S0, r)], [ADDI(r, ZERO, 1)], [SB(r, 0, TP)], s);
    LoadTopWorks(l, s, r, -16 + b);
    var s1 := Exec(LoadTop(r, -16 + b), s);
    AddWorks(l, s1, TP, S0, r);
    var s2 := Exec([ADD(TP, S0, r)], s1);
    AddiWorks(l, s2, r, ZERO, 1);
    StoreCsaWorks(l, Exec([ADDI(r, ZERO, 1)], s2), r, TP, Top(s, -16 + b));
    SmallByte(1);
  }

  /** Clears entry B_b and reads entry A_b back. */
  function Probe(r: Reg, b: nat): seq<Instr> {
    LoadTop(r, -20 + b) + [ADD(r, S0, r)] + [SB(ZERO, 0, r)] + [LBU(r, 0, TP)]
  }

  lemma LoadKeepsMemory(l: Layout, s: State, r: Reg, b: nat)
    requires Ready(l, s) && b < 4
    ensures Exec([ADD(r, S0, r)], Exec(LoadTop(r, -20 + b), s)).mem == s.mem
  {
    Exec1(LBU(r, -20 + b, SP), s);
    Exec1(ADD(r, S0, r), Exec(LoadTop(r, -20 + b), s));
  }

  lemma ProbeWorks(l: Layout, s: State, r: Reg, b: nat, x: Byte)
    requires Ready(l, s) && b < 4 && R(s, S0) == l.csa && r != S0 && r != SP && r != ZERO && r != TP
    requires R(s, TP) == l.csa + x && M8(s, l.csa + x) == 1
    ensures var t := Exec(Probe(r, b), s);
            && Gives(l, s, t, r, Flag(x != Top(s, -20 + b)), ZERO, ZERO, 0, 0) && Ready(l, t)
  {
    Pieces4(LoadTop(r, -20 + b), [ADD(r, S0, r)], [SB(ZERO, 0, r)], [LBU(r, 0, TP)], s);
    LoadTopWorks(l, s, r, -20 + b);
    var s1 := Exec(LoadTop(r, -20 + b), s);
    AddWorks(l, s1, r, S0, r);
    var s2 := Exec([ADD(r, S0, r)], s1);
    LoadKeepsMemory(l, s, r, b);
    assert M8(s2, l.csa + x) == 1;
    StoreCsaWorks(l, s2, ZERO, r, Top(s, -20 + b));
    SmallByte(0);
    LbuWorks(l, Exec([SB(ZERO, 0, r)], s2), r, 0, TP);
  }

  function SameByte(r: Reg, b: nat): seq<Instr> { Mark(r, b) + Probe(r, b) }

  /** 0 if byte b of slots A and B agree, otherwise 1: an entry both marked and cleared reads 0. */
  lemma SameByteWorks(l: Layout, s: State, r: Reg, b: nat)
    requires Ready(l, s) && b < 4 && R(s, S0) == l.csa && r != S0 && r != SP && r != ZERO && r != TP
    ensures var t := Exec(SameByte(r, b), s);
            && Gives(l, s, t, r, Flag(Top(s, -16 + b) != Top(s, -20 + b)), TP, ZERO, 0, 0) && Ready(l, t)
  {
    Pieces2(Mark(r, b), Probe(r, b), s);
    MarkWorks(l, s, r, b);
    ProbeWorks(l, Exec(Mark(r, b), s), r, b, Top(s, -16 + b));
  }

  function AddSameByte(b: nat): seq<Instr> { SameByte(S1, b) + [ADD(GP, GP, S1)] }

  lemma AddSameByteWorks(l: Layout, s: State, b: nat)
    requires Ready(l, s) && b < 4 && R(s, S0) == l.csa && R(s, GP) <= 3
    ensures var t := Exec(AddSameByte(b), s);
            && Gives(l, s, t, GP, R(s, GP) + Flag(Top(s, -16 + b) != Top(s, -20 + b)), TP, S1, 0, 0) && Ready(l, t)
  {
    Pieces2(SameByte(S1, b), [ADD(GP, GP, S1)], s);
    SameByteWorks(l, s, S1, b);
    AddWorks(l, Exec(SameByte(S1, b), s), GP, GP, S1);
  }

  function CountDifferent(): seq<Instr> {
    SameByte(GP, 0) + AddSameByte(1) + AddSameByte(2) + AddSameByte(3)
  }

  lemma CountDifferentWorks(l: Layout, s: State, x: Word, y: Word)
    requires Ready(l, s) && R(s, S0) == l.csa && Holds(s, A, x) && Holds(s, B, y)
    ensures var t := Exec(CountDifferent(), s);
            && Keeps(l, s, t, GP, TP, S1, 0, 0) && Ready(l, t) && R(t, GP) <= 4
            && (R(t, GP) == 0 <==> x == y)
  {
    Pieces4(SameByte(GP, 0), AddSameByte(1), AddSameByte(2), AddSameByte(3), s);
    SameByteWorks(l, s, GP, 0);
    var s1 := Exec(SameByte(GP, 0), s);
    AddSameByteWorks(l, s1, 1);
    var s2 := Exec(AddSameByte(1), s1);
    AddSameByteWorks(l, s2, 2);
    var s3 := Exec(AddSameByte(2), s2);
    AddSameByteWorks(l, s3, 3);
    BytesOfWord(x);
    BytesOfWord(y);
  }

  function SeqHead(l: Layout, rs1: Reg, rs2: Reg): seq<Instr> {
    StoreVar(rs1, A) + StoreVar(rs2, B) + Save() + La(S0, l.csa)
  }

  lemma SeqHeadWorks(l: Layout, s: State, rs1: Reg, rs2: Reg)
    requires Ready(l, s)
    ensures var t := Exec(SeqHead(l, rs1, rs2), s);
            && Gives(l, s, t, S0, l.csa, ZERO, ZERO, -20, 0) && Ready(l, t)
            && Holds(t, A, R(s, rs1)) && Holds(t, B, R(s, rs2)) && Holds(t, 1, R(s, S0)) && Holds(t, 2, R(s, S1))
  {
    Pieces4(StoreVar(rs1, A), StoreVar(rs2, B), Save(), La(S0, l.csa), s);
    StoreVarWorks(l, s, rs1, A);
    var s1 := Exec(StoreVar(rs1, A), s);
    StoreVarWorks(l, s1, rs2, B);
    var s2 := Exec(StoreVar(rs2, B), s1);
    SaveWorks(l, s2);
    LaWorks(l, Exec(Save(), s2), S0, l.csa);
  }

  function SeqTail(l: Layout, rd: Reg): seq<Instr> { Verdict(l, rd) + LoadVar(S1, 2) + LoadVar(S0, 1) }

  lemma SeqTailWorks(l: Layout, s: State, rd: Reg, w0: Word, w1: Word)
    requires Ready(l, s) && R(s, GP) <= 4 && Holds(s, 1, w0) && Holds(s, 2, w1) && rd != S0 && rd != S1 && rd != SP
    ensures var t := Exec(SeqTail(l, rd), s);
            && (rd != ZERO ==> R(t, rd) == Flag(R(s, GP) == 0)) && R(t, S0) == w0 && R(t, S1) == w1 && Ready(l, t)
            && (forall r: Reg {:trigger R(t, r)} :: r != S0 && r != S1 && r != TP && r != rd ==> R(t, r) == R(s, r))
            && (forall a: int {:trigger M8(t, a)} :: !InCsa(l, a) ==> M8(t, a) == M8(s, a))
  {
    Pieces3(Verdict(l, rd), LoadVar(S1, 2), LoadVar(S0, 1), s);
    VerdictWorks(l, s, rd);
    var s1 := Exec(Verdict(l, rd), s);
    LoadVarWorks(l, s1, S1, 2, w1);
    LoadVarWorks(l, Exec(LoadVar(S1, 2), s1), S0, 1, w0);
  }

  function Seq(l: Layout, rd: Reg, rs1: Reg, rs2: Reg): seq<Instr> {
    SeqHead(l, rs1, rs2) + CountDifferent() + SeqTail(l, rd)
  }

  lemma SeqWorks(l: Layout, s: State, rd: Reg, rs1: Reg, rs2: Reg)
    requires Ready(l, s) && rd != S0 && rd != S1 && rd != SP
    ensures var t := Exec(Seq(l, rd, rs1, rs2), s);
            && Gives(l, s, t, rd, Flag(R(s, rs1) == R(s, rs2)), GP, TP, -20, 0) && Ready(l, t)
  {
    Pieces3(SeqHead(l, rs1, rs2), CountDifferent(), SeqTail(l, rd), s);
    SeqHeadWorks(l, s, rs1, rs2);
    var s1 := Exec(SeqHead(l, rs1, rs2), s);
    CountDifferentWorks(l, s1, R(s, rs1), R(s, rs2));
    SeqTailWorks(l, Exec(CountDifferent(), s1), rd, R(s, S0), R(s, S1));
  }

  /** s0 and s1 are restored last, even if rd is one of them. */
  lemma SeqRestores(l: Layout, s: State, rd: Reg, rs1: Reg, rs2: Reg)
    requires Ready(l, s) && rd != SP
    ensures var t := Exec(Seq(l, rd, rs1, rs2), s); R(t, S0) == R(s, S0) && R(t, S1) == R(s, S1)
  {
    Pieces3(SeqHead(l, rs1, rs2), CountDifferent(), SeqTail(l, rd), s);
    SeqHeadWorks(l, s, rs1, rs2);
    var s1 := Exec(SeqHead(l, rs1, rs2), s);
    CountDifferentWorks(l, s1, R(s, rs1), R(s, rs2));
    var s2 := Exec(CountDifferent(), s1);
    Pieces3(Verdict(l, rd), LoadVar(S1, 2), LoadVar(S0, 1), s2);
    VerdictWorks(l, s2, rd);
    var s3 := Exec(Verdict(l, rd), s2);
    LoadVarWorks(l, s3, S1, 2, R(s, S1));
    LoadVarWorks(l, Exec(LoadVar(S1, 2), s3), S0, 1, R(s, S0));
  }

  /** So seq is right exactly when rd is neither s0 nor s1, or holds the answer already. */
  lemma SeqExact(l: Layout, s: State, rd: Reg, rs1: Reg, rs2: Reg)
    requires Ready(l, s) && rd != SP && rd != ZERO
    ensures R(Exec(Seq(l, rd, rs1, rs2), s), rd) == Flag(R(s, rs1) == R(s, rs2))
            <==> (rd != S0 && rd != S1) || R(s, rd) == Flag(R(s, rs1) == R(s, rs2))
  {
    if rd == S0 || rd == S1 { SeqRestores(l, s, rd, rs1, rs2); } else { SeqWorks(l, s, rd, rs1, rs2); }
  }

  /** seqz sp, r sets sp, but then takes s0 from the word below the new stack pointer. */
  lemma SeqzIntoSp(l: Layout, s: State, rs1: Reg)
    requires Ready(l, s)
    ensures var t, f := Exec(Seqz(l, SP, rs1), s), Flag(R(s, rs1) == 0);
            R(t, SP) == f && R(t, S0) == M32(t, Wrap((f as int) - 4))
  {
    Pieces3(SeqzHead(l, rs1), Verdict(l, SP), LoadVar(S0, 1), s);
    SeqzHeadWorks(l, s, rs1);
    var s1 := Exec(SeqzHead(l, rs1), s);
    VerdictWorks(l, s1, SP);
    Exec1(LW(S0, -4, SP), Exec(Verdict(l, SP), s1));
  }
}
