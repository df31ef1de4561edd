/** Byte and half-word accesses: lb, lh, lhu and sh
    (abstract-machine/tools/minirv/inst-replace.h:570-601). */
module RvMemory {
  import opened Bits
  import opened RvMachine
  import opened RvTables
  import opened RvScratch
  import opened RvBasic
  import opened RvShiftMath
  import opened RvShiftRight

  /** Loading n bytes at a reads nothing that a macro may overwrite. */
  ghost predicate Readable(l: Layout, s: State, a: Word, n: nat) {
    && a + n <= W
    && (a + n <= R(s, SP) - 28 || R(s, SP) <= a)
    && (a + n <= l.csa || l.csa + 256 <= a)
  }

  function Extend8(b: Byte): Word { if b < 0x80 then b else b + 0xffff_ff00 }

  function Extend16(h: int): Word
    requires 0 <= h < 0x1_0000
  {
    if h < 0x8000 then h else h + 0xffff_0000
  }

  lemma Byte24(b: Byte)
    ensures Sll(b, 24) == Shl(b, 24) == 0x100_0000 * b
  {
    Pow2Small();
    Pow2Add(8, 16);
    ShlIsMul(b, 24);
  }

  lemma Byte24Right(b: Byte)
    ensures Srl(0x100_0000 * b, 24) == b && Srl(0x100_0000 * b, 16) == 0x100 * b
  {
    Byte24(b);
    Pow2Small();
    ShlShl(b, 8, 16);
    ShlIsMul(b, 8);
    SplitUnique(b, 0, 24);
    SplitUnique(Shl(b, 8), 0, 16);
  }

  lemma ExtendByShift(b: Byte)
    ensures Sra(Sll(b, 24), 24) == Extend8(b)
    ensures Sra(Sll(b, 24), 16) == (if b < 0x80 then 0x100 * b else 0x100 * b + 0xffff_0000)
  {
    Byte24(b);
    Byte24Right(b);
    SraIsFill(0x100_0000 * b, 24);
    SraIsFill(0x100_0000 * b, 16);
    Pow2Small();
  }

  // ----- lb -----

  /** A byte in rd moves to its top, through an empty slot A. */
  function Lift(rd: Reg): seq<Instr> { StoreTop(rd, -13) + LoadVar(rd, A) }

  lemma LiftWorks(l: Layout, s: State, rd: Reg)
    requires Ready(l, s) && rd != SP && Top(s, -16) == 0 && Top(s, -15) == 0 && Top(s, -14) == 0
    ensures var t := Exec(Lift(rd), s);
            && Gives(l, s, t, rd, Sll(R(s, rd), 24), ZERO, ZERO, -13, -12) && Ready(l, t)
  {
    Pieces2(StoreTop(rd, -13), LoadVar(rd, A), s);
    StoreTopWorks(l, s, rd, -13);
    Sll24(R(s, rd));
    LoadVarWorks(l, Exec(StoreTop(rd, -13), s), rd, A, Sll(R(s, rd), 24));
  }

  function LbHead(rd: Reg, imm: int, rs1: Reg): seq<Instr> {
    StoreVar(ZERO, A) + [LBU(rd, imm, rs1)] + Lift(rd)
  }

  /** The byte at an address, moved to the top of rd. */
  lemma LbHeadWorks(l: Layout, s: State, rd: Reg, imm: int, rs1: Reg)
    requires Ready(l, s) && rd != SP && Readable(l, s, Addr(s, rs1, imm), 1)
    ensures var t := Exec(LbHead(rd, imm, rs1), s);
            && Gives(l, s, t, rd, Sll(M8(s, Addr(s, rs1, imm)), 24), ZERO, ZERO, -16, -12) && Ready(l, t)
  {
    Pieces3(StoreVar(ZERO, A), [LBU(rd, imm, rs1)], Lift(rd), s);
    StoreVarWorks(l, s, ZERO, A);
    SmallByte(0);
    var s1 := Exec(StoreVar(ZERO, A), s);
    LbuWorks(l, s1, rd, imm, rs1);
    LiftWorks(l, Exec([LBU(rd, imm, rs1)], s1), rd);
  }

  function Lb(l: Layout, rd: Reg, imm: int, rs1: Reg): seq<Instr> {
    LbHead(rd, imm, rs1) + RightImm(l, rd, rd, 24, true)
  }

  lemma LbWorks(l: Layout, s: State, rd: Reg, imm: int, rs1: Reg)
    requires Ready(l, s) && rd != SP && rd != TP && Readable(l, s, Addr(s, rs1, imm), 1)
    ensures Gives(l, s, Exec(Lb(l, rd, imm, rs1), s), rd, Extend8(M8(s, Addr(s, rs1, imm))), GP, TP, -28, 0)
  {
    Pieces2(LbHead(rd, imm, rs1), RightImm(l, rd, rd, 24, true), s);
    LbHeadWorks(l, s, rd, imm, rs1);
    RightImmWorks(l, Exec(LbHead(rd, imm, rs1), s), rd, rd, 24, true);
    ExtendByShift(M8(s, Addr(s, rs1, imm)));
  }

  /** Memory outside the scratch bytes and _check_same_array is as it was. */
  ghost predicate MemoryKept(l: Layout, s: State, t: State) {
    forall x: int :: !(-28 <= x - R(s, SP) < 0) && !InCsa(l, x) ==> M8(t, x) == M8(s, x)
  }

  /** With a byte in sp, the top of slot A is an address next to zero. */
  lemma LiftSp(s: State)
    requires R(s, SP) < 0x100
    ensures var t, a := Exec(Lift(SP), s), Wrap(R(s, SP) - 13);
            && M8(t, a) == R(s, SP) && R(t, SP) == M32(t, Wrap(R(s, SP) - 16))
            && (forall x: int :: x != a ==> M8(t, x) == M8(s, x))
  {
    Pieces2(StoreTop(SP, -13), LoadVar(SP, A), s);
    Exec1(SB(SP, -13, SP), s);
    SmallByte(R(s, SP));
    Exec1(LW(SP, -16, SP), Exec(StoreTop(SP, -13), s));
  }

  /** lb sp, addr: once sp holds the byte, the store into slot A goes astray and what stands below it
      becomes part of sp. That store harms nothing exactly if it lands in bytes a macro may overwrite
      or on the same byte. */
  lemma LbIntoSp(l: Layout, s: State, imm: int, rs1: Reg)
    requires Ready(l, s) && Readable(l, s, Addr(s, rs1, imm), 1)
    ensures var t, b := Exec(LbHead(SP, imm, rs1), s), M8(s, Addr(s, rs1, imm));
            var a := Wrap((b as int) - 13);
            && M8(t, a) == b && R(t, SP) == M32(t, Wrap((b as int) - 16))
            && (MemoryKept(l, s, t) <==> -28 <= a - R(s, SP) < 0 || InCsa(l, a) || M8(s, a) == b)
  {
    Pieces3(StoreVar(ZERO, A), [LBU(SP, imm, rs1)], Lift(SP), s);
    StoreVarWorks(l, s, ZERO, A);
    var s1 := Exec(StoreVar(ZERO, A), s);
    var b := M8(s, Addr(s, rs1, imm));
    assert M8(s1, Addr(s1, rs1, imm)) == b;
    Exec1(LBU(SP, imm, rs1), s1);
    var s2 := Exec([LBU(SP, imm, rs1)], s1);
    assert R(s2, SP) == b;
    assert forall x: int :: M8(s2, x) == M8(s1, x);
    LiftSp(s2);
  }

  // ----- lhu -----

  function Half(s: State, a: int): int { M8(s, a) + 0x100 * M8(s, a + 1) }

  function LhuHead(imm: int, rs1: Reg): seq<Instr> {
    StoreVar(ZERO, A) + [LBU(TP, imm + 1, rs1)] + StoreTop(TP, -15) + LoadVar(TP, A)
  }

  lemma LhuHeadWorks(l: Layout, s: State, imm: int, rs1: Reg)
    requires Ready(l, s) && Readable(l, s, Addr(s, rs1, imm + 1), 1)
    ensures var t := Exec(LhuHead(imm, rs1), s);
            && Gives(l, s, t, TP, 0x100 * M8(s, Addr(s, rs1, imm + 1)), ZERO, ZERO, -16, -12) && Ready(l, t)
  {
    Pieces4(StoreVar(ZERO, A), [LBU(TP, imm + 1, rs1)], StoreTop(TP, -15), LoadVar(TP, A), s);
    StoreVarWorks(l, s, ZERO, A);
    SmallByte(0);
    var s1 := Exec(StoreVar(ZERO, A), s);
    LbuWorks(l, s1, TP, imm + 1, rs1);
    var s2 := Exec([LBU(TP, imm + 1, rs1)], s1);
    var b: int := M8(s, Addr(s, rs1, imm + 1));
    assert R(s2, TP) == b;
    StoreTopWorks(l, s2, TP, -15);
    BytesDetermineWord(0x100 * b, 0, b, 0, 0);
    LoadVarWorks(l, Exec(StoreTop(TP, -15), s2), TP, A, 0x100 * b);
  }

  /** The second byte of a half word is at the next address. */
  lemma NextByte(s: State, rs1: Reg, imm: int)
    requires Addr(s, rs1, imm) + 2 <= W
    ensures Addr(s, rs1, imm + 1) == Addr(s, rs1, imm) + 1
  {
    WrapIsMod(R(s, rs1) + imm);
    WrapIsMod(R(s, rs1) + imm + 1);
  }

  function Lhu(rd: Reg, imm: int, rs1: Reg): seq<Instr> {
    LhuHead(imm, rs1) + [LBU(rd, imm, rs1)] + [ADD(rd, rd, TP)]
  }

  lemma LhuWorks(l: Layout, s: State, rd: Reg, imm: int, rs1: Reg)
    requires Ready(l, s) && rd != TP && rs1 != TP && Readable(l, s, Addr(s, rs1, imm), 2)
    ensures Gives(l, s, Exec(Lhu(rd, imm, rs1), s), rd, Half(s, Addr(s, rs1, imm)), TP, ZERO, -16, -12)
  {
    NextByte(s, rs1, imm);
    Pieces3(LhuHead(imm, rs1), [LBU(rd, imm, rs1)], [ADD(rd, rd, TP)], s);
    LhuHeadWorks(l, s, imm, rs1);
    var s1 := Exec(LhuHead(imm, rs1), s);
    LbuWorks(l, s1, rd, imm, rs1);
    AddWorks(l, Exec([LBU(rd, imm, rs1)], s1), rd, rd, TP);
  }

  // ----- lh -----

  /** The signed upper byte, in gp. */
  function LhHead(l: Layout, imm: int, rs1: Reg): seq<Instr> {
    LbHead(GP, imm + 1, rs1) + RightImm(l, GP, GP, 16, true)
  }

  lemma LhHeadWorks(l: Layout, s: State, imm: int, rs1: Reg)
    requires Ready(l, s) && Readable(l, s, Addr(s, rs1, imm + 1), 1)
    ensures var b, t := M8(s, Addr(s, rs1, imm + 1)), Exec(LhHead(l, imm, rs1), s);
            && Gives(l, s, t, GP, if b < 0x80 then 0x100 * b else 0x100 * b + 0xffff_0000, TP, ZERO, -28, 0)
  {
    Pieces2(LbHead(GP, imm + 1, rs1), RightImm(l, GP, GP, 16, true), s);
    LbHeadWorks(l, s, GP, imm + 1, rs1);
    RightImmWorks(l, Exec(LbHead(GP, imm + 1, rs1), s), GP, GP, 16, true);
    ExtendByShift(M8(s, Addr(s, rs1, imm + 1)));
  }

  function Lh(l: Layout, rd: Reg, imm: int, rs1: Reg): seq<Instr> {
    LhHead(l, imm, rs1) + [LBU(rd, imm, rs1)] + [ADD(rd, rd, GP)]
  }

  lemma LhWorks(l: Layout, s: State, rd: Reg, imm: int, rs1: Reg)
    requires Ready(l, s) && rd != TP && rd != GP && rs1 != TP && rs1 != GP && Readable(l, s, Addr(s, rs1, imm), 2)
    ensures Gives(l, s, Exec(Lh(l, rd, imm, rs1), s), rd, Extend16(Half(s, Addr(s, rs1, imm))), GP, TP, -28, 0)
  {
    NextByte(s, rs1, imm);
    Pieces3(LhHead(l, imm, rs1), [LBU(rd, imm, rs1)], [ADD(rd, rd, GP)], s);
    LhHeadWorks(l, s, imm, rs1);
    var s1 := Exec(LhHead(l, imm, rs1), s);
    LbuWorks(l, s1, rd, imm, rs1);
    AddWorks(l, Exec([LBU(rd, imm, rs1)], s1), rd, rd, GP);
  }

  // ----- sh -----

  /** Both bytes reach memory, and apart from them only tp and slot C change. */
  lemma ShWorks(l: Layout, s: State, rs: Reg, imm: int, rs1: Reg)
    requires Ready(l, s) && rs != TP && rs1 != TP && Readable(l, s, Addr(s, rs1, imm), 2)
    requires var a := Addr(s, rs1, imm); a + 2 <= l.rom || l.rom + ROM_SIZE <= a
    ensures var a, t := Addr(s, rs1, imm), Exec(Sh(rs, imm, rs1), s);
            && M8(t, a) == ByteOf(R(s, rs), 0) && M8(t, a + 1) == ByteOf(R(s, rs), 1) && RomLoaded(l, t)
            && (forall r: Reg {:trigger R(t, r)} :: r != TP ==> R(t, r) == R(s, r))
            && (forall x: int {:trigger M8(t, x)} ::
                  x != a && x != a + 1 && !(-24 <= x - R(s, SP) < -20) && !InCsa(l, x) ==> M8(t, x) == M8(s, x))
  {
    NextByte(s, rs1, imm);
    var a := Addr(s, rs1, imm);
    Pieces3([SB(rs, imm, rs1)], GetByte(TP, rs, 1), [SB(TP, imm + 1, rs1)], s);
    StoreByteWorks(l, s, rs, imm, rs1);
    var s1 := Exec([SB(rs, imm, rs1)], s);
    GetByteWorks(l, s1, TP, rs, 1);
    var s2 := Exec(GetByte(TP, rs, 1), s1);
    StoreByteWorks(l, s2, TP, imm + 1, rs1);
    SmallByte(ByteOf(R(s, rs), 1));
  }

  lemma StoreByteWorks(l: Layout, s: State, rs: Reg, imm: int, rs1: Reg)
    requires Ready(l, s)
    requires var a := Addr(s, rs1, imm); a < l.rom || l.rom + ROM_SIZE <= a
    ensures var a, t := Addr(s, rs1, imm), Exec([SB(rs, imm, rs1)], s);
            && M8(t, a) == ByteOf(R(s, rs), 0) && Ready(l, t)
            && (forall r: Reg {:trigger R(t, r)} :: R(t, r) == R(s, r))
            && (forall x: int {:trigger M8(t, x)} :: x != a ==> M8(t, x) == M8(s, x))
  {
    Exec1(SB(rs, imm, rs1), s);
    var t := Exec([SB(rs, imm, rs1)], s);
    forall off {:trigger RomByte(off)} | 0 <= off < ROM_SIZE ensures M8(t, l.rom + off) == RomByte(off) {
      assert M8(t, l.rom + off) == M8(s, l.rom + off);
    }
  }
}
