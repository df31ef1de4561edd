/** Scratch memory below the stack pointer, the read-only tables in memory, what a macro may change,
    and each base instruction in these terms (abstract-machine/tools/minirv/inst-replace.h:5-11,
    29-38 and 88-91). */
module RvScratch {
  import Bits
  import opened RvMachine
  import opened RvTables

  /** Where the linker put the read-only section and _check_same_array. */
  datatype Layout = Layout(rom: int, csa: int)

  ghost predicate LayoutOk(l: Layout) {
    && 0 <= l.rom && l.rom + ROM_SIZE <= W
    && 0 <= l.csa && l.csa + 256 <= W
    && (l.csa + 256 <= l.rom || l.rom + ROM_SIZE <= l.csa)
  }

  predicate InCsa(l: Layout, a: int) { l.csa <= a < l.csa + 256 }

  /** The 28 bytes below the stack pointer overlap neither table. */
  ghost predicate StackOk(l: Layout, sp: Word) {
    && 28 <= sp
    && (sp <= l.rom || l.rom + ROM_SIZE <= sp - 28)
    && (sp <= l.csa || l.csa + 256 <= sp - 28)
  }

  ghost predicate RomLoaded(l: Layout, s: State) {
    forall off {:trigger RomByte(off)} :: 0 <= off < ROM_SIZE ==> M8(s, l.rom + off) == RomByte(off)
  }

  /** A state in which the macros may be used. */
  ghost predicate Ready(l: Layout, s: State) {
    LayoutOk(l) && StackOk(l, R(s, SP)) && RomLoaded(l, s)
  }

  const A: nat := 4
  const B: nat := 5
  const C: nat := 6
  const D: nat := 7

  /** The byte at an offset from the stack pointer. */
  function Top(s: State, off: int): Byte { M8(s, R(s, SP) + off) }

  /** Slot n holds the word w. */
  ghost predicate Holds(s: State, n: nat, w: Word) {
    && Top(s, -4 * n) == ByteOf(w, 0) && Top(s, -4 * n + 1) == ByteOf(w, 1)
    && Top(s, -4 * n + 2) == ByteOf(w, 2) && Top(s, -4 * n + 3) == ByteOf(w, 3)
  }

  /** Between two states only three registers, the bytes at offsets lo to hi from the stack pointer,
      and _check_same_array may differ. */
  ghost predicate Keeps(l: Layout, s: State, t: State, r1: Reg, r2: Reg, r3: Reg, lo: int, hi: int) {
    && (forall r: Reg {:trigger R(t, r)} :: r != r1 && r != r2 && r != r3 ==> R(t, r) == R(s, r))
    && (forall a: int {:trigger M8(t, a)} :: !(lo <= a - R(s, SP) < hi) && !InCsa(l, a) ==> M8(t, a) == M8(s, a))
  }

  /** Running a macro puts v into rd and otherwise changes only two registers and some scratch bytes. */
  ghost predicate Gives(l: Layout, s: State, t: State, rd: Reg, v: Word, r1: Reg, r2: Reg, lo: int, hi: int) {
    && Keeps(l, s, t, rd, r1, r2, lo, hi)
    && (rd != ZERO ==> R(t, rd) == v)
    && RomLoaded(l, t)
  }

  /** The tables survive whatever stays in the scratch area. */
  lemma ReadyKept(l: Layout, s: State, t: State, r1: Reg, r2: Reg, r3: Reg, lo: int, hi: int)
    requires Ready(l, s) && Keeps(l, s, t, r1, r2, r3, lo, hi)
    requires -28 <= lo && hi <= 0
    ensures RomLoaded(l, t)
    ensures SP != r1 && SP != r2 && SP != r3 ==> Ready(l, t)
  {
    forall off {:trigger RomByte(off)} | 0 <= off < ROM_SIZE ensures M8(t, l.rom + off) == RomByte(off) {
      assert M8(t, l.rom + off) == M8(s, l.rom + off);
    }
  }

  // ----- table lookups -----

  lemma RomLookup(l: Layout, s: State, off: int)
    requires RomLoaded(l, s) && 0 <= off < ROM_SIZE
    ensures M8(s, l.rom + off) == RomByte(off)
  {}

  lemma RomWord(l: Layout, s: State, op: ShiftOp, row: nat, col: Byte)
    requires RomLoaded(l, s) && row < 32
    ensures M32(s, l.rom + LUT + ShiftTableOf(op) + 1024 * row + 4 * col) == ShiftEntry(op, row, col)
  {
    var off := LUT + ShiftTableOf(op) + 1024 * row + 4 * col;
    var w := ShiftEntry(op, row, col);
    forall b | 0 <= b < 4 ensures M8(s, l.rom + off + b) == ByteOf(w, b) {
      RomLookup(l, s, off + b);
      WordEntry(op, row, col, b);
    }
    BytesOfWord(w);
  }

  lemma RomLogic(l: Layout, s: State, op: Bits.LogicOp, row: Byte, col: Byte)
    requires RomLoaded(l, s)
    ensures M8(s, l.rom + LUT + TableOf(op) + 256 * row + col) == LogicByte(op, row, col)
  {
    RomLookup(l, s, LUT + TableOf(op) + 256 * row + col);
    LogicEntry(op, row, col);
  }

  // ----- one instruction at a time: scratch slots -----

  /** Scratch addresses do not wrap around. */
  lemma ScratchAddr(l: Layout, s: State, off: int)
    requires Ready(l, s) && -28 <= off < 0
    ensures Addr(s, SP, off) == R(s, SP) + off
  {}

  /** sw r, SP_VAR(n); also PUSH(r, n). */
  function StoreVar(r: Reg, n: nat): seq<Instr> { [SW(r, -4 * n, SP)] }

  lemma StoreVarWorks(l: Layout, s: State, r: Reg, n: nat)
    requires Ready(l, s) && 1 <= n <= 7
    ensures var t := Exec(StoreVar(r, n), s);
            && Keeps(l, s, t, ZERO, ZERO, ZERO, -4 * n, -4 * n + 4) && Ready(l, t)
            && Holds(t, n, R(s, r))
  {
    Exec1(SW(r, -4 * n, SP), s);
    var t := Exec(StoreVar(r, n), s);
    ScratchAddr(l, s, -4 * n);
    assert t == Set32(s, R(s, SP) - 4 * n, R(s, r));
    assert Keeps(l, s, t, ZERO, ZERO, ZERO, -4 * n, -4 * n + 4);
    ReadyKept(l, s, t, ZERO, ZERO, ZERO, -4 * n, -4 * n + 4);
  }

  /** sb r, SP_VAR_BYTE(n, b), with the offset written out. */
  function StoreTop(r: Reg, off: int): seq<Instr> { [SB(r, off, SP)] }

  lemma StoreTopWorks(l: Layout, s: State, r: Reg, off: int)
    requires Ready(l, s) && -28 <= off < 0
    ensures var t := Exec(StoreTop(r, off), s);
            && Keeps(l, s, t, ZERO, ZERO, ZERO, off, off + 1) && Ready(l, t)
            && Top(t, off) == ByteOf(R(s, r), 0)
            && (R(s, r) < 0x100 ==> Top(t, off) == R(s, r))
  {
    Exec1(SB(r, off, SP), s);
    var t := Exec(StoreTop(r, off), s);
    ScratchAddr(l, s, off);
    ReadyKept(l, s, t, ZERO, ZERO, ZERO, off, off + 1);
    if R(s, r) < 0x100 { SmallByte(R(s, r)); }
  }

  lemma SetKeepsRom(l: Layout, s: State, rd: Reg, v: Word)
    requires RomLoaded(l, s)
    ensures RomLoaded(l, SetR(s, rd, v))
  {
    forall off {:trigger RomByte(off)} | 0 <= off < ROM_SIZE ensures M8(SetR(s, rd, v), l.rom + off) == RomByte(off) {
      assert M8(s, l.rom + off) == RomByte(off);
    }
  }

  /** Setting a register. */
  lemma SetGives(l: Layout, s: State, r: Reg, v: Word)
    requires RomLoaded(l, s)
    ensures Gives(l, s, SetR(s, r, v), r, v, ZERO, ZERO, 0, 0)
    ensures Ready(l, s) && r != SP ==> Ready(l, SetR(s, r, v))
  {
    SetKeepsRom(l, s, r, v);
  }

  /** lw r, SP_VAR(n); also POP(r, n). */
  function LoadVar(r: Reg, n: nat): seq<Instr> { [LW(r, -4 * n, SP)] }

  lemma LoadVarWorks(l: Layout, s: State, r: Reg, n: nat, w: Word)
    requires Ready(l, s) && 1 <= n <= 7 && Holds(s, n, w)
    ensures Gives(l, s, Exec(LoadVar(r, n), s), r, w, ZERO, ZERO, 0, 0)
    ensures r != SP ==> Ready(l, Exec(LoadVar(r, n), s))
  {
    Exec1(LW(r, -4 * n, SP), s);
    ScratchAddr(l, s, -4 * n);
    BytesOfWord(w);
    SetGives(l, s, r, w);
  }

  /** lbu r, SP_VAR_BYTE(n, b), with the offset written out. */
  function LoadTop(r: Reg, off: int): seq<Instr> { [LBU(r, off, SP)] }

  lemma LoadTopWorks(l: Layout, s: State, r: Reg, off: int)
    requires Ready(l, s) && -28 <= off < 0
    ensures Gives(l, s, Exec(LoadTop(r, off), s), r, Top(s, off), ZERO, ZERO, 0, 0)
    ensures r != SP ==> Ready(l, Exec(LoadTop(r, off), s))
  {
    Exec1(LBU(r, off, SP), s);
    ScratchAddr(l, s, off);
    SetGives(l, s, r, Top(s, off));
  }

  // ----- registers and other memory -----

  lemma AddWorks(l: Layout, s: State, rd: Reg, r1: Reg, r2: Reg)
    requires RomLoaded(l, s)
    ensures Gives(l, s, Exec([ADD(rd, r1, r2)], s), rd, Wrap(R(s, r1) + R(s, r2)), ZERO, ZERO, 0, 0)
    ensures Ready(l, s) && rd != SP ==> Ready(l, Exec([ADD(rd, r1, r2)], s))
  {
    Exec1(ADD(rd, r1, r2), s);
    SetGives(l, s, rd, Wrap(R(s, r1) + R(s, r2)));
  }

  lemma AddiWorks(l: Layout, s: State, rd: Reg, r1: Reg, imm: int)
    requires RomLoaded(l, s)
    ensures Gives(l, s, Exec([ADDI(rd, r1, imm)], s), rd, Wrap(R(s, r1) + imm), ZERO, ZERO, 0, 0)
    ensures Ready(l, s) && rd != SP ==> Ready(l, Exec([ADDI(rd, r1, imm)], s))
  {
    Exec1(ADDI(rd, r1, imm), s);
    SetGives(l, s, rd, Wrap(R(s, r1) + imm));
  }

  lemma LbuWorks(l: Layout, s: State, rd: Reg, imm: int, r: Reg)
    requires RomLoaded(l, s)
    ensures Gives(l, s, Exec([LBU(rd, imm, r)], s), rd, M8(s, Addr(s, r, imm)), ZERO, ZERO, 0, 0)
    ensures Ready(l, s) && rd != SP ==> Ready(l, Exec([LBU(rd, imm, r)], s))
  {
    Exec1(LBU(rd, imm, r), s);
    SetGives(l, s, rd, M8(s, Addr(s, r, imm)));
  }

  lemma LwWorks(l: Layout, s: State, rd: Reg, imm: int, r: Reg)
    requires RomLoaded(l, s)
    ensures Gives(l, s, Exec([LW(rd, imm, r)], s), rd, M32(s, Addr(s, r, imm)), ZERO, ZERO, 0, 0)
    ensures Ready(l, s) && rd != SP ==> Ready(l, Exec([LW(rd, imm, r)], s))
  {
    Exec1(LW(rd, imm, r), s);
    SetGives(l, s, rd, M32(s, Addr(s, r, imm)));
  }

  /** %hi and %lo of an address: the low part is signed. */
  function Hi(addr: int): nat { (addr + 0x800) / 0x1000 % 0x10_0000 }
  function Lo(addr: int): int { (addr + 0x800) % 0x1000 - 0x800 }

  function La(r: Reg, addr: int): seq<Instr> { FoldedLa(r, addr, 1) }

  /** The definition of La, folded like Exec. */
  function FoldedLa(r: Reg, addr: int, folds: nat): seq<Instr>
    decreases folds, addr
  {
    if folds > 0 then FoldedLa(r, addr, folds - 1) else [LUI(r, Hi(addr))] + [ADDI(r, r, Lo(addr))]
  }

  lemma LaIs(s: State, r: Reg, addr: Word)
    requires r != ZERO
    ensures La(r, addr) == [LUI(r, Hi(addr))] + [ADDI(r, r, Lo(addr))]
    ensures Exec(La(r, addr), s) == SetR(s, r, addr)
  {
    assert FoldedLa(r, addr, 1) == FoldedLa(r, addr, 0);
    Pieces2([LUI(r, Hi(addr))], [ADDI(r, r, Lo(addr))], s);
    Exec1(LUI(r, Hi(addr)), s);
    var t := SetR(s, r, Wrap(Hi(addr) * 0x1000));
    Exec1(ADDI(r, r, Lo(addr)), t);
    HiLo(addr);
    assert SetR(t, r, addr).regs == SetR(s, r, addr).regs;
  }

  lemma HiLo(addr: Word)
    ensures Wrap(Wrap(Hi(addr) * 0x1000) + Lo(addr)) == addr
  {
    var q := (addr + 0x800) / 0x1000;
    if q == 0x10_0000 {
      assert Hi(addr) == 0;
    } else {
      assert Hi(addr) == q;
    }
  }

  lemma LaWorks(l: Layout, s: State, r: Reg, addr: Word)
    requires RomLoaded(l, s) && r != ZERO
    ensures Gives(l, s, Exec(La(r, addr), s), r, addr, ZERO, ZERO, 0, 0)
    ensures Ready(l, s) && r != SP ==> Ready(l, Exec(La(r, addr), s))
  {
    LaIs(s, r, addr);
    SetGives(l, s, r, addr);
  }
}
