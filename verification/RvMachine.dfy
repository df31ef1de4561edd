/** A 32-bit RISC-V register machine restricted to the eight base instructions of minirv:
    add, addi, lui, lw, lbu, sw, sb and jalr (abstract-machine/tools/minirv/inst-replace.h:1-3,
    semantics in nemu/src/isa/riscv32/inst.c:78-126). */
module RvMachine {
  import opened Bits

  const W: int := 0x1_0000_0000

  type Word = w: int | 0 <= w < 0x1_0000_0000
  type Byte = b: int | 0 <= b < 256
  type Reg = r: nat | r < 32

  const ZERO: Reg := 0
  const SP: Reg := 2
  const GP: Reg := 3
  const TP: Reg := 4
  const S0: Reg := 8
  const S1: Reg := 9

  /** x modulo 2^32. */
  function Wrap(x: int): Word
    decreases if x < 0 then -x else x
  {
    if 0 <= x < 0x1_0000_0000 then x
    else if 0 <= x < 0x2_0000_0000 then x - 0x1_0000_0000
    else if -0x1_0000_0000 <= x < 0 then x + 0x1_0000_0000
    else Wrap(if x < 0 then x + 0x1_0000_0000 else x - 0x1_0000_0000)
  }

  lemma {:induction false} WrapIsMod(x: int)
    ensures Wrap(x) == x % 0x1_0000_0000
    decreases if x < 0 then -x else x
  {
    if x < -0x1_0000_0000 { WrapIsMod(x + 0x1_0000_0000); }
    else if x >= 0x2_0000_0000 { WrapIsMod(x - 0x1_0000_0000); }
  }

  /** Registers and memory; absent entries are zero. */
  datatype State = State(regs: map<Reg, Word>, mem: map<int, Byte>)

  function R(s: State, r: Reg): Word {
    if r == ZERO || r !in s.regs then 0 else s.regs[r]
  }

  function SetR(s: State, r: Reg, v: Word): State {
    if r == ZERO then s else s.(regs := s.regs[r := v])
  }

  function M8(s: State, a: int): Byte {
    if a in s.mem then s.mem[a] else 0
  }

  function M32(s: State, a: int): Word {
    M8(s, a) + 0x100 * M8(s, a + 1) + 0x1_0000 * M8(s, a + 2) + 0x100_0000 * M8(s, a + 3)
  }

  /** Byte k of a word, little endian. */
  function ByteOf(w: nat, k: nat): Byte { FoldedByte(w, k, 1) }

  /** The definition of ByteOf, folded so that proofs about memory do not compute with it. */
  function FoldedByte(w: nat, k: nat, folds: nat): Byte
    decreases folds, w, k
  {
    if folds > 0 then FoldedByte(w, k, folds - 1) else Shr(w, 8 * k) % 0x100
  }

  lemma ByteOfIs(w: nat, k: nat)
    ensures ByteOf(w, k) == Shr(w, 8 * k) % 0x100
  {
    assert FoldedByte(w, k, 1) == FoldedByte(w, k, 0);
  }

  function Set8(s: State, a: int, b: Byte): State {
    s.(mem := s.mem[a := b])
  }

  function Set32(s: State, a: int, w: Word): State {
    s.(mem := s.mem[a := ByteOf(w, 0)][a + 1 := ByteOf(w, 1)][a + 2 := ByteOf(w, 2)][a + 3 := ByteOf(w, 3)])
  }

  /** The base instructions other than jalr, which RvProgram adds where there is a program counter. */
  datatype Instr =
    | ADD(rd: Reg, rs1: Reg, rs2: Reg)
    | ADDI(rd: Reg, rs1: Reg, imm: int)
    | LUI(rd: Reg, imm20: nat)
    | LW(rd: Reg, imm: int, rs1: Reg)
    | LBU(rd: Reg, imm: int, rs1: Reg)
    | SW(rs2: Reg, imm: int, rs1: Reg)
    | SB(rs2: Reg, imm: int, rs1: Reg)

  function Addr(s: State, rs1: Reg, imm: int): Word {
    Wrap(R(s, rs1) + imm)
  }

  /** The effect of an instruction on registers and memory. */
  function Do(i: Instr, s: State): State {
    match i
    case ADD(rd, rs1, rs2) => SetR(s, rd, Wrap(R(s, rs1) + R(s, rs2)))
    case ADDI(rd, rs1, imm) => SetR(s, rd, Wrap(R(s, rs1) + imm))
    case LUI(rd, imm20) => SetR(s, rd, Wrap(imm20 * 0x1000))
    case LW(rd, imm, rs1) => SetR(s, rd, M32(s, Addr(s, rs1, imm)))
    case LBU(rd, imm, rs1) => SetR(s, rd, M8(s, Addr(s, rs1, imm)))
    case SW(rs2, imm, rs1) => Set32(s, Addr(s, rs1, imm), R(s, rs2))
    case SB(rs2, imm, rs1) => Set8(s, Addr(s, rs1, imm), ByteOf(R(s, rs2), 0))
  }

  function Run(code: seq<Instr>, s: State): State {
    if code == [] then s else Run(code[1..], Do(code[0], s))
  }

  /** Run, folded so that proofs about long code see only the lemmas about its pieces. */
  function Exec(code: seq<Instr>, s: State): State { Folded(code, s, 1) }

  function Folded(code: seq<Instr>, s: State, folds: nat): State
    decreases folds, s
  {
    if folds > 0 then Folded(code, s, folds - 1) else Run(code, s)
  }

  lemma ExecIsRun(code: seq<Instr>, s: State)
    ensures Exec(code, s) == Run(code, s)
  {
    assert Folded(code, s, 1) == Folded(code, s, 0);
  }

  // ----- running code piece by piece -----

  lemma {:induction false} RunAppend(a: seq<Instr>, b: seq<Instr>, s: State)
    ensures Run(a + b, s) == Run(b, Run(a, s))
  {
    if a == [] {
      assert a + b == b;
    } else {
      assert (a + b)[1..] == a[1..] + b;
      RunAppend(a[1..], b, Do(a[0], s));
    }
  }

  lemma ExecNothing(s: State)
    ensures Exec([], s) == s
  {
    ExecIsRun([], s);
  }

  lemma Exec1(i: Instr, s: State)
    ensures Exec([i], s) == Do(i, s)
  {
    ExecIsRun([i], s);
    assert Run([i][1..], Do(i, s)) == Do(i, s);
  }

  lemma Pieces2(a: seq<Instr>, b: seq<Instr>, s: State)
    ensures Exec(a + b, s) == Exec(b, Exec(a, s))
  {
    RunAppend(a, b, s);
    ExecIsRun(a + b, s);
    ExecIsRun(a, s);
    ExecIsRun(b, Exec(a, s));
  }

  lemma Pieces3(a: seq<Instr>, b: seq<Instr>, c: seq<Instr>, s: State)
    ensures Exec(a + b + c, s) == Exec(c, Exec(b, Exec(a, s)))
  {
    Pieces2(a + b, c, s);
    Pieces2(a, b, s);
  }

  lemma Pieces4(a: seq<Instr>, b: seq<Instr>, c: seq<Instr>, d: seq<Instr>, s: State)
    ensures Exec(a + b + c + d, s) == Exec(d, Exec(c, Exec(b, Exec(a, s))))
  {
    Pieces2(a + b + c, d, s);
    Pieces3(a, b, c, s);
  }

  lemma Pieces5(a: seq<Instr>, b: seq<Instr>, c: seq<Instr>, d: seq<Instr>, e: seq<Instr>, s: State)
    ensures Exec(a + b + c + d + e, s) == Exec(e, Exec(d, Exec(c, Exec(b, Exec(a, s)))))
  {
    Pieces2(a + b + c + d, e, s);
    Pieces4(a, b, c, d, s);
  }

  // ----- words and bytes -----

  lemma PeelByte(w: nat, k: nat)
    ensures Shr(w, 8 * k) == ByteOf(w, k) + 0x100 * Shr(w, 8 * (k + 1))
  {
    ByteOfIs(w, k);
    ShrShr(w, 8 * k, 8);
    var x := Shr(w, 8 * k);
    ShrIsDiv(x, 8);
    Pow2Small();
  }

  /** The bytes of a word add up to it. */
  lemma BytesOfWord(w: Word)
    ensures w == ByteOf(w, 0) + 0x100 * ByteOf(w, 1) + 0x1_0000 * ByteOf(w, 2) + 0x100_0000 * ByteOf(w, 3)
  {
    PeelByte(w, 0);
    PeelByte(w, 1);
    PeelByte(w, 2);
    PeelByte(w, 3);
    Pow2At32();
    SmallIsLow(w, 32);
    assert Shr(w, 0) == w;
  }

  /** and nothing else does. */
  lemma BytesDetermineWord(w: Word, b0: Byte, b1: Byte, b2: Byte, b3: Byte)
    requires w == b0 + 0x100 * b1 + 0x1_0000 * b2 + 0x100_0000 * b3
    ensures ByteOf(w, 0) == b0 && ByteOf(w, 1) == b1 && ByteOf(w, 2) == b2 && ByteOf(w, 3) == b3
  {
    BytesOfWord(w);
    var x, y := ByteOf(w, 1) + 0x100 * ByteOf(w, 2) + 0x1_0000 * ByteOf(w, 3), b1 + 0x100 * b2 + 0x1_0000 * b3;
    assert ByteOf(w, 0) + 0x100 * x == b0 + 0x100 * y;
    assert x == y;
    var x2, y2 := ByteOf(w, 2) + 0x100 * ByteOf(w, 3), b2 + 0x100 * b3;
    assert ByteOf(w, 1) + 0x100 * x2 == b1 + 0x100 * y2;
    assert x2 == y2;
  }

  lemma SmallByte(w: Word)
    requires w < 0x100
    ensures ByteOf(w, 0) == w && ByteOf(w, 1) == ByteOf(w, 2) == ByteOf(w, 3) == 0
  {
    BytesDetermineWord(w, w, 0, 0, 0);
  }
}
