/** The instructions that are replaced, what they do (nemu/src/isa/riscv32/inst.c:78-159), and the
    simulation of each by its macro (abstract-machine/tools/minirv/inst-replace.h:5-11, 110-211,
    384-601 and 629-657). */
module RvSimulate {
  import opened Bits
  import opened RvMachine
  import opened RvTables
  import opened RvScratch
  import opened RvMemory
  import opened Options
  import RvBasic
  import RvLogic
  import RvCompare
  import RvShift
  import RvShiftRight

  /** Instructions that fall through to the next one. Plain ones are left as they are. */
  datatype Inst =
    | Plain(i: Instr)
    | Sub(rd: Reg, rs1: Reg, rs2: Reg)
    | Not(rd: Reg, rs1: Reg)
    | SetLess(signed: bool, rd: Reg, rs1: Reg, rs2: Reg)
    | SetLessImm(signed: bool, rd: Reg, rs1: Reg, imm: int)
    | SetZero(rd: Reg, rs1: Reg)
    | Logic(op: LogicOp, rd: Reg, rs1: Reg, rs2: Reg)
    | LogicImm(op: LogicOp, rd: Reg, rs1: Reg, imm: int)
    | ShiftReg(shift: ShiftOp, rd: Reg, rs1: Reg, rs2: Reg)
    | ShiftImm(shift: ShiftOp, rd: Reg, rs1: Reg, shamt: nat)
    | LoadByte(rd: Reg, imm: int, rs1: Reg)
    | LoadHalf(signed: bool, rd: Reg, imm: int, rs1: Reg)
    | StoreHalf(rs2: Reg, imm: int, rs1: Reg)

  // ----- the reference semantics -----

  /** What an instruction that only sets a register puts there. */
  function Result(i: Inst, u: State): Word
    requires !i.Plain? && !i.StoreHalf?
  {
    match i
    case Sub(_, rs1, rs2) => Wrap((R(u, rs1) as int) - (R(u, rs2) as int))
    case Not(_, rs1) => RvLogic.LogicWord(XorOp, R(u, rs1), 0xffff_ffff)
    case SetLess(signed, _, rs1, rs2) => RvCompare.Flag(RvCompare.Less(signed, R(u, rs1), R(u, rs2)))
    case SetLessImm(signed, _, rs1, imm) => RvCompare.Flag(RvCompare.Less(signed, R(u, rs1), Wrap(imm)))
    case SetZero(_, rs1) => RvCompare.Flag(R(u, rs1) < 1)
    case Logic(op, _, rs1, rs2) => RvLogic.LogicWord(op, R(u, rs1), R(u, rs2))
    case LogicImm(op, _, rs1, imm) => RvLogic.LogicWord(op, R(u, rs1), Wrap(imm))
    case ShiftReg(op, _, rs1, rs2) => Shift(op, R(u, rs1), R(u, rs2) % 32)
    case ShiftImm(op, _, rs1, shamt) => Shift(op, R(u, rs1), shamt)
    case LoadByte(_, imm, rs1) => Extend8(M8(u, Addr(u, rs1, imm)))
    case LoadHalf(signed, _, imm, rs1) =>
      var h := Half(u, Addr(u, rs1, imm));
      if signed then Extend16(h) else h
  }

  function Effect(i: Inst, u: State): State {
    match i
    case Plain(b) => Do(b, u)
    case StoreHalf(rs2, imm, rs1) =>
      var a := Addr(u, rs1, imm);
      Set8(Set8(u, a, ByteOf(R(u, rs2), 0)), a + 1, ByteOf(R(u, rs2), 1))
    case _ => SetR(u, i.rd, Result(i, u))
  }

  // ----- the replacement -----

  function Replace(l: Layout, i: Inst): Option<seq<Instr>> {
    match i
    case Plain(b) => Some([b])
    case Sub(rd, rs1, rs2) => Some(RvBasic.Sub(l, rd, rs1, rs2))
    case Not(rd, rs1) => Some(RvBasic.Not(l, rd, rs1))
    case SetLess(signed, rd, rs1, rs2) => Some(RvCompare.Slt(l, signed, rd, rs1, rs2))
    case SetLessImm(signed, rd, rs1, imm) => Some([ADDI(TP, ZERO, imm)] + RvCompare.Slt(l, signed, rd, rs1, TP))
    case SetZero(rd, rs1) => Some(RvCompare.Seqz(l, rd, rs1))
    case Logic(op, rd, rs1, rs2) => RvLogic.Logic(l, op, rd, rs1, rs2)
    case LogicImm(op, rd, rs1, imm) =>
      (match RvLogic.Logic(l, op, rd, rs1, TP)
       case None => None
       case Some(code) => Some([ADDI(TP, ZERO, imm)] + code))
    case ShiftReg(op, rd, rs1, rs2) =>
      if op == ShiftLeft then Some(RvShift.SllMacro(l, rd, rs1, rs2))
      else Some(RvShiftRight.RightMacro(l, rd, rs1, rs2, op == ShiftArith))
    case ShiftImm(op, rd, rs1, shamt) =>
      if op == ShiftLeft then Some(RvBasic.Slli(rd, rs1, shamt))
      else Some(RvShiftRight.RightImm(l, rd, rs1, shamt, op == ShiftArith))
    case LoadByte(rd, imm, rs1) => Some(Lb(l, rd, imm, rs1))
    case LoadHalf(signed, rd, imm, rs1) => if signed then Some(Lh(l, rd, imm, rs1)) else Some(Lhu(rd, imm, rs1))
    case StoreHalf(rs2, imm, rs1) => Some(RvBasic.Sh(rs2, imm, rs1))
  }

  // ----- what the compiler must respect -----

  predicate Free(r: Reg) { r != GP && r != TP }

  predicate FreeInstr(b: Instr) {
    match b
    case ADD(rd, rs1, rs2) => Free(rd) && Free(rs1) && Free(rs2)
    case ADDI(rd, rs1, _) => Free(rd) && Free(rs1)
    case LUI(rd, _) => Free(rd)
    case LW(rd, _, rs1) => Free(rd) && Free(rs1)
    case LBU(rd, _, rs1) => Free(rd) && Free(rs1)
    case SW(rs2, _, rs1) => Free(rs2) && Free(rs1)
    case SB(rs2, _, rs1) => Free(rs2) && Free(rs1)
  }

  /** No use of gp and tp; a shift amount has five bits. The destinations sp of lb and s0, sp of
      seqz are excluded because those macros use these registers after writing rd. */
  predicate Legal(i: Inst) {
    match i
    case Plain(b) => FreeInstr(b)
    case Sub(rd, rs1, rs2) => Free(rd) && Free(rs1) && Free(rs2)
    case Not(rd, rs1) => Free(rd) && Free(rs1)
    case SetLess(_, rd, rs1, rs2) => Free(rd) && Free(rs1) && Free(rs2)
    case SetLessImm(_, rd, rs1, _) => Free(rd) && Free(rs1)
    case SetZero(rd, rs1) => Free(rd) && Free(rs1) && rd != S0 && rd != SP
    case Logic(_, rd, rs1, rs2) => Free(rd) && Free(rs1) && Free(rs2)
    case LogicImm(_, rd, rs1, _) => Free(rd) && Free(rs1)
    case ShiftReg(_, rd, rs1, rs2) => Free(rd) && Free(rs1) && Free(rs2)
    case ShiftImm(_, rd, rs1, shamt) => Free(rd) && Free(rs1) && shamt < 32
    case LoadByte(rd, _, rs1) => Free(rd) && Free(rs1) && rd != SP
    case LoadHalf(_, rd, _, rs1) => Free(rd) && Free(rs1)
    case StoreHalf(rs2, _, rs1) => Free(rs2) && Free(rs1)
  }

  /** Address and length of the memory an instruction reads or writes. */
  function Access(i: Inst, u: State): Option<(Word, nat)> {
    match i
    case Plain(LW(_, imm, rs1)) => Some((Addr(u, rs1, imm), 4))
    case Plain(LBU(_, imm, rs1)) => Some((Addr(u, rs1, imm), 1))
    case Plain(SW(_, imm, rs1)) => Some((Addr(u, rs1, imm), 4))
    case Plain(SB(_, imm, rs1)) => Some((Addr(u, rs1, imm), 1))
    case LoadByte(_, imm, rs1) => Some((Addr(u, rs1, imm), 1))
    case LoadHalf(_, _, imm, rs1) => Some((Addr(u, rs1, imm), 2))
    case StoreHalf(_, imm, rs1) => Some((Addr(u, rs1, imm), 2))
    case _ => None
  }

  predicate Stores(i: Inst) { i.StoreHalf? || (i.Plain? && (i.i.SW? || i.i.SB?)) }

  /** The addresses an instruction writes. */
  function Written(i: Inst, u: State): set<int> {
    if !Stores(i) then {}
    else match Access(i, u)
      case None => {}
      case Some((a, n)) => Span(a, n)
  }

  function ScratchOf(u: State): set<int> { Span(R(u, SP) - 28, 28) }

  /** The addresses from a to a + n. */
  function Span(a: int, n: nat): (r: set<int>)
    ensures forall x: int {:trigger x in r} :: x in r <==> a <= x < a + n
  {
    if n == 0 then {} else Span(a, n - 1) + {a + n - 1}
  }

  /** The replacement stores into scratch slots. Base instructions and short left shifts do not, so they
      can run while the stack pointer is not set up yet. */
  predicate UsesScratch(i: Inst) { !i.Plain? && !(i.ShiftImm? && i.shift == ShiftLeft && i.shamt < 16) }

  /** Where scratch slots are used, the stack pointer leaves room for them and accesses avoid them. All
      accesses avoid _check_same_array, loads avoid memory in which an earlier macro has left scratch
      values, and stores avoid the tables. */
  ghost predicate Safe(l: Layout, dead: set<int>, i: Inst, u: State) {
    && (UsesScratch(i) ==> StackOk(l, R(u, SP)))
    && (match Access(i, u)
        case None => true
        case Some((a, n)) =>
          && a + n <= W && (a + n <= l.csa || l.csa + 256 <= a)
          && (UsesScratch(i) ==> a + n <= R(u, SP) - 28 || R(u, SP) <= a)
          && (Stores(i) ==> a + n <= l.rom || l.rom + ROM_SIZE <= a)
          && (!Stores(i) ==> forall k: int {:trigger M8(u, k)} :: a <= k < a + n ==> k !in dead))
  }

  function DeadAfter(dead: set<int>, i: Inst, u: State): set<int> {
    (if UsesScratch(i) then dead + ScratchOf(u) else dead) - Written(i, u)
  }

  /** The registers an instruction names. */
  function RegsOf(i: Inst): set<Reg> {
    match i
    case Plain(ADD(rd, rs1, rs2)) => {rd, rs1, rs2}
    case Plain(ADDI(rd, rs1, _)) => {rd, rs1}
    case Plain(LUI(rd, _)) => {rd}
    case Plain(LW(rd, _, rs1)) => {rd, rs1}
    case Plain(LBU(rd, _, rs1)) => {rd, rs1}
    case Plain(SW(rs2, _, rs1)) => {rs2, rs1}
    case Plain(SB(rs2, _, rs1)) => {rs2, rs1}
    case Sub(rd, rs1, rs2) => {rd, rs1, rs2}
    case Not(rd, rs1) => {rd, rs1}
    case SetLess(_, rd, rs1, rs2) => {rd, rs1, rs2}
    case SetLessImm(_, rd, rs1, _) => {rd, rs1}
    case SetZero(rd, rs1) => {rd, rs1}
    case Logic(_, rd, rs1, rs2) => {rd, rs1, rs2}
    case LogicImm(_, rd, rs1, _) => {rd, rs1}
    case ShiftReg(_, rd, rs1, rs2) => {rd, rs1, rs2}
    case ShiftImm(_, rd, rs1, _) => {rd, rs1}
    case LoadByte(rd, _, rs1) => {rd, rs1}
    case LoadHalf(_, rd, _, rs1) => {rd, rs1}
    case StoreHalf(rs2, _, rs1) => {rs2, rs1}
  }

  /** Everything that names none of sp, gp and tp assembles, */
  lemma OrdinaryAssembles(l: Layout, i: Inst)
    requires RegsOf(i) !! {2, 3, 4}
    ensures Replace(l, i).Some?
  {
    if i.Logic? {
      assert i.rd in RegsOf(i) && i.rs1 in RegsOf(i) && i.rs2 in RegsOf(i);
      RvLogic.LogicAssembles(l, i.op, i.rd, i.rs1, i.rs2);
    } else if i.LogicImm? {
      assert i.rd in RegsOf(i) && i.rs1 in RegsOf(i);
      RvLogic.LogicAssembles(l, i.op, i.rd, i.rs1, TP);
    }
  }

  lemma PlainIsFree(b: Instr)
    requires RegsOf(Plain(b)) !! {2, 3, 4}
    ensures FreeInstr(b)
  {
    assert forall r :: r in RegsOf(Plain(b)) ==> Free(r);
  }

  /** and is covered, except s0 as destination of seqz and a shift amount of more than five bits. */
  lemma OrdinaryIsLegal(i: Inst)
    requires RegsOf(i) !! {2, 3, 4}
    ensures Legal(i) <==> !(i.SetZero? && i.rd == 8) && (i.ShiftImm? ==> i.shamt < 32)
  {
    if i.Plain? {
      PlainIsFree(i.i);
    } else {
      assert forall r :: r in RegsOf(i) ==> Free(r) && r != SP;
    }
  }

  // ----- the simulation relation -----

  /** The two machines agree on all registers but gp and tp, and on all memory but dead scratch
      space and _check_same_array. */
  ghost predicate Sim(l: Layout, dead: set<int>, u: State, s: State) {
    && LayoutOk(l) && RomLoaded(l, s)
    && (forall r: Reg {:trigger R(s, r)} :: Free(r) ==> R(s, r) == R(u, r))
    && (forall a: int {:trigger M8(s, a)} :: a !in dead && !InCsa(l, a) ==> M8(s, a) == M8(u, a))
  }

  /** A machine simulates itself once the tables are loaded, whatever its stack pointer is. */
  lemma SimStarts(l: Layout, s: State)
    requires LayoutOk(l) && RomLoaded(l, s)
    ensures Sim(l, {}, s, s)
  {}

  /** States in which all macros may be used exist: the read-only section at some address, the array
      and the stack elsewhere. */
  lemma ReadyIsPossible() returns (l: Layout, s: State)
    ensures Ready(l, s)
  {
    l := Layout(0x8000_0000, 0x8010_0000);
    var rom := Section(ROM_SIZE);
    s := State(map[SP := 0x8020_0000], rom);
    forall off {:trigger RomByte(off)} | 0 <= off < ROM_SIZE ensures M8(s, l.rom + off) == RomByte(off) {}
  }

  /** The first n bytes of the read-only section, loaded at 0x80000000. */
  function Section(n: int): (m: map<int, Byte>)
    requires 0 <= n <= ROM_SIZE
    ensures forall a: int {:trigger a in m} :: a in m <==> 0x8000_0000 <= a < 0x8000_0000 + n
    ensures forall off {:trigger RomByte(off)} :: 0 <= off < n ==> m[0x8000_0000 + off] == RomByte(off)
    decreases n
  {
    if n == 0 then map[] else Section(n - 1)[0x8000_0000 + (n - 1) := RomByte(n - 1)]
  }

  lemma SimReady(l: Layout, dead: set<int>, u: State, s: State)
    requires Sim(l, dead, u, s) && StackOk(l, R(u, SP))
    ensures Ready(l, s)
  {
    assert R(s, SP) == R(u, SP);
  }

  /** A macro that only sets rd. */
  lemma GivesSim(l: Layout, dead: set<int>, u: State, s: State, t: State, rd: Reg, v: Word)
    requires Sim(l, dead, u, s) && Gives(l, s, t, rd, v, GP, TP, -28, 0)
    ensures Sim(l, dead + ScratchOf(u), SetR(u, rd, v), t)
  {
    var u2, d2 := SetR(u, rd, v), dead + ScratchOf(u);
    assert R(s, SP) == R(u, SP);
    forall r: Reg {:trigger R(t, r)} | Free(r) ensures R(t, r) == R(u2, r) {}
    forall a: int {:trigger M8(t, a)} | a !in d2 && !InCsa(l, a) ensures M8(t, a) == M8(u2, a) {
      assert a !in ScratchOf(u);
      assert M8(t, a) == M8(s, a);
    }
  }

  /** Code that sets rd and touches nothing else. */
  lemma SetSim(l: Layout, dead: set<int>, u: State, s: State, t: State, rd: Reg, v: Word)
    requires Sim(l, dead, u, s) && Gives(l, s, t, rd, v, ZERO, ZERO, 0, 0)
    ensures Sim(l, dead, SetR(u, rd, v), t)
  {
    var u2 := SetR(u, rd, v);
    forall r: Reg {:trigger R(t, r)} | Free(r) ensures R(t, r) == R(u2, r) {}
    forall a: int {:trigger M8(t, a)} | a !in dead && !InCsa(l, a) ensures M8(t, a) == M8(u2, a) {
      assert M8(t, a) == M8(s, a);
    }
  }

  /** The memory an instruction loads is the same in both machines. */
  lemma SameLoad(l: Layout, dead: set<int>, u: State, s: State, i: Inst, a: Word, n: nat, k: nat)
    requires Sim(l, dead, u, s) && Safe(l, dead, i, u) && Access(i, u) == Some((a, n)) && !Stores(i) && k < n
    ensures M8(s, a + k) == M8(u, a + k)
  {
    assert M8(u, a + k) == M8(u, a + k);
  }

  // ----- one instruction -----

  /** gp, tp and the whole scratch area may be used: what every macro below satisfies. */
  ghost predicate Sets(l: Layout, s: State, code: seq<Instr>, rd: Reg, v: Word) {
    Gives(l, s, Exec(code, s), rd, v, GP, TP, -28, 0)
  }

  lemma ArithmeticWorks(l: Layout, s: State, i: Inst)
    requires Ready(l, s) && Legal(i) && (i.Sub? || i.Not? || i.SetZero?)
    ensures Sets(l, s, Replace(l, i).value, i.rd, Result(i, s))
  {
    match i
    case Sub(rd, rs1, rs2) => RvBasic.SubWorks(l, s, rd, rs1, rs2);
    case Not(rd, rs1) =>
      RvBasic.NotWorks(l, s, rd, rs1);
      XorAllOnes(R(s, rs1));
    case SetZero(rd, rs1) => RvCompare.SeqzWorks(l, s, rd, rs1);
  }

  lemma XorAllOnes(x: Word)
    ensures RvLogic.LogicWord(XorOp, x, 0xffff_ffff) == 0xffff_ffff - x
  {
    Pow2At32();
    BitwiseWithOnes(x, 32);
  }

  lemma CompareWorks(l: Layout, s: State, i: Inst)
    requires Ready(l, s) && Legal(i) && (i.SetLess? || i.SetLessImm?)
    ensures Sets(l, s, Replace(l, i).value, i.rd, Result(i, s))
  {
    match i
    case SetLess(signed, rd, rs1, rs2) => RvCompare.SltWorks(l, s, signed, rd, rs1, rs2);
    case SetLessImm(signed, rd, rs1, imm) =>
      Pieces2([ADDI(TP, ZERO, imm)], RvCompare.Slt(l, signed, rd, rs1, TP), s);
      AddiWorks(l, s, TP, ZERO, imm);
      RvCompare.SltWorks(l, Exec([ADDI(TP, ZERO, imm)], s), signed, rd, rs1, TP);
  }

  lemma LogicalWorks(l: Layout, s: State, i: Inst)
    requires Ready(l, s) && Legal(i) && (i.Logic? || i.LogicImm?) && Replace(l, i).Some?
    ensures Sets(l, s, Replace(l, i).value, i.rd, Result(i, s))
  {
    match i
    case Logic(op, rd, rs1, rs2) => RvLogic.LogicWorks(l, s, op, rd, rs1, rs2);
    case LogicImm(op, rd, rs1, imm) =>
      Pieces2([ADDI(TP, ZERO, imm)], RvLogic.Logic(l, op, rd, rs1, TP).value, s);
      AddiWorks(l, s, TP, ZERO, imm);
      RvLogic.LogicWorks(l, Exec([ADDI(TP, ZERO, imm)], s), op, rd, rs1, TP);
  }

  lemma ShiftWorks(l: Layout, s: State, i: Inst)
    requires Ready(l, s) && Legal(i) && (i.ShiftReg? || i.ShiftImm?)
    ensures Sets(l, s, Replace(l, i).value, i.rd, Result(i, s))
  {
    match i
    case ShiftReg(op, rd, rs1, rs2) =>
      if op == ShiftLeft { RvShift.SllWorks(l, s, rd, rs1, rs2); }
      else { RvShiftRight.RightWorks(l, s, rd, rs1, rs2, op == ShiftArith); }
    case ShiftImm(op, rd, rs1, shamt) =>
      if op == ShiftLeft { RvBasic.SlliWorks(l, s, rd, rs1, shamt); }
      else { RvShiftRight.RightImmWorks(l, s, rd, rs1, shamt, op == ShiftArith); }
  }

  lemma LoadWorks(l: Layout, dead: set<int>, u: State, s: State, i: Inst)
    requires Sim(l, dead, u, s) && Safe(l, dead, i, u) && Legal(i) && (i.LoadByte? || i.LoadHalf?)
    ensures Sets(l, s, Replace(l, i).value, i.rd, Result(i, u))
  {
    SimReady(l, dead, u, s);
    var a := Addr(u, i.rs1, i.imm);
    match i
    case LoadByte(rd, imm, rs1) =>
      LbWorks(l, s, rd, imm, rs1);
      SameLoad(l, dead, u, s, i, a, 1, 0);
    case LoadHalf(signed, rd, imm, rs1) =>
      SameLoad(l, dead, u, s, i, a, 2, 0);
      SameLoad(l, dead, u, s, i, a, 2, 1);
      if signed { LhWorks(l, s, rd, imm, rs1); } else { LhuWorks(l, s, rd, imm, rs1); }
  }

  lemma PlainLoadWorks(l: Layout, dead: set<int>, u: State, s: State, i: Inst)
    requires Sim(l, dead, u, s) && Safe(l, dead, i, u) && Legal(i) && i.Plain? && (i.i.LW? || i.i.LBU?)
    ensures Sim(l, dead, Effect(i, u), Exec([i.i], s))
  {
    var a := Addr(u, i.i.rs1, i.i.imm);
    assert a == Addr(s, i.i.rs1, i.i.imm);
    SameLoad(l, dead, u, s, i, a, if i.i.LW? then 4 else 1, 0);
    if i.i.LW? {
      SameLoad(l, dead, u, s, i, a, 4, 1);
      SameLoad(l, dead, u, s, i, a, 4, 2);
      SameLoad(l, dead, u, s, i, a, 4, 3);
      LwWorks(l, s, i.i.rd, i.i.imm, i.i.rs1);
      SetSim(l, dead, u, s, Exec([i.i], s), i.i.rd, M32(u, a));
    } else {
      LbuWorks(l, s, i.i.rd, i.i.imm, i.i.rs1);
      SetSim(l, dead, u, s, Exec([i.i], s), i.i.rd, M8(u, a));
    }
  }

  lemma PlainArithmeticWorks(l: Layout, dead: set<int>, u: State, s: State, i: Inst)
    requires Sim(l, dead, u, s) && Legal(i) && i.Plain? && (i.i.ADD? || i.i.ADDI? || i.i.LUI?)
    ensures Sim(l, dead, Effect(i, u), Exec([i.i], s))
  {
    Exec1(i.i, s);
    var v := if i.i.ADD? then Wrap(R(u, i.i.rs1) + R(u, i.i.rs2))
             else if i.i.ADDI? then Wrap(R(u, i.i.rs1) + i.i.imm)
             else Wrap(i.i.imm20 * 0x1000);
    assert Do(i.i, s) == SetR(s, i.i.rd, v);
    SetGives(l, s, i.i.rd, v);
    SetSim(l, dead, u, s, Exec([i.i], s), i.i.rd, v);
  }

  // ----- stores -----

  /** n bytes at a are written and, where scratch slots are used, these. */
  ghost predicate Wrote(l: Layout, s: State, t: State, a: int, n: nat, scratch: bool) {
    && (forall r: Reg {:trigger R(t, r)} :: Free(r) ==> R(t, r) == R(s, r))
    && (forall x: int {:trigger M8(t, x)} ::
          !(a <= x < a + n) && !(scratch && -28 <= x - R(s, SP) < 0) && !InCsa(l, x) ==> M8(t, x) == M8(s, x))
  }

  lemma StoreSim(l: Layout, dead: set<int>, u: State, s: State, i: Inst, a: Word, n: nat, t: State)
    requires Sim(l, dead, u, s) && Safe(l, dead, i, u) && Access(i, u) == Some((a, n)) && Stores(i)
    requires Wrote(l, s, t, a, n, UsesScratch(i)) && RomLoaded(l, t)
    requires forall r: Reg {:trigger R(Effect(i, u), r)} :: R(Effect(i, u), r) == R(u, r)
    requires forall x: int {:trigger M8(Effect(i, u), x)} :: !(a <= x < a + n) ==> M8(Effect(i, u), x) == M8(u, x)
    requires forall x: int {:trigger M8(t, x)} :: a <= x < a + n ==> M8(t, x) == M8(Effect(i, u), x)
    ensures Sim(l, DeadAfter(dead, i, u), Effect(i, u), t)
  {
    var d2, u2 := DeadAfter(dead, i, u), Effect(i, u);
    assert R(s, SP) == R(u, SP);
    forall x: int {:trigger M8(t, x)} | x !in d2 && !InCsa(l, x) ensures M8(t, x) == M8(u2, x) {
      if !(a <= x < a + n) {
        assert x !in Written(i, u);
        assert x !in dead && (UsesScratch(i) ==> x !in ScratchOf(u));
        assert M8(t, x) == M8(s, x);
      }
    }
  }

  lemma PlainStoreWorks(l: Layout, dead: set<int>, u: State, s: State, i: Inst)
    requires Sim(l, dead, u, s) && Safe(l, dead, i, u) && Legal(i) && i.Plain? && (i.i.SW? || i.i.SB?)
    ensures Sim(l, DeadAfter(dead, i, u), Effect(i, u), Exec([i.i], s))
  {
    var a, n := Addr(u, i.i.rs1, i.i.imm), if i.i.SW? then 4 else 1;
    Exec1(i.i, s);
    assert a == Addr(s, i.i.rs1, i.i.imm) && R(s, i.i.rs2) == R(u, i.i.rs2);
    StoredTwice(u, s, a, R(u, i.i.rs2));
    RomKept(l, s, Do(i.i, s), a, n);
    StoreSim(l, dead, u, s, i, a, n, Do(i.i, s));
  }

  /** The same word or byte stored by both machines. */
  lemma StoredTwice(u: State, s: State, a: int, w: Word)
    ensures forall x: int {:trigger M8(Set32(s, a, w), x)} ::
              M8(Set32(s, a, w), x) == if a <= x < a + 4 then M8(Set32(u, a, w), x) else M8(s, x)
    ensures forall x: int {:trigger M8(Set32(u, a, w), x)} :: !(a <= x < a + 4) ==> M8(Set32(u, a, w), x) == M8(u, x)
  {}

  lemma RomKept(l: Layout, s: State, t: State, a: int, n: nat)
    requires RomLoaded(l, s) && (a + n <= l.rom || l.rom + ROM_SIZE <= a)
    requires forall x: int {:trigger M8(t, x)} :: !(a <= x < a + n) ==> M8(t, x) == M8(s, x)
    ensures RomLoaded(l, t)
  {
    forall off {:trigger RomByte(off)} | 0 <= off < ROM_SIZE ensures M8(t, l.rom + off) == RomByte(off) {
      assert M8(t, l.rom + off) == M8(s, l.rom + off);
    }
  }

  lemma StoreHalfWorks(l: Layout, dead: set<int>, u: State, s: State, i: Inst)
    requires Sim(l, dead, u, s) && Safe(l, dead, i, u) && Legal(i) && i.StoreHalf?
    ensures Sim(l, DeadAfter(dead, i, u), Effect(i, u), Exec(Replace(l, i).value, s))
  {
    SimReady(l, dead, u, s);
    var a := Addr(u, i.rs1, i.imm);
    assert a == Addr(s, i.rs1, i.imm) && R(s, i.rs2) == R(u, i.rs2);
    ShWorks(l, s, i.rs2, i.imm, i.rs1);
    StoreSim(l, dead, u, s, i, a, 2, Exec(Replace(l, i).value, s));
  }

  /** Results depend on registers that both machines agree on. */
  lemma SameResult(l: Layout, dead: set<int>, u: State, s: State, i: Inst)
    requires Sim(l, dead, u, s) && Legal(i) && !i.Plain? && !i.StoreHalf? && !i.LoadByte? && !i.LoadHalf?
    ensures Result(i, s) == Result(i, u)
  {}

  lemma MacroSimulates(l: Layout, dead: set<int>, u: State, s: State, i: Inst)
    requires Sim(l, dead, u, s) && Safe(l, dead, i, u) && Legal(i) && Replace(l, i).Some? && UsesScratch(i)
    requires !i.StoreHalf?
    ensures Sim(l, dead + ScratchOf(u), Effect(i, u), Exec(Replace(l, i).value, s))
  {
    SimReady(l, dead, u, s);
    if i.LoadByte? || i.LoadHalf? {
      LoadWorks(l, dead, u, s, i);
    } else {
      SameResult(l, dead, u, s, i);
      if i.Sub? || i.Not? || i.SetZero? { ArithmeticWorks(l, s, i); }
      else if i.SetLess? || i.SetLessImm? { CompareWorks(l, s, i); }
      else if i.Logic? || i.LogicImm? { LogicalWorks(l, s, i); }
      else { ShiftWorks(l, s, i); }
    }
    GivesSim(l, dead, u, s, Exec(Replace(l, i).value, s), i.rd, Result(i, u));
  }

  /** Base instructions that do not store, and short left shifts. */
  lemma NoScratchSimulates(l: Layout, dead: set<int>, u: State, s: State, i: Inst)
    requires Sim(l, dead, u, s) && Safe(l, dead, i, u) && Legal(i) && !UsesScratch(i) && !Stores(i)
    ensures Sim(l, dead, Effect(i, u), Exec(Replace(l, i).value, s))
  {
    if i.ShiftImm? {
      RvBasic.SlliSmallWorks(l, s, i.rd, i.rs1, i.shamt);
      SetSim(l, dead, u, s, Exec(Replace(l, i).value, s), i.rd, Result(i, u));
    } else if i.i.LW? || i.i.LBU? {
      PlainLoadWorks(l, dead, u, s, i);
    } else {
      PlainArithmeticWorks(l, dead, u, s, i);
    }
  }

  lemma NothingWritten(dead: set<int>, i: Inst, u: State)
    requires !Stores(i)
    ensures DeadAfter(dead, i, u) == if UsesScratch(i) then dead + ScratchOf(u) else dead
  {
    assert Written(i, u) == {};
  }

  /** The main step: from simulated states, an instruction and its replacement lead to simulated states. */
  lemma ReplaceSimulates(l: Layout, dead: set<int>, u: State, s: State, i: Inst)
    requires Sim(l, dead, u, s) && Safe(l, dead, i, u) && Legal(i) && Replace(l, i).Some?
    ensures Sim(l, DeadAfter(dead, i, u), Effect(i, u), Exec(Replace(l, i).value, s))
  {
    if i.StoreHalf? {
      StoreHalfWorks(l, dead, u, s, i);
    } else if Stores(i) {
      PlainStoreWorks(l, dead, u, s, i);
    } else {
      NothingWritten(dead, i, u);
      if UsesScratch(i) { MacroSimulates(l, dead, u, s, i); } else { NoScratchSimulates(l, dead, u, s, i); }
    }
  }
}
