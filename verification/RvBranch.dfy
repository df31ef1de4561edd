/** Conditional branches: a flag in tp selects one of two addresses stored in scratch slots
    (abstract-machine/tools/minirv/inst-replace.h:277-382). */
module RvBranch {
  import opened RvMachine
  import opened RvTables
  import opened RvScratch
  import opened RvBasic
  import opened RvCompare

  // ----- branch_resolve up to its jump -----

  function Choices(high: int, low: int): seq<Instr> {
    La(GP, high) + StoreVar(GP, A) + La(GP, low) + StoreVar(GP, B)
  }

  lemma ChoicesWork(l: Layout, s: State, high: Word, low: Word)
    requires Ready(l, s)
    ensures var t := Exec(Choices(high, low), s);
            && Keeps(l, s, t, GP, ZERO, ZERO, -20, -12) && Ready(l, t) && Holds(t, A, high) && Holds(t, B, low)
  {
    Pieces4(La(GP, high), StoreVar(GP, A), La(GP, low), StoreVar(GP, B), s);
    LaWorks(l, s, GP, high);
    var s1 := Exec(La(GP, high), s);
    StoreVarWorks(l, s1, GP, A);
    var s2 := Exec(StoreVar(GP, A), s1);
    LaWorks(l, s2, GP, low);
    StoreVarWorks(l, Exec(La(GP, low), s2), GP, B);
  }

  function Resolve(target: int, selects: bool, next: int): seq<Instr> {
    Slli(TP, TP, 2) + [ADD(TP, SP, TP)] + (if selects then Choices(target, next) else Choices(next, target))
        + [LW(TP, -20, TP)]
  }

  lemma WordAt(s: State, n: nat, w: Word)
    requires Holds(s, n, w)
    ensures M32(s, R(s, SP) - 4 * n) == w
  {
    BytesOfWord(w);
  }

  /** tp becomes the target exactly when the flag says so. */
  lemma ResolveWorks(l: Layout, s: State, target: Word, selects: bool, next: Word)
    requires Ready(l, s) && R(s, TP) <= 1
    ensures var t := Exec(Resolve(target, selects, next), s);
            && Gives(l, s, t, TP, if (R(s, TP) == 1) == selects then target else next, GP, ZERO, -20, -12)
            && Ready(l, t)
  {
    var high, low := if selects then target else next, if selects then next else target;
    Pieces4(Slli(TP, TP, 2), [ADD(TP, SP, TP)], Choices(high, low), [LW(TP, -20, TP)], s);
    SlliSmallWorks(l, s, TP, TP, 2);
    var f := R(s, TP);
    SllNone(f);
    SllStep(f, 0);
    SllStep(f, 1);
    var s1 := Exec(Slli(TP, TP, 2), s);
    AddWorks(l, s1, TP, SP, TP);
    var s2 := Exec([ADD(TP, SP, TP)], s1);
    ChoicesWork(l, s2, high, low);
    var s3 := Exec(Choices(high, low), s2);
    LwWorks(l, s3, TP, -20, TP);
    WordAt(s3, A, high);
    WordAt(s3, B, low);
    assert Addr(s3, TP, -20) == if f == 1 then R(s, SP) - 16 else R(s, SP) - 20;
  }

  // ----- the six conditions -----

  datatype Cond = Eq | Ne | Lt | Ge | Ltu | Geu

  predicate Taken(c: Cond, a: Word, b: Word) {
    match c
    case Eq => a == b
    case Ne => a != b
    case Lt => ToSigned(a) < ToSigned(b)
    case Ge => ToSigned(a) >= ToSigned(b)
    case Ltu => a < b
    case Geu => a >= b
  }

  /** tp becomes 1 if r is not positive, otherwise 0: the sign bits of r and r - 1. */
  function NotPositive(l: Layout, r: Reg): seq<Instr> {
    SignBits(r) + La(TP, l.rom + OR1) + [ADD(TP, GP, TP)] + [LBU(TP, 0, TP)]
  }

  function SignBits(r: Reg): seq<Instr> {
    Msb(GP, r) + [ADDI(TP, r, -1)] + Msb(TP, TP) + [ADD(GP, GP, TP)]
  }

  lemma SignBitsWork(l: Layout, s: State, r: Reg)
    requires Ready(l, s) && r != GP
    ensures var t := Exec(SignBits(r), s);
            && Gives(l, s, t, GP, SignBit(R(s, r)) + SignBit(Wrap(R(s, r) - 1)), TP, ZERO, -24, -20) && Ready(l, t)
  {
    Pieces4(Msb(GP, r), [ADDI(TP, r, -1)], Msb(TP, TP), [ADD(GP, GP, TP)], s);
    MsbWorks(l, s, GP, r);
    var s1 := Exec(Msb(GP, r), s);
    AddiWorks(l, s1, TP, r, -1);
    var s2 := Exec([ADDI(TP, r, -1)], s1);
    MsbWorks(l, s2, TP, TP);
    AddWorks(l, Exec(Msb(TP, TP), s2), GP, GP, TP);
  }

  lemma NotPositiveWorks(l: Layout, s: State, r: Reg)
    requires Ready(l, s) && r != GP
    ensures var t := Exec(NotPositive(l, r), s);
            && Gives(l, s, t, TP, Flag(ToSigned(R(s, r)) <= 0), GP, ZERO, -24, -20) && Ready(l, t)
  {
    Pieces4(SignBits(r), La(TP, l.rom + OR1), [ADD(TP, GP, TP)], [LBU(TP, 0, TP)], s);
    SignBitsWork(l, s, r);
    var s1 := Exec(SignBits(r), s);
    LaWorks(l, s1, TP, l.rom + OR1);
    var s2 := Exec(La(TP, l.rom + OR1), s1);
    AddWorks(l, s2, TP, GP, TP);
    var s3 := Exec([ADD(TP, GP, TP)], s2);
    LbuWorks(l, s3, TP, 0, TP);
    RomLookup(l, s3, OR1 + R(s1, GP));
  }

  /** The code that leaves a flag in tp, and whether flag 1 selects the target. */
  function Test(l: Layout, c: Cond, rs1: Reg, rs2: Reg): (seq<Instr>, bool) {
    match c
    case Eq | Ne =>
      (if rs2 == ZERO then Seqz(l, TP, rs1) else if rs1 == ZERO then Seqz(l, TP, rs2) else Seq(l, TP, rs1, rs2),
       c == Eq)
    case Lt =>
      if rs2 == ZERO then (Msb(TP, rs1), true)
      else if rs1 == ZERO then (NotPositive(l, rs2), false)
      else (Slt(l, true, TP, rs1, rs2), true)
    case Ge =>
      if rs1 == ZERO then (NotPositive(l, rs2), true) else (Slt(l, true, TP, rs1, rs2), false)
    case Ltu => (Slt(l, false, TP, rs1, rs2), true)
    case Geu => (Slt(l, false, TP, rs1, rs2), false)
  }

  /** Special cases for x0 included, the flag and the selector agree with the condition. */
  lemma TestWorks(l: Layout, s: State, c: Cond, rs1: Reg, rs2: Reg)
    requires Ready(l, s) && rs1 != GP && rs2 != GP
    ensures var (code, selects) := Test(l, c, rs1, rs2);
            var t := Exec(code, s);
            && Gives(l, s, t, TP, Flag(Taken(c, R(s, rs1), R(s, rs2)) == selects), GP, ZERO, -28, 0) && Ready(l, t)
  {
    if c == Eq || c == Ne {
      EqualityTestWorks(l, s, c, rs1, rs2);
    } else if c == Ltu || c == Geu {
      SltWorks(l, s, false, TP, rs1, rs2);
    } else {
      OrderTestWorks(l, s, c, rs1, rs2);
    }
  }

  lemma EqualityTestWorks(l: Layout, s: State, c: Cond, rs1: Reg, rs2: Reg)
    requires Ready(l, s) && (c == Eq || c == Ne)
    ensures var t := Exec(Test(l, c, rs1, rs2).0, s);
            && Gives(l, s, t, TP, Flag(R(s, rs1) == R(s, rs2)), GP, ZERO, -20, 0) && Ready(l, t)
  {
    if rs2 == ZERO {
      SeqzWorks(l, s, TP, rs1);
    } else if rs1 == ZERO {
      SeqzWorks(l, s, TP, rs2);
    } else {
      SeqWorks(l, s, TP, rs1, rs2);
    }
  }

  lemma OrderTestWorks(l: Layout, s: State, c: Cond, rs1: Reg, rs2: Reg)
    requires Ready(l, s) && (c == Lt || c == Ge) && rs1 != GP && rs2 != GP
    ensures var (code, selects) := Test(l, c, rs1, rs2);
            var t := Exec(code, s);
            && Gives(l, s, t, TP, Flag(Taken(c, R(s, rs1), R(s, rs2)) == selects), GP, ZERO, -28, 0) && Ready(l, t)
  {
    if c == Lt && rs2 == ZERO {
      MsbWorks(l, s, TP, rs1);
    } else if rs1 == ZERO {
      NotPositiveWorks(l, s, rs2);
    } else {
      SltWorks(l, s, true, TP, rs1, rs2);
    }
  }

  function BranchCode(l: Layout, c: Cond, rs1: Reg, rs2: Reg, target: int, next: int): seq<Instr> {
    Test(l, c, rs1, rs2).0 + Resolve(target, Test(l, c, rs1, rs2).1, next)
  }

  /** Before its final `jr tp`, a branch has put the right address into tp. */
  lemma BranchWorks(l: Layout, s: State, c: Cond, rs1: Reg, rs2: Reg, target: Word, next: Word)
    requires Ready(l, s) && rs1 != GP && rs2 != GP
    ensures var t := Exec(BranchCode(l, c, rs1, rs2, target, next), s);
            && Gives(l, s, t, TP, if Taken(c, R(s, rs1), R(s, rs2)) then target else next, GP, ZERO, -28, 0)
            && Ready(l, t)
  {
    var (code, selects) := Test(l, c, rs1, rs2);
    Pieces2(code, Resolve(target, selects, next), s);
    TestWorks(l, s, c, rs1, rs2);
    ResolveWorks(l, Exec(code, s), target, selects, next);
  }
}
