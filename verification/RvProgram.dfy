/** Whole programs: label-level code with branches and jumps, its assembled image, and the
    simulation of every run (abstract-machine/tools/minirv/inst-replace.h:92-108, 277-382 and 614-627;
    nemu/src/isa/riscv32/inst.c:126-159). */
module RvProgram {
  import opened RvMachine
  import opened RvTables
  import opened RvScratch
  import opened RvSimulate
  import opened RvBranch
  import opened Options

  /** Labels are indices into the program; the index after its end is where a run leaves it. */
  datatype Line =
    | Straight(inst: Inst)
    | Branch(c: Cond, rs1: Reg, rs2: Reg, dest: nat)
    | Jump(rd: Reg, dest: nat)
    | JumpReg(rd: Reg, rs1: Reg, imm: int)

  // ----- the assembled image -----

  datatype Word32 = Base(i: Instr) | Jalr(rd: Reg, rs1: Reg, imm: int)

  /** A body without jumps, and the jump that ends it, if any. */
  datatype Block = Block(body: seq<Instr>, jump: Option<Word32>)

  function Expansion(l: Layout, line: Line, target: int, next: int): Option<Block> {
    match line
    case Straight(i) => (match Replace(l, i) case None => None case Some(code) => Some(Block(code, None)))
    case Branch(c, rs1, rs2, _) => Some(Block(BranchCode(l, c, rs1, rs2, target, next), Some(Jalr(ZERO, TP, 0))))
    case Jump(rd, _) =>
      if rd == ZERO then Some(Block(La(TP, target), Some(Jalr(ZERO, TP, 0))))
      else Some(Block(La(rd, target), Some(Jalr(rd, rd, 0))))
    case JumpReg(rd, rs1, imm) => Some(Block([], Some(Jalr(rd, rs1, imm))))
  }

  /** Expansion, folded like Exec. */
  function Expand(l: Layout, line: Line, target: int, next: int): Option<Block> {
    FoldedExpansion(l, line, target, next, 1)
  }

  function FoldedExpansion(l: Layout, line: Line, target: int, next: int, folds: nat): Option<Block>
    decreases folds, line
  {
    if folds > 0 then FoldedExpansion(l, line, target, next, folds - 1) else Expansion(l, line, target, next)
  }

  lemma ExpandIs(l: Layout, line: Line, target: int, next: int)
    ensures Expand(l, line, target, next) == Expansion(l, line, target, next)
  {
    assert FoldedExpansion(l, line, target, next, 1) == FoldedExpansion(l, line, target, next, 0);
  }

  function Words(b: Block): seq<Word32> {
    seq(|b.body|, k requires 0 <= k < |b.body| => Base(b.body[k])) + (if b.jump.Some? then [b.jump.value] else [])
  }

  /** The number of instructions does not depend on where labels end up. */
  function Size(l: Layout, line: Line): nat {
    match Expand(l, line, 0, 0) case None => 0 case Some(b) => |Words(b)|
  }

  lemma LaSize(r: Reg, addr: int)
    ensures |La(r, addr)| == 2
  {
    assert FoldedLa(r, addr, 1) == FoldedLa(r, addr, 0);
  }

  lemma ResolveSize(target: int, selects: bool, next: int)
    ensures |Resolve(target, selects, next)| == |Resolve(0, selects, 0)|
  {
    LaSize(GP, target);
    LaSize(GP, next);
    LaSize(GP, 0);
  }

  lemma SizeIs(l: Layout, line: Line, target: int, next: int)
    requires Expand(l, line, target, next).Some?
    ensures |Words(Expand(l, line, target, next).value)| == Size(l, line)
  {
    ExpandIs(l, line, target, next);
    ExpandIs(l, line, 0, 0);
    match line
    case Straight(_) =>
    case Branch(c, rs1, rs2, _) => ResolveSize(target, Test(l, c, rs1, rs2).1, next);
    case Jump(rd, _) =>
      LaSize(TP, target);
      LaSize(rd, target);
      LaSize(TP, 0);
      LaSize(rd, 0);
    case JumpReg(_, _, _) =>
  }

  /** A program that assembles, uses registers as it must, and has labels inside itself. */
  ghost predicate WellFormed(l: Layout, p: seq<Line>) {
    forall k {:trigger p[k]} :: 0 <= k < |p| ==> LineOk(l, p, p[k])
  }

  ghost predicate LineOk(l: Layout, p: seq<Line>, line: Line) {
    match line
    case Straight(i) => Legal(i) && Replace(l, i).Some?
    case Branch(_, rs1, rs2, dest) => Free(rs1) && Free(rs2) && dest <= |p|
    case Jump(rd, dest) => Free(rd) && dest <= |p|
    case JumpReg(rd, rs1, _) => Free(rd) && Free(rs1)
  }

  /** The address of line k. */
  function Place(l: Layout, p: seq<Line>, base: int, k: nat): int
    requires k <= |p|
  {
    if k == 0 then base else Place(l, p, base, k - 1) + 4 * Size(l, p[k - 1])
  }

  function Target(l: Layout, p: seq<Line>, base: int, line: Line): int {
    if (line.Branch? || line.Jump?) && line.dest <= |p| then Place(l, p, base, line.dest) else 0
  }

  function BlockAt(l: Layout, p: seq<Line>, base: int, k: nat): Block
    requires k < |p|
  {
    match Expand(l, p[k], Target(l, p, base, p[k]), Place(l, p, base, k + 1))
    case None => Block([], None)
    case Some(b) => b
  }

  /** The code of the first k lines. */
  function Image(l: Layout, p: seq<Line>, base: int, k: nat): seq<Word32>
    requires k <= |p|
  {
    if k == 0 then [] else Image(l, p, base, k - 1) + Words(BlockAt(l, p, base, k - 1))
  }

  lemma BlockSize(l: Layout, p: seq<Line>, base: int, k: nat)
    requires WellFormed(l, p) && k < |p|
    ensures |Words(BlockAt(l, p, base, k))| == Size(l, p[k])
  {
    assert LineOk(l, p, p[k]);
    ExpandIs(l, p[k], Target(l, p, base, p[k]), Place(l, p, base, k + 1));
    SizeIs(l, p[k], Target(l, p, base, p[k]), Place(l, p, base, k + 1));
  }

  lemma BlockIs(l: Layout, p: seq<Line>, base: int, k: nat)
    requires WellFormed(l, p) && k < |p|
    ensures Expansion(l, p[k], Target(l, p, base, p[k]), Place(l, p, base, k + 1)) == Some(BlockAt(l, p, base, k))
  {
    assert LineOk(l, p, p[k]);
    ExpandIs(l, p[k], Target(l, p, base, p[k]), Place(l, p, base, k + 1));
  }

  /** Every label's address is where its code is. */
  lemma {:induction false} ImageSize(l: Layout, p: seq<Line>, base: int, k: nat)
    requires WellFormed(l, p) && k <= |p|
    ensures Place(l, p, base, k) == base + 4 * |Image(l, p, base, k)|
  {
    if k > 0 {
      ImageSize(l, p, base, k - 1);
      BlockSize(l, p, base, k - 1);
    }
  }

  lemma {:induction false} ImagePrefix(l: Layout, p: seq<Line>, base: int, k: nat, n: nat)
    requires k <= n <= |p|
    ensures Image(l, p, base, k) <= Image(l, p, base, n)
    decreases n
  {
    if n > k {
      ImagePrefix(l, p, base, k, n - 1);
    }
  }

  /** Word j of the code of line k. */
  lemma ImageAt(l: Layout, p: seq<Line>, base: int, k: nat, j: nat)
    requires k < |p| && j < |Words(BlockAt(l, p, base, k))|
    ensures |Image(l, p, base, k)| + |Words(BlockAt(l, p, base, k))| <= |Image(l, p, base, |p|)|
    ensures Image(l, p, base, |p|)[|Image(l, p, base, k)| + j] == Words(BlockAt(l, p, base, k))[j]
  {
    ImagePrefix(l, p, base, k + 1, |p|);
    assert Image(l, p, base, k + 1) == Image(l, p, base, k) + Words(BlockAt(l, p, base, k));
    PrefixAt(Image(l, p, base, k), Words(BlockAt(l, p, base, k)), Image(l, p, base, |p|), j);
  }

  lemma PrefixAt(a: seq<Word32>, b: seq<Word32>, c: seq<Word32>, j: nat)
    requires a + b <= c && j < |b|
    ensures |a| + |b| <= |c| && c[|a| + j] == b[j]
  {
    assert (a + b)[|a| + j] == b[j];
  }

  // ----- the target machine -----

  datatype Machine = Machine(pc: int, s: State)

  function ClearBit0(w: Word): Word { w - w % 2 }

  /** The instruction at pc, if the code starting at base reaches there. */
  function Fetch(code: seq<Word32>, base: int, pc: int): Option<Word32> {
    if code == [] then None else if pc == base then Some(code[0]) else Fetch(code[1..], base + 4, pc)
  }

  lemma {:induction false} FetchAt(code: seq<Word32>, base: int, at: nat)
    requires at < |code|
    ensures Fetch(code, base, base + 4 * at) == Some(code[at])
  {
    if at > 0 {
      FetchAt(code[1..], base + 4, at - 1);
    }
  }

  /** One instruction; a machine whose program counter is outside the code stays put. */
  function Tick(code: seq<Word32>, base: int, m: Machine): Machine {
    match Fetch(code, base, m.pc)
    case None => m
    case Some(Base(i)) => Machine(m.pc + 4, Do(i, m.s))
    case Some(Jalr(rd, rs1, imm)) => Machine(ClearBit0(Addr(m.s, rs1, imm)), SetR(m.s, rd, Wrap(m.pc + 4)))
  }

  function Ticks(code: seq<Word32>, base: int, m: Machine, n: nat): Machine
    decreases n
  {
    if n == 0 then m else Ticks(code, base, Tick(code, base, m), n - 1)
  }

  lemma {:induction false} TicksAdd(code: seq<Word32>, base: int, m: Machine, j: nat, k: nat)
    ensures Ticks(code, base, m, j + k) == Ticks(code, base, Ticks(code, base, m, j), k)
    decreases j
  {
    if j > 0 {
      TicksAdd(code, base, Tick(code, base, m), j - 1, k);
    }
  }

  /** Code without jumps runs through. */
  lemma {:induction false} StraightRun(code: seq<Word32>, base: int, at: nat, body: seq<Instr>, s: State)
    requires at + |body| <= |code|
    requires forall j {:trigger body[j]} :: 0 <= j < |body| ==> code[at + j] == Base(body[j])
    ensures Ticks(code, base, Machine(base + 4 * at, s), |body|) == Machine(base + 4 * (at + |body|), Run(body, s))
    decreases |body|
  {
    if body != [] {
      var m := Machine(base + 4 * at, s);
      assert code[at + 0] == Base(body[0]);
      FetchAt(code, base, at);
      assert Tick(code, base, m) == Machine(base + 4 * (at + 1), Do(body[0], s));
      forall j | 0 <= j < |body[1..]| ensures code[at + 1 + j] == Base(body[1..][j]) {
        assert body[1..][j] == body[j + 1];
        assert code[at + (j + 1)] == Base(body[j + 1]);
      }
      StraightRun(code, base, at + 1, body[1..], Do(body[0], s));
    }
  }

  // ----- one line -----

  /** The image lies at a word-aligned address and fits into the address space. */
  ghost predicate Fits(l: Layout, p: seq<Line>, base: int) {
    0 <= base && base % 4 == 0 && Place(l, p, base, |p|) < W
  }

  lemma PlaceInRange(l: Layout, p: seq<Line>, base: int, k: nat)
    requires WellFormed(l, p) && Fits(l, p, base) && k <= |p|
    ensures 0 <= Place(l, p, base, k) < W && Place(l, p, base, k) % 4 == 0
  {
    ImagePrefix(l, p, base, k, |p|);
    ImageSize(l, p, base, k);
    ImageSize(l, p, base, |p|);
    Aligned(base, |Image(l, p, base, k)|);
  }

  lemma Aligned(base: int, q: int)
    requires base % 4 == 0
    ensures (base + 4 * q) % 4 == 0
  {}

  /** A jump to an aligned address lands there. */
  lemma Lands(w: Word)
    requires w % 4 == 0
    ensures ClearBit0(Wrap(w)) == w
  {}

  lemma TickJump(code: seq<Word32>, base: int, at: nat, s: State)
    requires at < |code| && code[at].Jalr?
    ensures var j := code[at];
            Ticks(code, base, Machine(base + 4 * at, s), 1)
            == Machine(ClearBit0(Addr(s, j.rs1, j.imm)), SetR(s, j.rd, Wrap(base + 4 * (at + 1))))
  {
    var m := Machine(base + 4 * at, s);
    FetchAt(code, base, at);
    assert Ticks(code, base, Tick(code, base, m), 0) == Tick(code, base, m);
  }

  /** The code of line k, run from its start up to its jump. */
  lemma BodyRun(l: Layout, p: seq<Line>, base: int, k: nat, s: State)
    requires WellFormed(l, p) && k < |p|
    ensures var b := BlockAt(l, p, base, k);
            Ticks(Image(l, p, base, |p|), base, Machine(Place(l, p, base, k), s), |b.body|)
            == Machine(Place(l, p, base, k) + 4 * |b.body|, Exec(b.body, s))
  {
    var b, code, at := BlockAt(l, p, base, k), Image(l, p, base, |p|), |Image(l, p, base, k)|;
    ImageSize(l, p, base, k);
    ExecIsRun(b.body, s);
    ImagePrefix(l, p, base, k + 1, |p|);
    forall j {:trigger b.body[j]} | 0 <= j < |b.body| ensures code[at + j] == Base(b.body[j]) {
      ImageAt(l, p, base, k, j);
    }
    StraightRun(code, base, at, b.body, s);
  }

  /** A body followed by a jump. */
  lemma BodyAndJump(code: seq<Word32>, base: int, at: nat, body: seq<Instr>, s: State)
    requires at + |body| < |code| && code[at + |body|].Jalr?
    requires Ticks(code, base, Machine(base + 4 * at, s), |body|) == Machine(base + 4 * at + 4 * |body|, Exec(body, s))
    ensures var j, t := code[at + |body|], Exec(body, s);
            Ticks(code, base, Machine(base + 4 * at, s), |body| + 1)
            == Machine(ClearBit0(Addr(t, j.rs1, j.imm)), SetR(t, j.rd, Wrap(base + 4 * (at + |body| + 1))))
  {
    TicksAdd(code, base, Machine(base + 4 * at, s), |body|, 1);
    TickJump(code, base, at + |body|, Exec(body, s));
  }

  lemma JumpRun(l: Layout, p: seq<Line>, base: int, k: nat, s: State)
    requires WellFormed(l, p) && Fits(l, p, base) && k < |p| && BlockAt(l, p, base, k).jump.Some?
    requires BlockAt(l, p, base, k).jump.value.Jalr?
    ensures var b := BlockAt(l, p, base, k);
            var t := Exec(b.body, s);
            Ticks(Image(l, p, base, |p|), base, Machine(Place(l, p, base, k), s), |b.body| + 1)
            == Machine(ClearBit0(Addr(t, b.jump.value.rs1, b.jump.value.imm)),
                SetR(t, b.jump.value.rd, Wrap(Place(l, p, base, k + 1))))
  {
    var b := BlockAt(l, p, base, k);
    BodyRun(l, p, base, k, s);
    ImageAt(l, p, base, k, |b.body|);
    NextPlace(l, p, base, k);
    BodyAndJump(Image(l, p, base, |p|), base, |Image(l, p, base, k)|, b.body, s);
  }

  lemma NextPlace(l: Layout, p: seq<Line>, base: int, k: nat)
    requires WellFormed(l, p) && k < |p|
    ensures Place(l, p, base, k) == base + 4 * |Image(l, p, base, k)|
    ensures Place(l, p, base, k + 1) == base + 4 * (|Image(l, p, base, k)| + |Words(BlockAt(l, p, base, k))|)
  {
    ImageSize(l, p, base, k);
    ImageSize(l, p, base, k + 1);
  }

  // ----- the source machine -----

  datatype Config = Config(at: nat, u: State)

  /** One line of the label-level program; return addresses are addresses of the assembled image. */
  ghost predicate Step(l: Layout, p: seq<Line>, base: int, c: Config, c2: Config) {
    && c.at < |p| && c2.at <= |p|
    && match p[c.at]
       case Straight(i) => c2 == Config(c.at + 1, Effect(i, c.u))
       case Branch(cond, rs1, rs2, dest) =>
         c2 == Config(if Taken(cond, R(c.u, rs1), R(c.u, rs2)) then dest else c.at + 1, c.u)
       case Jump(rd, dest) => c2 == Config(dest, SetR(c.u, rd, Wrap(Place(l, p, base, c.at + 1))))
       case JumpReg(rd, rs1, imm) =>
         && Place(l, p, base, c2.at) == ClearBit0(Addr(c.u, rs1, imm))
         && c2.u == SetR(c.u, rd, Wrap(Place(l, p, base, c.at + 1)))
  }

  ghost predicate SafeStep(l: Layout, dead: set<int>, line: Line, u: State) {
    match line
    case Straight(i) => Safe(l, dead, i, u)
    case Branch(_, _, _, _) => StackOk(l, R(u, SP))
    case _ => true
  }

  function DeadStep(dead: set<int>, line: Line, u: State): set<int> {
    match line
    case Straight(i) => DeadAfter(dead, i, u)
    case Branch(_, _, _, _) => dead + ScratchOf(u)
    case _ => dead
  }

  /** Memory goes dead only in the 28 bytes below the stack pointer, and only by a line whose code uses
      scratch slots. */
  lemma OnlyScratchDies(dead: set<int>, line: Line, u: State, a: int)
    requires a in DeadStep(dead, line, u) && a !in dead
    ensures -28 <= a - R(u, SP) < 0 && (line.Branch? || (line.Straight? && UsesScratch(line.inst)))
  {}

  /** What the program stores is alive again. */
  lemma StoresRevive(dead: set<int>, rs: Reg, imm: int, rs1: Reg, u: State, a: int)
    ensures 0 <= a - Addr(u, rs1, imm) < 4 ==> a !in DeadStep(dead, Straight(Plain(SW(rs, imm, rs1))), u)
    ensures 0 <= a - Addr(u, rs1, imm) < 1 ==> a !in DeadStep(dead, Straight(Plain(SB(rs, imm, rs1))), u)
    ensures 0 <= a - Addr(u, rs1, imm) < 2 ==> a !in DeadStep(dead, Straight(StoreHalf(rs, imm, rs1)), u)
  {}

  /** Where the target machine is after the code of line c.at. */
  function After(l: Layout, p: seq<Line>, base: int, c: Config, s: State): Machine
    requires c.at < |p|
  {
    Ticks(Image(l, p, base, |p|), base, Machine(Place(l, p, base, c.at), s), Size(l, p[c.at]))
  }

  lemma StraightStep(l: Layout, p: seq<Line>, base: int, dead: set<int>, c: Config, c2: Config, s: State)
    requires WellFormed(l, p) && Fits(l, p, base) && Step(l, p, base, c, c2)
    requires Sim(l, dead, c.u, s) && SafeStep(l, dead, p[c.at], c.u) && p[c.at].Straight?
    ensures var m := After(l, p, base, c, s);
            m.pc == Place(l, p, base, c2.at) && Sim(l, DeadStep(dead, p[c.at], c.u), c2.u, m.s)
  {
    assert LineOk(l, p, p[c.at]);
    BlockSize(l, p, base, c.at);
    BlockIs(l, p, base, c.at);
    BodyRun(l, p, base, c.at, s);
    ReplaceSimulates(l, dead, c.u, s, p[c.at].inst);
  }

  /** Sizes of blocks that end in a jump. */
  lemma JumpAfter(l: Layout, p: seq<Line>, base: int, c: Config, s: State)
    requires WellFormed(l, p) && Fits(l, p, base) && c.at < |p| && !p[c.at].Straight?
    ensures var b, m := BlockAt(l, p, base, c.at), After(l, p, base, c, s);
            && b.jump.Some? && b.jump.value.Jalr?
            && m.pc == ClearBit0(Addr(Exec(b.body, s), b.jump.value.rs1, b.jump.value.imm))
            && m.s == SetR(Exec(b.body, s), b.jump.value.rd, Wrap(Place(l, p, base, c.at + 1)))
  {
    BlockSize(l, p, base, c.at);
    BlockIs(l, p, base, c.at);
    JumpRun(l, p, base, c.at, s);
  }

  lemma BranchBody(l: Layout, p: seq<Line>, base: int, dead: set<int>, c: Config, c2: Config, s: State)
    requires WellFormed(l, p) && Fits(l, p, base) && Step(l, p, base, c, c2)
    requires Sim(l, dead, c.u, s) && SafeStep(l, dead, p[c.at], c.u) && p[c.at].Branch?
    ensures var b := BlockAt(l, p, base, c.at);
            var t := Exec(b.body, s);
            && b.jump == Some(Jalr(ZERO, TP, 0))
            && R(t, TP) == Place(l, p, base, c2.at) && Sim(l, dead + ScratchOf(c.u), c.u, t)
  {
    var line := p[c.at];
    assert LineOk(l, p, line);
    BlockIs(l, p, base, c.at);
    SimReady(l, dead, c.u, s);
    PlaceInRange(l, p, base, line.dest);
    PlaceInRange(l, p, base, c.at + 1);
    var target, next := Place(l, p, base, line.dest), Place(l, p, base, c.at + 1);
    BranchWorks(l, s, line.c, line.rs1, line.rs2, target, next);
    GivesSim(l, dead, c.u, s, Exec(BranchCode(l, line.c, line.rs1, line.rs2, target, next), s), ZERO, 0);
  }

  lemma BranchStep(l: Layout, p: seq<Line>, base: int, dead: set<int>, c: Config, c2: Config, s: State)
    requires WellFormed(l, p) && Fits(l, p, base) && Step(l, p, base, c, c2)
    requires Sim(l, dead, c.u, s) && SafeStep(l, dead, p[c.at], c.u) && p[c.at].Branch?
    ensures var m := After(l, p, base, c, s);
            m.pc == Place(l, p, base, c2.at) && Sim(l, DeadStep(dead, p[c.at], c.u), c2.u, m.s)
  {
    JumpAfter(l, p, base, c, s);
    BranchBody(l, p, base, dead, c, c2, s);
    PlaceInRange(l, p, base, c2.at);
    Lands(Place(l, p, base, c2.at));
  }

  /** Both machines receive the same return address. */
  lemma LinkSim(l: Layout, dead: set<int>, u: State, s: State, rd: Reg, v: Word)
    requires Sim(l, dead, u, s)
    ensures Sim(l, dead, SetR(u, rd, v), SetR(s, rd, v))
  {
    SetKeepsRom(l, s, rd, v);
    forall a: int {:trigger M8(SetR(s, rd, v), a)} | a !in dead && !InCsa(l, a)
      ensures M8(SetR(s, rd, v), a) == M8(SetR(u, rd, v), a)
    {
      assert M8(s, a) == M8(u, a);
    }
    forall r: Reg {:trigger R(SetR(s, rd, v), r)} | Free(r) ensures R(SetR(s, rd, v), r) == R(SetR(u, rd, v), r) {
      assert R(s, r) == R(u, r);
    }
  }

  /** The register that carries the target is overwritten by the return address, or is tp. */
  lemma CarrySim(l: Layout, dead: set<int>, u: State, s: State, rd: Reg, target: Word, v: Word)
    requires Sim(l, dead, u, s) && Free(rd)
    ensures var r := if rd == ZERO then TP else rd;
            Sim(l, dead, SetR(u, rd, v), SetR(SetR(s, r, target), rd, v))
  {
    var r := if rd == ZERO then TP else rd;
    LinkSim(l, dead, u, s, rd, v);
    SetKeepsRom(l, s, r, target);
    SetKeepsRom(l, SetR(s, r, target), rd, v);
    var t, u2 := SetR(SetR(s, r, target), rd, v), SetR(u, rd, v);
    forall a: int {:trigger M8(t, a)} | a !in dead && !InCsa(l, a) ensures M8(t, a) == M8(u2, a) {
      assert M8(SetR(s, rd, v), a) == M8(u2, a);
    }
    forall q: Reg {:trigger R(t, q)} | Free(q) ensures R(t, q) == R(u2, q) {
      assert R(SetR(s, rd, v), q) == R(u2, q);
    }
  }

  lemma JumpStep(l: Layout, p: seq<Line>, base: int, dead: set<int>, c: Config, c2: Config, s: State)
    requires WellFormed(l, p) && Fits(l, p, base) && Step(l, p, base, c, c2)
    requires Sim(l, dead, c.u, s) && p[c.at].Jump?
    ensures var m := After(l, p, base, c, s);
            m.pc == Place(l, p, base, c2.at) && Sim(l, DeadStep(dead, p[c.at], c.u), c2.u, m.s)
  {
    JumpAfter(l, p, base, c, s);
    BlockIs(l, p, base, c.at);
    var line := p[c.at];
    assert LineOk(l, p, line);
    PlaceInRange(l, p, base, c2.at);
    var r := if line.rd == ZERO then TP else line.rd;
    var target := Place(l, p, base, c2.at);
    LaIs(s, r, target);
    Lands(target);
    CarrySim(l, dead, c.u, s, line.rd, target, Wrap(Place(l, p, base, c.at + 1)));
  }

  lemma JumpRegBlock(l: Layout, p: seq<Line>, base: int, k: nat)
    requires WellFormed(l, p) && k < |p| && p[k].JumpReg?
    ensures BlockAt(l, p, base, k) == Block([], Some(Jalr(p[k].rd, p[k].rs1, p[k].imm))) && Free(p[k].rd)
    ensures Free(p[k].rs1)
  {
    BlockIs(l, p, base, k);
    assert LineOk(l, p, p[k]);
  }

  lemma JumpRegStep(l: Layout, p: seq<Line>, base: int, dead: set<int>, c: Config, c2: Config, s: State)
    requires WellFormed(l, p) && Fits(l, p, base) && Step(l, p, base, c, c2)
    requires Sim(l, dead, c.u, s) && p[c.at].JumpReg?
    ensures var m := After(l, p, base, c, s);
            m.pc == Place(l, p, base, c2.at) && Sim(l, DeadStep(dead, p[c.at], c.u), c2.u, m.s)
  {
    JumpAfter(l, p, base, c, s);
    JumpRegBlock(l, p, base, c.at);
    ExecNothing(s);
    assert R(s, p[c.at].rs1) == R(c.u, p[c.at].rs1);
    LinkSim(l, dead, c.u, s, p[c.at].rd, Wrap(Place(l, p, base, c.at + 1)));
  }

  // ----- whole runs -----

  /** Each line is simulated by its code. */
  lemma StepSimulates(l: Layout, p: seq<Line>, base: int, dead: set<int>, c: Config, c2: Config, s: State)
    requires WellFormed(l, p) && Fits(l, p, base) && Step(l, p, base, c, c2)
    requires Sim(l, dead, c.u, s) && SafeStep(l, dead, p[c.at], c.u)
    ensures var m := After(l, p, base, c, s);
            m.pc == Place(l, p, base, c2.at) && Sim(l, DeadStep(dead, p[c.at], c.u), c2.u, m.s)
  {
    match p[c.at] {
      case Straight(_) => StraightStep(l, p, base, dead, c, c2, s);
      case Branch(_, _, _, _) => BranchStep(l, p, base, dead, c, c2, s);
      case Jump(_, _) => JumpStep(l, p, base, dead, c, c2, s);
      case JumpReg(_, _, _) => JumpRegStep(l, p, base, dead, c, c2, s);
    }
  }

  /** A run of the source machine that respects the assumptions, with the scratch space dead at each point. */
  ghost predicate GoodRun(l: Layout, p: seq<Line>, base: int, run: seq<Config>, dead: seq<set<int>>) {
    && |run| == |dead| > 0
    && forall k {:trigger run[k]} :: 0 <= k < |run| - 1 ==>
         && Step(l, p, base, run[k], run[k + 1])
         && SafeStep(l, dead[k], p[run[k].at], run[k].u)
         && dead[k + 1] == DeadStep(dead[k], p[run[k].at], run[k].u)
  }

  /** Every run of a label-level program is simulated, line by line, by the assembled image. */
  lemma {:induction false} RunSimulates(l: Layout, p: seq<Line>, base: int, run: seq<Config>, dead: seq<set<int>>,
        s: State)
    returns (n: nat)
    requires WellFormed(l, p) && Fits(l, p, base) && GoodRun(l, p, base, run, dead)
    requires run[0].at <= |p| && Sim(l, dead[0], run[0].u, s)
    ensures run[|run| - 1].at <= |p|
    ensures var m := Ticks(Image(l, p, base, |p|), base, Machine(Place(l, p, base, run[0].at), s), n);
            m.pc == Place(l, p, base, run[|run| - 1].at) && Sim(l, dead[|run| - 1], run[|run| - 1].u, m.s)
    decreases |run|
  {
    if |run| == 1 {
      n := 0;
    } else {
      var c, c2 := run[0], run[1];
      assert Step(l, p, base, c, c2);
      StepSimulates(l, p, base, dead[0], c, c2, s);
      var m := After(l, p, base, c, s);
      TailIsGood(l, p, base, run, dead);
      var k := RunSimulates(l, p, base, run[1..], dead[1..], m.s);
      n := Size(l, p[c.at]) + k;
      TicksAdd(Image(l, p, base, |p|), base, Machine(Place(l, p, base, c.at), s), Size(l, p[c.at]), k);
    }
  }

  lemma TailIsGood(l: Layout, p: seq<Line>, base: int, run: seq<Config>, dead: seq<set<int>>)
    requires GoodRun(l, p, base, run, dead) && |run| > 1
    ensures GoodRun(l, p, base, run[1..], dead[1..])
  {
    forall k {:trigger run[1..][k]} | 0 <= k < |run[1..]| - 1
      ensures Step(l, p, base, run[1..][k], run[1..][k + 1])
           && SafeStep(l, dead[1..][k], p[run[1..][k].at], run[1..][k].u)
           && dead[1..][k + 1] == DeadStep(dead[1..][k], p[run[1..][k].at], run[1..][k].u)
    {
      assert run[1..][k] == run[k + 1];
    }
  }
}
