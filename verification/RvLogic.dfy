/** and, or and xor by 256 x 256 byte tables (abstract-machine/tools/minirv/inst-replace.h:165-211). */
module RvLogic {
  import opened Bits
  import opened RvMachine
  import opened RvTables
  import opened RvScratch
  import opened Options

  function LogicWord(op: LogicOp, x: Word, y: Word): Word {
    BitwiseBound(op, x, y, 32);
    Pow2At32();
    Bitwise(op, x, y, 32)
  }

  // ----- a word operation acts byte by byte -----

  lemma {:induction false} ShrOfBitwise(op: LogicOp, x: nat, y: nat, n: nat, k: nat)
    ensures Shr(Bitwise(op, x, y, k + n), k) == Bitwise(op, Shr(x, k), Shr(y, k), n)
  {
    if k > 0 {
      ShrOfBitwise(op, x / 2, y / 2, n, k - 1);
    }
  }

  lemma {:induction false} LowOfBitwise(op: LogicOp, x: nat, y: nat, n: nat, k: nat)
    ensures Low(Bitwise(op, x, y, k + n), k) == Bitwise(op, Low(x, k), Low(y, k), k)
  {
    if k > 0 {
      LowOfBitwise(op, x / 2, y / 2, n, k - 1);
      LowStep(x, k);
      LowStep(y, k);
    }
  }

  lemma ByteIsLow(w: Word, k: nat)
    ensures ByteOf(w, k) == Low(Shr(w, 8 * k), 8)
  {
    ByteOfIs(w, k);
    ShrIsDiv(Shr(w, 8 * k), 8);
    Pow2Small();
  }

  lemma LogicOfBytes(op: LogicOp, x: Word, y: Word, k: nat)
    requires k < 4
    ensures ByteOf(LogicWord(op, x, y), k) == LogicByte(op, ByteOf(x, k), ByteOf(y, k))
  {
    ByteIsLow(LogicWord(op, x, y), k);
    ByteIsLow(x, k);
    ByteIsLow(y, k);
    var n: nat := 32 - 8 * k;
    ShrOfBitwise(op, x, y, n, 8 * k);
    LowOfBitwise(op, Shr(x, 8 * k), Shr(y, 8 * k), n - 8, 8);
    LogicByteIs(op, ByteOf(x, k), ByteOf(y, k));
  }

  // ----- the macro -----

  /** Puts the row and column of byte b into tp, through slot D. */
  function FetchIndex(b: nat): seq<Instr> {
    LoadTop(TP, -16 + b) + StoreTop(TP, -27) + LoadTop(TP, -20 + b) + StoreTop(TP, -28) + LoadVar(TP, D)
  }

  lemma FetchIndexWorks(l: Layout, s: State, b: nat)
    requires Ready(l, s) && b < 4 && Top(s, -26) == 0 && Top(s, -25) == 0
    ensures var t := Exec(FetchIndex(b), s);
            && Gives(l, s, t, TP, 0x100 * Top(s, -16 + b) + Top(s, -20 + b), ZERO, ZERO, -28, -26) && Ready(l, t)
  {
    Pieces5(LoadTop(TP, -16 + b), StoreTop(TP, -27), LoadTop(TP, -20 + b), StoreTop(TP, -28), LoadVar(TP, D), s);
    LoadTopWorks(l, s, TP, -16 + b);
    var s1 := Exec(LoadTop(TP, -16 + b), s);
    StoreTopWorks(l, s1, TP, -27);
    var s2 := Exec(StoreTop(TP, -27), s1);
    LoadTopWorks(l, s2, TP, -20 + b);
    var s3 := Exec(LoadTop(TP, -20 + b), s2);
    StoreTopWorks(l, s3, TP, -28);
    var s4 := Exec(StoreTop(TP, -28), s3);
    PairHolds(s4, Top(s, -16 + b), Top(s, -20 + b));
    LoadVarWorks(l, s4, TP, D, 0x100 * Top(s, -16 + b) + Top(s, -20 + b));
  }

  lemma PairHolds(s: State, x: Byte, y: Byte)
    requires Top(s, -27) == x && Top(s, -28) == y && Top(s, -26) == 0 && Top(s, -25) == 0
    ensures Holds(s, D, 0x100 * x + y)
  {
    BytesDetermineWord(0x100 * x + y, y, x, 0, 0);
  }

  function LookUp(rd: Reg, b: nat): seq<Instr> {
    [ADD(TP, rd, TP)] + [LBU(TP, 0, TP)] + StoreTop(TP, -24 + b)
  }

  lemma LookUpWorks(l: Layout, s: State, op: LogicOp, rd: Reg, b: nat, x: Byte, y: Byte)
    requires Ready(l, s) && b < 4 && R(s, TP) == 0x100 * x + y && R(s, rd) == l.rom + LUT + TableOf(op)
    ensures var t := Exec(LookUp(rd, b), s);
            && Keeps(l, s, t, TP, ZERO, ZERO, -24 + b, -24 + b + 1) && Ready(l, t)
            && Top(t, -24 + b) == LogicByte(op, x, y)
  {
    Pieces3([ADD(TP, rd, TP)], [LBU(TP, 0, TP)], StoreTop(TP, -24 + b), s);
    AddWorks(l, s, TP, rd, TP);
    var s1 := Exec([ADD(TP, rd, TP)], s);
    LbuWorks(l, s1, TP, 0, TP);
    RomLogic(l, s1, op, x, y);
    StoreTopWorks(l, Exec([LBU(TP, 0, TP)], s1), TP, -24 + b);
  }

  function OneByte(rd: Reg, b: nat): seq<Instr> { FetchIndex(b) + LookUp(rd, b) }

  lemma OneByteWorks(l: Layout, s: State, op: LogicOp, rd: Reg, b: nat)
    requires Ready(l, s) && b < 4 && Top(s, -26) == 0 && Top(s, -25) == 0
    requires R(s, rd) == l.rom + LUT + TableOf(op) && rd != TP
    ensures var t := Exec(OneByte(rd, b), s);
            && Keeps(l, s, t, TP, ZERO, ZERO, -28, -20) && Ready(l, t)
            && Top(t, -26) == 0 && Top(t, -25) == 0
            && Top(t, -24 + b) == LogicByte(op, Top(s, -16 + b), Top(s, -20 + b))
            && (forall j: int {:trigger M8(t, j)} ::
                  R(s, SP) - 24 <= j < R(s, SP) - 20 && j != R(s, SP) - 24 + b ==> M8(t, j) == M8(s, j))
  {
    Pieces2(FetchIndex(b), LookUp(rd, b), s);
    FetchIndexWorks(l, s, b);
    LookUpWorks(l, Exec(FetchIndex(b), s), op, rd, b, Top(s, -16 + b), Top(s, -20 + b));
  }

  function FourBytes(rd: Reg): seq<Instr> { OneByte(rd, 3) + OneByte(rd, 2) + OneByte(rd, 1) + OneByte(rd, 0) }

  /** Bytes b + 1 and b. */
  lemma TwoBytesWork(l: Layout, s: State, op: LogicOp, rd: Reg, b: nat)
    requires Ready(l, s) && b < 3 && Top(s, -26) == 0 && Top(s, -25) == 0
    requires R(s, rd) == l.rom + LUT + TableOf(op) && rd != TP
    ensures var t := Exec(OneByte(rd, b), Exec(OneByte(rd, b + 1), s));
            && Keeps(l, s, t, TP, ZERO, ZERO, -28, -20) && Ready(l, t)
            && Top(t, -26) == 0 && Top(t, -25) == 0
            && Top(t, -24 + b) == LogicByte(op, Top(s, -16 + b), Top(s, -20 + b))
            && Top(t, -24 + (b + 1)) == LogicByte(op, Top(s, -16 + (b + 1)), Top(s, -20 + (b + 1)))
            && (b == 0 ==> Top(t, -22) == Top(s, -22) && Top(t, -21) == Top(s, -21))
  {
    OneByteWorks(l, s, op, rd, b + 1);
    OneByteWorks(l, Exec(OneByte(rd, b + 1), s), op, rd, b);
  }

  lemma FourBytesWork(l: Layout, s: State, op: LogicOp, rd: Reg, x: Word, y: Word)
    requires Ready(l, s) && Holds(s, A, x) && Holds(s, B, y) && Top(s, -26) == 0 && Top(s, -25) == 0
    requires R(s, rd) == l.rom + LUT + TableOf(op) && rd != TP
    ensures var t := Exec(FourBytes(rd), s);
            && Keeps(l, s, t, TP, ZERO, ZERO, -28, -20) && Ready(l, t)
            && Top(t, -24) == LogicByte(op, ByteOf(x, 0), ByteOf(y, 0))
            && Top(t, -23) == LogicByte(op, ByteOf(x, 1), ByteOf(y, 1))
            && Top(t, -22) == LogicByte(op, ByteOf(x, 2), ByteOf(y, 2))
            && Top(t, -21) == LogicByte(op, ByteOf(x, 3), ByteOf(y, 3))
  {
    Pieces4(OneByte(rd, 3), OneByte(rd, 2), OneByte(rd, 1), OneByte(rd, 0), s);
    TwoBytesWork(l, s, op, rd, 2);
    var s2 := Exec(OneByte(rd, 2), Exec(OneByte(rd, 3), s));
    TwoBytesWork(l, s2, op, rd, 0);
  }

  lemma LogicHolds(t: State, op: LogicOp, x: Word, y: Word)
    requires Top(t, -24) == LogicByte(op, ByteOf(x, 0), ByteOf(y, 0))
    requires Top(t, -23) == LogicByte(op, ByteOf(x, 1), ByteOf(y, 1))
    requires Top(t, -22) == LogicByte(op, ByteOf(x, 2), ByteOf(y, 2))
    requires Top(t, -21) == LogicByte(op, ByteOf(x, 3), ByteOf(y, 3))
    ensures Holds(t, C, LogicWord(op, x, y))
  {
    LogicOfBytes(op, x, y, 0);
    LogicOfBytes(op, x, y, 1);
    LogicOfBytes(op, x, y, 2);
    LogicOfBytes(op, x, y, 3);
  }

  function LogicHead(l: Layout, op: LogicOp, rd: Reg, rs1: Reg, rs2: Reg): seq<Instr> {
    StoreVar(rs1, A) + StoreVar(rs2, B) + La(rd, l.rom + LUT + TableOf(op)) + StoreVar(ZERO, D)
  }

  lemma LogicHeadWorks(l: Layout, s: State, op: LogicOp, rd: Reg, rs1: Reg, rs2: Reg)
    requires Ready(l, s) && rd != SP && rd != ZERO
    ensures var t := Exec(LogicHead(l, op, rd, rs1, rs2), s);
            && Keeps(l, s, t, rd, ZERO, ZERO, -28, -12) && Ready(l, t) && R(t, rd) == l.rom + LUT + TableOf(op)
            && Holds(t, A, R(s, rs1)) && Holds(t, B, R(s, rs2)) && Top(t, -26) == 0 && Top(t, -25) == 0
  {
    var table := l.rom + LUT + TableOf(op);
    Pieces4(StoreVar(rs1, A), StoreVar(rs2, B), La(rd, table), StoreVar(ZERO, D), s);
    StoreVarWorks(l, s, rs1, A);
    var s1 := Exec(StoreVar(rs1, A), s);
    StoreVarWorks(l, s1, rs2, B);
    var s2 := Exec(StoreVar(rs2, B), s1);
    LaWorks(l, s2, rd, table);
    StoreVarWorks(l, Exec(La(rd, table), s2), ZERO, D);
    SmallByte(0);
  }

  /** The macro refuses to assemble when it would overwrite its own operands. */
  predicate Aborts(rd: Reg, rs1: Reg, rs2: Reg) {
    || rd == SP || rs1 == SP || rs2 == SP
    || rd == GP || rs1 == GP || rs2 == GP
    || rd == TP || rs1 == TP
  }

  function Logic(l: Layout, op: LogicOp, rd: Reg, rs1: Reg, rs2: Reg): Option<seq<Instr>> {
    if rd == ZERO then Some([])
    else if Aborts(rd, rs1, rs2) then None
    else Some(LogicHead(l, op, rd, rs1, rs2) + FourBytes(rd) + LoadVar(rd, C))
  }

  /** It assembles for x0 as destination, and otherwise exactly without sp, gp and tp, except that the
      second operand may be tp. */
  lemma LogicAssembles(l: Layout, op: LogicOp, rd: Reg, rs1: Reg, rs2: Reg)
    ensures Logic(l, op, rd, rs1, rs2).Some? <==>
              rd == 0 || (rd !in {2, 3, 4} && rs1 !in {2, 3, 4} && rs2 !in {2, 3})
  {}

  /** Whenever it assembles, the macro computes the 32-bit operation. */
  lemma LogicWorks(l: Layout, s: State, op: LogicOp, rd: Reg, rs1: Reg, rs2: Reg)
    requires Ready(l, s) && Logic(l, op, rd, rs1, rs2).Some?
    ensures var t := Exec(Logic(l, op, rd, rs1, rs2).value, s);
            && Gives(l, s, t, rd, LogicWord(op, R(s, rs1), R(s, rs2)), TP, ZERO, -28, -12) && Ready(l, t)
  {
    if rd == ZERO {
      ExecNothing(s);
    } else {
      Pieces3(LogicHead(l, op, rd, rs1, rs2), FourBytes(rd), LoadVar(rd, C), s);
      LogicHeadWorks(l, s, op, rd, rs1, rs2);
      var s1 := Exec(LogicHead(l, op, rd, rs1, rs2), s);
      FourBytesWork(l, s1, op, rd, R(s, rs1), R(s, rs2));
      LogicHolds(Exec(FourBytes(rd), s1), op, R(s, rs1), R(s, rs2));
      LoadVarWorks(l, Exec(FourBytes(rd), s1), rd, C, LogicWord(op, R(s, rs1), R(s, rs2)));
    }
  }
}
