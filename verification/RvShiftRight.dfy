/** shift_right_template: srl, sra, srli and srai
    (abstract-machine/tools/minirv/inst-replace.h:432-523 and 554-562). */
module RvShiftRight {
  import opened RvMachine
  import opened RvTables
  import opened RvScratch
  import opened RvBasic
  import opened RvShiftMath
  import opened RvShift

  /** The entry of byte b of the operand into a slot. */
  function KeepEntry(b: nat, n: nat): seq<Instr> { GetEntry(b) + StoreVar(TP, n) }

  lemma KeepEntryWorks(l: Layout, s: State, a: nat, x: Word, b: nat, n: nat)
    requires Ready(l, s) && a < 32 && b < 4 && R(s, S0) == RowOf(l, ShiftRight, a) && Holds(s, A, x) && B <= n <= D
    ensures var t := Exec(KeepEntry(b, n), s);
            && Keeps(l, s, t, TP, ZERO, ZERO, -4 * n, -4 * n + 4) && Ready(l, t) && Holds(t, n, Entry(x, b, a))
  {
    Pieces2(GetEntry(b), StoreVar(TP, n), s);
    GetEntryWorks(l, s, ShiftRight, a, b);
    StoreVarWorks(l, Exec(GetEntry(b), s), TP, n);
  }

  function CollectLow(): seq<Instr> { KeepEntry(1, C) + KeepEntry(0, D) }

  lemma CollectLowWorks(l: Layout, s: State, a: nat, x: Word)
    requires Ready(l, s) && a < 32 && R(s, S0) == RowOf(l, ShiftRight, a) && Holds(s, A, x)
    ensures var t := Exec(CollectLow(), s);
            && Keeps(l, s, t, TP, ZERO, ZERO, -28, -20) && Ready(l, t)
            && Holds(t, C, Entry(x, 1, a)) && Holds(t, D, Entry(x, 0, a))
  {
    Pieces2(KeepEntry(1, C), KeepEntry(0, D), s);
    KeepEntryWorks(l, s, a, x, 1, C);
    KeepEntryWorks(l, Exec(KeepEntry(1, C), s), a, x, 0, D);
  }

  function Collect(): seq<Instr> { KeepEntry(2, B) + CollectLow() }

  lemma CollectWorks(l: Layout, s: State, a: nat, x: Word)
    requires Ready(l, s) && a < 32 && R(s, S0) == RowOf(l, ShiftRight, a) && Holds(s, A, x)
    ensures var t := Exec(Collect(), s);
            && Keeps(l, s, t, TP, ZERO, ZERO, -28, -16) && Ready(l, t)
            && Holds(t, B, Entry(x, 2, a)) && Holds(t, C, Entry(x, 1, a)) && Holds(t, D, Entry(x, 0, a))
  {
    Pieces2(KeepEntry(2, B), CollectLow(), s);
    KeepEntryWorks(l, s, a, x, 2, B);
    CollectLowWorks(l, Exec(KeepEntry(2, B), s), a, x);
  }

  /** gp plus the scratch byte at off. */
  function AddTop(off: int): seq<Instr> { LoadTop(TP, off) + [ADD(GP, GP, TP)] }

  lemma AddTopWorks(l: Layout, s: State, off: int)
    requires Ready(l, s) && -28 <= off < 0 && R(s, GP) < 0x200
    ensures var t := Exec(AddTop(off), s);
            && Gives(l, s, t, GP, R(s, GP) + Top(s, off), TP, ZERO, 0, 0) && Ready(l, t)
  {
    Pieces2(LoadTop(TP, off), [ADD(GP, GP, TP)], s);
    LoadTopWorks(l, s, TP, off);
    AddWorks(l, Exec(LoadTop(TP, off), s), GP, GP, TP);
  }

  function Sum0(): seq<Instr> { LoadTop(GP, -19) + AddTop(-22) + AddTop(-25) + StoreVar(GP, D) }

  lemma Sum0Works(l: Layout, s: State, z: Byte)
    requires Ready(l, s) && Top(s, -19) + Top(s, -22) + Top(s, -25) == z
    ensures var t := Exec(Sum0(), s);
            && Keeps(l, s, t, GP, TP, ZERO, -28, -24) && Ready(l, t)
            && Top(t, -28) == z && Top(t, -27) == 0 && Top(t, -26) == 0 && Top(t, -25) == 0
  {
    Pieces4(LoadTop(GP, -19), AddTop(-22), AddTop(-25), StoreVar(GP, D), s);
    LoadTopWorks(l, s, GP, -19);
    var s1 := Exec(LoadTop(GP, -19), s);
    AddTopWorks(l, s1, -22);
    var s2 := Exec(AddTop(-22), s1);
    AddTopWorks(l, s2, -25);
    var s3 := Exec(AddTop(-25), s2);
    StoreVarWorks(l, s3, GP, D);
    SmallByte(z);
  }

  function Sum1(): seq<Instr> { LoadTop(GP, -18) + AddTop(-21) + StoreTop(GP, -27) }

  lemma Sum1Works(l: Layout, s: State, z: Byte)
    requires Ready(l, s) && Top(s, -18) + Top(s, -21) == z
    ensures var t := Exec(Sum1(), s);
            && Keeps(l, s, t, GP, TP, ZERO, -27, -26) && Ready(l, t) && Top(t, -27) == z
  {
    Pieces3(LoadTop(GP, -18), AddTop(-21), StoreTop(GP, -27), s);
    LoadTopWorks(l, s, GP, -18);
    var s1 := Exec(LoadTop(GP, -18), s);
    AddTopWorks(l, s1, -21);
    StoreTopWorks(l, Exec(AddTop(-21), s1), GP, -27);
  }

  function Sum2(): seq<Instr> { LoadTop(GP, -17) + StoreTop(GP, -26) + LoadVar(GP, D) }

  lemma Sum2Works(l: Layout, s: State, z: Word)
    requires Ready(l, s) && Top(s, -17) == ByteOf(z, 2) && Top(s, -28) == ByteOf(z, 0) && Top(s, -27) == ByteOf(z, 1)
    requires Top(s, -25) == ByteOf(z, 3)
    ensures var t := Exec(Sum2(), s);
            && Gives(l, s, t, GP, z, ZERO, ZERO, -26, -25) && Ready(l, t)
  {
    Pieces3(LoadTop(GP, -17), StoreTop(GP, -26), LoadVar(GP, D), s);
    LoadTopWorks(l, s, GP, -17);
    var s1 := Exec(LoadTop(GP, -17), s);
    StoreTopWorks(l, s1, GP, -26);
    LoadVarWorks(l, Exec(StoreTop(GP, -26), s1), GP, D, z);
  }

  function Sums(): seq<Instr> { Sum0() + Sum1() + Sum2() }

  /** The three byte sums assemble the shifted tail. */
  lemma SumsWork(l: Layout, s: State, a: nat, x: Word)
    requires Ready(l, s)
    requires Holds(s, B, Entry(x, 2, a)) && Holds(s, C, Entry(x, 1, a)) && Holds(s, D, Entry(x, 0, a))
    ensures var t := Exec(Sums(), s);
            && Gives(l, s, t, GP, Srl(Tail(x), a), TP, ZERO, -28, -24) && Ready(l, t)
  {
    Pieces3(Sum0(), Sum1(), Sum2(), s);
    ByteSums(x, a);
    var z := Srl(Tail(x), a);
    Sum0Works(l, s, ByteOf(z, 0));
    var s1 := Exec(Sum0(), s);
    Sum1Works(l, s1, ByteOf(z, 1));
    Sum2Works(l, Exec(Sum1(), s1), z);
  }

  /** The last entry, from the arithmetic table if need be. */
  function Switch(arith: bool): seq<Instr> {
    if arith then La(TP, SRA_TABLE - SRL_TABLE) + [ADD(S0, S0, TP)] else []
  }

  function OpOf(arith: bool): ShiftOp { if arith then ShiftArith else ShiftRight }

  lemma SwitchWorks(l: Layout, s: State, arith: bool, a: nat)
    requires Ready(l, s) && a < 32 && R(s, S0) == RowOf(l, ShiftRight, a)
    ensures var t := Exec(Switch(arith), s);
            && Gives(l, s, t, S0, RowOf(l, OpOf(arith), a), TP, ZERO, 0, 0) && Ready(l, t)
  {
    if arith {
      Pieces2(La(TP, SRA_TABLE - SRL_TABLE), [ADD(S0, S0, TP)], s);
      LaWorks(l, s, TP, SRA_TABLE - SRL_TABLE);
      AddWorks(l, Exec(La(TP, SRA_TABLE - SRL_TABLE), s), S0, S0, TP);
    } else {
      ExecNothing(s);
    }
  }

  function RightSum(arith: bool): seq<Instr> { Collect() + Sums() + Switch(arith) + GetEntry(3) }

  lemma RightSumWorks(l: Layout, s: State, arith: bool, a: nat, x: Word)
    requires Ready(l, s) && a < 32 && R(s, S0) == RowOf(l, ShiftRight, a) && Holds(s, A, x)
    ensures var t := Exec(RightSum(arith), s);
            && Keeps(l, s, t, S0, GP, TP, -28, -16) && Ready(l, t)
            && Wrap(R(t, GP) + R(t, TP)) == Shift(OpOf(arith), x, a)
  {
    Pieces4(Collect(), Sums(), Switch(arith), GetEntry(3), s);
    CollectWorks(l, s, a, x);
    var s1 := Exec(Collect(), s);
    SumsWork(l, s1, a, x);
    var s2 := Exec(Sums(), s1);
    SwitchWorks(l, s2, arith, a);
    GetEntryWorks(l, Exec(Switch(arith), s2), OpOf(arith), a, 3);
    if arith { SraOfParts(x, a); } else { SrlOfParts(x, a); }
  }

  /** The general path; find is the code that leaves the row's address in s0. */
  function RightBy(rd: Reg, rs1: Reg, find: seq<Instr>, arith: bool): seq<Instr> {
    ShiftHead(rs1) + find + RightSum(arith) + ShiftEnd(rd)
  }

  lemma RightByWorks(l: Layout, s: State, rd: Reg, rs1: Reg, find: seq<Instr>, arith: bool, a: nat)
    requires Ready(l, s) && a < 32
    requires var s1 := Exec(ShiftHead(rs1), s);
             var s2 := Exec(find, s1);
             Gives(l, s1, s2, S0, RowOf(l, ShiftRight, a), TP, ZERO, -20, -16) && Ready(l, s2)
    ensures var t := Exec(RightBy(rd, rs1, find, arith), s);
            && Gives(l, s, t, rd, Shift(OpOf(arith), R(s, rs1), a), GP, TP, -28, 0) && (rd != SP ==> Ready(l, t))
  {
    Pieces4(ShiftHead(rs1), find, RightSum(arith), ShiftEnd(rd), s);
    ShiftHeadWorks(l, s, rs1);
    var s2 := Exec(find, Exec(ShiftHead(rs1), s));
    RightSumWorks(l, s2, arith, a, R(s, rs1));
    ShiftEndWorks(l, Exec(RightSum(arith), s2), rd, R(s, S0));
  }

  // ----- srl and sra -----

  function RightMacro(l: Layout, rd: Reg, rs1: Reg, rs2: Reg, arith: bool): seq<Instr> {
    RightBy(rd, rs1, FindRow(l, ShiftRight, rs2), arith)
  }

  lemma RightWorks(l: Layout, s: State, rd: Reg, rs1: Reg, rs2: Reg, arith: bool)
    requires Ready(l, s)
    ensures var t := Exec(RightMacro(l, rd, rs1, rs2, arith), s);
            && Gives(l, s, t, rd, Shift(OpOf(arith), R(s, rs1), Masked(R(s, rs2))), GP, TP, -28, 0)
            && (rd != SP ==> Ready(l, t))
  {
    ShiftHeadWorks(l, s, rs1);
    FindRowWorks(l, Exec(ShiftHead(rs1), s), ShiftRight, rs2);
    RightByWorks(l, s, rd, rs1, FindRow(l, ShiftRight, rs2), arith, Masked(R(s, rs2)));
  }

  // ----- srli and srai -----

  /** Shifting by 24 needs the top byte alone. */
  lemma TopOfTail(x: Word)
    ensures Srl(Tail(x), 24) == 0 && Srl(Placed(x, 3), 24) == ByteOf(x, 3)
  {
    Bits.Pow2Small();
    Bits.Pow2Add(8, 16);
    Bits.SmallIsLow(Tail(x), 24);
    PlacedIsShl(x, 3);
    Bits.SplitUnique(ByteOf(x, 3), 0, 24);
  }

  lemma TopAlone(x: Word)
    ensures Srl(x, 24) == ByteOf(x, 3)
    ensures Sra(x, 24) == ShiftEntry(ShiftArith, 24, ByteOf(x, 3))
  {
    TopOfTail(x);
    SrlOfParts(x, 24);
    SraOfParts(x, 24);
  }

  /** srai by 24 starts with the operand's top byte, times four, in rd and the row in tp. */
  function TopHead(l: Layout, rd: Reg, rs1: Reg): seq<Instr> {
    StoreVar(rs1, A) + La(TP, RowOf(l, ShiftArith, 24)) + LoadTop(rd, -13) + Slli(rd, rd, 2)
  }

  lemma TopHeadWorks(l: Layout, s: State, rd: Reg, rs1: Reg)
    requires Ready(l, s) && rd != TP
    ensures var t := Exec(TopHead(l, rd, rs1), s);
            && Gives(l, s, t, rd, 4 * ByteOf(R(s, rs1), 3), TP, ZERO, -16, -12)
            && R(t, TP) == RowOf(l, ShiftArith, 24)
  {
    var row := RowOf(l, ShiftArith, 24);
    Pieces4(StoreVar(rs1, A), La(TP, row), LoadTop(rd, -13), Slli(rd, rd, 2), s);
    StoreVarWorks(l, s, rs1, A);
    var s1 := Exec(StoreVar(rs1, A), s);
    LaWorks(l, s1, TP, row);
    var s2 := Exec(La(TP, row), s1);
    LoadTopWorks(l, s2, rd, -13);
    var s3 := Exec(LoadTop(rd, -13), s2);
    SlliSmallWorks(l, s3, rd, rd, 2);
    TimesFour(ByteOf(R(s, rs1), 3));
  }

  function SignedTop(l: Layout, rd: Reg, rs1: Reg): seq<Instr> {
    TopHead(l, rd, rs1) + [ADD(TP, TP, rd)] + [LW(rd, 0, TP)]
  }

  lemma SignedTopWorks(l: Layout, s: State, rd: Reg, rs1: Reg)
    requires Ready(l, s) && rd != TP
    ensures Gives(l, s, Exec(SignedTop(l, rd, rs1), s), rd, Sra(R(s, rs1), 24), TP, ZERO, -16, -12)
  {
    Pieces3(TopHead(l, rd, rs1), [ADD(TP, TP, rd)], [LW(rd, 0, TP)], s);
    TopHeadWorks(l, s, rd, rs1);
    var s1 := Exec(TopHead(l, rd, rs1), s);
    AddWorks(l, s1, TP, TP, rd);
    var s2 := Exec([ADD(TP, TP, rd)], s1);
    LwWorks(l, s2, rd, 0, TP);
    TopAlone(R(s, rs1));
    RomWord(l, s2, ShiftArith, 24, ByteOf(R(s, rs1), 3));
  }

  function RightImm(l: Layout, rd: Reg, rs1: Reg, imm: nat, arith: bool): seq<Instr> {
    if imm == 24 && arith then SignedTop(l, rd, rs1)
    else if imm == 24 then GetByte(rd, rs1, 3)
    else RightBy(rd, rs1, La(S0, RowOf(l, ShiftRight, imm)), arith)
  }

  lemma RightImmWorks(l: Layout, s: State, rd: Reg, rs1: Reg, imm: nat, arith: bool)
    requires Ready(l, s) && imm < 32 && rd != TP
    ensures Gives(l, s, Exec(RightImm(l, rd, rs1, imm, arith), s), rd, Shift(OpOf(arith), R(s, rs1), imm), GP, TP,
            -28, 0)
  {
    if imm == 24 && arith {
      SignedTopWorks(l, s, rd, rs1);
    } else if imm == 24 {
      GetByteWorks(l, s, rd, rs1, 3);
      TopAlone(R(s, rs1));
    } else {
      ShiftHeadWorks(l, s, rs1);
      LaWorks(l, Exec(ShiftHead(rs1), s), S0, RowOf(l, ShiftRight, imm));
      RightByWorks(l, s, rd, rs1, La(S0, RowOf(l, ShiftRight, imm)), arith, imm);
    }
  }
}
