/** The riscv32 decoding table: no instruction word matches two of its patterns, so that the order of
    the table does not matter (nemu/src/isa/riscv32/inst.c:77-166). */
module RiscvTable {
  import opened Options
  import opened Bits
  import opened Decode

  datatype Name =
    | Auipc | Lui | Lbu | Lb | Lh | Lw | Lhu | Sltiu | Srli | Slli | Srai | Sb | Sh | Sw | Add | Fence
    | Sll | Slt | Sltu | Xor | Srl | Sra | Or | And | Sub | Mul | Mulh | Mulhsu | Mulhu | Div | Divu | Rem | Remu
    | Addi | Slti | Xori | Ori | Andi | Jalr | Jal | Bne | Beq | Blt | Bge | Bltu | Bgeu
    | Ebreak | Ecall | Csrrw | Csrrs | Mret

  /** The six space-separated parts of a pattern before its final "11". */
  datatype Row = Row(funct7: string, rs2: string, rs1: string, funct3: string, rd: string, opcode: string)

  const ANY7: string := "???????"
  const ANY5: string := "?????"
  const ANY3: string := "???"

  /** An operand format without fixed bits beyond opcode and funct3. */
  function Wide(funct3: string, opcode: string): Row { Row(ANY7, ANY5, ANY5, funct3, ANY5, opcode) }

  function Narrow(funct7: string, funct3: string, opcode: string): Row {
    Row(funct7, ANY5, ANY5, funct3, ANY5, opcode)
  }

  predicate IsArithmetic(n: Name) {
    n.Add? || n.Sll? || n.Slt? || n.Sltu? || n.Xor? || n.Srl? || n.Sra? || n.Or? || n.And? || n.Sub?
  }

  predicate IsMultiplication(n: Name) {
    n.Mul? || n.Mulh? || n.Mulhsu? || n.Mulhu? || n.Div? || n.Divu? || n.Rem? || n.Remu?
  }

  predicate IsImmediate(n: Name) {
    n.Addi? || n.Slti? || n.Sltiu? || n.Xori? || n.Ori? || n.Andi?
  }

  predicate IsShiftImmediate(n: Name) { n.Slli? || n.Srli? || n.Srai? }

  predicate IsMemory(n: Name) { n.Lb? || n.Lh? || n.Lw? || n.Lbu? || n.Lhu? || n.Sb? || n.Sh? || n.Sw? }

  predicate IsBranch(n: Name) { n.Bne? || n.Beq? || n.Blt? || n.Bge? || n.Bltu? || n.Bgeu? }

  predicate IsOther(n: Name) {
    && !IsArithmetic(n) && !IsMultiplication(n) && !IsImmediate(n) && !IsShiftImmediate(n)
    && !IsMemory(n) && !IsBranch(n)
  }

  function ArithmeticRow(n: Name): Row
    requires IsArithmetic(n)
  {
    match n
    case Add => Narrow("0000000", "000", "01100")
    case Sll => Narrow("0000000", "001", "01100")
    case Slt => Narrow("0000000", "010", "01100")
    case Sltu => Narrow("0000000", "011", "01100")
    case Xor => Narrow("0000000", "100", "01100")
    case Srl => Narrow("0000000", "101", "01100")
    case Sra => Narrow("0100000", "101", "01100")
    case Or => Narrow("0000000", "110", "01100")
    case And => Narrow("0000000", "111", "01100")
    case Sub => Narrow("0100000", "000", "01100")
  }

  function MultiplicationRow(n: Name): Row
    requires IsMultiplication(n)
  {
    match n
    case Mul => Narrow("0000001", "000", "01100")
    case Mulh => Narrow("0000001", "001", "01100")
    case Mulhsu => Narrow("0000001", "010", "01100")
    case Mulhu => Narrow("0000001", "011", "01100")
    case Div => Narrow("0000001", "100", "01100")
    case Divu => Narrow("0000001", "101", "01100")
    case Rem => Narrow("0000001", "110", "01100")
    case Remu => Narrow("0000001", "111", "01100")
  }

  function ImmediateRow(n: Name): Row
    requires IsImmediate(n)
  {
    match n
    case Sltiu => Wide("011", "00100")
    case Addi => Wide("000", "00100")
    case Slti => Wide("010", "00100")
    case Xori => Wide("100", "00100")
    case Ori => Wide("110", "00100")
    case Andi => Wide("111", "00100")
  }

  function ShiftImmediateRow(n: Name): Row
    requires IsShiftImmediate(n)
  {
    match n
    case Srli => Narrow("0000000", "101", "00100")
    case Slli => Narrow("0000000", "001", "00100")
    case Srai => Narrow("0100000", "101", "00100")
  }

  function MemoryRow(n: Name): Row
    requires IsMemory(n)
  {
    match n
    case Lbu => Wide("100", "00000")
    case Lb => Wide("000", "00000")
    case Lh => Wide("001", "00000")
    case Lw => Wide("010", "00000")
    case Lhu => Wide("101", "00000")
    case Sb => Wide("000", "01000")
    case Sh => Wide("001", "01000")
    case Sw => Wide("010", "01000")
  }

  function BranchRow(n: Name): Row
    requires IsBranch(n)
  {
    match n
    case Bne => Wide("001", "11000")
    case Beq => Wide("000", "11000")
    case Blt => Wide("100", "11000")
    case Bge => Wide("101", "11000")
    case Bltu => Wide("110", "11000")
    case Bgeu => Wide("111", "11000")
  }

  function OtherRow(n: Name): Row
    requires IsOther(n)
  {
    match n
    case Auipc => Wide(ANY3, "00101")
    case Lui => Wide(ANY3, "01101")
    case Fence => Wide("001", "00011")
    case Jalr => Wide("000", "11001")
    case Jal => Wide(ANY3, "11011")
    case Ebreak => Row("0000000", "00001", "00000", "000", "00000", "11100")
    case Ecall => Row("0000000", "00000", "00000", "000", "00000", "11100")
    case Csrrw => Wide("001", "11100")
    case Csrrs => Wide("010", "11100")
    case Mret => Row("0011000", "00010", "00000", "000", "00000", "11100")
  }

  function RowOf(n: Name): Row {
    if IsArithmetic(n) then ArithmeticRow(n)
    else if IsMultiplication(n) then MultiplicationRow(n)
    else if IsImmediate(n) then ImmediateRow(n)
    else if IsShiftImmediate(n) then ShiftImmediateRow(n)
    else if IsMemory(n) then MemoryRow(n)
    else if IsBranch(n) then BranchRow(n)
    else OtherRow(n)
  }

  /** The 32 bits of a pattern. */
  function BitsOf(r: Row): string { r.funct7 + r.rs2 + r.rs1 + r.funct3 + r.rd + r.opcode + "11" }

  // ----- the fields of an instruction word -----

  function Opcode(x: nat): nat { Low(Shr(x, 2), 5) }
  function Funct3(x: nat): nat { Low(Shr(x, 12), 3) }
  function Rs2(x: nat): nat { Low(Shr(x, 20), 5) }
  function Funct7(x: nat): nat { Low(Shr(x, 25), 7) }

  /** A field without question marks, folded so that proofs about the table see only the lemmas. */
  predicate Digits(f: string) { FoldedDigits(f, 1) }

  predicate FoldedDigits(f: string, folds: nat)
    decreases folds, f
  {
    if folds > 0 then FoldedDigits(f, folds - 1) else forall i :: 0 <= i < |f| ==> f[i] == '0' || f[i] == '1'
  }

  lemma DigitsIs(f: string)
    ensures Digits(f) <==> forall i :: 0 <= i < |f| ==> f[i] == '0' || f[i] == '1'
  {
    assert FoldedDigits(f, 1) == FoldedDigits(f, 0);
  }

  /** A field inside a pattern, with what agrees on its left. */
  lemma FieldAgrees(left: string, f: string, x: nat)
    requires Agrees(left + f, x)
    ensures Agrees(left, Shr(x, |f|))
    ensures Digits(f) ==> Low(x, |f|) == KeyOf(f)
  {
    AgreesAppend(left, f, x);
    if Digits(f) { DigitsIs(f); FixedField(f, x); }
  }

  /** Agreement with a pattern fixes the fields that the pattern spells out. */
  lemma FieldsAgree(r: Row, x: nat)
    requires Sized(r) && Agrees(BitsOf(r), x)
    ensures FieldsFit(r, x)
  {
    FieldAgrees(r.funct7 + r.rs2 + r.rs1 + r.funct3 + r.rd + r.opcode, "11", x);
    FieldAgrees(r.funct7 + r.rs2 + r.rs1 + r.funct3 + r.rd, r.opcode, Shr(x, 2));
    ShrShr(x, 2, 5);
    FieldAgrees(r.funct7 + r.rs2 + r.rs1 + r.funct3, r.rd, Shr(x, 7));
    ShrShr(x, 7, 5);
    FieldAgrees(r.funct7 + r.rs2 + r.rs1, r.funct3, Shr(x, 12));
    ShrShr(x, 12, 3);
    FieldAgrees(r.funct7 + r.rs2, r.rs1, Shr(x, 15));
    ShrShr(x, 15, 5);
    FieldAgrees(r.funct7, r.rs2, Shr(x, 20));
    ShrShr(x, 20, 5);
    assert [] + r.funct7 == r.funct7;
    FieldAgrees([], r.funct7, Shr(x, 25));
  }

  function One(c: char): nat { if c == '1' then 1 else 0 }

  lemma KeyStep(s: string, k: nat)
    requires k < |s|
    ensures KeyOf(s[..k + 1]) == 2 * KeyOf(s[..k]) + One(s[k])
  {
    assert s[..k + 1][..k] == s[..k];
  }

  lemma Key3(s: string)
    requires |s| == 3
    ensures KeyOf(s) == 4 * One(s[0]) + 2 * One(s[1]) + One(s[2])
  {
    KeyStep(s, 0);
    KeyStep(s, 1);
    KeyStep(s, 2);
    assert s[..3] == s && s[..0] == [];
  }

  lemma Key5(s: string)
    requires |s| == 5
    ensures KeyOf(s) == 16 * One(s[0]) + 8 * One(s[1]) + 4 * One(s[2]) + 2 * One(s[3]) + One(s[4])
  {
    Key3(s[..3]);
    KeyStep(s, 3);
    KeyStep(s, 4);
    assert s[..5] == s;
  }

  lemma Key7(s: string)
    requires |s| == 7
    ensures KeyOf(s) == 64 * One(s[0]) + 32 * One(s[1]) + 16 * One(s[2]) + 8 * One(s[3]) + 4 * One(s[4])
            + 2 * One(s[5]) + One(s[6])
  {
    Key5(s[..5]);
    KeyStep(s, 5);
    KeyStep(s, 6);
    assert s[..7] == s;
  }

  // ----- the decision tree -----

  function Arithmetic(f3: nat, f7: nat): Name {
    if f7 == 0 then
      if f3 == 0 then Add else if f3 == 1 then Sll else if f3 == 2 then Slt else if f3 == 3 then Sltu
      else if f3 == 4 then Xor else if f3 == 5 then Srl else if f3 == 6 then Or else And
    else if f7 == 1 then
      if f3 == 0 then Mul else if f3 == 1 then Mulh else if f3 == 2 then Mulhsu else if f3 == 3 then Mulhu
      else if f3 == 4 then Div else if f3 == 5 then Divu else if f3 == 6 then Rem else Remu
    else if f3 == 0 then Sub else Sra
  }

  function Immediate(f3: nat, f7: nat): Name {
    if f3 == 0 then Addi else if f3 == 1 then Slli else if f3 == 2 then Slti else if f3 == 3 then Sltiu
    else if f3 == 4 then Xori else if f3 == 5 then (if f7 == 0 then Srli else Srai) else if f3 == 6 then Ori else Andi
  }

  function Memory(op: nat, f3: nat): Name {
    if op == 0 then
      if f3 == 0 then Lb else if f3 == 1 then Lh else if f3 == 2 then Lw else if f3 == 4 then Lbu else Lhu
    else if f3 == 0 then Sb else if f3 == 1 then Sh else Sw
  }

  function Control(op: nat, f3: nat, rs2: nat): Name {
    if op == 24 then
      if f3 == 0 then Beq else if f3 == 1 then Bne else if f3 == 4 then Blt else if f3 == 5 then Bge
      else if f3 == 6 then Bltu else Bgeu
    else if f3 == 1 then Csrrw else if f3 == 2 then Csrrs
    else if rs2 == 0 then Ecall else if rs2 == 1 then Ebreak else Mret
  }

  /** The instruction that a word can be, from four of its fields. */
  function Tree(x: nat): Name {
    var op, f3, f7, rs2 := Opcode(x), Funct3(x), Funct7(x), Rs2(x);
    if op == 5 then Auipc else if op == 13 then Lui else if op == 3 then Fence else if op == 25 then Jalr
    else if op == 27 then Jal else if op == 12 then Arithmetic(f3, f7) else if op == 4 then Immediate(f3, f7)
    else if op == 0 || op == 8 then Memory(op, f3) else Control(op, f3, rs2)
  }

  /** A field that is spelled out, with its value. */
  predicate Spells(f: string, v: nat) { Digits(f) && KeyOf(f) == v }

  lemma DataOpcodes()
    ensures Spells("00101", 5)
    ensures Spells("01101", 13)
    ensures Spells("00000", 0)
    ensures Spells("00100", 4)
    ensures Spells("01000", 8)
    ensures Spells("01100", 12)
    ensures Spells("00011", 3)
  {
    DigitsIs("00101");
    Key5("00101");
    DigitsIs("01101");
    Key5("01101");
    DigitsIs("00000");
    Key5("00000");
    DigitsIs("00100");
    Key5("00100");
    DigitsIs("01000");
    Key5("01000");
    DigitsIs("01100");
    Key5("01100");
    DigitsIs("00011");
    Key5("00011");
  }

  lemma ControlOpcodes()
    ensures Spells("11001", 25)
    ensures Spells("11011", 27)
    ensures Spells("11000", 24)
    ensures Spells("11100", 28)
    ensures Spells("00001", 1)
    ensures Spells("00010", 2)
  {
    DigitsIs("11001");
    Key5("11001");
    DigitsIs("11011");
    Key5("11011");
    DigitsIs("11000");
    Key5("11000");
    DigitsIs("11100");
    Key5("11100");
    DigitsIs("00001");
    Key5("00001");
    DigitsIs("00010");
    Key5("00010");
  }

  lemma Functs3()
    ensures Spells("000", 0)
    ensures Spells("001", 1)
    ensures Spells("010", 2)
    ensures Spells("011", 3)
    ensures Spells("100", 4)
    ensures Spells("101", 5)
    ensures Spells("110", 6)
    ensures Spells("111", 7)
  {
    DigitsIs("000");
    Key3("000");
    DigitsIs("001");
    Key3("001");
    DigitsIs("010");
    Key3("010");
    DigitsIs("011");
    Key3("011");
    DigitsIs("100");
    Key3("100");
    DigitsIs("101");
    Key3("101");
    DigitsIs("110");
    Key3("110");
    DigitsIs("111");
    Key3("111");
  }

  lemma Functs7()
    ensures Spells("0000000", 0)
    ensures Spells("0000001", 1)
    ensures Spells("0100000", 32)
    ensures Spells("0011000", 24)
  {
    DigitsIs("0000000");
    Key7("0000000");
    DigitsIs("0000001");
    Key7("0000001");
    DigitsIs("0100000");
    Key7("0100000");
    DigitsIs("0011000");
    Key7("0011000");
  }

  predicate Sized(r: Row) {
    |r.funct7| == 7 && |r.rs2| == |r.rs1| == |r.rd| == |r.opcode| == 5 && |r.funct3| == 3
  }

  /** A word has in its fields what a pattern spells out. */
  ghost predicate FieldsFit(r: Row, x: nat) {
    && (Digits(r.opcode) ==> Opcode(x) == KeyOf(r.opcode)) && (Digits(r.funct3) ==> Funct3(x) == KeyOf(r.funct3))
    && (Digits(r.rs2) ==> Rs2(x) == KeyOf(r.rs2)) && (Digits(r.funct7) ==> Funct7(x) == KeyOf(r.funct7))
  }

  lemma MultiplicationFound(n: Name, x: nat)
    requires IsMultiplication(n) && FieldsFit(MultiplicationRow(n), x)
    ensures Tree(x) == n
  {
    assert Spells("01100", 12) by { DataOpcodes(); }
    Functs3();
    Functs7();
  }

  lemma ArithmeticFound(n: Name, x: nat)
    requires IsArithmetic(n) && FieldsFit(ArithmeticRow(n), x)
    ensures Tree(x) == n
  {
    assert Spells("01100", 12) by { DataOpcodes(); }
    Functs3();
    Functs7();
  }

  lemma ImmediateFound(n: Name, x: nat)
    requires IsImmediate(n) && FieldsFit(ImmediateRow(n), x)
    ensures Tree(x) == n
  {
    assert Spells("00100", 4) by { DataOpcodes(); }
    Functs3();
  }

  lemma ShiftImmediateFound(n: Name, x: nat)
    requires IsShiftImmediate(n) && FieldsFit(ShiftImmediateRow(n), x)
    ensures Tree(x) == n
  {
    DataOpcodes();
    Functs3();
    Functs7();
  }

  lemma MemoryFound(n: Name, x: nat)
    requires IsMemory(n) && FieldsFit(MemoryRow(n), x)
    ensures Tree(x) == n
  {
    DataOpcodes();
    Functs3();
  }

  lemma BranchFound(n: Name, x: nat)
    requires IsBranch(n) && FieldsFit(BranchRow(n), x)
    ensures Tree(x) == n
  {
    assert Spells("11000", 24) by { ControlOpcodes(); }
    Functs3();
  }

  lemma OtherFound(n: Name, x: nat)
    requires IsOther(n) && FieldsFit(OtherRow(n), x)
    ensures Tree(x) == n
  {
    DataOpcodes();
    ControlOpcodes();
    Functs3();
  }

  predicate Field(f: string) { f == ANY7 || f == ANY5 || f == ANY3 || Digits(f) }

  predicate LegalFields(r: Row) {
    Field(r.funct7) && Field(r.rs2) && Field(r.rs1) && Field(r.funct3) && Field(r.rd) && Field(r.opcode)
  }

  predicate WellFormed(r: Row) { Sized(r) && LegalFields(r) }

  lemma ArithmeticForm(n: Name)
    requires IsArithmetic(n)
    ensures WellFormed(ArithmeticRow(n))
  {
    assert Spells("01100", 12) by { DataOpcodes(); }
    Functs3();
    Functs7();
  }

  lemma MultiplicationForm(n: Name)
    requires IsMultiplication(n)
    ensures WellFormed(MultiplicationRow(n))
  {
    assert Spells("01100", 12) by { DataOpcodes(); }
    Functs3();
    Functs7();
  }

  lemma ImmediateForm(n: Name)
    requires IsImmediate(n)
    ensures WellFormed(ImmediateRow(n))
  {
    assert Spells("00100", 4) by { DataOpcodes(); }
    Functs3();
  }

  lemma ShiftImmediateForm(n: Name)
    requires IsShiftImmediate(n)
    ensures WellFormed(ShiftImmediateRow(n))
  {
    assert Spells("00100", 4) by { DataOpcodes(); }
    Functs3();
    Functs7();
  }

  lemma MemoryForm(n: Name)
    requires IsMemory(n)
    ensures WellFormed(MemoryRow(n))
  {
    DataOpcodes();
    Functs3();
  }

  lemma BranchForm(n: Name)
    requires IsBranch(n)
    ensures WellFormed(BranchRow(n))
  {
    assert Spells("11000", 24) by { ControlOpcodes(); }
    Functs3();
  }

  lemma OtherForm(n: Name)
    requires IsOther(n)
    ensures WellFormed(OtherRow(n))
  {
    DataOpcodes();
    ControlOpcodes();
    Functs3();
    Functs7();
  }

  lemma RowForm(n: Name)
    ensures WellFormed(RowOf(n))
  {
    if IsArithmetic(n) { ArithmeticForm(n); }
    else if IsMultiplication(n) { MultiplicationForm(n); }
    else if IsImmediate(n) { ImmediateForm(n); }
    else if IsShiftImmediate(n) { ShiftImmediateForm(n); }
    else if IsMemory(n) { MemoryForm(n); }
    else if IsBranch(n) { BranchForm(n); }
    else { OtherForm(n); }
  }

  /** Whatever agrees with a pattern is sent to it by the tree. */
  lemma TreeFinds(n: Name, x: nat)
    requires Agrees(BitsOf(RowOf(n)), x)
    ensures Tree(x) == n
  {
    assert FieldsFit(RowOf(n), x) by {
      RowForm(n);
      FieldsAgree(RowOf(n), x);
    }
    RowFound(n, x);
  }

  lemma RowFound(n: Name, x: nat)
    requires FieldsFit(RowOf(n), x)
    ensures Tree(x) == n
  {
    if IsArithmetic(n) {
      ArithmeticFound(n, x);
    } else if IsMultiplication(n) {
      MultiplicationFound(n, x);
    } else if IsImmediate(n) {
      ImmediateFound(n, x);
    } else if IsShiftImmediate(n) {
      ShiftImmediateFound(n, x);
    } else if IsMemory(n) {
      MemoryFound(n, x);
    } else if IsBranch(n) {
      BranchFound(n, x);
    } else {
      OtherFound(n, x);
    }
  }

  /** No word agrees with two patterns of the table. */
  lemma PatternsAreDisjoint(n: Name, m: Name, x: nat)
    requires Agrees(BitsOf(RowOf(n)), x) && Agrees(BitsOf(RowOf(m)), x)
    ensures n == m
  {
    TreeFinds(n, x);
    TreeFinds(m, x);
  }

  // ----- as the table is written -----

  /** The pattern string of a row. */
  function Text(r: Row): string {
    r.funct7 + " " + r.rs2 + " " + r.rs1 + " " + r.funct3 + " " + r.rd + " " + r.opcode + " 11"
  }

  lemma {:induction false} StripAppend(a: string, b: string)
    ensures Strip(a + b) == Strip(a) + Strip(b)
  {
    if b == [] {
      assert a + b == a;
    } else {
      assert (a + b)[..|a + b| - 1] == a + b[..|b| - 1];
      StripAppend(a, b[..|b| - 1]);
    }
  }

  lemma {:induction false} StripNothing(a: string)
    requires forall i :: 0 <= i < |a| ==> Decode.Legal(a[i])
    ensures Strip(a) == a
  {
    if a != [] { StripNothing(a[..|a| - 1]); }
  }

  predicate LegalField(f: string) { forall i :: 0 <= i < |f| ==> Decode.Legal(f[i]) }

  lemma FieldAndSpace(a: string, f: string)
    requires LegalField(f)
    ensures Strip(a + f + " ") == Strip(a) + f
  {
    StripAppend(a + f, " ");
    StripAppend(a, f);
    StripNothing(f);
    assert Strip(" ") == [];
  }

  lemma FieldIsLegal(f: string)
    requires Field(f)
    ensures LegalField(f)
  {
    DigitsIs(f);
  }

  ghost predicate LegalRow(r: Row) {
    && LegalField(r.funct7) && LegalField(r.rs2) && LegalField(r.rs1)
    && LegalField(r.funct3) && LegalField(r.rd) && LegalField(r.opcode)
  }

  lemma RowIsLegal(r: Row)
    requires LegalFields(r)
    ensures LegalRow(r)
  {
    FieldIsLegal(r.funct7);
    FieldIsLegal(r.rs2);
    FieldIsLegal(r.rs1);
    FieldIsLegal(r.funct3);
    FieldIsLegal(r.rd);
    FieldIsLegal(r.opcode);
  }

  lemma UpperStrips(r: Row)
    requires LegalRow(r)
    ensures Strip(r.funct7 + " " + r.rs2 + " " + r.rs1 + " ") == r.funct7 + r.rs2 + r.rs1
  {
    FieldAndSpace("", r.funct7);
    assert "" + r.funct7 == r.funct7;
    FieldAndSpace(r.funct7 + " ", r.rs2);
    FieldAndSpace(r.funct7 + " " + r.rs2 + " ", r.rs1);
  }

  lemma LowerStrips(u: string, r: Row)
    requires LegalRow(r)
    ensures Strip(u + r.funct3 + " " + r.rd + " " + r.opcode + " " + "11")
            == Strip(u) + r.funct3 + r.rd + r.opcode + "11"
  {
    FieldAndSpace(u, r.funct3);
    FieldAndSpace(u + r.funct3 + " ", r.rd);
    FieldAndSpace(u + r.funct3 + " " + r.rd + " ", r.opcode);
    StripAppend(u + r.funct3 + " " + r.rd + " " + r.opcode + " ", "11");
    StripNothing("11");
  }

  lemma TextStrips(r: Row)
    requires LegalRow(r)
    ensures Strip(Text(r)) == BitsOf(r)
  {
    var u := r.funct7 + " " + r.rs2 + " " + r.rs1 + " ";
    UpperStrips(r);
    LowerStrips(u, r);
    assert Text(r) == u + r.funct3 + " " + r.rd + " " + r.opcode + " " + "11";
  }

  /** Key, mask and shift of a row's pattern. */
  function PatternOf(r: Row): Pattern {
    var b := Strip(Text(r));
    var t := Trailing(b);
    Pattern(Shr(KeyOf(b), t), Shr(MaskOf(b), t), t)
  }

  lemma MatchAgrees(r: Row, x: nat)
    requires LegalRow(r) && |BitsOf(r)| < 64
    ensures Matches(PatternOf(r), x) <==> Agrees(BitsOf(r), x)
  {
    TextStrips(r);
    AppendLegal(r);
    DecodeMatches(BitsOf(r), x);
  }

  lemma AppendLegal(r: Row)
    requires LegalRow(r)
    ensures LegalField(BitsOf(r))
  {}

  lemma RowMatch(n: Name, x: nat)
    ensures Matches(PatternOf(RowOf(n)), x) <==> Agrees(BitsOf(RowOf(n)), x)
  {
    RowForm(n);
    RowIsLegal(RowOf(n));
    MatchAgrees(RowOf(n), x);
  }

  /** At most one pattern of the table matches a word. */
  lemma OneMatch(n: Name, m: Name, x: nat)
    requires Matches(PatternOf(RowOf(n)), x) && Matches(PatternOf(RowOf(m)), x)
    ensures n == m
  {
    RowMatch(n, x);
    RowMatch(m, x);
    PatternsAreDisjoint(n, m, x);
  }

  // ----- rows tried one after the other -----

  /** The first row that matches; None leads to the final row, which matches everything. */
  function FirstMatch(table: seq<Name>, x: nat): Option<Name> {
    if table == [] then None
    else if Matches(PatternOf(RowOf(table[0])), x) then Some(table[0])
    else FirstMatch(table[1..], x)
  }

  /** Being first is no more than being there and matching. */
  lemma {:induction false} FirstIsOnly(table: seq<Name>, x: nat, n: Name)
    ensures FirstMatch(table, x) == Some(n) <==> n in table && Matches(PatternOf(RowOf(n)), x)
  {
    if table != [] {
      if Matches(PatternOf(RowOf(table[0])), x) && Matches(PatternOf(RowOf(n)), x) { OneMatch(table[0], n, x); }
      FirstIsOnly(table[1..], x, n);
    }
  }

  /** Every order of the same rows decodes every word alike. */
  lemma OrderIsIrrelevant(t1: seq<Name>, t2: seq<Name>, x: nat)
    requires multiset(t1) == multiset(t2)
    ensures FirstMatch(t1, x) == FirstMatch(t2, x)
  {
    forall n: Name ensures n in t1 <==> n in t2 {
      assert n in multiset(t1) <==> n in multiset(t2);
    }
    var f, g := FirstMatch(t1, x), FirstMatch(t2, x);
    if f.Some? { FirstIsOnly(t1, x, f.value); FirstIsOnly(t2, x, f.value); }
    if g.Some? { FirstIsOnly(t1, x, g.value); FirstIsOnly(t2, x, g.value); }
  }
}
