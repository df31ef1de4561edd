/** The riscv32 table against the instruction encodings of the RISC-V manual, given in numbers
    (nemu/src/isa/riscv32/inst.c:77-164; the instruction set listings of volume I of the RISC-V manual).
    The row named fence has the encoding that the manual gives to fence.i. */
module RiscvEncoding {
  import opened Options
  import opened Bits
  import opened Decode
  import opened RiscvTable

  // ----- the major opcodes, without their final 11 -----

  const LOAD := 0
  const MISC_MEM := 3
  const OP_IMM := 4
  const AUIPC := 5
  const STORE := 8
  const OP := 12
  const LUI := 13
  const BRANCH := 24
  const JALR := 25
  const JAL := 27
  const SYSTEM := 28

  /** What an instruction fixes: the opcode, and some of the other fields. */
  datatype Code = Code(opcode: nat, funct3: Option<nat>, funct7: Option<nat>, rs2: Option<nat>, rs1: Option<nat>,
                       rd: Option<nat>)

  function Plain(op: nat): Code { Code(op, None, None, None, None, None) }

  function Minor(op: nat, funct3: nat): Code { Code(op, Some(funct3), None, None, None, None) }

  function Full(op: nat, funct3: nat, funct7: nat): Code { Code(op, Some(funct3), Some(funct7), None, None, None) }

  function ArithmeticCode(n: Name): Code
    requires IsArithmetic(n)
  {
    match n
    case Add => Full(OP, 0, 0)
    case Sll => Full(OP, 1, 0)
    case Slt => Full(OP, 2, 0)
    case Sltu => Full(OP, 3, 0)
    case Xor => Full(OP, 4, 0)
    case Srl => Full(OP, 5, 0)
    case Sra => Full(OP, 5, 32)
    case Or => Full(OP, 6, 0)
    case And => Full(OP, 7, 0)
    case Sub => Full(OP, 0, 32)
  }

  function MultiplicationCode(n: Name): Code
    requires IsMultiplication(n)
  {
    match n
    case Mul => Full(OP, 0, 1)
    case Mulh => Full(OP, 1, 1)
    case Mulhsu => Full(OP, 2, 1)
    case Mulhu => Full(OP, 3, 1)
    case Div => Full(OP, 4, 1)
    case Divu => Full(OP, 5, 1)
    case Rem => Full(OP, 6, 1)
    case Remu => Full(OP, 7, 1)
  }

  function ImmediateCode(n: Name): Code
    requires IsImmediate(n)
  {
    match n
    case Sltiu => Minor(OP_IMM, 3)
    case Addi => Minor(OP_IMM, 0)
    case Slti => Minor(OP_IMM, 2)
    case Xori => Minor(OP_IMM, 4)
    case Ori => Minor(OP_IMM, 6)
    case Andi => Minor(OP_IMM, 7)
  }

  function ShiftImmediateCode(n: Name): Code
    requires IsShiftImmediate(n)
  {
    match n
    case Srli => Full(OP_IMM, 5, 0)
    case Slli => Full(OP_IMM, 1, 0)
    case Srai => Full(OP_IMM, 5, 32)
  }

  function MemoryCode(n: Name): Code
    requires IsMemory(n)
  {
    match n
    case Lbu => Minor(LOAD, 4)
    case Lb => Minor(LOAD, 0)
    case Lh => Minor(LOAD, 1)
    case Lw => Minor(LOAD, 2)
    case Lhu => Minor(LOAD, 5)
    case Sb => Minor(STORE, 0)
    case Sh => Minor(STORE, 1)
    case Sw => Minor(STORE, 2)
  }

  function BranchCode(n: Name): Code
    requires IsBranch(n)
  {
    match n
    case Bne => Minor(BRANCH, 1)
    case Beq => Minor(BRANCH, 0)
    case Blt => Minor(BRANCH, 4)
    case Bge => Minor(BRANCH, 5)
    case Bltu => Minor(BRANCH, 6)
    case Bgeu => Minor(BRANCH, 7)
  }

  function OtherCode(n: Name): Code
    requires IsOther(n)
  {
    match n
    case Auipc => Plain(AUIPC)
    case Lui => Plain(LUI)
    case Fence => Minor(MISC_MEM, 1)
    case Jalr => Minor(JALR, 0)
    case Jal => Plain(JAL)
    case Ebreak => Code(SYSTEM, Some(0), Some(0), Some(1), Some(0), Some(0))
    case Ecall => Code(SYSTEM, Some(0), Some(0), Some(0), Some(0), Some(0))
    case Csrrw => Minor(SYSTEM, 1)
    case Csrrs => Minor(SYSTEM, 2)
    case Mret => Code(SYSTEM, Some(0), Some(24), Some(2), Some(0), Some(0))
  }

  function CodeOf(n: Name): Code {
    if IsArithmetic(n) then ArithmeticCode(n)
    else if IsMultiplication(n) then MultiplicationCode(n)
    else if IsImmediate(n) then ImmediateCode(n)
    else if IsShiftImmediate(n) then ShiftImmediateCode(n)
    else if IsMemory(n) then MemoryCode(n)
    else if IsBranch(n) then BranchCode(n)
    else OtherCode(n)
  }

  predicate Holds(field: nat, value: Option<nat>) { value.Some? ==> field == value.value }

  /** The word x is an instruction with this code. */
  predicate Encodes(c: Code, x: nat) {
    && Low(x, 2) == 3 && Opcode(x) == c.opcode
    && Holds(Funct3(x), c.funct3) && Holds(Funct7(x), c.funct7)
    && Holds(Low(Shr(x, 20), 5), c.rs2) && Holds(Low(Shr(x, 15), 5), c.rs1) && Holds(Low(Shr(x, 7), 5), c.rd)
  }

  // ----- the strings spell these numbers -----

  /** A field of a pattern is the number, or all question marks. */
  predicate SpellsOption(f: string, c: Option<nat>) { if Digits(f) then c == Some(KeyOf(f)) else c == None }

  predicate Spelled(r: Row, c: Code) {
    && SpellsOption(r.opcode, Some(c.opcode)) && SpellsOption(r.funct3, c.funct3) && SpellsOption(r.funct7, c.funct7)
    && SpellsOption(r.rs2, c.rs2) && SpellsOption(r.rs1, c.rs1) && SpellsOption(r.rd, c.rd)
  }

  lemma Unknowns()
    ensures !Digits(ANY7) && !Digits(ANY5) && !Digits(ANY3)
  {
    DigitsIs(ANY7);
    DigitsIs(ANY5);
    DigitsIs(ANY3);
    assert ANY7[0] == ANY5[0] == ANY3[0] == '?';
  }

  lemma ArithmeticCodes(n: Name)
    requires IsArithmetic(n)
    ensures Spelled(ArithmeticRow(n), ArithmeticCode(n))
  {
    Unknowns();
    assert Spells("01100", OP) by { DataOpcodes(); }
    Functs3();
    Functs7();
  }

  lemma MultiplicationCodes(n: Name)
    requires IsMultiplication(n)
    ensures Spelled(MultiplicationRow(n), MultiplicationCode(n))
  {
    Unknowns();
    assert Spells("01100", OP) by { DataOpcodes(); }
    Functs3();
    Functs7();
  }

  lemma ImmediateCodes(n: Name)
    requires IsImmediate(n)
    ensures Spelled(ImmediateRow(n), ImmediateCode(n))
  {
    Unknowns();
    assert Spells("00100", OP_IMM) by { DataOpcodes(); }
    Functs3();
  }

  lemma ShiftImmediateCodes(n: Name)
    requires IsShiftImmediate(n)
    ensures Spelled(ShiftImmediateRow(n), ShiftImmediateCode(n))
  {
    Unknowns();
    assert Spells("00100", OP_IMM) by { DataOpcodes(); }
    Functs3();
    Functs7();
  }

  lemma MemoryCodes(n: Name)
    requires IsMemory(n)
    ensures Spelled(MemoryRow(n), MemoryCode(n))
  {
    Unknowns();
    DataOpcodes();
    Functs3();
  }

  lemma BranchCodes(n: Name)
    requires IsBranch(n)
    ensures Spelled(BranchRow(n), BranchCode(n))
  {
    Unknowns();
    assert Spells("11000", BRANCH) by { ControlOpcodes(); }
    Functs3();
  }

  lemma OtherCodes(n: Name)
    requires IsOther(n)
    ensures Spelled(OtherRow(n), OtherCode(n))
  {
    Unknowns();
    DataOpcodes();
    ControlOpcodes();
    Functs3();
    Functs7();
  }

  lemma RowSpells(n: Name)
    ensures Spelled(RowOf(n), CodeOf(n))
  {
    if IsArithmetic(n) { ArithmeticCodes(n); }
    else if IsMultiplication(n) { MultiplicationCodes(n); }
    else if IsImmediate(n) { ImmediateCodes(n); }
    else if IsShiftImmediate(n) { ShiftImmediateCodes(n); }
    else if IsMemory(n) { MemoryCodes(n); }
    else if IsBranch(n) { BranchCodes(n); }
    else { OtherCodes(n); }
  }

  // ----- a pattern matches exactly the words with its code -----

  lemma {:induction false} QuestionMarksAgree(f: string, x: nat)
    requires forall i :: 0 <= i < |f| ==> f[i] == '?'
    ensures Agrees(f, x)
  {
    if f != [] { QuestionMarksAgree(f[..|f| - 1], x / 2); }
  }

  /** One field, and what stands to its left. */
  lemma FieldExact(left: string, f: string, c: Option<nat>, x: nat)
    requires Field(f) && SpellsOption(f, c)
    ensures Agrees(left + f, x) <==> Agrees(left, Shr(x, |f|)) && Holds(Low(x, |f|), c)
  {
    AgreesAppend(left, f, x);
    if Digits(f) {
      DigitsIs(f);
      FixedField(f, x);
    } else {
      QuestionMarksAgree(f, x);
    }
  }

  lemma FinalOnes(x: nat)
    ensures Agrees("11", x) <==> Low(x, 2) == 3
  {
    FixedField("11", x);
    assert "11"[..1] == "1" && "1"[..0] == "";
    assert KeyOf("") == 0 && KeyOf("1") == 1;
  }

  lemma UpperExact(r: Row, c: Code, x: nat)
    requires WellFormed(r) && Spelled(r, c)
    ensures Agrees(r.funct7 + r.rs2 + r.rs1, x) <==>
              Holds(Low(Shr(x, 10), 7), c.funct7) && Holds(Low(Shr(x, 5), 5), c.rs2) && Holds(Low(x, 5), c.rs1)
  {
    FieldExact(r.funct7 + r.rs2, r.rs1, c.rs1, x);
    FieldExact(r.funct7, r.rs2, c.rs2, Shr(x, 5));
    assert [] + r.funct7 == r.funct7;
    FieldExact([], r.funct7, c.funct7, Shr(Shr(x, 5), 5));
    ShrShr(x, 5, 5);
  }

  lemma LowerExact(u: string, r: Row, c: Code, x: nat)
    requires WellFormed(r) && Spelled(r, c)
    ensures Agrees(u + r.funct3 + r.rd + r.opcode + "11", x) <==>
            && Low(x, 2) == 3 && Low(Shr(x, 2), 5) == c.opcode && Holds(Low(Shr(x, 7), 5), c.rd)
            && Holds(Low(Shr(x, 12), 3), c.funct3) && Agrees(u, Shr(x, 15))
  {
    AgreesAppend(u + r.funct3 + r.rd + r.opcode, "11", x);
    FinalOnes(x);
    FieldExact(u + r.funct3 + r.rd, r.opcode, Some(c.opcode), Shr(x, 2));
    ShrShr(x, 2, 5);
    FieldExact(u + r.funct3, r.rd, c.rd, Shr(x, 7));
    ShrShr(x, 7, 5);
    FieldExact(u, r.funct3, c.funct3, Shr(x, 12));
    ShrShr(x, 12, 3);
  }

  lemma UpperShifted(r: Row, c: Code, x: nat)
    requires WellFormed(r) && Spelled(r, c)
    ensures Agrees(r.funct7 + r.rs2 + r.rs1, Shr(x, 15)) <==>
            && Holds(Low(Shr(x, 25), 7), c.funct7) && Holds(Low(Shr(x, 20), 5), c.rs2)
            && Holds(Low(Shr(x, 15), 5), c.rs1)
  {
    UpperExact(r, c, Shr(x, 15));
    ShrShr(x, 15, 5);
    ShrShr(x, 15, 10);
  }

  lemma PatternExact(r: Row, c: Code, x: nat)
    requires WellFormed(r) && Spelled(r, c)
    ensures Agrees(BitsOf(r), x) <==> Encodes(c, x)
  {
    LowerExact(r.funct7 + r.rs2 + r.rs1, r, c, x);
    UpperShifted(r, c, x);
  }

  /** A row of the table matches exactly the words that the manual assigns to its instruction. */
  lemma RowMatchesExactly(n: Name, x: nat)
    ensures Matches(PatternOf(RowOf(n)), x) <==> Encodes(CodeOf(n), x)
  {
    RowMatch(n, x);
    RowForm(n);
    RowSpells(n);
    PatternExact(RowOf(n), CodeOf(n), x);
  }
}
