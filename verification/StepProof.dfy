/** One processor step on one encoded instruction: what each class of instruction does when it is fetched. */
module StepProof {
  import opened Words
  import opened Codec
  import opened ByteMemory
  import opened MulDiv
  import opened Cpu
  import opened Source
  import opened Semantics

  /** A running machine whose program counter points at the word `w`. */
  predicate Fetches(m: Machine, w: u32)
  {
    m.running && Status(m.mem, m.pc, 4, ReadError) == MemOk && Load(m.mem, m.pc, 4) == w
  }

  function Advanced(m: Machine): Machine
  {
    m.(pc := Wrap(m.pc + 4))
  }

  /** The table that lists a mnemonic agrees with the format in which the assembler encodes it. */
  lemma KindIsClass(op: Op)
    ensures match KindOf(op)
      case KindRegister => ClassOf(op).ClassR?
      case KindImmediate => ClassOf(op).ClassI?
      case KindShift => ClassOf(op).ClassShift?
      case KindLoad => ClassOf(op).ClassLoad?
      case KindStore => ClassOf(op).ClassStore?
      case KindBranch => ClassOf(op).ClassBranch?
      case KindJal => ClassOf(op).ClassJal?
      case KindJalr => ClassOf(op).ClassJalr?
      case KindUpper => ClassOf(op).ClassUpper?
      case KindSystem => ClassOf(op).ClassSystem?
      case KindPseudo => ClassOf(op).ClassPseudo?
      case KindNone => ClassOf(op).ClassNone?
  {
    match op {
    case ADD | SUB | SLL | SLT | SLTU | XOR | SRL | SRA | OR | AND =>
    case MUL | MULH | MULHSU | MULHU | DIV | DIVU | REM | REMU =>
    case ADDI | SLTI | SLTIU | XORI | ORI | ANDI =>
    case SLLI | SRLI | SRAI =>
    case LB | LH | LW | LBU | LHU =>
    case SB | SH | SW =>
    case BEQ | BNE | BLT | BGE | BLTU | BGEU =>
    case JAL | JALR | LUI | AUIPC | ECALL | EBREAK =>
    case NOP | MV | LI | LA | CALL | RET | J =>
    case UNKNOWN =>
    }
  }

  lemma StepDecoded(m: Machine, w: u32, i: Instr)
    requires Fetches(m, w) && DecodeWord(w) == Some(i)
    ensures FieldsFit(i) && Step(m) == Execute(Advanced(m), i)
  {
    hide DecodeWord, Execute, Load;
    DecodedFieldsFit(w);
  }

  // ----- the ALU computes the documented operations -----

  lemma Bit5Test()
    ensures And32(0x00, 0x20) == 0 && And32(0x20, 0x20) != 0 && And32(0x01, 0x20) == 0
  {
  }

  lemma HighWordUnsigned(x: u32, y: u32)
    ensures Wrap(Wrap64(x * y) / 0x1_0000_0000) == Wrap(x * y / 0x1_0000_0000)
  {
    hide Wrap, Wrap64;
    var p := x * y;
    ProductRange(x, y);
    SmallWrap64(p);
  }

  lemma SmallWrap64(p: int)
    requires 0 <= p < 0x1_0000_0000_0000_0000
    ensures Wrap64(p) == p
  {
  }

  lemma SmallWrap(n: int)
    requires 0 <= n < 0x1_0000_0000
    ensures Wrap(n) == n
  {
  }

  lemma AluIsBinary(op: Op, f7: u32, f3: u32, x: u32, y: u32)
    requires ClassOf(op) == ClassR(f7, f3) && f7 != 1
    ensures f3 < 8 && ExecuteAlu(x, y, f3, f7, false) == Binary(op, x, y)
  {
    hide ClassOf, And32, Or32, Xor32, Pow2, Wrap;
    MnemonicOfClass(op);
    Bit5Test();
    MaskValue(y);
    DivBound(x, Pow2(y % 32));
    SmallWrap(x / Pow2(y % 32));
  }

  lemma MulDivIsBinary(op: Op, f3: u32, x: u32, y: u32)
    requires ClassOf(op) == ClassR(0x01, f3)
    ensures f3 < 8 && (Overflows(x, y, f3) <==> Undefined(op, x, y))
    ensures !Overflows(x, y, f3) ==> ExecuteMulDiv(x, y, f3) == Binary(op, x, y)
  {
    hide ClassOf, Pow2, And32, Or32, Xor32, TruncDiv, TruncRem, Mulhsu, Mulhu, Wrap64, Wrap;
    MnemonicOfClass(op);
    MulhsuValue(x, y);
    MulhuValue(x, y);
    assert Wrap(-1) == 0xFFFF_FFFF by { WrapMinusOne(); }
    if y != 0 {
      DivBound(x, y);
      SmallWrap(x / y);
      SmallWrap(x % y);
    }
  }

  lemma WrapMinusOne()
    ensures Wrap(-1) == 0xFFFF_FFFF
  {
  }

  lemma MulhuValue(x: u32, y: u32)
    ensures Mulhu(x, y) == Wrap(x * y / 0x1_0000_0000)
  {
    hide Wrap64;
    HighWordUnsigned(x, y);
  }

  lemma ImmediateIsBinary(op: Op, f3: u32, x: u32, y: u32)
    requires ClassOf(op) == ClassI(f3)
    ensures f3 < 8 && f3 != 1 && f3 != 5 && ExecuteAlu(x, y, f3, 0, true) == Binary(RegisterForm(op), x, y)
  {
    hide ClassOf, And32, Or32, Xor32, Pow2, Wrap;
    MnemonicOfClass(op);
  }

  lemma ShiftIsBinary(op: Op, f7: u32, f3: u32, x: u32, b: u32, y: u32)
    requires ClassOf(op) == ClassShift(f7, f3) && b % 32 == y % 32
    ensures (f3 == 1 || f3 == 5) && ExecuteAlu(x, b, f3, f7, true) == Binary(RegisterForm(op), x, y)
  {
    hide ClassOf, And32, Or32, Xor32, Pow2, Wrap;
    MnemonicOfClass(op);
    Bit5Test();
    MaskValue(b);
    DivBound(x, Pow2(y % 32));
    SmallWrap(x / Pow2(y % 32));
  }

  // ----- one step per instruction class -----

  lemma StepR(m: Machine, op: Op, f7: u32, f3: u32, rd: u32, rs1: u32, rs2: u32)
    requires ClassOf(op) == ClassR(f7, f3) && rd < 32 && rs1 < 32 && rs2 < 32
    requires Fetches(m, EncodeR(f7, rs2, rs1, f3, rd, 0x33))
    ensures var x, y := Reg(m, rs1), Reg(m, rs2);
      Step(m) == if Undefined(op, x, y) then Outcome(UndefinedQuotient, Advanced(m))
                 else Outcome(Ok, SetReg(Advanced(m), rd, Binary(op, x, y)))
  {
    hide EncodeR, DecodeWord, Step, ExecuteAlu, ExecuteMulDiv, Binary, Undefined, Overflows, Load, ClassOf, Wrap;
    FunctCodes(op);
    DecodeEncodeR(f7, rs2, rs1, f3, rd);
    var w := EncodeR(f7, rs2, rs1, f3, rd, 0x33);
    StepDecoded(m, w, Instr(RType, w, 0x33, rd, f3, rs1, rs2, f7, 0));
    var x, y := Reg(m, rs1), Reg(m, rs2);
    if f7 == 1 {
      MulDivIsBinary(op, f3, x, y);
    } else {
      AluIsBinary(op, f7, f3, x, y);
      NotDivision(op, f7, f3, x, y);
    }
  }

  lemma FunctCodes(op: Op)
    ensures match ClassOf(op)
      case ClassR(f7, f3) => f7 < 64 && f3 < 8
      case ClassI(f3) => f3 < 8
      case ClassShift(f7, f3) => f7 < 64 && f3 < 8
      case ClassLoad(f3) => f3 < 8
      case ClassStore(f3) => f3 < 8
      case ClassBranch(f3) => f3 < 8
      case _ => true
  {
    hide ClassOf;
    MnemonicOfClass(op);
  }

  lemma NotDivision(op: Op, f7: u32, f3: u32, x: u32, y: u32)
    requires ClassOf(op) == ClassR(f7, f3) && f7 != 1
    ensures !Undefined(op, x, y)
  {
    hide ClassOf;
    MnemonicOfClass(op);
  }

  lemma StepI(m: Machine, op: Op, f3: u32, rd: u32, rs1: u32, imm: i32)
    requires ClassOf(op) == ClassI(f3) && rd < 32 && rs1 < 32 && FitsImm(imm)
    requires Fetches(m, EncodeI(imm, rs1, f3, rd, 0x13))
    ensures Step(m) == Outcome(Ok, SetReg(Advanced(m), rd, Binary(RegisterForm(op), Reg(m, rs1), Wrap(imm))))
  {
    hide EncodeI, DecodeWord, Step, ExecuteAlu, Binary, Load, Wrap, ClassOf, RegisterForm;
    FunctCodes(op);
    DecodeEncodeI(imm, rs1, f3, rd, 0x13);
    var w := EncodeI(imm, rs1, f3, rd, 0x13);
    StepDecoded(m, w, Instr(IType, w, 0x13, rd, f3, rs1, Wrap(imm) % 32, Wrap(imm) / 32 % 128, imm));
    ImmediateIsBinary(op, f3, Reg(m, rs1), Wrap(imm));
  }

  /** The function code that the execution unit recovers from a shift's immediate. */
  lemma ShiftCode(f7: u32, shamt: u32)
    requires f7 < 64 && shamt < 32
    ensures And32(Wrap(Sra(f7 * 32 + shamt, 5)), 0x7F) == f7
    ensures Wrap(f7 * 32 + shamt) % 32 == shamt
  {
    hide Pow2, And32;
    Pow2Values();
    DivModUnique(f7 * 32 + shamt, 32, f7, shamt);
    MaskValue(f7);
  }

  lemma StepShift(m: Machine, op: Op, f7: u32, f3: u32, rd: u32, rs1: u32, y: u32)
    requires ClassOf(op) == ClassShift(f7, f3) && rd < 32 && rs1 < 32
    requires And32(y, 0x1F) == y % 32 && Fetches(m, EncodeR(f7, And32(y, 0x1F), rs1, f3, rd, 0x13))
    ensures Step(m) == Outcome(Ok, SetReg(Advanced(m), rd, Binary(RegisterForm(op), Reg(m, rs1), y)))
  {
    hide EncodeR, DecodeWord, Step, ExecuteAlu, Binary, Load, Sra, And32, Wrap, ClassOf, RegisterForm;
    FunctCodes(op);
    var shamt := y % 32;
    DecodeEncodeShift(f7, shamt, rs1, f3, rd);
    var w := EncodeR(f7, shamt, rs1, f3, rd, 0x13);
    StepDecoded(m, w, Instr(IType, w, 0x13, rd, f3, rs1, shamt, f7, f7 * 32 + shamt));
    ShiftCode(f7, shamt);
    ShiftIsBinary(op, f7, f3, Reg(m, rs1), Wrap(f7 * 32 + shamt), y);
  }

  lemma LoadFunct(op: Op, f3: u32)
    requires ClassOf(op) == ClassLoad(f3)
    ensures f3 != 3 && f3 < 6 && AccessWidth(f3) == WidthOf(op)
  {
    hide ClassOf;
    MnemonicOfClass(op);
  }

  lemma LoadExtends(op: Op, f3: u32, v: u32)
    requires ClassOf(op) == ClassLoad(f3)
    requires WidthOf(op) == 1 ==> v < 0x100
    requires WidthOf(op) == 2 ==> v < 0x1_0000
    ensures Extended(op, v) == if f3 == 0 then Wrap(SignExtend(v, 8)) else if f3 == 1 then Wrap(SignExtend(v, 16)) else v
  {
    hide ClassOf, SignExtend, Pow2;
    MnemonicOfClass(op);
    Pow2Values();
    if f3 == 0 { SignExtendValue(v, 8); }
    if f3 == 1 { SignExtendValue(v, 16); }
  }

  lemma StepLoad(m: Machine, op: Op, f3: u32, rd: u32, rs1: u32, imm: i32)
    requires ClassOf(op) == ClassLoad(f3) && rd < 32 && rs1 < 32 && FitsImm(imm)
    requires Fetches(m, EncodeI(imm, rs1, f3, rd, 0x03))
    ensures var addr, n := Wrap(Reg(m, rs1) + imm), WidthOf(op);
      Step(m) == if !Allowed(m.mem, addr, n) then Outcome(ExecutionError, Advanced(m))
                 else Outcome(Ok, SetReg(Advanced(m), rd, Extended(op, Load(m.mem, addr, n))))
  {
    hide EncodeI, DecodeWord, Step, Extended, Load, SignExtend, WidthOf, AccessWidth, Wrap, ClassOf;
    FunctCodes(op);
    LoadFunct(op, f3);
    DecodeEncodeI(imm, rs1, f3, rd, 0x03);
    var w := EncodeI(imm, rs1, f3, rd, 0x03);
    StepDecoded(m, w, Instr(IType, w, 0x03, rd, f3, rs1, Wrap(imm) % 32, Wrap(imm) / 32 % 128, imm));
    var addr, n := Wrap(Reg(m, rs1) + imm), WidthOf(op);
    if Allowed(m.mem, addr, n) {
      LoadSmall(m.mem, addr, n);
      LoadExtends(op, f3, Load(m.mem, addr, n));
    }
  }

  lemma LoadSmall(m: Mem, addr: u32, n: nat)
    requires Width(n) && Allowed(m, addr, n)
    ensures (n == 1 ==> Load(m, addr, n) < 0x100) && (n == 2 ==> Load(m, addr, n) < 0x1_0000)
  {
    LoadBound(m[addr..addr + n]);
  }

  lemma StoreFunct(op: Op, f3: u32)
    requires ClassOf(op) == ClassStore(f3)
    ensures f3 < 3 && AccessWidth(f3) == WidthOf(op)
  {
    hide ClassOf;
    MnemonicOfClass(op);
  }

  lemma StepStore(m: Machine, op: Op, f3: u32, rs1: u32, rs2: u32, imm: i32)
    requires ClassOf(op) == ClassStore(f3) && rs1 < 32 && rs2 < 32 && FitsImm(imm)
    requires Fetches(m, EncodeS(imm, rs2, rs1, f3, 0x23))
    ensures var addr, n := Wrap(Reg(m, rs1) + imm), WidthOf(op);
      Step(m) == if !Allowed(m.mem, addr, n) then Outcome(ExecutionError, Advanced(m))
                 else Outcome(Ok, Advanced(m).(mem := Store(m.mem, addr, n, Reg(m, rs2))))
  {
    hide EncodeS, DecodeWord, Step, Load, Store, WidthOf, AccessWidth, Wrap, ClassOf;
    FunctCodes(op);
    StoreFunct(op, f3);
    DecodeEncodeS(imm, rs2, rs1, f3);
    var w := EncodeS(imm, rs2, rs1, f3, 0x23);
    StepDecoded(m, w, Instr(SType, w, 0x23, Wrap(imm) % 32, f3, rs1, rs2, Wrap(imm) / 32 % 128, imm));
  }

  lemma BranchFunct(op: Op, f3: u32, x: u32, y: u32)
    requires ClassOf(op) == ClassBranch(f3)
    ensures f3 != 2 && f3 != 3 && f3 < 8 && BranchTaken(x, y, f3) == Condition(op, x, y)
  {
    hide ClassOf;
    MnemonicOfClass(op);
  }

  /** A relative jump from the advanced program counter. */
  lemma JumpFrom(pc: u32, d: int)
    ensures Wrap(Wrap(pc + 4) + d - 4) == Wrap(pc + d)
  {
  }

  lemma StepBranch(m: Machine, op: Op, f3: u32, rs1: u32, rs2: u32, d: i32)
    requires ClassOf(op) == ClassBranch(f3) && rs1 < 32 && rs2 < 32
    requires -0x1000 <= d <= 0xFFE && d % 2 == 0
    requires Fetches(m, EncodeB(d, rs2, rs1, f3, 0x63))
    ensures Step(m) == Outcome(Ok, if Condition(op, Reg(m, rs1), Reg(m, rs2)) then m.(pc := Wrap(m.pc + d)) else Advanced(m))
  {
    hide ClassOf, EncodeB, DecodeWord, Step, Load, BranchTaken, Condition, Wrap;
    DecodeEncodeB(d, rs2, rs1, f3) by { FunctCodes(op); }
    var w := EncodeB(d, rs2, rs1, f3, 0x63);
    StepDecoded(m, w, DecodeWord(w).value);
    BranchFunct(op, f3, Reg(m, rs1), Reg(m, rs2));
    JumpFrom(m.pc, d);
  }

  lemma StepJal(m: Machine, rd: u32, d: i32)
    requires rd < 32 && -0x10_0000 <= d <= 0xF_FFFE && d % 2 == 0
    requires Fetches(m, EncodeJ(d, rd, 0x6F))
    ensures Step(m) == Outcome(Ok, SetReg(m, rd, Wrap(m.pc + 4)).(pc := Wrap(m.pc + d)))
  {
    hide EncodeJ, DecodeWord, Step, Load, Wrap;
    DecodeEncodeJ(d, rd);
    var w := EncodeJ(d, rd, 0x6F);
    StepDecoded(m, w, DecodeWord(w).value);
    JumpFrom(m.pc, d);
  }

  lemma StepJalr(m: Machine, rd: u32, rs1: u32, imm: i32)
    requires rd < 32 && rs1 < 32 && FitsImm(imm)
    requires Fetches(m, EncodeI(imm, rs1, 0, rd, 0x67))
    ensures Step(m) == Outcome(Ok, SetReg(m, rd, Wrap(m.pc + 4)).(pc := Even(Wrap(Reg(m, rs1) + imm))))
  {
    hide EncodeI, DecodeWord, Step, Load, Wrap, And32;
    DecodeEncodeI(imm, rs1, 0, rd, 0x67);
    var w := EncodeI(imm, rs1, 0, rd, 0x67);
    StepDecoded(m, w, Instr(IType, w, 0x67, rd, 0, rs1, Wrap(imm) % 32, Wrap(imm) / 32 % 128, imm));
    ClearLowBit(Wrap(Reg(m, rs1) + imm));
  }

  lemma StepUpper(m: Machine, opcode: u32, rd: u32, upper: i32)
    requires (opcode == 0x37 || opcode == 0x17) && rd < 32 && upper % 0x1000 == 0
    requires Fetches(m, EncodeU(upper, rd, opcode))
    ensures Step(m) == Outcome(Ok, SetReg(Advanced(m), rd, Wrap(if opcode == 0x37 then upper else m.pc + upper)))
  {
    hide EncodeU, DecodeWord, Step, Load, Wrap;
    DecodeEncodeU(upper, rd, opcode);
    var w := EncodeU(upper, rd, opcode);
    StepDecoded(m, w, DecodeWord(w).value);
    JumpFrom(m.pc, upper);
  }

  lemma StepSystem(m: Machine, code: i32)
    requires (code == 0 || code == 1) && Fetches(m, EncodeI(code, 0, 0, 0, 0x73))
    ensures Step(m) == if code == 0 then SystemCall(Advanced(m)) else Outcome(Ok, Advanced(m))
  {
    hide EncodeI, DecodeWord, Step, Load, And32;
    DecodeEncodeI(code, 0, 0, 0, 0x73);
    var w := EncodeI(code, 0, 0, 0, 0x73);
    StepDecoded(m, w, Instr(IType, w, 0x73, 0, 0, 0, Wrap(code) % 32, Wrap(code) / 32 % 128, code));
    MaskValue(Wrap(code));
  }
}
