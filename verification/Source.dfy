/** Assembly source as a sequence of tokenised lines, and the instruction encoding of single lines. */
module Source {
  import opened Words
  import opened Codec
  import opened ByteMemory
  import opened Text
  import opened Directives

  /** The mnemonics of the assembler; `UNKNOWN` stands for any other word. */
  datatype Op =
    | ADD | SUB | SLL | SLT | SLTU | XOR | SRL | SRA | OR | AND
    | MUL | MULH | MULHSU | MULHU | DIV | DIVU | REM | REMU
    | ADDI | SLTI | SLTIU | XORI | ORI | ANDI | SLLI | SRLI | SRAI
    | LB | LH | LW | LBU | LHU | SB | SH | SW
    | BEQ | BNE | BLT | BGE | BLTU | BGEU
    | JAL | JALR | LUI | AUIPC | ECALL | EBREAK
    | NOP | MV | LI | LA | CALL | RET | J
    | UNKNOWN

  /** An instruction line split into mnemonic and operands; `off(reg)` has become two operands. */
  datatype Tokens = Tokens(op: Op, a1: string, a2: string, a3: string)

  datatype Body = Nothing | Code(t: Tokens) | Data(d: Directive)

  /** A source line. `Skip` covers blank lines, comments and `.globl`. */
  datatype Line =
    | Skip
    | Section(name: string)              // .section name
    | DotText | DotData | DotRodata | DotBss
    | Item(defines: Option<string>, body: Body)

  // ----- instruction classes -----

  /** How an instruction is encoded: its format, function codes and operand shape. */
  datatype Class =
    | ClassR(funct7: u32, funct3: u32)
    | ClassI(funct3: u32)
    | ClassShift(funct7: u32, funct3: u32)
    | ClassLoad(funct3: u32)
    | ClassStore(funct3: u32)
    | ClassBranch(funct3: u32)
    | ClassJal
    | ClassJalr
    | ClassUpper(opcode: u32)
    | ClassSystem(code: i32)
    | ClassPseudo
    | ClassNone

  /** The mnemonic that a format and its function codes stand for. */
  function OpOf(c: Class): Op
  {
    match c
    case ClassR(f7, f3) =>
      if f7 == 0x01 then
        (match f3
         case 0 => MUL case 1 => MULH case 2 => MULHSU case 3 => MULHU
         case 4 => DIV case 5 => DIVU case 6 => REM case 7 => REMU case _ => UNKNOWN)
      else if f7 == 0x20 then
        (match f3 case 0 => SUB case 5 => SRA case _ => UNKNOWN)
      else if f7 == 0x00 then
        (match f3
         case 0 => ADD case 1 => SLL case 2 => SLT case 3 => SLTU
         case 4 => XOR case 5 => SRL case 6 => OR case 7 => AND case _ => UNKNOWN)
      else UNKNOWN
    case ClassI(f3) =>
      (match f3
       case 0 => ADDI case 2 => SLTI case 3 => SLTIU case 4 => XORI case 6 => ORI case 7 => ANDI case _ => UNKNOWN)
    case ClassShift(f7, f3) =>
      if f7 == 0x00 && f3 == 1 then SLLI
      else if f7 == 0x00 && f3 == 5 then SRLI
      else if f7 == 0x20 && f3 == 5 then SRAI
      else UNKNOWN
    case ClassLoad(f3) =>
      (match f3 case 0 => LB case 1 => LH case 2 => LW case 4 => LBU case 5 => LHU case _ => UNKNOWN)
    case ClassStore(f3) =>
      (match f3 case 0 => SB case 1 => SH case 2 => SW case _ => UNKNOWN)
    case ClassBranch(f3) =>
      (match f3
       case 0 => BEQ case 1 => BNE case 4 => BLT case 5 => BGE case 6 => BLTU case 7 => BGEU case _ => UNKNOWN)
    case ClassJal => JAL
    case ClassJalr => JALR
    case ClassUpper(opcode) => if opcode == 0x37 then LUI else if opcode == 0x17 then AUIPC else UNKNOWN
    case ClassSystem(code) => if code == 0 then ECALL else if code == 1 then EBREAK else UNKNOWN
    case _ => UNKNOWN
  }

  /** `is_pseudoinstruction` */
  predicate IsPseudo(op: Op)
  {
    match op
    case NOP | MV | LI | LA | CALL | RET | J => true
    case _ => false
  }

  function ClassOf(op: Op): Class
  {
    match op
    case ADD => ClassR(0x00, 0)
    case SUB => ClassR(0x20, 0)
    case SLL => ClassR(0x00, 1)
    case SLT => ClassR(0x00, 2)
    case SLTU => ClassR(0x00, 3)
    case XOR => ClassR(0x00, 4)
    case SRL => ClassR(0x00, 5)
    case SRA => ClassR(0x20, 5)
    case OR => ClassR(0x00, 6)
    case AND => ClassR(0x00, 7)
    case MUL => ClassR(0x01, 0)
    case MULH => ClassR(0x01, 1)
    case MULHSU => ClassR(0x01, 2)
    case MULHU => ClassR(0x01, 3)
    case DIV => ClassR(0x01, 4)
    case DIVU => ClassR(0x01, 5)
    case REM => ClassR(0x01, 6)
    case REMU => ClassR(0x01, 7)
    case ADDI => ClassI(0)
    case SLTI => ClassI(2)
    case SLTIU => ClassI(3)
    case XORI => ClassI(4)
    case ORI => ClassI(6)
    case ANDI => ClassI(7)
    case SLLI => ClassShift(0x00, 1)
    case SRLI => ClassShift(0x00, 5)
    case SRAI => ClassShift(0x20, 5)
    case LB => ClassLoad(0)
    case LH => ClassLoad(1)
    case LW => ClassLoad(2)
    case LBU => ClassLoad(4)
    case LHU => ClassLoad(5)
    case SB => ClassStore(0)
    case SH => ClassStore(1)
    case SW => ClassStore(2)
    case BEQ => ClassBranch(0)
    case BNE => ClassBranch(1)
    case BLT => ClassBranch(4)
    case BGE => ClassBranch(5)
    case BLTU => ClassBranch(6)
    case BGEU => ClassBranch(7)
    case JAL => ClassJal
    case JALR => ClassJalr
    case LUI => ClassUpper(0x37)
    case AUIPC => ClassUpper(0x17)
    case ECALL => ClassSystem(0)
    case EBREAK => ClassSystem(1)
    case NOP => ClassPseudo
    case MV => ClassPseudo
    case LI => ClassPseudo
    case LA => ClassPseudo
    case CALL => ClassPseudo
    case RET => ClassPseudo
    case J => ClassPseudo
    case UNKNOWN => ClassNone
  }

  /** The encoding table is injective: format and function codes give back the mnemonic. */
  lemma MnemonicOfClass(op: Op)
    ensures ClassOf(op).ClassNone? <==> op == UNKNOWN
    ensures ClassOf(op).ClassPseudo? <==> IsPseudo(op)
    ensures ClassOf(op).ClassPseudo? || op == OpOf(ClassOf(op))
  {
    match op {
    case ADD | SUB | SLL | SLT | SLTU | XOR | SRL | SRA | OR | AND =>
    case MUL | MULH | MULHSU | MULHU | DIV | DIVU | REM | REMU =>
    case ADDI | SLTI | SLTIU | XORI | ORI | ANDI | SLLI | SRLI | SRAI =>
    case LB | LH | LW | LBU | LHU | SB | SH | SW =>
    case BEQ | BNE | BLT | BGE | BLTU | BGEU | JAL | JALR =>
    case LUI | AUIPC | ECALL | EBREAK =>
    case NOP | MV | LI | LA | CALL | RET | J | UNKNOWN =>
    }
  }

  // ----- encoding one instruction -----

  /** A register operand as the encoders receive it: an unknown name arrives as 0xFFFFFFFF. */
  function RegField(a: string): u32
  {
    Wrap(RegNum(a))
  }

  /** The displacement of a branch or jump: `target - current_pc` on `uint32_t`, read as `int32_t`. */
  function Displacement(target: i32, pc: u32): i32
  {
    WrapSigned(target - pc)
  }

  function EncodeInstruction(labels: seq<Label>, pc: u32, t: Tokens): Result<u32>
  {
    match ClassOf(t.op)
    case ClassR(f7, f3) =>
      Done(EncodeR(f7, RegField(t.a3), RegField(t.a2), f3, RegField(t.a1), 0x33))
    case ClassI(f3) =>
      var imm :- ParseImm(labels, t.a3);
      Done(EncodeI(imm, RegField(t.a2), f3, RegField(t.a1), 0x13))
    case ClassShift(f7, f3) =>
      var imm :- ParseImm(labels, t.a3);
      Done(EncodeR(f7, And32(Wrap(imm), 0x1F), RegField(t.a2), f3, RegField(t.a1), 0x13))
    case ClassLoad(f3) =>
      var imm :- ParseImm(labels, t.a2);
      Done(EncodeI(imm, RegField(t.a3), f3, RegField(t.a1), 0x03))
    case ClassStore(f3) =>
      var imm :- ParseImm(labels, t.a2);
      Done(EncodeS(imm, RegField(t.a1), RegField(t.a3), f3, 0x23))
    case ClassBranch(f3) =>
      var target :- ParseImm(labels, t.a3);
      Done(EncodeB(Displacement(target, pc), RegField(t.a2), RegField(t.a1), f3, 0x63))
    case ClassJal =>
      var target :- ParseImm(labels, t.a2);
      Done(EncodeJ(Displacement(target, pc), RegField(t.a1), 0x6F))
    case ClassJalr =>
      var imm :- ParseImm(labels, t.a3);
      Done(EncodeI(imm, RegField(t.a2), 0, RegField(t.a1), 0x67))
    case ClassUpper(opcode) =>
      var imm :- ParseImm(labels, t.a2);
      Done(EncodeU(WrapSigned(imm * 0x1000), RegField(t.a1), opcode))
    case ClassSystem(code) => Done(EncodeI(code, 0, 0, 0, 0x73))
    case ClassPseudo => Exit
    case ClassNone => Exit
  }

  // ----- pseudo-instructions -----

  /** The rounded upper 20 bits of a value: `(v + 0x800) >> 12` on `int32_t`. */
  function Hi20(v: i32): i32
  {
    Sra(WrapSigned(v + 0x800), 12)
  }

  /** What the upper part leaves: `v - (hi20 << 12)` on `int32_t`. */
  function Lo12(v: i32): i32
  {
    WrapSigned(v - WrapSigned(Hi20(v) * 0x1000))
  }

  predicate FitsImm(v: int)
  {
    -0x800 <= v <= 0x7FF
  }

  /** The instructions a pseudo-instruction stands for; numbers are passed on as decimal text. */
  function Expand(labels: seq<Label>, pc: u32, t: Tokens): Result<seq<Tokens>>
  {
    match t.op
    case NOP => Done([Tokens(ADDI, "x0", "x0", "0")])
    case MV => Done([Tokens(ADDI, t.a1, t.a2, "0")])
    case LI =>
      var imm :- ParseImm(labels, t.a2);
      if FitsImm(imm) then
        Done([Tokens(ADDI, t.a1, "x0", PrintInt(imm))])
      else
        Done([Tokens(LUI, t.a1, PrintInt(Hi20(imm)), ""), Tokens(ADDI, t.a1, t.a1, PrintInt(Lo12(imm)))])
    case LA =>
      (match FindLabel(labels, t.a2)
       case None => Exit
       case Some(addr) =>
         var offset := WrapSigned(addr - pc);
         Done([Tokens(AUIPC, t.a1, PrintInt(Hi20(offset)), ""), Tokens(ADDI, t.a1, t.a1, PrintInt(Lo12(offset)))]))
    case CALL => Done([Tokens(JAL, "x1", t.a1, "")])
    case RET => Done([Tokens(JALR, "x0", "x1", "0")])
    case J => Done([Tokens(JAL, "x0", t.a1, "")])
    case _ => Done([])
  }

  /** The machine code of consecutive instructions. */
  function EncodeAll(labels: seq<Label>, pc: u32, ts: seq<Tokens>): Result<seq<byte>>
    decreases ts
  {
    if ts == [] then Done([])
    else
      var w :- EncodeInstruction(labels, pc, ts[0]);
      var rest :- EncodeAll(labels, Wrap(pc + 4), ts[1..]);
      Done(Bytes(w, 4) + rest)
  }

  /** The machine code that the second pass emits for an instruction line at `pc`. */
  function CodeBytes(labels: seq<Label>, pc: u32, t: Tokens): Result<seq<byte>>
  {
    if ClassOf(t.op).ClassPseudo? then
      var ts :- Expand(labels, pc, t);
      EncodeAll(labels, pc, ts)
    else
      EncodeAll(labels, pc, [t])
  }

  // ----- the first pass's sizes -----

  /** A `li` operand with a leading minus sign must be a number; otherwise the first pass would have to
      look it up among the labels seen so far. */
  predicate PlainLi(t: Tokens)
  {
    t.op == LI && t.a2 != "" && t.a2[0] == '-' ==> Numeric(t.a2)
  }

  /** The number of instructions the first pass reserves: `pseudoinstruction_size`, or 1. */
  function CodeCount(t: Tokens): nat
  {
    match t.op
    case LI => if Numeric(t.a2) && FitsImm(NumericValue(t.a2)) then 1 else 2
    case LA => 2
    case _ => 1
  }

  /** The bytes the first pass reserves for a line in a section of the given type. */
  function LineSize(l: Line, text: bool): Result<int>
  {
    match l
    case Item(defines, Code(t)) => Done(if text then 4 * CodeCount(t) else 0)
    case Item(defines, Data(d)) => if text && defines.Some? then Done(4) else DirectiveSize(d)
    case _ => Done(0)
  }

  /** The bytes the second pass emits for a line in a section of the given type. */
  function LineBytes(labels: seq<Label>, pc: u32, l: Line, text: bool): Result<seq<byte>>
  {
    match l
    case Item(_, Code(t)) => if text then CodeBytes(labels, pc, t) else Done([])
    case Item(_, Data(d)) => if text then Done([]) else DirectiveBytes(labels, d)
    case _ => Done([])
  }

  // ----- agreement of the two size calculations -----

  lemma EncodeAllLength(labels: seq<Label>, pc: u32, ts: seq<Tokens>)
    ensures EncodeAll(labels, pc, ts).Done? ==> |EncodeAll(labels, pc, ts).value| == 4 * |ts|
    decreases ts
  {
    hide EncodeInstruction;
    if ts != [] { EncodeAllLength(labels, Wrap(pc + 4), ts[1..]); }
  }

  /** The first pass reserves exactly the emitted size, unless a `li` takes a label whose address is small
      enough for one instruction: then it reserves two. */
  lemma CodeSizesExact(labels: seq<Label>, pc: u32, t: Tokens)
    requires CodeBytes(labels, pc, t).Done?
    ensures |CodeBytes(labels, pc, t).value| == 4 * CodeCount(t) <==>
      !(t.op == LI && !Numeric(t.a2) && ParseImm(labels, t.a2).Done? && FitsImm(ParseImm(labels, t.a2).value))
  {
    hide EncodeAll, EncodeInstruction, NumericValue, ParseImm, FindLabel, PrintInt, Hi20, Lo12;
    if ClassOf(t.op).ClassPseudo? {
      if t.op == LI && Numeric(t.a2) { NumericImm(labels, t.a2); }
      EncodeAllLength(labels, pc, Expand(labels, pc, t).value);
    } else {
      EncodeAllLength(labels, pc, [t]);
    }
  }

  lemma NumericImm(labels: seq<Label>, s: string)
    requires Numeric(s)
    ensures ParseImm(labels, s) == Done(NumericValue(s))
  {
  }
}
