/** The meaning of one source line, as the instruction-set tables of the documentation describe it.

The meaning is chosen by the mnemonic alone. Formats, function codes, label tables and emitted bytes play no part:
operands are registers, numbers and labels, a label stands for the layout address of its line, and results are
integers reduced to register width. From the assembler it takes only how many instructions a line stands for.
*/
module Semantics {
  import opened Words
  import opened ByteMemory
  import opened MulDiv
  import opened Cpu
  import opened Text
  import opened Source
  import opened Layout

  // ----- mnemonics -----

  /** The tables in which the documentation lists a mnemonic. */
  datatype Kind =
    | KindRegister | KindImmediate | KindShift | KindLoad | KindStore | KindBranch
    | KindJal | KindJalr | KindUpper | KindSystem | KindPseudo | KindNone

  function KindOf(op: Op): Kind
  {
    match op
    case ADD | SUB | SLL | SLT | SLTU | XOR | SRL | SRA | OR | AND => KindRegister
    case MUL | MULH | MULHSU | MULHU | DIV | DIVU | REM | REMU => KindRegister
    case ADDI | SLTI | SLTIU | XORI | ORI | ANDI => KindImmediate
    case SLLI | SRLI | SRAI => KindShift
    case LB | LH | LW | LBU | LHU => KindLoad
    case SB | SH | SW => KindStore
    case BEQ | BNE | BLT | BGE | BLTU | BGEU => KindBranch
    case JAL => KindJal
    case JALR => KindJalr
    case LUI | AUIPC => KindUpper
    case ECALL | EBREAK => KindSystem
    case NOP | MV | LI | LA | CALL | RET | J => KindPseudo
    case UNKNOWN => KindNone
  }

  // ----- arithmetic -----

  /** rd = rs1 op rs2, for the register-register instructions. */
  function Binary(op: Op, x: u32, y: u32): u32
  {
    var shamt := y % 32;
    match op
    case ADD => Wrap(x + y)
    case SUB => Wrap(x - y)
    case SLL => Wrap(x * Pow2(shamt))
    case SLT => if Signed(x) < Signed(y) then 1 else 0
    case SLTU => if x < y then 1 else 0
    case XOR => Xor32(x, y)
    case SRL => Wrap(x / Pow2(shamt))
    case SRA => Wrap(Signed(x) / Pow2(shamt))
    case OR => Or32(x, y)
    case AND => And32(x, y)
    case MUL => Wrap(x * y)
    case MULH => Wrap(Signed(x) * Signed(y) / 0x1_0000_0000)
    case MULHSU => Wrap(Signed(x) * y / 0x1_0000_0000)
    case MULHU => Wrap(x * y / 0x1_0000_0000)
    case DIV => if y == 0 then 0xFFFF_FFFF else Wrap(TruncDiv(Signed(x), Signed(y)))
    case DIVU => if y == 0 then 0xFFFF_FFFF else Wrap(x / y)
    case REM => if y == 0 then x else Wrap(TruncRem(Signed(x), Signed(y)))
    case REMU => if y == 0 then x else Wrap(x % y)
    case _ => 0
  }

  /** The signed quotient that the program leaves undefined. */
  predicate Undefined(op: Op, x: u32, y: u32)
  {
    (op == DIV || op == REM) && Signed(x) == -0x8000_0000 && Signed(y) == -1
  }

  /** The register form of an immediate instruction. */
  function RegisterForm(op: Op): Op
  {
    match op
    case ADDI => ADD
    case SLTI => SLT
    case SLTIU => SLTU
    case XORI => XOR
    case ORI => OR
    case ANDI => AND
    case SLLI => SLL
    case SRLI => SRL
    case SRAI => SRA
    case _ => op
  }

  predicate Condition(op: Op, x: u32, y: u32)
  {
    match op
    case BEQ => x == y
    case BNE => x != y
    case BLT => Signed(x) < Signed(y)
    case BGE => Signed(x) >= Signed(y)
    case BLTU => x < y
    case BGEU => x >= y
    case _ => false
  }

  /** The width of a load or store. */
  function WidthOf(op: Op): (n: nat)
    ensures Width(n)
  {
    match op
    case LB => 1
    case LBU => 1
    case SB => 1
    case LH => 2
    case LHU => 2
    case SH => 2
    case _ => 4
  }

  /** The register value of a loaded cell: sign-extended, except for the unsigned loads. */
  function Extended(op: Op, v: u32): u32
  {
    if op == LB && v >= 0x80 then Wrap(v - 0x100)
    else if op == LH && v >= 0x8000 then Wrap(v - 0x1_0000)
    else v
  }

  // ----- operands -----

  predicate ValidReg(a: string)
  {
    RegNum(a) >= 0
  }

  function RegOf(a: string): u32
    requires ValidReg(a)
  {
    RegNum(a)
  }

  ghost function LineOf(lines: seq<Line>, name: string): nat
    requires HasLabel(lines, name)
    ensures LineOf(lines, name) < |lines| && Defines(lines[LineOf(lines, name)], name)
  {
    var j :| 0 <= j < |lines| && Defines(lines[j], name);
    j
  }

  /** What an operand denotes: a number, or the address of the line that defines the label. */
  ghost function Denotes(lines: seq<Line>, a: string): int
  {
    if a == "" then 0
    else if Numeric(a) then NumericValue(a)
    else LabelTarget(lines, a)
  }

  /** The layout address of the line that defines a label. */
  ghost function LabelTarget(lines: seq<Line>, name: string): int
  {
    if HasLabel(lines, name) then PcAt(lines, LineOf(lines, name)) else 0
  }

  // ----- lines that can run -----

  ghost predicate ShortImm(lines: seq<Line>, a: string)
  {
    -0x800 <= Denotes(lines, a) <= 0x7FF
  }

  /** A branch or jump target within `reach` bytes either way, at an even distance. */
  ghost predicate Reaches(lines: seq<Line>, k: nat, a: string, reach: int)
    requires k < |lines|
  {
    var d := Denotes(lines, a) - PcAt(lines, k);
    d % 2 == 0 && -reach <= d <= reach - 2
  }

  /** Register names are valid and immediates and displacements are in the range of their format. */
  ghost predicate InRangeCode(lines: seq<Line>, k: nat, t: Tokens)
    requires k < |lines|
  {
    match KindOf(t.op)
    case KindRegister => ValidReg(t.a1) && ValidReg(t.a2) && ValidReg(t.a3)
    case KindImmediate => ValidReg(t.a1) && ValidReg(t.a2) && ShortImm(lines, t.a3)
    case KindShift => ValidReg(t.a1) && ValidReg(t.a2)
    case KindLoad => ValidReg(t.a1) && ValidReg(t.a3) && ShortImm(lines, t.a2)
    case KindStore => ValidReg(t.a1) && ValidReg(t.a3) && ShortImm(lines, t.a2)
    case KindBranch => ValidReg(t.a1) && ValidReg(t.a2) && Reaches(lines, k, t.a3, 0x1000)
    case KindJal => ValidReg(t.a1) && Reaches(lines, k, t.a2, 0x10_0000)
    case KindJalr => ValidReg(t.a1) && ValidReg(t.a2) && ShortImm(lines, t.a3)
    case KindUpper => ValidReg(t.a1)
    case KindSystem => true
    case KindPseudo =>
      (t.op == MV ==> ValidReg(t.a1) && ValidReg(t.a2))
      && (t.op == LI || t.op == LA ==> ValidReg(t.a1))
      && (t.op == CALL || t.op == J ==> Reaches(lines, k, t.a1, 0x10_0000))
    case KindNone => false
  }

  /** Line `k` is an instruction of `.text` that the passes agree on and that is in range. */
  ghost predicate Runnable(lines: seq<Line>, k: nat)
  {
    k < |lines| && SectionAt(lines, k) == ".text" && lines[k].Item? && lines[k].body.Code?
    && InRangeCode(lines, k, lines[k].body.t)
  }

  // ----- the meaning of a line -----

  /** Clearing bit 0 of a jump target. */
  function Even(a: u32): u32
  {
    a / 2 * 2
  }

  function Get(m: Machine, a: string): u32
    requires ValidReg(a)
  {
    Reg(m, RegOf(a))
  }

  function Put(m: Machine, a: string, v: u32): Machine
    requires ValidReg(a)
  {
    SetReg(m, RegOf(a), v)
  }

  /** System calls: exit stops, brk fails with ENOMEM, unknown numbers with ENOSYS. */
  function SystemCall(m: Machine): Outcome
  {
    var num := m.x[17];
    if num == 93 then Outcome(SyscallExit, m.(running := false))
    else if num in {63, 64, 56, 57, 80} then Outcome(HostCall, m)
    else Outcome(Ok, m.(x := m.x[10 := Wrap(if num == 214 then -12 else -38)]))
  }

  /** The effect of a pseudo-instruction line. */
  ghost function PseudoMeaning(lines: seq<Line>, load: u32, k: nat, m: Machine): Outcome
    requires Runnable(lines, k) && KindOf(lines[k].body.t.op).KindPseudo?
  {
    var t := lines[k].body.t;
    var next := Wrap(load + PcAt(lines, k) + 4 * CodeCount(t));
    var m' := m.(pc := next);
    match t.op
    case LI => Outcome(Ok, Put(m', t.a1, Wrap(Denotes(lines, t.a2))))
    case LA => Outcome(Ok, Put(m', t.a1, Wrap(load + LabelTarget(lines, t.a2))))
    case MV => Outcome(Ok, Put(m', t.a1, Get(m, t.a2)))
    case CALL => Outcome(Ok, SetReg(m, 1, next).(pc := Wrap(load + Denotes(lines, t.a1))))
    case J => Outcome(Ok, m.(pc := Wrap(load + Denotes(lines, t.a1))))
    case RET => Outcome(Ok, m.(pc := Even(m.x[1])))
    case _ => Outcome(Ok, m')
  }

  /** The effect of source line `k` on a machine that holds the program at address `load`. */
  ghost function Meaning(lines: seq<Line>, load: u32, k: nat, m: Machine): Outcome
    requires Runnable(lines, k)
  {
    var t := lines[k].body.t;
    var here := load + PcAt(lines, k);
    var next := Wrap(here + 4 * CodeCount(t));
    var m' := m.(pc := next);
    match KindOf(t.op)
    case KindRegister =>
      var x, y := Get(m, t.a2), Get(m, t.a3);
      if Undefined(t.op, x, y) then Outcome(UndefinedQuotient, m') else Outcome(Ok, Put(m', t.a1, Binary(t.op, x, y)))
    case KindImmediate =>
      Outcome(Ok, Put(m', t.a1, Binary(RegisterForm(t.op), Get(m, t.a2), Wrap(Denotes(lines, t.a3)))))
    case KindShift =>
      Outcome(Ok, Put(m', t.a1, Binary(RegisterForm(t.op), Get(m, t.a2), Wrap(Denotes(lines, t.a3)))))
    case KindLoad =>
      var addr, n := Wrap(Get(m, t.a3) + Denotes(lines, t.a2)), WidthOf(t.op);
      if !Allowed(m.mem, addr, n) then Outcome(ExecutionError, m')
      else Outcome(Ok, Put(m', t.a1, Extended(t.op, Load(m.mem, addr, n))))
    case KindStore =>
      var addr, n := Wrap(Get(m, t.a3) + Denotes(lines, t.a2)), WidthOf(t.op);
      if !Allowed(m.mem, addr, n) then Outcome(ExecutionError, m')
      else Outcome(Ok, m'.(mem := Store(m.mem, addr, n, Get(m, t.a1))))
    case KindBranch =>
      Outcome(Ok, if Condition(t.op, Get(m, t.a1), Get(m, t.a2)) then m.(pc := Wrap(load + Denotes(lines, t.a3))) else m')
    case KindJal =>
      Outcome(Ok, Put(m, t.a1, next).(pc := Wrap(load + Denotes(lines, t.a2))))
    case KindJalr =>
      Outcome(Ok, Put(m, t.a1, next).(pc := Even(Wrap(Get(m, t.a2) + Denotes(lines, t.a3)))))
    case KindUpper =>
      var upper := Denotes(lines, t.a2) * 0x1000;
      Outcome(Ok, Put(m', t.a1, Wrap(if t.op == LUI then upper else here + upper)))
    case KindSystem => if t.op == ECALL then SystemCall(m') else Outcome(Ok, m')
    case KindPseudo => PseudoMeaning(lines, load, k, m)
    case KindNone => Outcome(IllegalInstruction, m)
  }
}
