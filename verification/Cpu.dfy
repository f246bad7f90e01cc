/** The emulated processor: one fetch-decode-execute step as a function on machine states.

`Step` is the specification against which the methods of class `CPU` are proved (file CpuClass.dfy).
*/
module Cpu {
  import opened Words
  import opened Codec
  import opened ByteMemory
  import opened MulDiv

  type Regs = x: seq<u32> | |x| == 32 witness seq(32, _ => 0)

  datatype Machine = Machine(x: Regs, pc: u32, running: bool, mem: Mem)

  /** The status codes of the program, and two of the model: `HostCall` for a system call whose effect the host
      decides, and `UndefinedQuotient` for INT_MIN / -1, which C++ leaves undefined. */
  datatype CpuStatus =
    | Ok | FetchError | FetchMisaligned | FetchOutOfBounds | DecodeError
    | ExecutionError | IllegalInstruction | SyscallExit | HostCall | UndefinedQuotient

  datatype Outcome = Outcome(status: CpuStatus, m: Machine)

  const SYS_EXIT: u32 := 93
  const SYS_BRK: u32 := 214
  const SYS_READ: u32 := 63
  const SYS_WRITE: u32 := 64
  const SYS_OPENAT: u32 := 56
  const SYS_CLOSE: u32 := 57
  const SYS_FSTAT: u32 := 80
  const HOST_CALLS: set<u32> := {SYS_READ, SYS_WRITE, SYS_OPENAT, SYS_CLOSE, SYS_FSTAT}
  const ENOMEM: int := 12
  const ENOSYS: int := 38

  function Reg(m: Machine, r: u32): u32
    requires r < 32
  {
    if r == 0 then 0 else m.x[r]
  }

  function SetReg(m: Machine, r: u32, v: u32): Machine
    requires r < 32
  {
    if r != 0 then m.(x := m.x[r := v]) else m
  }

  /** Register numbers and function codes fit their fields; every decoded instruction has this. */
  predicate FieldsFit(i: Instr)
  {
    i.rd < 32 && i.rs1 < 32 && i.rs2 < 32 && i.funct3 < 8 && i.funct7 < 128
  }

  lemma DecodedFieldsFit(w: u32)
    requires DecodeWord(w).Some?
    ensures FieldsFit(DecodeWord(w).value)
  {
    hide DecodeWord, FormatOf, ImmOf;
    DecodeFields(w);
  }

  function FetchStatus(s: MemStatus): CpuStatus
  {
    match s
    case MemOk => Ok
    case Misaligned => FetchMisaligned
    case ReadError => FetchOutOfBounds
    case WriteError => FetchError
  }

  function ExecuteAlu(a: u32, b: u32, funct3: u32, funct7: u32, isImm: bool): u32
    requires funct3 < 8
  {
    var shamt := And32(b, 0x1F);
    match funct3
    case 0 => if !isImm && And32(funct7, 0x20) != 0 then Wrap(a - b) else Wrap(a + b)
    case 1 => Shl(a, shamt)
    case 2 => if Signed(a) < Signed(b) then 1 else 0
    case 3 => if a < b then 1 else 0
    case 4 => Xor32(a, b)
    case 5 => if And32(funct7, 0x20) != 0 then Wrap(Sra(Signed(a), shamt)) else Shr(a, shamt)
    case 6 => Or32(a, b)
    case 7 => And32(a, b)
  }

  /** Width in bytes of a load or store; the unsigned loads have bit 2 of `funct3` set. */
  function AccessWidth(funct3: u32): (n: nat)
    requires funct3 % 4 != 3
    ensures Width(n)
  {
    if funct3 % 4 == 0 then 1 else if funct3 % 4 == 1 then 2 else 4
  }

  function ExecuteLoad(m: Machine, i: Instr): Outcome
    requires FieldsFit(i)
  {
    var addr := Wrap(Reg(m, i.rs1) + i.imm);
    if i.funct3 == 3 || i.funct3 >= 6 then
      Outcome(IllegalInstruction, m)
    else
      var n := AccessWidth(i.funct3);
      if Status(m.mem, addr, n, ReadError) != MemOk then
        Outcome(ExecutionError, m)
      else
        var v := Load(m.mem, addr, n);
        var result := if i.funct3 == 0 then Wrap(SignExtend(v, 8))
                      else if i.funct3 == 1 then Wrap(SignExtend(v, 16)) else v;
        Outcome(Ok, SetReg(m, i.rd, result))
  }

  function ExecuteStore(m: Machine, i: Instr): Outcome
    requires FieldsFit(i)
  {
    var addr := Wrap(Reg(m, i.rs1) + i.imm);
    if i.funct3 >= 3 then
      Outcome(IllegalInstruction, m)
    else
      var n := AccessWidth(i.funct3);
      if Status(m.mem, addr, n, WriteError) != MemOk then
        Outcome(ExecutionError, m)
      else
        Outcome(Ok, m.(mem := Store(m.mem, addr, n, Reg(m, i.rs2))))
  }

  predicate BranchTaken(a: u32, b: u32, funct3: u32)
  {
    match funct3
    case 0 => a == b
    case 1 => a != b
    case 4 => Signed(a) < Signed(b)
    case 5 => Signed(a) >= Signed(b)
    case 6 => a < b
    case 7 => a >= b
    case _ => false
  }

  function ExecuteBranch(m: Machine, i: Instr): Outcome
    requires FieldsFit(i)
  {
    if i.funct3 == 2 || i.funct3 == 3 then
      Outcome(IllegalInstruction, m)
    else if BranchTaken(Reg(m, i.rs1), Reg(m, i.rs2), i.funct3) then
      Outcome(Ok, m.(pc := Wrap(m.pc + i.imm - 4)))
    else
      Outcome(Ok, m)
  }

  function HandleSyscall(m: Machine): Outcome
  {
    var num := m.x[17];
    if num == SYS_EXIT then Outcome(SyscallExit, m.(running := false))
    else if num in HOST_CALLS then Outcome(HostCall, m)
    else if num == SYS_BRK then Outcome(Ok, m.(x := m.x[10 := Wrap(-ENOMEM)]))
    else Outcome(Ok, m.(x := m.x[10 := Wrap(-ENOSYS)]))
  }

  function ExecuteSystem(m: Machine, i: Instr): Outcome
  {
    var code := And32(Wrap(i.imm), 0xFFF);
    if code == 0 then HandleSyscall(m)
    else if code == 1 then Outcome(Ok, m)
    else Outcome(IllegalInstruction, m)
  }

  function Execute(m: Machine, i: Instr): Outcome
    requires FieldsFit(i)
  {
    match i.format
    case RType =>
      var a, b := Reg(m, i.rs1), Reg(m, i.rs2);
      if i.funct7 == 1 then
        if Overflows(a, b, i.funct3) then Outcome(UndefinedQuotient, m)
        else Outcome(Ok, SetReg(m, i.rd, ExecuteMulDiv(a, b, i.funct3)))
      else
        Outcome(Ok, SetReg(m, i.rd, ExecuteAlu(a, b, i.funct3, i.funct7, false)))
    case IType =>
      var a := Reg(m, i.rs1);
      if i.opcode == 0x03 then ExecuteLoad(m, i)
      else if i.opcode == 0x13 then
        var funct7 := if i.funct3 == 1 || i.funct3 == 5 then And32(Wrap(Sra(i.imm, 5)), 0x7F) else 0;
        Outcome(Ok, SetReg(m, i.rd, ExecuteAlu(a, Wrap(i.imm), i.funct3, funct7, true)))
      else if i.opcode == 0x67 then
        Outcome(Ok, SetReg(m, i.rd, m.pc).(pc := And32(Wrap(a + i.imm), 0xFFFF_FFFE)))
      else if i.opcode == 0x73 then ExecuteSystem(m, i)
      else Outcome(IllegalInstruction, m)
    case SType => ExecuteStore(m, i)
    case BType => ExecuteBranch(m, i)
    case UType =>
      if i.opcode == 0x37 then Outcome(Ok, SetReg(m, i.rd, Wrap(i.imm)))
      else if i.opcode == 0x17 then Outcome(Ok, SetReg(m, i.rd, Wrap(m.pc + i.imm - 4)))
      else Outcome(IllegalInstruction, m)
    case JType =>
      Outcome(Ok, SetReg(m, i.rd, m.pc).(pc := Wrap(m.pc + i.imm - 4)))
  }

  function Step(m: Machine): Outcome
  {
    if !m.running then Outcome(SyscallExit, m)
    else
      var status := Status(m.mem, m.pc, 4, ReadError);
      if status != MemOk then Outcome(FetchStatus(status), m)
      else
        var w := Load(m.mem, m.pc, 4);
        var m' := m.(pc := Wrap(m.pc + 4));
        match DecodeWord(w)
        case None => Outcome(DecodeError, m')
        case Some(i) => DecodedFieldsFit(w); Execute(m', i)
  }

  /** What a register write makes the registers read as: the new value in that register unless it is register
      0, the old values elsewhere, and always zero in register 0. */
  lemma ReadAfterWrite(m: Machine, r: u32, v: u32, k: u32)
    requires r < 32 && k < 32
    ensures Reg(SetReg(m, r, v), k) == if k == r && r != 0 then v else Reg(m, k)
    ensures Reg(SetReg(m, r, v), 0) == 0
  {
  }

  // ----- runs, with the host in the loop -----

  /** Cell `i` lies in the buffer that the host may fill: all of it for read, 64 bytes for fstat. */
  predicate HostWrites(m: Machine, i: int)
  {
    var num, buffer: int, count: int := m.x[17], m.x[11], m.x[12];
    (num == SYS_READ && buffer <= i < buffer + count) || (num == SYS_FSTAT && buffer <= i < buffer + 64)
  }

  /** What a host call may leave behind: any value in x10 and any bytes in its buffer. A read or write whose
      buffer does not fit in memory only sets x10 to -1. */
  predicate HostEffect(m: Machine, m': Machine)
  {
    var refused := (m.x[17] == SYS_READ || m.x[17] == SYS_WRITE) && m.x[11] + m.x[12] > |m.mem|;
    m'.pc == m.pc && m'.running == m.running && m'.x == m.x[10 := m'.x[10]] && |m'.mem| == |m.mem|
    && (forall i :: 0 <= i < |m.mem| && m'.mem[i] != m.mem[i] ==> !refused && HostWrites(m, i))
    && (refused ==> m'.x[10] == 0xFFFF_FFFF)
  }

  /** How a call ends when the transition function says `o`: a host call returns `Ok` with some host effect. */
  predicate Settles(o: Outcome, status: CpuStatus, m': Machine)
  {
    if o.status == HostCall then status == Ok && HostEffect(o.m, m') else Outcome(status, m') == o
  }

  /** One call of `step`, whatever it returns: a host call has any effect that the host may have, and an
      undefined quotient has no successor. */
  ghost predicate Next(m: Machine, m': Machine)
  {
    var o := Step(m);
    o.status != UndefinedQuotient && exists status :: Settles(o, status, m')
  }

  /** Consecutive states of a driver that keeps calling `step`. */
  ghost predicate IsRun(t: seq<Machine>)
  {
    t != [] && forall i :: 0 < i < |t| ==> Next(t[i - 1], t[i])
  }

  // ----- what every step keeps -----

  /** Register 0 holds zero and the program counter is even. */
  predicate Inv(m: Machine)
  {
    m.x[0] == 0 && m.pc % 2 == 0
  }

  lemma ClearLowBit(w: u32)
    ensures And32(w, 0xFFFF_FFFE) == w / 2 * 2
  {
    hide Pow2, And;
    Pow2Values();
    AndHigh(w, 0x7FFF_FFFF, 1);
    AndMask(w / 2, 31);
  }

  lemma EvenSum(pc: u32, d: int)
    requires pc % 2 == 0 && d % 2 == 0
    ensures Wrap(pc + d) % 2 == 0
  {
  }

  lemma ExecuteKeepsInv(m: Machine, i: Instr)
    requires FieldsFit(i) && Inv(m)
    requires i.format == BType || i.format == JType ==> i.imm % 2 == 0
    ensures Inv(Execute(m, i).m)
  {
    hide ExecuteAlu, ExecuteMulDiv, Load, Store, And32, Wrap;
    ClearLowBit(Wrap(Reg(m, i.rs1) + i.imm));
    if i.imm % 2 == 0 { EvenSum(m.pc, i.imm - 4); }
  }

  /** Every call of `step` keeps the invariant, host calls included. */
  lemma StepKeepsInv(m: Machine, m': Machine)
    requires Inv(m) && Next(m, m')
    ensures Inv(m')
  {
    hide Execute, Load, DecodeWord, ImmOf, FormatOf, Wrap;
    EvenSum(m.pc, 4);
    if m.running && Status(m.mem, m.pc, 4, ReadError) == MemOk {
      var w := Load(m.mem, m.pc, 4);
      DecodeFields(w);
      if DecodeWord(w).Some? {
        DecodedFieldsFit(w);
        DecodedImmInRange(BType, w);
        DecodedImmInRange(JType, w);
        ExecuteKeepsInv(m.(pc := Wrap(m.pc + 4)), DecodeWord(w).value);
      }
    }
  }

  /** `n` steps of the processor; a step that does not return `Ok` ends the run with its status. */
  function Steps(m: Machine, n: nat): Outcome
    decreases n
  {
    if n == 0 then Outcome(Ok, m)
    else
      var o := Step(m);
      if o.status != Ok then o else Steps(o.m, n - 1)
  }

  /** Whole runs: the invariant holds in every state the processor can reach. */
  lemma {:induction false} RunKeepsInv(t: seq<Machine>, i: nat)
    requires IsRun(t) && Inv(t[0]) && i < |t|
    ensures Inv(t[i])
  {
    hide Next;
    if i > 0 {
      RunKeepsInv(t, i - 1);
      StepKeepsInv(t[i - 1], t[i]);
    }
  }

  /** A failed fetch and the stopped state are fixed points: no number of further calls changes anything. */
  lemma {:induction false} StuckForever(t: seq<Machine>, i: nat)
    requires IsRun(t) && i < |t|
    requires !t[0].running || Status(t[0].mem, t[0].pc, 4, ReadError) != MemOk
    ensures t[i] == t[0]
  {
    if i > 0 {
      StuckForever(t, i - 1);
      assert Next(t[i - 1], t[i]);
    }
  }

  /** Only the exit system call stops the processor: no other call of `step`, whatever the host does. */
  lemma OnlyExitStops(m: Machine, m': Machine)
    requires m.running && Next(m, m')
    ensures !m'.running <==> Step(m).status == SyscallExit
    ensures !m'.running ==> m' == m.(pc := Wrap(m.pc + 4), running := false) && m.x[17] == SYS_EXIT
  {
    hide ExecuteAlu, ExecuteMulDiv, Load, Store, DecodeWord, And32;
  }

  // ----- what a step may change -----

  /** At most register `r` differs. */
  predicate OnlyReg(m: Machine, m': Machine, r: u32)
    requires r < 32
  {
    m'.mem == m.mem && forall k :: 0 <= k < 32 && k != r ==> m'.x[k] == m.x[k]
  }

  /** At most the `n` bytes at `addr` differ. */
  predicate OnlyBytes(m: Machine, m': Machine, addr: nat, n: nat)
  {
    m'.x == m.x && |m'.mem| == |m.mem|
    && forall k :: 0 <= k < |m.mem| && !(addr <= k < addr + n) ==> m'.mem[k] == m.mem[k]
  }

  /** The instruction a step would execute. */
  function Current(m: Machine): Option<Instr>
  {
    if m.running && Status(m.mem, m.pc, 4, ReadError) == MemOk then DecodeWord(Load(m.mem, m.pc, 4)) else None
  }

  /** A step that is not a system instruction changes at most register `rd`, or at most four
      consecutive bytes of memory, and never both. */
  lemma StepFrame(m: Machine)
    requires Current(m).Some? ==> Current(m).value.opcode != 0x73
    ensures
      var m' := Step(m).m;
      if Current(m).None? then m'.x == m.x && m'.mem == m.mem
      else
        var i := Current(m).value;
        FieldsFit(i) &&
        if i.format == SType then OnlyBytes(m, m', Wrap(Reg(m, i.rs1) + i.imm), 4) else OnlyReg(m, m', i.rd)
  {
    hide ExecuteAlu, ExecuteMulDiv, Load, DecodeWord, And32, ImmOf;
    if m.running && Status(m.mem, m.pc, 4, ReadError) == MemOk {
      var w := Load(m.mem, m.pc, 4);
      if DecodeWord(w).Some? {
        DecodedFieldsFit(w);
        DecodeFields(w);
      }
    }
  }

  /** A step that fails for any reason of its own changes no register and no memory; a fetch failure also leaves
      the program counter, every later failure has already advanced it. */
  lemma FailureIsAtomic(m: Machine)
    requires m.running && Step(m).status !in {Ok, SyscallExit, HostCall, UndefinedQuotient}
    ensures Step(m).m == m.(pc := if Status(m.mem, m.pc, 4, ReadError) != MemOk then m.pc else Wrap(m.pc + 4))
    ensures Step(m).status in {FetchError, FetchMisaligned, FetchOutOfBounds}
       <==> Status(m.mem, m.pc, 4, ReadError) != MemOk
  {
    hide ExecuteAlu, ExecuteMulDiv, Load, Store, DecodeWord, And32;
  }
}
