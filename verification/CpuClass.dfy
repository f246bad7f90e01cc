/** The processor object of the emulator, proved against `Cpu.Step`. */
module CpuClass {
  import opened Words
  import opened Codec
  import opened ByteMemory
  import opened MulDiv
  import opened Cpu

  const STACK_TOP: u32 := 0x8010_0000
  /** The size of the host's `struct stat`, as on 64-bit Linux. */
  const SIZEOF_STAT: nat := 144
  /** `fstat` copies at most 64 bytes of it. */
  const STAT_COPY: nat := 64

  class CPU {
    const x: array<u32>
    var pc: u32
    var running: bool

    ghost predicate Valid(mem: Memory)
      reads this, mem
    {
      x.Length == 32 && mem.Valid() && 4 <= mem.size && x as object != mem.data as object
    }

    /** The machine state that the processor and its memory represent. */
    ghost function State(mem: Memory): Machine
      reads this, x, mem, mem.data
      requires Valid(mem)
    {
      Machine(x[..], pc, running, mem.Contents())
    }

    constructor ()
      ensures x.Length == 32 && fresh(x)
      ensures x[..] == seq(32, _ => 0)[2 := 0x8010_0000] && pc == 0 && running
    {
      x := new u32[32](_ => 0);
      pc := 0;
      running := true;
      new;
      x[2] := STACK_TOP;
    }

    method RegRead(r: u32, ghost mem: Memory) returns (v: u32)
      requires Valid(mem) && r < 32
      ensures v == Reg(State(mem), r)
    {
      v := if r == 0 then 0 else x[r];
    }

    method RegWrite(r: u32, value: u32, ghost mem: Memory)
      requires Valid(mem) && r < 32
      modifies x
      ensures State(mem) == SetReg(old(State(mem)), r, value)
    {
      if r != 0 {
        x[r] := value;
      }
    }

    method Fetch(mem: Memory) returns (status: CpuStatus, instruction: u32)
      requires Valid(mem)
      modifies this`pc
      ensures status == if old(pc) % 4 != 0 then FetchMisaligned
                        else if old(pc) + 4 > mem.size then FetchOutOfBounds else Ok
      ensures State(mem) == if status == Ok then old(State(mem)).(pc := Wrap(old(pc) + 4)) else old(State(mem))
      ensures status == Ok ==> instruction == Load(old(State(mem)).mem, old(pc), 4)
    {
      var s;
      s, instruction := mem.Read32(pc);
      if s == MemOk {
        pc := Wrap(pc + 4);
        return Ok, instruction;
      } else if s == Misaligned {
        return FetchMisaligned, instruction;
      } else if s == ReadError {
        return FetchOutOfBounds, instruction;
      }
      return FetchError, instruction;
    }

    /** The host fills the cells from `lo` up to `hi` with bytes of its own. */
    method HostFills(mem: Memory, lo: nat, hi: nat)
      requires Valid(mem) && lo <= hi <= mem.size
      modifies mem.data
      ensures forall i :: 0 <= i < mem.size && !(lo <= i < hi) ==> mem.data[i] == old(mem.data[i])
    {
      var i := lo;
      while i < hi
        invariant lo <= i <= hi
        invariant forall j :: 0 <= j < mem.size && !(lo <= j < i) ==> mem.data[j] == old(mem.data[j])
      {
        var b: byte := *;
        mem.data[i] := b;
        i := i + 1;
      }
    }

    method HandleSyscall(mem: Memory) returns (status: CpuStatus)
      requires Valid(mem)
      modifies this`running, x, mem.data
      ensures Settles(Cpu.HandleSyscall(old(State(mem))), status, State(mem))
    {
      var num, buffer: int, count: int := x[17], x[11], x[12];
      var result: u32 := *;
      match num {
      case SYS_EXIT =>
        running := false;
        return SyscallExit;
      case SYS_WRITE =>
        x[10] := result;
        if buffer + count > mem.size {
          x[10] := Wrap(-1);
        }
      case SYS_READ =>
        if buffer + count > mem.size {
          x[10] := Wrap(-1);
        } else {
          HostFills(mem, buffer, buffer + count);
          x[10] := result;
        }
      case SYS_OPENAT | SYS_CLOSE =>
        x[10] := result;
      case SYS_BRK =>
        x[10] := Wrap(-ENOMEM);
      case SYS_FSTAT =>
        if result == 0 && buffer + SIZEOF_STAT <= mem.size {
          HostFills(mem, buffer, buffer + STAT_COPY);
        }
        x[10] := result;
      case _ =>
        x[10] := Wrap(-ENOSYS);
      }
      return Ok;
    }

    /** `result` is the value to be loaded; the caller writes it to `rd`. */
    method ExecuteLoad(mem: Memory, instr: Instr) returns (status: CpuStatus, result: u32)
      requires Valid(mem) && FieldsFit(instr)
      ensures Cpu.ExecuteLoad(State(mem), instr)
           == Outcome(status, if status.Ok? then SetReg(State(mem), instr.rd, result) else State(mem))
      ensures status in {Ok, ExecutionError, IllegalInstruction}
    {
      hide Load, SignExtend, Wrap;
      var base := RegRead(instr.rs1, mem);
      var addr := Wrap(base + instr.imm);
      var s, value;
      result := 0;
      match instr.funct3 {
      case 0 =>
        s, value := mem.Read8(addr);
        if s != MemOk { return ExecutionError, result; }
        result := Wrap(SignExtend(value, 8));
      case 1 =>
        s, value := mem.Read16(addr);
        if s != MemOk { return ExecutionError, result; }
        result := Wrap(SignExtend(value, 16));
      case 2 =>
        s, value := mem.Read32(addr);
        if s != MemOk { return ExecutionError, result; }
        result := value;
      case 4 =>
        s, value := mem.Read8(addr);
        if s != MemOk { return ExecutionError, result; }
        result := value;
      case 5 =>
        s, value := mem.Read16(addr);
        if s != MemOk { return ExecutionError, result; }
        result := value;
      case _ =>
        return IllegalInstruction, result;
      }
      return Ok, result;
    }

    method ExecuteStore(mem: Memory, instr: Instr) returns (status: CpuStatus)
      requires Valid(mem) && FieldsFit(instr)
      modifies mem.data
      ensures Outcome(status, State(mem)) == Cpu.ExecuteStore(old(State(mem)), instr)
      ensures status in {Ok, ExecutionError, IllegalInstruction}
    {
      hide Store, Load, Wrap;
      var base := RegRead(instr.rs1, mem);
      var addr := Wrap(base + instr.imm);
      var value := RegRead(instr.rs2, mem);
      var s;
      match instr.funct3 {
      case 0 =>
        s := mem.Write8(addr, value);
      case 1 =>
        s := mem.Write16(addr, value);
      case 2 =>
        s := mem.Write32(addr, value);
      case _ =>
        return IllegalInstruction;
      }
      return if s == MemOk then Ok else ExecutionError;
    }

    method ExecuteBranch(instr: Instr, ghost mem: Memory) returns (status: CpuStatus)
      requires Valid(mem) && FieldsFit(instr)
      modifies this`pc
      ensures Outcome(status, State(mem)) == Cpu.ExecuteBranch(old(State(mem)), instr)
      ensures status in {Ok, ExecutionError, IllegalInstruction}
    {
      var a := RegRead(instr.rs1, mem);
      var b := RegRead(instr.rs2, mem);
      var take := false;
      match instr.funct3 {
      case 0 => take := a == b;
      case 1 => take := a != b;
      case 4 => take := Signed(a) < Signed(b);
      case 5 => take := Signed(a) >= Signed(b);
      case 6 => take := a < b;
      case 7 => take := a >= b;
      case _ => return IllegalInstruction;
      }
      if take {
        pc := Wrap(pc + instr.imm - 4);
      }
      return Ok;
    }

    method ExecuteSystem(instr: Instr, mem: Memory) returns (status: CpuStatus)
      requires Valid(mem)
      modifies this`running, x, mem.data
      ensures Settles(Cpu.ExecuteSystem(old(State(mem)), instr), status, State(mem))
    {
      var code := And32(Wrap(instr.imm), 0xFFF);
      if code == 0 {
        status := HandleSyscall(mem);
      } else if code == 1 {
        status := Ok;
      } else {
        status := IllegalInstruction;
      }
    }

    method Execute(mem: Memory, instr: Instr) returns (status: CpuStatus)
      requires Valid(mem) && FieldsFit(instr)
      modifies this, x, mem.data
      ensures Settles(Cpu.Execute(old(State(mem)), instr), status, State(mem))
    {
      hide ExecuteAlu, ExecuteMulDiv, And32, Cpu.ExecuteLoad, Cpu.ExecuteStore, Cpu.ExecuteBranch,
           Cpu.ExecuteSystem, HostEffect;
      match instr.format {
      case RType =>
        var a := RegRead(instr.rs1, mem);
        var b := RegRead(instr.rs2, mem);
        if instr.funct7 == 1 {
          if Overflows(a, b, instr.funct3) {
            return UndefinedQuotient;
          }
          RegWrite(instr.rd, ExecuteMulDiv(a, b, instr.funct3), mem);
        } else {
          RegWrite(instr.rd, ExecuteAlu(a, b, instr.funct3, instr.funct7, false), mem);
        }
      case IType =>
        var a := RegRead(instr.rs1, mem);
        match instr.opcode {
        case 0x03 =>
          var result;
          status, result := ExecuteLoad(mem, instr);
          if status != Ok {
            return;
          }
          RegWrite(instr.rd, result, mem);
        case 0x13 =>
          var funct7: u32 := 0;
          if instr.funct3 == 1 || instr.funct3 == 5 {
            funct7 := And32(Wrap(Sra(instr.imm, 5)), 0x7F);
          }
          RegWrite(instr.rd, ExecuteAlu(a, Wrap(instr.imm), instr.funct3, funct7, true), mem);
        case 0x67 =>
          RegWrite(instr.rd, pc, mem);
          pc := And32(Wrap(a + instr.imm), 0xFFFF_FFFE);
        case 0x73 =>
          status := ExecuteSystem(instr, mem);
          return;
        case _ =>
          return IllegalInstruction;
        }
      case SType =>
        status := ExecuteStore(mem, instr);
        return;
      case BType =>
        status := ExecuteBranch(instr, mem);
        return;
      case UType =>
        if instr.opcode == 0x37 {
          RegWrite(instr.rd, Wrap(instr.imm), mem);
        } else if instr.opcode == 0x17 {
          RegWrite(instr.rd, Wrap(pc + instr.imm - 4), mem);
        } else {
          return IllegalInstruction;
        }
      case JType =>
        RegWrite(instr.rd, pc, mem);
        pc := Wrap(pc + instr.imm - 4);
      }
      return Ok;
    }

    method Step(mem: Memory) returns (status: CpuStatus)
      requires Valid(mem)
      modifies this, x, mem.data
      ensures Settles(Cpu.Step(old(State(mem))), status, State(mem))
    {
      hide Cpu.Execute, DecodeWord, Load;
      if !running {
        return SyscallExit;
      }
      var raw;
      var decoded := new Instruction();
      status, raw := Fetch(mem);
      if status != Ok {
        return;
      }
      var known := decoded.Decode(raw);
      if !known {
        return DecodeError;
      }
      DecodedFieldsFit(raw);
      status := Execute(mem, decoded.Fields());
    }
  }
}
