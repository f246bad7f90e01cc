/** The processor on every machine state: which error a step reports, and what each of the 2^32 words does.

`Isa` is written from the instruction-set manual (sections 2.2 to 2.8, 7.1 and 7.2 of The RISC-V Instruction Set
Manual, Volume I, document version 20191213) and the documented system calls, with literal field positions, opcodes
and call numbers; where the emulator is more permissive than the manual it says so.  It shares no definition with
fetching, decoding or executing.
*/
module Isa {
  import opened Words
  import opened Codec
  import opened ByteMemory
  import opened MulDiv
  import opened Cpu
  import opened Source
  import opened Semantics
  import opened StepProof

  // ----- fields -----

  /** The word in four cells, least significant first. */
  function WordAt(mem: Mem, a: nat): int
    requires a + 4 <= |mem|
  {
    var b0: int, b1: int, b2: int, b3: int := mem[a], mem[a + 1], mem[a + 2], mem[a + 3];
    b0 + 0x100 * b1 + 0x1_0000 * b2 + 0x100_0000 * b3
  }

  function Rd(w: u32): u32
  {
    w / 0x80 % 32
  }

  function Funct3(w: u32): u32
  {
    w / 0x1000 % 8
  }

  function Rs1(w: u32): u32
  {
    w / 0x8000 % 32
  }

  function Rs2(w: u32): u32
  {
    w / 0x10_0000 % 32
  }

  function Funct7(w: u32): u32
  {
    w / 0x200_0000
  }

  /** Bits 31-20, signed. */
  ghost function ImmI(w: u32): int
  {
    Center(w / 0x10_0000, 0x800)
  }

  /** Bits 31-25 and 11-7, signed. */
  ghost function ImmS(w: u32): int
  {
    Center(w / 0x200_0000 * 32 + w / 0x80 % 32, 0x800)
  }

  /** Bits 31, 7, 30-25 and 11-8, doubled and signed. */
  ghost function ImmB(w: u32): int
  {
    Center(w / 0x8000_0000 * 0x1000 + w / 0x80 % 2 * 0x800 + w / 0x200_0000 % 64 * 32 + w / 0x100 % 16 * 2, 0x1000)
  }

  /** Bits 31, 19-12, 20 and 30-21, doubled and signed. */
  ghost function ImmJ(w: u32): int
  {
    Center(w / 0x8000_0000 * 0x10_0000 + w / 0x1000 % 256 * 0x1000 + w / 0x10_0000 % 2 * 0x800
           + w / 0x20_0000 % 1024 * 2, 0x10_0000)
  }

  // ----- the instructions -----

  /** Outside the M extension only bit 5 of the upper function code counts, and only for `sub` and `sra`. */
  function RegisterOp(f7: u32, f3: u32): Op
  {
    if f7 == 1 then OpOf(ClassR(1, f3))
    else OpOf(ClassR(if f7 / 32 % 2 == 1 && (f3 == 0 || f3 == 5) then 0x20 else 0, f3))
  }

  function ImmediateOp(f7: u32, f3: u32): Op
  {
    if f3 == 1 then SLL
    else if f3 == 5 then if f7 / 32 % 2 == 1 then SRA else SRL
    else RegisterForm(OpOf(ClassI(f3)))
  }

  function LoadWidth(f3: u32): (n: nat)
    ensures Width(n)
  {
    match f3
    case 0 => 1
    case 4 => 1
    case 1 => 2
    case 5 => 2
    case _ => 4
  }

  /** exit is 93, brk is 214, and 56, 57, 63, 64 and 80 are openat, close, read, write and fstat. */
  function CallMeaning(m: Machine): Outcome
  {
    match m.x[17]
    case 93 => Outcome(SyscallExit, m.(running := false))
    case 56 => Outcome(HostCall, m)
    case 57 => Outcome(HostCall, m)
    case 63 => Outcome(HostCall, m)
    case 64 => Outcome(HostCall, m)
    case 80 => Outcome(HostCall, m)
    case 214 => Outcome(Ok, m.(x := m.x[10 := 0xFFFF_FFF4]))
    case _ => Outcome(Ok, m.(x := m.x[10 := 0xFFFF_FFDA]))
  }

  ghost function RegisterWord(m: Machine, w: u32): Outcome
  {
    var x, y := Reg(m, Rs1(w)), Reg(m, Rs2(w));
    if Funct7(w) == 1 && (Funct3(w) == 4 || Funct3(w) == 6) && x == 0x8000_0000 && y == 0xFFFF_FFFF then
      Outcome(UndefinedQuotient, Advanced(m))
    else
      Outcome(Ok, SetReg(Advanced(m), Rd(w), Binary(RegisterOp(Funct7(w), Funct3(w)), x, y)))
  }

  ghost function ImmediateWord(m: Machine, w: u32): Outcome
  {
    Outcome(Ok, SetReg(Advanced(m), Rd(w), Binary(ImmediateOp(Funct7(w), Funct3(w)), Reg(m, Rs1(w)), Wrap(ImmI(w)))))
  }

  ghost function LoadWord(m: Machine, w: u32): Outcome
  {
    var addr, n := Wrap(Reg(m, Rs1(w)) + ImmI(w)), LoadWidth(Funct3(w));
    if Funct3(w) in {3, 6, 7} then Outcome(IllegalInstruction, Advanced(m))
    else if addr % n != 0 || addr + n > |m.mem| then Outcome(ExecutionError, Advanced(m))
    else Outcome(Ok, SetReg(Advanced(m), Rd(w), Extended(OpOf(ClassLoad(Funct3(w))), Load(m.mem, addr, n))))
  }

  ghost function StoreWord(m: Machine, w: u32): Outcome
  {
    var addr, n := Wrap(Reg(m, Rs1(w)) + ImmS(w)), LoadWidth(Funct3(w));
    if Funct3(w) >= 3 then Outcome(IllegalInstruction, Advanced(m))
    else if addr % n != 0 || addr + n > |m.mem| then Outcome(ExecutionError, Advanced(m))
    else Outcome(Ok, Advanced(m).(mem := Store(m.mem, addr, n, Reg(m, Rs2(w)))))
  }

  ghost function BranchWord(m: Machine, w: u32): Outcome
  {
    if Funct3(w) in {2, 3} then Outcome(IllegalInstruction, Advanced(m))
    else if Condition(OpOf(ClassBranch(Funct3(w))), Reg(m, Rs1(w)), Reg(m, Rs2(w))) then
      Outcome(Ok, m.(pc := Wrap(m.pc + ImmB(w))))
    else Outcome(Ok, Advanced(m))
  }

  ghost function SystemWord(m: Machine, w: u32): Outcome
  {
    match w / 0x10_0000
    case 0 => CallMeaning(Advanced(m))
    case 1 => Outcome(Ok, Advanced(m))
    case _ => Outcome(IllegalInstruction, Advanced(m))
  }

  /** What a fetched word does. */
  ghost function WordMeaning(m: Machine, w: u32): Outcome
  {
    match w % 128
    case 0x33 => RegisterWord(m, w)
    case 0x13 => ImmediateWord(m, w)
    case 0x03 => LoadWord(m, w)
    case 0x23 => StoreWord(m, w)
    case 0x63 => BranchWord(m, w)
    case 0x37 => Outcome(Ok, SetReg(Advanced(m), Rd(w), w / 0x1000 * 0x1000))
    case 0x17 => Outcome(Ok, SetReg(Advanced(m), Rd(w), Wrap(m.pc + w / 0x1000 * 0x1000)))
    case 0x6F => Outcome(Ok, SetReg(m, Rd(w), Wrap(m.pc + 4)).(pc := Wrap(m.pc + ImmJ(w))))
    case 0x67 => Outcome(Ok, SetReg(m, Rd(w), Wrap(m.pc + 4)).(pc := Wrap(Reg(m, Rs1(w)) + ImmI(w)) / 2 * 2))
    case 0x73 => SystemWord(m, w)
    case _ => Outcome(DecodeError, Advanced(m))
  }

  /** What a step does, on every state. */
  ghost function Isa(m: Machine): Outcome
  {
    if !m.running then Outcome(SyscallExit, m)
    else if m.pc % 4 != 0 then Outcome(FetchMisaligned, m)
    else if m.pc + 4 > |m.mem| then Outcome(FetchOutOfBounds, m)
    else
      WordInRange(m.mem, m.pc);
      WordMeaning(m, WordAt(m.mem, m.pc))
  }

  lemma WordInRange(mem: Mem, a: nat)
    requires a + 4 <= |mem|
    ensures 0 <= WordAt(mem, a) < 0x1_0000_0000
  {
  }

  // ----- the step does that -----

  lemma FetchedWord(m: Machine)
    requires m.running && m.pc % 4 == 0 && m.pc + 4 <= |m.mem|
    ensures 0 <= WordAt(m.mem, m.pc) < 0x1_0000_0000 && Fetches(m, WordAt(m.mem, m.pc))
  {
    WordInRange(m.mem, m.pc);
    LE4(m.mem[m.pc..m.pc + 4]);
  }

  /** The decoded instruction of a word, field by field. */
  ghost function Fields(format: Format, w: u32): Instr
  {
    Instr(format, w, w % 128, Rd(w), Funct3(w), Rs1(w), Rs2(w), Funct7(w), ImmOf(format, w))
  }

  lemma StepFields(m: Machine, w: u32, format: Format)
    requires Fetches(m, w) && FormatOf(w % 128) == Some(format)
    ensures FieldsFit(Fields(format, w)) && Step(m) == Execute(Advanced(m), Fields(format, w))
  {
    hide Step, Execute, Fetches, DecodeWord, FormatOf, ImmOf;
    DecodeFields(w);
    StepDecoded(m, w, Fields(format, w));
  }

  lemma Bit5(f7: u32)
    requires f7 < 128
    ensures And32(f7, 0x20) != 0 <==> f7 / 32 % 2 == 1
  {
    hide And, Pow2;
    Pow2Values();
    AndHigh(f7, 1, 5);
    AndMask(f7 / 32, 1);
  }

  lemma CanonicalCode(f7: u32, f3: u32)
    requires f7 < 128 && f7 != 1 && f3 < 8
    ensures var c := if f7 / 32 % 2 == 1 && (f3 == 0 || f3 == 5) then 0x20 else 0;
      ClassOf(RegisterOp(f7, f3)) == ClassR(c, f3)
  {
  }

  lemma AluOnCode(x: u32, y: u32, f7: u32, f3: u32)
    requires f7 < 128 && f7 != 1 && f3 < 8
    ensures ExecuteAlu(x, y, f3, f7, false) == Binary(RegisterOp(f7, f3), x, y)
  {
    hide Binary, ClassOf, RegisterOp, And32, Or32, Xor32, Shl, Shr, Sra, Wrap, Signed;
    var c: u32 := if f7 / 32 % 2 == 1 && (f3 == 0 || f3 == 5) then 0x20 else 0;
    CanonicalCode(f7, f3);
    Bit5(f7);
    Bit5(c);
    AluIsBinary(RegisterOp(f7, f3), c, f3, x, y);
  }

  lemma MulDivCode(f3: u32)
    requires f3 < 8
    ensures ClassOf(RegisterOp(1, f3)) == ClassR(1, f3)
  {
  }

  lemma UndefinedExactly(f3: u32, x: u32, y: u32)
    ensures Overflows(x, y, f3) <==> (f3 == 4 || f3 == 6) && x == 0x8000_0000 && y == 0xFFFF_FFFF
  {
  }

  lemma RegisterStep(m: Machine, w: u32)
    requires Fetches(m, w) && w % 128 == 0x33
    ensures Step(m) == RegisterWord(m, w)
  {
    hide Step, Fetches, ExecuteAlu, ExecuteMulDiv, Overflows, Binary, RegisterOp, Wrap, ImmOf, ClassOf;
    StepFields(m, w, RType);
    var x, y := Reg(m, Rs1(w)), Reg(m, Rs2(w));
    if Funct7(w) == 1 {
      MulDivCode(Funct3(w));
      MulDivIsBinary(RegisterOp(1, Funct3(w)), Funct3(w), x, y);
      UndefinedExactly(Funct3(w), x, y);
    } else {
      AluOnCode(x, y, Funct7(w), Funct3(w));
    }
  }

  /** The upper function code that the execution unit finds in a shift's immediate. */
  lemma ShiftUpper(w: u32)
    ensures And32(Wrap(Sra(ImmOf(IType, w), 5)), 0x7F) == Funct7(w)
  {
    hide Pow2, And32, ImmOf, Center;
    Pow2Values();
    ImmIValue(w);
    DivDiv(w, 0x10_0000, 32);
    UpperOfCenter(w / 0x10_0000);
    MaskValue(Wrap(ImmOf(IType, w) / 32));
  }

  lemma UpperOfCenter(v: int)
    requires 0 <= v < 0x1000
    ensures Wrap(Center(v, 0x800) / 32) % 128 == v / 32
  {
  }

  lemma ImmediateCode(f7: u32, f3: u32)
    requires f7 < 128 && f3 < 8 && f3 != 1 && f3 != 5
    ensures ClassOf(OpOf(ClassI(f3))) == ClassI(f3)
  {
  }

  lemma ShiftOnCode(x: u32, y: u32, f7: u32, f3: u32)
    requires f7 < 128 && (f3 == 1 || f3 == 5)
    ensures ExecuteAlu(x, y, f3, f7, true) == Binary(ImmediateOp(f7, f3), x, y)
  {
    hide Binary, ClassOf, And32, Or32, Xor32, Shl, Shr, Sra, Wrap, Signed;
    var op := if f3 == 1 then SLLI else if f7 / 32 % 2 == 1 then SRAI else SRLI;
    var c: u32 := if op == SRAI then 0x20 else 0;
    ShiftClass(op, c, f3);
    Bit5(f7);
    Bit5(c);
    ShiftIsBinary(op, c, f3, x, y, y);
  }

  lemma ShiftClass(op: Op, c: u32, f3: u32)
    requires (op == SLLI && c == 0 && f3 == 1) || (op == SRLI && c == 0 && f3 == 5) || (op == SRAI && c == 0x20 && f3 == 5)
    ensures ClassOf(op) == ClassShift(c, f3)
  {
  }

  lemma ImmediateStep(m: Machine, w: u32)
    requires Fetches(m, w) && w % 128 == 0x13
    ensures Step(m) == ImmediateWord(m, w)
  {
    hide Step, Fetches, ExecuteAlu, Binary, ImmOf, ClassOf, OpOf, RegisterForm, And32, Sra, Wrap, Center;
    StepFields(m, w, IType);
    ImmIValue(w);
    var x, y := Reg(m, Rs1(w)), Wrap(ImmI(w));
    if Funct3(w) == 1 || Funct3(w) == 5 {
      ShiftUpper(w);
      ShiftOnCode(x, y, Funct7(w), Funct3(w));
    } else {
      ImmediateCode(Funct7(w), Funct3(w));
      ImmediateIsBinary(OpOf(ClassI(Funct3(w))), Funct3(w), x, y);
    }
  }

  lemma LoadCode(f3: u32)
    requires f3 < 8 && f3 !in {3, 6, 7}
    ensures ClassOf(OpOf(ClassLoad(f3))) == ClassLoad(f3) && WidthOf(OpOf(ClassLoad(f3))) == AccessWidth(f3) == LoadWidth(f3)
  {
  }

  lemma LoadStep(m: Machine, w: u32)
    requires Fetches(m, w) && w % 128 == 0x03
    ensures Step(m) == LoadWord(m, w)
  {
    hide Step, Fetches, Load, Extended, SignExtend, ImmOf, ClassOf, OpOf, Wrap, Center, WidthOf, AccessWidth, LoadWidth;
    StepFields(m, w, IType);
    ImmIValue(w);
    var f3 := Funct3(w);
    if f3 !in {3, 6, 7} {
      LoadCode(f3);
      var addr, n := Wrap(Reg(m, Rs1(w)) + ImmI(w)), LoadWidth(f3);
      if Allowed(m.mem, addr, n) {
        LoadSmall(m.mem, addr, n);
        LoadExtends(OpOf(ClassLoad(f3)), f3, Load(m.mem, addr, n));
      }
    }
  }

  lemma StoreStep(m: Machine, w: u32)
    requires Fetches(m, w) && w % 128 == 0x23
    ensures Step(m) == StoreWord(m, w)
  {
    hide Step, Fetches, Load, Store, ImmOf, Wrap, Center;
    StepFields(m, w, SType);
    ImmSValue(w);
  }

  lemma BranchCode(f3: u32)
    requires f3 < 8 && f3 !in {2, 3}
    ensures ClassOf(OpOf(ClassBranch(f3))) == ClassBranch(f3)
  {
  }

  lemma BranchStep(m: Machine, w: u32)
    requires Fetches(m, w) && w % 128 == 0x63
    ensures Step(m) == BranchWord(m, w)
  {
    hide Step, Fetches, BranchTaken, Condition, ImmOf, ClassOf, OpOf, Wrap, Center;
    StepFields(m, w, BType);
    ImmBValue(w);
    var f3 := Funct3(w);
    if f3 !in {2, 3} {
      BranchCode(f3);
      BranchFunct(OpOf(ClassBranch(f3)), f3, Reg(m, Rs1(w)), Reg(m, Rs2(w)));
    }
    JumpFrom(m.pc, ImmB(w));
  }

  lemma UpperStep(m: Machine, w: u32)
    requires Fetches(m, w) && (w % 128 == 0x37 || w % 128 == 0x17)
    ensures Step(m) == WordMeaning(m, w)
  {
    hide Step, Fetches, ImmOf, Center;
    StepFields(m, w, UType);
    ImmUValue(w);
    UpperWord(m.pc, w / 0x1000 * 0x1000);
  }

  lemma UpperWord(pc: u32, v: u32)
    ensures Wrap(Signed(v)) == v && Wrap(Wrap(pc + 4) + Signed(v) - 4) == Wrap(pc + v)
  {
    hide Wrap;
    JumpFrom(pc, Signed(v));
    WrapAdd(Signed(v), pc);
    WrapAdd(v, pc);
    assert Wrap(v) == v by { SmallWrap(v); }
  }

  lemma JumpStep(m: Machine, w: u32)
    requires Fetches(m, w) && (w % 128 == 0x6F || w % 128 == 0x67)
    ensures Step(m) == WordMeaning(m, w)
  {
    hide Step, Fetches, ImmOf, Wrap, Center, And32;
    if w % 128 == 0x6F {
      StepFields(m, w, JType);
      ImmJValue(w);
      JumpFrom(m.pc, ImmJ(w));
    } else {
      StepFields(m, w, IType);
      ImmIValue(w);
      ClearLowBit(Wrap(Reg(m, Rs1(w)) + ImmI(w)));
    }
  }

  lemma SystemCode(w: u32)
    ensures And32(Wrap(ImmOf(IType, w)), 0xFFF) == w / 0x10_0000
  {
    hide And32, ImmOf, Center;
    ImmIValue(w);
    LowBitsOfCenter12(w / 0x10_0000);
    MaskValue(Wrap(ImmOf(IType, w)));
  }

  lemma SystemStep(m: Machine, w: u32)
    requires Fetches(m, w) && w % 128 == 0x73
    ensures Step(m) == SystemWord(m, w)
  {
    hide Step, Fetches, ImmOf, And32, Center, Cpu.HandleSyscall;
    StepFields(m, w, IType);
    SystemCode(w);
    CallsMeanThat(Advanced(m));
  }

  lemma CallsMeanThat(m: Machine)
    ensures HandleSyscall(m) == CallMeaning(m)
  {
    assert Wrap(-12) == 0xFFFF_FFF4 && Wrap(-38) == 0xFFFF_FFDA;
  }

  /** A word whose low seven bits are none of the ten opcodes is refused. */
  lemma UnknownStep(m: Machine, w: u32)
    requires Fetches(m, w) && w % 128 !in {0x33, 0x13, 0x03, 0x23, 0x63, 0x37, 0x17, 0x6F, 0x67, 0x73}
    ensures Step(m) == Outcome(DecodeError, Advanced(m)) && DecodeWord(w) == None
  {
    hide DecodeWord, ImmOf, Load;
    DecodeFields(w);
  }

  /** On every state of the processor a step is exactly what the manual says of the fetched word, with the error
      of a failed fetch: the alignment is reported first, whatever the bounds. */
  lemma StepExact(m: Machine)
    ensures Step(m) == Isa(m)
  {
    hide Load, DecodeWord, Execute, WordAt, RegisterWord, ImmediateWord, LoadWord, StoreWord, BranchWord, SystemWord;
    if m.running && m.pc % 4 == 0 && m.pc + 4 <= |m.mem| {
      FetchedWord(m);
      StepOnWord(m, WordAt(m.mem, m.pc));
    }
  }

  lemma StepOnWord(m: Machine, w: u32)
    requires Fetches(m, w)
    ensures Step(m) == WordMeaning(m, w)
  {
    hide Step, Fetches, RegisterWord, ImmediateWord, LoadWord, StoreWord, BranchWord, SystemWord, DecodeWord;
    match w % 128 {
    case 0x33 => RegisterStep(m, w);
    case 0x13 => ImmediateStep(m, w);
    case 0x03 => LoadStep(m, w);
    case 0x23 => StoreStep(m, w);
    case 0x63 => BranchStep(m, w);
    case 0x37 | 0x17 => UpperStep(m, w);
    case 0x6F | 0x67 => JumpStep(m, w);
    case 0x73 => SystemStep(m, w);
    case _ => UnknownStep(m, w);
    }
  }

  /** A word decodes if and only if its low seven bits are one of the ten opcodes. */
  lemma DecodesExactly(w: u32)
    ensures DecodeWord(w).Some? <==> w % 128 in {0x33, 0x13, 0x03, 0x23, 0x63, 0x37, 0x17, 0x6F, 0x67, 0x73}
  {
    hide DecodeWord, ImmOf;
    DecodeFields(w);
  }

  lemma WordStatus(m: Machine, w: u32)
    ensures WordMeaning(m, w).status !in {FetchError, FetchMisaligned, FetchOutOfBounds}
  {
    hide Binary, RegisterOp, ImmediateOp, Load, Store, Extended, Condition, Center, Wrap;
  }

  /** However a call settles: a running processor that cannot fetch reports misalignment first and a bounds error
      only for an aligned pc, and stays as it is. */
  lemma FetchErrors(m: Machine, status: CpuStatus, m': Machine)
    requires m.running && Settles(Step(m), status, m')
    ensures m.pc % 4 != 0 ==> status == FetchMisaligned && m' == m
    ensures m.pc % 4 == 0 && m.pc + 4 > |m.mem| ==> status == FetchOutOfBounds && m' == m
    ensures m.pc % 4 == 0 && m.pc + 4 <= |m.mem| ==> status !in {FetchError, FetchMisaligned, FetchOutOfBounds}
  {
    hide Step, WordMeaning, WordAt, HostEffect;
    StepExact(m);
    if m.pc % 4 == 0 && m.pc + 4 <= |m.mem| {
      WordInRange(m.mem, m.pc);
      WordStatus(m, WordAt(m.mem, m.pc));
    }
  }

  /** What the host may do, call by call: 63 is read, 64 write, 56 openat, 57 close and 80 fstat. */
  lemma HostTable(m: Machine, m': Machine)
    ensures HostEffect(m, m') <==>
      var num, buffer: int, count: int := m.x[17], m.x[11], m.x[12];
      m'.pc == m.pc && m'.running == m.running && |m'.mem| == |m.mem|
      && (forall r :: 0 <= r < 32 && r != 10 ==> m'.x[r] == m.x[r])
      && (forall i :: 0 <= i < |m.mem| && m'.mem[i] != m.mem[i] ==>
            (num == 63 && buffer + count <= |m.mem| && buffer <= i < buffer + count)
            || (num == 80 && buffer <= i < buffer + 64))
      && ((num == 63 || num == 64) && buffer + count > |m.mem| ==> m'.x[10] == 0xFFFF_FFFF)
  {
    assert (forall r :: 0 <= r < 32 && r != 10 ==> m'.x[r] == m.x[r]) <==> m'.x == m.x[10 := m'.x[10]];
  }
}
