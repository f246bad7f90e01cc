/** Forward simulation: stepping the processor through a source line performs the meaning of that line. */
module Correctness {
  import opened Words
  import opened Codec
  import opened ByteMemory
  import opened Cpu
  import opened Text
  import opened Source
  import opened Layout
  import opened Lockstep
  import opened ImageProof
  import opened Semantics
  import opened StepProof
  import opened Simulation

  /** The situation in which a source line is simulated. */
  ghost predicate Ready(lines: seq<Line>, load: u32, k: nat, m: Machine)
  {
    WellFormed(lines) && Loaded(lines, load, m.mem) && AtLine(lines, load, k, m)
  }

  lemma CodeIsWellFormed(lines: seq<Line>, k: nat)
    requires WellFormed(lines) && Runnable(lines, k)
    ensures WellFormedCode(lines, TokensAt(lines, k)) && NoDuplicateLabels(lines)
    ensures 0 <= PcAt(lines, k) < 0x1_0000_0000 && Wrap(PcAt(lines, k)) == PcAt(lines, k)
  {
    hide WellFormedCode, InRangeCode, PcAt, Total, OffsetAt;
    SizableAgrees(lines);
    assert SizableLine(lines, k);
    TextTypeOfText();
    PcFits(lines, k);
  }

  /** The word that the processor fetches for a line that is not a pseudo-instruction. */
  lemma PlainFetch(lines: seq<Line>, load: u32, k: nat, m: Machine)
    requires Ready(lines, load, k, m) && !ClassOf(TokensAt(lines, k).op).ClassPseudo?
    ensures var r := EncodeInstruction(FinalLabels(lines), Wrap(PcAt(lines, k)), TokensAt(lines, k));
      r.Done? && Fetches(m, r.value)
    ensures CodeCount(TokensAt(lines, k)) == 1
  {
    hide Sizable, Ordered, WellFormedCode, ClassOf, KindOf, EncodeInstruction, EncodeAll, Loaded, PcAt, FinalLabels,
         InRangeCode, Fetches;
    CodeIsWellFormed(lines, k);
    var t, pc, labels := TokensAt(lines, k), Wrap(PcAt(lines, k)), FinalLabels(lines);
    CodeEmits(lines, pc, t);
    SingleDone(labels, pc, t);
    FetchesSingle(lines, load, k, m, t);
    PlainCount(t);
  }

  lemma SingleDone(labels: seq<Label>, pc: u32, t: Tokens)
    requires EncodeAll(labels, pc, [t]).Done?
    ensures EncodeInstruction(labels, pc, t).Done?
  {
    hide EncodeInstruction, Bytes;
  }

  lemma PlainCount(t: Tokens)
    requires !ClassOf(t.op).ClassPseudo?
    ensures CodeCount(t) == 1
  {
  }

  // ----- one lemma per instruction class -----

  lemma SimulateR(lines: seq<Line>, load: u32, k: nat, m: Machine)
    requires Ready(lines, load, k, m) && KindOf(TokensAt(lines, k).op).KindRegister?
    ensures Step(m) == Meaning(lines, load, k, m)
  {
    hide Sizable, Ordered, Loaded, PcAt, FinalLabels, RegNum, EncodeR, Fetches, Step, Binary, Undefined, ClassOf,
         KindOf;
    KindIsClass(TokensAt(lines, k).op);
    PlainFetch(lines, load, k, m);
    var t := TokensAt(lines, k);
    RegFieldIsReg(t.a1); RegFieldIsReg(t.a2); RegFieldIsReg(t.a3);
    StepR(m, t.op, ClassOf(t.op).funct7, ClassOf(t.op).funct3, RegOf(t.a1), RegOf(t.a2), RegOf(t.a3));
  }

  lemma SimulateI(lines: seq<Line>, load: u32, k: nat, m: Machine)
    requires Ready(lines, load, k, m) && KindOf(TokensAt(lines, k).op).KindImmediate?
    ensures Step(m) == Meaning(lines, load, k, m)
  {
    hide Sizable, Ordered, Loaded, PcAt, FinalLabels, RegNum, EncodeI, Fetches, Step, Binary, ClassOf, KindOf,
         Denotes, ParseImm, Readable;
    KindIsClass(TokensAt(lines, k).op);
    PlainFetch(lines, load, k, m);
    CodeIsWellFormed(lines, k);
    var t := TokensAt(lines, k);
    OperandParses(lines, t.a3);
    RegFieldIsReg(t.a1); RegFieldIsReg(t.a2);
    StepI(m, t.op, ClassOf(t.op).funct3, RegOf(t.a1), RegOf(t.a2), Denotes(lines, t.a3));
  }

  lemma SimulateShift(lines: seq<Line>, load: u32, k: nat, m: Machine)
    requires Ready(lines, load, k, m) && KindOf(TokensAt(lines, k).op).KindShift?
    ensures Step(m) == Meaning(lines, load, k, m)
  {
    hide Sizable, Ordered, Loaded, PcAt, FinalLabels, RegNum, EncodeR, Fetches, Step, Binary, ClassOf, KindOf,
         Denotes, ParseImm, Readable, And32;
    KindIsClass(TokensAt(lines, k).op);
    PlainFetch(lines, load, k, m);
    CodeIsWellFormed(lines, k);
    var t := TokensAt(lines, k);
    OperandParses(lines, t.a3);
    RegFieldIsReg(t.a1); RegFieldIsReg(t.a2);
    var y := Wrap(Denotes(lines, t.a3));
    MaskValue(y);
    StepShift(m, t.op, ClassOf(t.op).funct7, ClassOf(t.op).funct3, RegOf(t.a1), RegOf(t.a2), y);
  }

  lemma SimulateLoad(lines: seq<Line>, load: u32, k: nat, m: Machine)
    requires Ready(lines, load, k, m) && KindOf(TokensAt(lines, k).op).KindLoad?
    ensures Step(m) == Meaning(lines, load, k, m)
  {
    hide Sizable, Ordered, Loaded, PcAt, FinalLabels, RegNum, EncodeI, Fetches, Step, ClassOf, KindOf, Denotes,
         ParseImm, Readable, Load, Extended, WidthOf;
    KindIsClass(TokensAt(lines, k).op);
    PlainFetch(lines, load, k, m);
    CodeIsWellFormed(lines, k);
    var t := TokensAt(lines, k);
    OperandParses(lines, t.a2);
    RegFieldIsReg(t.a1); RegFieldIsReg(t.a3);
    StepLoad(m, t.op, ClassOf(t.op).funct3, RegOf(t.a1), RegOf(t.a3), Denotes(lines, t.a2));
  }

  lemma SimulateStore(lines: seq<Line>, load: u32, k: nat, m: Machine)
    requires Ready(lines, load, k, m) && KindOf(TokensAt(lines, k).op).KindStore?
    ensures Step(m) == Meaning(lines, load, k, m)
  {
    hide Sizable, Ordered, Loaded, PcAt, FinalLabels, RegNum, EncodeS, Fetches, Step, ClassOf, KindOf, Denotes,
         ParseImm, Readable, Store, WidthOf;
    KindIsClass(TokensAt(lines, k).op);
    PlainFetch(lines, load, k, m);
    CodeIsWellFormed(lines, k);
    var t := TokensAt(lines, k);
    OperandParses(lines, t.a2);
    RegFieldIsReg(t.a1); RegFieldIsReg(t.a3);
    StepStore(m, t.op, ClassOf(t.op).funct3, RegOf(t.a3), RegOf(t.a1), Denotes(lines, t.a2));
  }

  lemma SimulateBranch(lines: seq<Line>, load: u32, k: nat, m: Machine)
    requires Ready(lines, load, k, m) && KindOf(TokensAt(lines, k).op).KindBranch?
    ensures Step(m) == Meaning(lines, load, k, m)
  {
    hide Sizable, Ordered, Loaded, PcAt, FinalLabels, RegNum, EncodeB, Fetches, Step, ClassOf, KindOf, Denotes,
         ParseImm, Readable, Condition, Displacement;
    KindIsClass(TokensAt(lines, k).op);
    PlainFetch(lines, load, k, m);
    CodeIsWellFormed(lines, k);
    var t := TokensAt(lines, k);
    OperandParses(lines, t.a3);
    RegFieldIsReg(t.a1); RegFieldIsReg(t.a2);
    var d := Denotes(lines, t.a3) - PcAt(lines, k);
    DisplacementExact(Denotes(lines, t.a3), PcAt(lines, k));
    StepBranch(m, t.op, ClassOf(t.op).funct3, RegOf(t.a1), RegOf(t.a2), d);
  }

  lemma SimulateJal(lines: seq<Line>, load: u32, k: nat, m: Machine)
    requires Ready(lines, load, k, m) && KindOf(TokensAt(lines, k).op).KindJal?
    ensures Step(m) == Meaning(lines, load, k, m)
  {
    hide Sizable, Ordered, Loaded, PcAt, FinalLabels, RegNum, EncodeJ, Fetches, Step, ClassOf, KindOf, Denotes,
         ParseImm, Readable, Displacement;
    KindIsClass(TokensAt(lines, k).op);
    PlainFetch(lines, load, k, m);
    CodeIsWellFormed(lines, k);
    var t := TokensAt(lines, k);
    OperandParses(lines, t.a2);
    RegFieldIsReg(t.a1);
    DisplacementExact(Denotes(lines, t.a2), PcAt(lines, k));
    StepJal(m, RegOf(t.a1), Denotes(lines, t.a2) - PcAt(lines, k));
  }

  lemma SimulateJalr(lines: seq<Line>, load: u32, k: nat, m: Machine)
    requires Ready(lines, load, k, m) && KindOf(TokensAt(lines, k).op).KindJalr?
    ensures Step(m) == Meaning(lines, load, k, m)
  {
    hide Sizable, Ordered, Loaded, PcAt, FinalLabels, RegNum, EncodeI, Fetches, Step, ClassOf, KindOf, Denotes,
         ParseImm, Readable, Even;
    KindIsClass(TokensAt(lines, k).op);
    PlainFetch(lines, load, k, m);
    CodeIsWellFormed(lines, k);
    var t := TokensAt(lines, k);
    OperandParses(lines, t.a3);
    RegFieldIsReg(t.a1); RegFieldIsReg(t.a2);
    StepJalr(m, RegOf(t.a1), RegOf(t.a2), Denotes(lines, t.a3));
  }

  lemma SimulateUpper(lines: seq<Line>, load: u32, k: nat, m: Machine)
    requires Ready(lines, load, k, m) && KindOf(TokensAt(lines, k).op).KindUpper?
    ensures Step(m) == Meaning(lines, load, k, m)
  {
    hide Sizable, Ordered, Loaded, PcAt, FinalLabels, RegNum, EncodeU, Fetches, Step, Denotes, ParseImm, Readable,
         Wrap;
    KindIsClass(TokensAt(lines, k).op);
    PlainFetch(lines, load, k, m);
    CodeIsWellFormed(lines, k);
    var t := TokensAt(lines, k);
    OperandParses(lines, t.a2);
    RegFieldIsReg(t.a1);
    var v := Denotes(lines, t.a2);
    var upper := WrapSigned(WrapSigned(v) * 0x1000);
    UpperValue(v, m.pc);
    StepUpper(m, ClassOf(t.op).opcode, RegOf(t.a1), upper);
  }

  /** Shifting left by twelve loses the same multiples of 2^32 before and after wrapping. */
  lemma UpperValue(v: int, pc: int)
    ensures var upper := WrapSigned(WrapSigned(v) * 0x1000);
      upper % 0x1000 == 0 && Wrap(upper) == Wrap(v * 0x1000) && Wrap(pc + upper) == Wrap(pc + v * 0x1000)
  {
    var s: int := WrapSigned(v);
    SameWord(s, v);
    WrapCongruent(s * 0x1000, v * 0x1000, (s - v) / 0x1_0000_0000 * 0x1000);
    var u: int := WrapSigned(s * 0x1000);
    SameWord(u, s * 0x1000);
    WrapAdd(u, pc);
    WrapAdd(v * 0x1000, pc);
    MultipleOf4096(u, s, (u - s * 0x1000) / 0x1_0000_0000);
  }

  lemma MultipleOf4096(u: int, s: int, q: int)
    requires u == s * 0x1000 + q * 0x1_0000_0000
    ensures u % 0x1000 == 0
  {
    DivModUnique(u, 0x1000, s + q * 0x10_0000, 0);
  }

  lemma SimulateSystem(lines: seq<Line>, load: u32, k: nat, m: Machine)
    requires Ready(lines, load, k, m) && KindOf(TokensAt(lines, k).op).KindSystem?
    ensures Step(m) == Meaning(lines, load, k, m)
  {
    hide Sizable, Ordered, Loaded, PcAt, FinalLabels, EncodeI, Fetches, Step, SystemCall;
    KindIsClass(TokensAt(lines, k).op);
    PlainFetch(lines, load, k, m);
    StepSystem(m, ClassOf(TokensAt(lines, k).op).code);
  }

  // ----- pseudo-instructions -----

  lemma Hi20Value(v: i32)
    ensures Hi20(v) == WrapSigned(v + 0x800) / 0x1000
    ensures WrapSigned(Hi20(v) * 0x1000) == Hi20(v) * 0x1000
  {
    assert Pow2(12) == 0x1000 by { Pow2Values(); }
    var s: int := WrapSigned(v + 0x800);
    assert -0x8_0000 <= s / 0x1000 < 0x8_0000;
  }

  /** The rounded split of a 32-bit value: the low part fits twelve signed bits, and the parts add up. */
  lemma SplitSum(v: i32)
    ensures FitsImm(Lo12(v))
    ensures Wrap(Hi20(v) * 0x1000 + Lo12(v)) == Wrap(v)
  {
    hide Hi20, Wrap, Signed;
    Hi20Value(v);
    var s: int := WrapSigned(v + 0x800);
    var h, r := s / 0x1000, s % 0x1000;
    SameWord(s, v + 0x800);
    var q := (s - (v + 0x800)) / 0x1_0000_0000;
    WrapCongruent(v - h * 0x1000, r - 0x800, -q);
    WrapCongruent(h * 0x1000 + (r - 0x800), v, q);
    assert Lo12(v) == WrapSigned(r - 0x800) == r - 0x800;
  }

  /** A line emitted as one `addi`. */
  lemma AddiLine(lines: seq<Line>, load: u32, k: nat, m: Machine, t: Tokens, imm: i32)
    requires Ready(lines, load, k, m) && t.op == ADDI && ValidReg(t.a1) && ValidReg(t.a2) && FitsImm(imm)
    requires ParseImm(FinalLabels(lines), t.a3) == Done(imm)
    requires var pc := Wrap(PcAt(lines, k));
      CodeBytes(FinalLabels(lines), pc, TokensAt(lines, k)) == EncodeAll(FinalLabels(lines), pc, [t])
    ensures Step(m) == Outcome(Ok, SetReg(Advanced(m), RegOf(t.a1), Wrap(Reg(m, RegOf(t.a2)) + Wrap(imm))))
  {
    hide Sizable, Ordered, Loaded, PcAt, FinalLabels, RegNum, EncodeI, EncodeAll, CodeBytes, Fetches, Step,
         ParseImm, InRangeCode;
    FetchesSingle(lines, load, k, m, t);
    RegFieldIsReg(t.a1); RegFieldIsReg(t.a2);
    StepI(m, ADDI, 0, RegOf(t.a1), RegOf(t.a2), imm);
  }

  /** A line emitted as one `jal`. */
  lemma JalLine(lines: seq<Line>, load: u32, k: nat, m: Machine, t: Tokens)
    requires Ready(lines, load, k, m) && t.op == JAL && ValidReg(t.a1)
    requires Readable(lines, t.a2) && Reaches(lines, k, t.a2, 0x10_0000)
    requires var pc := Wrap(PcAt(lines, k));
      CodeBytes(FinalLabels(lines), pc, TokensAt(lines, k)) == EncodeAll(FinalLabels(lines), pc, [t])
    ensures Step(m) == Outcome(Ok, SetReg(m, RegOf(t.a1), Wrap(m.pc + 4)).(pc := Wrap(load + Denotes(lines, t.a2))))
  {
    hide Sizable, Ordered, Loaded, PcAt, FinalLabels, RegNum, EncodeJ, EncodeAll, CodeBytes, Fetches, Step,
         ParseImm, InRangeCode, Readable, Denotes, Displacement;
    CodeIsWellFormed(lines, k);
    OperandParses(lines, t.a2);
    DisplacementExact(Denotes(lines, t.a2), PcAt(lines, k));
    FetchesSingle(lines, load, k, m, t);
    RegFieldIsReg(t.a1);
    StepJal(m, RegOf(t.a1), Denotes(lines, t.a2) - PcAt(lines, k));
  }

  /** Two steps, the first of which succeeds. */
  lemma TwoSteps(m: Machine, m': Machine)
    requires Step(m) == Outcome(Ok, m')
    ensures Steps(m, 2) == Step(m') && Steps(m, 1) == Step(m)
  {
    hide Step;
    OneStep(m);
    OneStep(m');
    assert Steps(m, 2) == Steps(m', 1);
  }

  lemma OneStep(m: Machine)
    ensures Steps(m, 1) == Step(m)
  {
  }

  /** Line `k` is emitted as `lui` or `auipc` and `addi` on one register, for the two parts of a value. */
  ghost predicate UpperPair(lines: seq<Line>, k: nat, upper: Op, a: string, v: i32)
    requires Runnable(lines, k)
  {
    var pc := Wrap(PcAt(lines, k));
    CodeBytes(FinalLabels(lines), pc, TokensAt(lines, k))
    == EncodeAll(FinalLabels(lines), pc, [UpperTokens(upper, a, v), LowerTokens(a, v)])
  }

  function UpperTokens(upper: Op, a: string, v: i32): Tokens
  {
    Tokens(upper, a, PrintInt(Hi20(v)), "")
  }

  function LowerTokens(a: string, v: i32): Tokens
  {
    Tokens(ADDI, a, a, PrintInt(Lo12(v)))
  }

  lemma UpperEncoded(labels: seq<Label>, pc: u32, upper: Op, a: string, v: i32)
    requires (upper == LUI || upper == AUIPC) && ValidReg(a)
    ensures EncodeInstruction(labels, pc, UpperTokens(upper, a, v))
         == Done(EncodeU(WrapSigned(Hi20(v) * 0x1000), RegOf(a), if upper == LUI then 0x37 else 0x17))
  {
    hide EncodeU, ParseImm, PrintInt, Hi20, Lo12, RegNum, WrapSigned, RegField;
    SplitParses(labels, v);
    RegFieldIsReg(a);
  }

  lemma LowerEncoded(labels: seq<Label>, pc: u32, a: string, v: i32)
    requires ValidReg(a)
    ensures EncodeInstruction(labels, pc, LowerTokens(a, v)) == Done(EncodeI(Lo12(v), RegOf(a), 0, RegOf(a), 0x13))
  {
    hide EncodeI, ParseImm, PrintInt, Hi20, Lo12, RegNum, RegField;
    SplitParses(labels, v);
    RegFieldIsReg(a);
  }

  /** The base to which an upper instruction adds. */
  function UpperBase(upper: Op, m: Machine): u32
  {
    if upper == LUI then 0 else m.pc
  }

  lemma UpperFirst(lines: seq<Line>, load: u32, k: nat, m: Machine, upper: Op, a: string, v: i32)
    requires Ready(lines, load, k, m) && (upper == LUI || upper == AUIPC) && ValidReg(a) && UpperPair(lines, k, upper, a, v)
    ensures m.pc + 8 < 0x1_0000_0000
    ensures Step(m) == Outcome(Ok, SetReg(m.(pc := m.pc + 4), RegOf(a),
                                          Wrap(UpperBase(upper, m) + WrapSigned(Hi20(v) * 0x1000))))
  {
    hide Sizable, Ordered, Loaded, PcAt, FinalLabels, RegNum, EncodeInstruction, EncodeI, EncodeU, EncodeAll,
         CodeBytes, Fetches, Step, InRangeCode, Hi20, Lo12, UpperTokens, LowerTokens, Wrap, WrapSigned, AtLine;
    AtLineFacts(lines, load, k, m);
    var labels, pc := FinalLabels(lines), Wrap(PcAt(lines, k));
    UpperEncoded(labels, pc, upper, a, v);
    LowerEncoded(labels, Wrap(Wrap(PcAt(lines, k)) + 4), a, v);
    RegFieldIsReg(a);
    FetchesFirst(lines, load, k, m, UpperTokens(upper, a, v), LowerTokens(a, v));
    PartAligned(Hi20(v));
    StepUpper(m, if upper == LUI then 0x37 else 0x17, RegOf(a), WrapSigned(Hi20(v) * 0x1000));
    SmallWrap(m.pc + 4);
  }

  lemma LowerSecond(lines: seq<Line>, load: u32, k: nat, m: Machine, m': Machine, upper: Op, a: string, v: i32)
    requires Ready(lines, load, k, m) && (upper == LUI || upper == AUIPC) && ValidReg(a) && UpperPair(lines, k, upper, a, v)
    requires m'.running && m'.mem == m.mem && m'.pc == m.pc + 4
    ensures Step(m') == Outcome(Ok, SetReg(m'.(pc := Wrap(m.pc + 8)), RegOf(a), Wrap(Reg(m', RegOf(a)) + Wrap(Lo12(v)))))
  {
    hide Sizable, Ordered, Loaded, PcAt, FinalLabels, RegNum, EncodeInstruction, EncodeI, EncodeU, EncodeAll,
         CodeBytes, Fetches, Step, InRangeCode, Hi20, Lo12, UpperTokens, LowerTokens, Wrap, WrapSigned, AtLine, Reg,
         FitsImm;
    AtLineFacts(lines, load, k, m);
    var labels, pc := FinalLabels(lines), Wrap(PcAt(lines, k));
    UpperEncoded(labels, pc, upper, a, v);
    LowerEncoded(labels, Wrap(Wrap(PcAt(lines, k)) + 4), a, v);
    RegFieldIsReg(a);
    SplitSum(v);
    FetchesSecond(lines, load, k, m, m', UpperTokens(upper, a, v), LowerTokens(a, v));
    StepI(m', ADDI, 0, RegOf(a), RegOf(a), Lo12(v));
    assert m'.pc as int + 4 == m.pc + 8;
  }

  /** A line emitted as `lui` or `auipc` followed by `addi` on the same register: the upper part, the base of
      the upper instruction and the lower part add up in the register. */
  lemma UpperPairLine(lines: seq<Line>, load: u32, k: nat, m: Machine, upper: Op, a: string, v: i32)
    requires Ready(lines, load, k, m) && (upper == LUI || upper == AUIPC) && ValidReg(a) && UpperPair(lines, k, upper, a, v)
    ensures Steps(m, 2) == Outcome(Ok, SetReg(m.(pc := Wrap(m.pc + 8)), RegOf(a), Wrap(UpperBase(upper, m) + v)))
  {
    hide Sizable, Ordered, Loaded, AtLine, Step, Steps, Hi20, Lo12, Wrap, WrapSigned, RegNum, UpperPair, UpperBase;
    AtLineFacts(lines, load, k, m);
    RegFieldIsReg(a);
    UpperFirst(lines, load, k, m, upper, a, v);
    var m' := Step(m).m;
    LowerSecond(lines, load, k, m, m', upper, a, v);
    TwoSteps(m, m');
    SplitSum(v);
    PairSum(UpperBase(upper, m), Hi20(v), Lo12(v), v);
    if RegOf(a) != 0 {
      assert Step(m').m.x == m.x[RegOf(a) := Wrap(UpperBase(upper, m) + v)];
    }
  }

  lemma AtLineFacts(lines: seq<Line>, load: u32, k: nat, m: Machine)
    requires AtLine(lines, load, k, m)
    ensures Runnable(lines, k) && m.running && m.pc == load + PcAt(lines, k)
  {
  }

  lemma PartAligned(h: i32)
    ensures WrapSigned(h * 0x1000) % 0x1000 == 0
  {
  }

  lemma PairSum(base: u32, hi: i32, lo: i32, v: i32)
    requires Wrap(hi * 0x1000 + lo) == Wrap(v)
    ensures Wrap(Wrap(base + WrapSigned(hi * 0x1000)) + Wrap(lo)) == Wrap(base + v)
  {
    hide Wrap;
    var part: int := WrapSigned(hi * 0x1000);
    WrapAdd(base + part, Wrap(lo));
    WrapAdd(lo, base + part);
    WrapAdd(part, base + lo);
    WrapAdd(hi * 0x1000, base + lo);
    WrapAdd(hi * 0x1000 + lo, base);
    WrapAdd(v, base);
  }

  lemma PseudoUnfolds(lines: seq<Line>, load: u32, k: nat, m: Machine)
    requires Runnable(lines, k) && KindOf(TokensAt(lines, k).op).KindPseudo?
    ensures Meaning(lines, load, k, m) == PseudoMeaning(lines, load, k, m)
  {
    hide PseudoMeaning, PcAt, RegNum, Denotes, CodeCount, Wrap, Binary, Extended, Condition, SystemCall,
         InRangeCode;
  }

  lemma PseudoClass(op: Op)
    requires op in {NOP, MV, LI, LA, CALL, RET, J}
    ensures ClassOf(op).ClassPseudo? && KindOf(op).KindPseudo?
  {
  }

  /** The register of `li` and `la` is valid on a line that can run. */
  lemma LoadRegister(lines: seq<Line>, k: nat)
    requires Runnable(lines, k) && (TokensAt(lines, k).op == LI || TokensAt(lines, k).op == LA)
    ensures ValidReg(TokensAt(lines, k).a1)
  {
    hide PcAt, RegNum, Denotes, Reaches, ShortImm;
  }

  lemma LiMeaning(lines: seq<Line>, load: u32, k: nat, m: Machine)
    requires Runnable(lines, k) && TokensAt(lines, k).op == LI
    ensures var t := TokensAt(lines, k);
      ValidReg(t.a1) && Meaning(lines, load, k, m)
      == Outcome(Ok, SetReg(m.(pc := Wrap(load + PcAt(lines, k) + 4 * CodeCount(t))), RegOf(t.a1), Wrap(Denotes(lines, t.a2))))
  {
    hide PcAt, RegNum, Denotes, CodeCount, Wrap, LabelTarget, Even, InRangeCode, ClassOf, KindOf, Meaning;
    PseudoClass(LI);
    LoadRegister(lines, k);
    PseudoUnfolds(lines, load, k, m);
  }

  lemma LiCode(labels: seq<Label>, pc: u32, t: Tokens)
    requires t.op == LI && Numeric(t.a2)
    ensures var v := NumericValue(t.a2);
      CodeCount(t) == (if FitsImm(v) then 1 else 2)
      && CodeBytes(labels, pc, t) == EncodeAll(labels, pc,
           if FitsImm(v) then [Tokens(ADDI, t.a1, "x0", PrintInt(v))]
           else [Tokens(LUI, t.a1, PrintInt(Hi20(v)), ""), Tokens(ADDI, t.a1, t.a1, PrintInt(Lo12(v)))])
  {
    hide EncodeAll, PrintInt, Hi20, Lo12, NumericValue, Numeric, ParseImm;
    NumericImm(labels, t.a2);
  }

  /** `li`: one `addi` for a small value, `lui` and `addi` for any other. */
  lemma SimulateLoadImmediate(lines: seq<Line>, load: u32, k: nat, m: Machine)
    requires Ready(lines, load, k, m) && TokensAt(lines, k).op == LI
    ensures Steps(m, CodeCount(TokensAt(lines, k))) == Meaning(lines, load, k, m)
  {
    hide Sizable, Ordered, Loaded, PcAt, FinalLabels, RegNum, EncodeAll, Step, Steps, ParseImm, Numeric, PrintInt,
         Hi20, Lo12, NumericValue, AtLine, Meaning, CodeBytes, CodeCount, Wrap, InRangeCode, Denotes;
    AtLineFacts(lines, load, k, m);
    CodeIsWellFormed(lines, k);
    var labels, pc, t := FinalLabels(lines), Wrap(PcAt(lines, k)), TokensAt(lines, k);
    LiIsNumeric(lines, t);
    var v := NumericValue(t.a2);
    LiCode(labels, pc, t);
    LiMeaning(lines, load, k, m);
    NumericDenotes(lines, t.a2);
    if FitsImm(v) {
      LiShort(lines, load, k, m, v);
    } else {
      UpperPairLine(lines, load, k, m, LUI, t.a1, v);
    }
  }

  lemma LiShort(lines: seq<Line>, load: u32, k: nat, m: Machine, v: i32)
    requires Ready(lines, load, k, m) && FitsImm(v) && ValidReg(TokensAt(lines, k).a1)
    requires var pc, t := Wrap(PcAt(lines, k)), TokensAt(lines, k);
      CodeBytes(FinalLabels(lines), pc, t) == EncodeAll(FinalLabels(lines), pc, [Tokens(ADDI, t.a1, "x0", PrintInt(v))])
    ensures Steps(m, 1) == Outcome(Ok, SetReg(Advanced(m), RegOf(TokensAt(lines, k).a1), Wrap(v)))
  {
    hide Sizable, Ordered, Loaded, PcAt, FinalLabels, RegNum, EncodeAll, Step, Steps, ParseImm, PrintInt, CodeBytes,
         InRangeCode;
    FixedRegisters();
    SplitParses(FinalLabels(lines), v);
    AddiLine(lines, load, k, m, Tokens(ADDI, TokensAt(lines, k).a1, "x0", PrintInt(v)), v);
    OneStep(m);
    SmallWrap(Wrap(v));
  }

  lemma NumericDenotes(lines: seq<Line>, a: string)
    requires Numeric(a)
    ensures Denotes(lines, a) == NumericValue(a)
  {
  }

  lemma LaMeaning(lines: seq<Line>, load: u32, k: nat, m: Machine)
    requires Runnable(lines, k) && TokensAt(lines, k).op == LA
    ensures var t := TokensAt(lines, k);
      ValidReg(t.a1) && CodeCount(t) == 2 && Meaning(lines, load, k, m)
      == Outcome(Ok, SetReg(m.(pc := Wrap(load + PcAt(lines, k) + 8)), RegOf(t.a1), Wrap(load + LabelTarget(lines, t.a2))))
  {
    hide PcAt, RegNum, Denotes, Wrap, LabelTarget, Even, InRangeCode, ClassOf, KindOf, Meaning;
    PseudoClass(LA);
    LoadRegister(lines, k);
    PseudoUnfolds(lines, load, k, m);
  }

  lemma LaCode(labels: seq<Label>, pc: u32, t: Tokens)
    requires t.op == LA && FindLabel(labels, t.a2).Some?
    ensures var v := WrapSigned(FindLabel(labels, t.a2).value - pc);
      CodeBytes(labels, pc, t)
      == EncodeAll(labels, pc, [Tokens(AUIPC, t.a1, PrintInt(Hi20(v)), ""), Tokens(ADDI, t.a1, t.a1, PrintInt(Lo12(v)))])
  {
    hide EncodeAll, PrintInt, Hi20, Lo12, FindLabel, WrapSigned;
  }

  /** `la`: the pair adds the distance between label and instruction to the program counter. */
  lemma SimulateLoadAddress(lines: seq<Line>, load: u32, k: nat, m: Machine)
    requires Ready(lines, load, k, m) && TokensAt(lines, k).op == LA
    ensures Steps(m, CodeCount(TokensAt(lines, k))) == Meaning(lines, load, k, m)
  {
    hide Sizable, Ordered, Loaded, PcAt, FinalLabels, RegNum, EncodeAll, Step, Steps, PrintInt, Hi20, Lo12,
         FindLabel, AtLine, LabelTarget, HasLabel, Wrap, Meaning, CodeBytes, CodeCount, InRangeCode, WrapSigned,
         WellFormedCode, ClassOf, KindOf, ValidReg;
    AtLineFacts(lines, load, k, m);
    CodeIsWellFormed(lines, k);
    var labels, pc, t := FinalLabels(lines), Wrap(PcAt(lines, k)), TokensAt(lines, k);
    LaNeedsLabel(lines, t);
    var target := LabelTarget(lines, t.a2);
    LabelParses(lines, t.a2);
    LaCode(labels, pc, t);
    LaMeaning(lines, load, k, m);
    var v := WrapSigned(FindLabel(labels, t.a2).value - pc);
    UpperPairLine(lines, load, k, m, AUIPC, t.a1, v);
    OffsetSum(load, PcAt(lines, k), target, v);
    assert Steps(m, 2) == Meaning(lines, load, k, m);
  }

  lemma LaNeedsLabel(lines: seq<Line>, t: Tokens)
    requires WellFormedCode(lines, t) && t.op == LA
    ensures HasLabel(lines, t.a2)
  {
  }

  /** Adding a wrapped difference to the program counter reaches the target. */
  lemma OffsetSum(load: int, pc: int, target: int, v: i32)
    requires Wrap(v) == Wrap(Wrap(target) - pc)
    ensures Wrap(load + pc + v) == Wrap(load + target)
  {
  }

  /** The source and destination of `mv` and `nop`. */
  function MoveSource(t: Tokens): string
  {
    if t.op == MV then t.a2 else "x0"
  }

  function MoveTarget(t: Tokens): string
  {
    if t.op == MV then t.a1 else "x0"
  }

  lemma MoveRegisters(lines: seq<Line>, k: nat)
    requires Runnable(lines, k) && (TokensAt(lines, k).op == MV || TokensAt(lines, k).op == NOP)
    ensures ValidReg(MoveSource(TokensAt(lines, k))) && ValidReg(MoveTarget(TokensAt(lines, k)))
  {
    hide PcAt, RegNum, Denotes, Reaches, ShortImm;
    FixedRegisters();
  }

  lemma MoveMeaning(lines: seq<Line>, load: u32, k: nat, m: Machine)
    requires Runnable(lines, k) && (TokensAt(lines, k).op == MV || TokensAt(lines, k).op == NOP)
    requires ValidReg(MoveSource(TokensAt(lines, k))) && ValidReg(MoveTarget(TokensAt(lines, k)))
    ensures var t := TokensAt(lines, k);
      CodeCount(t) == 1 && Meaning(lines, load, k, m)
      == Outcome(Ok, SetReg(m.(pc := Wrap(load + PcAt(lines, k) + 4)), RegOf(MoveTarget(t)), Reg(m, RegOf(MoveSource(t)))))
  {
    hide PcAt, RegNum, Denotes, Wrap, LabelTarget, Even, InRangeCode, ClassOf, KindOf, Meaning;
    PseudoClass(TokensAt(lines, k).op);
    FixedRegisters();
    PseudoUnfolds(lines, load, k, m);
  }

  lemma MoveCode(labels: seq<Label>, pc: u32, t: Tokens)
    requires t.op == MV || t.op == NOP
    ensures CodeBytes(labels, pc, t) == EncodeAll(labels, pc, [Tokens(ADDI, MoveTarget(t), MoveSource(t), "0")])
  {
    hide EncodeAll;
  }

  lemma SimulateMoves(lines: seq<Line>, load: u32, k: nat, m: Machine)
    requires Ready(lines, load, k, m) && (TokensAt(lines, k).op == MV || TokensAt(lines, k).op == NOP)
    ensures Step(m) == Meaning(lines, load, k, m) && CodeCount(TokensAt(lines, k)) == 1
  {
    hide Sizable, Ordered, Loaded, PcAt, FinalLabels, RegNum, EncodeAll, Step, ParseImm, AtLine, Meaning, CodeBytes,
         InRangeCode, Wrap, CodeCount, ClassOf, KindOf, MoveSource, MoveTarget;
    AtLineFacts(lines, load, k, m);
    ZeroParses(FinalLabels(lines));
    var t := TokensAt(lines, k);
    MoveRegisters(lines, k);
    MoveMeaning(lines, load, k, m);
    MoveCode(FinalLabels(lines), Wrap(PcAt(lines, k)), t);
    AddiLine(lines, load, k, m, Tokens(ADDI, MoveTarget(t), MoveSource(t), "0"), 0);
    var v := Reg(m, RegOf(MoveSource(t)));
    assert Wrap(v + Wrap(0)) == v by { SmallWrap(0); SmallWrap(v); }
  }

  lemma JumpMeaning(lines: seq<Line>, load: u32, k: nat, m: Machine)
    requires Runnable(lines, k) && (TokensAt(lines, k).op == CALL || TokensAt(lines, k).op == J)
    ensures var t := TokensAt(lines, k);
      var rd := if t.op == CALL then 1 else 0;
      CodeCount(t) == 1 && Meaning(lines, load, k, m)
      == Outcome(Ok, SetReg(m, rd, Wrap(load + PcAt(lines, k) + 4)).(pc := Wrap(load + Denotes(lines, t.a1))))
  {
    hide PcAt, RegNum, Denotes, Wrap, LabelTarget, Even, InRangeCode, ClassOf, KindOf, Meaning, SetReg;
    PseudoClass(TokensAt(lines, k).op);
    PseudoUnfolds(lines, load, k, m);
    ZeroIsFixed(m, Wrap(load + PcAt(lines, k) + 4));
  }

  lemma ZeroIsFixed(m: Machine, v: u32)
    ensures SetReg(m, 0, v) == m
  {
  }

  lemma JumpReaches(lines: seq<Line>, k: nat)
    requires Runnable(lines, k) && (TokensAt(lines, k).op == CALL || TokensAt(lines, k).op == J)
    ensures Reaches(lines, k, TokensAt(lines, k).a1, 0x10_0000)
  {
    hide PcAt, RegNum, Denotes, Reaches, ShortImm;
  }

  lemma JumpCode(lines: seq<Line>, labels: seq<Label>, pc: u32, t: Tokens)
    requires (t.op == CALL || t.op == J) && WellFormedCode(lines, t)
    ensures Readable(lines, t.a1)
    ensures CodeBytes(labels, pc, t)
         == EncodeAll(labels, pc, [Tokens(JAL, if t.op == CALL then "x1" else "x0", t.a1, "")])
  {
    hide EncodeAll, Readable;
  }

  lemma SimulateJumps(lines: seq<Line>, load: u32, k: nat, m: Machine)
    requires Ready(lines, load, k, m) && (TokensAt(lines, k).op == CALL || TokensAt(lines, k).op == J)
    ensures Step(m) == Meaning(lines, load, k, m) && CodeCount(TokensAt(lines, k)) == 1
  {
    hide Sizable, Ordered, Loaded, PcAt, FinalLabels, RegNum, EncodeAll, Step, ParseImm, AtLine, Denotes, Readable,
         Meaning, CodeBytes, WellFormedCode, InRangeCode, Reaches, Wrap, CodeCount, ClassOf, KindOf;
    AtLineFacts(lines, load, k, m);
    CodeIsWellFormed(lines, k);
    FixedRegisters();
    var t := TokensAt(lines, k);
    JumpMeaning(lines, load, k, m);
    JumpReaches(lines, k);
    JumpCode(lines, FinalLabels(lines), Wrap(PcAt(lines, k)), t);
    JalLine(lines, load, k, m, Tokens(JAL, if t.op == CALL then "x1" else "x0", t.a1, ""));
  }

  lemma RetMeaning(lines: seq<Line>, load: u32, k: nat, m: Machine)
    requires Runnable(lines, k) && TokensAt(lines, k).op == RET
    ensures CodeCount(TokensAt(lines, k)) == 1
    ensures Meaning(lines, load, k, m) == Outcome(Ok, m.(pc := Even(m.x[1])))
  {
    hide PcAt, RegNum, Denotes, Wrap, LabelTarget, Even, InRangeCode, ClassOf, KindOf, Meaning;
    PseudoClass(RET);
    PseudoUnfolds(lines, load, k, m);
  }

  lemma RetCode(labels: seq<Label>, pc: u32, t: Tokens)
    requires t.op == RET
    ensures CodeBytes(labels, pc, t) == EncodeAll(labels, pc, [Tokens(JALR, "x0", "x1", "0")])
    ensures EncodeInstruction(labels, pc, Tokens(JALR, "x0", "x1", "0")) == Done(EncodeI(0, 1, 0, 0, 0x67))
  {
    hide EncodeAll, EncodeI, ParseImm, RegNum;
    ZeroParses(labels);
    FixedRegisters();
  }

  lemma SimulateRet(lines: seq<Line>, load: u32, k: nat, m: Machine)
    requires Ready(lines, load, k, m) && TokensAt(lines, k).op == RET
    ensures Step(m) == Meaning(lines, load, k, m) && CodeCount(TokensAt(lines, k)) == 1
  {
    hide Sizable, Ordered, Loaded, PcAt, FinalLabels, EncodeAll, EncodeI, EncodeInstruction, CodeBytes, Step,
         AtLine, Even, Fetches, Wrap, Meaning, CodeCount, InRangeCode;
    AtLineFacts(lines, load, k, m);
    var t := Tokens(JALR, "x0", "x1", "0");
    RetMeaning(lines, load, k, m);
    RetCode(FinalLabels(lines), Wrap(PcAt(lines, k)), TokensAt(lines, k));
    FetchesSingle(lines, load, k, m, t);
    StepJalr(m, 0, 1, 0);
    SmallWrap(m.x[1]);
  }

  // ----- the main theorems -----

  /** Forward simulation: for every well-formed program loaded at any word-aligned address, stepping the
      processor from the address of a source line performs that line's meaning, in exactly as many steps as
      the line has instructions, and ends at the next line or the jump target. */
  lemma ForwardSimulation(lines: seq<Line>, load: u32, k: nat, m: Machine)
    requires WellFormed(lines) && Loaded(lines, load, m.mem) && AtLine(lines, load, k, m)
    ensures Steps(m, CodeCount(lines[k].body.t)) == Meaning(lines, load, k, m)
  {
    hide Sizable, Ordered, Loaded, Step, Steps, Meaning, CodeCount, InRangeCode, PcAt, ClassOf, KindOf;
    OneStep(m);
    var t := TokensAt(lines, k);
    KindIsClass(t.op);
    match KindOf(t.op)
    case KindRegister => SimulateR(lines, load, k, m); PlainCount(t);
    case KindImmediate => SimulateI(lines, load, k, m); PlainCount(t);
    case KindShift => SimulateShift(lines, load, k, m); PlainCount(t);
    case KindLoad => SimulateLoad(lines, load, k, m); PlainCount(t);
    case KindStore => SimulateStore(lines, load, k, m); PlainCount(t);
    case KindBranch => SimulateBranch(lines, load, k, m); PlainCount(t);
    case KindJal => SimulateJal(lines, load, k, m); PlainCount(t);
    case KindJalr => SimulateJalr(lines, load, k, m); PlainCount(t);
    case KindUpper => SimulateUpper(lines, load, k, m); PlainCount(t);
    case KindSystem => SimulateSystem(lines, load, k, m); PlainCount(t);
    case KindPseudo =>
      PseudoOps(t.op);
      if t.op == LI { SimulateLoadImmediate(lines, load, k, m); }
      else if t.op == LA { SimulateLoadAddress(lines, load, k, m); }
      else if t.op == CALL || t.op == J { SimulateJumps(lines, load, k, m); }
      else if t.op == RET { SimulateRet(lines, load, k, m); }
      else { SimulateMoves(lines, load, k, m); }
    case KindNone => NoneIsNotInRange(lines, k);
  }

  lemma NoneIsNotInRange(lines: seq<Line>, k: nat)
    requires Runnable(lines, k)
    ensures !KindOf(TokensAt(lines, k).op).KindNone?
  {
  }
}
