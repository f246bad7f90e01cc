/** Whole runs: source programs against processor runs, calls and returns, and what `li` and `la` leave. */
module Runs {
  import opened Words
  import opened ByteMemory
  import opened Cpu
  import opened Text
  import opened Source
  import opened Layout
  import opened Lockstep
  import opened ImageProof
  import opened Semantics
  import opened StepProof
  import opened Simulation
  import opened Correctness

  // ----- the source machine -----

  ghost predicate AtSource(lines: seq<Line>, load: u32, m: Machine)
  {
    exists k: nat :: AtLine(lines, load, k, m)
  }

  ghost function LineHere(lines: seq<Line>, load: u32, m: Machine): nat
    requires AtSource(lines, load, m)
    ensures AtLine(lines, load, LineHere(lines, load, m), m)
  {
    var k: nat :| AtLine(lines, load, k, m);
    k
  }

  /** An address determines its source line. */
  lemma LineIsUnique(lines: seq<Line>, load: u32, j: nat, k: nat, m: Machine)
    requires WellFormed(lines) && AtLine(lines, load, j, m) && AtLine(lines, load, k, m)
    ensures j == k
  {
    hide Sizable, Ordered, PcAt, InRangeCode, BytesAt;
    CodeHasBytes(lines, j);
    CodeHasBytes(lines, k);
    if j < k { LinesDisjoint(lines, j, k); }
    if k < j { LinesDisjoint(lines, k, j); }
  }

  lemma CodeHasBytes(lines: seq<Line>, k: nat)
    requires WellFormed(lines) && Runnable(lines, k)
    ensures |BytesAt(lines, k)| >= 4
  {
    hide Sizable, Ordered, PcAt, InRangeCode, BytesAt, SizeAt, SectionAt;
    LineEmits(lines, k);
    TextLineSize(lines, k);
    AtLeastOne(TokensAt(lines, k));
  }

  lemma AtLeastOne(t: Tokens)
    ensures CodeCount(t) >= 1
  {
  }

  /** Every line that can run is reached by some machine that holds the program. */
  lemma EveryLineCanRun(lines: seq<Line>, k: nat) returns (m: Machine)
    requires WellFormed(lines) && Runnable(lines, k)
    ensures Ready(lines, 0, k, m)
  {
    hide Sizable, Ordered, PcAt, InRangeCode, BytesAt, Image, Total;
    SizableAgrees(lines);
    CodeHasBytes(lines, k);
    ImageSlice(lines, k);
    ImageLength(lines);
    PcFits(lines, k);
    m := Machine(seq(32, _ => 0), PcAt(lines, k), true, Image(lines));
    ImageIsLoaded(lines, 0, m.mem);
  }

  datatype SourceRun = SourceRun(outcome: Outcome, steps: nat)

  /** Up to `n` lines of the source program, executed by their meaning alone; the run ends early when control
      leaves the program or a line does not return `Ok`. `steps` counts the instructions of the lines. */
  ghost function RunLines(lines: seq<Line>, load: u32, m: Machine, n: nat): SourceRun
    decreases n
  {
    if n == 0 || !AtSource(lines, load, m) then SourceRun(Outcome(Ok, m), 0)
    else
      var k := LineHere(lines, load, m);
      var o, c := Meaning(lines, load, k, m), CodeCount(TokensAt(lines, k));
      if o.status != Ok then SourceRun(o, c)
      else
        var rest := RunLines(lines, load, o.m, n - 1);
        SourceRun(rest.outcome, c + rest.steps)
  }

  // ----- programs that leave their text alone -----

  /** Line `k` does not store into the text. */
  ghost predicate SparesText(lines: seq<Line>, load: u32, k: nat, m: Machine)
    requires Runnable(lines, k)
  {
    var t := TokensAt(lines, k);
    KindOf(t.op).KindStore? ==>
      var addr, n := Wrap(Get(m, t.a3) + Denotes(lines, t.a2)), WidthOf(t.op);
      Allowed(m.mem, addr, n) ==> addr + n <= load || load + TextSize(lines) <= addr
  }

  /** None of the first `n` lines that the source run executes stores into the text. */
  ghost predicate RunSparesText(lines: seq<Line>, load: u32, m: Machine, n: nat)
    decreases n
  {
    n == 0 || !AtSource(lines, load, m) ||
    (var k := LineHere(lines, load, m);
     var o := Meaning(lines, load, k, m);
     SparesText(lines, load, k, m) && (o.status == Ok ==> RunSparesText(lines, load, o.m, n - 1)))
  }

  /** The only lines that change memory are stores, and they change it by one store. */
  lemma PseudoMemory(lines: seq<Line>, load: u32, k: nat, m: Machine)
    requires Runnable(lines, k) && KindOf(TokensAt(lines, k).op).KindPseudo?
    ensures PseudoMeaning(lines, load, k, m).m.mem == m.mem
  {
    hide PcAt, RegNum, Denotes, Wrap, LabelTarget, Even, CodeCount, KindOf, ClassOf;
  }

  lemma MeaningMemory(lines: seq<Line>, load: u32, k: nat, m: Machine)
    requires Runnable(lines, k)
    ensures var t, m' := TokensAt(lines, k), Meaning(lines, load, k, m).m;
      if KindOf(t.op).KindStore? then
        var addr, n := Wrap(Get(m, t.a3) + Denotes(lines, t.a2)), WidthOf(t.op);
        m'.mem == if Allowed(m.mem, addr, n) then Store(m.mem, addr, n, Get(m, t.a1)) else m.mem
      else m'.mem == m.mem
  {
    hide PcAt, RegNum, Denotes, Wrap, LabelTarget, Even, Binary, Extended, Condition, ClassOf, KindOf, Store, Load,
         Allowed, WidthOf, PseudoMeaning, InRangeCode;
    if KindOf(TokensAt(lines, k).op).KindPseudo? { PseudoMemory(lines, load, k, m); }
  }

  lemma StoreKeepsLoaded(lines: seq<Line>, load: u32, mem: Mem, addr: u32, n: nat, v: u32)
    requires Loaded(lines, load, mem) && Width(n) && Allowed(mem, addr, n)
    requires addr + n <= load || load + TextSize(lines) <= addr
    ensures Loaded(lines, load, Store(mem, addr, n, v))
  {
    hide Image, OffsetAt, Bytes;
    LoadAfterStore(mem, addr, n, v);
    var a, b := load, load + TextSize(lines);
    var mem' := Store(mem, addr, n, v);
    assert forall i :: a <= i < b ==> mem'[i] == mem[i];
    assert mem'[a..b] == mem[a..b];
  }

  lemma MeaningKeepsLoaded(lines: seq<Line>, load: u32, k: nat, m: Machine)
    requires Runnable(lines, k) && Loaded(lines, load, m.mem) && SparesText(lines, load, k, m)
    ensures Loaded(lines, load, Meaning(lines, load, k, m).m.mem)
  {
    hide Loaded, Meaning, InRangeCode, Store, Allowed, RegNum, Denotes, WidthOf, Image, TextSize, Wrap;
    MeaningMemory(lines, load, k, m);
    var t := TokensAt(lines, k);
    if KindOf(t.op).KindStore? {
      var addr, n := Wrap(Get(m, t.a3) + Denotes(lines, t.a2)), WidthOf(t.op);
      if Allowed(m.mem, addr, n) {
        StoreKeepsLoaded(lines, load, m.mem, addr, n, Get(m, t.a1));
      }
    }
  }

  // ----- composing runs -----

  lemma {:induction false} StepsAdd(m: Machine, a: nat, b: nat)
    requires Steps(m, a).status == Ok
    ensures Steps(m, a + b) == Steps(Steps(m, a).m, b)
    decreases a
  {
    hide Step;
    if a > 0 { StepsAdd(Step(m).m, a - 1, b); }
  }

  /** Forward simulation of runs of any length: as long as no store hits the text, the processor reaches
      exactly the state and status of the source run, in as many steps as the executed lines have
      instructions, and the program is still in memory. */
  lemma {:induction false} RunSimulation(lines: seq<Line>, load: u32, m: Machine, n: nat)
    requires WellFormed(lines) && Loaded(lines, load, m.mem) && RunSparesText(lines, load, m, n)
    ensures var r := RunLines(lines, load, m, n);
      Steps(m, r.steps) == r.outcome && Loaded(lines, load, r.outcome.m.mem)
    decreases n
  {
    hide WellFormed, Loaded, Step, Steps, Meaning, CodeCount, InRangeCode, PcAt, SparesText;
    if n == 0 || !AtSource(lines, load, m) {
      NoSteps(m);
    } else {
      var k := LineHere(lines, load, m);
      ForwardSimulation(lines, load, k, m);
      MeaningKeepsLoaded(lines, load, k, m);
      var o, c := Meaning(lines, load, k, m), CodeCount(TokensAt(lines, k));
      if o.status == Ok {
        RunSimulation(lines, load, o.m, n - 1);
        StepsAdd(m, c, RunLines(lines, load, o.m, n - 1).steps);
      }
    }
  }

  lemma NoSteps(m: Machine)
    ensures Steps(m, 0) == Outcome(Ok, m)
  {
  }

  /** A file stands in memory at a word-aligned address, as the loader leaves it. */
  predicate Holds(mem: Mem, load: u32, file: seq<byte>)
  {
    load % 4 == 0 && load + |file| <= |mem| && mem[load..load + |file|] == file
  }

  lemma ImageIsLoaded(lines: seq<Line>, load: u32, mem: Mem)
    requires WellFormed(lines) && Holds(mem, load, Image(lines))
    ensures Loaded(lines, load, mem)
  {
    hide Sizable, Ordered, Image, OffsetAt, Total;
    SizableAgrees(lines);
    StandardBases(lines);
    BaseExact(lines, ".text");
    OffsetsGrow(lines, |lines|, |lines|, ".text");
    ImageLength(lines);
    var n := TextSize(lines);
    SliceOfSlice(mem, load, |Image(lines)|, 0, n);
    assert mem[load..load + n] == Image(lines)[0..n] == Image(lines)[..n];
  }

  /** Assembler and emulator together: when the file that the second pass writes is loaded, running it on the
      processor is running the source program. */
  lemma AssembledProgramRuns(lines: seq<Line>, load: u32, m: Machine, n: nat)
    requires WellFormed(lines) && SecondAt(TablesOf(lines), lines, |lines|).Done?
    requires Holds(m.mem, load, SecondAt(TablesOf(lines), lines, |lines|).value.file)
    requires RunSparesText(lines, load, m, n)
    ensures var r := RunLines(lines, load, m, n);
      Steps(m, r.steps) == r.outcome
  {
    hide WellFormed, Holds, SecondAt, TablesOf, Image, RunSparesText, RunLines, Steps, Loaded;
    ImageComposition(lines);
    ImageIsLoaded(lines, load, m.mem);
    RunSimulation(lines, load, m, n);
  }

  // ----- calls -----

  /** The word after line `k` is addressable and aligned. */
  lemma ReturnAddress(lines: seq<Line>, load: u32, k: nat, m: Machine)
    requires Ready(lines, load, k, m) && CodeCount(TokensAt(lines, k)) == 1
    ensures m.pc + 4 < 0x1_0000_0000 && Even(m.pc + 4) == m.pc + 4 && Wrap(m.pc + 4) == m.pc + 4
  {
    hide Sizable, Ordered, PcAt, Image, CodeBytes, InRangeCode, CodeCount, BytesAt, Loaded, AtLine, Even, Wrap;
    AtLineFacts(lines, load, k, m);
    LineInMemory(lines, load, k, m.mem);
    NextWord(m.pc);
  }

  lemma NextWord(pc: u32)
    requires pc % 4 == 0 && pc + 4 < 0x1_0000_0000
    ensures Even(pc + 4) == pc + 4 && Wrap(pc + 4) == pc + 4
  {
    DivModUnique(pc + 4, 2, 2 * (pc / 4) + 2, 0);
    SmallWrap(pc + 4);
  }

  lemma CallEffect(lines: seq<Line>, load: u32, j: nat, m: Machine)
    requires Ready(lines, load, j, m) && TokensAt(lines, j).op == CALL
    ensures Step(m) == Outcome(Ok, m.(x := m.x[1 := Wrap(m.pc + 4)],
                                      pc := Wrap(load + Denotes(lines, TokensAt(lines, j).a1))))
    ensures CodeCount(TokensAt(lines, j)) == 1
  {
    hide Sizable, Ordered, Loaded, PcAt, Step, Meaning, InRangeCode, CodeCount, Wrap, Denotes;
    SimulateJumps(lines, load, j, m);
    JumpMeaning(lines, load, j, m);
  }

  lemma RetEffect(lines: seq<Line>, load: u32, k: nat, m: Machine)
    requires Ready(lines, load, k, m) && TokensAt(lines, k).op == RET
    ensures Step(m) == Outcome(Ok, m.(pc := Even(m.x[1])))
  {
    hide Sizable, Ordered, Loaded, PcAt, Step, InRangeCode, Meaning, ClassOf, KindOf, Even, Wrap;
    SimulateRet(lines, load, k, m);
    PseudoClass(RET);
    PseudoUnfolds(lines, load, k, m);
  }

  /** `call` followed by any body that keeps `ra` and reaches a `ret` resumes after the call, and the only
      difference from the state in which the body ended is the program counter. */
  lemma CallReturns(lines: seq<Line>, load: u32, j: nat, k: nat, m: Machine, n: nat)
    requires Ready(lines, load, j, m) && TokensAt(lines, j).op == CALL
    requires Step(m).status == Ok && Steps(Step(m).m, n).status == Ok
    requires var end := Steps(Step(m).m, n).m;
      end.x[1] == Step(m).m.x[1] && Ready(lines, load, k, end) && TokensAt(lines, k).op == RET
    ensures m.pc + 4 < 0x1_0000_0000 && Step(m).m.pc == Wrap(load + Denotes(lines, TokensAt(lines, j).a1))
    ensures Steps(m, n + 2) == Outcome(Ok, Steps(Step(m).m, n).m.(pc := m.pc + 4))
  {
    hide Ready, Step, Denotes, Even, Steps, TokensAt;
    var end := Steps(Step(m).m, n).m;
    CallEffect(lines, load, j, m);
    ReturnAddress(lines, load, j, m);
    RetEffect(lines, load, k, end);
    OneStep(m);
    OneStep(end);
    StepsAdd(Step(m).m, n, 1);
    StepsAdd(m, 1, n + 1);
  }

  // ----- reaching labels -----

  lemma LabelDenotes(lines: seq<Line>, j: nat, name: string)
    requires NoDuplicateLabels(lines) && j < |lines| && Defines(lines[j], name) && name != "" && !Numeric(name)
    ensures Denotes(lines, name) == PcAt(lines, j)
  {
  }

  /** A taken branch sets the program counter to its label's line, an untaken one to the next instruction;
      nothing else changes. */
  lemma BranchReachesLabel(lines: seq<Line>, load: u32, k: nat, j: nat, m: Machine)
    requires Ready(lines, load, k, m) && KindOf(TokensAt(lines, k).op).KindBranch?
    requires var t := TokensAt(lines, k);
      ValidReg(t.a1) && ValidReg(t.a2) && t.a3 != "" && !Numeric(t.a3) && j < |lines| && Defines(lines[j], t.a3)
    ensures m.pc + 4 < 0x1_0000_0000
    ensures var t := TokensAt(lines, k);
      Step(m) == Outcome(Ok, m.(pc := if Condition(t.op, Get(m, t.a1), Get(m, t.a2)) then Wrap(load + PcAt(lines, j))
                                      else m.pc + 4))
  {
    hide Sizable, Ordered, Loaded, PcAt, RegNum, Step, ClassOf, KindOf, WellFormedCode, Numeric, Denotes, Condition,
         InRangeCode, Wrap, NoDuplicateLabels;
    KindIsClass(TokensAt(lines, k).op);
    CodeIsWellFormed(lines, k);
    SimulateBranch(lines, load, k, m);
    PlainCount(TokensAt(lines, k));
    ReturnAddress(lines, load, k, m);
    LabelDenotes(lines, j, TokensAt(lines, k).a3);
  }

  lemma JalKind()
    ensures KindOf(JAL).KindJal? && !ClassOf(JAL).ClassPseudo?
  {
  }

  /** `jal` to a label sets the program counter to the label's line and links the next instruction. */
  lemma JalReachesLabel(lines: seq<Line>, load: u32, k: nat, j: nat, m: Machine)
    requires Ready(lines, load, k, m) && TokensAt(lines, k).op == JAL
    requires var t := TokensAt(lines, k);
      ValidReg(t.a1) && t.a2 != "" && !Numeric(t.a2) && j < |lines| && Defines(lines[j], t.a2)
    ensures m.pc + 4 < 0x1_0000_0000
    ensures var rd := RegOf(TokensAt(lines, k).a1);
      Step(m) == Outcome(Ok, SetReg(m, rd, m.pc + 4).(pc := Wrap(load + PcAt(lines, j))))
  {
    hide Sizable, Ordered, Loaded, PcAt, RegNum, Step, ClassOf, KindOf, WellFormedCode, Numeric, Denotes,
         InRangeCode, Wrap, NoDuplicateLabels;
    JalKind();
    CodeIsWellFormed(lines, k);
    SimulateJal(lines, load, k, m);
    PlainCount(TokensAt(lines, k));
    ReturnAddress(lines, load, k, m);
    LabelDenotes(lines, j, TokensAt(lines, k).a2);
  }

  // ----- loading constants and addresses -----

  lemma OnlyTheTarget(m: Machine, pc: u32, r: u32, v: u32)
    requires 0 < r < 32
    ensures var m' := SetReg(m.(pc := pc), r, v);
      m'.x[r] == v && m'.mem == m.mem && m'.running == m.running && OnlyReg(m, m', r)
  {
  }

  /** `li` leaves exactly the literal in its register and changes nothing else; its low part always fits. */
  lemma LiLoadsLiteral(lines: seq<Line>, load: u32, k: nat, m: Machine)
    requires Ready(lines, load, k, m) && TokensAt(lines, k).op == LI
    requires ValidReg(TokensAt(lines, k).a1) && RegOf(TokensAt(lines, k).a1) != 0
    ensures var t := TokensAt(lines, k);
      var o, v := Steps(m, CodeCount(t)), NumericValue(t.a2);
      FitsImm(Lo12(v)) && o.status == Ok && o.m.mem == m.mem && o.m.running
      && Signed(o.m.x[RegOf(t.a1)]) == v && OnlyReg(m, o.m, RegOf(t.a1))
  {
    hide Sizable, Ordered, Loaded, PcAt, RegNum, Meaning, CodeCount, InRangeCode, Denotes, Lo12, NumericValue,
         Numeric, Signed, FitsImm, WellFormedCode, ClassOf, KindOf, NoDuplicateLabels, HasLabel, Steps, Wrap,
         AtLine, SetReg, OnlyReg;
    AtLineFacts(lines, load, k, m);
    var t := TokensAt(lines, k);
    SimulateLoadImmediate(lines, load, k, m);
    LiMeaning(lines, load, k, m);
    CodeIsWellFormed(lines, k);
    LiIsNumeric(lines, t);
    NumericDenotes(lines, t.a2);
    SplitSum(NumericValue(t.a2));
    SignedOfWrap(NumericValue(t.a2));
    OnlyTheTarget(m, Wrap(load + PcAt(lines, k) + 4 * CodeCount(t)), RegOf(t.a1), Wrap(Denotes(lines, t.a2)));
  }

  lemma SignedOfWrap(v: i32)
    ensures Signed(Wrap(v)) == v
  {
  }

  /** `la` leaves the load address plus the address of the label's line, and changes nothing else. */
  lemma LaLoadsAddress(lines: seq<Line>, load: u32, k: nat, j: nat, m: Machine)
    requires Ready(lines, load, k, m) && TokensAt(lines, k).op == LA
    requires j < |lines| && Defines(lines[j], TokensAt(lines, k).a2)
    requires ValidReg(TokensAt(lines, k).a1) && RegOf(TokensAt(lines, k).a1) != 0
    ensures var t := TokensAt(lines, k);
      var o := Steps(m, 2);
      o.status == Ok && o.m.mem == m.mem && o.m.running
      && o.m.x[RegOf(t.a1)] == Wrap(load + PcAt(lines, j)) && OnlyReg(m, o.m, RegOf(t.a1))
  {
    hide Sizable, Ordered, Loaded, PcAt, RegNum, Meaning, CodeCount, InRangeCode, Steps, WellFormedCode, ClassOf,
         KindOf, NoDuplicateLabels, LabelTarget, Wrap, AtLine, SetReg, OnlyReg;
    AtLineFacts(lines, load, k, m);
    var t := TokensAt(lines, k);
    CodeIsWellFormed(lines, k);
    SimulateLoadAddress(lines, load, k, m);
    LaMeaning(lines, load, k, m);
    TargetOfLabel(lines, j, TokensAt(lines, k).a2);
    OnlyTheTarget(m, Wrap(load + PcAt(lines, k) + 8), RegOf(t.a1), Wrap(load + LabelTarget(lines, t.a2)));
  }

  lemma TargetOfLabel(lines: seq<Line>, j: nat, name: string)
    requires j < |lines| && Defines(lines[j], name) && NoDuplicateLabels(lines)
    ensures LabelTarget(lines, name) == PcAt(lines, j)
  {
  }
}
