/** Concrete sources: one that meets every hypothesis of the simulation, and the smallest ones on which the
passes of the assembler disagree. */
module Examples {
  import opened Words
  import opened Codec
  import opened Cpu
  import opened Text
  import opened Numerals
  import opened Directives
  import opened Source
  import opened Layout
  import opened Lockstep
  import opened ImageProof
  import opened Semantics
  import opened Correctness
  import opened Runs

  // ----- sizes of concrete sources -----

  lemma NextSection(lines: seq<Line>, k: nat)
    requires k < |lines|
    ensures SectionAt(lines, k + 1) == (if Entered(lines[k]).Some? then Entered(lines[k]).value else SectionAt(lines, k))
    ensures EnteredBefore(lines, k + 1)
         == EnteredBefore(lines, k) + if Entered(lines[k]).Some? then {Entered(lines[k]).value} else {}
  {
  }

  lemma CodeSize(lines: seq<Line>, k: nat)
    requires k < |lines| && lines[k].Item? && lines[k].body.Code? && SectionAt(lines, k) == ".text"
    ensures SizeAt(lines, k) == 4 * CodeCount(lines[k].body.t)
  {
    hide SectionAt, CodeCount, GetSectionType;
    TextTypeOfText();
  }

  /** An empty string literal: one byte, the terminating zero. */
  lemma EmptyString()
    ensures DirectiveSize(Asciiz("\"")) == Done(1) && WellFormedDirective(Asciiz("\""))
  {
    assert ParseEscaped("") == Done([]);
    assert FindQuote("\"") == Some(0) && "\""[1..] == "";
  }

  lemma DataSize(lines: seq<Line>, k: nat)
    requires k < |lines| && lines[k].Item? && lines[k].body == Data(Asciiz("\""))
    requires SectionAt(lines, k) == ".data" || SectionAt(lines, k) == ".rodata"
    ensures SizeAt(lines, k) == 1 && SizableLine(lines, k)
  {
    hide SectionAt, DirectiveSize, WellFormedDirective;
    EmptyString();
    DataTypes();
  }

  lemma DataTypes()
    ensures !IsText(".data") && !IsText(".rodata")
  {
    assert ".rodata"[..6][1] == 'r';
  }

  lemma CodeIsSizable(lines: seq<Line>, k: nat)
    requires k < |lines| && lines[k].Item? && lines[k].body.Code? && WellFormedCode(lines, lines[k].body.t)
    ensures SizableLine(lines, k)
  {
    hide SectionAt, WellFormedCode, GetSectionType;
  }

  lemma EntryIsSizable(lines: seq<Line>, k: nat)
    requires k < |lines| && Entered(lines[k]).Some? && Entered(lines[k]).value in StandardSet()
    ensures SizableLine(lines, k)
  {
    hide SectionAt, GetSectionType;
  }

  /** Without custom sections the total is the sum of the four standard sizes. */
  lemma OnlyStandard(lines: seq<Line>)
    requires Names(lines) == StandardSet()
    ensures var n := |lines|;
      Total(lines) == OffsetAt(lines, n, ".text") + OffsetAt(lines, n, ".rodata") + OffsetAt(lines, n, ".data")
                      + OffsetAt(lines, n, ".bss")
  {
    hide OffsetAt, IsCustom, TotalOf, Sorted;
    StandardNotCustom();
    assert CustomNames(Names(lines)) == {};
    NoNames();
    OrderMembers(Names(lines));
    assert Order(Names(lines)) == [".text"] + ([".rodata"] + ([".data"] + ([".bss"] + [])));
    var z := Sizes(lines);
    TotalHead(z, ".bss", []);
    TotalHead(z, ".data", [".bss"] + []);
    TotalHead(z, ".rodata", [".data"] + ([".bss"] + []));
    TotalHead(z, ".text", [".rodata"] + ([".data"] + ([".bss"] + [])));
    TotalNone(z);
  }

  lemma NoNames()
    ensures Sorted({}) == []
  {
  }

  lemma TotalNone(sizes: map<string, int>)
    ensures TotalOf(sizes, []) == 0
  {
  }

  lemma TotalHead(sizes: map<string, int>, a: string, rest: seq<string>)
    requires a in sizes && forall n :: n in rest ==> n in sizes
    ensures TotalOf(sizes, [a] + rest) == sizes[a] + TotalOf(sizes, rest)
  {
  }

  // ----- a program that meets the hypotheses -----

  /** A loop with a label, a constant, an address, a branch, a call and a return, and a data section. */
  function Program(): seq<Line>
  {
    [Item(Some("loop"), Code(Tokens(LI, "x5", "5", ""))),
     Item(None, Code(Tokens(LA, "x6", "word", ""))),
     Item(None, Code(Tokens(BNE, "x5", "x6", "loop"))),
     Item(None, Code(Tokens(CALL, "loop", "", ""))),
     Item(None, Code(Tokens(RET, "", "", ""))),
     Section(".data"),
     Item(Some("word"), Data(Asciiz("\"")))]
  }

  lemma ProgramSections(lines: seq<Line>)
    requires lines == Program()
    ensures forall k :: 0 <= k <= 5 ==> SectionAt(lines, k) == ".text"
    ensures SectionAt(lines, 6) == ".data"
    ensures Names(lines) == StandardSet()
  {
    hide SectionAt, EnteredBefore;
    StartSection(lines);
    NextSection(lines, 0); NextSection(lines, 1); NextSection(lines, 2); NextSection(lines, 3);
    NextSection(lines, 4); NextSection(lines, 5); NextSection(lines, 6);
  }

  lemma StartSection(lines: seq<Line>)
    ensures SectionAt(lines, 0) == ".text" && EnteredBefore(lines, 0) == {}
  {
  }

  lemma ProgramSizes(lines: seq<Line>)
    requires lines == Program()
    ensures SizeAt(lines, 0) == 4 || SizeAt(lines, 0) == 8
    ensures SizeAt(lines, 1) == 8 && SizeAt(lines, 2) == SizeAt(lines, 3) == SizeAt(lines, 4) == 4
    ensures SizeAt(lines, 5) == 0 && SizeAt(lines, 6) == 1
  {
    hide SizeAt, SectionAt, NumericValue, Numeric, CodeCount;
    ProgramSections(lines);
    CodeSize(lines, 0); CodeSize(lines, 1); CodeSize(lines, 2); CodeSize(lines, 3); CodeSize(lines, 4);
    Counts(lines[0].body.t); Counts(lines[1].body.t); Counts(lines[2].body.t); Counts(lines[3].body.t);
    Counts(lines[4].body.t);
    NoBytes(lines, 5);
    DataSize(lines, 6);
  }

  lemma Counts(t: Tokens)
    ensures 1 <= CodeCount(t) <= 2 && (t.op == LA ==> CodeCount(t) == 2) && (t.op !in {LI, LA} ==> CodeCount(t) == 1)
  {
  }

  /** The offsets of the program's lines; `li` of a small number may take one instruction or two. */
  lemma ProgramOffsets(lines: seq<Line>, s: string)
    requires lines == Program()
    ensures var n := SizeAt(lines, 0);
      (n == 4 || n == 8)
      && (s == ".text" ==>
            OffsetAt(lines, 0, s) == 0 && OffsetAt(lines, 2, s) == n + 8 && OffsetAt(lines, 3, s) == n + 12
            && OffsetAt(lines, 7, s) == n + 20)
      && (s != ".text" ==> OffsetAt(lines, 5, s) == 0 && OffsetAt(lines, 7, s) == if s == ".data" then 1 else 0)
  {
    hide OffsetAt, SizeAt, SectionAt, Program;
    assert |lines| == 7 by { ProgramLength(); }
    ProgramSections(lines);
    ProgramSizes(lines);
    NothingReserved(lines, s);
    OffsetGrows(lines, 0, s); OffsetGrows(lines, 1, s); OffsetGrows(lines, 2, s); OffsetGrows(lines, 3, s);
    OffsetGrows(lines, 4, s); OffsetGrows(lines, 5, s); OffsetGrows(lines, 6, s);
  }

  lemma ProgramLength()
    ensures |Program()| == 7
  {
  }

  lemma NothingReserved(lines: seq<Line>, s: string)
    ensures OffsetAt(lines, 0, s) == 0
  {
  }

  lemma ProgramLabels(lines: seq<Line>)
    requires lines == Program()
    ensures NoDuplicateLabels(lines) && Defines(lines[0], "loop") && Defines(lines[6], "word")
    ensures HasLabel(lines, "loop") && HasLabel(lines, "word")
  {
    assert "loop"[0] != "word"[0];
    assert forall i :: 0 <= i < 7 && lines[i].Item? && lines[i].defines.Some? ==> i == 0 || i == 6;
  }

  lemma ProgramIsWellFormed(lines: seq<Line>)
    requires lines == Program()
    ensures WellFormed(lines)
  {
    hide OffsetAt, Total, SizableLine, EntryOk, Names, NoDuplicateLabels, Program;
    assert |lines| == 7 by { ProgramLength(); }
    ProgramSections(lines);
    ProgramLabels(lines);
    forall k | 0 <= k < 7 ensures SizableLine(lines, k) && EntryOk(lines, k) { ProgramLine(lines, k); }
    ProgramOffsets(lines, ".text");
    ProgramOffsets(lines, ".rodata");
    ProgramOffsets(lines, ".data");
    ProgramOffsets(lines, ".bss");
    OnlyStandard(lines);
  }

  lemma ProgramLine(lines: seq<Line>, k: nat)
    requires lines == Program() && k < 7
    ensures SizableLine(lines, k) && EntryOk(lines, k)
  {
    hide OffsetAt, SizableLine, WellFormedCode, HasLabel, SizeAt;
    ProgramSections(lines);
    ProgramLabels(lines);
    if k < 5 {
      ProgramCode(lines, k);
      CodeIsSizable(lines, k);
    } else if k == 5 {
      EntryIsSizable(lines, 5);
      ProgramOffsets(lines, ".data");
    } else {
      DataSize(lines, 6);
    }
  }

  lemma ProgramCode(lines: seq<Line>, k: nat)
    requires lines == Program() && k < 5 && HasLabel(lines, "loop") && HasLabel(lines, "word")
    ensures WellFormedCode(lines, lines[k].body.t)
  {
    hide HasLabel;
  }

  lemma ProgramAddresses(lines: seq<Line>)
    requires lines == Program() && WellFormed(lines)
    ensures PcAt(lines, 0) == 0
    ensures PcAt(lines, 2) == 12 || PcAt(lines, 2) == 16
    ensures PcAt(lines, 3) == PcAt(lines, 2) + 4
    ensures Denotes(lines, "loop") == 0
  {
    hide Sizable, Ordered, OffsetAt, PcAt, Names, Numeric, Denotes, SectionAt, SizeAt, Program;
    assert |lines| == 7 by { ProgramLength(); }
    ProgramSections(lines);
    ProgramOffsets(lines, ".text");
    TextAddress(lines, 0);
    TextAddress(lines, 2);
    TextAddress(lines, 3);
    ProgramLabels(lines);
    assert !Numeric("loop") by { NotANumber("loop"); }
    LabelDenotes(lines, 0, "loop");
  }

  lemma TextAddress(lines: seq<Line>, k: nat)
    requires WellFormed(lines) && k <= |lines| && SectionAt(lines, k) == ".text"
    ensures PcAt(lines, k) == OffsetAt(lines, k, ".text")
  {
    hide Sizable, Ordered, AllSized, Fits, OffsetAt, BaseAddr, SectionAt, Names;
    SizableAgrees(lines);
    StandardBases(lines);
  }

  lemma NotANumber(s: string)
    requires s != "" && s[0] != '-' && !IsDigit(s[0])
    ensures !Numeric(s)
  {
  }

  lemma ProgramInRange(lines: seq<Line>, k: nat)
    requires lines == Program() && WellFormed(lines) && k <= 4
    ensures InRangeCode(lines, k, lines[k].body.t)
  {
    hide WellFormed, PcAt, Denotes, RegNum;
    ProgramAddresses(lines);
    XNames();
  }

  /** Every instruction of the program can run, on a machine that holds the program. */
  lemma ProgramRuns(k: nat) returns (m: Machine)
    requires k <= 4
    ensures Ready(Program(), 0, k, m)
  {
    hide WellFormed, InRangeCode;
    var lines := Program();
    ProgramIsWellFormed(lines);
    ProgramSections(lines);
    ProgramInRange(lines, k);
    m := EveryLineCanRun(lines, k);
  }

  // ----- sources on which the passes disagree -----

  /** A `.text` directive after an instruction sends the second pass back to zero. */
  lemma ReentryBreaksLockstep()
    ensures var lines := [Item(None, Code(Tokens(NOP, "", "", ""))), DotText];
      Sizable(lines) && !InLockstep(lines, 2)
  {
    hide Sizable, InLockstep;
    var lines := [Item(None, Code(Tokens(NOP, "", "", ""))), DotText];
    ReentrySizes(lines);
    OutOfStep(lines, 1);
  }

  /** An entry out of order is seen at the next line at the latest. */
  lemma OutOfStep(lines: seq<Line>, k: nat)
    requires Sizable(lines) && k < |lines| && Entered(lines[k]).Some? && !EntryOk(lines, k)
    ensures !InLockstep(lines, k + 1)
  {
    hide SecondStep, Sizable, TablesOf, InStep;
    SizableAgrees(lines);
    if InLockstep(lines, k + 1) {
      EnteringStep(lines, k, SecondAt(TablesOf(lines), lines, k).value);
    }
  }

  lemma ReentrySizes(lines: seq<Line>)
    requires lines == [Item(None, Code(Tokens(NOP, "", "", ""))), DotText]
    ensures Sizable(lines) && !EntryOk(lines, 1)
  {
    hide Total, OffsetAt, SizeAt, SectionAt, SizableLine, Names, CodeCount, WellFormedCode;
    TwoSections(lines);
    CodeSize(lines, 0);
    Counts(lines[0].body.t);
    NoBytes(lines, 1);
    ReentryOffsets(lines);
    OnlyStandard(lines);
    NopIsWellFormed(lines);
    CodeIsSizable(lines, 0);
    EntryIsSizable(lines, 1);
  }

  lemma NopIsWellFormed(lines: seq<Line>)
    ensures WellFormedCode(lines, Tokens(NOP, "", "", ""))
  {
  }

  lemma TwoSections(lines: seq<Line>)
    requires |lines| == 2 && Entered(lines[0]) == None && Entered(lines[1]) == Some(".text")
    ensures SectionAt(lines, 0) == SectionAt(lines, 1) == ".text" && Names(lines) == StandardSet()
  {
    hide SectionAt, EnteredBefore;
    StartSection(lines);
    NextSection(lines, 0);
    NextSection(lines, 1);
  }

  lemma ThreeSections(lines: seq<Line>)
    requires |lines| == 3 && Entered(lines[0]) == Some(".rodata") && Entered(lines[1]) == None
    requires Entered(lines[2]) == Some(".data")
    ensures SectionAt(lines, 1) == SectionAt(lines, 2) == ".rodata" && Names(lines) == StandardSet()
  {
    hide SectionAt, EnteredBefore;
    StartSection(lines);
    NextSection(lines, 0);
    NextSection(lines, 1);
    NextSection(lines, 2);
  }

  lemma ReentryOffsets(lines: seq<Line>)
    requires |lines| == 2 && SectionAt(lines, 0) == SectionAt(lines, 1) == ".text"
    requires SizeAt(lines, 0) == 4 && SizeAt(lines, 1) == 0
    ensures forall s :: OffsetAt(lines, 1, s) == OffsetAt(lines, 2, s) == if s == ".text" then 4 else 0
  {
    hide OffsetAt, SizeAt, SectionAt;
    forall s ensures OffsetAt(lines, 1, s) == OffsetAt(lines, 2, s) == if s == ".text" then 4 else 0 {
      NothingReserved(lines, s);
      OffsetGrows(lines, 0, s);
      OffsetGrows(lines, 1, s);
    }
  }

  /** A bare `.data` after a byte of `.rodata` is placed on top of it. */
  lemma BareDataBreaksLockstep()
    ensures var lines := [DotRodata, Item(None, Data(Asciiz("\""))), DotData];
      Sizable(lines) && !InLockstep(lines, 3)
  {
    hide Sizable, InLockstep;
    var lines := [DotRodata, Item(None, Data(Asciiz("\""))), DotData];
    BareDataSizes(lines);
    OutOfStep(lines, 2);
  }

  lemma BareDataSizes(lines: seq<Line>)
    requires lines == [DotRodata, Item(None, Data(Asciiz("\""))), DotData]
    ensures Sizable(lines) && !EntryOk(lines, 2)
  {
    hide Total, OffsetAt, SizeAt, SectionAt, SizableLine, Names;
    ThreeSections(lines);
    NoBytes(lines, 0);
    DataSize(lines, 1);
    NoBytes(lines, 2);
    BareDataOffsets(lines);
    OnlyStandard(lines);
    EntryIsSizable(lines, 0);
    EntryIsSizable(lines, 2);
  }

  lemma BareDataOffsets(lines: seq<Line>)
    requires |lines| == 3 && SectionAt(lines, 1) == SectionAt(lines, 2) == ".rodata"
    requires SizeAt(lines, 0) == 0 && SizeAt(lines, 1) == 1 && SizeAt(lines, 2) == 0
    ensures forall s :: OffsetAt(lines, 3, s) == if s == ".rodata" then 1 else 0
  {
    hide OffsetAt, SizeAt, SectionAt;
    forall s ensures OffsetAt(lines, 3, s) == if s == ".rodata" then 1 else 0 {
      NothingReserved(lines, s);
      OffsetGrows(lines, 0, s);
      OffsetGrows(lines, 1, s);
      OffsetGrows(lines, 2, s);
    }
  }

  /** `li` of a label at a small address: two instructions are reserved and one is emitted. */
  lemma LiOfNearLabel(pc: u32)
    ensures var labels, t := [Label("near", 0, ".text")], Tokens(LI, "x5", "near", "");
      CodeCount(t) == 2 && CodeBytes(labels, pc, t).Done? && |CodeBytes(labels, pc, t).value| == 4
  {
    hide EncodeInstruction, EncodeAll, PrintInt, Expand, CodeBytes, Numeric, ParseImm, CodeCount;
    var labels, t := [Label("near", 0, ".text")], Tokens(LI, "x5", "near", "");
    var u := Tokens(ADDI, "x5", "x0", PrintInt(0));
    NotANumber("near");
    CountOfName(t);
    NearExpands(labels, pc, t);
    OneInstruction(labels, pc, t, u);
    SplitParses(labels, 0);
    ExpandedEncodes(labels, pc, u);
    SingleEncodes(labels, pc, u);
  }

  lemma CountOfName(t: Tokens)
    requires t.op == LI && !Numeric(t.a2)
    ensures CodeCount(t) == 2
  {
    hide Numeric;
  }

  lemma OneInstruction(labels: seq<Label>, pc: u32, t: Tokens, u: Tokens)
    requires t.op == LI && Expand(labels, pc, t) == Done([u])
    ensures CodeBytes(labels, pc, t) == EncodeAll(labels, pc, [u])
  {
    hide EncodeAll, Expand;
  }

  lemma NearExpands(labels: seq<Label>, pc: u32, t: Tokens)
    requires labels == [Label("near", 0, ".text")] && t == Tokens(LI, "x5", "near", "")
    ensures Expand(labels, pc, t) == Done([Tokens(ADDI, "x5", "x0", PrintInt(0))])
  {
    hide PrintInt, Strtol;
    NotANumber("near");
    assert ParseImm(labels, "near") == Done(0);
  }

  // ----- operands, character by character -----

  /** Decimal, negative and hexadecimal immediates. */
  lemma NumberOperands(labels: seq<Label>)
    ensures ParseImm(labels, "42") == Done(42) && ParseImm(labels, "-7") == Done(-7)
    ensures ParseImm(labels, "0x100") == Done(256) && ParseImm(labels, "-0xF") == Done(-15)
  {
    hide ParseImm, DecimalText, HexText, Numeric, NumericValue, Reduced, SignedBy;
    DecimalLiteral(42, false, labels);
    DecimalLiteral(7, true, labels);
    HexLiteral(256, false, false, false, labels);
    HexLiteral(15, false, true, true, labels);
    DecimalTexts();
    HexTexts();
  }

  lemma DecimalTexts()
    ensures DecimalText(42, false) == "42" && DecimalText(7, true) == "-7"
    ensures Reduced(SignedBy(42, false)) == 42 && Reduced(SignedBy(7, true)) == -7
  {
    assert PrintNat(4) == "4" && PrintNat(42) == "42" && PrintNat(7) == "7";
  }

  lemma HexTexts()
    ensures HexText(256, false, false, false) == "0x100" && HexText(15, false, true, true) == "-0xF"
    ensures Reduced(SignedBy(256, false)) == 256 && Reduced(SignedBy(15, true)) == -15
  {
    assert PrintIn(1, 16, false) == "1";
    assert PrintIn(16, 16, false) == "10";
    assert PrintIn(256, 16, false) == "100";
    assert PrintIn(15, 16, true) == "F";
  }

  /** A register by number and by name. */
  lemma RegisterOperands()
    ensures RegNum("x10") == 10 && RegNum("a0") == 10
  {
    hide RegNum;
    assert PrintNat(1) == "1" && PrintNat(10) == "10" && PrintNat(0) == "0";
    NumberedRegister(10, "");
    AbiArguments(0);
    assert "x" + PrintNat(10) + "" == "x10" && "a" + PrintNat(0) == "a0";
  }

  /** A short string: its characters and the terminating zero. */
  lemma StringOperands(labels: seq<Label>)
    ensures DirectiveBytes(labels, Asciiz(" \"hi\"")) == Done([104, 105, 0])
  {
    hide DirectiveBytes, DirectiveSize, Escape;
    StringDirectives(" ", [104, 105], "", labels);
    Hi();
    assert [104, 105] + [0] == [104, 105, 0];
  }

  lemma Hi()
    ensures " " + "\"" + (Escape([104, 105]) + "\"" + "") == " \"hi\""
  {
    assert Escape([]) == "" && Escape([105]) == "i" && Escape([104, 105]) == "h" + Escape([105]);
  }
}
