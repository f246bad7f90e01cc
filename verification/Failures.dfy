/** Which sources the program rejects: the errors of single lines and of whole sources. */
module Failures {
  import opened Words
  import opened Codec
  import opened Text
  import opened Numerals
  import opened Directives
  import opened Source
  import opened Layout
  import opened Lockstep
  import opened ImageProof
  import opened Assembler
  import opened Semantics
  import opened StepProof

  /** An operand that is worth something: nothing, a number, or a known label. */
  predicate Resolves(labels: seq<Label>, a: string)
  {
    a == "" || '0' <= a[0] <= '9' || (a[0] == '-' && |a| > 1 && '0' <= a[1] <= '9') || FindLabel(labels, a).Some?
  }

  lemma ResolvesExactly(labels: seq<Label>, a: string)
    ensures ParseImm(labels, a).Done? <==> Resolves(labels, a)
    ensures ParseImm(labels, a).Done? || ParseImm(labels, a) == Exit
  {
    hide ParseImm, FindLabel;
    if a == "" || '0' <= a[0] <= '9' || (a[0] == '-' && |a| > 1 && '0' <= a[1] <= '9') {
      NumberIsNoLabel(labels, a);
    } else {
      NameIsLabel(labels, a);
    }
  }

  /** A known mnemonic whose immediate operand, if its table has one, is worth something; `la` needs a label. */
  predicate CodeSucceeds(labels: seq<Label>, t: Tokens)
  {
    match KindOf(t.op)
    case KindRegister => true
    case KindImmediate => Resolves(labels, t.a3)
    case KindShift => Resolves(labels, t.a3)
    case KindLoad => Resolves(labels, t.a2)
    case KindStore => Resolves(labels, t.a2)
    case KindBranch => Resolves(labels, t.a3)
    case KindJal => Resolves(labels, t.a2)
    case KindJalr => Resolves(labels, t.a3)
    case KindUpper => Resolves(labels, t.a2)
    case KindSystem => true
    case KindPseudo =>
      (t.op == LI ==> Resolves(labels, t.a2)) && (t.op == LA ==> FindLabel(labels, t.a2).Some?)
      && (t.op == CALL || t.op == J ==> Resolves(labels, t.a1))
    case KindNone => false
  }

  lemma PlainSucceeds(labels: seq<Label>, pc: u32, t: Tokens)
    requires !ClassOf(t.op).ClassPseudo?
    ensures EncodeInstruction(labels, pc, t).Done? <==> CodeSucceeds(labels, t)
    ensures EncodeInstruction(labels, pc, t).Done? || EncodeInstruction(labels, pc, t) == Exit
  {
    hide ClassOf, KindOf, ParseImm, Resolves, EncodeR, EncodeI, EncodeS, EncodeB, EncodeU, EncodeJ, RegField,
         Displacement;
    KindIsClass(t.op);
    ResolvesExactly(labels, t.a2);
    ResolvesExactly(labels, t.a3);
  }

  lemma FirstFailsAll(labels: seq<Label>, pc: u32, t: Tokens)
    requires EncodeInstruction(labels, pc, t) == Exit
    ensures EncodeAll(labels, pc, [t]) == Exit
  {
    hide EncodeInstruction;
  }

  lemma ExpandSucceeds(labels: seq<Label>, pc: u32, t: Tokens)
    requires IsPseudo(t.op)
    ensures t.op == LI && !ParseImm(labels, t.a2).Done? ==> Expand(labels, pc, t) == ParseImm(labels, t.a2).PropagateFailure()
    ensures t.op == LA && FindLabel(labels, t.a2).None? ==> Expand(labels, pc, t) == Exit
    ensures t.op == CALL || t.op == J ==>
      Expand(labels, pc, t) == Done([Tokens(JAL, if t.op == CALL then "x1" else "x0", t.a1, "")])
  {
    hide ParseImm, FindLabel, PrintInt, Hi20, Lo12;
  }

  /** A pseudo-instruction succeeds exactly when its operand resolves. */
  lemma PseudoSucceeds(labels: seq<Label>, pc: u32, t: Tokens)
    requires ClassOf(t.op).ClassPseudo?
    ensures CodeBytes(labels, pc, t).Done? <==> CodeSucceeds(labels, t)
    ensures CodeBytes(labels, pc, t).Done? || CodeBytes(labels, pc, t) == Exit
  {
    hide ClassOf, KindOf, ParseImm, Resolves, FindLabel, Expand, EncodeInstruction, EncodeAll, ReadableInstruction;
    KindIsClass(t.op);
    PseudoOps(t.op);
    MnemonicOfClass(t.op);
    ResolvesExactly(labels, t.a1);
    ResolvesExactly(labels, t.a2);
    ExpandSucceeds(labels, pc, t);
    if CodeSucceeds(labels, t) {
      ExpandedParses(labels, pc, t);
      var ts := Expand(labels, pc, t).value;
      ExpandedEncodes(labels, pc, ts[0]);
      if |ts| == 2 { ExpandedEncodes(labels, Wrap(pc as int + 4), ts[1]); }
      ExpansionEncodes(labels, pc, t);
    } else if t.op == CALL || t.op == J {
      JumpFails(labels, pc, if t.op == CALL then "x1" else "x0", t.a1);
    }
  }

  lemma JumpFails(labels: seq<Label>, pc: u32, rd: string, a: string)
    requires ParseImm(labels, a) == Exit
    ensures EncodeAll(labels, pc, [Tokens(JAL, rd, a, "")]) == Exit
  {
    hide EncodeAll, EncodeInstruction, ParseImm;
    JalExits(labels, pc, rd, a);
    FirstFailsAll(labels, pc, Tokens(JAL, rd, a, ""));
  }

  lemma JalExits(labels: seq<Label>, pc: u32, rd: string, a: string)
    requires ParseImm(labels, a) == Exit
    ensures EncodeInstruction(labels, pc, Tokens(JAL, rd, a, "")) == Exit
  {
    hide ParseImm, EncodeInstruction, Resolves, ClassOf, KindOf;
    var t := Tokens(JAL, rd, a, "");
    KindIsClass(JAL);
    assert KindOf(JAL).KindJal? by { JalIsJal(); }
    ResolvesExactly(labels, a);
    PlainSucceeds(labels, pc, t);
  }

  lemma JalIsJal()
    ensures KindOf(JAL).KindJal?
  {
  }

  /** An instruction line is emitted if and only if its mnemonic is known and its operand resolves, wherever it
      stands; otherwise the program exits. */
  lemma CodeBytesExactly(labels: seq<Label>, pc: u32, t: Tokens)
    ensures CodeBytes(labels, pc, t).Done? <==> CodeSucceeds(labels, t)
    ensures CodeBytes(labels, pc, t).Done? || CodeBytes(labels, pc, t) == Exit
  {
    hide ClassOf, CodeSucceeds, EncodeInstruction, Expand, EncodeAll;
    if ClassOf(t.op).ClassPseudo? {
      PseudoSucceeds(labels, pc, t);
    } else {
      PlainSucceeds(labels, pc, t);
      if CodeSucceeds(labels, t) {
        SingleEncodes(labels, pc, t);
      } else {
        FirstFailsAll(labels, pc, t);
      }
    }
  }

  // ----- what the two passes make of a single line -----

  /** A section directive brings both passes to the section it names. The first pass moves no offset. The second
      writes nothing; it goes to the section's base, but for `.text` to zero and for a bare `.data` to the end of
      the instructions of `.text`. */
  lemma SectionDirectives(c: Counting, tb: Tables, e: Emitting, l: Line, s: string)
    requires Known(c) && s in tb.bases
    requires (l == DotText && s == ".text") || (l == DotData && s == ".data") || (l == DotRodata && s == ".rodata")
      || (l == DotBss && s == ".bss") || (l == Section(s) && s != "")
    ensures FirstStep(c, l).Done? && SecondStep(tb, e, l).Done?
    ensures var c' := FirstStep(c, l).value;
      c'.current == s && c'.labels == c.labels && c'.pcText == c.pcText && c'.sections.Keys == c.sections.Keys + {s}
      && forall n :: n in c'.sections ==>
           c'.sections[n] == if n in c.sections then c.sections[n] else SectionInfo(n, GetSectionType(n), 0, 0)
    ensures var e' := SecondStep(tb, e, l).value;
      e'.section == s && e'.file == e.file && e'.pc == e'.pos
      && e'.pc == if l == DotText then 0 else if l == DotData then tb.pcText else tb.bases[s]
  {
    hide GetSectionType;
  }

  /** A section directive without a name and a line without content leave both passes where they are. */
  lemma EmptyLines(c: Counting, tb: Tables, e: Emitting)
    requires Known(c)
    ensures FirstStep(c, Section("")) == FirstStep(c, Skip) == Done(c)
    ensures SecondStep(tb, e, Section("")) == SecondStep(tb, e, Skip) == Done(e)
  {
  }

  /** A data directive among the instructions is never emitted, yet the first pass makes room for it: four bytes
      when the line carries a label, whatever the directive, and its own size otherwise. */
  lemma DataInText(c: Counting, tb: Tables, e: Emitting, name: Option<string>, d: Directive)
    requires Known(c) && c.sections[c.current].kind == SecText
    requires e.section in tb.bases && IsText(e.section)
    ensures SecondStep(tb, e, Item(name, Data(d))) == Done(e)
    ensures var r := FirstStep(c, Item(name, Data(d)));
      r.Done? ==>
        (var room := if name.Some? then 4 else DirectiveSize(d).value;
         r.value.sections[c.current].offset == Wrap(c.sections[c.current].offset + room))
  {
    hide DirectiveSize, GetSectionType, FindLabel;
  }

  // ----- whole sources -----

  /** The first pass knows the section in force, every section entered so far, and its type. */
  lemma {:induction false} FirstSections(lines: seq<Line>, k: nat)
    requires k <= |lines| && FirstAt(lines, k).Done?
    ensures var c := FirstAt(lines, k).value;
      c.current == SectionAt(lines, k) && c.sections.Keys == StandardSet() + EnteredBefore(lines, k)
  {
    hide BodySize, LabelsWith, AdvancesText;
    if k > 0 { FirstSections(lines, k - 1); }
  }

  /** The second pass accepts line `k`. */
  predicate LineSucceeds(labels: seq<Label>, lines: seq<Line>, k: nat)
    requires k < |lines|
  {
    match lines[k]
    case Item(_, Code(t)) => IsText(SectionAt(lines, k)) ==> CodeSucceeds(labels, t)
    case Item(_, Data(d)) => IsText(SectionAt(lines, k)) || DirectiveBytes(labels, d).Done?
    case _ => true
  }

  lemma {:induction false} SecondSection(tb: Tables, lines: seq<Line>, k: nat)
    requires k <= |lines| && SecondAt(tb, lines, k).Done?
    ensures SecondAt(tb, lines, k).value.section == SectionAt(lines, k)
  {
    hide LineBytes, InText, WriteAt;
    if k > 0 { SecondSection(tb, lines, k - 1); }
  }

  lemma StepSucceeds(tb: Tables, lines: seq<Line>, k: nat, e: Emitting)
    requires k < |lines| && e.section == SectionAt(lines, k) && SectionAt(lines, k) in tb.bases
    ensures SecondStep(tb, e, lines[k]).Done? <==> LineSucceeds(tb.labels, lines, k)
  {
    hide CodeBytes, CodeSucceeds, DirectiveBytes, IsText, SectionAt, WriteAt;
    var l := lines[k];
    if l.Item? && l.body.Code? { CodeBytesExactly(tb.labels, e.pc, l.body.t); }
  }

  lemma {:induction false} SecondSucceeds(tb: Tables, lines: seq<Line>, k: nat)
    requires k <= |lines| && forall j :: 0 <= j < |lines| ==> SectionAt(lines, j) in tb.bases
    ensures SecondAt(tb, lines, k).Done? <==> forall j :: 0 <= j < k ==> LineSucceeds(tb.labels, lines, j)
  {
    hide SecondStep, LineSucceeds, SectionAt;
    if k > 0 {
      SecondSucceeds(tb, lines, k - 1);
      if SecondAt(tb, lines, k - 1).Done? {
        SecondSection(tb, lines, k - 1);
        StepSucceeds(tb, lines, k - 1, SecondAt(tb, lines, k - 1).value);
      }
    }
  }

  /** A source whose first pass succeeds is assembled if and only if the second pass accepts each of its lines:
      known mnemonics, operands that resolve against the relocated labels, and directives that can be read. */
  lemma AssembledExactly(lines: seq<Line>)
    requires FirstAt(lines, |lines|).Done?
    ensures var labels := TablesFrom(FirstAt(lines, |lines|).value).labels;
      Assembled(lines).Done? <==> forall k :: 0 <= k < |lines| ==> LineSucceeds(labels, lines, k)
  {
    hide FirstAt, SecondAt, LineSucceeds, NewBase, SectionAt;
    var c := FirstAt(lines, |lines|).value;
    FirstSections(lines, |lines|);
    forall j | 0 <= j < |lines| ensures SectionAt(lines, j) in TablesFrom(c).bases { SectionInNames(lines, j); }
    SecondSucceeds(TablesFrom(c), lines, |lines|);
  }

  /** A source whose first pass fails is not assembled: the program exits. */
  lemma FirstPassFailure(lines: seq<Line>)
    requires !FirstAt(lines, |lines|).Done?
    ensures Assembled(lines) == Exit
  {
    hide FirstAt, SecondAt, TablesFrom;
    FirstNeverDiverges(lines, |lines|);
  }
}
