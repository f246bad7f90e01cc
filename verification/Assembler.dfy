/** The assembler object: first pass, label adjustment and second pass as state-changing methods.

The two passes are proved against folds over the lines, `FirstAt` here and `SecondAt` in module Lockstep, for every
source; the label adjustment against the layout's placement. `FirstPassIsLayout` and `AssembledImage` then relate the
folds to the global layout.
*/
module Assembler {
  import opened Words
  import opened Codec
  import opened ByteMemory
  import opened Text
  import opened Directives
  import opened Source
  import opened Layout
  import opened Lockstep
  import opened ImageProof

  datatype SectionInfo = SectionInfo(name: string, kind: SectionType, offset: u32, base: u32)

  // ----- the output file -----

  class OutFile {
    var bytes: seq<byte>
    var pos: nat

    constructor ()
      ensures bytes == [] && pos == 0
    {
      bytes, pos := [], 0;
    }

    /** The file after `data` has been written to `file0` at `pos0`. */
    ghost predicate Has(file0: seq<byte>, pos0: nat, data: seq<byte>)
      reads this
    {
      bytes == WriteAt(file0, pos0, data) && pos == pos0 + |data|
    }

    method Seek(p: nat)
      modifies this
      ensures pos == p && bytes == old(bytes)
    {
      pos := p;
    }

    method Write(data: seq<byte>)
      modifies this
      ensures bytes == WriteAt(old(bytes), old(pos), data) && pos == old(pos) + |data|
    {
      if data != [] {
        bytes := Pad(bytes, pos)[..pos] + data + Drop(bytes, pos + |data|);
      }
      pos := pos + |data|;
    }
  }

  lemma WriteNothing(file: seq<byte>, pos: nat)
    ensures WriteAt(file, pos, []) == file
  {
  }

  /** One iteration of the encoding loop. */
  lemma EncodeNext(labels: seq<Label>, pc: u32, ts: seq<Tokens>, done: seq<byte>)
    requires ts != []
    ensures var w := EncodeInstruction(labels, pc, ts[0]);
      Prepend(done, EncodeAll(labels, pc, ts))
      == if w.Done? then Prepend(done + Bytes(w.value, 4), EncodeAll(labels, Wrap(pc + 4), ts[1..]))
         else w.PropagateFailure()
  {
    hide EncodeInstruction, Bytes, Wrap;
    var w, rest := EncodeInstruction(labels, pc, ts[0]), EncodeAll(labels, Wrap(pc + 4), ts[1..]);
    if w.Done? && rest.Done? {
      assert done + (Bytes(w.value, 4) + rest.value) == done + Bytes(w.value, 4) + rest.value;
    }
  }

  lemma EncodeNone(labels: seq<Label>, pc: u32, ts: seq<Tokens>, done: seq<byte>)
    requires ts == []
    ensures Prepend(done, EncodeAll(labels, pc, ts)) == Done(done)
  {
    assert done + [] == done;
  }

  /** One iteration of the emitting loop of a number list. */
  lemma ListNext(width: nat, labels: seq<Label>, s: string, done: seq<byte>)
    requires s != ""
    ensures Prepend(done, ListBytes(width, labels, s)) ==
      if Blank(s[0]) || s[0] == ',' then Prepend(done, ListBytes(width, labels, s[SkipSeparators(s)..]))
      else
        var n := OperandAt(width, labels, s);
        if !n.Done? then n.PropagateFailure()
        else
          var t := s[n.value.used..];
          var rest := t[SkipSeparators(t)..];
          if |rest| == |s| then Diverge
          else Prepend(done + Bytes(Wrap(n.value.value), width), ListBytes(width, labels, rest))
    ensures (Blank(s[0]) || s[0] == ',') ==> SkipSeparators(s) >= 1
  {
    hide OperandAt, Bytes, Wrap;
    if !(Blank(s[0]) || s[0] == ',') && OperandAt(width, labels, s).Done? {
      var n := OperandAt(width, labels, s).value;
      var t := s[n.used..];
      var rest := t[SkipSeparators(t)..];
      var b := Bytes(Wrap(n.value), width);
      if |rest| != |s| && ListBytes(width, labels, rest).Done? {
        assert done + (b + ListBytes(width, labels, rest).value) == done + b + ListBytes(width, labels, rest).value;
      }
    }
  }

  lemma ListEnd(width: nat, labels: seq<Label>, done: seq<byte>)
    ensures Prepend(done, ListBytes(width, labels, "")) == Done(done)
  {
    assert done + [] == done;
  }

  /** No section has been given a base address yet. */
  predicate Unplaced(sections: map<string, SectionInfo>)
  {
    forall s :: s in sections ==> sections[s].base == 0
  }

  lemma GrownUnplaced(sections: map<string, SectionInfo>, s: string, n: int)
    requires s in sections
    ensures Unplaced(sections) ==> Unplaced(Grown(sections, s, n))
  {
  }

  /** One section's offset advanced by `n` bytes. */
  function Grown(sections: map<string, SectionInfo>, s: string, n: int): map<string, SectionInfo>
    requires s in sections
  {
    sections[s := sections[s].(offset := Wrap(sections[s].offset + n))]
  }

  // ----- first-pass sizes -----

  /** `pseudoinstruction_size`: zero for an ordinary instruction. */
  function PseudoinstructionSize(labels: seq<Label>, t: Tokens): Result<nat>
  {
    match t.op
    case NOP => Done(1)
    case MV => Done(1)
    case LI =>
      if t.a2 != "" && (IsDigit(t.a2[0]) || t.a2[0] == '-') then
        var imm :- ParseImm(labels, t.a2);
        Done(if FitsImm(imm) then 1 else 2)
      else Done(2)
    case LA => Done(2)
    case CALL => Done(1)
    case RET => Done(1)
    case J => Done(1)
    case _ => Done(0)
  }

  /** The bytes reserved for an instruction; every word that is not a pseudo-instruction counts as one. */
  function InstructionSize(labels: seq<Label>, t: Tokens): Result<nat>
  {
    var n :- PseudoinstructionSize(labels, t);
    Done(if n > 0 then 4 * n else 4)
  }

  lemma SizesMatch(labels: seq<Label>, t: Tokens)
    requires PlainLi(t)
    ensures InstructionSize(labels, t) == Done(4 * CodeCount(t))
  {
    hide Strtol, WrapSigned;
    if t.op == LI && Numeric(t.a2) { NumericImm(labels, t.a2); }
  }

  // ----- the first pass as a fold over the lines -----

  /** The state of the first pass. */
  datatype Counting = Counting(labels: seq<Label>, sections: map<string, SectionInfo>, current: string, pcText: u32)

  predicate Known(c: Counting)
  {
    StandardSet() <= c.sections.Keys && c.current in c.sections
  }

  function StartFirst(): Counting
  {
    Counting([], map[
      ".text" := SectionInfo(".text", SecText, 0, 0),
      ".data" := SectionInfo(".data", SecData, 0, 0),
      ".rodata" := SectionInfo(".rodata", SecRodata, 0, 0),
      ".bss" := SectionInfo(".bss", SecBss, 0, 0)], ".text", 0)
  }

  /** The bytes reserved for the body of a line; a `li` of a name is looked up among the labels so far. */
  function BodySize(labels: seq<Label>, l: Line, text: bool): Result<int>
    requires l.Item?
  {
    match l.body
    case Nothing => Done(0)
    case Code(t) => if text then InstructionSize(labels, t) else Done(0)
    case Data(d) => if text && l.defines.Some? then Done(4) else DirectiveSize(d)
  }

  /** The lines whose size also advances the text counter. */
  predicate AdvancesText(c: Counting, l: Line)
  {
    c.current == ".text" && CountedText(l)
  }

  function LabelsWith(c: Counting, l: Line): seq<Label>
    requires l.Item? && Known(c)
  {
    c.labels + if l.defines.Some? then [Label(l.defines.value, c.sections[c.current].offset, c.current)] else []
  }

  function FirstItem(c: Counting, l: Line): (r: Result<Counting>)
    requires l.Item? && Known(c)
    ensures r.Done? ==> Known(r.value)
  {
    if l.defines.Some? && FindLabel(c.labels, l.defines.value).Some? then Exit
    else
      var labels := LabelsWith(c, l);
      match BodySize(labels, l, c.sections[c.current].kind == SecText)
      case Done(n) =>
        Done(Counting(labels, Grown(c.sections, c.current, n), c.current,
                      Wrap(c.pcText + if AdvancesText(c, l) then n else 0)))
      case _ => Exit
  }

  function WithSection(sections: map<string, SectionInfo>, s: string): map<string, SectionInfo>
  {
    if s in sections then sections else sections[s := SectionInfo(s, GetSectionType(s), 0, 0)]
  }

  function FirstStep(c: Counting, l: Line): (r: Result<Counting>)
    requires Known(c)
    ensures r.Done? ==> Known(r.value)
  {
    if Entered(l).Some? then
      Done(Counting(c.labels, WithSection(c.sections, Entered(l).value), Entered(l).value, c.pcText))
    else if l.Item? then FirstItem(c, l)
    else Done(c)
  }

  /** The state of the first pass before line `k`. */
  function FirstAt(lines: seq<Line>, k: nat): (r: Result<Counting>)
    requires k <= |lines|
    ensures r.Done? ==> Known(r.value)
  {
    if k == 0 then Done(StartFirst())
    else
      var c :- FirstAt(lines, k - 1);
      FirstStep(c, lines[k - 1])
  }

  lemma FirstStart(lines: seq<Line>)
    ensures FirstAt(lines, 0) == Done(StartFirst())
  {
  }

  lemma FirstNext(lines: seq<Line>, k: nat)
    requires k < |lines| && FirstAt(lines, k).Done?
    ensures FirstAt(lines, k + 1) == FirstStep(FirstAt(lines, k).value, lines[k])
  {
    hide FirstStep;
  }

  lemma {:induction false} FirstNeverDiverges(lines: seq<Line>, k: nat)
    requires k <= |lines|
    ensures !FirstAt(lines, k).Diverge?
  {
    hide BodySize, Grown, LabelsWith, WithSection, AdvancesText;
    if k > 0 { FirstNeverDiverges(lines, k - 1); }
  }

  /** A failing line makes the whole first pass fail. */
  lemma {:induction false} FirstFails(lines: seq<Line>, k: nat)
    requires k <= |lines| && !FirstAt(lines, k).Done?
    ensures !FirstAt(lines, |lines|).Done?
    decreases |lines| - k
  {
    hide FirstStep;
    if k < |lines| { FirstFails(lines, k + 1); }
  }

  // ----- sources the first pass can size -----

  predicate PlainLine(l: Line)
  {
    l.Item? && l.body.Code? ==> PlainLi(l.body.t)
  }

  predicate PlainSource(lines: seq<Line>)
  {
    forall k :: 0 <= k < |lines| && IsText(SectionAt(lines, k)) ==> PlainLine(lines[k])
  }

  /** The first pass does not give up: no label is defined twice and every string it reads is well-formed. */
  ghost predicate Countable(lines: seq<Line>)
  {
    NoDuplicateLabels(lines)
    && forall k :: 0 <= k < |lines| ==> LineSize(lines[k], IsText(SectionAt(lines, k))).Done?
  }

  lemma {:induction false} RelativeNames(lines: seq<Line>, k: nat, name: string)
    requires k <= |lines|
    ensures FindLabel(RelativeLabels(lines, k), name).Some? <==> exists j :: 0 <= j < k && Defines(lines[j], name)
  {
    hide FindLabel, Defines;
    if k == 0 {
      EmptyLookup(name);
    } else {
      hide RelativeLabels;
      RelativeNames(lines, k - 1, name);
      RelativeNext(lines, k, name);
    }
  }

  lemma RelativeNext(lines: seq<Line>, k: nat, name: string)
    requires 0 < k <= |lines|
    ensures FindLabel(RelativeLabels(lines, k), name).Some? <==>
      FindLabel(RelativeLabels(lines, k - 1), name).Some? || Defines(lines[k - 1], name)
  {
    hide OffsetAt, SectionAt, Wrap, FindLabel;
    var l := lines[k - 1];
    var before := RelativeLabels(lines, k - 1);
    if l.Item? && l.defines.Some? {
      var s := SectionAt(lines, k - 1);
      FindAppend(before, Label(l.defines.value, Wrap(OffsetAt(lines, k - 1, s)), s), name);
    } else {
      assert RelativeLabels(lines, k) == before;
    }
  }

  /** What the first `k` lines leave behind: sections with their offsets, labels relative to them, the
      current section, and the size of the instructions of `.text`. */
  ghost predicate After(lines: seq<Line>, k: nat, labels: seq<Label>, sections: map<string, SectionInfo>,
                        current: string, pcText: u32)
    requires k <= |lines|
  {
    labels == RelativeLabels(lines, k)
    && current == SectionAt(lines, k)
    && sections.Keys == StandardSet() + EnteredBefore(lines, k)
    && (forall s :: s in sections ==>
          sections[s] == SectionInfo(s, GetSectionType(s), Wrap(OffsetAt(lines, k, s)), 0))
    && pcText == Wrap(CodeOffset(lines, k))
  }

  lemma {:induction false} SectionKnownAt(lines: seq<Line>, k: nat)
    requires k <= |lines|
    ensures SectionAt(lines, k) in StandardSet() + EnteredBefore(lines, k)
  {
    if k > 0 { SectionKnownAt(lines, k - 1); }
  }

  /** A section that is new at line `k` has nothing reserved yet. */
  lemma {:induction false} NewSectionEmpty(lines: seq<Line>, k: nat, s: string)
    requires k <= |lines| && s !in StandardSet() + EnteredBefore(lines, k)
    ensures OffsetAt(lines, k, s) == 0
  {
    hide SizeAt;
    if k > 0 {
      SectionKnownAt(lines, k - 1);
      NewSectionEmpty(lines, k - 1, s);
    }
  }

  /** A section directive reserves nothing; it adds the section if it is new. */
  lemma AfterEntering(lines: seq<Line>, k: nat, labels: seq<Label>, sections: map<string, SectionInfo>,
                      current: string, pcText: u32)
    requires k < |lines| && After(lines, k, labels, sections, current, pcText) && Entered(lines[k]).Some?
    ensures var s := Entered(lines[k]).value;
      After(lines, k + 1, labels,
            WithSection(sections, s), s, pcText)
  {
    hide GetSectionType, OffsetAt, CodeOffset, SizeAt, RelativeLabels, Wrap;
    var s := Entered(lines[k]).value;
    NoBytes(lines, k);
    if s !in sections { NewSectionEmpty(lines, k, s); }
    forall x ensures OffsetAt(lines, k + 1, x) == OffsetAt(lines, k, x) { OffsetUnchanged(lines, k, x); }
    assert CodeOffset(lines, k + 1) == CodeOffset(lines, k) by { CodeNext(lines, k); }
    NoNewLabel(lines, k);
    assert Wrap(0) == 0 by { WrapZero(); }
  }

  lemma NoNewLabel(lines: seq<Line>, k: nat)
    requires k < |lines| && !lines[k].Item?
    ensures RelativeLabels(lines, k + 1) == RelativeLabels(lines, k)
  {
    hide OffsetAt, SectionAt;
  }

  lemma WrapZero()
    ensures Wrap(0) == 0
  {
  }

  lemma CodeNext(lines: seq<Line>, k: nat)
    requires k < |lines|
    ensures CodeOffset(lines, k + 1) == CodeOffset(lines, k) + CodePart(lines, k)
  {
  }

  /** The part of line `k`'s size that also advances the text counter. */
  function CodePart(lines: seq<Line>, k: nat): int
    requires k < |lines|
  {
    var l := lines[k];
    if SectionAt(lines, k) == ".text" && l.Item? && (l.body.Code? || (l.body.Data? && l.defines.Some?))
    then SizeAt(lines, k) else 0
  }

  /** Any other line grows its own section by its size and records its label. */
  lemma AfterItem(lines: seq<Line>, k: nat, labels: seq<Label>, sections: map<string, SectionInfo>,
                  current: string, pcText: u32)
    requires k < |lines| && After(lines, k, labels, sections, current, pcText) && Entered(lines[k]).None?
    requires current in sections
    ensures var l := lines[k];
      After(lines, k + 1,
            labels + if l.Item? && l.defines.Some? then [Label(l.defines.value, sections[current].offset, current)] else [],
            Grown(sections, current, SizeAt(lines, k)), current, Wrap(pcText + CodePart(lines, k)))
  {
    hide GetSectionType, SizeAt, OffsetAt, CodeOffset, CodePart, Wrap;
    forall x | x in sections
      ensures OffsetAt(lines, k + 1, x) == OffsetAt(lines, k, x) + if x == current then SizeAt(lines, k) else 0
    {
      OffsetGrows(lines, k, x);
    }
    WrapAdd(OffsetAt(lines, k, current), SizeAt(lines, k));
    CodeNext(lines, k);
    WrapAdd(CodeOffset(lines, k), CodePart(lines, k));
  }

  lemma GrownByNothing(sections: map<string, SectionInfo>, s: string)
    requires s in sections
    ensures Grown(sections, s, 0) == sections
  {
  }

  ghost predicate CountableBefore(lines: seq<Line>, k: nat)
    requires k <= |lines|
  {
    (forall i, j :: 0 <= i < j < k && lines[i].Item? && lines[i].defines.Some? ==>
       !Defines(lines[j], lines[i].defines.value))
    && forall j :: 0 <= j < k ==> LineSize(lines[j], IsText(SectionAt(lines, j))).Done?
  }

  lemma CountableAll(lines: seq<Line>, k: nat)
    requires k <= |lines|
    ensures Countable(lines) ==> CountableBefore(lines, k)
    ensures k == |lines| && CountableBefore(lines, k) ==> Countable(lines)
  {
  }

  /** A line is accepted when its label is new and its size is known. */
  predicate Acceptable(l: Line, labels: seq<Label>, text: bool)
  {
    (l.Item? && l.defines.Some? ==> FindLabel(labels, l.defines.value) == None) && LineSize(l, text).Done?
  }

  lemma CountableStep(lines: seq<Line>, k: nat)
    requires k < |lines| && CountableBefore(lines, k)
    ensures CountableBefore(lines, k + 1)
       <==> Acceptable(lines[k], RelativeLabels(lines, k), IsText(SectionAt(lines, k)))
  {
    hide LineSize, SectionAt, RelativeLabels, IsText;
    var l := lines[k];
    if l.Item? && l.defines.Some? {
      RelativeNames(lines, k, l.defines.value);
      assert Defines(l, l.defines.value);
    }
  }

  lemma StartsPassed(lines: seq<Line>, sections: map<string, SectionInfo>)
    requires sections.Keys == StandardSet()
    requires forall s :: s in sections ==> sections[s] == SectionInfo(s, GetSectionType(s), 0, 0)
    ensures After(lines, 0, [], sections, ".text", 0) && CountableBefore(lines, 0)
  {
  }

  /** A line that is not acceptable makes the whole source uncountable. */
  lemma StepAccepts(lines: seq<Line>, k: nat, labels: seq<Label>, sections: map<string, SectionInfo>,
                    current: string, pcText: u32)
    requires k < |lines| && After(lines, k, labels, sections, current, pcText) && CountableBefore(lines, k)
    ensures current == SectionAt(lines, k)
    ensures Acceptable(lines[k], labels, IsText(current)) <==> CountableBefore(lines, k + 1)
    ensures !Acceptable(lines[k], labels, IsText(current)) ==> !Countable(lines)
  {
    hide GetSectionType, CountableBefore, Countable, LineSize, OffsetAt, CodeOffset, FindLabel, Acceptable;
    CountableStep(lines, k);
    CountableAll(lines, k + 1);
  }

  /** The effect of one line of the first pass. */
  lemma StepPassed(lines: seq<Line>, k: nat, labels: seq<Label>, sections: map<string, SectionInfo>,
                   current: string, pcText: u32)
    requires k < |lines| && After(lines, k, labels, sections, current, pcText) && current in sections
    ensures var l := lines[k];
      if Entered(l).Some? then
        var s := Entered(l).value;
        After(lines, k + 1, labels,
              WithSection(sections, s), s, pcText)
      else if !l.Item? then After(lines, k + 1, labels, sections, current, pcText)
      else LineSize(l, IsText(current)).Done? ==>
        var n := LineSize(l, IsText(current)).value;
        After(lines, k + 1,
              labels + (if l.defines.Some? then [Label(l.defines.value, sections[current].offset, current)] else []),
              Grown(sections, current, n), current,
              Wrap(pcText + if current == ".text" && (l.body.Code? || (l.body.Data? && l.defines.Some?)) then n else 0))
  {
    hide GetSectionType, LineSize, OffsetAt, CodeOffset, After;
    var l := lines[k];
    if Entered(l).Some? {
      AfterEntering(lines, k, labels, sections, current, pcText);
    } else {
      AfterSection(lines, k, labels, sections, current, pcText);
      AfterItem(lines, k, labels, sections, current, pcText);
      if !l.Item? {
        NoBytes(lines, k);
        GrownByNothing(sections, current);
        assert labels + [] == labels;
      }
    }
  }

  lemma AfterSection(lines: seq<Line>, k: nat, labels: seq<Label>, sections: map<string, SectionInfo>,
                     current: string, pcText: u32)
    requires k <= |lines| && After(lines, k, labels, sections, current, pcText)
    ensures current == SectionAt(lines, k)
    ensures current in sections ==> sections[current].kind == GetSectionType(current)
  {
    hide OffsetAt, CodeOffset, SectionAt, GetSectionType;
  }

  lemma OtherLinesAcceptable(l: Line, labels: seq<Label>, text: bool)
    requires !l.Item?
    ensures Acceptable(l, labels, text)
  {
  }

  /** A line of a source without `li` of a negated name: the fold accepts it exactly when the layout can size it,
      and reserves the layout's size. */
  lemma ItemMatches(c: Counting, l: Line)
    requires Known(c) && l.Item? && c.sections[c.current].kind == GetSectionType(c.current)
    requires IsText(c.current) ==> PlainLine(l)
    ensures FirstItem(c, l).Done? <==> Acceptable(l, c.labels, IsText(c.current))
    ensures FirstItem(c, l).Done? ==> LineSize(l, IsText(c.current)).Done?
    ensures FirstItem(c, l).Done? ==>
      var n := LineSize(l, IsText(c.current)).value;
      FirstItem(c, l).value == Counting(LabelsWith(c, l), Grown(c.sections, c.current, n), c.current,
                                        Wrap(c.pcText + if AdvancesText(c, l) then n else 0))
  {
    hide GetSectionType, InstructionSize, CodeCount, DirectiveSize, PlainLi, Grown, LabelsWith, AdvancesText, Wrap,
         FindLabel;
    if l.body.Code? && IsText(c.current) { SizesMatch(LabelsWith(c, l), l.body.t); }
  }

  lemma FirstMatches(lines: seq<Line>, k: nat, c: Counting)
    requires PlainSource(lines) && k < |lines| && Known(c)
    requires After(lines, k, c.labels, c.sections, c.current, c.pcText) && CountableBefore(lines, k)
    ensures var r := FirstStep(c, lines[k]);
      (r.Done? <==> CountableBefore(lines, k + 1))
      && (r.Done? ==> After(lines, k + 1, r.value.labels, r.value.sections, r.value.current, r.value.pcText))
  {
    hide GetSectionType, LineSize, OffsetAt, CodeOffset, CountableBefore, FirstItem, Grown, FindLabel, PlainLine,
         After, SectionAt, WithSection, Countable, Acceptable;
    var l := lines[k];
    StepAccepts(lines, k, c.labels, c.sections, c.current, c.pcText);
    StepPassed(lines, k, c.labels, c.sections, c.current, c.pcText);
    AfterSection(lines, k, c.labels, c.sections, c.current, c.pcText);
    if l.Item? {
      ItemMatches(c, l);
    } else {
      OtherLinesAcceptable(l, c.labels, IsText(c.current));
    }
  }

  /** The first pass against the layout: on sources without `li` of a negated name it succeeds exactly when the
      layout can size every line and no label is defined twice, and then it knows every offset. */
  lemma {:induction false} FirstPassIsLayout(lines: seq<Line>, k: nat)
    requires PlainSource(lines) && k <= |lines|
    ensures FirstAt(lines, k).Done? <==> CountableBefore(lines, k)
    ensures FirstAt(lines, k).Done? ==>
      var c := FirstAt(lines, k).value;
      After(lines, k, c.labels, c.sections, c.current, c.pcText)
  {
    hide FirstStep, After, CountableBefore, PlainSource;
    if k == 0 {
      StandardTypes();
      StartsPassed(lines, StartFirst().sections);
    } else {
      FirstPassIsLayout(lines, k - 1);
      if FirstAt(lines, k - 1).Done? {
        FirstMatches(lines, k - 1, FirstAt(lines, k - 1).value);
      } else {
        if CountableBefore(lines, k) { CountableShrinks(lines, k); }
      }
    }
  }

  lemma CountableShrinks(lines: seq<Line>, k: nat)
    requires 0 < k <= |lines| && CountableBefore(lines, k)
    ensures CountableBefore(lines, k - 1)
  {
    hide LineSize, SectionAt;
  }

  // ----- placing sections -----

  ghost function OffsetMap(sections: map<string, SectionInfo>): map<string, int>
  {
    map s | s in sections :: sections[s].offset
  }

  /** The base that `adjust_labels` assigns to a section. */
  ghost function NewBase(sections: map<string, SectionInfo>, s: string): u32
    requires StandardSet() <= sections.Keys
  {
    OrderMembers(sections.Keys);
    var order := Order(sections.Keys);
    if s in order then Wrap(BaseOf(OffsetMap(sections), order, s)) else 0
  }

  lemma {:induction false} BaseAfter(sizes: map<string, int>, a: seq<string>, s: string, b: seq<string>)
    requires s !in a && forall n :: n in a + [s] + b ==> n in sizes
    ensures BaseOf(sizes, a + [s] + b, s) == TotalOf(sizes, a)
    ensures TotalOf(sizes, a + [s]) == TotalOf(sizes, a) + sizes[s]
  {
    if a == [] {
      assert a + [s] + b == [s] + b && [s][1..] == [];
      assert TotalOf(sizes, [s]) == sizes[s] + TotalOf(sizes, []);
      assert a + [s] == [s];
    } else {
      assert (a + [s] + b)[1..] == a[1..] + [s] + b && (a + [s])[1..] == a[1..] + [s];
      BaseAfter(sizes, a[1..], s, b);
    }
  }

  /** Iterating over all names in ascending order meets the custom ones in ascending order. */
  lemma SortedCustomStep(rest: set<string>, m: string)
    requires IsLeast(m, rest)
    ensures Sorted(CustomNames(rest))
         == (if IsCustom(m) then [m] + Sorted(CustomNames(rest - {m})) else Sorted(CustomNames(rest - {m})))
  {
    hide IsCustom;
    if IsCustom(m) {
      var c := CustomNames(rest);
      assert IsLeast(m, c);
      LeastExists(c);
      var m' := Sorted(c)[0];
      LeastUnique(m, m', c);
      assert c - {m} == CustomNames(rest - {m});
    } else {
      assert CustomNames(rest) == CustomNames(rest - {m});
    }
  }

  // ----- from the first pass to the tables of the second -----

  /** Base addresses computed from wrapped offsets are the wrapped base addresses. */
  lemma {:induction false} BaseOfWrapped(sizes: map<string, int>, wrapped: map<string, int>, order: seq<string>, s: string)
    requires forall n :: n in order ==> n in sizes && n in wrapped && wrapped[n] == Wrap(sizes[n])
    ensures Wrap(BaseOf(wrapped, order, s)) == Wrap(BaseOf(sizes, order, s))
  {
    hide Wrap;
    if order != [] && order[0] != s {
      BaseOfWrapped(sizes, wrapped, order[1..], s);
      var a, b := sizes[order[0]], BaseOf(sizes, order[1..], s);
      var b' := BaseOf(wrapped, order[1..], s);
      WrapAdd(a, b');
      WrapAdd(b, a);
      WrapAdd(b', a);
    }
  }

  /** Placement in progress: `done` is placed, `todo` is still to come, `base` is the running base. */
  ghost predicate Placed(was: map<string, SectionInfo>, now: map<string, SectionInfo>,
                         done: seq<string>, todo: seq<string>, base: u32)
    requires StandardSet() <= was.Keys
  {
    var order := Order(was.Keys);
    now.Keys == was.Keys
    && done + todo == order
    && (forall n :: n in order ==> n in was) && Distinct(order)
    && base == Wrap(TotalOf(OffsetMap(was), done))
    && forall s :: s in now ==>
         now[s] == was[s].(base := if s in done then Wrap(BaseOf(OffsetMap(was), order, s)) else 0)
  }

  /** A label relocated by the base of its section. */
  function Moved(sections: map<string, SectionInfo>, l: Label): Label
  {
    if l.section in sections then l.(addr := Wrap(l.addr + sections[l.section].base)) else l
  }

  lemma OrderNested(names: set<string>)
    ensures Order(names) == [".text"] + ([".rodata"] + ([".data"] + ([".bss"] + Sorted(CustomNames(names)))))
  {
  }

  lemma StartPlacing(sections: map<string, SectionInfo>, todo: seq<string>)
    requires StandardSet() <= sections.Keys && forall s :: s in sections ==> sections[s].base == 0
    requires todo == Order(sections.Keys)
    ensures Placed(sections, sections, [], todo, 0)
  {
    hide Order, BaseOf;
    OrderMembers(sections.Keys);
  }

  lemma PlaceNext(was: map<string, SectionInfo>, now: map<string, SectionInfo>,
                  done: seq<string>, s: string, todo: seq<string>, base: u32)
    requires StandardSet() <= was.Keys && Placed(was, now, done, [s] + todo, base)
    ensures s in now && now[s] == was[s].(base := 0)
    ensures Placed(was, now[s := now[s].(base := base)], done + [s], todo, Wrap(base + was[s].offset))
  {
    hide Order, Wrap, BaseOf, TotalOf;
    var order := Order(was.Keys);
    assert done + [s] + todo == done + ([s] + todo);
    assert order[|done|] == s;
    assert s !in done by { assert forall i :: 0 <= i < |done| ==> order[i] == done[i]; }
    BaseAfter(OffsetMap(was), done, s, todo);
    WrapAdd(TotalOf(OffsetMap(was), done), was[s].offset);
  }

  lemma KeysKept(was: map<string, SectionInfo>, now: map<string, SectionInfo>,
                 done: seq<string>, todo: seq<string>, base: u32)
    requires StandardSet() <= was.Keys && Placed(was, now, done, todo, base)
    ensures now.Keys == was.Keys
  {
  }

  /** One iteration over the section map: a custom section is placed next, any other is passed over. */
  lemma CustomStep(was: map<string, SectionInfo>, now: map<string, SectionInfo>, done: seq<string>,
                   names: set<string>, s: string, base: u32)
    requires StandardSet() <= was.Keys && Placed(was, now, done, Sorted(CustomNames(names)), base)
    requires s in now && IsLeast(s, names)
    ensures
      if IsCustom(s) then
        now[s].base == 0 && s in was && now[s].offset == was[s].offset
        && Placed(was, now[s := now[s].(base := base)], done + [s], Sorted(CustomNames(names - {s})),
                  Wrap(base + was[s].offset))
      else
        Placed(was, now, done, Sorted(CustomNames(names - {s})), base)
  {
    hide GetSectionType, Sorted, Placed, CustomNames;
    SortedCustomStep(names, s);
    KeysKept(was, now, done, Sorted(CustomNames(names)), base);
    if IsCustom(s) {
      PlaceNext(was, now, done, s, Sorted(CustomNames(names - {s})), base);
    }
  }

  lemma AllPlaced(was: map<string, SectionInfo>, now: map<string, SectionInfo>, done: seq<string>, base: u32)
    requires StandardSet() <= was.Keys && Placed(was, now, done, Sorted(CustomNames({})), base)
    ensures now.Keys == was.Keys
    ensures forall s :: s in now ==> now[s] == was[s].(base := NewBase(was, s))
  {
  }

  lemma StandardTypes()
    ensures GetSectionType(".text") == SecText && GetSectionType(".data") == SecData
    ensures GetSectionType(".rodata") == SecRodata && GetSectionType(".bss") == SecBss
  {
    assert ".rodata"[..6][1] == 'r';
  }

  /** A directive on a labelled line of a text section is sized as an instruction nobody knows. */
  lemma UnknownSize(labels: seq<Label>)
    ensures InstructionSize(labels, Tokens(UNKNOWN, "", "", "")) == Done(4)
  {
  }

  class Assembler {
    var labels: seq<Label>
    var sections: map<string, SectionInfo>
    var current: string
    var pcText: u32

    /** The four standard sections exist, the current section exists, and every entry carries its own
        name and the type that its name determines. */
    ghost predicate Valid()
      reads this
    {
      StandardSet() <= sections.Keys && current in sections
      && forall s :: s in sections ==> sections[s].name == s && sections[s].kind == GetSectionType(s)
    }

    ghost predicate Fresh()
      reads this
    {
      Valid() && labels == [] && current == ".text" && pcText == 0 && sections.Keys == StandardSet()
      && forall s :: s in sections ==> sections[s].offset == 0 && sections[s].base == 0
    }

    constructor ()
      ensures Fresh()
    {
      labels, current, pcText := [], ".text", 0;
      sections := map[
        ".text" := SectionInfo(".text", SecText, 0, 0),
        ".data" := SectionInfo(".data", SecData, 0, 0),
        ".rodata" := SectionInfo(".rodata", SecRodata, 0, 0),
        ".bss" := SectionInfo(".bss", SecBss, 0, 0)];
      new;
      StandardTypes();
    }

    // ----- first pass -----

    /** The state that the first pass works on. */
    function State(): Counting
      reads this
    {
      Counting(labels, sections, current, pcText)
    }

    method SwitchSection(name: string)
      requires Valid()
      modifies this
      ensures Valid() && current == name && labels == old(labels) && pcText == old(pcText)
      ensures sections == WithSection(old(sections), name)
      ensures Unplaced(old(sections)) ==> Unplaced(sections)
    {
      current := name;
      if name !in sections {
        sections := sections[name := SectionInfo(name, GetSectionType(name), 0, 0)];
      }
    }

    /** `get_current_section().offset += n`. */
    method Reserve(n: int)
      requires Valid()
      modifies this`sections
      ensures Unplaced(old(sections)) ==> Unplaced(sections)
      ensures Valid()
      ensures sections == Grown(old(sections), current, n)
    {
      GrownUnplaced(sections, current, n);
      sections := Grown(sections, current, n);
    }

    /** Reserves the size of one instruction; returns false where the program exits. */
    method ProcessInstructionFirstPass(t: Tokens) returns (ok: bool)
      requires Valid()
      modifies this`sections, this`pcText
      ensures Unplaced(old(sections)) ==> Unplaced(sections)
      ensures Valid()
      ensures match InstructionSize(labels, t)
        case Done(n) =>
          ok && sections == Grown(old(sections), current, n)
          && pcText == if current == ".text" then Wrap(old(pcText) + n) else old(pcText)
        case _ => !ok && sections == old(sections) && pcText == old(pcText)
    {
      hide PseudoinstructionSize, Grown, Unplaced;
      var size := PseudoinstructionSize(labels, t);
      if !size.Done? {
        return false;
      }
      var n := if size.value > 0 then 4 * size.value else 4;
      Reserve(n);
      if current == ".text" {
        pcText := Wrap(pcText + n);
      }
      return true;
    }

    /** Records a label at the current offset; returns false on a duplicate, where the program exits. */
    method ProcessLabel(name: string) returns (ok: bool)
      requires Valid()
      modifies this`labels
      ensures Valid()
      ensures ok <==> FindLabel(old(labels), name) == None
      ensures labels == if ok then old(labels) + [Label(name, sections[current].offset, current)] else old(labels)
    {
      var i := 0;
      while i < |labels|
        invariant 0 <= i <= |labels|
        invariant FindLabel(labels, name) == FindLabel(labels[i..], name)
      {
        if labels[i].name == name {
          return false;
        }
        assert labels[i..][1..] == labels[i + 1..];
        i := i + 1;
      }
      labels := labels + [Label(name, sections[current].offset, current)];
      return true;
    }

    /** Reserves the size of a directive; returns false on a malformed string, where the program exits. */
    method ProcessDirective(d: Directive) returns (ok: bool)
      requires Valid()
      modifies this`sections
      ensures Unplaced(old(sections)) ==> Unplaced(sections)
      ensures Valid()
      ensures ok <==> DirectiveSize(d).Done?
      ensures ok ==>
        var n := DirectiveSize(d).value;
        sections == Grown(old(sections), current, n)
    {
      hide Grown, CountList, StringBytes, SpaceCount, Unplaced;
      match d {
      case Asciiz(arg) =>
        ok := ReserveString(arg, 1);
      case Ascii(arg) =>
        ok := ReserveString(arg, 0);
      case ByteList(arg) =>
        var count := CountOperands(arg);
        Reserve(count);
        ok := true;
      case HalfList(arg) =>
        var count := CountOperands(arg);
        Reserve(count * 2);
        ok := true;
      case WordList(arg) =>
        var count := CountOperands(arg);
        Reserve(count * 4);
        ok := true;
      case Space(arg) =>
        var size := SpaceCount(arg);
        Reserve(if size.Some? then size.value else 0);
        ok := true;
      case Other =>
        Reserve(0);
        ok := true;
      }
    }

    method ReserveString(arg: string, extra: nat) returns (ok: bool)
      requires Valid()
      modifies this`sections
      ensures Unplaced(old(sections)) ==> Unplaced(sections)
      ensures Valid()
      ensures ok <==> StringBytes(arg).Done?
      ensures ok ==>
        var n := |StringBytes(arg).value| + extra;
        sections == Grown(old(sections), current, n)
    {
      QuoteInRange(arg);
      var q := FindQuote(arg);
      if q == None {
        return false;
      }
      var r := ParseEscapedString(arg[q.value + 1..]);
      if !r.Done? {
        return false;
      }
      Reserve(|r.value| + extra);
      return true;
    }

    /** Label and body of one line; false where the program exits. */
    method ProcessItem(l: Line) returns (ok: bool)
      requires Valid() && l.Item?
      modifies this
      ensures Unplaced(old(sections)) ==> Unplaced(sections)
      ensures Valid()
      ensures match FirstItem(old(State()), l)
        case Done(c) => ok && State() == c
        case _ => !ok
    {
      hide Grown, GetSectionType, InstructionSize, DirectiveSize, FindLabel, Unplaced;
      ghost var c := State();
      GrownByNothing(sections, current);
      StandardTypes();
      if l.defines.Some? {
        var isNew := ProcessLabel(l.defines.value);
        if !isNew {
          return false;
        }
      }
      assert labels == LabelsWith(c, l);
      assert current == ".text" ==> sections[current].kind == SecText;
      var text := sections[current].kind == SecText;
      match l.body {
      case Nothing =>
        ok := true;
      case Code(t) =>
        if text {
          ok := ProcessInstructionFirstPass(t);
        } else {
          ok := true;
        }
      case Data(d) =>
        if text && l.defines.Some? {
          UnknownSize(labels);
          ok := ProcessInstructionFirstPass(Tokens(UNKNOWN, "", "", ""));
        } else {
          ok := ProcessDirective(d);
        }
      }
    }

    /** The first pass over a fresh assembler: it fails, or leaves behind, exactly what the fold says. */
    method FirstPass(lines: seq<Line>) returns (ok: bool)
      requires Fresh()
      modifies this
      ensures match FirstAt(lines, |lines|)
        case Done(c) => ok && State() == c
        case _ => !ok
      ensures Valid() && Unplaced(sections)
    {
      hide GetSectionType, FirstItem, FirstAt, WithSection;
      StandardTypes();
      assert State() == StartFirst();
      FirstStart(lines);
      var k := 0;
      while k < |lines|
        invariant 0 <= k <= |lines|
        invariant Valid() && Unplaced(sections)
        invariant FirstAt(lines, k) == Done(State())
      {
        var l := lines[k];
        var s := Entered(l);
        var ok := true;
        if s.Some? {
          SwitchSection(s.value);
        } else if l.Item? {
          ok := ProcessItem(l);
        }
        FirstNext(lines, k);
        if !ok {
          FirstFails(lines, k + 1);
          return false;
        }
        k := k + 1;
      }
      return true;
    }

    // ----- label adjustment -----

    /** Places one section at the running base. */
    method PlaceSection(name: string, currentBase: u32) returns (next: u32)
      requires Valid() && name in sections
      modifies this`sections
      ensures Valid()
      ensures sections == old(sections)[name := old(sections)[name].(base := currentBase)]
      ensures next == Wrap(currentBase + old(sections)[name].offset)
    {
      sections := sections[name := sections[name].(base := currentBase)];
      next := Wrap(currentBase + sections[name].offset);
    }

    /** `adjust_labels` on sections that have not been placed: every section gets its base address, and
        every label is relocated by the base of its section. */
    method AdjustLabels()
      requires Valid() && Unplaced(sections)
      modifies this`sections, this`labels
      ensures Valid() && sections.Keys == old(sections).Keys
      ensures forall s :: s in sections ==> sections[s] == old(sections)[s].(base := NewBase(old(sections), s))
      ensures |labels| == |old(labels)|
      ensures forall i :: 0 <= i < |labels| ==> labels[i] == Moved(sections, old(labels)[i])
    {
      hide NewBase, GetSectionType, Moved, Unplaced;
      PlaceAll();
      MoveLabels();
    }

    /** The relocation part of `adjust_labels`. */
    method MoveLabels()
      requires Valid()
      modifies this`labels
      ensures Valid() && |labels| == |old(labels)|
      ensures forall i :: 0 <= i < |labels| ==> labels[i] == Moved(sections, old(labels)[i])
    {
      hide GetSectionType, Wrap;
      var i := 0;
      while i < |labels|
        invariant 0 <= i <= |labels| == |old(labels)|
        invariant forall j :: i <= j < |labels| ==> labels[j] == old(labels)[j]
        invariant forall j :: 0 <= j < i ==> labels[j] == Moved(sections, old(labels)[j])
      {
        var l := labels[i];
        if l.section in sections {
          labels := labels[i := l.(addr := Wrap(l.addr + sections[l.section].base))];
        }
        i := i + 1;
      }
    }

    /** The placement part of `adjust_labels`. */
    method PlaceAll()
      requires Valid() && Unplaced(sections)
      modifies this`sections
      ensures Valid() && sections.Keys == old(sections).Keys
      ensures forall s :: s in sections ==> sections[s] == old(sections)[s].(base := NewBase(old(sections), s))
    {
      ghost var sections0 := sections;
      ghost var done;
      var base;
      base, done := PlaceStandard();
      PlaceCustom(sections0, done, base);
    }

    /** The standard sections, in their fixed order. */
    method PlaceStandard() returns (base: u32, ghost done: seq<string>)
      requires Valid() && Unplaced(sections)
      modifies this`sections
      ensures Valid()
      ensures Placed(old(sections), sections, done, Sorted(CustomNames(old(sections).Keys)), base)
    {
      hide GetSectionType, Sorted, Placed, Order, CustomNames;
      ghost var sections0 := sections;
      ghost var custom := Sorted(CustomNames(sections0.Keys));
      ghost var t3 := [".bss"] + custom;
      ghost var t2 := [".data"] + t3;
      ghost var t1 := [".rodata"] + t2;
      OrderNested(sections.Keys);
      StartPlacing(sections, [".text"] + t1);
      done := [];
      PlaceNext(sections0, sections, done, ".text", t1, 0);
      base := PlaceSection(".text", 0);
      done := done + [".text"];
      PlaceNext(sections0, sections, done, ".rodata", t2, base);
      base := PlaceSection(".rodata", base);
      done := done + [".rodata"];
      PlaceNext(sections0, sections, done, ".data", t3, base);
      base := PlaceSection(".data", base);
      done := done + [".data"];
      PlaceNext(sections0, sections, done, ".bss", custom, base);
      base := PlaceSection(".bss", base);
      done := done + [".bss"];
    }

    /** The custom sections, in the order in which the map iterates over its keys. */
    method PlaceCustom(ghost sections0: map<string, SectionInfo>, ghost done0: seq<string>, base0: u32)
      requires Valid() && StandardSet() <= sections0.Keys
      requires Placed(sections0, sections, done0, Sorted(CustomNames(sections0.Keys)), base0)
      modifies this`sections
      ensures Valid() && sections.Keys == sections0.Keys
      ensures forall s :: s in sections ==> sections[s] == sections0[s].(base := NewBase(sections0, s))
    {
      ghost var done := done0;
      var base := base0;
      var names := sections.Keys;
      hide Placed, Sorted, CustomNames, NewBase, GetSectionType, LexLE;
      KeysKept(sections0, sections, done, Sorted(CustomNames(sections0.Keys)), base);
      while names != {}
        invariant Valid() && names <= sections.Keys
        invariant Placed(sections0, sections, done, Sorted(CustomNames(names)), base)
        decreases names
      {
        LeastExists(names);
        var name :| name in names && forall n :: n in names ==> LexLE(name, n);
        CustomStep(sections0, sections, done, names, name, base);
        if sections[name].kind == SecCustom && sections[name].base == 0 {
          base := PlaceSection(name, base);
          done := done + [name];
        }
        names := names - {name};
      }
      AllPlaced(sections0, sections, done, base);
    }

    // ----- second pass -----

    /** The tables the second pass works from. */
    ghost function CurrentTables(): Tables
      reads this
    {
      Tables(labels, map s | s in sections :: sections[s].base, pcText)
    }

    /** `find_label`: a scan for the first label of that name. */
    method FindLabelAddress(name: string) returns (r: Option<u32>)
      ensures r == FindLabel(labels, name)
    {
      var i := 0;
      while i < |labels|
        invariant 0 <= i <= |labels|
        invariant FindLabel(labels, name) == FindLabel(labels[i..], name)
      {
        if labels[i].name == name {
          return Some(labels[i].addr);
        }
        assert labels[i..][1..] == labels[i + 1..];
        i := i + 1;
      }
      return None;
    }

    /** `expand_pseudoinstruction`: fills the caller's two line buffers and returns how many it used;
        fails where the program exits. */
    method ExpandPseudoinstruction(t: Tokens, pc: u32, lines: array<Tokens>) returns (r: Result<nat>)
      requires lines.Length == 2
      modifies lines
      ensures r.Done? ==> r.value <= 2 && Expand(labels, pc, t) == Done(lines[..r.value])
      ensures !r.Done? ==> Expand(labels, pc, t) == r.PropagateFailure()
    {
      hide ParseImm, FindLabel, PrintInt, Hi20, Lo12;
      match t.op {
      case NOP =>
        lines[0] := Tokens(ADDI, "x0", "x0", "0");
        assert lines[..1] == [lines[0]];
        return Done(1);
      case MV =>
        lines[0] := Tokens(ADDI, t.a1, t.a2, "0");
        assert lines[..1] == [lines[0]];
        return Done(1);
      case LI =>
        var imm := ParseImm(labels, t.a2);
        if !imm.Done? {
          return imm.PropagateFailure();
        }
        if FitsImm(imm.value) {
          lines[0] := Tokens(ADDI, t.a1, "x0", PrintInt(imm.value));
          assert lines[..1] == [lines[0]];
          return Done(1);
        }
        lines[0] := Tokens(LUI, t.a1, PrintInt(Hi20(imm.value)), "");
        lines[1] := Tokens(ADDI, t.a1, t.a1, PrintInt(Lo12(imm.value)));
        assert lines[..2] == [lines[0], lines[1]];
        return Done(2);
      case LA =>
        var addr := FindLabelAddress(t.a2);
        if addr == None {
          return Exit;
        }
        var offset := WrapSigned(addr.value - pc);
        lines[0] := Tokens(AUIPC, t.a1, PrintInt(Hi20(offset)), "");
        lines[1] := Tokens(ADDI, t.a1, t.a1, PrintInt(Lo12(offset)));
        assert lines[..2] == [lines[0], lines[1]];
        return Done(2);
      case CALL =>
        lines[0] := Tokens(JAL, "x1", t.a1, "");
        assert lines[..1] == [lines[0]];
        return Done(1);
      case RET =>
        lines[0] := Tokens(JALR, "x0", "x1", "0");
        assert lines[..1] == [lines[0]];
        return Done(1);
      case J =>
        lines[0] := Tokens(JAL, "x0", t.a1, "");
        assert lines[..1] == [lines[0]];
        return Done(1);
      case _ =>
        return Done(0);
      }
    }

    /** Encodes and writes the instructions of one source line, and returns the advanced `pc`. */
    method ProcessInstructionSecondPass(out: OutFile, pc: u32, t: Tokens) returns (r: Result<u32>)
      modifies out
      ensures match CodeBytes(labels, pc, t)
        case Done(b) => r == Done(Wrap(pc + |b|)) && out.Has(old(out.bytes), old(out.pos), b)
        case Exit => r == Exit
        case Diverge => r == Diverge
    {
      hide EncodeInstruction, EncodeAll, Expand, ClassOf, WriteAt, Wrap;
      if ClassOf(t.op).ClassPseudo? {
        var lines := new Tokens[2](_ => Tokens(UNKNOWN, "", "", ""));
        var count := ExpandPseudoinstruction(t, pc, lines);
        if !count.Done? {
          return count.PropagateFailure();
        }
        r := EncodeLines(out, pc, lines[..count.value]);
      } else {
        r := EncodeLines(out, pc, [t]);
      }
    }

    method EncodeLines(out: OutFile, pc0: u32, ts: seq<Tokens>) returns (r: Result<u32>)
      modifies out
      ensures match EncodeAll(labels, pc0, ts)
        case Done(b) => r == Done(Wrap(pc0 + |b|)) && out.Has(old(out.bytes), old(out.pos), b)
        case Exit => r == Exit
        case Diverge => r == Diverge
    {
      hide EncodeInstruction, WriteAt, Bytes, EncodeAll, Prepend;
      var pc := pc0;
      ghost var done: seq<byte> := [];
      PrependMore([], 0, EncodeAll(labels, pc0, ts));
      assert ts[0..] == ts;
      WriteNothing(out.bytes, out.pos);
      var i := 0;
      while i < |ts|
        invariant 0 <= i <= |ts| && pc == Wrap(pc0 + |done|)
        invariant EncodeAll(labels, pc0, ts) == Prepend(done, EncodeAll(labels, pc, ts[i..]))
        invariant out.Has(old(out.bytes), old(out.pos), done)
      {
        var w := EncodeInstruction(labels, pc, ts[i]);
        EncodeNext(labels, pc, ts[i..], done);
        assert ts[i..][1..] == ts[i + 1..];
        if !w.Done? {
          return w.PropagateFailure();
        }
        WriteTwice(old(out.bytes), old(out.pos), done, Bytes(w.value, 4));
        out.Write(Bytes(w.value, 4));
        WrapAdd(pc0 + |done|, 4);
        done := done + Bytes(w.value, 4);
        pc := Wrap(pc as int + 4);
        i := i + 1;
      }
      EncodeNone(labels, pc, ts[i..], done);
      return Done(pc);
    }

    /** Emits a list of numbers, one element per iteration. */
    method EmitList(out: OutFile, pc0: u32, width: nat, arg: string) returns (r: Result<u32>)
      modifies out
      ensures match ListBytes(width, labels, arg)
        case Done(b) => r == Done(Wrap(pc0 + |b|)) && out.Has(old(out.bytes), old(out.pos), b)
        case Exit => r == Exit
        case Diverge => r == Diverge
    {
      hide WriteAt, Bytes, ListBytes, Prepend, OperandAt, SkipSeparators;
      var pc := pc0;
      ghost var start: int := pc0;
      var rest := arg;
      ghost var done: seq<byte> := [];
      PrependMore([], 0, ListBytes(width, labels, arg));
      WriteNothing(out.bytes, out.pos);
      while rest != ""
        invariant pc == Wrap(pc0 + |done|)
        invariant ListBytes(width, labels, arg) == Prepend(done, ListBytes(width, labels, rest))
        invariant out.Has(old(out.bytes), old(out.pos), done)
        decreases |rest|
      {
        ListNext(width, labels, rest, done);
        if !Blank(rest[0]) && rest[0] != ',' {
          var n := OperandAt(width, labels, rest);
          if !n.Done? {
            return n.PropagateFailure();
          }
          var t := rest[n.value.used..];
          var next := t[SkipSeparators(t)..];
          if |next| == |rest| {
            return Diverge;
          }
          var b := Bytes(Wrap(n.value.value), width);
          WriteTwice(old(out.bytes), old(out.pos), done, b);
          out.Write(b);
          WrapAdd(start + |done|, |b|);
          done := done + b;
          pc := Wrap(pc + |b|);
          rest := next;
        } else {
          rest := rest[SkipSeparators(rest)..];
        }
      }
      ListEnd(width, labels, done);
      return Done(pc);
    }

    /** Emits the bytes of a data directive, and returns the advanced `pc`. */
    method ProcessDataDirective(out: OutFile, pc: u32, d: Directive) returns (r: Result<u32>)
      modifies out
      ensures match DirectiveBytes(labels, d)
        case Done(b) => r == Done(Wrap(pc + |b|)) && out.Has(old(out.bytes), old(out.pos), b)
        case Exit => r == Exit
        case Diverge => r == Diverge
    {
      hide WriteAt, StringBytes, ListBytes, SpaceCount;
      WriteNothing(out.bytes, out.pos);
      match d {
      case Asciiz(arg) =>
        var b := StringBytesOf(arg);
        if !b.Done? {
          return b.PropagateFailure();
        }
        WriteTwice(out.bytes, out.pos, b.value, [0]);
        out.Write(b.value);
        out.Write([0]);
        r := Done(Wrap(pc + (|b.value| + 1)));
      case Ascii(arg) =>
        var b := StringBytesOf(arg);
        if !b.Done? {
          return b.PropagateFailure();
        }
        out.Write(b.value);
        r := Done(Wrap(pc + |b.value|));
      case ByteList(arg) =>
        r := EmitList(out, pc, 1, arg);
      case HalfList(arg) =>
        r := EmitList(out, pc, 2, arg);
      case WordList(arg) =>
        r := EmitList(out, pc, 4, arg);
      case Space(arg) =>
        var size := SpaceCount(arg);
        if size.Some? {
          r := EmitZeros(out, pc, size.value);
        } else {
          r := Done(pc);
        }
      case Other =>
        r := Done(pc);
      }
    }

    method StringBytesOf(arg: string) returns (r: Result<seq<byte>>)
      ensures r == StringBytes(arg)
    {
      QuoteInRange(arg);
      var q := FindQuote(arg);
      if q == None {
        return Exit;
      }
      r := ParseEscapedString(arg[q.value + 1..]);
    }

    method EmitZeros(out: OutFile, pc0: u32, size: int) returns (r: Result<u32>)
      modifies out
      ensures var b := if size <= 0 then [] else Zeros(size);
        r == Done(Wrap(pc0 + |b|)) && out.Has(old(out.bytes), old(out.pos), b)
    {
      hide WriteAt;
      WriteNothing(out.bytes, out.pos);
      var pc := pc0;
      ghost var start: int := pc0;
      var i := 0;
      assert Zeros(0) == [];
      while i < size
        invariant 0 <= i && (size > 0 ==> i <= size) && (size <= 0 ==> i == 0)
        invariant pc == Wrap(pc0 + i) && out.Has(old(out.bytes), old(out.pos), Zeros(i))
      {
        WriteTwice(old(out.bytes), old(out.pos), Zeros(i), [0]);
        assert Zeros(i) + [0] == Zeros(i + 1);
        out.Write([0]);
        WrapAdd(start + i, 1);
        pc := Wrap(pc as int + 1);
        i := i + 1;
      }
      return Done(pc);
    }

    /** The second pass: emits the whole source into an empty file, line by line. */
    method SecondPass(lines: seq<Line>, out: OutFile) returns (r: Result<()>)
      requires Valid() && out.bytes == [] && out.pos == 0
      modifies out
      ensures match SecondAt(CurrentTables(), lines, |lines|)
        case Done(e) => r == Done(()) && out.bytes == e.file
        case Exit => r == Exit
        case Diverge => r == Diverge
    {
      hide GetSectionType, CodeBytes, DirectiveBytes, WriteAt;
      ghost var tb := CurrentTables();
      var name := ".text";
      var pc: u32 := 0;
      var dataBase := pcText;
      var k := 0;
      while k < |lines|
        invariant 0 <= k <= |lines|
        invariant SecondAt(tb, lines, k) == Done(Emitting(name, pc, out.pos, out.bytes))
      {
        var l := lines[k];
        match l {
        case Skip =>
        case Section(s) =>
          if s != "" {
            name := s;
            if s in sections {
              pc := sections[s].base;
              out.Seek(pc);
            }
          }
        case DotText =>
          name, pc := ".text", 0;
          out.Seek(0);
        case DotData =>
          name, pc := ".data", dataBase;
          out.Seek(dataBase);
        case DotRodata =>
          name := ".rodata";
          if name in sections {
            pc := sections[name].base;
            out.Seek(pc);
          }
        case DotBss =>
          name := ".bss";
          if name in sections {
            pc := sections[name].base;
            out.Seek(pc);
          }
        case Item(_, body) =>
          var step: Result<u32> := Done(pc);
          WriteNothing(out.bytes, out.pos);
          match body {
          case Nothing =>
          case Data(d) =>
            if name !in sections || sections[name].kind != SecText {
              step := ProcessDataDirective(out, pc, d);
            }
          case Code(t) =>
            if name !in sections || sections[name].kind == SecText {
              step := ProcessInstructionSecondPass(out, pc, t);
            }
          }
          if !step.Done? {
            SecondFails(tb, lines, k + 1);
            return step.PropagateFailure();
          }
          pc := step.value;
        }
        k := k + 1;
      }
      return Done(());
    }
  }

  /** A failing line makes the whole second pass fail in the same way. */
  lemma {:induction false} SecondFails(tb: Tables, lines: seq<Line>, k: nat)
    requires k <= |lines| && !SecondAt(tb, lines, k).Done?
    ensures SecondAt(tb, lines, |lines|) == SecondAt(tb, lines, k)
    decreases |lines| - k
  {
    hide SecondStep;
    if k < |lines| { SecondFails(tb, lines, k + 1); }
  }

  // ----- the whole assembler -----

  lemma StandardCover(lines: seq<Line>)
    ensures StandardSet() + EnteredBefore(lines, |lines|) == Names(lines)
  {
  }

  /** After the first pass, the base that `adjust_labels` computes is the base of the layout. */
  lemma NewBaseIsBaseAddr(lines: seq<Line>, sections: map<string, SectionInfo>, s: string)
    requires StandardSet() <= sections.Keys && sections.Keys == Names(lines)
    requires forall n :: n in sections ==> sections[n].offset == Wrap(OffsetAt(lines, |lines|, n))
    ensures NewBase(sections, s) == BaseAddr(lines, s)
  {
    hide Order, OffsetAt, Wrap, BaseOf, Names;
    OrderMembers(sections.Keys);
    var order := Order(sections.Keys);
    if s in order {
      BaseOfWrapped(Sizes(lines), OffsetMap(sections), order, s);
    }
  }

  /** Every recorded label belongs to a known section. */
  lemma {:induction false} LabelSectionsKnown(lines: seq<Line>, k: nat)
    requires k <= |lines|
    ensures forall i :: 0 <= i < |RelativeLabels(lines, k)| ==>
      RelativeLabels(lines, k)[i].section in StandardSet() + EnteredBefore(lines, k)
  {
    hide OffsetAt, SectionAt, Wrap;
    if k > 0 {
      LabelSectionsKnown(lines, k - 1);
      SectionKnownAt(lines, k - 1);
    }
  }

  /** The state after both passes of layout is exactly the tables of the source. */
  lemma TablesAreFinal(lines: seq<Line>, labels: seq<Label>, sections: map<string, SectionInfo>, current: string, pcText: u32,
                       labels': seq<Label>, sections': map<string, SectionInfo>)
    requires After(lines, |lines|, labels, sections, current, pcText) && StandardSet() <= sections.Keys
    requires sections'.Keys == sections.Keys
    requires forall s :: s in sections' ==> sections'[s] == sections[s].(base := NewBase(sections, s))
    requires |labels'| == |labels| && forall i :: 0 <= i < |labels| ==> labels'[i] == Moved(sections', labels[i])
    ensures Tables(labels', map s | s in sections' :: sections'[s].base, pcText) == TablesOf(lines)
  {
    hide OffsetAt, BaseAddr, NewBase, CodeOffset, Names, Wrap, GetSectionType, RelativeLabels, LabelsBefore;
    StandardCover(lines);
    forall s | s in sections' ensures sections'[s].base == BaseAddr(lines, s) {
      NewBaseIsBaseAddr(lines, sections, s);
    }
    LabelSectionsKnown(lines, |lines|);
    RelocationIsFinal(lines, |lines|);
    assert labels' == FinalLabels(lines);
  }

  lemma WellFormedIsCountable(lines: seq<Line>)
    requires WellFormed(lines)
    ensures PlainSource(lines) && Countable(lines)
  {
    hide Total, OffsetAt, WellFormedCode, Numeric, SectionAt;
    forall k | 0 <= k < |lines|
      ensures LineSize(lines[k], IsText(SectionAt(lines, k))).Done?
      ensures IsText(SectionAt(lines, k)) ==> PlainLine(lines[k])
    {
      LineAccepted(lines, k);
    }
  }

  lemma LineAccepted(lines: seq<Line>, k: nat)
    requires WellFormed(lines) && k < |lines|
    ensures LineSize(lines[k], IsText(SectionAt(lines, k))).Done?
    ensures IsText(SectionAt(lines, k)) ==> PlainLine(lines[k])
  {
    hide Total, OffsetAt, WellFormedDirective, DirectiveBytes, DirectiveSize, Numeric, GetSectionType,
         WellFormedCode;
    assert SizableLine(lines, k);
    var l := lines[k];
    if l.Item? && l.body.Data? {
      OtherIsEmpty();
      if WellFormedDirective(l.body.d) { DirectivesAgree([], l.body.d); }
    }
    if l.Item? && l.body.Code? && WellFormedCode(lines, l.body.t) {
      LiIsNumeric(lines, l.body.t);
    }
  }

  /** The tables that `adjust_labels` makes of the state of the first pass. */
  ghost function TablesFrom(c: Counting): Tables
    requires Known(c)
  {
    var placed := map s | s in c.sections :: c.sections[s].(base := NewBase(c.sections, s));
    Tables(seq(|c.labels|, i requires 0 <= i < |c.labels| => Moved(placed, c.labels[i])),
           map s | s in placed :: placed[s].base, c.pcText)
  }

  /** The file that the program writes for a source, well-formed or not, or how it fails. */
  ghost function Assembled(lines: seq<Line>): Result<seq<byte>>
  {
    var c :- FirstAt(lines, |lines|);
    var e :- SecondAt(TablesFrom(c), lines, |lines|);
    Done(e.file)
  }

  /** Every source without `li` of a negated name: both passes together work from the tables of the layout. */
  lemma PlainTables(lines: seq<Line>)
    requires PlainSource(lines)
    ensures FirstAt(lines, |lines|).Done? <==> Countable(lines)
    ensures FirstAt(lines, |lines|).Done? ==> TablesFrom(FirstAt(lines, |lines|).value) == TablesOf(lines)
  {
    hide PlainSource, FirstAt, After, CountableBefore, Countable, TablesOf, NewBase;
    FirstPassIsLayout(lines, |lines|);
    CountableAll(lines, |lines|);
    if FirstAt(lines, |lines|).Done? {
      var c := FirstAt(lines, |lines|).value;
      var placed := map s | s in c.sections :: c.sections[s].(base := NewBase(c.sections, s));
      var moved := TablesFrom(c).labels;
      assert forall i :: 0 <= i < |moved| ==> moved[i] == Moved(placed, c.labels[i]);
      TablesAreFinal(lines, c.labels, c.sections, c.current, c.pcText, moved, placed);
    }
  }

  /** For every well-formed source the program writes the image of the layout. */
  lemma AssembledImage(lines: seq<Line>)
    requires WellFormed(lines)
    ensures Assembled(lines) == Done(Image(lines))
  {
    hide WellFormed, PlainSource, Countable, Image, SecondAt, FirstAt, TablesFrom, TablesOf;
    WellFormedIsCountable(lines);
    PlainTables(lines);
    ImageComposition(lines);
  }

  /** The program's main path: first pass, label adjustment, second pass. */
  method Assemble(lines: seq<Line>) returns (r: Result<seq<byte>>)
    ensures r == Assembled(lines)
    ensures WellFormed(lines) ==> r == Done(Image(lines))
  {
    hide WellFormed, Image, SecondAt, FirstAt, NewBase;
    if WellFormed(lines) {
      AssembledImage(lines);
    }
    FirstNeverDiverges(lines, |lines|);
    var a := new Assembler();
    var ok := a.FirstPass(lines);
    if !ok {
      return Exit;
    }
    ghost var c := a.State();
    a.AdjustLabels();
    AdjustedTables(c, a.State());
    var out := new OutFile();
    var done := a.SecondPass(lines, out);
    if !done.Done? {
      return done.PropagateFailure();
    }
    return Done(out.bytes);
  }

  lemma AdjustedTables(c: Counting, d: Counting)
    requires Known(c) && d.sections.Keys == c.sections.Keys && d.pcText == c.pcText
    requires forall s :: s in d.sections ==> d.sections[s] == c.sections[s].(base := NewBase(c.sections, s))
    requires |d.labels| == |c.labels| && forall i :: 0 <= i < |d.labels| ==> d.labels[i] == Moved(d.sections, c.labels[i])
    ensures Tables(d.labels, map s | s in d.sections :: d.sections[s].base, d.pcText) == TablesFrom(c)
  {
    hide NewBase;
    var placed := map s | s in c.sections :: c.sections[s].(base := NewBase(c.sections, s));
    assert d.sections == placed;
    assert d.labels == TablesFrom(c).labels;
  }
}
