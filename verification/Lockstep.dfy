/** The second pass as a fold over the lines, and its agreement with the layout.

`SecondAt` recomputes its own position line by line, exactly as the program does: it restarts at a base
on every section directive and otherwise advances by the bytes it emits.
*/
module Lockstep {
  import opened Words
  import opened Codec
  import opened ByteMemory
  import opened Text
  import opened Source
  import opened Layout

  /** What the first pass and the label adjustment hand over to the second pass. */
  datatype Tables = Tables(labels: seq<Label>, bases: map<string, u32>, pcText: u32)

  /** The state of the second pass: section, `pc`, file position and file contents. */
  datatype Emitting = Emitting(section: string, pc: u32, pos: nat, file: seq<byte>)

  function Zeros(n: nat): (z: seq<byte>)
    ensures |z| == n
  {
    seq(n, _ => 0)
  }

  function Pad(file: seq<byte>, n: nat): (f: seq<byte>)
    ensures |f| >= n && |f| >= |file| && (|file| >= n ==> f == file)
  {
    if |file| < n then file + Zeros(n - |file|) else file
  }

  function Drop(s: seq<byte>, n: nat): seq<byte>
  {
    if n < |s| then s[n..] else []
  }

  /** `fwrite` at a position: overwrites, and fills a gap after the end with zeros. */
  function WriteAt(file: seq<byte>, pos: nat, data: seq<byte>): seq<byte>
  {
    if data == [] then file else Pad(file, pos)[..pos] + data + Drop(file, pos + |data|)
  }

  lemma DropAfter(head: seq<byte>, tail: seq<byte>, n: nat)
    ensures Drop(head + tail, |head| + n) == Drop(tail, n)
  {
  }

  lemma DropDrop(s: seq<byte>, m: nat, n: nat)
    ensures Drop(Drop(s, m), n) == Drop(s, m + n)
  {
  }

  /** Writing in two pieces is writing once. */
  lemma WriteTwice(file: seq<byte>, pos: nat, a: seq<byte>, b: seq<byte>)
    ensures WriteAt(WriteAt(file, pos, a), pos + |a|, b) == WriteAt(file, pos, a + b)
  {
    if a == [] {
      assert a + b == b;
    } else if b == [] {
      assert a + b == a;
    } else {
      WritePieces(file, pos, a, b);
    }
  }

  lemma WritePieces(file: seq<byte>, pos: nat, a: seq<byte>, b: seq<byte>)
    requires a != [] && b != []
    ensures WriteAt(WriteAt(file, pos, a), pos + |a|, b) == WriteAt(file, pos, a + b)
  {
    hide Pad, Drop;
    var base, tail := Pad(file, pos)[..pos], Drop(file, pos + |a|);
    DropDrop(file, pos + |a|, |b|);
    calc {
      WriteAt(WriteAt(file, pos, a), pos + |a|, b);
      WriteAt((base + a) + tail, |base + a|, b);
      { WriteAfter(base + a, tail, b); }
      (base + a) + b + Drop(tail, |b|);
      { assert (base + a) + b == base + (a + b); }
      base + (a + b) + Drop(file, pos + |a + b|);
      WriteAt(file, pos, a + b);
    }
  }

  lemma WriteAfter(head: seq<byte>, tail: seq<byte>, b: seq<byte>)
    requires b != []
    ensures WriteAt(head + tail, |head|, b) == head + b + Drop(tail, |b|)
  {
    hide Drop;
    DropAfter(head, tail, |b|);
  }

  function StartSecond(): Emitting
  {
    Emitting(".text", 0, 0, [])
  }

  /** Moving to the base of a section, where the first pass knows the section. */
  function MoveTo(tb: Tables, e: Emitting, name: string): Emitting
  {
    if name in tb.bases then Emitting(name, tb.bases[name], tb.bases[name], e.file) else e.(section := name)
  }

  /** The section type the second pass acts on; an unknown section counts as text for instructions only. */
  predicate InText(tb: Tables, section: string, body: Body)
  {
    if section in tb.bases then IsText(section) else body.Code?
  }

  function SecondStep(tb: Tables, e: Emitting, l: Line): Result<Emitting>
  {
    match l
    case Skip => Done(e)
    case Section(name) => Done(if name == "" then e else MoveTo(tb, e, name))
    case DotText => Done(Emitting(".text", 0, 0, e.file))
    case DotData => Done(Emitting(".data", tb.pcText, tb.pcText, e.file))
    case DotRodata => Done(MoveTo(tb, e, ".rodata"))
    case DotBss => Done(MoveTo(tb, e, ".bss"))
    case Item(_, body) =>
      var b :- LineBytes(tb.labels, e.pc, l, InText(tb, e.section, body));
      Done(Emitting(e.section, Wrap(e.pc + |b|), e.pos + |b|, WriteAt(e.file, e.pos, b)))
  }

  /** The state of the second pass before line `k`. */
  function SecondAt(tb: Tables, lines: seq<Line>, k: nat): Result<Emitting>
    requires k <= |lines|
  {
    if k == 0 then Done(StartSecond())
    else
      var e :- SecondAt(tb, lines, k - 1);
      SecondStep(tb, e, lines[k - 1])
  }

  /** The tables that the first pass and the label adjustment produce for a source. */
  ghost function TablesOf(lines: seq<Line>): Tables
  {
    Tables(FinalLabels(lines), map s | s in Names(lines) :: BaseAddr(lines, s), Wrap(CodeOffset(lines, |lines|)))
  }

  // ----- labels -----

  lemma {:induction false} FindAppend(a: seq<Label>, l: Label, name: string)
    ensures FindLabel(a + [l], name) ==
      if FindLabel(a, name).Some? then FindLabel(a, name) else if l.name == name then Some(l.addr) else None
  {
    if a == [] {
      assert a + [l] == [l];
    } else {
      assert (a + [l])[1..] == a[1..] + [l];
      FindAppend(a[1..], l, name);
    }
  }

  /** Looking up a label finds its defining line's address; a name not defined yet is not found. */
  lemma {:induction false} LookupBefore(lines: seq<Line>, k: nat, name: string)
    requires k <= |lines| && NoDuplicateLabels(lines)
    ensures forall j :: 0 <= j < k && Defines(lines[j], name) ==>
      FindLabel(LabelsBefore(lines, k), name) == Some(Wrap(PcAt(lines, j)))
    ensures (forall j :: 0 <= j < k ==> !Defines(lines[j], name)) ==> FindLabel(LabelsBefore(lines, k), name) == None
  {
    hide LabelsBefore, FindLabel, PcAt, Wrap, NoDuplicateLabels, Defines;
    forall j | 0 <= j < k && Defines(lines[j], name)
      ensures FindLabel(LabelsBefore(lines, k), name) == Some(Wrap(PcAt(lines, j)))
    {
      LookupAt(lines, k, j, name);
    }
    if forall j :: 0 <= j < k ==> !Defines(lines[j], name) {
      LookupMissing(lines, k, name);
    }
  }

  lemma {:induction false} LookupMissing(lines: seq<Line>, k: nat, name: string)
    requires k <= |lines| && forall j :: 0 <= j < k ==> !Defines(lines[j], name)
    ensures FindLabel(LabelsBefore(lines, k), name) == None
  {
    hide FindLabel, PcAt, Wrap, Defines;
    if k == 0 {
      EmptyLookup(name);
    } else {
      hide LabelsBefore;
      LookupMissing(lines, k - 1, name);
      LookupNext(lines, k, name);
    }
  }

  lemma {:induction false} LookupAt(lines: seq<Line>, k: nat, j: nat, name: string)
    requires j < k <= |lines| && Defines(lines[j], name) && NoDuplicateLabels(lines)
    ensures FindLabel(LabelsBefore(lines, k), name) == Some(Wrap(PcAt(lines, j)))
    decreases k
  {
    hide LabelsBefore, FindLabel, PcAt, Wrap;
    LookupNext(lines, k, name);
    if j == k - 1 {
      LookupMissing(lines, j, name);
    } else {
      LookupAt(lines, k - 1, j, name);
    }
  }

  /** One more line changes the lookup of a name only when the name was missing and the line defines it. */
  lemma LookupNext(lines: seq<Line>, k: nat, name: string)
    requires 0 < k <= |lines|
    ensures FindLabel(LabelsBefore(lines, k), name) ==
      if FindLabel(LabelsBefore(lines, k - 1), name).Some? then FindLabel(LabelsBefore(lines, k - 1), name)
      else if Defines(lines[k - 1], name) then Some(Wrap(PcAt(lines, k - 1))) else None
  {
    hide PcAt, SectionAt, Wrap, FindLabel;
    var l := lines[k - 1];
    var before := LabelsBefore(lines, k - 1);
    if l.Item? && l.defines.Some? {
      FindAppend(before, Label(l.defines.value, Wrap(PcAt(lines, k - 1)), SectionAt(lines, k - 1)), name);
    } else {
      assert LabelsBefore(lines, k) == before;
    }
  }

  lemma EmptyLookup(name: string)
    ensures FindLabel([], name) == None
  {
  }

  /** Every adjusted label address is the layout address of the line that defines it. */
  lemma LabelAddress(lines: seq<Line>, j: nat, name: string)
    requires j < |lines| && Defines(lines[j], name) && NoDuplicateLabels(lines)
    ensures FindLabel(FinalLabels(lines), name) == Some(Wrap(PcAt(lines, j)))
  {
    LookupBefore(lines, |lines|, name);
  }

  lemma ReadableParses(lines: seq<Line>, a: string)
    requires NoDuplicateLabels(lines) && Readable(lines, a)
    ensures ParseImm(FinalLabels(lines), a).Done?
  {
    hide Strtol, PcAt;
    if a == "" || HexPrefix(a) || Numeric(a) {
    } else {
      var j :| 0 <= j < |lines| && Defines(lines[j], a);
      LabelAddress(lines, j, a);
    }
  }

  // ----- emitted sizes -----

  lemma ZeroParses(labels: seq<Label>)
    ensures ParseImm(labels, "0") == Done(0)
  {
    DecimalRoundTrip(0, labels);
  }

  /** A well-formed instruction line is emitted without an error. */
  lemma CodeEmits(lines: seq<Line>, pc: u32, t: Tokens)
    requires NoDuplicateLabels(lines) && WellFormedCode(lines, t)
    ensures CodeBytes(FinalLabels(lines), pc, t).Done?
  {
    hide ParseImm, Numeric, Readable, EncodeR, EncodeI, EncodeS, EncodeB, EncodeU, EncodeJ, RegField, HasLabel,
         FinalLabels, CodeBytes;
    if ClassOf(t.op).ClassPseudo? {
      PseudoEmits(lines, pc, t);
    } else {
      if Readable(lines, t.a2) { ReadableParses(lines, t.a2); }
      if Readable(lines, t.a3) { ReadableParses(lines, t.a3); }
      PlainEmits(FinalLabels(lines), pc, t);
    }
  }

  lemma PlainEmits(labels: seq<Label>, pc: u32, t: Tokens)
    requires EncodeInstruction(labels, pc, t).Done? && !ClassOf(t.op).ClassPseudo?
    ensures CodeBytes(labels, pc, t).Done?
  {
    hide EncodeInstruction, ClassOf;
    SingleEncodes(labels, pc, t);
  }

  /** The instructions that pseudo-instructions expand to, when their operand can be read. */
  lemma ExpandedEncodes(labels: seq<Label>, pc: u32, t: Tokens)
    requires ReadableInstruction(labels, t)
    ensures EncodeInstruction(labels, pc, t).Done?
  {
    hide ParseImm, EncodeI, EncodeU, EncodeJ, RegField;
  }

  lemma PseudoEmits(lines: seq<Line>, pc: u32, t: Tokens)
    requires NoDuplicateLabels(lines) && WellFormedCode(lines, t) && ClassOf(t.op).ClassPseudo?
    ensures CodeBytes(FinalLabels(lines), pc, t).Done?
  {
    hide ParseImm, Numeric, Readable, HasLabel, CodeBytes, FinalLabels, Expand, EncodeInstruction, FindLabel;
    var labels := FinalLabels(lines);
    if t.op == LA { LabelFound(lines, t.a2); }
    if t.op == LI { NumericImm(labels, t.a2); }
    if t.op == CALL || t.op == J { ReadableParses(lines, t.a1); }
    ExpandedParses(labels, pc, t) by { PseudoOps(t.op); }
    var ts := Expand(labels, pc, t).value;
    ExpandedEncodes(labels, pc, ts[0]);
    if |ts| == 2 { ExpandedEncodes(labels, Wrap(pc + 4), ts[1]); }
    ExpansionEncodes(labels, pc, t);
  }

  lemma PseudoOps(op: Op)
    requires ClassOf(op).ClassPseudo?
    ensures op in {NOP, MV, LI, LA, CALL, RET, J}
  {
    hide ClassOf;
    MnemonicOfClass(op);
  }

  /** An expansion has one or two instructions, and their operands can be read. */
  predicate ReadableInstruction(labels: seq<Label>, t: Tokens)
  {
    if t.op == ADDI || t.op == JALR then ParseImm(labels, t.a3).Done?
    else (t.op == LUI || t.op == AUIPC || t.op == JAL) && ParseImm(labels, t.a2).Done?
  }

  lemma ExpandedParses(labels: seq<Label>, pc: u32, t: Tokens)
    requires t.op in {NOP, MV, LI, LA, CALL, RET, J}
    requires t.op == LI ==> ParseImm(labels, t.a2).Done?
    requires t.op == LA ==> FindLabel(labels, t.a2).Some?
    requires t.op == CALL || t.op == J ==> ParseImm(labels, t.a1).Done?
    ensures var r := Expand(labels, pc, t);
      r.Done? && 1 <= |r.value| <= 2 && forall i :: 0 <= i < |r.value| ==> ReadableInstruction(labels, r.value[i])
  {
    hide ParseImm, PrintInt, Hi20, Lo12, FindLabel, WrapSigned;
    match t.op
    case LI => LiParses(labels, pc, t);
    case LA => LaParses(labels, pc, t);
    case NOP => ZeroParses(labels);
    case MV => ZeroParses(labels);
    case RET => ZeroParses(labels);
    case CALL =>
    case J =>
  }

  lemma LaParses(labels: seq<Label>, pc: u32, t: Tokens)
    requires t.op == LA && FindLabel(labels, t.a2).Some?
    ensures var r := Expand(labels, pc, t);
      r.Done? && 1 <= |r.value| <= 2 && forall i :: 0 <= i < |r.value| ==> ReadableInstruction(labels, r.value[i])
  {
    hide ParseImm, PrintInt, Hi20, Lo12, FindLabel, WrapSigned;
    SplitParses(labels, WrapSigned(FindLabel(labels, t.a2).value - pc));
  }

  lemma LiParses(labels: seq<Label>, pc: u32, t: Tokens)
    requires t.op == LI && ParseImm(labels, t.a2).Done?
    ensures var r := Expand(labels, pc, t);
      r.Done? && 1 <= |r.value| <= 2 && forall i :: 0 <= i < |r.value| ==> ReadableInstruction(labels, r.value[i])
  {
    hide ParseImm, PrintInt, Hi20, Lo12, FindLabel, WrapSigned;
    SplitParses(labels, ParseImm(labels, t.a2).value);
  }

  /** `li` of a number takes one instruction for -2048 to 2047 and two for any other, in both passes. */
  lemma LiLength(labels: seq<Label>, pc: u32, t: Tokens)
    requires t.op == LI && Numeric(t.a2)
    ensures var v: int := NumericValue(t.a2);
      var small := -2048 <= v && v <= 2047;
      CodeCount(t) == (if small then 1 else 2)
      && Expand(labels, pc, t).Done? && |Expand(labels, pc, t).value| == (if small then 1 else 2)
  {
    hide NumericValue, Numeric, ParseImm, PrintInt, Hi20, Lo12;
    NumericImm(labels, t.a2);
  }

  /** The decimal texts of a value and of its two parts can be read. */
  lemma SplitParses(labels: seq<Label>, v: i32)
    ensures ParseImm(labels, PrintInt(v)) == Done(v)
    ensures ParseImm(labels, PrintInt(Hi20(v))) == Done(Hi20(v))
    ensures ParseImm(labels, PrintInt(Lo12(v))) == Done(Lo12(v))
  {
    DecimalRoundTrip(v, labels);
    DecimalRoundTrip(Hi20(v), labels);
    DecimalRoundTrip(Lo12(v), labels);
  }

  lemma LabelFound(lines: seq<Line>, name: string)
    requires NoDuplicateLabels(lines) && HasLabel(lines, name)
    ensures FindLabel(FinalLabels(lines), name).Some?
  {
    hide PcAt;
    var j :| 0 <= j < |lines| && Defines(lines[j], name);
    LabelAddress(lines, j, name);
  }

  lemma SingleEncodes(labels: seq<Label>, pc: u32, t: Tokens)
    requires EncodeInstruction(labels, pc, t).Done?
    ensures EncodeAll(labels, pc, [t]).Done?
    ensures EncodeAll(labels, pc, [t]).value == Bytes(EncodeInstruction(labels, pc, t).value, 4)
  {
    hide EncodeInstruction, Bytes;
    assert [t][1..] == [];
    var b := Bytes(EncodeInstruction(labels, pc, t).value, 4);
    assert EncodeAll(labels, Wrap(pc + 4), []) == Done([]);
    assert b + [] == b;
  }

  lemma PairEncodes(labels: seq<Label>, pc: u32, t: Tokens, u: Tokens)
    requires EncodeInstruction(labels, pc, t).Done? && EncodeInstruction(labels, Wrap(pc + 4), u).Done?
    ensures EncodeAll(labels, pc, [t, u]).Done?
    ensures EncodeAll(labels, pc, [t, u]).value
         == Bytes(EncodeInstruction(labels, pc, t).value, 4) + Bytes(EncodeInstruction(labels, Wrap(pc + 4), u).value, 4)
  {
    hide EncodeInstruction, Bytes, Wrap;
    SingleEncodes(labels, Wrap(pc + 4), u);
    assert [t, u][1..] == [u];
  }

  /** The expansion of a pseudo-instruction is encoded when each of its instructions is. */
  lemma ExpansionEncodes(labels: seq<Label>, pc: u32, t: Tokens)
    requires ClassOf(t.op).ClassPseudo? && Expand(labels, pc, t).Done?
    requires var ts := Expand(labels, pc, t).value;
      1 <= |ts| <= 2 && EncodeInstruction(labels, pc, ts[0]).Done?
      && (|ts| == 2 ==> EncodeInstruction(labels, Wrap(pc + 4), ts[1]).Done?)
    ensures CodeBytes(labels, pc, t) == EncodeAll(labels, pc, Expand(labels, pc, t).value)
    ensures CodeBytes(labels, pc, t).Done?
  {
    hide EncodeInstruction, Expand, EncodeAll;
    var ts := Expand(labels, pc, t).value;
    if |ts| == 1 {
      assert ts == [ts[0]];
      SingleEncodes(labels, pc, ts[0]);
    } else {
      assert ts == [ts[0], ts[1]];
      PairEncodes(labels, pc, ts[0], ts[1]);
    }
  }
}
