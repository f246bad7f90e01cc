/** Compiler correctness: stepping the processor over the emitted image performs the source program. */
module Simulation {
  import opened Words
  import opened Codec
  import opened ByteMemory
  import opened Cpu
  import opened Text
  import opened Numerals
  import opened Source
  import opened Layout
  import opened Lockstep
  import opened ImageProof
  import opened Semantics
  import opened StepProof

  // ----- operands as the second pass reads them -----

  lemma OperandParses(lines: seq<Line>, a: string)
    requires NoDuplicateLabels(lines) && Readable(lines, a)
    ensures ParseImm(FinalLabels(lines), a) == Done(WrapSigned(Denotes(lines, a)))
  {
    hide Strtol, PcAt, FindLabel, Numeric, HexPrefix;
    HexIsNumeric(a);
    if a == "" {
    } else if Numeric(a) {
      NumericImm(FinalLabels(lines), a);
    } else {
      LabelParses(lines, a);
    }
  }

  lemma HexIsNumeric(a: string)
    ensures HexPrefix(a) ==> Numeric(a)
  {
  }

  lemma LabelParses(lines: seq<Line>, a: string)
    requires NoDuplicateLabels(lines) && HasLabel(lines, a)
    ensures FindLabel(FinalLabels(lines), a) == Some(Wrap(LabelTarget(lines, a)))
  {
    hide PcAt, FindLabel;
    LabelAddress(lines, LineOf(lines, a), a);
  }

  lemma RegFieldIsReg(a: string)
    requires ValidReg(a)
    ensures RegField(a) == RegOf(a) < 32
  {
    hide RegNum;
  }

  /** The two register names that pseudo-instructions introduce. */
  lemma FixedRegisters()
    ensures RegNum("x0") == 0 && RegNum("x1") == 1
  {
    hide RegNum;
    XNames();
  }

  /** The displacement computed in wrapping arithmetic is the true distance whenever that fits. */
  lemma DisplacementExact(target: int, pc: int)
    requires 0 <= pc < 0x1_0000_0000 && -0x10_0000 <= target - pc < 0x10_0000
    ensures Displacement(WrapSigned(target), pc) == target - pc
  {
  }

  lemma SameWord(a: int, b: int)
    requires Wrap(a) == Wrap(b)
    ensures a == b + (a - b) / 0x1_0000_0000 * 0x1_0000_0000
  {
  }

  // ----- the program in memory -----

  function TextSize(lines: seq<Line>): int
  {
    OffsetAt(lines, |lines|, ".text")
  }

  /** The text of the image stands in memory at a word-aligned load address. */
  ghost predicate Loaded(lines: seq<Line>, load: u32, mem: Mem)
  {
    var n := TextSize(lines);
    load % 4 == 0 && 0 <= n <= |Image(lines)| && load + n <= |mem| && mem[load..load + n] == Image(lines)[..n]
  }

  /** The machine is about to execute line `k`. */
  ghost predicate AtLine(lines: seq<Line>, load: u32, k: nat, m: Machine)
  {
    Runnable(lines, k) && m.running && m.pc == load + PcAt(lines, k)
  }

  function TokensAt(lines: seq<Line>, k: nat): Tokens
    requires k < |lines| && lines[k].Item? && lines[k].body.Code?
  {
    lines[k].body.t
  }

  /** The code of a runnable line stands in memory at its address. */
  lemma LineInMemory(lines: seq<Line>, load: u32, k: nat, mem: Mem)
    requires WellFormed(lines) && Runnable(lines, k) && Loaded(lines, load, mem)
    ensures var a, b := load + PcAt(lines, k), BytesAt(lines, k);
      0 <= PcAt(lines, k) && a % 4 == 0 && a + |b| <= |mem| && mem[a..a + |b|] == b
    ensures CodeBytes(FinalLabels(lines), Wrap(PcAt(lines, k)), TokensAt(lines, k)) == Done(BytesAt(lines, k))
    ensures |BytesAt(lines, k)| == 4 * CodeCount(TokensAt(lines, k))
  {
    hide Sizable, Ordered, PcAt, Image, FinalLabels, OffsetAt, InRangeCode, CodeBytes, CodeCount, BaseAddr;
    SizableAgrees(lines);
    StandardBases(lines);
    LineInterval(lines, k);
    ImageSlice(lines, k);
    TextAligned(lines, k);
    LineEmits(lines, k);
    TextLineSize(lines, k);
    TextTypeOfText();
    SliceOfPrefix(mem, Image(lines), load, TextSize(lines), PcAt(lines, k), |BytesAt(lines, k)|);
  }

  lemma SliceOfPrefix(mem: seq<byte>, image: seq<byte>, load: nat, n: nat, o: nat, m: nat)
    requires load + n <= |mem| && n <= |image| && mem[load..load + n] == image[..n] && o + m <= n
    ensures mem[load + o..load + o + m] == image[o..o + m]
  {
    SliceOfSlice(mem, load, n, o, m);
    SliceOfSlice(image, 0, n, o, m);
    assert image[0..n] == image[..n];
  }

  lemma FetchesWord(m: Machine, w: u32)
    requires m.running && m.pc % 4 == 0 && m.pc + 4 <= |m.mem| && m.mem[m.pc..m.pc + 4] == Bytes(w, 4)
    ensures Fetches(m, w)
  {
    hide Bytes, LE;
    WordRoundTrip(w);
  }

  /** A line that is a single instruction: the processor fetches exactly its encoding. */
  lemma FetchesSingle(lines: seq<Line>, load: u32, k: nat, m: Machine, t: Tokens)
    requires WellFormed(lines) && AtLine(lines, load, k, m) && Loaded(lines, load, m.mem)
    requires var pc := Wrap(PcAt(lines, k));
      CodeBytes(FinalLabels(lines), pc, TokensAt(lines, k)) == EncodeAll(FinalLabels(lines), pc, [t])
      && EncodeInstruction(FinalLabels(lines), pc, t).Done?
    ensures Fetches(m, EncodeInstruction(FinalLabels(lines), Wrap(PcAt(lines, k)), t).value)
  {
    hide Sizable, Ordered, PcAt, FinalLabels, EncodeAll, EncodeInstruction, CodeBytes, BytesAt, Loaded, InRangeCode,
         Bytes, Fetches;
    LineInMemory(lines, load, k, m.mem);
    var w := EncodeInstruction(FinalLabels(lines), Wrap(PcAt(lines, k)), t).value;
    SingleEncodes(FinalLabels(lines), Wrap(PcAt(lines, k)), t);
    FetchesWord(m, w);
  }

  /** A line of two instructions: the first is fetched now. */
  lemma FetchesFirst(lines: seq<Line>, load: u32, k: nat, m: Machine, t: Tokens, u: Tokens)
    requires WellFormed(lines) && AtLine(lines, load, k, m) && Loaded(lines, load, m.mem)
    requires IsPair(lines, k, t, u)
    ensures Fetches(m, EncodeInstruction(FinalLabels(lines), Wrap(PcAt(lines, k)), t).value)
    ensures m.pc + 8 < 0x1_0000_0000
  {
    hide Sizable, Ordered, PcAt, FinalLabels, EncodeAll, EncodeInstruction, CodeBytes, BytesAt, Loaded, InRangeCode,
         Bytes, Fetches;
    LineInMemory(lines, load, k, m.mem);
    var pc, a := Wrap(PcAt(lines, k)), load + PcAt(lines, k);
    PairEncodes(FinalLabels(lines), pc, t, u);
    SliceOfSlice(m.mem, a, 8, 0, 4);
    FetchesWord(m, EncodeInstruction(FinalLabels(lines), pc, t).value);
  }

  /** ... and the second four bytes later. */
  lemma FetchesSecond(lines: seq<Line>, load: u32, k: nat, m: Machine, m': Machine, t: Tokens, u: Tokens)
    requires WellFormed(lines) && AtLine(lines, load, k, m) && Loaded(lines, load, m.mem)
    requires IsPair(lines, k, t, u)
    requires m'.running && m'.mem == m.mem && m'.pc == m.pc + 4
    ensures Fetches(m', EncodeInstruction(FinalLabels(lines), Wrap(Wrap(PcAt(lines, k)) + 4), u).value)
  {
    hide Sizable, Ordered, PcAt, FinalLabels, EncodeAll, EncodeInstruction, CodeBytes, BytesAt, Loaded, InRangeCode,
         Bytes, Fetches;
    LineInMemory(lines, load, k, m.mem);
    var pc, a := Wrap(PcAt(lines, k)), load + PcAt(lines, k);
    PairEncodes(FinalLabels(lines), pc, t, u);
    SliceOfSlice(m.mem, a, 8, 4, 4);
    FetchesWord(m', EncodeInstruction(FinalLabels(lines), Wrap(pc + 4), u).value);
  }

  /** Line `k` is emitted as the two instructions `t` and `u`. */
  ghost predicate IsPair(lines: seq<Line>, k: nat, t: Tokens, u: Tokens)
    requires Runnable(lines, k)
  {
    var pc := Wrap(PcAt(lines, k));
    CodeBytes(FinalLabels(lines), pc, TokensAt(lines, k)) == EncodeAll(FinalLabels(lines), pc, [t, u])
    && EncodeInstruction(FinalLabels(lines), pc, t).Done?
    && EncodeInstruction(FinalLabels(lines), Wrap(pc + 4), u).Done?
  }
}
