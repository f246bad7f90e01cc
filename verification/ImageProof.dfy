/** Two-pass lockstep, section layout and image composition for well-formed sources. */
module ImageProof {
  import opened Words
  import opened Codec
  import opened Text
  import opened Directives
  import opened Source
  import opened Layout
  import opened Lockstep

  // ----- sizes -----

  /** On every line the second pass emits exactly as many bytes as the first pass reserved. */
  lemma LineEmits(lines: seq<Line>, k: nat)
    requires Sizable(lines) && k < |lines|
    ensures EmitAt(lines, k).Done? && |BytesAt(lines, k)| == SizeAt(lines, k)
  {
    hide CodeBytes, ParseImm, DirectiveBytes, DirectiveSize, PcAt, FinalLabels, WellFormedDirective, WellFormedCode,
         CodeCount, SectionAt, Total;
    var l, pc := lines[k], Wrap(PcAt(lines, k));
    assert SizableLine(lines, k);
    var text := IsText(SectionAt(lines, k));
    if l.Item? && l.body.Code? && text {
      CodeEmits(lines, pc, l.body.t);
      LiIsNumeric(lines, l.body.t);
      CodeSizesExact(FinalLabels(lines), pc, l.body.t);
    } else if l.Item? && l.body.Data? {
      if text {
        OtherIsEmpty();
      } else {
        DirectivesAgree(FinalLabels(lines), l.body.d);
      }
    }
  }

  /** The second pass emits for line `k` as many bytes as the first pass reserves. */
  ghost predicate SizedAlike(lines: seq<Line>, k: nat)
    requires k < |lines|
  {
    EmitAt(lines, k).Done? && |BytesAt(lines, k)| == SizeAt(lines, k)
  }

  ghost predicate AllSized(lines: seq<Line>)
  {
    forall k :: 0 <= k < |lines| ==> SizedAlike(lines, k)
  }

  lemma LineSized(lines: seq<Line>, k: nat)
    requires AllSized(lines) && k < |lines|
    ensures SizedAlike(lines, k)
  {
    hide SizedAlike;
  }

  /** No address wraps around. */
  ghost predicate Fits(lines: seq<Line>)
  {
    Total(lines) < 0x1_0000_0000 && forall s :: s in Names(lines) ==> OffsetAt(lines, |lines|, s) < 0x1_0000_0000
  }

  /** The sources whose lines both passes size alike. */
  ghost predicate SizesAgree(lines: seq<Line>)
  {
    AllSized(lines) && Fits(lines)
  }

  lemma LiIsNumeric(lines: seq<Line>, t: Tokens)
    requires WellFormedCode(lines, t)
    ensures t.op == LI ==> Numeric(t.a2)
  {
  }

  lemma OtherIsEmpty()
    ensures DirectiveSize(Other) == Done(0)
  {
  }

  lemma {:induction false} OffsetsGrow(lines: seq<Line>, k: nat, k': nat, s: string)
    requires AllSized(lines) && k <= k' <= |lines|
    ensures 0 <= OffsetAt(lines, k, s) <= OffsetAt(lines, k', s)
    decreases k'
  {
    hide SizeAt, EmitAt, BytesAt, SectionAt;
    if k' > 0 {
      assert SizedAlike(lines, k' - 1);
      if k < k' {
        OffsetsGrow(lines, k, k' - 1, s);
      } else {
        OffsetsGrow(lines, k - 1, k - 1, s);
      }
    }
  }

  // ----- bases -----

  predicate Sized(sizes: map<string, int>, order: seq<string>)
  {
    forall n :: n in order ==> n in sizes && sizes[n] >= 0
  }

  lemma {:induction false} BaseBounds(sizes: map<string, int>, order: seq<string>, s: string)
    requires Sized(sizes, order) && s in order
    ensures 0 <= BaseOf(sizes, order, s) && BaseOf(sizes, order, s) + sizes[s] <= TotalOf(sizes, order)
  {
    TotalNonNegative(sizes, order[1..]);
    if order[0] != s { BaseBounds(sizes, order[1..], s); }
  }

  lemma {:induction false} TotalNonNegative(sizes: map<string, int>, order: seq<string>)
    requires Sized(sizes, order)
    ensures TotalOf(sizes, order) >= 0
  {
    if order != [] { TotalNonNegative(sizes, order[1..]); }
  }

  lemma {:induction false} BasesDisjoint(sizes: map<string, int>, order: seq<string>, s: string, t: string)
    requires Sized(sizes, order) && s in order && t in order && s != t
    ensures BaseOf(sizes, order, s) + sizes[s] <= BaseOf(sizes, order, t)
         || BaseOf(sizes, order, t) + sizes[t] <= BaseOf(sizes, order, s)
  {
    if order[0] == s {
      BaseBounds(sizes, order[1..], t);
    } else if order[0] == t {
      BaseBounds(sizes, order[1..], s);
    } else {
      BasesDisjoint(sizes, order[1..], s, t);
    }
  }

  /** Every position below the total lies in some section. */
  lemma {:induction false} BasesCover(sizes: map<string, int>, order: seq<string>, p: int) returns (s: string)
    requires Sized(sizes, order) && Distinct(order) && 0 <= p < TotalOf(sizes, order)
    ensures s in order && BaseOf(sizes, order, s) <= p < BaseOf(sizes, order, s) + sizes[s]
  {
    if p < sizes[order[0]] {
      s := order[0];
    } else {
      s := BasesCover(sizes, order[1..], p - sizes[order[0]]);
    }
  }

  ghost function OrderOf(lines: seq<Line>): seq<string>
  {
    Order(Names(lines))
  }

  lemma OrderSized(lines: seq<Line>)
    requires AllSized(lines)
    ensures Sized(Sizes(lines), OrderOf(lines)) && Distinct(OrderOf(lines))
    ensures forall s :: s in OrderOf(lines) ==> s in Sizes(lines) && Sizes(lines)[s] == OffsetAt(lines, |lines|, s)
  {
    hide AllSized, OffsetAt;
    OrderMembers(Names(lines));
    forall s | s in OrderOf(lines) ensures s in Sizes(lines) && OffsetAt(lines, |lines|, s) >= 0 {
      OffsetsGrow(lines, |lines|, |lines|, s);
    }
  }

  /** The base of a placed section, without wrap-around. */
  lemma BaseExact(lines: seq<Line>, s: string)
    requires SizesAgree(lines) && s in OrderOf(lines)
    ensures s in Sizes(lines) && (forall n :: n in OrderOf(lines) ==> n in Sizes(lines))
    ensures BaseAddr(lines, s) == BaseOf(Sizes(lines), OrderOf(lines), s)
    ensures BaseAddr(lines, s) + OffsetAt(lines, |lines|, s) <= Total(lines) < 0x1_0000_0000
  {
    hide AllSized, OffsetAt, Names, BaseOf, TotalOf;
    OrderSized(lines);
    BaseBounds(Sizes(lines), OrderOf(lines), s);
  }

  lemma {:induction false} AllEntered(lines: seq<Line>, k: nat)
    requires k <= |lines|
    ensures forall j :: 0 <= j < k && Entered(lines[j]).Some? ==> Entered(lines[j]).value in EnteredBefore(lines, k)
  {
    if k > 0 { AllEntered(lines, k - 1); }
  }

  lemma {:induction false} SectionInNames(lines: seq<Line>, k: nat)
    requires k <= |lines|
    ensures SectionAt(lines, k) in Names(lines)
  {
    AllEntered(lines, |lines|);
    if k > 0 { SectionInNames(lines, k - 1); }
  }

  lemma {:induction false} NamesInOrder(lines: seq<Line>, k: nat, s: string)
    requires Sizable(lines) && k <= |lines| && s in StandardSet() + EnteredBefore(lines, k)
    ensures s in StandardSet() || IsCustom(s)
  {
    hide Total, OffsetAt, GetSectionType;
    if k > 0 {
      assert SizableLine(lines, k - 1);
      if s in StandardSet() + EnteredBefore(lines, k - 1) { NamesInOrder(lines, k - 1, s); }
    }
  }

  /** A sizable source is never in a dotted subsection: every section in force is placed. */
  lemma SectionPlaced(lines: seq<Line>, k: nat)
    requires Sizable(lines) && k <= |lines|
    ensures SectionAt(lines, k) in OrderOf(lines)
  {
    hide Sizable, IsCustom, SectionAt;
    SectionInNames(lines, k);
    NamesInOrder(lines, |lines|, SectionAt(lines, k));
    OrderMembers(Names(lines));
  }

  /** Sizable sources are sized alike, and no address of theirs wraps around. */
  lemma SizableAgrees(lines: seq<Line>)
    requires Sizable(lines)
    ensures SizesAgree(lines)
  {
    hide OffsetAt, EmitAt, SizeAt, BytesAt, SizableLine, Names;
    forall k | 0 <= k < |lines| ensures SizedAlike(lines, k) { LineEmits(lines, k); }
    OrderSized(lines);
    forall s | s in Names(lines) ensures OffsetAt(lines, |lines|, s) < 0x1_0000_0000 {
      NameFits(lines, s);
    }
  }

  lemma NameFits(lines: seq<Line>, s: string)
    requires Sizable(lines) && AllSized(lines) && s in Names(lines)
    ensures OffsetAt(lines, |lines|, s) < 0x1_0000_0000
  {
    hide OffsetAt, AllSized, SizableLine, BaseOf, IsCustom;
    NamesInOrder(lines, |lines|, s);
    OrderMembers(Names(lines));
    OrderSized(lines);
    BaseBounds(Sizes(lines), OrderOf(lines), s);
  }

  // ----- the interval of a line -----

  /** Line `k` lies inside its section, and its section inside the image. */
  lemma LineInterval(lines: seq<Line>, k: nat)
    requires Sizable(lines) && k < |lines|
    ensures var s := SectionAt(lines, k);
      BaseAddr(lines, s) <= PcAt(lines, k)
      && PcAt(lines, k) + |BytesAt(lines, k)| <= BaseAddr(lines, s) + OffsetAt(lines, |lines|, s) <= Total(lines)
  {
    hide Sizable, BaseAddr, Total, BytesAt, SizeAt;
    SizableAgrees(lines);
    SectionPlaced(lines, k);
    var s := SectionAt(lines, k);
    BaseExact(lines, s);
    LineEmits(lines, k);
    OffsetsGrow(lines, k, k, s);
    OffsetsGrow(lines, k + 1, |lines|, s);
  }

  /** No byte is written twice: the intervals of two lines never overlap. */
  lemma LinesDisjoint(lines: seq<Line>, j: nat, k: nat)
    requires Sizable(lines) && j < k < |lines|
    ensures PcAt(lines, j) + |BytesAt(lines, j)| <= PcAt(lines, k)
         || PcAt(lines, k) + |BytesAt(lines, k)| <= PcAt(lines, j)
  {
    hide Sizable, BaseAddr, Total, BytesAt, SizeAt, Sizes, OrderOf, BaseOf, OffsetAt;
    SizableAgrees(lines);
    var s, t := SectionAt(lines, j), SectionAt(lines, k);
    if s == t {
      LineEmits(lines, j);
      assert OffsetAt(lines, j + 1, s) == OffsetAt(lines, j, s) + SizeAt(lines, j) by { OffsetGrows(lines, j, s); }
      OffsetsGrow(lines, j + 1, k, s);
    } else {
      LineInterval(lines, j);
      LineInterval(lines, k);
      SectionsDisjoint(lines, s, t) by {
        SectionPlaced(lines, j);
        SectionPlaced(lines, k);
      }
    }
  }

  lemma OffsetGrows(lines: seq<Line>, k: nat, x: string)
    requires k < |lines|
    ensures OffsetAt(lines, k + 1, x) == OffsetAt(lines, k, x) + if x == SectionAt(lines, k) then SizeAt(lines, k) else 0
  {
  }

  /** Two placed sections occupy disjoint intervals. */
  lemma SectionsDisjoint(lines: seq<Line>, s: string, t: string)
    requires SizesAgree(lines) && s in OrderOf(lines) && t in OrderOf(lines) && s != t
    ensures BaseAddr(lines, s) + OffsetAt(lines, |lines|, s) <= BaseAddr(lines, t)
         || BaseAddr(lines, t) + OffsetAt(lines, |lines|, t) <= BaseAddr(lines, s)
  {
    hide AllSized, Fits, BaseAddr, Total, OffsetAt, OrderOf;
    OrderSized(lines);
    BaseExact(lines, s);
    BaseExact(lines, t);
    BasesDisjoint(Sizes(lines), OrderOf(lines), s, t);
  }

  /** Every position of the image belongs to some line. */
  lemma LinesCover(lines: seq<Line>, p: int) returns (k: nat)
    requires SizesAgree(lines) && 0 <= p < Total(lines)
    ensures k < |lines| && PcAt(lines, k) <= p < PcAt(lines, k) + |BytesAt(lines, k)|
  {
    hide Fits, BytesAt, SizeAt;
    OrderSized(lines);
    var s := BasesCover(Sizes(lines), OrderOf(lines), p);
    BaseExact(lines, s);
    k := OffsetCover(lines, |lines|, s, p - BaseAddr(lines, s));
    assert SizedAlike(lines, k);
  }

  lemma {:induction false} OffsetCover(lines: seq<Line>, n: nat, s: string, p: int) returns (k: nat)
    requires n <= |lines| && 0 <= p < OffsetAt(lines, n, s)
    ensures k < n && SectionAt(lines, k) == s
    ensures OffsetAt(lines, k, s) <= p < OffsetAt(lines, k, s) + SizeAt(lines, k)
  {
    hide SizeAt;
    if p < OffsetAt(lines, n - 1, s) {
      k := OffsetCover(lines, n - 1, s, p);
    } else {
      k := n - 1;
    }
  }

  // ----- the image -----

  lemma {:induction false} BodyLength(lines: seq<Line>, k: nat, s: string)
    requires AllSized(lines) && k <= |lines|
    ensures |SectionBody(lines, k, s)| == OffsetAt(lines, k, s)
  {
    hide BytesAt, SizeAt;
    if k > 0 {
      BodyLength(lines, k - 1, s);
      assert SizedAlike(lines, k - 1);
    }
  }

  /** The bytes of line `j` stand in its section body at its offset. */
  lemma {:induction false} BodySlice(lines: seq<Line>, j: nat, k: nat)
    requires AllSized(lines) && j < k <= |lines|
    ensures var s, b := SectionAt(lines, j), BytesAt(lines, j);
      0 <= OffsetAt(lines, j, s) && OffsetAt(lines, j, s) + |b| <= |SectionBody(lines, k, s)|
      && SectionBody(lines, k, s)[OffsetAt(lines, j, s)..OffsetAt(lines, j, s) + |b|] == b
  {
    hide AllSized, BytesAt, OffsetAt;
    var s := SectionAt(lines, j);
    BodyLength(lines, j, s);
    OffsetsGrow(lines, j, j, s);
    if j < k - 1 {
      BodySlice(lines, j, k - 1);
    }
  }

  /** The body of each placed section stands in the concatenation at its base. */
  lemma {:induction false} ConcatSlice(lines: seq<Line>, order: seq<string>, s: string)
    requires AllSized(lines) && s in order && forall n :: n in order ==> n in Sizes(lines)
    ensures var b := BaseOf(Sizes(lines), order, s);
      0 <= b && 0 <= OffsetAt(lines, |lines|, s) && b + OffsetAt(lines, |lines|, s) <= |Concat(lines, order)|
      && Concat(lines, order)[b..b + OffsetAt(lines, |lines|, s)] == SectionBody(lines, |lines|, s)
  {
    hide AllSized, OffsetAt, SectionBody, Sizes, Concat, BaseOf;
    var first, rest := order[0], order[1..];
    FirstPlaced(lines, order, s);
    BodyLength(lines, |lines|, first);
    OffsetsGrow(lines, |lines|, |lines|, s);
    OffsetsGrow(lines, |lines|, |lines|, first);
    var body, others := SectionBody(lines, |lines|, first), Concat(lines, rest);
    if first == s {
      SliceOfHead(body, others);
    } else {
      ConcatSlice(lines, rest, s);
      SliceOfTail(body, others, BaseOf(Sizes(lines), rest, s), OffsetAt(lines, |lines|, s));
    }
  }

  lemma FirstPlaced(lines: seq<Line>, order: seq<string>, s: string)
    requires order != [] && forall n :: n in order ==> n in Sizes(lines)
    ensures Concat(lines, order) == SectionBody(lines, |lines|, order[0]) + Concat(lines, order[1..])
    ensures BaseOf(Sizes(lines), order, s) ==
      if order[0] == s then 0 else OffsetAt(lines, |lines|, order[0]) + BaseOf(Sizes(lines), order[1..], s)
  {
    hide SectionBody, OffsetAt;
    assert Sizes(lines)[order[0]] == OffsetAt(lines, |lines|, order[0]);
  }

  lemma SliceOfHead(x: seq<byte>, y: seq<byte>)
    ensures (x + y)[0..|x|] == x
  {
  }

  lemma SliceOfTail(x: seq<byte>, y: seq<byte>, b: nat, n: nat)
    requires b + n <= |y|
    ensures (x + y)[|x| + b..|x| + b + n] == y[b..b + n]
  {
    var z, w := (x + y)[|x| + b..|x| + b + n], y[b..b + n];
    assert forall i :: 0 <= i < |z| ==> z[i] == w[i];
  }

  lemma {:induction false} ConcatLength(lines: seq<Line>, order: seq<string>)
    requires AllSized(lines) && forall n :: n in order ==> n in Sizes(lines)
    ensures |Concat(lines, order)| == TotalOf(Sizes(lines), order)
  {
    hide AllSized, OffsetAt, SectionBody;
    if order != [] {
      BodyLength(lines, |lines|, order[0]);
      ConcatLength(lines, order[1..]);
    }
  }

  lemma ImageLength(lines: seq<Line>)
    requires AllSized(lines)
    ensures |Image(lines)| == Total(lines)
  {
    OrderSized(lines);
    ConcatLength(lines, OrderOf(lines));
  }

  /** The image holds every line's bytes at that line's address. */
  lemma ImageSlice(lines: seq<Line>, k: nat)
    requires Sizable(lines) && k < |lines|
    ensures 0 <= PcAt(lines, k) && PcAt(lines, k) + |BytesAt(lines, k)| <= |Image(lines)|
    ensures Image(lines)[PcAt(lines, k)..PcAt(lines, k) + |BytesAt(lines, k)|] == BytesAt(lines, k)
  {
    hide Sizable, BaseAddr, BytesAt, OffsetAt, SectionBody, Concat, Total;
    SizableAgrees(lines);
    SectionPlaced(lines, k);
    var s := SectionAt(lines, k);
    BaseExact(lines, s);
    ConcatSlice(lines, OrderOf(lines), s);
    BodySlice(lines, k, |lines|);
    BodyLength(lines, |lines|, s);
    var b, o, n := BaseAddr(lines, s), OffsetAt(lines, k, s), |BytesAt(lines, k)|;
    var m := OffsetAt(lines, |lines|, s);
    SliceOfSlice(Image(lines), b, m, o, n);
    assert Image(lines)[b..b + m] == SectionBody(lines, |lines|, s);
    assert b + o == PcAt(lines, k);
  }

  lemma SliceOfSlice(x: seq<byte>, b: nat, m: nat, o: nat, n: nat)
    requires b + m <= |x| && o + n <= m
    ensures x[b..b + m][o..o + n] == x[b + o..b + o + n]
  {
    var y := x[b..b + m];
    var z, w := y[o..o + n], x[b + o..b + o + n];
    assert forall i :: 0 <= i < |z| ==> z[i] == w[i];
  }

  // ----- lockstep -----

  /** The instructions of `.text` account for its whole size. */
  lemma {:induction false} TextIsCode(lines: seq<Line>, k: nat)
    requires AllSized(lines) && k <= |lines|
    ensures CodeOffset(lines, k) == OffsetAt(lines, k, ".text")
  {
    hide EmitAt, SizeAt;
    if k > 0 {
      TextIsCode(lines, k - 1);
      assert SizedAlike(lines, k - 1);
      if SectionAt(lines, k - 1) == ".text" && !CountedText(lines[k - 1]) { UncountedIsEmpty(lines, k - 1); }
    }
  }

  predicate CountedText(l: Line)
  {
    l.Item? && (l.body.Code? || (l.body.Data? && l.defines.Some?))
  }

  /** A line of `.text` that the text counter passes over reserves nothing. */
  lemma UncountedIsEmpty(lines: seq<Line>, k: nat)
    requires k < |lines| && SizedAlike(lines, k) && SectionAt(lines, k) == ".text"
    requires !CountedText(lines[k])
    ensures SizeAt(lines, k) == 0
  {
    hide PcAt, FinalLabels, GetSectionType, SectionAt;
    TextTypeOfText();
  }

  lemma BasesOfFirstFour(sizes: map<string, int>, order: seq<string>)
    requires |order| >= 4 && (forall n :: n in order ==> n in sizes) && Distinct(order)
    ensures BaseOf(sizes, order, order[0]) == 0
    ensures BaseOf(sizes, order, order[1]) == sizes[order[0]]
    ensures BaseOf(sizes, order, order[2]) == sizes[order[0]] + sizes[order[1]]
    ensures BaseOf(sizes, order, order[3]) == sizes[order[0]] + sizes[order[1]] + sizes[order[2]]
  {
    hide BaseOf;
    var one, two, three := order[1..], order[2..], order[3..];
    assert order == [order[0]] + one && one == [order[1]] + two && two == [order[2]] + three;
    FirstBase(sizes, order);
    FirstBase(sizes, one);
    FirstBase(sizes, two);
    FirstBase(sizes, three);
    NextBase(sizes, order[0], one, order[1]);
    NextBase(sizes, order[0], one, order[2]);
    NextBase(sizes, order[0], one, order[3]);
    NextBase(sizes, order[1], two, order[2]);
    NextBase(sizes, order[1], two, order[3]);
    NextBase(sizes, order[2], three, order[3]);
  }

  lemma FirstBase(sizes: map<string, int>, order: seq<string>)
    requires order != [] && forall n :: n in order ==> n in sizes
    ensures BaseOf(sizes, order, order[0]) == 0
  {
  }

  lemma NextBase(sizes: map<string, int>, a: string, rest: seq<string>, s: string)
    requires a in sizes && (forall n :: n in rest ==> n in sizes) && a != s
    ensures BaseOf(sizes, [a] + rest, s) == sizes[a] + BaseOf(sizes, rest, s)
  {
    assert ([a] + rest)[1..] == rest;
  }

  /** The standard sections come first: text at zero, data after rodata. */
  lemma StandardBases(lines: seq<Line>)
    requires SizesAgree(lines)
    ensures forall s :: s in StandardSet() ==> s in OrderOf(lines)
    ensures var n, bss := |lines|, BaseAddr(lines, ".bss");
      BaseAddr(lines, ".text") == 0
      && BaseAddr(lines, ".rodata") == OffsetAt(lines, n, ".text")
      && BaseAddr(lines, ".data") == OffsetAt(lines, n, ".text") + OffsetAt(lines, n, ".rodata")
      && bss == OffsetAt(lines, n, ".text") + OffsetAt(lines, n, ".rodata") + OffsetAt(lines, n, ".data")
  {
    hide AllSized, Fits, OffsetAt, Total, BaseAddr, BaseOf, Sizes, Names, Distinct;
    var order := OrderOf(lines);
    StandardFirst(Names(lines));
    OrderSized(lines);
    BaseExact(lines, ".text");
    BaseExact(lines, ".rodata");
    BaseExact(lines, ".data");
    BaseExact(lines, ".bss");
    BasesOfFirstFour(Sizes(lines), order);
  }

  lemma StandardFirst(names: set<string>)
    ensures var o := Order(names);
      |o| >= 4 && o[0] == ".text" && o[1] == ".rodata" && o[2] == ".data" && o[3] == ".bss"
      && forall s :: s in StandardSet() ==> s in o
  {
    hide Sorted;
    var o := Order(names);
    assert o[0] in o && o[1] in o && o[2] in o && o[3] in o;
  }

  /** The second pass's position at a line is the layout address of that line. */
  ghost predicate InStep(lines: seq<Line>, k: nat, e: Emitting)
    requires k <= |lines|
  {
    e.section == SectionAt(lines, k) && e.pc == PcAt(lines, k) && e.pos == PcAt(lines, k)
  }

  lemma PcFits(lines: seq<Line>, k: nat)
    requires SizesAgree(lines) && k <= |lines|
    ensures 0 <= PcAt(lines, k) < 0x1_0000_0000
  {
    hide AllSized, OffsetAt, Total, Names, OrderOf;
    var s := SectionAt(lines, k);
    SectionInNames(lines, k);
    OffsetsGrow(lines, k, |lines|, s);
    if s in OrderOf(lines) {
      BaseExact(lines, s);
    } else {
      UnplacedBase(lines, s);
    }
  }

  /** A dotted subsection is never placed. */
  lemma UnplacedBase(lines: seq<Line>, s: string)
    requires s !in OrderOf(lines)
    ensures BaseAddr(lines, s) == 0
  {
    hide BaseOf;
  }

  /** One line keeps the second pass in step, and writes that line's bytes at its address. */
  lemma StepInStep(lines: seq<Line>, k: nat, e: Emitting)
    requires SizesAgree(lines) && k < |lines| && EntryOk(lines, k) && InStep(lines, k, e)
    ensures var r := SecondStep(TablesOf(lines), e, lines[k]);
      r.Done? && InStep(lines, k + 1, r.value)
      && r.value.file == WriteAt(e.file, PcAt(lines, k), BytesAt(lines, k))
  {
    hide AllSized, Fits, EntryOk, PcAt, SecondStep, LineBytes, TablesOf, BytesAt, SizeAt;
    var l := lines[k];
    if Entered(l).Some? {
      NoBytes(lines, k);
      EnteringStep(lines, k, e);
    } else {
      PcAdvances(lines, k);
      PcFits(lines, k + 1);
      if l.Item? {
        LineSized(lines, k);
        ItemStep(lines, k, e);
      } else {
        NoBytes(lines, k);
        IdleStep(lines, k, e);
      }
    }
  }

  lemma IdleStep(lines: seq<Line>, k: nat, e: Emitting)
    requires k < |lines| && Entered(lines[k]).None? && !lines[k].Item?
    ensures SecondStep(TablesOf(lines), e, lines[k]) == Done(e)
  {
    hide TablesOf;
  }

  lemma ItemStep(lines: seq<Line>, k: nat, e: Emitting)
    requires k < |lines| && SizedAlike(lines, k) && InStep(lines, k, e) && lines[k].Item?
    requires PcAt(lines, k) + |BytesAt(lines, k)| < 0x1_0000_0000
    ensures var r := SecondStep(TablesOf(lines), e, lines[k]);
      r.Done? && r.value.section == e.section
      && r.value.pc == r.value.pos == PcAt(lines, k) + |BytesAt(lines, k)|
      && r.value.file == WriteAt(e.file, PcAt(lines, k), BytesAt(lines, k))
  {
    hide PcAt, LineBytes, TablesOf, IsText, WriteAt, InText, SectionAt;
    ItemEmits(lines, k, e);
  }

  lemma ItemEmits(lines: seq<Line>, k: nat, e: Emitting)
    requires k < |lines| && InStep(lines, k, e) && lines[k].Item?
    ensures var tb := TablesOf(lines);
      LineBytes(tb.labels, e.pc, lines[k], InText(tb, e.section, lines[k].body)) == EmitAt(lines, k)
  {
    hide PcAt, LineBytes, TablesOf, IsText, SectionAt;
    SectionKnown(lines, k);
    assert e.pc == Wrap(PcAt(lines, k));
  }

  lemma SectionKnown(lines: seq<Line>, k: nat)
    requires k < |lines|
    ensures SectionAt(lines, k) in TablesOf(lines).bases && TablesOf(lines).labels == FinalLabels(lines)
  {
    hide FinalLabels, CodeOffset, BaseAddr, SectionAt, Names;
    SectionInNames(lines, k);
  }

  lemma NoBytes(lines: seq<Line>, k: nat)
    requires k < |lines| && !lines[k].Item?
    ensures BytesAt(lines, k) == [] && SizeAt(lines, k) == 0
  {
  }

  lemma PcAdvances(lines: seq<Line>, k: nat)
    requires AllSized(lines) && k < |lines| && Entered(lines[k]).None?
    ensures PcAt(lines, k + 1) == PcAt(lines, k) + |BytesAt(lines, k)|
  {
    hide BaseAddr, BytesAt, SizeAt;
    assert SizedAlike(lines, k);
  }

  /** Where a section directive takes the second pass: to the base of the section, except that a bare
      `.data` takes it to the end of the text. */
  lemma EnteredPosition(lines: seq<Line>, k: nat, e: Emitting)
    requires SizesAgree(lines) && k < |lines| && Entered(lines[k]).Some?
    ensures var s, text := Entered(lines[k]).value, OffsetAt(lines, |lines|, ".text");
      var p := if lines[k].DotData? then text else BaseAddr(lines, s);
      0 <= text < 0x1_0000_0000 && SecondStep(TablesOf(lines), e, lines[k]) == Done(Emitting(s, p, p, e.file))
  {
    hide BaseAddr, AllSized, Fits, TablesOf, OffsetAt;
    var s := Entered(lines[k]).value;
    AllEntered(lines, |lines|);
    BaseTable(lines, s);
    TextTable(lines);
    StandardBases(lines);
  }

  lemma BaseTable(lines: seq<Line>, s: string)
    requires s in Names(lines)
    ensures s in TablesOf(lines).bases && TablesOf(lines).bases[s] == BaseAddr(lines, s)
  {
  }

  lemma TextCounter(lines: seq<Line>)
    ensures TablesOf(lines).pcText == Wrap(CodeOffset(lines, |lines|))
  {
  }

  lemma TextTable(lines: seq<Line>)
    requires SizesAgree(lines)
    ensures 0 <= OffsetAt(lines, |lines|, ".text") < 0x1_0000_0000
    ensures TablesOf(lines).pcText == OffsetAt(lines, |lines|, ".text")
  {
    hide BaseAddr, AllSized, Fits, TablesOf, CodeOffset, OffsetAt;
    TextCounter(lines);
    StandardBases(lines);
    TextIsCode(lines, |lines|);
  }

  /** A section directive moves the second pass to the layout address of the next line if and only if the
      section is entered in order. */
  lemma EnteringStep(lines: seq<Line>, k: nat, e: Emitting)
    requires SizesAgree(lines) && k < |lines| && Entered(lines[k]).Some?
    ensures var r := SecondStep(TablesOf(lines), e, lines[k]);
      r.Done? && r.value.file == e.file && (InStep(lines, k + 1, r.value) <==> EntryOk(lines, k))
  {
    hide BaseAddr, AllSized, Fits, SecondStep, TablesOf, BytesAt, SizeAt, OffsetAt;
    var s := Entered(lines[k]).value;
    EnteredPosition(lines, k, e);
    NoBytes(lines, k);
    OffsetUnchanged(lines, k, s);
    StandardBases(lines);
    OffsetsGrow(lines, k, |lines|, s);
    OffsetsGrow(lines, |lines|, |lines|, ".rodata");
  }

  lemma OffsetUnchanged(lines: seq<Line>, k: nat, s: string)
    requires k < |lines| && SizeAt(lines, k) == 0
    ensures OffsetAt(lines, k + 1, s) == OffsetAt(lines, k, s)
  {
  }

  /** When the second pass reaches line `k`, its `pc` and its file position are the base of the section plus
      the first pass's offset there. */
  ghost predicate InLockstep(lines: seq<Line>, k: nat)
    requires k <= |lines|
  {
    var r := SecondAt(TablesOf(lines), lines, k);
    r.Done? && InStep(lines, k, r.value)
  }

  /** Two-pass lockstep: for every well-formed source the second pass is in step at every line. */
  lemma {:induction false} TwoPassLockstep(lines: seq<Line>, k: nat)
    requires SizesAgree(lines) && Ordered(lines) && k <= |lines|
    ensures InLockstep(lines, k)
  {
    hide SecondStep, TablesOf, AllSized, Fits, PcAt, BaseAddr, EntryOk;
    if k == 0 {
      StandardBases(lines);
      assert PcAt(lines, 0) == 0 by { PcStart(lines); }
    } else {
      TwoPassLockstep(lines, k - 1);
      assert EntryOk(lines, k - 1);
      StepInStep(lines, k - 1, SecondAt(TablesOf(lines), lines, k - 1).value);
    }
  }

  lemma PcStart(lines: seq<Line>)
    requires SizesAgree(lines)
    ensures PcAt(lines, 0) == 0
  {
    StandardBases(lines);
  }

  // ----- image composition -----

  predicate Agrees(file: seq<byte>, image: seq<byte>, p: int)
  {
    0 <= p < |file| && p < |image| && file[p] == image[p]
  }

  /** The file holds the image's bytes wherever line `j` contributes any. */
  ghost predicate Written(lines: seq<Line>, j: nat, file: seq<byte>)
    requires j < |lines|
  {
    forall p :: PcAt(lines, j) <= p < PcAt(lines, j) + |BytesAt(lines, j)| ==> Agrees(file, Image(lines), p)
  }

  /** Every byte written so far is the byte of the image at that position, and nothing lies beyond it. */
  ghost predicate PartOfImage(lines: seq<Line>, k: nat, file: seq<byte>)
    requires k <= |lines|
  {
    |file| <= |Image(lines)| && forall j :: 0 <= j < k ==> Written(lines, j, file)
  }

  lemma WriteImageBytes(file: seq<byte>, pos: nat, data: seq<byte>, image: seq<byte>)
    requires |file| <= |image| && pos + |data| <= |image| && image[pos..pos + |data|] == data
    ensures var f := WriteAt(file, pos, data);
      |f| <= |image|
      && (forall p :: Agrees(file, image, p) ==> Agrees(f, image, p))
      && (forall p :: pos <= p < pos + |data| ==> Agrees(f, image, p))
  {
    if data != [] {
      var f := WriteAt(file, pos, data);
      forall p | pos <= p < pos + |data| ensures Agrees(f, image, p) {
        assert f[p] == data[p - pos] == image[pos..pos + |data|][p - pos];
      }
    }
  }

  lemma {:induction false} FileIsPartOfImage(lines: seq<Line>, k: nat)
    requires WellFormed(lines) && k <= |lines|
    ensures SecondAt(TablesOf(lines), lines, k).Done?
    ensures PartOfImage(lines, k, SecondAt(TablesOf(lines), lines, k).value.file)
  {
    hide SecondStep, TablesOf, Sizable, PcAt, BytesAt, Image, InStep, WriteAt, Written;
    SizableAgrees(lines);
    if k > 0 {
      FileIsPartOfImage(lines, k - 1);
      TwoPassLockstep(lines, k - 1);
      var e := SecondAt(TablesOf(lines), lines, k - 1).value;
      StepInStep(lines, k - 1, e);
      WriteKeepsImage(lines, k - 1, e.file);
    }
  }

  lemma WriteKeepsImage(lines: seq<Line>, k: nat, file: seq<byte>)
    requires Sizable(lines) && k < |lines| && PartOfImage(lines, k, file)
    ensures 0 <= PcAt(lines, k)
    ensures PartOfImage(lines, k + 1, WriteAt(file, PcAt(lines, k), BytesAt(lines, k)))
  {
    hide Sizable, PcAt, BytesAt, Image, WriteAt;
    SizableAgrees(lines);
    ImageSlice(lines, k);
    WriteImageBytes(file, PcAt(lines, k), BytesAt(lines, k), Image(lines));
    var f := WriteAt(file, PcAt(lines, k), BytesAt(lines, k));
    forall j | 0 <= j < k + 1 ensures Written(lines, j, f) {
      if j < k { assert Written(lines, j, file); }
    }
  }

  lemma AllWritten(lines: seq<Line>, file: seq<byte>, p: nat)
    requires Sizable(lines) && PartOfImage(lines, |lines|, file) && p < |Image(lines)|
    ensures p < |file| && file[p] == Image(lines)[p]
  {
    hide Sizable, PcAt, BytesAt, Image, Total;
    SizableAgrees(lines);
    ImageLength(lines);
    var k := LinesCover(lines, p);
    assert Written(lines, k, file);
    assert Agrees(file, Image(lines), p);
  }

  /** Image composition: whatever order the source lists its sections in, the second pass produces the
      section bodies concatenated, text first, then rodata, data, bss and the custom sections by name. */
  lemma ImageComposition(lines: seq<Line>)
    requires WellFormed(lines)
    ensures SecondAt(TablesOf(lines), lines, |lines|).Done?
    ensures SecondAt(TablesOf(lines), lines, |lines|).value.file == Image(lines)
  {
    hide TablesOf, Sizable, Written, Image, SecondAt;
    SizableAgrees(lines);
    FileIsPartOfImage(lines, |lines|);
    var file := SecondAt(TablesOf(lines), lines, |lines|).value.file;
    forall p | 0 <= p < |Image(lines)|
      ensures p < |file| && file[p] == Image(lines)[p]
    {
      AllWritten(lines, file, p);
    }
    if |Image(lines)| > 0 {
      AllWritten(lines, file, |Image(lines)| - 1);
    }
  }

  // ----- labels -----

  /** A label's final address is where the next bytes of its section are emitted: no line between the
      label and the first later line of the section that contributes bytes moves the position. */
  lemma LabelMarksNextItem(lines: seq<Line>, j: nat, i: nat, name: string)
    requires SizesAgree(lines) && NoDuplicateLabels(lines) && j <= i < |lines| && Defines(lines[j], name)
    requires SectionAt(lines, i) == SectionAt(lines, j) && BytesAt(lines, i) != []
    requires forall n :: j <= n < i && SectionAt(lines, n) == SectionAt(lines, j) ==> BytesAt(lines, n) == []
    ensures 0 <= PcAt(lines, i) < 0x1_0000_0000
    ensures FindLabel(FinalLabels(lines), name) == Some(PcAt(lines, i))
  {
    hide BytesAt, BaseAddr, AllSized, Fits;
    LabelAddress(lines, j, name);
    OffsetSame(lines, j, i, SectionAt(lines, j));
    PcFits(lines, j);
  }

  lemma {:induction false} OffsetSame(lines: seq<Line>, j: nat, i: nat, s: string)
    requires AllSized(lines) && j <= i <= |lines|
    requires forall n :: j <= n < i && SectionAt(lines, n) == s ==> BytesAt(lines, n) == []
    ensures OffsetAt(lines, i, s) == OffsetAt(lines, j, s)
  {
    hide BytesAt, SizeAt, SectionAt;
    if j < i {
      assert SizedAlike(lines, i - 1);
      OffsetSame(lines, j, i - 1, s);
    }
  }

  lemma {:induction false} TextOffsetAligned(lines: seq<Line>, k: nat)
    requires Sizable(lines) && k <= |lines|
    ensures OffsetAt(lines, k, ".text") % 4 == 0
  {
    hide Sizable, SizeAt, SectionAt, CodeCount;
    if k > 0 {
      TextOffsetAligned(lines, k - 1);
      if SectionAt(lines, k - 1) == ".text" { TextLineSize(lines, k - 1); }
    }
  }

  /** Instructions keep `.text` in units of four bytes, so every text address is a multiple of four. */
  lemma TextAligned(lines: seq<Line>, k: nat)
    requires Sizable(lines) && k <= |lines|
    ensures OffsetAt(lines, k, ".text") % 4 == 0
    ensures SectionAt(lines, k) == ".text" ==> PcAt(lines, k) % 4 == 0
  {
    hide Sizable, SizesAgree, BaseAddr, OffsetAt, SectionAt;
    SizableAgrees(lines);
    TextOffsetAligned(lines, k);
    StandardBases(lines);
  }

  /** Every label lies in the closed interval of its section, and a `.text` label at a multiple of four. */
  lemma LabelInSection(lines: seq<Line>, j: nat, name: string)
    requires Sizable(lines) && j < |lines| && Defines(lines[j], name)
    ensures var s := SectionAt(lines, j);
      var a := FindLabel(FinalLabels(lines), name);
      a.Some? && BaseAddr(lines, s) <= a.value <= BaseAddr(lines, s) + OffsetAt(lines, |lines|, s)
      && (s == ".text" ==> a.value % 4 == 0)
  {
    hide BaseAddr, OffsetAt, Total;
    SizableAgrees(lines);
    LabelAddress(lines, j, name);
    PcFits(lines, j);
    TextAligned(lines, j);
    OffsetsGrow(lines, j, |lines|, SectionAt(lines, j));
  }

  lemma TextLineSize(lines: seq<Line>, k: nat)
    requires Sizable(lines) && k < |lines| && SectionAt(lines, k) == ".text"
    ensures SizeAt(lines, k) == if lines[k].Item? && lines[k].body.Code? then 4 * CodeCount(lines[k].body.t) else 0
  {
    hide Sizable, CodeCount, SectionAt, WellFormedCode, WellFormedDirective, DirectiveSize, OffsetAt,
         GetSectionType;
    LineIsSizable(lines, k);
    assert IsText(".text") by { TextTypeOfText(); }
    OtherIsEmpty();
  }

  lemma LineIsSizable(lines: seq<Line>, k: nat)
    requires Sizable(lines) && k < |lines|
    ensures SizableLine(lines, k)
  {
    hide SizableLine, Total;
  }

  lemma TextTypeOfText()
    ensures IsText(".text")
  {
  }

  // ----- custom sections -----

  lemma {:induction false} BaseAscends(sizes: map<string, int>, order: seq<string>, i: nat, j: nat)
    requires Sized(sizes, order) && Distinct(order) && i < j < |order|
    ensures BaseOf(sizes, order, order[i]) + sizes[order[i]] <= BaseOf(sizes, order, order[j])
  {
    var rest := order[1..];
    assert rest[j - 1] == order[j];
    if i == 0 {
      BaseBounds(sizes, rest, order[j]);
    } else {
      assert rest[i - 1] == order[i];
      BaseAscends(sizes, rest, i - 1, j - 1);
    }
  }

  /** Sections are placed in their order: one that comes earlier ends before the later one begins. */
  lemma PlacedInOrder(lines: seq<Line>, i: nat, j: nat)
    requires SizesAgree(lines) && i < j < |OrderOf(lines)|
    ensures var s, t := OrderOf(lines)[i], OrderOf(lines)[j];
      BaseAddr(lines, s) + OffsetAt(lines, |lines|, s) <= BaseAddr(lines, t)
  {
    hide AllSized, Fits, OffsetAt, BaseAddr, OrderOf, BaseOf, Total;
    OrderSized(lines);
    BaseExact(lines, OrderOf(lines)[i]);
    BaseExact(lines, OrderOf(lines)[j]);
    BaseAscends(Sizes(lines), OrderOf(lines), i, j);
  }

  /** Of two custom sections the one whose name is smaller at the first difference is placed and emitted first. */
  lemma CustomByName(lines: seq<Line>, a: string, b: string, i: nat)
    requires SizesAgree(lines) && a in Names(lines) && b in Names(lines) && IsCustom(a) && IsCustom(b)
    requires SmallerAt(a, b, i)
    ensures BaseAddr(lines, a) + OffsetAt(lines, |lines|, a) <= BaseAddr(lines, b)
  {
    hide AllSized, Fits, OffsetAt, BaseAddr, Names, IsCustom, Sorted, LexLE, SmallerAt;
    var names := CustomNames(Names(lines));
    SortedMembers(names);
    LexDifference(a, b, i);
    var p := IndexIn(Sorted(names), a);
    var q := IndexIn(Sorted(names), b);
    if q < p { SortedAscends(names, q, p); }
    LexSelf(a);
    assert OrderOf(lines)[4 + p] == a && OrderOf(lines)[4 + q] == b;
    PlacedInOrder(lines, 4 + p, 4 + q);
  }

  lemma LexSelf(a: string)
    ensures LexLE(a, a)
  {
    LexTotal(a, a);
  }

  lemma IndexIn(s: seq<string>, x: string) returns (i: nat)
    requires x in s
    ensures i < |s| && s[i] == x
  {
    i :| i < |s| && s[i] == x;
  }

  /** Every custom section comes after the standard ones. */
  lemma CustomAfterStandard(lines: seq<Line>, s: string, c: string)
    requires SizesAgree(lines) && s in StandardSet() && c in Names(lines) && IsCustom(c)
    ensures BaseAddr(lines, s) + OffsetAt(lines, |lines|, s) <= BaseAddr(lines, c)
  {
    hide AllSized, Fits, OffsetAt, BaseAddr, Names, IsCustom, Sorted;
    var names := CustomNames(Names(lines));
    SortedMembers(names);
    var q := IndexIn(Sorted(names), c);
    var p := IndexIn(STANDARD, s);
    assert OrderOf(lines)[4 + q] == c && OrderOf(lines)[p] == s;
    PlacedInOrder(lines, p, 4 + q);
  }

  // ----- exactly when the passes agree -----

  /** On sources whose lines the passes size alike, the second pass stays in step if and only if every
      section is entered while it is empty and a bare `.data` comes with an empty `.rodata`. */
  lemma LockstepExact(lines: seq<Line>)
    requires SizesAgree(lines)
    ensures (forall k :: 0 <= k <= |lines| ==> InLockstep(lines, k)) <==> Ordered(lines)
  {
    hide AllSized, Fits, InStep, SecondStep, TablesOf, Ordered;
    if Ordered(lines) {
      forall k | 0 <= k <= |lines| ensures InLockstep(lines, k) { TwoPassLockstep(lines, k); }
    } else {
      var k := OutOfOrder(lines);
      if InLockstep(lines, k) && InLockstep(lines, k + 1) {
        EnteringStep(lines, k, SecondAt(TablesOf(lines), lines, k).value);
      }
    }
  }

  lemma OutOfOrder(lines: seq<Line>) returns (k: nat)
    requires !Ordered(lines)
    ensures k < |lines| && Entered(lines[k]).Some? && !EntryOk(lines, k)
  {
    hide OffsetAt;
    k :| k < |lines| && !EntryOk(lines, k);
  }
}
