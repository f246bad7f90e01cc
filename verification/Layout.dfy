/** Where every line of a source file ends up: a global reading of the two-pass layout.

Nothing here is computed line by line the way the passes do it.  The offset of a line is the total size
of the earlier lines of its section, the base of a section is the total size of the sections placed
before it, and the image is the concatenation of the section bodies.
*/
module Layout {
  import opened Words
  import opened Codec
  import opened Text
  import opened Directives
  import opened Source

  // ----- sections -----

  datatype SectionType = SecText | SecData | SecRodata | SecBss | SecCustom

  predicate HasPrefix(s: string, p: string)
  {
    |p| <= |s| && s[..|p|] == p
  }

  function GetSectionType(name: string): SectionType
  {
    if name == ".text" || HasPrefix(name, ".text.") then SecText
    else if name == ".data" || HasPrefix(name, ".data.") then SecData
    else if name == ".rodata" || HasPrefix(name, ".rodata.") then SecRodata
    else if name == ".bss" || HasPrefix(name, ".bss.") then SecBss
    else SecCustom
  }

  predicate IsText(name: string)
  {
    GetSectionType(name) == SecText
  }

  /** A dotted subsection has the type of its parent, whatever its suffix. */
  lemma Subsection(suffix: string)
    ensures GetSectionType(".text") == GetSectionType(".text." + suffix) == SecText
    ensures GetSectionType(".data") == GetSectionType(".data." + suffix) == SecData
    ensures GetSectionType(".rodata") == GetSectionType(".rodata." + suffix) == SecRodata
    ensures GetSectionType(".bss") == GetSectionType(".bss." + suffix) == SecBss
  {
    hide HasPrefix;
    StartsWith(".text.", suffix);
    StartsWith(".data.", suffix);
    StartsWith(".rodata.", suffix);
    StartsWith(".bss.", suffix);
    Differs(".data", ".text."); Differs(".rodata", ".text."); Differs(".bss", ".text.");
    Differs(".data." + suffix, ".text."); Differs(".rodata." + suffix, ".text."); Differs(".bss." + suffix, ".text.");
    Differs(".rodata", ".data."); Differs(".bss", ".data.");
    Differs(".rodata." + suffix, ".data."); Differs(".bss." + suffix, ".data.");
    Differs(".bss", ".rodata."); Differs(".bss." + suffix, ".rodata.");
  }

  lemma StartsWith(p: string, t: string)
    ensures HasPrefix(p + t, p)
  {
  }

  lemma Differs(s: string, p: string)
    requires |s| > 1 && |p| > 2 && s[1] != p[1]
    ensures !HasPrefix(s, p) && s != p[..|p| - 1]
  {
  }

  /** Every other name is a custom section. */
  lemma CustomSection(s: string)
    ensures GetSectionType(s) == SecCustom || s in {".text", ".data", ".rodata", ".bss"}
      || exists t :: s == ".text." + t || s == ".data." + t || s == ".rodata." + t || s == ".bss." + t
  {
    if HasPrefix(s, ".text.") { assert s == ".text." + s[6..]; }
    if HasPrefix(s, ".data.") { assert s == ".data." + s[6..]; }
    if HasPrefix(s, ".rodata.") { assert s == ".rodata." + s[8..]; }
    if HasPrefix(s, ".bss.") { assert s == ".bss." + s[5..]; }
  }

  /** The standard sections in the order in which they are placed. */
  const STANDARD: seq<string> := [".text", ".rodata", ".data", ".bss"]

  /** Neither a standard section nor one of its dotted subsections. */
  predicate IsCustom(name: string)
  {
    GetSectionType(name) == SecCustom
  }

  /** The section that a line switches to. */
  function Entered(l: Line): Option<string>
  {
    match l
    case Section(name) => if name == "" then None else Some(name)
    case DotText => Some(".text")
    case DotData => Some(".data")
    case DotRodata => Some(".rodata")
    case DotBss => Some(".bss")
    case _ => None
  }

  /** The section in force before line `k`. */
  function SectionAt(lines: seq<Line>, k: nat): string
    requires k <= |lines|
  {
    if k == 0 then ".text"
    else match Entered(lines[k - 1])
      case Some(name) => name
      case None => SectionAt(lines, k - 1)
  }

  /** The sections switched to before line `k`. */
  function EnteredBefore(lines: seq<Line>, k: nat): set<string>
    requires k <= |lines|
  {
    if k == 0 then {}
    else match Entered(lines[k - 1])
      case Some(name) => EnteredBefore(lines, k - 1) + {name}
      case None => EnteredBefore(lines, k - 1)
  }

  function StandardSet(): set<string>
  {
    {".text", ".rodata", ".data", ".bss"}
  }

  function Names(lines: seq<Line>): set<string>
  {
    StandardSet() + EnteredBefore(lines, |lines|)
  }

  // ----- offsets -----

  /** The bytes the first pass reserves for line `k`; zero where it would give up. */
  function SizeAt(lines: seq<Line>, k: nat): int
    requires k < |lines|
  {
    match LineSize(lines[k], IsText(SectionAt(lines, k)))
    case Done(n) => n
    case _ => 0
  }

  /** The total size of the lines before `k` that belong to section `s`. */
  function OffsetAt(lines: seq<Line>, k: nat, s: string): int
    requires k <= |lines|
  {
    if k == 0 then 0
    else OffsetAt(lines, k - 1, s) + if SectionAt(lines, k - 1) == s then SizeAt(lines, k - 1) else 0
  }

  /** The total size of the instructions of `.text` before line `k`. */
  function CodeOffset(lines: seq<Line>, k: nat): int
    requires k <= |lines|
  {
    if k == 0 then 0
    else
      var l := lines[k - 1];
      CodeOffset(lines, k - 1)
      + if SectionAt(lines, k - 1) == ".text" && l.Item? && (l.body.Code? || (l.body.Data? && l.defines.Some?))
        then SizeAt(lines, k - 1) else 0
  }

  // ----- base addresses -----

  /** `std::string` order. */
  predicate LexLE(a: string, b: string)
  {
    a == "" || (b != "" && (if a[0] != b[0] then a[0] < b[0] else LexLE(a[1..], b[1..])))
  }

  lemma {:induction false} LexTotal(a: string, b: string)
    ensures LexLE(a, b) || LexLE(b, a)
    ensures LexLE(a, b) && LexLE(b, a) ==> a == b
  {
    if a != "" && b != "" && a[0] == b[0] {
      LexTotal(a[1..], b[1..]);
      assert a == [a[0]] + a[1..] && b == [b[0]] + b[1..];
    }
  }

  lemma {:induction false} LexTransitive(a: string, b: string, c: string)
    requires LexLE(a, b) && LexLE(b, c)
    ensures LexLE(a, c)
  {
    if a != "" && a[0] == b[0] && b[0] == c[0] { LexTransitive(a[1..], b[1..], c[1..]); }
  }

  /** Position `i` is the first at which the names differ, and there `a` ends or has the smaller character. */
  predicate SmallerAt(a: string, b: string, i: nat)
  {
    i <= |a| && i < |b| && a[..i] == b[..i] && (i == |a| || a[i] < b[i])
  }

  /** The name that is smaller at the first difference comes first. */
  lemma {:induction false} LexDifference(a: string, b: string, i: nat)
    requires SmallerAt(a, b, i)
    ensures LexLE(a, b) && !LexLE(b, a)
  {
    if i > 0 {
      assert a[0] == a[..i][0] == b[..i][0] == b[0];
      assert a[1..][..i - 1] == a[..i][1..] == b[..i][1..] == b[1..][..i - 1];
      LexDifference(a[1..], b[1..], i - 1);
    }
  }

  ghost predicate IsLeast(m: string, names: set<string>)
  {
    m in names && forall n :: n in names ==> LexLE(m, n)
  }

  lemma {:induction false} LeastExists(names: set<string>)
    requires names != {}
    ensures exists m :: IsLeast(m, names)
  {
    var x :| x in names;
    if names == {x} {
      LexTotal(x, x);
      assert IsLeast(x, names);
    } else {
      var rest := names - {x};
      assert rest != {} by { assert exists y :: y in names && y != x; }
      LeastExists(rest);
      var m :| IsLeast(m, rest);
      LexTotal(m, x);
      var r := if LexLE(m, x) then m else x;
      LexTotal(x, x);
      forall n | n in names ensures LexLE(r, n) {
        if n != x && r == x { LexTransitive(x, m, n); }
      }
      assert IsLeast(r, names);
    }
  }

  /** A set of names in ascending order: how a `std::map` iterates over them. */
  ghost function Sorted(names: set<string>): seq<string>
  {
    if names == {} then []
    else
      LeastExists(names);
      var m :| IsLeast(m, names);
      [m] + Sorted(names - {m})
  }

  lemma LeastUnique(m: string, m': string, names: set<string>)
    requires IsLeast(m, names) && IsLeast(m', names)
    ensures m == m'
  {
    LexTotal(m, m');
  }

  lemma {:induction false} SortedMembers(names: set<string>)
    ensures forall n :: n in Sorted(names) <==> n in names
    ensures Distinct(Sorted(names))
  {
    if names != {} {
      LeastExists(names);
      var m := Sorted(names)[0];
      SortedMembers(names - {m});
      assert Sorted(names) == [m] + Sorted(names - {m});
    }
  }

  /** The iteration is ascending. */
  lemma {:induction false} SortedAscends(names: set<string>, i: nat, j: nat)
    requires i < j < |Sorted(names)|
    ensures LexLE(Sorted(names)[i], Sorted(names)[j])
  {
    LeastExists(names);
    var m := Sorted(names)[0];
    assert Sorted(names) == [m] + Sorted(names - {m});
    if i == 0 {
      SortedMembers(names);
      assert Sorted(names)[j] in names;
    } else {
      SortedAscends(names - {m}, i - 1, j - 1);
    }
  }

  predicate Distinct(s: seq<string>)
  {
    forall i, j :: 0 <= i < j < |s| ==> s[i] != s[j]
  }

  ghost function CustomNames(names: set<string>): set<string>
  {
    set n | n in names && IsCustom(n)
  }

  /** The order in which sections are placed: the standard ones, then the custom ones by name. */
  ghost function Order(names: set<string>): seq<string>
  {
    STANDARD + Sorted(CustomNames(names))
  }

  lemma OrderMembers(names: set<string>)
    ensures forall n :: n in Order(names) <==> n in StandardSet() || (n in names && IsCustom(n))
    ensures Distinct(Order(names))
  {
    var c := CustomNames(names);
    SortedMembers(c);
    assert forall n :: n in STANDARD <==> n in StandardSet();
    StandardNotCustom();
    assert Order(names) == STANDARD + Sorted(c);
    assert forall j :: 0 <= j < |Sorted(c)| ==> Sorted(c)[j] in c;
  }

  lemma StandardNotCustom()
    ensures Distinct(STANDARD)
    ensures forall n :: n in StandardSet() ==> !IsCustom(n)
  {
  }

  /** The total size of the sections placed before `s`. */
  function BaseOf(sizes: map<string, int>, order: seq<string>, s: string): int
    requires forall n :: n in order ==> n in sizes
  {
    if order == [] || order[0] == s then 0
    else sizes[order[0]] + BaseOf(sizes, order[1..], s)
  }

  function TotalOf(sizes: map<string, int>, order: seq<string>): int
    requires forall n :: n in order ==> n in sizes
  {
    if order == [] then 0 else sizes[order[0]] + TotalOf(sizes, order[1..])
  }

  function Sizes(lines: seq<Line>): map<string, int>
  {
    map s | s in Names(lines) :: OffsetAt(lines, |lines|, s)
  }

  /** The base address of a section. A dotted subsection is never placed and stays at zero. */
  ghost function BaseAddr(lines: seq<Line>, s: string): u32
  {
    OrderMembers(Names(lines));
    if s in Order(Names(lines)) then Wrap(BaseOf(Sizes(lines), Order(Names(lines)), s)) else 0
  }

  /** Whatever is in a dotted subsection, it starts at address zero, where `.text` also starts. */
  lemma SubsectionAtZero(lines: seq<Line>, suffix: string)
    ensures BaseAddr(lines, ".text." + suffix) == BaseAddr(lines, ".data." + suffix) == 0
    ensures BaseAddr(lines, ".rodata." + suffix) == BaseAddr(lines, ".bss." + suffix) == 0
    ensures BaseAddr(lines, ".text") == 0
  {
    hide GetSectionType, Order, BaseOf, Names;
    OrderMembers(Names(lines));
    Subsection(suffix);
    FirstInOrder(lines);
    assert ".text." + suffix !in StandardSet() by { assert (".text." + suffix)[5] == '.'; }
    assert ".data." + suffix !in StandardSet() by { assert (".data." + suffix)[5] == '.'; }
    assert ".rodata." + suffix !in StandardSet() by { assert (".rodata." + suffix)[7] == '.'; }
    assert ".bss." + suffix !in StandardSet() by { assert (".bss." + suffix)[4] == '.'; }
  }

  lemma FirstInOrder(lines: seq<Line>)
    ensures (OrderMembers(Names(lines)); BaseOf(Sizes(lines), Order(Names(lines)), ".text")) == 0
  {
  }

  ghost function Total(lines: seq<Line>): int
  {
    OrderMembers(Names(lines));
    TotalOf(Sizes(lines), Order(Names(lines)))
  }

  // ----- addresses -----

  /** The address of the first byte that line `k` contributes: base of its section plus offset in it. */
  ghost function PcAt(lines: seq<Line>, k: nat): int
    requires k <= |lines|
  {
    var s := SectionAt(lines, k);
    BaseAddr(lines, s) + OffsetAt(lines, k, s)
  }

  /** The labels of the lines before `k`, with offsets relative to their sections: what pass one records. */
  function RelativeLabels(lines: seq<Line>, k: nat): seq<Label>
    requires k <= |lines|
  {
    if k == 0 then []
    else
      var l := lines[k - 1];
      var s := SectionAt(lines, k - 1);
      RelativeLabels(lines, k - 1)
      + if l.Item? && l.defines.Some? then [Label(l.defines.value, Wrap(OffsetAt(lines, k - 1, s)), s)] else []
  }

  /** The same labels with their final addresses: each one is the address of its own line. */
  ghost function LabelsBefore(lines: seq<Line>, k: nat): seq<Label>
    requires k <= |lines|
  {
    if k == 0 then []
    else
      var l := lines[k - 1];
      LabelsBefore(lines, k - 1)
      + if l.Item? && l.defines.Some?
        then [Label(l.defines.value, Wrap(PcAt(lines, k - 1)), SectionAt(lines, k - 1))] else []
  }

  ghost function FinalLabels(lines: seq<Line>): seq<Label>
  {
    LabelsBefore(lines, |lines|)
  }

  /** Relocation of one label by the base of its section. */
  ghost function Relocated(lines: seq<Line>, l: Label): Label
  {
    l.(addr := Wrap(l.addr + BaseAddr(lines, l.section)))
  }

  /** Relocating every recorded label gives the final labels. */
  lemma {:induction false} RelocationIsFinal(lines: seq<Line>, k: nat)
    requires k <= |lines|
    ensures |RelativeLabels(lines, k)| == |LabelsBefore(lines, k)|
    ensures forall i :: 0 <= i < |LabelsBefore(lines, k)| ==>
      LabelsBefore(lines, k)[i] == Relocated(lines, RelativeLabels(lines, k)[i])
  {
    hide BaseAddr, OffsetAt, SectionAt, Wrap;
    if k > 0 {
      RelocationIsFinal(lines, k - 1);
      var s := SectionAt(lines, k - 1);
      WrapAdd(OffsetAt(lines, k - 1, s), BaseAddr(lines, s));
    }
  }

  // ----- contents -----

  /** The bytes that line `k` contributes, encoded at its own address against the final labels. */
  ghost function EmitAt(lines: seq<Line>, k: nat): Result<seq<byte>>
    requires k < |lines|
  {
    LineBytes(FinalLabels(lines), Wrap(PcAt(lines, k)), lines[k], IsText(SectionAt(lines, k)))
  }

  ghost function BytesAt(lines: seq<Line>, k: nat): seq<byte>
    requires k < |lines|
  {
    match EmitAt(lines, k) case Done(b) => b case _ => []
  }

  /** The body of section `s` contributed by the lines before `k`. */
  ghost function SectionBody(lines: seq<Line>, k: nat, s: string): seq<byte>
    requires k <= |lines|
  {
    if k == 0 then []
    else SectionBody(lines, k - 1, s) + if SectionAt(lines, k - 1) == s then BytesAt(lines, k - 1) else []
  }

  ghost function Concat(lines: seq<Line>, order: seq<string>): seq<byte>
  {
    if order == [] then [] else SectionBody(lines, |lines|, order[0]) + Concat(lines, order[1..])
  }

  /** The image: text, rodata, data, bss, then the custom sections by name. */
  ghost function Image(lines: seq<Line>): seq<byte>
  {
    Concat(lines, Order(Names(lines)))
  }

  // ----- well-formed sources -----

  predicate Defines(l: Line, name: string)
  {
    l.Item? && l.defines == Some(name)
  }

  ghost predicate HasLabel(lines: seq<Line>, name: string)
  {
    exists j :: 0 <= j < |lines| && Defines(lines[j], name)
  }

  ghost predicate NoDuplicateLabels(lines: seq<Line>)
  {
    forall i, j :: 0 <= i < j < |lines| && lines[i].Item? && lines[i].defines.Some? ==>
      !Defines(lines[j], lines[i].defines.value)
  }

  /** An operand that `parse_imm` can read: empty, a number, or a label of the source. */
  ghost predicate Readable(lines: seq<Line>, a: string)
  {
    a == "" || HexPrefix(a) || Numeric(a) || HasLabel(lines, a)
  }

  /** A known mnemonic whose operands can be read; `li` takes a number. */
  ghost predicate WellFormedCode(lines: seq<Line>, t: Tokens)
  {
    match ClassOf(t.op)
    case ClassI(_) => Readable(lines, t.a3)
    case ClassShift(_, _) => Readable(lines, t.a3)
    case ClassLoad(_) => Readable(lines, t.a2)
    case ClassStore(_) => Readable(lines, t.a2)
    case ClassBranch(_) => Readable(lines, t.a3)
    case ClassJal => Readable(lines, t.a2)
    case ClassJalr => Readable(lines, t.a3)
    case ClassUpper(_) => Readable(lines, t.a2)
    case ClassPseudo =>
      (t.op == LI ==> Numeric(t.a2)) && (t.op == LA ==> HasLabel(lines, t.a2))
      && (t.op == CALL || t.op == J ==> Readable(lines, t.a1))
    case ClassNone => false
    case _ => true
  }

  /** The first pass reserves for line `k` what the second pass emits for it, and no dotted subsection
      is entered. */
  ghost predicate SizableLine(lines: seq<Line>, k: nat)
    requires k < |lines|
  {
    var l := lines[k];
    (Entered(l).Some? ==> Entered(l).value in StandardSet() || IsCustom(Entered(l).value))
    && (l.Item? && l.body.Data? ==>
      if IsText(SectionAt(lines, k)) then l.defines.None? && l.body.d.Other? else WellFormedDirective(l.body.d))
    && (l.Item? && l.body.Code? && IsText(SectionAt(lines, k)) ==> WellFormedCode(lines, l.body.t))
  }

  ghost predicate Sizable(lines: seq<Line>)
  {
    (forall k :: 0 <= k < |lines| ==> SizableLine(lines, k))
    && NoDuplicateLabels(lines)
    && Total(lines) < 0x1_0000_0000
  }

  /** A section is entered while nothing is reserved in it yet; a bare `.data` also needs an empty `.rodata`. */
  ghost predicate EntryOk(lines: seq<Line>, k: nat)
    requires k < |lines|
  {
    (Entered(lines[k]).Some? ==> OffsetAt(lines, k, Entered(lines[k]).value) == 0)
    && (lines[k].DotData? ==> OffsetAt(lines, |lines|, ".rodata") == 0)
  }

  ghost predicate Ordered(lines: seq<Line>)
  {
    forall k :: 0 <= k < |lines| ==> EntryOk(lines, k)
  }

  /** The sources on which the two passes agree. */
  ghost predicate WellFormed(lines: seq<Line>)
  {
    Sizable(lines) && Ordered(lines)
  }
}
