/** Data directives on characters: what the first pass counts and what the second pass emits. */
module Directives {
  import opened Words
  import opened Codec
  import opened ByteMemory
  import opened Text

  /** A directive line, split at its keyword; `arg` is the text after the keyword. */
  datatype Directive =
    | Asciiz(arg: string) | Ascii(arg: string)
    | ByteList(arg: string) | HalfList(arg: string) | WordList(arg: string)
    | Space(arg: string) | Other

  // ----- strings -----

  function Unescape(c: char): Option<byte>
  {
    match c
    case 'n' => Some(10)
    case 't' => Some(9)
    case 'r' => Some(13)
    case '\\' => Some(92)
    case '\"' => Some(34)
    case _ => None
  }

  /** The bytes of a string literal up to its closing quote or the end of the line. */
  function ParseEscaped(s: string): Result<seq<byte>>
  {
    if s == "" || s[0] == '\"' then Done([])
    else if s[0] == '\\' then
      if |s| == 1 || Unescape(s[1]) == None then Exit
      else
        var rest :- ParseEscaped(s[2..]);
        Done([Unescape(s[1]).value] + rest)
    else
      var rest :- ParseEscaped(s[1..]);
      Done([s[0] as int % 256] + rest)
  }

  function Prepend(b: seq<byte>, r: Result<seq<byte>>): Result<seq<byte>>
  {
    match r
    case Done(rest) => Done(b + rest)
    case _ => r
  }

  lemma PrependMore(b: seq<byte>, c: byte, r: Result<seq<byte>>)
    ensures Prepend(b, Prepend([c], r)) == Prepend(b + [c], r)
    ensures Prepend([], r) == r
  {
    if r.Done? {
      assert b + ([c] + r.value) == b + [c] + r.value && [] + r.value == r.value;
    }
  }

  /** What one iteration does: an escape takes two characters, any other character one. */
  lemma ParseStep(s: string)
    requires s != "" && s[0] != '\"'
    ensures s[0] == '\\' && (|s| == 1 || Unescape(s[1]) == None) ==> ParseEscaped(s) == Exit
    ensures s[0] == '\\' && |s| > 1 && Unescape(s[1]).Some? ==>
      ParseEscaped(s) == Prepend([Unescape(s[1]).value], ParseEscaped(s[2..]))
    ensures s[0] != '\\' ==> ParseEscaped(s) == Prepend([s[0] as int % 256], ParseEscaped(s[1..]))
  {
  }

  /** `parse_escaped_string`, as a loop over the characters. */
  method ParseEscapedString(src: string) returns (r: Result<seq<byte>>)
    ensures r == ParseEscaped(src)
  {
    hide ParseEscaped, Prepend;
    var out: seq<byte> := [];
    var i := 0;
    assert src[0..] == src;
    PrependMore([], 0, ParseEscaped(src));
    while i < |src| && src[i] != '\"'
      invariant 0 <= i <= |src|
      invariant ParseEscaped(src) == Prepend(out, ParseEscaped(src[i..]))
    {
      ghost var s := src[i..];
      ParseStep(s);
      var c: byte;
      if src[i] == '\\' {
        i := i + 1;
        if i == |src| || Unescape(src[i]) == None {
          assert Prepend(out, Exit) == Exit by { PrependFailure(out); }
          return Exit;
        }
        c := Unescape(src[i]).value;
        assert s[1] == src[i] && s[2..] == src[i + 1..];
      } else {
        c := src[i] as int % 256;
        assert s[1..] == src[i + 1..];
      }
      i := i + 1;
      PrependMore(out, c, ParseEscaped(src[i..]));
      out := out + [c];
    }
    ParseEnd(src[i..], out);
    return Done(out);
  }

  lemma PrependFailure(b: seq<byte>)
    ensures Prepend(b, Exit) == Exit
  {
  }

  lemma ParseEnd(s: string, b: seq<byte>)
    requires s == "" || s[0] == '\"'
    ensures Prepend(b, ParseEscaped(s)) == Done(b)
  {
    assert b + [] == b;
  }

  /** Writing bytes as a literal: the five escapes where they exist, plain characters otherwise. */
  function Escape(b: seq<byte>): string
  {
    if b == [] then ""
    else
      (match b[0]
       case 10 => "\\n"
       case 9 => "\\t"
       case 13 => "\\r"
       case 92 => "\\\\"
       case 34 => "\\\""
       case c => [c as char])
      + Escape(b[1..])
  }

  /** Every byte string can be written as a literal and is read back exactly, whatever follows the quote. */
  lemma {:induction false} EscapeRoundTrip(b: seq<byte>, tail: string)
    ensures ParseEscaped(Escape(b) + "\"" + tail) == Done(b)
  {
    var s := Escape(b) + "\"" + tail;
    if b != [] {
      var rest := Escape(b[1..]) + "\"" + tail;
      EscapeRoundTrip(b[1..], tail);
      if b[0] in {10, 9, 13, 92, 34} {
        assert s[2..] == rest && s[0] == '\\';
      } else {
        assert s[1..] == rest && s[0] as int == b[0];
      }
      assert b == [b[0]] + b[1..];
    }
  }

  /** The position of the opening quote, if any. */
  function FindQuote(s: string): Option<nat>
  {
    if s == "" then None
    else if s[0] == '\"' then Some(0)
    else match FindQuote(s[1..])
      case None => None
      case Some(i) => Some(i + 1)
  }

  lemma {:induction false} QuoteInRange(s: string)
    ensures FindQuote(s).Some? ==> FindQuote(s).value < |s| && s[FindQuote(s).value] == '\"'
  {
    if s != "" { QuoteInRange(s[1..]); }
  }

  function StringBytes(arg: string): Result<seq<byte>>
  {
    QuoteInRange(arg);
    match FindQuote(arg)
    case None => Exit
    case Some(q) => ParseEscaped(arg[q + 1..])
  }

  /** The five escapes and the bytes they stand for. */
  lemma EscapeTable(rest: string)
    ensures ParseEscaped("\\n" + rest) == Prepend([10], ParseEscaped(rest))
    ensures ParseEscaped("\\t" + rest) == Prepend([9], ParseEscaped(rest))
    ensures ParseEscaped("\\r" + rest) == Prepend([13], ParseEscaped(rest))
    ensures ParseEscaped("\\\\" + rest) == Prepend([92], ParseEscaped(rest))
    ensures ParseEscaped("\\\"" + rest) == Prepend([34], ParseEscaped(rest))
  {
    hide ParseEscaped, Prepend;
    OneEscape('n', rest); OneEscape('t', rest); OneEscape('r', rest); OneEscape('\\', rest); OneEscape('\"', rest);
  }

  lemma OneEscape(c: char, rest: string)
    requires Unescape(c).Some?
    ensures ParseEscaped(['\\', c] + rest) == Prepend([Unescape(c).value], ParseEscaped(rest))
  {
    hide ParseEscaped, Prepend, Unescape;
    var s := ['\\', c] + rest;
    ParseStep(s);
    assert s[2..] == rest;
  }

  /** A literal without a closing quote ends with the line. */
  lemma {:induction false} UnclosedLiteral(b: seq<byte>)
    ensures ParseEscaped(Escape(b)) == Done(b)
  {
    var s := Escape(b);
    if b != [] {
      UnclosedLiteral(b[1..]);
      if b[0] in {10, 9, 13, 92, 34} {
        assert s[2..] == Escape(b[1..]) && s[0] == '\\';
      } else {
        assert s[1..] == Escape(b[1..]) && s[0] as int == b[0];
      }
      assert b == [b[0]] + b[1..];
    }
  }

  /** Any other character after a backslash is an error wherever it stands, and so is a backslash at the end. */
  lemma {:induction false} UnknownEscape(b: seq<byte>, tail: string)
    requires tail == "" || tail[0] !in {'n', 't', 'r', '\\', '\"'}
    ensures ParseEscaped(Escape(b) + "\\" + tail) == Exit
  {
    var s := Escape(b) + "\\" + tail;
    if b != [] {
      var rest := Escape(b[1..]) + "\\" + tail;
      UnknownEscape(b[1..], tail);
      if b[0] in {10, 9, 13, 92, 34} {
        assert s[2..] == rest && s[0] == '\\';
      } else {
        assert s[1..] == rest && s[0] as int == b[0];
      }
    }
  }

  lemma {:induction false} FirstQuote(pre: string, rest: string)
    requires forall i :: 0 <= i < |pre| ==> pre[i] != '\"'
    ensures FindQuote(pre + "\"" + rest) == Some(|pre|)
    ensures FindQuote(pre) == None
  {
    if pre == "" {
      assert pre + "\"" + rest == "\"" + rest;
    } else {
      assert (pre + "\"" + rest)[1..] == pre[1..] + "\"" + rest;
      FirstQuote(pre[1..], rest);
    }
  }

  /** A string operand is the bytes of its literal: from the first quote to the next one that is not escaped,
      whatever stands before the one and after the other. Without a quote there is no string. */
  lemma StringOperand(pre: string, b: seq<byte>, tail: string)
    requires forall i :: 0 <= i < |pre| ==> pre[i] != '\"'
    ensures StringBytes(pre + "\"" + (Escape(b) + "\"" + tail)) == Done(b)
    ensures StringBytes(pre + "\"" + Escape(b)) == Done(b)
    ensures StringBytes(pre) == Exit
  {
    hide ParseEscaped, FindQuote, Escape;
    FirstQuote(pre, Escape(b));
    UnclosedLiteral(b);
    assert (pre + "\"" + Escape(b))[|pre| + 1..] == Escape(b);
    var text := Escape(b) + "\"" + tail;
    var s := pre + "\"" + text;
    FirstQuote(pre, text);
    EscapeRoundTrip(b, tail);
    assert s[|pre| + 1..] == text;
  }

  // ----- lists of numbers -----

  predicate Blank(c: char)
  {
    c == ' ' || c == '\t'
  }

  predicate Separator(c: char)
  {
    c == ',' || IsSpace(c)
  }

  /** Spaces and tabs are skipped by the first pass, commas and every white space by the second. */
  lemma SeparatorCharacters(c: char)
    ensures Blank(c) <==> c as int == 32 || c as int == 9
    ensures Separator(c) <==> c as int == 44 || c as int == 32 || 9 <= c as int <= 13
  {
  }

  function ToComma(s: string): (n: nat)
    ensures n <= |s| && (n < |s| ==> s[n] == ',') && forall i :: 0 <= i < n ==> s[i] != ','
  {
    if s == "" || s[0] == ',' then 0 else 1 + ToComma(s[1..])
  }

  /** The operands the first pass counts. */
  function CountList(s: string): nat
    decreases |s|
  {
    if s == "" then 0
    else if Blank(s[0]) || s[0] == ',' then CountList(s[1..])
    else
      var n := ToComma(s);
      1 + if n == |s| then 0 else CountList(s[n + 1..])
  }

  lemma CountStep(s: string)
    requires s != ""
    ensures Blank(s[0]) || s[0] == ',' ==> CountList(s) == CountList(s[1..])
    ensures !(Blank(s[0]) || s[0] == ',') ==>
      CountList(s) == 1 + if ToComma(s) == |s| then 0 else CountList(s[ToComma(s) + 1..])
  {
    hide ToComma, Blank;
  }

  lemma CommaStep(s: string)
    requires s != "" && s[0] != ','
    ensures ToComma(s) == 1 + ToComma(s[1..])
  {
  }

  lemma CommaEnd(s: string)
    requires s == "" || s[0] == ','
    ensures ToComma(s) == 0
  {
  }

  lemma NothingToCount()
    ensures CountList("") == 0
  {
  }

  /** The counting loop of the first pass. */
  method CountOperands(s: string) returns (count: nat)
    ensures count == CountList(s)
  {
    hide CountList, ToComma, Blank;
    NothingToCount();
    count := 0;
    var p := 0;
    assert s[0..] == s;
    while p < |s|
      invariant 0 <= p <= |s|
      invariant count + CountList(s[p..]) == CountList(s)
    {
      ghost var start := p;
      CountStep(s[p..]);
      if !Blank(s[p]) && s[p] != ',' {
        count := count + 1;
        while p < |s| && s[p] != ','
          invariant start <= p <= |s| && ToComma(s[start..]) == p - start + ToComma(s[p..])
        {
          CommaStep(s[p..]);
          assert s[p..][1..] == s[p + 1..];
          p := p + 1;
        }
        CommaEnd(s[p..]);
        assert p < |s| ==> s[start..][p - start + 1..] == s[p + 1..];
      } else {
        assert s[p..][1..] == s[p + 1..];
      }
      if p < |s| {
        p := p + 1;
      }
    }
    assert s[p..] == "";
  }

  const SPAN: string := "0123456789abcdefABCDEFxX-+"

  /** `strspn` over the characters of a number. */
  function Span(s: string): (n: nat)
    ensures n <= |s|
  {
    if s == "" || s[0] !in SPAN then 0 else 1 + Span(s[1..])
  }

  function SkipSeparators(s: string): (n: nat)
    ensures n <= |s|
  {
    if s == "" || !Separator(s[0]) then 0 else 1 + SkipSeparators(s[1..])
  }

  /** The number at the start of the text, and how far the second pass moves past it. */
  function OperandAt(width: nat, labels: seq<Label>, s: string): (r: Result<Number>)
    ensures r.Done? ==> r.value.used <= |s|
  {
    if width == 1 then Done(Strtol(s, 0))
    else
      var v :- ParseImm(labels, s);
      Done(Number(v, Span(s)))
  }

  /** The bytes the second pass emits; `Diverge` where its loop would stop making progress. */
  function ListBytes(width: nat, labels: seq<Label>, s: string): Result<seq<byte>>
    decreases |s|
  {
    if s == "" then Done([])
    else if Blank(s[0]) || s[0] == ',' then
      ListBytes(width, labels, s[SkipSeparators(s)..])
    else
      var n :- OperandAt(width, labels, s);
      var t := s[n.used..];
      var rest := t[SkipSeparators(t)..];
      if |rest| == |s| then Diverge
      else
        var more :- ListBytes(width, labels, rest);
        Done(Bytes(Wrap(n.value), width) + more)
  }

  // ----- well-formed lists -----

  /** One operand with the blanks around it. */
  datatype Operand = Operand(before: string, lit: string, after: string)

  /** Spaces and tabs. */
  predicate Blanks(s: string)
  {
    forall i :: 0 <= i < |s| ==> s[i] == ' ' || s[i] == '\t'
  }

  /** A literal that the second pass consumes as a whole. `.byte` reads with `strtol` in base 0. */
  predicate LiteralOk(width: nat, lit: string)
  {
    if width == 1 then
      lit != "" && (forall i :: 0 <= i < |lit| ==> !Separator(lit[i])) && Strtol(lit, 0).used == |lit|
    else
      Numeric(lit) && forall i :: 0 <= i < |lit| ==> lit[i] in SPAN
  }

  function LiteralValue(width: nat, lit: string): int
  {
    if width == 1 then Strtol(lit, 0).value else NumericValue(lit)
  }

  predicate OperandsOk(width: nat, ops: seq<Operand>)
  {
    forall i :: 0 <= i < |ops| ==> Blanks(ops[i].before) && Blanks(ops[i].after) && LiteralOk(width, ops[i].lit)
  }

  /** The text from the first literal on. */
  function RenderFrom(ops: seq<Operand>): string
    requires ops != []
  {
    ops[0].lit + ops[0].after + if |ops| == 1 then "" else "," + ops[1].before + RenderFrom(ops[1..])
  }

  /** The operand text of a directive: the operands with commas between them. */
  function Render(ops: seq<Operand>): string
  {
    if ops == [] then "" else ops[0].before + RenderFrom(ops)
  }

  /** The values of the operands, little-endian and in order. */
  function OperandBytes(width: nat, ops: seq<Operand>): seq<byte>
  {
    if ops == [] then []
    else Bytes(Wrap(LiteralValue(width, ops[0].lit)), width) + OperandBytes(width, ops[1..])
  }

  lemma {:induction false} OperandBytesLength(width: nat, ops: seq<Operand>)
    ensures |OperandBytes(width, ops)| == width * |ops|
  {
    hide LiteralValue, Bytes;
    if ops != [] {
      OperandBytesLength(width, ops[1..]);
      assert width * |ops| == width + width * (|ops| - 1);
    }
  }

  lemma NumberCharacters()
    ensures forall c :: c in SPAN ==> !Separator(c) && !Blank(c)
  {
  }

  lemma LiteralCharacters(width: nat, lit: string)
    requires LiteralOk(width, lit)
    ensures lit != "" && forall i :: 0 <= i < |lit| ==> !Separator(lit[i])
  {
    NumberCharacters();
  }

  /** Text that ends a number: nothing, or a separator. */
  predicate EndsNumber(t: string)
  {
    t == "" || Separator(t[0])
  }

  lemma {:induction false} RunStable(s: string, t: string, base: nat)
    requires EndsNumber(t) && base <= 36
    ensures DigitRun(s + t, base) == DigitRun(s, base)
  {
    if s == "" {
      assert s + t == t;
    } else {
      assert (s + t)[1..] == s[1..] + t;
      RunStable(s[1..], t, base);
    }
  }

  lemma StrtolStable(lit: string, t: string, base: nat)
    requires lit != "" && !Separator(lit[0]) && EndsNumber(t) && base in {0, 10, 16}
    ensures Strtol(lit + t, base) == Strtol(lit, base)
  {
    var s := lit + t;
    assert s[0] == lit[0];
    var start := if lit[0] == '-' || lit[0] == '+' then 1 else 0;
    assert s[start..] == lit[start..] + t;
    UnsignedStable(lit, t, start, if lit[0] == '-' then -1 else 1, base);
  }

  lemma UnsignedStable(lit: string, t: string, start: nat, sign: int, base: nat)
    requires start <= |lit| && EndsNumber(t) && base in {0, 10, 16}
    ensures Unsigned(lit + t, start, sign, base) == Unsigned(lit, start, sign, base)
  {
    hide Digits;
    var s, rest := lit + t, lit[start..];
    assert s[start..] == rest + t;
    assert HasHexDigits(rest + t) == HasHexDigits(rest);
    if HasHexDigits(rest) { DigitsStable(lit, t, start + 2, sign, 16); }
    DigitsStable(lit, t, start, sign, 8);
    DigitsStable(lit, t, start, sign, 10);
    DigitsStable(lit, t, start, sign, 16);
  }

  lemma DigitsStable(lit: string, t: string, from: nat, sign: int, base: nat)
    requires from <= |lit| && EndsNumber(t) && base <= 36
    ensures Digits(lit + t, from, sign, base) == Digits(lit, from, sign, base)
  {
    hide Value, Clamp64, DigitRun;
    var n := DigitRun(lit[from..], base);
    assert (lit + t)[from..] == lit[from..] + t;
    RunStable(lit[from..], t, base);
    assert (lit + t)[from..from + n] == lit[from..from + n];
  }

  lemma {:induction false} SpanStable(lit: string, t: string)
    requires EndsNumber(t) && forall i :: 0 <= i < |lit| ==> lit[i] in SPAN
    ensures Span(lit + t) == |lit|
  {
    NumberCharacters();
    if lit == "" {
      assert lit + t == t;
    } else {
      assert (lit + t)[1..] == lit[1..] + t;
      SpanStable(lit[1..], t);
    }
  }

  /** A literal is read the same whatever text follows it, and is consumed exactly. */
  lemma OperandStable(width: nat, labels: seq<Label>, lit: string, t: string)
    requires LiteralOk(width, lit) && EndsNumber(t)
    ensures OperandAt(width, labels, lit + t) == Done(Number(LiteralValue(width, lit), |lit|))
  {
    hide Strtol, Span;
    LiteralCharacters(width, lit);
    if width == 1 {
      StrtolStable(lit, t, 0);
    } else {
      StrtolStable(lit, t, 10);
      StrtolStable(lit, t, 16);
      SpanStable(lit, t);
      var s := lit + t;
      assert Numeric(s);
      assert HexPrefix(s) == HexPrefix(lit);
    }
  }

  lemma {:induction false} SeparatorsSkipped(b: string, t: string)
    requires forall i :: 0 <= i < |b| ==> Separator(b[i])
    requires t == "" || !Separator(t[0])
    ensures SkipSeparators(b + t) == |b| && (b + t)[|b|..] == t
  {
    if b == "" {
      assert b + t == t;
    } else {
      assert (b + t)[1..] == b[1..] + t;
      SeparatorsSkipped(b[1..], t);
    }
  }

  lemma {:induction false} CountSkipsBlanks(b: string, t: string)
    requires Blanks(b)
    ensures CountList(b + t) == CountList(t)
  {
    if b == "" {
      assert b + t == t;
    } else {
      assert (b + t)[1..] == b[1..] + t;
      CountSkipsBlanks(b[1..], t);
    }
  }

  lemma {:induction false} CommaFound(a: string, t: string)
    requires forall i :: 0 <= i < |a| ==> a[i] != ','
    requires t == "" || t[0] == ','
    ensures ToComma(a + t) == |a|
  {
    if a == "" {
      assert a + t == t;
    } else {
      assert (a + t)[1..] == a[1..] + t;
      CommaFound(a[1..], t);
    }
  }

  lemma OperandText(width: nat, op: Operand)
    requires Blanks(op.after) && LiteralOk(width, op.lit)
    ensures var a := op.lit + op.after;
      a != "" && !Blank(a[0]) && (forall i :: 0 <= i < |a| ==> a[i] != ',')
  {
    hide LiteralOk;
    LiteralCharacters(width, op.lit);
    assert (op.lit + op.after)[0] == op.lit[0];
  }

  /** One operand is counted and passed over up to its comma. */
  lemma CountNext(a: string, t: string)
    requires a != "" && !Blank(a[0]) && forall i :: 0 <= i < |a| ==> a[i] != ','
    requires t == "" || t[0] == ','
    ensures CountList(a + t) == 1 + if t == "" then 0 else CountList(t[1..])
  {
    hide CountList, ToComma, Blank;
    var s := a + t;
    CommaFound(a, t);
    CountStep(s);
    assert s[0] == a[0];
    assert t != "" ==> s[|a| + 1..] == t[1..];
  }

  lemma {:induction false} CountRendered(width: nat, ops: seq<Operand>)
    requires ops != [] && OperandsOk(width, ops)
    ensures CountList(RenderFrom(ops)) == |ops|
  {
    hide LiteralOk, CountList, Blank, Blanks;
    var a := ops[0].lit + ops[0].after;
    OperandText(width, ops[0]);
    if |ops| == 1 {
      CountNext(a, "");
      assert a + "" == a == RenderFrom(ops);
    } else {
      var t := "," + ops[1].before + RenderFrom(ops[1..]);
      CountNext(a, t);
      assert RenderFrom(ops) == a + t;
      assert t[1..] == ops[1].before + RenderFrom(ops[1..]);
      CountSkipsBlanks(ops[1].before, RenderFrom(ops[1..]));
      CountRendered(width, ops[1..]);
    }
  }

  /** One iteration of the emitting loop on a well-formed literal. */
  lemma EmitStep(width: nat, labels: seq<Label>, lit: string, t: string, rest: string)
    requires LiteralOk(width, lit) && EndsNumber(t) && rest == t[SkipSeparators(t)..]
    requires ListBytes(width, labels, rest).Done?
    ensures ListBytes(width, labels, lit + t)
         == Done(Bytes(Wrap(LiteralValue(width, lit)), width) + ListBytes(width, labels, rest).value)
  {
    hide OperandAt, LiteralValue, LiteralOk, Bytes, Wrap;
    var s := lit + t;
    LiteralCharacters(width, lit);
    assert s[0] == lit[0] && s[|lit|..] == t;
    OperandStable(width, labels, lit, t);
  }

  lemma {:induction false} BytesRendered(width: nat, labels: seq<Label>, ops: seq<Operand>)
    requires ops != [] && OperandsOk(width, ops)
    ensures ListBytes(width, labels, RenderFrom(ops)) == Done(OperandBytes(width, ops))
  {
    hide LiteralValue, LiteralOk, Bytes, Wrap, ListBytes, RenderFrom;
    if |ops| == 1 {
      LastRendered(width, labels, ops);
      var b := Bytes(Wrap(LiteralValue(width, ops[0].lit)), width);
      assert OperandBytes(width, ops) == b + [] == b;
    } else {
      BytesRendered(width, labels, ops[1..]);
      NextRendered(width, labels, ops);
    }
  }

  lemma LastRendered(width: nat, labels: seq<Label>, ops: seq<Operand>)
    requires |ops| == 1 && OperandsOk(width, ops)
    ensures ListBytes(width, labels, RenderFrom(ops)) == Done(Bytes(Wrap(LiteralValue(width, ops[0].lit)), width))
  {
    hide LiteralValue, LiteralOk, Bytes, Wrap, ListBytes;
    var t := ops[0].after;
    SeparatorsSkipped(t, "");
    assert t + "" == t && RenderFrom(ops) == ops[0].lit + t;
    EmptyList(width, labels);
    EmitStep(width, labels, ops[0].lit, t, "");
    var b := Bytes(Wrap(LiteralValue(width, ops[0].lit)), width);
    assert b + [] == b;
  }

  lemma NextRendered(width: nat, labels: seq<Label>, ops: seq<Operand>)
    requires |ops| > 1 && OperandsOk(width, ops) && ListBytes(width, labels, RenderFrom(ops[1..])).Done?
    ensures ListBytes(width, labels, RenderFrom(ops)) ==
      Done(Bytes(Wrap(LiteralValue(width, ops[0].lit)), width) + ListBytes(width, labels, RenderFrom(ops[1..])).value)
  {
    hide LiteralValue, LiteralOk, Bytes, Wrap, ListBytes;
    var next := RenderFrom(ops[1..]);
    var gap := ops[0].after + "," + ops[1].before;
    LiteralCharacters(width, ops[1].lit);
    assert next[0] == ops[1].lit[0];
    SeparatorsSkipped(gap, next);
    EmitStep(width, labels, ops[0].lit, gap + next, next);
    assert RenderFrom(ops) == ops[0].lit + (gap + next);
  }

  lemma EmptyList(width: nat, labels: seq<Label>)
    ensures ListBytes(width, labels, "") == Done([])
  {
  }

  /** Both passes agree on a well-formed list: the first counts its operands, the second emits each
      value little-endian and in order, and its loop ends. */
  lemma ListsAgree(width: nat, labels: seq<Label>, ops: seq<Operand>)
    requires OperandsOk(width, ops)
    ensures CountList(Render(ops)) == |ops|
    ensures ListBytes(width, labels, Render(ops)) == Done(OperandBytes(width, ops))
  {
    if ops != [] {
      CountSkipsBlanks(ops[0].before, RenderFrom(ops));
      CountRendered(width, ops);
      BytesRendered(width, labels, ops);
      LiteralCharacters(width, ops[0].lit);
      assert RenderFrom(ops)[0] == ops[0].lit[0];
      if ops[0].before == "" {
        assert Render(ops) == RenderFrom(ops);
      } else {
        SeparatorsSkipped(ops[0].before, RenderFrom(ops));
      }
    }
  }

  // ----- whole directives -----

  /** `sscanf("%d")` on the operand of `.space`. */
  function SpaceCount(arg: string): Option<i32>
  {
    var r := Strtol(arg, 10);
    if r.used == 0 then None else Some(WrapSigned(r.value))
  }

  /** The bytes that the first pass counts for a directive. */
  function DirectiveSize(d: Directive): Result<int>
  {
    match d
    case Asciiz(arg) => var b :- StringBytes(arg); Done(|b| + 1)
    case Ascii(arg) => var b :- StringBytes(arg); Done(|b|)
    case ByteList(arg) => Done(CountList(arg))
    case HalfList(arg) => Done(2 * CountList(arg))
    case WordList(arg) => Done(4 * CountList(arg))
    case Space(arg) => (match SpaceCount(arg) case None => Done(0) case Some(n) => Done(n))
    case Other => Done(0)
  }

  /** The bytes that the second pass emits for a directive. */
  function DirectiveBytes(labels: seq<Label>, d: Directive): Result<seq<byte>>
  {
    match d
    case Asciiz(arg) => var b :- StringBytes(arg); Done(b + [0])
    case Ascii(arg) => StringBytes(arg)
    case ByteList(arg) => ListBytes(1, labels, arg)
    case HalfList(arg) => ListBytes(2, labels, arg)
    case WordList(arg) => ListBytes(4, labels, arg)
    case Space(arg) =>
      (match SpaceCount(arg)
       case None => Done([])
       case Some(n) => Done(if n <= 0 then [] else seq(n, _ => 0)))
    case Other => Done([])
  }

  /** `.asciiz` reserves and emits the bytes of its literal and a zero, `.ascii` the bytes alone; without a quote
      both are errors in both passes. */
  lemma StringDirectives(pre: string, b: seq<byte>, tail: string, labels: seq<Label>)
    requires forall i :: 0 <= i < |pre| ==> pre[i] != '\"'
    ensures var s := pre + "\"" + (Escape(b) + "\"" + tail);
      DirectiveBytes(labels, Asciiz(s)) == Done(b + [0]) && DirectiveSize(Asciiz(s)) == Done(|b| + 1)
      && DirectiveBytes(labels, Ascii(s)) == Done(b) && DirectiveSize(Ascii(s)) == Done(|b|)
    ensures DirectiveBytes(labels, Asciiz(pre)) == DirectiveBytes(labels, Ascii(pre)) == Exit
    ensures DirectiveSize(Asciiz(pre)) == DirectiveSize(Ascii(pre)) == Exit
  {
    hide StringBytes, Escape;
    StringOperand(pre, b, tail);
  }

  /** `.byte`, `.half` and `.word` reserve and emit one, two and four bytes for each operand. */
  lemma ListDirectives(width: nat, ops: seq<Operand>, labels: seq<Label>)
    requires OperandsOk(width, ops)
    ensures width == 1 ==>
      (DirectiveSize(ByteList(Render(ops))) == Done(|ops|)
       && DirectiveBytes(labels, ByteList(Render(ops))) == Done(OperandBytes(1, ops)))
    ensures width == 2 ==>
      (DirectiveSize(HalfList(Render(ops))) == Done(2 * |ops|)
       && DirectiveBytes(labels, HalfList(Render(ops))) == Done(OperandBytes(2, ops)))
    ensures width == 4 ==>
      (DirectiveSize(WordList(Render(ops))) == Done(4 * |ops|)
       && DirectiveBytes(labels, WordList(Render(ops))) == Done(OperandBytes(4, ops)))
  {
    hide OperandsOk, Render, CountList, ListBytes, OperandBytes;
    ListsAgree(width, labels, ops);
  }

  predicate StartsName(s: string)
  {
    s != "" && ('a' <= s[0] <= 'z' || 'A' <= s[0] <= 'Z' || s[0] == '_' || s[0] == '.')
  }

  lemma NameIsNoNumber(s: string)
    requires StartsName(s)
    ensures Strtol(s, 0) == Number(0, 0) && !Numeric(s) && !HexPrefix(s)
    ensures !Blank(s[0]) && s[0] != ',' && SkipSeparators(s) == 0
  {
    hide Digits;
    assert s[0..] == s;
    NoDigits(s);
  }

  lemma NoDigits(s: string)
    requires s != "" && (DigitOf(s[0]) >= 10)
    ensures Digits(s, 0, 1, 10) == Number(0, 0)
  {
    assert s[0..] == s;
  }

  /** A word that is no number: `.byte` makes no progress on it, `.half` and `.word` look it up as a label. */
  lemma ListOfNames(labels: seq<Label>, s: string)
    requires StartsName(s)
    ensures ListBytes(1, labels, s) == Diverge
    ensures FindLabel(labels, s) == None ==> ListBytes(2, labels, s) == Exit && ListBytes(4, labels, s) == Exit
  {
    hide Strtol, Numeric, HexPrefix, StartsName, Bytes, Blank, Separator, Span, FindLabel, SkipSeparators;
    assert s != "" by { NameStarts(s); }
    NameIsNoNumber(s);
    assert s[0..] == s;
  }

  lemma NameStarts(s: string)
    requires StartsName(s)
    ensures s != ""
  {
  }

  ghost predicate WellFormedList(width: nat, arg: string)
  {
    exists ops :: OperandsOk(width, ops) && Render(ops) == arg
  }

  ghost predicate WellFormedDirective(d: Directive)
  {
    match d
    case Asciiz(arg) => StringBytes(arg).Done?
    case Ascii(arg) => StringBytes(arg).Done?
    case ByteList(arg) => WellFormedList(1, arg)
    case HalfList(arg) => WellFormedList(2, arg)
    case WordList(arg) => WellFormedList(4, arg)
    case Space(arg) => SpaceCount(arg).Some? ==> SpaceCount(arg).value >= 0
    case Other => true
  }

  /** For every well-formed directive the second pass emits exactly as many bytes as the first counted. */
  lemma DirectivesAgree(labels: seq<Label>, d: Directive)
    requires WellFormedDirective(d)
    ensures DirectiveSize(d).Done? && DirectiveBytes(labels, d).Done?
    ensures |DirectiveBytes(labels, d).value| == DirectiveSize(d).value
  {
    if d.ByteList? || d.HalfList? || d.WordList? {
      var width := if d.ByteList? then 1 else if d.HalfList? then 2 else 4;
      var ops :| OperandsOk(width, ops) && Render(ops) == d.arg;
      ListsAgree(width, labels, ops);
      OperandBytesLength(width, ops);
    }
  }
}
