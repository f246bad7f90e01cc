/** What the texts of numbers and registers are worth, stated with printers of its own: decimal, hexadecimal and
octal literals, register names, and the operand of `.space`. */
module Numerals {
  import opened Words
  import opened Codec
  import opened Text
  import opened Directives

  // ----- printers -----

  function DigitChar(d: nat, upper: bool): char
    requires d < 16
  {
    if d < 10 then ('0' as int + d) as char
    else if upper then ('A' as int + (d - 10)) as char
    else ('a' as int + (d - 10)) as char
  }

  /** The octal or hexadecimal text of a natural number, without prefix or leading zeros. */
  function PrintIn(n: nat, base: nat, upper: bool): (s: string)
    requires base == 8 || base == 16
    ensures |s| >= 1
  {
    if n < base then [DigitChar(n, upper)] else PrintIn(n / base, base, upper) + [DigitChar(n % base, upper)]
  }

  predicate DigitsOf(s: string, base: nat)
  {
    s != "" && forall i :: 0 <= i < |s| ==> DigitOf(s[i]) < base
  }

  lemma DigitCharReads(d: nat, upper: bool)
    requires d < 16
    ensures DigitOf(DigitChar(d, upper)) == d
  {
  }

  /** Printed numbers read back as printed. */
  lemma {:induction false} PrintInReads(n: nat, base: nat, upper: bool)
    requires base == 8 || base == 16
    ensures DigitsOf(PrintIn(n, base, upper), base) && Value(PrintIn(n, base, upper), base) == n
  {
    hide DigitChar, DigitOf;
    var s := PrintIn(n, base, upper);
    DigitCharReads(n % base, upper);
    if n < base {
      assert s[..0] == "" && Value("", base) == 0;
    } else {
      var t := PrintIn(n / base, base, upper);
      PrintInReads(n / base, base, upper);
      assert s[..|s| - 1] == t;
      QuotientAndDigit(n, base);
    }
  }

  lemma QuotientAndDigit(n: nat, base: nat)
    requires base == 8 || base == 16
    ensures n / base * base + n % base == n
  {
  }

  function Signed10(negative: bool): string
  {
    if negative then "-" else ""
  }

  function SignedBy(n: nat, negative: bool): int
  {
    var m: int := n;
    if negative then -m else m
  }

  // ----- what the number conversion makes of digits -----

  lemma {:induction false} RunOfBase(s: string, base: nat)
    requires forall i :: 0 <= i < |s| ==> DigitOf(s[i]) < base
    ensures DigitRun(s, base) == |s|
  {
    if s != "" { RunOfBase(s[1..], base); }
  }

  /** The digits at the end of a text are converted as a whole. */
  lemma DigitsToEnd(s: string, from: nat, sign: int, base: nat)
    requires from < |s| && DigitsOf(s[from..], base)
    ensures Digits(s, from, sign, base) == Number(Clamp64(sign * Value(s[from..], base)), |s|)
  {
    hide Value, Clamp64, DigitOf;
    RunOfBase(s[from..], base);
    assert s[from..from + |s[from..]|] == s[from..];
  }

  lemma SignSkipped(negative: bool, t: string, base: nat)
    requires t != "" && !IsSpace(t[0]) && t[0] != '-' && t[0] != '+'
    ensures var s := Signed10(negative) + t;
      Strtol(s, base) == Unsigned(s, |Signed10(negative)|, if negative then -1 else 1, base)
    ensures (Signed10(negative) + t)[|Signed10(negative)|..] == t
  {
    hide Unsigned;
    var s := Signed10(negative) + t;
    assert s[0] == if negative then '-' else t[0];
    assert !IsSpace(s[0]);
  }

  /** `0x` and `0X` text, in base 16 and in base 0. */
  lemma StrtolHex(t: string, bigX: bool, negative: bool, base: nat)
    requires DigitsOf(t, 16) && (base == 0 || base == 16)
    ensures var s := Signed10(negative) + ((if bigX then "0X" else "0x") + t);
      Strtol(s, base) == Number(Clamp64((if negative then -1 else 1) * Value(t, 16)), |s|)
  {
    hide Digits, Strtol, Unsigned, Value, DigitOf, Clamp64;
    var prefix := if bigX then "0X" else "0x";
    var sign := Signed10(negative);
    var s := sign + (prefix + t);
    var factor := if negative then -1 else 1;
    SignSkipped(negative, prefix + t, base);
    PrefixSkipped(s, |sign|, prefix, t, factor, base);
    DigitsToEnd(s, |sign| + 2, factor, 16);
  }

  lemma PrefixSkipped(s: string, start: nat, prefix: string, t: string, sign: int, base: nat)
    requires DigitsOf(t, 16) && (base == 0 || base == 16) && (prefix == "0x" || prefix == "0X")
    requires start <= |s| && s[start..] == prefix + t
    ensures start + 2 < |s| && s[start + 2..] == t
    ensures Unsigned(s, start, sign, base) == Digits(s, start + 2, sign, 16)
  {
    hide Digits, DigitOf;
    var rest := s[start..];
    assert rest[2] == t[0];
    assert s[start + 2..] == rest[2..] == t;
  }

  /** A leading zero makes base 0 read octal. */
  lemma StrtolOctal(t: string, negative: bool)
    requires DigitsOf(t, 8)
    ensures var s := Signed10(negative) + ("0" + t);
      Strtol(s, 0) == Number(Clamp64((if negative then -1 else 1) * Value(t, 8)), |s|)
  {
    hide Digits, Strtol, Value, Clamp64;
    var sign := Signed10(negative);
    var s := sign + ("0" + t);
    SignSkipped(negative, "0" + t, 0);
    assert ("0" + t)[1] == t[0];
    assert s[|sign|..] == "0" + t;
    DigitsToEnd(s, |sign|, if negative then -1 else 1, 8);
    LeadingZero(t, 8);
  }

  lemma {:induction false} LeadingZero(t: string, base: nat)
    ensures Value("0" + t, base) == Value(t, base)
  {
    var s := "0" + t;
    if t == "" {
      assert s[..0] == "";
      assert Value("", base) == 0 && DigitOf('0') == 0;
    } else {
      assert s[..|s| - 1] == "0" + t[..|t| - 1];
      LeadingZero(t[..|t| - 1], base);
    }
  }

  /** Decimal text without a leading zero, in base 0 and in base 10. */
  lemma StrtolPlain(t: string, negative: bool, base: nat)
    requires DigitsOf(t, 10) && t[0] != '0' && (base == 0 || base == 10)
    ensures var s := Signed10(negative) + t;
      Strtol(s, base) == Number(Clamp64((if negative then -1 else 1) * Value(t, 10)), |s|)
  {
    hide Digits, Strtol, Value, Clamp64;
    SignSkipped(negative, t, base);
    DigitsToEnd(Signed10(negative) + t, |Signed10(negative)|, if negative then -1 else 1, 10);
  }

  // ----- immediates -----

  /** A number of any size as `int32_t`: the conversion saturates at 64 bits and the cast keeps 32. */
  function Reduced(n: int): i32
  {
    if n > 0x7FFF_FFFF_FFFF_FFFF then -1 else if n < -0x8000_0000_0000_0000 then 0 else WrapSigned(n)
  }

  lemma ReducedClamp(n: int)
    ensures WrapSigned(Clamp64(n)) == Reduced(n)
  {
    assert Wrap(0x7FFF_FFFF_FFFF_FFFF) == 0xFFFF_FFFF;
    assert Wrap(-0x8000_0000_0000_0000) == 0;
  }

  lemma ReducedWord(n: u32)
    ensures Reduced(n) == Signed(n)
  {
    assert Wrap(n) == n;
  }

  function HexText(n: nat, bigX: bool, upper: bool, negative: bool): string
  {
    Signed10(negative) + ((if bigX then "0X" else "0x") + PrintIn(n, 16, upper))
  }

  /** A hexadecimal literal is worth its number: for `0x` and `0X`, either case of digits, with or without a minus
      sign, whatever labels exist. */
  lemma HexLiteral(n: nat, bigX: bool, upper: bool, negative: bool, labels: seq<Label>)
    ensures var s := HexText(n, bigX, upper, negative);
      ParseImm(labels, s) == Done(Reduced(SignedBy(n, negative)))
      && Numeric(s) && NumericValue(s) == Reduced(SignedBy(n, negative))
  {
    hide Strtol, Value, Clamp64, PrintIn, DigitsOf, Reduced;
    var t := PrintIn(n, 16, upper);
    var s := HexText(n, bigX, upper, negative);
    PrintInReads(n, 16, upper);
    StrtolHex(t, bigX, negative, 16);
    ReducedClamp(SignedBy(n, negative));
    assert s[|Signed10(negative)|] == '0' && s[|Signed10(negative)| + 1] == if bigX then 'X' else 'x';
    assert HexPrefix(s) && Numeric(s);
  }

  /** ... in particular for every 32-bit word. */
  lemma HexWord(n: u32, bigX: bool, upper: bool, labels: seq<Label>)
    ensures var s := (if bigX then "0X" else "0x") + PrintIn(n, 16, upper);
      ParseImm(labels, s) == Done(Signed(n)) && Numeric(s) && NumericValue(s) == Signed(n)
  {
    hide ParseImm, Numeric, NumericValue, PrintIn;
    HexLiteral(n, bigX, upper, false, labels);
    ReducedWord(n);
    var s := (if bigX then "0X" else "0x") + PrintIn(n, 16, upper);
    assert HexText(n, bigX, upper, false) == s by { assert "" + s == s; }
  }

  function DecimalText(n: nat, negative: bool): string
  {
    Signed10(negative) + PrintNat(n)
  }

  /** A decimal literal of any size is worth its number. */
  lemma DecimalLiteral(n: nat, negative: bool, labels: seq<Label>)
    ensures var s := DecimalText(n, negative);
      ParseImm(labels, s) == Done(Reduced(SignedBy(n, negative)))
      && Numeric(s) && NumericValue(s) == Reduced(SignedBy(n, negative))
  {
    hide Strtol, Value, Clamp64, PrintNat, Reduced;
    var t, sign := PrintNat(n), Signed10(negative);
    var s := DecimalText(n, negative);
    PrintNatReads(n);
    StrtolDecimal(t, negative);
    assert !negative ==> s == t;
    ReducedClamp(SignedBy(n, negative));
    assert s[|sign|] == t[0] && (|s| > |sign| + 1 ==> s[|sign| + 1] == t[1]);
    assert !HexPrefix(s) && Numeric(s);
  }

  /** An operand that starts with neither a digit nor a minus sign and a digit is a label and nothing else. */
  lemma NameIsLabel(labels: seq<Label>, s: string)
    requires s != "" && !('0' <= s[0] <= '9') && !(s[0] == '-' && |s| > 1 && '0' <= s[1] <= '9')
    ensures ParseImm(labels, s) == match FindLabel(labels, s) case Some(a) => Done(Signed(a)) case None => Exit
    ensures !Numeric(s)
  {
  }

  /** Any other operand is a number, and no label can change what it is worth. */
  lemma NumberIsNoLabel(labels: seq<Label>, s: string)
    requires s == "" || '0' <= s[0] <= '9' || (s[0] == '-' && |s| > 1 && '0' <= s[1] <= '9')
    ensures ParseImm(labels, s).Done? && ParseImm(labels, s) == ParseImm([], s)
    ensures s == "" ==> ParseImm(labels, s) == Done(0)
  {
    hide Strtol;
  }

  // ----- literals of number lists -----

  lemma SpanExact(c: char)
    ensures c in SPAN <==>
      '0' <= c <= '9' || 'a' <= c <= 'f' || 'A' <= c <= 'F' || c == 'x' || c == 'X' || c == '-' || c == '+'
  {
  }

  lemma DigitCharacters(s: string, i: nat)
    requires DigitsOf(s, 16) && i < |s|
    ensures '0' <= s[i] <= '9' || 'a' <= s[i] <= 'f' || 'A' <= s[i] <= 'F'
  {
    assert DigitOf(s[i]) < 16;
  }

  /** Hexadecimal literals are consumed as a whole by `.half` and `.word`, and hold their value. */
  lemma HexWordLiteral(width: nat, n: nat, bigX: bool, upper: bool, negative: bool)
    requires width == 2 || width == 4
    ensures var s := HexText(n, bigX, upper, negative);
      LiteralOk(width, s) && LiteralValue(width, s) == Reduced(SignedBy(n, negative))
  {
    hide NumericValue, Numeric, PrintIn, Reduced, HexText;
    HexLiteral(n, bigX, upper, negative, []);
    HexInSpan(n, bigX, upper, negative);
  }

  /** So are decimal ones. */
  lemma DecimalWordLiteral(width: nat, n: nat, negative: bool)
    requires width == 2 || width == 4
    ensures var s := DecimalText(n, negative);
      LiteralOk(width, s) && LiteralValue(width, s) == Reduced(SignedBy(n, negative))
  {
    hide NumericValue, Numeric, Reduced, DecimalText;
    DecimalLiteral(n, negative, []);
    DecimalInSpan(n, negative);
  }

  lemma HexInSpan(n: nat, bigX: bool, upper: bool, negative: bool)
    ensures var s := HexText(n, bigX, upper, negative);
      forall i :: 0 <= i < |s| ==> s[i] in SPAN
  {
    hide PrintIn, DigitsOf, Value;
    var s, t := HexText(n, bigX, upper, negative), PrintIn(n, 16, upper);
    PrintInReads(n, 16, upper);
    forall i | 0 <= i < |s| ensures s[i] in SPAN {
      SpanExact(s[i]);
      var from := |Signed10(negative)| + 2;
      if i >= from {
        assert s[i] == t[i - from];
        DigitCharacters(t, i - from);
      }
    }
  }

  lemma DecimalInSpan(n: nat, negative: bool)
    ensures var s := DecimalText(n, negative);
      forall i :: 0 <= i < |s| ==> s[i] in SPAN
  {
    hide PrintNat, Value;
    var s, t := DecimalText(n, negative), PrintNat(n);
    PrintNatReads(n);
    forall i | 0 <= i < |s| ensures s[i] in SPAN {
      SpanExact(s[i]);
      var from := |Signed10(negative)|;
      if i >= from { assert s[i] == t[i - from]; }
    }
  }

  /** `.byte` reads `0x` text as hexadecimal, a leading zero as octal, and anything else as decimal. */
  lemma ByteLiterals(n: nat, bigX: bool, upper: bool, negative: bool)
    ensures var v := Clamp64(SignedBy(n, negative));
      var hex, octal := HexText(n, bigX, upper, negative), Signed10(negative) + ("0" + PrintIn(n, 8, upper));
      LiteralOk(1, hex) && LiteralValue(1, hex) == v && LiteralOk(1, octal) && LiteralValue(1, octal) == v
      && (n > 0 ==> LiteralOk(1, DecimalText(n, negative)) && LiteralValue(1, DecimalText(n, negative)) == v)
  {
    hide Strtol, Value, PrintIn, PrintNat, Clamp64, DigitsOf;
    PrintInReads(n, 16, upper);
    PrintInReads(n, 8, upper);
    StrtolHex(PrintIn(n, 16, upper), bigX, negative, 0);
    StrtolOctal(PrintIn(n, 8, upper), negative);
    HexInSpan(n, bigX, upper, negative);
    OctalInSpan(n, upper, negative);
    NumberCharacters();
    if n > 0 {
      PrintNatReads(n);
      DecimalDigits(n);
      StrtolPlain(PrintNat(n), negative, 0);
      DecimalInSpan(n, negative);
    }
  }

  lemma OctalInSpan(n: nat, upper: bool, negative: bool)
    ensures var s := Signed10(negative) + ("0" + PrintIn(n, 8, upper));
      forall i :: 0 <= i < |s| ==> s[i] in SPAN
  {
    hide PrintIn, Value;
    var t := PrintIn(n, 8, upper);
    var s := Signed10(negative) + ("0" + t);
    PrintInReads(n, 8, upper);
    forall i | 0 <= i < |s| ensures s[i] in SPAN {
      SpanExact(s[i]);
      var from := |Signed10(negative)| + 1;
      if i >= from { assert s[i] == t[i - from] && DigitOf(t[i - from]) < 8; }
    }
  }

  lemma DecimalDigits(n: nat)
    requires n > 0
    ensures DigitsOf(PrintNat(n), 10) && PrintNat(n)[0] != '0'
  {
    hide PrintNat, Value;
    PrintNatReads(n);
    assert PrintNat(n) != "0" by { ZeroValue(); }
  }

  lemma ZeroValue()
    ensures Value("0", 10) == 0
  {
    assert "0"[..0] == "";
  }

  // ----- the operand of .space -----

  /** `.space` takes the decimal number after any white space. */
  lemma SpaceOperand(blanks: string, n: nat, negative: bool, tail: string)
    requires forall i :: 0 <= i < |blanks| ==> blanks[i] == ' ' || 9 <= blanks[i] as int <= 13
    requires tail == "" || !('0' <= tail[0] <= '9')
    ensures SpaceCount(blanks + (DecimalText(n, negative) + tail)) == Some(Reduced(SignedBy(n, negative)))
  {
    hide Value, Clamp64, PrintNat, Reduced, Unsigned, WrapSigned;
    var t := DecimalText(n, negative) + tail;
    var sign := Signed10(negative);
    PrintNatReads(n);
    assert t == sign + (PrintNat(n) + tail);
    assert t[0] == if negative then '-' else PrintNat(n)[0];
    BlanksSkipped(blanks, t);
    var s := blanks + t;
    var start := |blanks| + |sign|;
    assert s[|blanks|] == t[0] && s[start..] == PrintNat(n) + tail;
    NumberThenTail(s, start, n, if negative then -1 else 1, tail);
    ReducedClamp(SignedBy(n, negative));
  }

  lemma {:induction false} BlanksSkipped(blanks: string, t: string)
    requires forall i :: 0 <= i < |blanks| ==> blanks[i] == ' ' || 9 <= blanks[i] as int <= 13
    requires t != "" && !IsSpace(t[0])
    ensures SkipSpaces(blanks + t) == |blanks|
  {
    if blanks == "" {
      assert blanks + t == t;
    } else {
      assert (blanks + t)[1..] == blanks[1..] + t;
      BlanksSkipped(blanks[1..], t);
    }
  }

  lemma NumberThenTail(s: string, start: nat, n: nat, sign: int, tail: string)
    requires start <= |s| && s[start..] == PrintNat(n) + tail && (tail == "" || !('0' <= tail[0] <= '9'))
    ensures var r := Unsigned(s, start, sign, 10);
      r.used > 0 && r.value == Clamp64(sign * n)
  {
    hide Value, Clamp64, PrintNat, DigitRun;
    PrintNatReads(n);
    RunThenTail(PrintNat(n), tail);
    assert s[start..start + |PrintNat(n)|] == PrintNat(n);
  }

  lemma {:induction false} RunThenTail(t: string, tail: string)
    requires forall i :: 0 <= i < |t| ==> IsDigit(t[i])
    requires tail == "" || !('0' <= tail[0] <= '9')
    ensures DigitRun(t + tail, 10) == |t|
  {
    if t == "" {
      assert t + tail == tail;
    } else {
      assert (t + tail)[1..] == t[1..] + tail;
      RunThenTail(t[1..], tail);
    }
  }

  /** The directive reserves and emits as many zeros; a negative number moves the offset back and emits nothing. */
  lemma SpaceDirective(blanks: string, n: nat, tail: string, labels: seq<Label>)
    requires forall i :: 0 <= i < |blanks| ==> blanks[i] == ' ' || 9 <= blanks[i] as int <= 13
    requires n < 0x8000_0000 && (tail == "" || !('0' <= tail[0] <= '9'))
    ensures var d := Space(blanks + (PrintNat(n) + tail));
      DirectiveSize(d) == Done(n) && DirectiveBytes(labels, d) == Done(seq(n, _ => 0))
    ensures var d := Space(blanks + ("-" + PrintNat(n) + tail));
      DirectiveSize(d) == Done(SignedBy(n, true)) && DirectiveBytes(labels, d) == Done([])
  {
    hide SpaceCount, PrintNat, Reduced;
    SpaceOperand(blanks, n, false, tail);
    SpaceOperand(blanks, n, true, tail);
    ReducedWord(n);
    ReducedNegative(n);
    assert DecimalText(n, false) == PrintNat(n);
    assert n == 0 ==> seq(n, _ => 0) == [];
  }

  /** A plus sign before a digit makes no difference but for its own place. */
  lemma PlusSign(t: string, base: nat)
    requires t != "" && '0' <= t[0] <= '9' && (base == 0 || base == 10 || base == 16)
    ensures Strtol("+" + t, base) == Number(Strtol(t, base).value, Strtol(t, base).used + 1)
    ensures SpaceCount("+" + t) == SpaceCount(t)
  {
    hide Unsigned;
    assert !IsSpace(t[0]) && ("+" + t)[0] == '+';
    PlusShifts(t, base);
    PlusShifts(t, 10);
  }

  lemma PlusShifts(t: string, base: nat)
    requires t != "" && '0' <= t[0] <= '9' && (base == 0 || base == 10 || base == 16)
    ensures var r := Unsigned(t, 0, 1, base);
      r.used > 0 && Unsigned("+" + t, 1, 1, base) == Number(r.value, r.used + 1)
  {
    hide Digits;
    var s := "+" + t;
    assert s[1..] == t && t[0..] == t;
    DigitsShift(t, 0, 8);
    DigitsShift(t, 0, 10);
    DigitsShift(t, 0, 16);
    SomeDigits(t);
    if HasHexDigits(t) {
      DigitsShift(t, 2, 16);
      assert DigitRun(t[2..], 16) > 0;
      assert Digits(t, 2, 1, 16).used > 0 by { UsedDigits(t, 2, 16); }
    }
  }

  lemma DigitsShift(t: string, from: nat, base: nat)
    requires from <= |t|
    ensures var r := Digits(t, from, 1, base);
      Digits("+" + t, from + 1, 1, base) == if r.used > 0 then Number(r.value, r.used + 1) else r
  {
    hide Value, Clamp64, DigitRun;
    var s := "+" + t;
    assert s[from + 1..] == t[from..];
    var n := DigitRun(t[from..], base);
    assert s[from + 1..from + 1 + n] == t[from..from + n];
  }

  lemma UsedDigits(t: string, from: nat, base: nat)
    requires from <= |t| && DigitRun(t[from..], base) > 0
    ensures Digits(t, from, 1, base).used > 0
  {
  }

  lemma SomeDigits(t: string)
    requires t != "" && '0' <= t[0] <= '9'
    ensures Digits(t, 0, 1, 10).used > 0 && Digits(t, 0, 1, 16).used > 0
    ensures t[0] == '0' ==> Digits(t, 0, 1, 8).used > 0
  {
    assert t[0..] == t;
  }

  lemma ReducedNegative(n: nat)
    requires n <= 0x8000_0000
    ensures Reduced(SignedBy(n, true)) == SignedBy(n, true)
  {
  }

  /** Without a number the directive does nothing. */
  lemma SpaceOfName(arg: string, labels: seq<Label>)
    requires StartsName(arg)
    ensures DirectiveSize(Space(arg)) == Done(0) && DirectiveBytes(labels, Space(arg)) == Done([])
  {
    hide Digits, StartsName;
    NameStarts(arg);
    NameIsNoNumber(arg);
    NameHasNoDigits(arg);
  }

  lemma NameHasNoDigits(s: string)
    requires StartsName(s)
    ensures Strtol(s, 10).used == 0
  {
    hide Digits;
    assert s[0..] == s;
    NoDigits(s);
  }

  // ----- register names -----

  /** The characters of a register name, by code: digits, capitals, small letters. */
  lemma NameCharacters(c: char)
    ensures IsAlnum(c) <==> 48 <= c as int <= 57 || 65 <= c as int <= 90 || 97 <= c as int <= 122
  {
  }

  predicate AlnumText(s: string)
  {
    forall i :: 0 <= i < |s| ==> IsAlnum(s[i])
  }

  lemma {:induction false} NameThenTail(name: string, tail: string)
    requires AlnumText(name) && (tail == "" || !IsAlnum(tail[0]))
    ensures AlnumPrefix(name + tail) == name
  {
    if name == "" {
      assert name + tail == tail;
    } else {
      assert (name + tail)[1..] == name[1..] + tail;
      NameThenTail(name[1..], tail);
      assert name == [name[0]] + name[1..];
    }
  }

  /** The part of a name that fits the buffer. */
  function Kept(name: string, room: nat): (s: string)
    ensures |name| <= room ==> s == name
  {
    if |name| <= room then name else name[..room]
  }

  /** A register name counts up to the first character that is neither letter nor digit, and up to 15 characters. */
  lemma NameIsPrefix(name: string, tail: string)
    requires AlnumText(name) && (tail == "" || !IsAlnum(tail[0]))
    ensures RegNum(name + tail) == NameNumber(Kept(name, 15))
  {
    hide NameNumber, AlnumText, AlnumPrefix;
    NameThenTail(name, tail);
  }

  lemma JustName(name: string)
    requires AlnumText(name) && |name| <= 15
    ensures RegNum(name) == NameNumber(name)
  {
    hide NameNumber, AlnumText, RegNum;
    NameIsPrefix(name, "");
    assert name + "" == name;
  }

  /** `x` and digits are the register of that number, leading zeros or not, up to 31; `x` alone is register 0. Only
      the first 14 digits are read. */
  lemma RegisterDigits(digits: string, tail: string)
    requires forall i :: 0 <= i < |digits| ==> '0' <= digits[i] <= '9'
    requires tail == "" || !IsAlnum(tail[0])
    ensures var n := Value(Kept(digits, 14), 10);
      RegNum("x" + digits + tail) == if n <= 31 then n else -1
  {
    hide Value, DigitRun, RegNum, AbiNumber;
    var name := "x" + digits;
    var d := Kept(digits, 14);
    RunOfDigits(d);
    var kept := Kept(name, 15);
    assert kept == "x" + d;
    assert kept[0] == 'x' && kept[1..] == d;
    NotAbi(kept);
    assert AlnumText(name);
    NameIsPrefix(name, tail);
  }

  /** `x0` to `x31` are those registers, and any larger number, however long, is none. */
  lemma NumberedRegister(n: nat, tail: string)
    requires tail == "" || !IsAlnum(tail[0])
    ensures RegNum("x" + PrintNat(n) + tail) == if n <= 31 then n else -1
  {
    hide Value, PrintNat, RegNum;
    var digits := PrintNat(n);
    PrintNatReads(n);
    RegisterDigits(digits, tail);
    if |digits| > 14 {
      var m := LeadingDigits(n, 14);
      PrintNatReads(m);
      ShortNumber(m);
      ShortNumber(n);
    }
  }

  /** The leading digits of a number are a number. */
  lemma {:induction false} LeadingDigits(n: nat, k: nat) returns (m: nat)
    requires 0 < k <= |PrintNat(n)|
    ensures PrintNat(n)[..k] == PrintNat(m)
  {
    if k == |PrintNat(n)| {
      m := n;
      assert PrintNat(n)[..k] == PrintNat(n);
    } else {
      m := LeadingDigits(n / 10, k);
      assert PrintNat(n)[..k] == PrintNat(n / 10)[..k];
    }
  }

  lemma ShortNumber(n: nat)
    ensures n <= 31 ==> |PrintNat(n)| <= 2
  {
  }

  /** A letter among the digits makes it no register. */
  lemma RegisterJunk(digits: string, c: char, more: string)
    requires |digits| + |more| <= 13 && (forall i :: 0 <= i < |digits| ==> '0' <= digits[i] <= '9')
    requires ('a' <= c <= 'z' || 'A' <= c <= 'Z') && AlnumText(more)
    ensures RegNum("x" + digits + [c] + more) == -1
  {
    hide Value, DigitRun, RegNum, AbiNumber;
    var rest := [c] + more;
    var name := "x" + (digits + rest);
    assert name == "x" + digits + [c] + more;
    RunThenTail(digits, rest);
    assert name[0] == 'x' && name[1..] == digits + rest;
    NotAbi(name);
    JustName(name);
  }

  lemma NotAbi(name: string)
    requires name != "" && name[0] == 'x'
    ensures AbiNumber(name) == -1
  {
  }

  /** The names that pseudo-instructions introduce, and the other single digits. */
  lemma XNames()
    ensures RegNum("x0") == 0 && RegNum("x1") == 1 && RegNum("x5") == 5 && RegNum("x6") == 6
  {
    hide RegNum;
    XName(0, "x0"); XName(1, "x1"); XName(5, "x5"); XName(6, "x6");
  }

  lemma XName(n: nat, name: string)
    requires n < 10 && name == ['x', DIGITS[n]]
    ensures RegNum(name) == n
  {
    hide RegNum;
    assert PrintNat(n) == [DIGITS[n]];
    NumberedRegister(n, "");
    assert "x" + PrintNat(n) + "" == name;
  }

  lemma AbiName(name: string, n: nat)
    requires AlnumText(name) && |name| <= 15 && AbiNumber(name) == n
    ensures RegNum(name) == n
  {
    hide RegNum, AlnumText, AbiNumber;
    JustName(name);
    assert name != "" by { NoName(); }
  }

  lemma NoName()
    ensures AbiNumber("") == -1
  {
  }

  /** The ABI names that stand alone; `fp` is `s0`. */
  lemma AbiPointers()
    ensures RegNum("zero") == 0 && RegNum("ra") == 1 && RegNum("sp") == 2 && RegNum("gp") == 3 && RegNum("tp") == 4
    ensures RegNum("fp") == RegNum("s0") == 8
  {
    hide RegNum;
    AbiName("zero", 0); AbiName("ra", 1); AbiName("sp", 2); AbiName("gp", 3); AbiName("tp", 4);
    AbiName("s0", 8); AbiName("fp", 8);
  }

  /** `a0` to `a7` are registers 10 to 17. */
  lemma AbiArguments(n: nat)
    requires n <= 7
    ensures RegNum("a" + PrintNat(n)) == 10 + n
  {
    hide RegNum, AbiNumber;
    var name := "a" + PrintNat(n);
    assert PrintNat(n) == [DIGITS[n]];
    ArgumentNumber(name);
    AbiName(name, 10 + n);
  }

  lemma ArgumentNumber(name: string)
    requires |name| == 2 && name[0] == 'a' && '0' <= name[1] <= '7'
    ensures AbiNumber(name) == name[1] as int - '0' as int + 10
  {
  }

  /** `t0` to `t2` are registers 5 to 7, and `t3` to `t6` registers 28 to 31. */
  lemma AbiTemporaries(n: nat)
    requires n <= 6
    ensures RegNum("t" + PrintNat(n)) == if n <= 2 then 5 + n else 25 + n
  {
    hide RegNum, AbiNumber;
    var name := "t" + PrintNat(n);
    assert PrintNat(n) == [DIGITS[n]];
    TemporaryNumber(name);
    AbiName(name, if n <= 2 then 5 + n else 25 + n);
  }

  lemma TemporaryNumber(name: string)
    requires |name| == 2 && name[0] == 't' && '0' <= name[1] <= '6'
    ensures AbiNumber(name) == name[1] as int - '0' as int + if name[1] <= '2' then 5 else 25
  {
  }

  /** `s0` and `s1` are registers 8 and 9, and `s2` to `s11` registers 18 to 27. */
  lemma AbiSaved(n: nat)
    requires n <= 11
    ensures RegNum("s" + PrintNat(n)) == if n <= 1 then 8 + n else 16 + n
  {
    hide RegNum, AbiNumber;
    var name := "s" + PrintNat(n);
    if n < 10 {
      assert PrintNat(n) == [DIGITS[n]];
      SavedNumber(name);
    } else {
      assert PrintNat(n / 10) == [DIGITS[1]] && PrintNat(n) == [DIGITS[1], DIGITS[n % 10]];
      SavedPair(name);
    }
    AbiName(name, if n <= 1 then 8 + n else 16 + n);
  }

  lemma SavedNumber(name: string)
    requires |name| == 2 && name[0] == 's' && '0' <= name[1] <= '9'
    ensures AbiNumber(name) == name[1] as int - '0' as int + if name[1] <= '1' then 8 else 16
  {
  }

  lemma SavedPair(name: string)
    requires |name| == 3 && name[0] == 's' && name[1] == '1' && '0' <= name[2] <= '1'
    ensures AbiNumber(name) == name[2] as int - '0' as int + 26
  {
  }

  /** A name that is neither in the ABI table nor starts with `x` is no register. */
  lemma OtherNames(name: string)
    requires AlnumText(name) && |name| <= 15 && AbiNumber(name) == -1 && (name == "" || name[0] != 'x')
    ensures RegNum(name) == -1
  {
    hide RegNum, AlnumText, AbiNumber;
    JustName(name);
  }
}
