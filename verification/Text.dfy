/** Numbers and names as text: the C library conversions the assembler relies on, the decimal text
printed by the pseudo-instruction expander, `reg_num`, `find_label` and `parse_imm`. */
module Text {
  import opened Words
  import opened Codec

  /** The outcome of an assembler operation: a value, `exit(1)`, or a loop that makes no progress. */
  datatype Result<+T> = Done(value: T) | Exit | Diverge {
    predicate IsFailure() {
      !Done?
    }
    function PropagateFailure<U>(): Result<U>
      requires IsFailure()
    {
      if Exit? then Exit else Diverge
    }
    function Extract(): T
      requires Done?
    {
      value
    }
  }

  predicate IsDigit(c: char)
  {
    '0' <= c <= '9'
  }

  predicate IsSpace(c: char)
  {
    c == ' ' || 9 <= c as int <= 13
  }

  /** The value of a digit in bases up to 36; 99 for any other character. */
  function DigitOf(c: char): (d: nat)
  {
    if '0' <= c <= '9' then c as int - '0' as int
    else if 'a' <= c <= 'z' then c as int - 'a' as int + 10
    else if 'A' <= c <= 'Z' then c as int - 'A' as int + 10
    else 99
  }

  /** The length of the leading run of digits of a base. */
  function DigitRun(s: string, base: nat): (n: nat)
    ensures n <= |s|
    ensures forall i :: 0 <= i < n ==> DigitOf(s[i]) < base
  {
    if s == "" || DigitOf(s[0]) >= base then 0 else 1 + DigitRun(s[1..], base)
  }

  function Value(s: string, base: nat): (v: nat)
  {
    if s == "" then 0 else Value(s[..|s| - 1], base) * base + DigitOf(s[|s| - 1])
  }

  function SkipSpaces(s: string): (n: nat)
    ensures n <= |s|
  {
    if s == "" || !IsSpace(s[0]) then 0 else 1 + SkipSpaces(s[1..])
  }

  /** Saturation to the 64-bit `long` of the C library. */
  function Clamp64(n: int): int
  {
    if n > 0x7FFF_FFFF_FFFF_FFFF then 0x7FFF_FFFF_FFFF_FFFF
    else if n < -0x8000_0000_0000_0000 then -0x8000_0000_0000_0000 else n
  }

  /** A converted number and how many characters it took; no conversion takes none. */
  datatype Number = Number(value: int, used: nat)

  predicate HasHexDigits(s: string)
  {
    |s| >= 3 && s[0] == '0' && (s[1] == 'x' || s[1] == 'X') && DigitOf(s[2]) < 16
  }

  /** `strtol` in base 0, 10 or 16. */
  function Strtol(s: string, base: nat): (r: Number)
    ensures r.used <= |s|
  {
    var i := SkipSpaces(s);
    var signed := i < |s| && (s[i] == '-' || s[i] == '+');
    var sign := if i < |s| && s[i] == '-' then -1 else 1;
    var start := if signed then i + 1 else i;
    Unsigned(s, start, sign, base)
  }

  function Unsigned(s: string, start: nat, sign: int, base: nat): (r: Number)
    requires start <= |s|
    ensures r.used <= |s|
  {
    var rest := s[start..];
    if (base == 0 || base == 16) && HasHexDigits(rest) then Digits(s, start + 2, sign, 16)
    else if base != 0 then Digits(s, start, sign, base)
    else if rest != "" && rest[0] == '0' then Digits(s, start, sign, 8)
    else Digits(s, start, sign, 10)
  }

  function Digits(s: string, from: nat, sign: int, base: nat): (r: Number)
    requires from <= |s|
    ensures r.used <= |s|
  {
    var n := DigitRun(s[from..], base);
    if n == 0 then Number(0, 0)
    else Number(Clamp64(sign * Value(s[from..from + n], base)), from + n)
  }

  // ----- labels and immediates -----

  datatype Label = Label(name: string, addr: u32, section: string)

  /** `find_label`: the first label of that name. */
  function FindLabel(labels: seq<Label>, name: string): Option<u32>
  {
    if labels == [] then None
    else if labels[0].name == name then Some(labels[0].addr)
    else FindLabel(labels[1..], name)
  }

  predicate HexPrefix(s: string)
  {
    || (|s| >= 2 && s[0] == '0' && (s[1] == 'x' || s[1] == 'X'))
    || (|s| >= 3 && s[0] == '-' && s[1] == '0' && (s[2] == 'x' || s[2] == 'X'))
  }

  /** The operand is read as a number and not looked up as a label. */
  predicate Numeric(s: string)
  {
    s != "" && (IsDigit(s[0]) || (s[0] == '-' && |s| > 1 && IsDigit(s[1])))
  }

  /** The number that a numeric operand denotes, reduced to `int32_t`. */
  function NumericValue(s: string): i32
  {
    WrapSigned(Strtol(s, if HexPrefix(s) then 16 else 10).value)
  }

  function ParseImm(labels: seq<Label>, s: string): Result<i32>
  {
    if s == "" then Done(0)
    else if HexPrefix(s) then Done(WrapSigned(Strtol(s, 16).value))
    else if Numeric(s) then Done(WrapSigned(Strtol(s, 10).value))
    else match FindLabel(labels, s)
      case Some(addr) => Done(Signed(addr))
      case None => Exit
  }

  // ----- decimal text -----

  const DIGITS: string := "0123456789"

  function PrintNat(n: nat): (s: string)
    ensures |s| >= 1
  {
    if n < 10 then [DIGITS[n]] else PrintNat(n / 10) + [DIGITS[n % 10]]
  }

  /** The text produced by `%d`. */
  function PrintInt(n: int): (s: string)
    ensures |s| >= 1
  {
    if n < 0 then "-" + PrintNat(-n) else PrintNat(n)
  }

  lemma DigitText(d: nat)
    requires d < 10
    ensures DigitOf(DIGITS[d]) == d && IsDigit(DIGITS[d]) && (d > 0 ==> DIGITS[d] != '0')
  {
  }

  /** Printed naturals are digits only, read back as printed, and have no leading zero. */
  lemma {:induction false} PrintNatReads(n: nat)
    ensures var s := PrintNat(n);
      Value(s, 10) == n && (forall i :: 0 <= i < |s| ==> IsDigit(s[i])) && (s[0] == '0' ==> s == "0")
  {
    var s := PrintNat(n);
    DigitText(n % 10);
    if n < 10 {
      assert s[..0] == "";
    } else {
      var t := PrintNat(n / 10);
      PrintNatReads(n / 10);
      assert s[..|s| - 1] == t;
    }
  }

  lemma {:induction false} RunOfDigits(s: string)
    requires forall i :: 0 <= i < |s| ==> IsDigit(s[i])
    ensures DigitRun(s, 10) == |s|
  {
    if s != "" { RunOfDigits(s[1..]); }
  }

  /** `strtol` takes a decimal numeral as a whole. */
  lemma StrtolDecimal(t: string, negative: bool)
    requires t != "" && forall i :: 0 <= i < |t| ==> IsDigit(t[i])
    ensures var s := if negative then "-" + t else t;
      Strtol(s, 10) == Number(Clamp64((if negative then -1 else 1) * Value(t, 10)), |s|)
  {
    hide Value, Clamp64;
    RunOfDigits(t);
    var s := if negative then "-" + t else t;
    assert !IsSpace(s[0]);
    var start := if negative then 1 else 0;
    assert s[start..] == t && s[start..start + |t|] == t;
  }

  /** Text written by `%d` is read back by `parse_imm` as the same value, never as hexadecimal and
      never as a label, whatever labels exist. */
  lemma DecimalRoundTrip(n: i32, labels: seq<Label>)
    ensures ParseImm(labels, PrintInt(n)) == Done(n)
    ensures Numeric(PrintInt(n)) && !HexPrefix(PrintInt(n)) && NumericValue(PrintInt(n)) == n
  {
    hide Strtol, HexPrefix, Numeric, Value;
    var m: int := n;
    var t := PrintNat(if m < 0 then -m else m);
    PrintNatReads(if m < 0 then -m else m);
    StrtolDecimal(t, m < 0);
    DigitsAreDecimal(t, m < 0);
    assert WrapSigned(m) == m;
  }

  /** Digits without a superfluous leading zero are a decimal number, with a minus sign or without. */
  lemma DigitsAreDecimal(t: string, negative: bool)
    requires t != "" && (forall i :: 0 <= i < |t| ==> IsDigit(t[i])) && (t[0] == '0' ==> t == "0")
    ensures var s := if negative then "-" + t else t; Numeric(s) && !HexPrefix(s)
  {
    var s := if negative then "-" + t else t;
    assert negative ==> s[1..] == t && s[1] == t[0] && (|s| > 2 ==> s[2] == t[1]);
  }

  // ----- register names -----

  /** The number of an ABI name, or -1. */
  function AbiNumber(name: string): (n: int)
    ensures -1 <= n <= 31
  {
    if name == "zero" then 0
    else if name == "ra" then 1
    else if name == "sp" then 2
    else if name == "gp" then 3
    else if name == "tp" then 4
    else if name == "t0" then 5
    else if name == "t1" then 6
    else if name == "t2" then 7
    else if name == "s0" || name == "fp" then 8
    else if name == "s1" then 9
    else if name == "a0" then 10
    else if name == "a1" then 11
    else if name == "a2" then 12
    else if name == "a3" then 13
    else if name == "a4" then 14
    else if name == "a5" then 15
    else if name == "a6" then 16
    else if name == "a7" then 17
    else if name == "s2" then 18
    else if name == "s3" then 19
    else if name == "s4" then 20
    else if name == "s5" then 21
    else if name == "s6" then 22
    else if name == "s7" then 23
    else if name == "s8" then 24
    else if name == "s9" then 25
    else if name == "s10" then 26
    else if name == "s11" then 27
    else if name == "t3" then 28
    else if name == "t4" then 29
    else if name == "t5" then 30
    else if name == "t6" then 31
    else -1
  }

  predicate IsAlnum(c: char)
  {
    IsDigit(c) || 'a' <= c <= 'z' || 'A' <= c <= 'Z'
  }

  function AlnumPrefix(s: string): string
  {
    if s == "" || !IsAlnum(s[0]) then "" else [s[0]] + AlnumPrefix(s[1..])
  }

  /** The number of a register name on its own, or -1. */
  function NameNumber(name: string): (n: int)
    ensures -1 <= n <= 31
  {
    if name == "" then -1
    else if AbiNumber(name) >= 0 then AbiNumber(name)
    else if name[0] != 'x' then -1
    else
      var digits := name[1..];
      var n := Value(digits, 10);
      if DigitRun(digits, 10) != |digits| || n > 31 then -1 else n
  }

  /** The number of a register operand, or -1: the leading letters and digits count, at most 15 of them. */
  function RegNum(r: string): (n: int)
    ensures -1 <= n <= 31
  {
    var prefix := AlnumPrefix(r);
    NameNumber(if |prefix| >= 16 then prefix[..15] else prefix)
  }
}
