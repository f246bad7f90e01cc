/** The M extension: multiplication, division and remainder on 32-bit operands
(sections 7.1 and 7.2 of The RISC-V Instruction Set Manual, Volume I, document version 20191213). */
module MulDiv {
  import opened Words

  type u64 = n: int | 0 <= n < 0x1_0000_0000_0000_0000

  /** Conversion to `uint64_t`. */
  function Wrap64(n: int): u64
  {
    n % 0x1_0000_0000_0000_0000
  }

  function Abs(n: int): nat
  {
    if n < 0 then -n else n
  }

  /** C++ `/` on signed operands: truncates toward zero. */
  function TruncDiv(n: int, d: int): int
    requires d != 0
  {
    if (n < 0) == (d < 0) then Abs(n) / Abs(d) else -(Abs(n) / Abs(d))
  }

  /** C++ `%` on signed operands. */
  function TruncRem(n: int, d: int): int
    requires d != 0
  {
    if n < 0 then -(Abs(n) % Abs(d)) else Abs(n) % Abs(d)
  }

  /** The quotient `INT_MIN / -1`, for which the C++ program has no defined result. */
  predicate Overflows(a: u32, b: u32, funct3: u32)
  {
    (funct3 == 4 || funct3 == 6) && a == 0x8000_0000 && b == 0xFFFF_FFFF
  }

  function Mul(a: u32, b: u32): u32
  {
    Wrap(a * b)
  }

  /** `int64_t` product, shifted right by 32. */
  function Mulh(a: u32, b: u32): u32
  {
    Wrap(Signed(a) * Signed(b) / 0x1_0000_0000)
  }

  /** `int64_t * uint64_t` is computed in `uint64_t`: both the conversion and the product wrap. */
  function Mulhsu(a: u32, b: u32): u32
  {
    Wrap(Wrap64(Wrap64(Signed(a)) * b) / 0x1_0000_0000)
  }

  function Mulhu(a: u32, b: u32): u32
  {
    Wrap(Wrap64(a * b) / 0x1_0000_0000)
  }

  function Div(a: u32, b: u32): u32
  {
    if b == 0 then Wrap(-1) else Wrap(TruncDiv(Signed(a), Signed(b)))
  }

  function Divu(a: u32, b: u32): (q: u32)
  {
    if b == 0 then Wrap(-1) else DivBound(a, b); a / b
  }

  function Rem(a: u32, b: u32): u32
  {
    if b == 0 then a else Wrap(TruncRem(Signed(a), Signed(b)))
  }

  function Remu(a: u32, b: u32): u32
  {
    if b == 0 then a else a % b
  }

  function ExecuteMulDiv(a: u32, b: u32, funct3: u32): u32
    requires funct3 < 8 && !Overflows(a, b, funct3)
  {
    match funct3
    case 0 => Mul(a, b)
    case 1 => Mulh(a, b)
    case 2 => Mulhsu(a, b)
    case 3 => Mulhu(a, b)
    case 4 => Div(a, b)
    case 5 => Divu(a, b)
    case 6 => Rem(a, b)
    case 7 => Remu(a, b)
  }

  // ----- multiplication -----

  /** Changing a factor by 2^32 does not change the low word of a product. */
  lemma LowWord(a: u32, b: u32)
    ensures Wrap(Signed(a) * b) == Wrap(a * b)
    ensures Wrap(Signed(a) * Signed(b)) == Wrap(a * b)
  {
    var s: int, u: int := Signed(a), b;
    if s != a {
      assert s * u == a * u + (-u) * 0x1_0000_0000;
      WrapCongruent(s * u, a * u, -u);
    }
    if Signed(b) != b {
      assert s * Signed(b) == s * u + (-s) * 0x1_0000_0000;
      WrapCongruent(s * Signed(b), s * u, -s);
    }
  }

  lemma ProductBounds(a: int, b: int, m: int, n: int)
    requires -m <= a <= m && -n <= b <= n
    ensures -(m * n) <= a * b <= m * n
  {
  }

  lemma ProductRange(x: u32, y: u32)
    ensures 0 <= x * y < 0x1_0000_0000_0000_0000
  {
    MulMonotonic(x, 0, y);
    MulMonotonic(x, y, 0xFFFF_FFFF);
    assert x * 0xFFFF_FFFF == 0xFFFF_FFFF * x;
  }

  /** `mulhu` and `mul` together hold the exact unsigned product. */
  lemma MulhuLaw(a: u32, b: u32)
    ensures Mulhu(a, b) * 0x1_0000_0000 + Mul(a, b) == a * b
  {
    hide Wrap, Wrap64;
    ProductRange(a, b);
    UnsignedHighWord(a * b);
  }

  lemma UnsignedHighWord(p: int)
    requires 0 <= p < 0x1_0000_0000_0000_0000
    ensures Wrap(Wrap64(p) / 0x1_0000_0000) * 0x1_0000_0000 + Wrap(p) == p
  {
  }

  /** `mulh` and `mul` together hold the exact signed product. */
  lemma MulhLaw(a: u32, b: u32)
    ensures Signed(Mulh(a, b)) * 0x1_0000_0000 + Mul(a, b) == Signed(a) * Signed(b)
  {
    LowWord(a, b);
    ProductBounds(Signed(a), Signed(b), 0x8000_0000, 0x8000_0000);
    HighWord(Signed(a) * Signed(b));
  }

  /** `mulhsu` and `mul` together hold the exact signed-by-unsigned product. */
  lemma MulhsuLaw(a: u32, b: u32)
    ensures Signed(Mulhsu(a, b)) * 0x1_0000_0000 + Mul(a, b) == Signed(a) * b
  {
    LowWord(a, b);
    MulhsuValue(a, b);
    ProductBounds(Signed(a), b, 0x8000_0000, 0xFFFF_FFFF);
    HighWord(Signed(a) * b);
  }

  /** The high word of a product that fits in 64 signed bits survives the conversion to 32 bits. */
  lemma HighWord(p: int)
    requires -0x8000_0000_0000_0000 <= p < 0x8000_0000_0000_0000
    ensures Signed(Wrap(p / 0x1_0000_0000)) * 0x1_0000_0000 + Wrap(p) == p
  {
  }

  /** Although it wraps modulo 2^64 twice, `mulhsu` is the high word of the exact product. */
  lemma MulhsuValue(a: u32, b: u32)
    ensures Mulhsu(a, b) == Wrap(Signed(a) * b / 0x1_0000_0000)
  {
    var s := Signed(a);
    var k := if s < 0 then 1 else 0;
    assert Wrap64(s) == s + k * 0x1_0000_0000_0000_0000;
    assert Wrap64(s) * b == s * b + (k * b) * 0x1_0000_0000_0000_0000;
    ProductBounds(s, b, 0x8000_0000, 0xFFFF_FFFF);
    WrappedHighWord(s * b, k * b);
  }

  lemma WrappedHighWord(p: int, k: int)
    requires -0x8000_0000_0000_0000 <= p < 0x8000_0000_0000_0000
    ensures Wrap(Wrap64(p + k * 0x1_0000_0000_0000_0000) / 0x1_0000_0000) == Wrap(p / 0x1_0000_0000)
  {
    var j := if p < 0 then 1 else 0;
    DivModUnique(p + k * 0x1_0000_0000_0000_0000, 0x1_0000_0000_0000_0000, k - j, p + j * 0x1_0000_0000_0000_0000);
    WrapCongruent(p / 0x1_0000_0000 + j * 0x1_0000_0000, p / 0x1_0000_0000, j);
  }

  // ----- division -----

  /** Truncating division: the remainder completes the product, is small, and has the dividend's sign. */
  lemma TruncLaw(n: int, d: int)
    requires d != 0
    ensures n == d * TruncDiv(n, d) + TruncRem(n, d)
    ensures Abs(TruncRem(n, d)) < Abs(d)
    ensures TruncRem(n, d) != 0 ==> (TruncRem(n, d) < 0 <==> n < 0)
  {
  }

  /** The truncated quotient of two `int32_t` values fits in `int32_t`, except for `INT_MIN / -1`. */
  lemma TruncDivFits(n: i32, d: i32)
    requires d != 0 && !(n == -0x8000_0000 && d == -1)
    ensures -0x8000_0000 <= TruncDiv(n, d) < 0x8000_0000
  {
  }

  /** `div` and `rem`: dividend = divisor * quotient + remainder, exactly and as signed numbers. */
  lemma SignedDivisionLaw(a: u32, b: u32)
    requires b != 0 && !Overflows(a, b, 4)
    ensures Signed(a) == Signed(b) * Signed(Div(a, b)) + Signed(Rem(a, b))
    ensures Abs(Signed(Rem(a, b))) < Abs(Signed(b))
    ensures Signed(Rem(a, b)) != 0 ==> (Signed(Rem(a, b)) < 0 <==> Signed(a) < 0)
  {
    var n, d := Signed(a), Signed(b);
    TruncLaw(n, d);
    TruncDivFits(n, d);
    assert WrapSigned(TruncDiv(n, d)) == TruncDiv(n, d);
    assert WrapSigned(TruncRem(n, d)) == TruncRem(n, d);
  }

  /** `divu` and `remu`: the same law on unsigned numbers. */
  lemma UnsignedDivisionLaw(a: u32, b: u32)
    requires b != 0
    ensures a == b * Divu(a, b) + Remu(a, b)
    ensures Remu(a, b) < b
  {
  }

  /** On words, and with a zero divisor included: dividend = quotient * divisor + remainder modulo 2^32. */
  lemma WordDivisionLaw(a: u32, b: u32)
    ensures !Overflows(a, b, 4) ==> Wrap(Div(a, b) * b + Rem(a, b)) == a
    ensures Wrap(Divu(a, b) * b + Remu(a, b)) == a
  {
    WrapOfWord(a);
    if b == 0 {
      assert forall q: u32 :: q * b == 0;
    } else {
      hide Wrap, Div, Rem, Divu, Remu;
      UnsignedDivisionLaw(a, b);
      assert Divu(a, b) * b == b * Divu(a, b);
      if !Overflows(a, b, 4) {
        SignedDivisionLaw(a, b);
        SignedSum(a, b, Div(a, b), Rem(a, b));
      }
    }
  }

  /** A signed identity dividend = divisor * quotient + remainder also holds on the words. */
  lemma SignedSum(a: u32, b: u32, q: u32, r: u32)
    requires Signed(a) == Signed(b) * Signed(q) + Signed(r)
    ensures Wrap(q * b + r) == a
  {
    hide Wrap;
    LowWord(b, q);
    WrapOfWord(r);
    WrapSumCongruent(Signed(b) * Signed(q), b * q, Signed(r), r);
    assert q * b == b * q;
  }

  lemma WrapOfWord(r: u32)
    ensures Wrap(r) == r
  {
  }

  lemma WrapSumCongruent(p: int, p': int, r: int, r': int)
    requires Wrap(p) == Wrap(p') && Wrap(r) == Wrap(r')
    ensures Wrap(p + r) == Wrap(p' + r')
  {
  }

  /** A zero divisor gives the quotient of all ones and the dividend as remainder. */
  lemma ZeroDivisor(a: u32)
    ensures Div(a, 0) == Divu(a, 0) == 0xFFFF_FFFF && Rem(a, 0) == Remu(a, 0) == a
  {
  }
}
