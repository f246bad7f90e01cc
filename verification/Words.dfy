/** Fixed-width machine words.

The program computes on `uint32_t` and `int32_t`.  Both are modelled as bounded integers, with the
wrap-around of the C++ types written out as `Wrap` and `Signed`.  The bitwise operators are defined
bit by bit, and the lemmas below relate the shift-and-mask idioms of the program to division,
remainder and addition.
*/
module Words {
  type byte = n: int | 0 <= n < 256
  type u32 = n: int | 0 <= n < 0x1_0000_0000
  type i32 = n: int | -0x8000_0000 <= n < 0x8000_0000

  /** Conversion to `uint32_t`: reduction modulo 2^32. */
  function Wrap(n: int): (w: u32)
  {
    n % 0x1_0000_0000
  }

  /** Conversion from `uint32_t` to `int32_t`: two's complement. */
  function Signed(w: u32): (n: i32)
    ensures Wrap(n) == w
  {
    if w < 0x8000_0000 then w else w - 0x1_0000_0000
  }

  /** Arithmetic on `int32_t`, read as two's-complement wrap-around. */
  function WrapSigned(n: int): (r: i32)
    ensures -0x8000_0000 <= n < 0x8000_0000 ==> r == n
    ensures Wrap(r) == Wrap(n)
  {
    Signed(Wrap(n))
  }

  /** Words are equal when they differ by a multiple of 2^32. */
  lemma WrapCongruent(a: int, b: int, k: int)
    requires a == b + k * 0x1_0000_0000
    ensures Wrap(a) == Wrap(b)
  {
  }

  lemma WrapAdd(a: int, b: int)
    ensures Wrap(Wrap(a) + b) == Wrap(a + b)
  {
  }

  // ----- powers of two -----

  function Pow2(k: nat): (p: nat)
    ensures p >= 1
  {
    if k == 0 then 1 else 2 * Pow2(k - 1)
  }

  lemma Pow2Values()
    ensures Pow2(1) == 2 && Pow2(4) == 16 && Pow2(5) == 32 && Pow2(6) == 64 && Pow2(7) == 0x80
    ensures Pow2(8) == 0x100 && Pow2(10) == 0x400 && Pow2(11) == 0x800 && Pow2(12) == 0x1000
    ensures Pow2(15) == 0x8000 && Pow2(16) == 0x1_0000 && Pow2(20) == 0x10_0000
    ensures Pow2(21) == 0x20_0000 && Pow2(24) == 0x100_0000 && Pow2(25) == 0x200_0000
    ensures Pow2(31) == 0x8000_0000 && Pow2(32) == 0x1_0000_0000
    ensures Pow2(3) == 8 && Pow2(19) == 0x8_0000
  {
  }

  lemma MulMonotonic(d: int, a: int, b: int)
    requires 0 <= d && a <= b
    ensures d * a <= d * b
  {
  }

  lemma DivModUnique(n: int, d: int, q: int, r: int)
    requires 0 < d && n == d * q + r && 0 <= r < d
    ensures n / d == q && n % d == r
  {
    var q', r' := n / d, n % d;
    assert n == d * q' + r';
    var k := q' - q;
    assert d * k == r - r';
    if k >= 1 { MulMonotonic(d, 1, k); }
    if k <= -1 { MulMonotonic(d, k, -1); }
  }

  /** Halving commutes with reduction modulo a doubled modulus. */
  lemma HalveMod(x: nat, p: nat)
    requires p >= 1
    ensures x % (2 * p) == 2 * ((x / 2) % p) + x % 2
    ensures x / (2 * p) == (x / 2) / p
  {
    var q, r := (x / 2) / p, (x / 2) % p;
    assert x / 2 == p * q + r;
    assert x == (2 * p) * q + (2 * r + x % 2);
    DivModUnique(x, 2 * p, q, 2 * r + x % 2);
  }

  // ----- bitwise operators -----

  function And(x: nat, y: nat): nat
  {
    if x == 0 || y == 0 then 0
    else (if x % 2 == 1 && y % 2 == 1 then 1 else 0) + 2 * And(x / 2, y / 2)
  }

  function Or(x: nat, y: nat): nat
  {
    if x == 0 then y else if y == 0 then x
    else (if x % 2 == 1 || y % 2 == 1 then 1 else 0) + 2 * Or(x / 2, y / 2)
  }

  function Xor(x: nat, y: nat): nat
  {
    if x == 0 then y else if y == 0 then x
    else (if x % 2 != y % 2 then 1 else 0) + 2 * Xor(x / 2, y / 2)
  }

  /** `x << k` on `uint32_t`. */
  function Shl(x: u32, k: nat): u32
  {
    Wrap(x * Pow2(k))
  }

  /** `x >> k` on `uint32_t`. */
  function Shr(x: u32, k: nat): (r: u32)
  {
    ShrBound(x, k);
    x / Pow2(k)
  }

  /** `x >> k` on `int32_t`: rounds toward minus infinity. */
  function Sra(x: i32, k: nat): (r: i32)
  {
    SraBound(x, k);
    x / Pow2(k)
  }

  lemma ShrBound(x: nat, k: nat)
    ensures 0 <= x / Pow2(k) <= x
  {
    DivBound(x, Pow2(k));
  }

  lemma SraBound(x: int, k: nat)
    ensures if x >= 0 then 0 <= x / Pow2(k) <= x else x <= x / Pow2(k) < 0
  {
    DivBound(x, Pow2(k));
  }

  /** Dividing by a positive number moves a value toward zero and keeps its sign. */
  lemma DivBound(x: int, p: int)
    requires p >= 1
    ensures if x >= 0 then 0 <= x / p <= x else x <= x / p < 0
  {
    QuotientBound(x, p, x / p, x % p);
  }

  lemma QuotientBound(x: int, p: int, q: int, r: int)
    requires p >= 1 && x == p * q + r && 0 <= r < p
    ensures if x >= 0 then 0 <= q <= x else x <= q < 0
  {
    if q >= 0 {
      MulMonotonic(q, 1, p);
    } else {
      var n := -(q + 1);
      assert p * q == -(n * p) - p;
      MulMonotonic(n, 1, p);
    }
  }

  /** Bit `i` of a word. */
  function Bit(x: nat, i: nat): nat
  {
    if i == 0 then x % 2 else Bit(x / 2, i - 1)
  }

  /** Each operator acts on every bit position independently. */
  lemma {:induction false} BitwiseOperators(x: nat, y: nat, i: nat)
    ensures Bit(And(x, y), i) == (if Bit(x, i) == 1 && Bit(y, i) == 1 then 1 else 0)
    ensures Bit(Or(x, y), i) == (if Bit(x, i) == 1 || Bit(y, i) == 1 then 1 else 0)
    ensures Bit(Xor(x, y), i) == (if Bit(x, i) != Bit(y, i) then 1 else 0)
  {
    BitOfZero(i);
    BitBound(x, i);
    BitBound(y, i);
    if x == 0 || y == 0 {
    } else if i == 0 {
    } else {
      BitwiseOperators(x / 2, y / 2, i - 1);
      assert And(x, y) / 2 == And(x / 2, y / 2);
      assert Or(x, y) / 2 == Or(x / 2, y / 2);
      assert Xor(x, y) / 2 == Xor(x / 2, y / 2);
    }
  }

  lemma {:induction false} BitOfZero(i: nat)
    ensures Bit(0, i) == 0
  {
    if i > 0 { BitOfZero(i - 1); }
  }

  lemma {:induction false} BitBound(x: nat, i: nat)
    ensures Bit(x, i) == 0 || Bit(x, i) == 1
  {
    if i > 0 { BitBound(x / 2, i - 1); }
  }

  /** Operands below 2^k give a result below 2^k. */
  lemma {:induction false} BitwiseBound(x: nat, y: nat, k: nat)
    requires x < Pow2(k) && y < Pow2(k)
    ensures And(x, y) < Pow2(k) && Or(x, y) < Pow2(k) && Xor(x, y) < Pow2(k)
  {
    if x != 0 && y != 0 {
      BitwiseBound(x / 2, y / 2, k - 1);
    }
  }

  /** Masking with 2^k - 1 is the remainder modulo 2^k. */
  lemma {:induction false} AndMask(x: nat, k: nat)
    ensures And(x, Pow2(k) - 1) == x % Pow2(k)
  {
    if k == 0 {
    } else if x == 0 {
      DivModUnique(0, Pow2(k), 0, 0);
    } else {
      var p := Pow2(k - 1);
      AndMask(x / 2, k - 1);
      HalveMod(x, p);
      assert (2 * p - 1) / 2 == p - 1 && (2 * p - 1) % 2 == 1;
    }
  }

  /** A mask with `k` low zeros only sees the bits above position `k`. */
  lemma {:induction false} AndHigh(x: nat, m: nat, k: nat)
    ensures x / Pow2(k) >= 0
    ensures And(x, m * Pow2(k)) == And(x / Pow2(k), m) * Pow2(k)
  {
    ShrBound(x, k);
    if k > 0 {
      var p := Pow2(k - 1);
      HalveMod(x, p);
      AndHigh(x / 2, m, k - 1);
      AndEven(x, m * p);
      DoubleMul(m, p);
      DoubleMul(And(x / 2 / p, m), p);
    }
  }

  lemma DoubleMul(a: int, b: int)
    ensures a * (2 * b) == 2 * (a * b)
  {
  }

  lemma AndEven(x: nat, h: nat)
    ensures And(x, 2 * h) == 2 * And(x / 2, h)
  {
  }

  /** Combining a multiple of 2^k with a value below 2^k is addition. */
  lemma {:induction false} OrDisjoint(a: nat, b: nat, k: nat)
    requires a % Pow2(k) == 0 && b < Pow2(k)
    ensures Or(a, b) == a + b
  {
    if a != 0 && b != 0 {
      HalveMod(a, Pow2(k - 1));
      OrDisjoint(a / 2, b / 2, k - 1);
    }
  }

  /** Flipping bit `k` of a value below 2^(k+1). */
  lemma {:induction false} XorTop(v: nat, k: nat)
    requires v < 2 * Pow2(k)
    ensures Xor(v, Pow2(k)) == if v < Pow2(k) then v + Pow2(k) else v - Pow2(k)
  {
    if k > 0 && v > 0 {
      XorTop(v / 2, k - 1);
    }
  }

  // ----- the operators at width 32 -----

  function And32(x: u32, y: u32): (r: u32)
  {
    Bound32(x, y);
    And(x, y)
  }

  function Or32(x: u32, y: u32): (r: u32)
  {
    Bound32(x, y);
    Or(x, y)
  }

  function Xor32(x: u32, y: u32): (r: u32)
  {
    Bound32(x, y);
    Xor(x, y)
  }

  lemma Bound32(x: u32, y: u32)
    ensures And(x, y) < 0x1_0000_0000 && Or(x, y) < 0x1_0000_0000 && Xor(x, y) < 0x1_0000_0000
  {
    Pow2Values();
    BitwiseBound(x, y, 32);
  }

  lemma ShlValue(x: u32, k: nat, weight: nat)
    requires weight == Pow2(k) && x * weight < 0x1_0000_0000
    ensures Shl(x, k) == x * weight
  {
  }

  lemma {:induction false} Pow2Monotonic(a: nat, b: nat)
    requires a <= b
    ensures Pow2(a) <= Pow2(b)
    decreases b - a
  {
    if a < b { Pow2Monotonic(a, b - 1); }
  }
}
