/** Byte-addressed memory with little-endian 8-, 16- and 32-bit accesses. */
module ByteMemory {
  import opened Words

  datatype MemStatus = MemOk | ReadError | WriteError | Misaligned

  // ----- little-endian values -----

  /** The value of a byte string, least significant byte first. */
  function LE(bytes: seq<byte>): nat
  {
    if bytes == [] then 0 else bytes[0] + 256 * LE(bytes[1..])
  }

  /** The `n` low bytes of a value, least significant first. */
  function Bytes(v: nat, n: nat): (b: seq<byte>)
    ensures |b| == n
  {
    if n == 0 then [] else [v % 256] + Bytes(v / 256, n - 1)
  }

  function Pow256(n: nat): (p: nat)
    ensures p >= 1
  {
    if n == 0 then 1 else 256 * Pow256(n - 1)
  }

  /** Reading back what was written gives the written value, reduced to the access width. */
  lemma {:induction false} LittleEndianRoundTrip(v: nat, n: nat)
    ensures LE(Bytes(v, n)) == v % Pow256(n)
  {
    if n > 0 {
      LittleEndianRoundTrip(v / 256, n - 1);
      ShiftedRemainder(v, Pow256(n - 1));
      assert Bytes(v, n)[1..] == Bytes(v / 256, n - 1);
    }
  }

  lemma ShiftedRemainder(v: nat, p: nat)
    requires p >= 1
    ensures v % (256 * p) == 256 * (v / 256 % p) + v % 256
  {
    var q, r := v / 256 / p, v / 256 % p;
    assert v / 256 == p * q + r;
    assert v == (256 * p) * q + (256 * r + v % 256);
    DivModUnique(v, 256 * p, q, 256 * r + v % 256);
  }

  lemma LE4(b: seq<byte>)
    requires |b| == 4
    ensures var b0: int, b1: int, b2: int, b3: int := b[0], b[1], b[2], b[3];
      LE(b) == b0 + 0x100 * b1 + 0x1_0000 * b2 + 0x100_0000 * b3 < 0x1_0000_0000
  {
    var c := b[1..];
    var d := c[1..];
    assert LE(d) == d[0] + 256 * LE(d[1..]) && d[1..] == [b[3]] && LE([b[3]]) == b[3];
  }

  lemma LE2(b: seq<byte>)
    requires |b| == 2
    ensures var b0: int, b1: int := b[0], b[1];
      LE(b) == b0 + 0x100 * b1 < 0x1_0000
  {
    assert b[1..] == [b[1]] && LE([b[1]]) == b[1];
  }

  lemma LE1(b: seq<byte>)
    requires |b| == 1
    ensures LE(b) == b[0]
  {
  }

  /** A full-width word is recovered exactly. */
  lemma WordRoundTrip(w: u32)
    ensures LE(Bytes(w, 4)) == w
  {
    LittleEndianRoundTrip(w, 4);
    assert Pow256(4) == 0x1_0000_0000;
  }

  // ----- accesses on a byte sequence -----

  type Mem = m: seq<byte> | |m| < 0x1_0000_0000

  predicate Width(n: nat)
  {
    n == 1 || n == 2 || n == 4
  }

  predicate Allowed(m: Mem, addr: u32, n: nat)
    requires Width(n)
  {
    addr % n == 0 && addr + n <= |m|
  }

  /** The status of an access that fails with `bounds` when it reaches past the end. */
  function Status(m: Mem, addr: u32, n: nat, bounds: MemStatus): MemStatus
    requires Width(n)
  {
    if addr % n != 0 then Misaligned else if addr + n > |m| then bounds else MemOk
  }

  function Load(m: Mem, addr: u32, n: nat): (v: u32)
    requires Width(n) && Allowed(m, addr, n)
  {
    var b := m[addr..addr + n];
    LoadBound(b);
    LE(b)
  }

  lemma LoadBound(b: seq<byte>)
    requires Width(|b|)
    ensures LE(b) < 0x1_0000_0000 && (|b| == 1 ==> LE(b) < 0x100) && (|b| == 2 ==> LE(b) < 0x1_0000)
  {
    if |b| == 4 { LE4(b); } else if |b| == 2 { LE2(b); } else { LE1(b); }
  }

  function Store(m: Mem, addr: u32, n: nat, v: u32): (m': Mem)
    requires Width(n) && Allowed(m, addr, n)
    ensures |m'| == |m|
  {
    m[..addr] + Bytes(v, n) + m[addr + n..]
  }

  /** Writing the bytes one cell at a time amounts to one store. */
  lemma StoreByUpdates(m: Mem, addr: u32, n: nat, v: u32, b: seq<byte>)
    requires Width(n) && Allowed(m, addr, n) && b == Bytes(v, n)
    ensures n == 2 ==> Store(m, addr, n, v) == m[addr := b[0]][addr + 1 := b[1]]
    ensures n == 4 ==>
      Store(m, addr, n, v) == m[addr := b[0]][addr + 1 := b[1]][addr + 2 := b[2]][addr + 3 := b[3]]
  {
  }

  /** A store changes its own bytes and no others, and a load of the same cells returns the stored value. */
  lemma LoadAfterStore(m: Mem, addr: u32, n: nat, v: u32)
    requires Width(n) && Allowed(m, addr, n)
    ensures Load(Store(m, addr, n, v), addr, n) == v % Pow256(n)
    ensures forall i :: 0 <= i < |m| && !(addr <= i < addr + n) ==> Store(m, addr, n, v)[i] == m[i]
  {
    assert Store(m, addr, n, v)[addr..addr + n] == Bytes(v, n);
    LittleEndianRoundTrip(v, n);
  }

  // ----- histories of accesses -----

  datatype Access = Reading(width: nat, addr: u32) | Writing(width: nat, addr: u32, value: u32)

  predicate Widths(h: seq<Access>)
  {
    forall a :: a in h ==> Width(a.width)
  }

  function Perform(m: Mem, a: Access): (m': Mem)
    requires Width(a.width)
    ensures |m'| == |m|
  {
    if a.Writing? && Allowed(m, a.addr, a.width) then Store(m, a.addr, a.width, a.value) else m
  }

  /** The memory after a history of accesses. */
  function Run(m: Mem, h: seq<Access>): (m': Mem)
    requires Widths(h)
    ensures |m'| == |m|
  {
    if h == [] then m else Perform(Run(m, h[..|h| - 1]), h[|h| - 1])
  }

  /** The byte that cell `i` holds according to the history alone: what the latest successful write
      covering it put there, or else its initial contents. */
  function Latest(m: Mem, h: seq<Access>, i: nat): byte
    requires Widths(h) && i < |m|
  {
    if h == [] then m[i]
    else
      var a := h[|h| - 1];
      if a.Writing? && Allowed(m, a.addr, a.width) && a.addr <= i < a.addr + a.width then
        Bytes(a.value, a.width)[i - a.addr]
      else
        Latest(m, h[..|h| - 1], i)
  }

  /** The latest bytes of `n` consecutive cells. */
  function LatestCells(m: Mem, h: seq<Access>, i: nat, n: nat): seq<byte>
    requires Widths(h) && i + n <= |m|
    decreases n
  {
    if n == 0 then [] else [Latest(m, h, i)] + LatestCells(m, h, i + 1, n - 1)
  }

  /** Memory refines a byte map: after any history every cell holds its latest byte. */
  lemma {:induction false} MemoryIsByteMap(m: Mem, h: seq<Access>, i: nat)
    requires Widths(h) && i < |m|
    ensures Run(m, h)[i] == Latest(m, h, i)
  {
    if h != [] {
      MemoryIsByteMap(m, h[..|h| - 1], i);
    }
  }

  /** Every load after a history is the little-endian combination of the latest bytes of its cells. */
  lemma LoadsLatestBytes(m: Mem, h: seq<Access>, addr: u32, n: nat)
    requires Widths(h) && Width(n) && Allowed(m, addr, n)
    ensures Load(Run(m, h), addr, n) == LE(LatestCells(m, h, addr, n))
  {
    CellsAreLatest(m, h, addr, n);
  }

  lemma {:induction false} CellsAreLatest(m: Mem, h: seq<Access>, i: nat, n: nat)
    requires Widths(h) && i + n <= |m|
    ensures Run(m, h)[i..i + n] == LatestCells(m, h, i, n)
    decreases n
  {
    if n > 0 {
      MemoryIsByteMap(m, h, i);
      CellsAreLatest(m, h, i + 1, n - 1);
      assert Run(m, h)[i..i + n] == [Run(m, h)[i]] + Run(m, h)[i + 1..i + n];
    }
  }

  // ----- the memory object -----

  /** The bounds test of the program, with the difference taken on `uint32_t`. */
  predicate PastEnd(size: u32, addr: u32, n: nat)
  {
    addr > Wrap(size - n)
  }

  /** The test is right for every address if and only if the memory has at least `n` bytes; below that the
      difference wraps around. */
  lemma BoundsTestExact(size: u32, n: nat)
    requires Width(n)
    ensures (forall addr: u32 :: PastEnd(size, addr, n) <==> addr + n > size) <==> n <= size
  {
    if size < n {
      var start: u32 := 0;
      assert !PastEnd(size, start, n);
    }
  }

  class Memory {
    const data: array<byte>
    const size: u32

    ghost predicate Valid()
      reads this
    {
      data.Length == size
    }

    ghost function Contents(): Mem
      reads this, data
      requires Valid()
    {
      data[..]
    }

    constructor (size: u32)
      ensures Valid() && this.size == size && fresh(data)
      ensures Contents() == seq(size, _ => 0)
    {
      this.data := new byte[size](_ => 0);
      this.size := size;
      new;
      assert data[..] == seq(size, _ => 0);
    }

    method Read8(addr: u32) returns (status: MemStatus, value: u32)
      requires Valid()
      ensures status == if addr >= size then ReadError else MemOk
      ensures status.MemOk? ==> value == Load(Contents(), addr, 1)
    {
      value := 0;
      if addr >= size {
        return ReadError, value;
      }
      value := data[addr];
      LE1(data[..][addr..addr + 1]);
      return MemOk, value;
    }

    method Write8(addr: u32, value: u32) returns (status: MemStatus)
      requires Valid()
      modifies data
      ensures status == if addr >= size then WriteError else MemOk
      ensures Contents() == if status.MemOk? then Store(old(Contents()), addr, 1, value) else old(Contents())
    {
      if addr >= size {
        return WriteError;
      }
      data[addr] := value % 256;
      assert Bytes(value, 1) == [value % 256];
      return MemOk;
    }

    method Read16(addr: u32) returns (status: MemStatus, value: u32)
      requires Valid() && 2 <= size
      ensures status == if addr % 2 != 0 then Misaligned else if addr + 2 > size then ReadError else MemOk
      ensures status.MemOk? ==> value == Load(Contents(), addr, 2)
    {
      value := 0;
      if addr % 2 != 0 {
        return Misaligned, value;
      }
      if PastEnd(size, addr, 2) {
        return ReadError, value;
      }
      value := Or32(data[addr], Shl(data[addr + 1], 8));
      CombineTwo(data[addr], data[addr + 1]);
      LE2(data[..][addr..addr + 2]);
      return MemOk, value;
    }

    method Write16(addr: u32, value: u32) returns (status: MemStatus)
      requires Valid() && 2 <= size
      modifies data
      ensures status == if addr % 2 != 0 then Misaligned else if addr + 2 > size then WriteError else MemOk
      ensures Contents() == if status.MemOk? then Store(old(Contents()), addr, 2, value) else old(Contents())
    {
      if addr % 2 != 0 {
        return Misaligned;
      }
      if PastEnd(size, addr, 2) {
        return WriteError;
      }
      hide And32, Shr, Bytes, Store;
      SplitBytes(value);
      var b0: byte, b1: byte := And32(value, 0xFF), And32(Shr(value, 8), 0xFF);
      StoreByUpdates(Contents(), addr, 2, value, [b0, b1]);
      data[addr] := b0;
      data[addr + 1] := b1;
      assert data[..] == old(data[..])[addr := b0][addr + 1 := b1];
      return MemOk;
    }

    method Read32(addr: u32) returns (status: MemStatus, value: u32)
      requires Valid() && 4 <= size
      ensures status == if addr % 4 != 0 then Misaligned else if addr + 4 > size then ReadError else MemOk
      ensures status.MemOk? ==> value == Load(Contents(), addr, 4)
    {
      value := 0;
      if addr % 4 != 0 {
        return Misaligned, value;
      }
      if PastEnd(size, addr, 4) {
        return ReadError, value;
      }
      value := Or32(Or32(Or32(data[addr], Shl(data[addr + 1], 8)), Shl(data[addr + 2], 16)), Shl(data[addr + 3], 24));
      CombineFour(data[addr], data[addr + 1], data[addr + 2], data[addr + 3]);
      LE4(data[..][addr..addr + 4]);
      return MemOk, value;
    }

    method Write32(addr: u32, value: u32) returns (status: MemStatus)
      requires Valid() && 4 <= size
      modifies data
      ensures status == if addr % 4 != 0 then Misaligned else if addr + 4 > size then WriteError else MemOk
      ensures Contents() == if status.MemOk? then Store(old(Contents()), addr, 4, value) else old(Contents())
    {
      hide And32, Shr, Bytes, Store, Wrap;
      if addr % 4 != 0 {
        return Misaligned;
      }
      NoUnderflow(size, 4);
      if PastEnd(size, addr, 4) {
        return WriteError;
      }
      SplitBytes(value);
      var b0: byte, b1: byte := And32(value, 0xFF), And32(Shr(value, 8), 0xFF);
      var b2: byte, b3: byte := And32(Shr(value, 16), 0xFF), And32(Shr(value, 24), 0xFF);
      StoreByUpdates(Contents(), addr, 4, value, [b0, b1, b2, b3]);
      ghost var m0: seq<byte> := data[..];
      data[addr] := b0;
      assert data[..] == m0[addr := b0];
      data[addr + 1] := b1;
      assert data[..] == m0[addr := b0][addr + 1 := b1];
      data[addr + 2] := b2;
      assert data[..] == m0[addr := b0][addr + 1 := b1][addr + 2 := b2];
      data[addr + 3] := b3;
      assert data[..] == m0[addr := b0][addr + 1 := b1][addr + 2 := b2][addr + 3 := b3];
      return MemOk;
    }
  }

  lemma NoUnderflow(size: u32, n: nat)
    requires n <= size
    ensures Wrap(size - n) == size - n
  {
  }

  /** Combining a low part with a byte shifted above it. */
  lemma CombineByte(low: u32, b: byte, k: nat, unit: nat)
    requires k <= 24 && unit == Pow2(k) && low < unit && unit * b < 0x1_0000_0000
    ensures Or32(low, Shl(b, k)) == low + unit * b
  {
    hide Pow2, Or, Shl;
    var p := unit * b;
    assert b * unit == p;
    ShlValue(b, k, unit);
    DivModUnique(p, unit, b, 0);
    OrDisjoint(p, low, k);
    OrCommutes(low, p);
  }

  lemma CombineTwo(a: byte, b: byte)
    ensures Or32(a, Shl(b, 8)) == a + 0x100 * b
  {
    Pow2Values();
    CombineByte(a, b, 8, 0x100);
  }

  lemma {:induction false} OrCommutes(x: nat, y: nat)
    ensures Or(x, y) == Or(y, x)
  {
    if x != 0 && y != 0 { OrCommutes(x / 2, y / 2); }
  }

  lemma CombineFour(a: byte, b: byte, c: byte, d: byte)
    ensures Or32(Or32(Or32(a, Shl(b, 8)), Shl(c, 16)), Shl(d, 24))
         == a + 0x100 * b + 0x1_0000 * c + 0x100_0000 * d
  {
    hide Pow2, Or32, Shl;
    Pow2Values();
    CombineTwo(a, b);
    CombineByte(a + 0x100 * b, c, 16, 0x1_0000);
    CombineByte(a + 0x100 * b + 0x1_0000 * c, d, 24, 0x100_0000);
  }

  /** The bytes that the shift-and-mask code of the write methods produces. */
  lemma SplitBytes(v: u32)
    ensures And32(v, 0xFF) < 256 && And32(Shr(v, 8), 0xFF) < 256 && And32(Shr(v, 16), 0xFF) < 256 && And32(Shr(v, 24), 0xFF) < 256
    ensures Bytes(v, 4) == [And32(v, 0xFF), And32(Shr(v, 8), 0xFF), And32(Shr(v, 16), 0xFF), And32(Shr(v, 24), 0xFF)]
    ensures Bytes(v, 2) == [And32(v, 0xFF), And32(Shr(v, 8), 0xFF)]
  {
    hide Pow2, And;
    Pow2Values();
    AndMask(v, 8); AndMask(v / 0x100, 8); AndMask(v / 0x1_0000, 8); AndMask(v / 0x100_0000, 8);
    assert v / 0x1_0000 == v / 0x100 / 256 && v / 0x100_0000 == v / 0x1_0000 / 256;
    assert Bytes(v / 0x100_0000, 1) == [v / 0x100_0000 % 256] + Bytes(v / 0x100_0000 / 256, 0);
    assert Bytes(v / 0x1_0000, 2) == [v / 0x1_0000 % 256] + Bytes(v / 0x100_0000, 1);
    assert Bytes(v / 0x100, 3) == [v / 0x100 % 256] + Bytes(v / 0x1_0000, 2);
    assert Bytes(v / 0x100, 1) == [v / 0x100 % 256] + Bytes(v / 0x1_0000, 0);
  }
}
