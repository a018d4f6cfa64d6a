/** The fixed-width integers of the C and Go sources, and their little-endian byte form. */
module Numbers {

  type u8 = x: int | 0 <= x < 0x100
  type u16 = x: int | 0 <= x < 0x1_0000
  type u32 = x: int | 0 <= x < 0x1_0000_0000
  type u64 = x: int | 0 <= x < 0x1_0000_0000_0000_0000
  type i32 = x: int | -0x8000_0000 <= x < 0x8000_0000
  type i64 = x: int | -0x8000_0000_0000_0000 <= x < 0x8000_0000_0000_0000

  datatype Option<+T> = None | Some(value: T)

  function Pow256(n: nat): (p: nat)
    ensures p >= 1
  {
    if n == 0 then 1 else 256 * Pow256(n - 1)
  }

  /** The n low bytes of v, least significant first. */
  function ToLittleEndian(v: nat, n: nat): (bytes: seq<u8>)
    ensures |bytes| == n
  {
    if n == 0 then [] else [v % 256] + ToLittleEndian(v / 256, n - 1)
  }

  function FromLittleEndian(bytes: seq<u8>): (v: nat)
    ensures v < Pow256(|bytes|)
  {
    if bytes == [] then 0 else bytes[0] + 256 * FromLittleEndian(bytes[1..])
  }

  lemma {:induction false} LittleEndianDecodes(v: nat, n: nat)
    requires v < Pow256(n)
    ensures FromLittleEndian(ToLittleEndian(v, n)) == v
  {
    if n > 0 {
      LittleEndianDecodes(v / 256, n - 1);
      assert ToLittleEndian(v, n)[1..] == ToLittleEndian(v / 256, n - 1);
    }
  }

  lemma {:induction false} LittleEndianEncodes(bytes: seq<u8>)
    ensures ToLittleEndian(FromLittleEndian(bytes), |bytes|) == bytes
  {
    if bytes != [] {
      var first, v := bytes[0], FromLittleEndian(bytes[1..]);
      LittleEndianEncodes(bytes[1..]);
      LowByte(first, v);
      assert bytes == [first] + bytes[1..];
    }
  }

  lemma LowByte(first: u8, v: nat)
    ensures (first + 256 * v) % 256 == first && (first + 256 * v) / 256 == v
  {
  }

  lemma DivideBetween(x: int, width: int, q: nat)
    requires width > 0 && q * width <= x < q * width + width
    ensures x / width == q
  {
    var r := x / width;
    assert x == r * width + x % width;
    if r < q {
      MultiplyBoth(r + 1, q, width);
    } else if r > q {
      MultiplyBoth(q + 1, r, width);
    }
  }

  lemma DivideTwice(v: nat, p: nat)
    requires p > 0
    ensures v / 256 / p == v / (256 * p)
  {
    var q, r := v / 256 / p, v / 256 % p;
    assert v / 256 == q * p + r;
    assert v == 256 * (q * p + r) + v % 256;
    assert q * (256 * p) == 256 * (q * p);
    DivideBetween(v, 256 * p, q);
  }

  /** Byte i of a number is its i-th digit in base 256, the lowest first. */
  lemma {:induction false} LittleEndianByte(v: nat, n: nat, i: nat)
    requires i < n
    ensures ToLittleEndian(v, n)[i] == v / Pow256(i) % 256
  {
    if i > 0 {
      LittleEndianByte(v / 256, n - 1, i - 1);
      DivideTwice(v, Pow256(i - 1));
    }
  }

  lemma Widths()
    ensures Pow256(4) == 0x1_0000_0000
    ensures Pow256(8) == 0x1_0000_0000_0000_0000
  {
    assert Pow256(2) == 0x1_0000;
    assert Pow256(4) == 256 * (256 * Pow256(2));
    assert Pow256(6) == 256 * (256 * Pow256(4));
    assert Pow256(8) == 256 * (256 * Pow256(6));
  }

  lemma MultiplyBoth(a: int, b: int, k: nat)
    requires a <= b
    ensures a * k <= b * k
  {
  }

  /** Two numbers agree modulo 2^32. */
  predicate SameLowWord(v: int, w: int) {
    (v - w) % 0x1_0000_0000 == 0
  }

  /** The low 32 bits of a register value, read as a signed C int. */
  function TruncateToI32(v: int): (r: i32)
    ensures SameLowWord(v, r)
  {
    (v + 0x8000_0000) % 0x1_0000_0000 - 0x8000_0000
  }

  lemma TruncateKeeps(v: i32)
    ensures TruncateToI32(v) == v
  {
  }

  /** The two's-complement bits of a signed 32-bit value, and back. */
  function BitsOfI32(v: i32): u32 {
    if v < 0 then v + 0x1_0000_0000 else v
  }

  lemma BitsAgree(v: i32)
    ensures SameLowWord(v, BitsOfI32(v))
  {
  }

  function I32OfBits(b: u32): (v: i32)
    ensures BitsOfI32(v) == b
  {
    if b >= 0x8000_0000 then b - 0x1_0000_0000 else b
  }

  /** Go's conversion int64(x) of a uint64. */
  function I64OfU64(x: u64): i64 {
    if x >= 0x8000_0000_0000_0000 then x - 0x1_0000_0000_0000_0000 else x
  }

  /** It keeps the 64 bits: the result is x, or 2^64 less where x does not fit. */
  lemma I64KeepsBits(x: u64)
    ensures I64OfU64(x) == x || I64OfU64(x) == x - 0x1_0000_0000_0000_0000
  {
  }
}
