/**
 Shared vocabulary of the model: bytes, an Option type, the fixed machine
 widths the source relies on, and a little-endian codec for the fixed-width
 integers written into serialized buffers.
 */
module Common {

  newtype byte = x: int | 0 <= x < 256

  /** The values of a C++ uint32_t. */
  newtype uint32 = x: int | 0 <= x < 0x1_0000_0000

  datatype Option<+T> = None | Some(value: T)

  const TWO_32: nat := 0x1_0000_0000
  const TWO_64: nat := 0x1_0000_0000_0000_0000

  /** The largest size_t, used by the source as "+infinity" for minimum searches. */
  const SIZE_MAX: nat := TWO_64 - 1

  /** Conversion of a size_t index to uint32_t (C++ truncation modulo 2^32). */
  function Low32(n: nat): (r: nat)
    ensures r < TWO_32
    ensures n < TWO_32 ==> r == n
    ensures (n - r) % TWO_32 == 0
  {
    n % TWO_32
  }

  /** The same conversion, typed as a uint32 value. */
  function ToUint32(n: nat): (r: uint32)
    ensures r as nat == Low32(n)
  {
    Low32(n) as uint32
  }

  /** Conversion of a signed 64-bit value to size_t (two's complement reinterpretation). */
  function AsUnsigned64(n: int): (r: nat)
    ensures r < TWO_64
    ensures 0 <= n < TWO_64 ==> r == n
    ensures (n - r) % TWO_64 == 0
  {
    n % TWO_64
  }

  /** Conversion of an integer to int64_t (two's complement, modulo 2^64). */
  function ToInt64(n: int): (r: int)
    ensures -0x8000_0000_0000_0000 <= r < 0x8000_0000_0000_0000
    ensures -0x8000_0000_0000_0000 <= n < 0x8000_0000_0000_0000 ==> r == n
    ensures (n - r) % TWO_64 == 0
  {
    (n + 0x8000_0000_0000_0000) % TWO_64 - 0x8000_0000_0000_0000
  }

  function Pow256(k: nat): (r: nat)
    ensures r >= 1
  {
    if k == 0 then 1 else 256 * Pow256(k - 1)
  }

  lemma Pow256Widths()
    ensures Pow256(4) == TWO_32
    ensures Pow256(8) == TWO_64
  {
    assert Pow256(1) == 256;
    assert Pow256(2) == 0x1_0000;
    assert Pow256(3) == 0x100_0000;
    assert Pow256(4) == 0x1_0000_0000;
    assert Pow256(5) == 0x100_0000_0000;
    assert Pow256(6) == 0x1_0000_0000_0000;
    assert Pow256(7) == 0x100_0000_0000_0000;
  }

  /** Little-endian encoding of `n` in exactly `k` bytes. */
  function EncodeLE(n: nat, k: nat): (r: seq<byte>)
    requires n < Pow256(k)
    ensures |r| == k
  {
    if k == 0 then [] else [(n % 256) as byte] + EncodeLE(n / 256, k - 1)
  }

  /** Little-endian decoding of a byte string. */
  function DecodeLE(s: seq<byte>): nat {
    if |s| == 0 then 0 else s[0] as nat + 256 * DecodeLE(s[1..])
  }

  /** A decoded value is always representable in as many bytes as it was read from. */
  lemma {:induction false} DecodeLEBound(s: seq<byte>)
    ensures DecodeLE(s) < Pow256(|s|)
  {
    if |s| > 0 {
      DecodeLEBound(s[1..]);
      assert DecodeLE(s[1..]) <= Pow256(|s| - 1) - 1;
    }
  }

  lemma {:induction false} DecodeEncodeLE(n: nat, k: nat)
    requires n < Pow256(k)
    ensures DecodeLE(EncodeLE(n, k)) == n
  {
    if k > 0 {
      var q, r := n / 256, n % 256;
      assert n == 256 * q + r;
      assert q < Pow256(k - 1);
      var e := EncodeLE(n, k);
      assert e == [r as byte] + EncodeLE(q, k - 1);
      assert e[1..] == EncodeLE(q, k - 1);
      assert e[0] as nat == r;
      DecodeEncodeLE(q, k - 1);
      assert DecodeLE(e) == r + 256 * q;
    }
  }

  /** The 8-byte size_t field written by the serializer. */
  function EncodeU64(n: nat): (r: seq<byte>)
    requires n < TWO_64
    ensures |r| == 8
    ensures DecodeLE(r) == n
  {
    Pow256Widths();
    DecodeEncodeLE(n, 8);
    EncodeLE(n, 8)
  }

  /** The 4-byte uint32 field used by slot descriptors. */
  function EncodeU32(n: nat): (r: seq<byte>)
    requires n < TWO_32
    ensures |r| == 4
    ensures DecodeLE(r) == n
  {
    Pow256Widths();
    DecodeEncodeLE(n, 4);
    EncodeLE(n, 4)
  }
}
