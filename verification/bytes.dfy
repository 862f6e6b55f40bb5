/** Machine-level value types used by the store, and the fixed 4-byte
    encoding of a 32-bit unsigned integer used for the row id. */
module Bytes {

  newtype byte = x: int | 0 <= x < 0x100
  newtype uint32 = x: int | 0 <= x < 0x1_0000_0000
  newtype int32 = x: int | -0x8000_0000 <= x < 0x8000_0000

  /** Number of distinct `uint32` values; conversions into `uint32` wrap modulo this. */
  const UINT32_LIMIT: nat := 0x1_0000_0000

  datatype Option<T> = None | Some(value: T)

  /** A buffer of `n` zero bytes. */
  function Zeros(n: nat): (z: seq<byte>)
    ensures |z| == n
    ensures forall i :: 0 <= i < n ==> z[i] == 0
  {
    seq(n, _ => 0 as byte)
  }

  function Pow256(n: nat): (p: nat)
    ensures p >= 1
  {
    if n == 0 then 1 else 256 * Pow256(n - 1)
  }

  /** The low `n` bytes of `x`, least significant first. */
  function EncodeLE(x: nat, n: nat): (b: seq<byte>)
    ensures |b| == n
  {
    if n == 0 then [] else [(x % 256) as byte] + EncodeLE(x / 256, n - 1)
  }

  /** The number whose little-endian bytes are `b`; it fits in `|b|` bytes. */
  function DecodeLE(b: seq<byte>): (x: nat)
    ensures x < Pow256(|b|)
  {
    if |b| == 0 then 0 else b[0] as nat + 256 * DecodeLE(b[1..])
  }

  lemma {:induction false} DecodeEncodeLE(x: nat, n: nat)
    requires x < Pow256(n)
    ensures DecodeLE(EncodeLE(x, n)) == x
  {
    if n > 0 {
      var b := EncodeLE(x, n);
      assert b[1..] == EncodeLE(x / 256, n - 1);
      DecodeEncodeLE(x / 256, n - 1);
    }
  }

  lemma {:induction false} EncodeDecodeLE(b: seq<byte>)
    ensures EncodeLE(DecodeLE(b), |b|) == b
  {
    if |b| > 0 {
      var x := DecodeLE(b);
      assert x % 256 == b[0] as nat && x / 256 == DecodeLE(b[1..]);
      EncodeDecodeLE(b[1..]);
    }
  }

  lemma Pow256Word()
    ensures Pow256(4) == UINT32_LIMIT
  {
  }

  /** The id as stored: four bytes, least significant first. */
  function EncodeWord(w: uint32): (b: seq<byte>)
    ensures |b| == 4
    ensures DecodeLE(b) == w as nat
  {
    Pow256Word();
    DecodeEncodeLE(w as nat, 4);
    EncodeLE(w as nat, 4)
  }

  /** The id a 4-byte block holds: the one word whose encoding is that block. */
  function DecodeWord(b: seq<byte>): (w: uint32)
    requires |b| == 4
    ensures EncodeWord(w) == b
  {
    Pow256Word();
    EncodeDecodeLE(b);
    DecodeLE(b) as uint32
  }

  /** The word encoding is a bijection between `uint32` and 4-byte blocks. */
  lemma WordRoundTrip(w: uint32, b: seq<byte>)
    requires |b| == 4
    ensures DecodeWord(EncodeWord(w)) == w
    ensures EncodeWord(DecodeWord(b)) == b
  {
    Pow256Word();
    DecodeEncodeLE(w as nat, 4);
    EncodeDecodeLE(b);
  }
}
