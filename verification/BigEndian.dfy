/** Guest byte order: unsigned integers as big-endian byte sequences (`ps3_bswap32`, `struct.pack(">I")`). */
module BigEndian {

  type Byte = b: int | 0 <= b < 256
  type Bytes = seq<Byte>

  function Pow256(n: nat): nat { if n == 0 then 1 else 256 * Pow256(n - 1) }

  function Encode(v: nat, n: nat): (b: Bytes)
    ensures |b| == n
  {
    if n == 0 then [] else Encode(v / 256, n - 1) + [v % 256]
  }

  function Decode(b: Bytes): nat {
    if b == [] then 0 else Decode(b[..|b| - 1]) * 256 + b[|b| - 1]
  }

  lemma {:induction false} DecodeBelow(b: Bytes)
    ensures Decode(b) < Pow256(|b|)
  {
    if b != [] {
      DecodeBelow(b[..|b| - 1]);
    }
  }

  lemma {:induction false} DecodeEncode(v: nat, n: nat)
    requires v < Pow256(n)
    ensures Decode(Encode(v, n)) == v
  {
    if n > 0 {
      DecodeEncode(v / 256, n - 1);
      assert Encode(v, n)[..n - 1] == Encode(v / 256, n - 1);
    }
  }

  lemma {:induction false} EncodeDecode(b: Bytes)
    ensures Encode(Decode(b), |b|) == b
  {
    if b != [] {
      EncodeDecode(b[..|b| - 1]);
      assert Decode(b) / 256 == Decode(b[..|b| - 1]) && Decode(b) % 256 == b[|b| - 1];
    }
  }

  lemma {:induction false} Pow256Positive(n: nat)
    ensures Pow256(n) >= 1
  {
    if n > 0 {
      Pow256Positive(n - 1);
    }
  }
}
