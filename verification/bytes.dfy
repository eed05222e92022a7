/** Bytes and the unsigned little-endian encoding that glTF 2.0 prescribes
    for every buffer (section 3.6.2 of the glTF 2.0 specification). */
module Bytes {

  type byte = x: int | 0 <= x < 256

  /** 256 to the power `n`: one past the largest `n`-byte unsigned value. */
  function Pow256(n: nat): (r: nat)
    ensures r > 0
  {
    if n == 0 then 1 else 256 * Pow256(n - 1)
  }

  /** The unsigned value of `bs` read least significant byte first. */
  function LittleEndian(bs: seq<byte>): (v: nat)
    ensures v < Pow256(|bs|)
  {
    if |bs| == 0 then 0
    else
      var rest := LittleEndian(bs[1..]);
      assert rest + 1 <= Pow256(|bs| - 1);
      assert 256 * (rest + 1) <= 256 * Pow256(|bs| - 1);
      bs[0] + 256 * rest
  }

  /** The `width`-byte little-endian encoding of `v`. */
  function ToLittleEndian(v: nat, width: nat): (bs: seq<byte>)
    requires v < Pow256(width)
    ensures |bs| == width
  {
    if width == 0 then []
    else
      assert v / 256 < Pow256(width - 1);
      [v % 256] + ToLittleEndian(v / 256, width - 1)
  }

  /** Decoding an encoding gives the value back. */
  lemma {:induction false} DecodeEncode(v: nat, width: nat)
    requires v < Pow256(width)
    ensures LittleEndian(ToLittleEndian(v, width)) == v
  {
    if width > 0 {
      var bs := ToLittleEndian(v, width);
      assert bs[1..] == ToLittleEndian(v / 256, width - 1);
      DecodeEncode(v / 256, width - 1);
    }
  }

  /** Encoding a decoded byte string gives the bytes back, so the encoding
      is a bijection between `width`-byte strings and values below
      `Pow256(width)`. */
  lemma {:induction false} EncodeDecode(bs: seq<byte>)
    ensures ToLittleEndian(LittleEndian(bs), |bs|) == bs
  {
    if |bs| > 0 {
      var v := LittleEndian(bs);
      assert v % 256 == bs[0] && v / 256 == LittleEndian(bs[1..]);
      EncodeDecode(bs[1..]);
    }
  }

  lemma {:induction false} PowMonotonic(a: nat, b: nat)
    requires a <= b
    ensures Pow256(a) <= Pow256(b)
  {
    if a < b {
      PowMonotonic(a, b - 1);
    }
  }
}
