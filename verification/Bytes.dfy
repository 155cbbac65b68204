/** Bytes, and the little-endian integers stored in them. */
module Bytes {

  newtype Byte = b: int | 0 <= b < 256

  function Power256(width: nat): nat {
    if width == 0 then 1 else 256 * Power256(width - 1)
  }

  function ReadLE(bytes: seq<Byte>): nat {
    if bytes == [] then 0 else bytes[0] as nat + 256 * ReadLE(bytes[1..])
  }

  function WriteLE(n: nat, width: nat): (bytes: seq<Byte>)
    ensures |bytes| == width
  {
    if width == 0 then [] else [(n % 256) as Byte] + WriteLE(n / 256, width - 1)
  }

  /** Reading what was written gives back the number, where it fits. */
  lemma {:induction false} ReadWrite(n: nat, width: nat)
    requires n < Power256(width)
    ensures ReadLE(WriteLE(n, width)) == n
  {
    if width == 0 {
    } else {
      ReadWrite(n / 256, width - 1);
      assert WriteLE(n, width)[1..] == WriteLE(n / 256, width - 1);
    }
  }

  lemma LowByte(first: nat, rest: nat)
    requires first < 256
    ensures (first + 256 * rest) % 256 == first && (first + 256 * rest) / 256 == rest
  {
  }

  /** Writing what was read gives back the bytes, and the number fits. */
  lemma {:induction false} WriteRead(bytes: seq<Byte>)
    ensures ReadLE(bytes) < Power256(|bytes|)
    ensures WriteLE(ReadLE(bytes), |bytes|) == bytes
  {
    if bytes == [] {
    } else {
      var first, rest := bytes[0] as nat, ReadLE(bytes[1..]);
      WriteRead(bytes[1..]);
      LowByte(first, rest);
      assert bytes == [bytes[0]] + bytes[1..];
    }
  }
}
