/** Bytes, and numbers written as bytes in either byte order. */
module Bytes {
  type Byte = b: int | 0 <= b < 256

  /** The order of the bytes of a number: most significant first, as in network order, or last. */
  datatype Order = Network | Reversed

  function Arrange(o: Order, s: seq<Byte>): seq<Byte> {
    if o.Network? then s else seq(|s|, i requires 0 <= i < |s| => s[|s| - 1 - i])
  }

  /** The bytes of a number, the most significant one first. */
  function BigEndian(v: nat, width: nat): (s: seq<Byte>)
    ensures |s| == width
  {
    if width == 0 then [] else BigEndian(v / 256, width - 1) + [v % 256]
  }

  function Number(s: seq<Byte>): nat {
    if s == [] then 0 else Number(s[..|s| - 1]) * 256 + s[|s| - 1]
  }

  function Power(width: nat): nat {
    if width == 0 then 1 else 256 * Power(width - 1)
  }

  lemma {:induction false} NumberOfBytes(v: nat, width: nat)
    requires v < Power(width)
    ensures Number(BigEndian(v, width)) == v
  {
    if width > 0 {
      NumberOfBytes(v / 256, width - 1);
      assert BigEndian(v, width)[..width - 1] == BigEndian(v / 256, width - 1);
    }
  }
}
