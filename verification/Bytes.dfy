/** The machine integers of the program, and how they lie in bytes. */
module Bytes {

  type byte = x: int | 0 <= x < 256

  type word = x: int | 0 <= x < 0x1_0000

  type uint32 = x: int | 0 <= x < 0x1_0000_0000

  type int32 = x: int | -0x8000_0000 <= x < 0x8000_0000

  /** A signed count: a negative one is none. */
  function CountOf(n: int): nat {
    if n < 0 then 0 else n
  }

  function Zeros(n: nat): (s: seq<byte>)
    ensures |s| == n
  {
    seq(n, _ => 0)
  }

  /** A word as the two bytes it is stored in, low byte first. */
  function Bytes2(w: word): (s: seq<byte>)
    ensures |s| == 2
  {
    [w % 256, w / 256]
  }

  function Word2(s: seq<byte>): word
    requires |s| == 2
  {
    var lo: nat, hi: nat := s[0], s[1];
    hi * 256 + lo
  }

  lemma Word2OfBytes2(w: word)
    ensures Word2(Bytes2(w)) == w
  {
  }

  function Bytes4(w: uint32): (s: seq<byte>)
    ensures |s| == 4
  {
    [w % 256, w / 256 % 256, w / 65536 % 256, w / 16777216]
  }

  function Word4(s: seq<byte>): uint32
    requires |s| == 4
  {
    var b0: nat, b1: nat, b2: nat, b3: nat := s[0], s[1], s[2], s[3];
    b0 + b1 * 256 + b2 * 65536 + b3 * 16777216
  }

  lemma Word4OfBytes4(w: uint32)
    ensures Word4(Bytes4(w)) == w
  {
    assert w / 65536 == w / 256 / 256 && w / 16777216 == w / 256 / 256 / 256;
  }

  /** The low-order byte comes first: a byte put below a number goes in front of its bytes. */
  lemma LowByteFirst(v: nat, b: byte)
    requires v < 0x100_0000
    ensures Bytes4(256 * v + b) == [b] + Bytes4(v)[..3] && Bytes4(v)[3] == 0 && Bytes4(0) == [0, 0, 0, 0]
    ensures v < 0x100 ==> Bytes2(256 * v + b) == [b, v]
  {
    var w := 256 * v + b;
    assert w % 256 == b && w / 256 == v;
    assert w / 65536 == w / 256 / 256 && w / 16777216 == w / 256 / 65536;
  }
}
