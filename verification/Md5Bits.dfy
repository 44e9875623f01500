/** The bit operations of MD5 (section 3.4 of RFC 1321), and what they do to the bits of a word. */
module Md5Bits {

  function FBits(x: bv32, y: bv32, z: bv32): bv32 {
    (x & y) | (!x & z)
  }

  function GBits(x: bv32, y: bv32, z: bv32): bv32 {
    (x & z) | (y & !z)
  }

  function HBits(x: bv32, y: bv32, z: bv32): bv32 {
    x ^ y ^ z
  }

  function IBits(x: bv32, y: bv32, z: bv32): bv32 {
    y ^ (x | !z)
  }

  /** `ROTATE_LEFT`. */
  function RotateBits(x: bv32, n: bv6): bv32
    requires n <= 32
  {
    (x << n) | (x >> (32 - n))
  }

  /** F takes the bits of y where x has ones, and those of z elsewhere. */
  lemma FChooses(x: bv32, y: bv32, z: bv32)
    ensures FBits(x, y, z) & x == y & x
    ensures FBits(x, y, z) & !x == z & !x
  {
  }

  /** G takes the bits of x where z has ones, and those of y elsewhere. */
  lemma GChooses(x: bv32, y: bv32, z: bv32)
    ensures GBits(x, y, z) & z == x & z
    ensures GBits(x, y, z) & !z == y & !z
  {
  }

  /** H is the parity: places where x and y agree show the bits of z. */
  lemma HWhereTheyAgree(x: bv32, y: bv32, z: bv32, places: bv32)
    requires x & places == y & places
    ensures HBits(x, y, z) & places == z & places
  {
  }

  /** Places where they differ show the bits of z inverted. */
  lemma HWhereTheyDiffer(x: bv32, y: bv32, z: bv32, places: bv32)
    requires x & places == !y & places
    ensures HBits(x, y, z) & places == !z & places
  {
  }

  /** I takes the bits of y at places where z has ones and x has none. */
  lemma IKeeps(x: bv32, y: bv32, z: bv32, places: bv32)
    requires z & places == places && x & places == 0
    ensures IBits(x, y, z) & places == y & places
  {
  }

  /** It inverts them where x has ones or z has none. */
  lemma IInverts(x: bv32, y: bv32, z: bv32, places: bv32)
    requires x & places == places || z & places == 0
    ensures IBits(x, y, z) & places == !y & places
  {
  }

  /** The low `n` bits of a word. */
  function Low(x: bv32, n: bv6): bv32
    requires n <= 32
  {
    x & ((1 << n) - 1)
  }

  /** A rotation by `n` moves the low bits `n` places up; the `n` high ones come in below. */
  lemma RotationMovesUp(x: bv32, n: bv6)
    requires n <= 32
    ensures RotateBits(x, n) >> n == Low(x, 32 - n)
    ensures Low(RotateBits(x, n), n) == x >> (32 - n)
  {
  }
}
