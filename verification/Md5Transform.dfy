/** The MD5 compression of one block: the steps of section 3.4 of RFC 1321, and the program's unrolled
    form of them. */
module Md5Transform {
  import opened Bytes
  import opened Md5Bits

  const WORD: int := 0x1_0000_0000

  // ----- The auxiliary functions -----

  function F(x: uint32, y: uint32, z: uint32): uint32 {
    FBits(x as bv32, y as bv32, z as bv32) as int
  }

  function G(x: uint32, y: uint32, z: uint32): uint32 {
    GBits(x as bv32, y as bv32, z as bv32) as int
  }

  function H(x: uint32, y: uint32, z: uint32): uint32 {
    HBits(x as bv32, y as bv32, z as bv32) as int
  }

  function I(x: uint32, y: uint32, z: uint32): uint32 {
    IBits(x as bv32, y as bv32, z as bv32) as int
  }

  function RotateLeft(x: uint32, n: nat): uint32
    requires n <= 32
  {
    RotateBits(x as bv32, n as bv6) as int
  }

  // ----- The steps by number -----

  datatype Registers = Registers(a: uint32, b: uint32, c: uint32, d: uint32)

  /** The table of section 3.4, one row for each round. */
  function T(round: nat): (t: seq<uint32>)
    requires round < 4
    ensures |t| == 16
  {
    if round == 0 then
      [0xd76aa478, 0xe8c7b756, 0x242070db, 0xc1bdceee, 0xf57c0faf, 0x4787c62a, 0xa8304613, 0xfd469501,
       0x698098d8, 0x8b44f7af, 0xffff5bb1, 0x895cd7be, 0x6b901122, 0xfd987193, 0xa679438e, 0x49b40821]
    else if round == 1 then
      [0xf61e2562, 0xc040b340, 0x265e5a51, 0xe9b6c7aa, 0xd62f105d, 0x02441453, 0xd8a1e681, 0xe7d3fbc8,
       0x21e1cde6, 0xc33707d6, 0xf4d50d87, 0x455a14ed, 0xa9e3e905, 0xfcefa3f8, 0x676f02d9, 0x8d2a4c8a]
    else if round == 2 then
      [0xfffa3942, 0x8771f681, 0x6d9d6122, 0xfde5380c, 0xa4beea44, 0x4bdecfa9, 0xf6bb4b60, 0xbebfbc70,
       0x289b7ec6, 0xeaa127fa, 0xd4ef3085, 0x04881d05, 0xd9d4d039, 0xe6db99e5, 0x1fa27cf8, 0xc4ac5665]
    else
      [0xf4292244, 0x432aff97, 0xab9423a7, 0xfc93a039, 0x655b59c3, 0x8f0ccc92, 0xffeff47d, 0x85845dd1,
       0x6fa87e4f, 0xfe2ce6e0, 0xa3014314, 0x4e0811a1, 0xf7537e82, 0xbd3af235, 0x2ad7d2bb, 0xeb86d391]
  }

  /** How far step `j` of a round rotates. */
  function Shift(round: nat, j: nat): (s: nat)
    ensures s <= 32
  {
    var row := if round == 0 then [7, 12, 17, 22] else if round == 1 then [5, 9, 14, 20]
               else if round == 2 then [4, 11, 16, 23] else [6, 10, 15, 21];
    row[j % 4]
  }

  /** Which word of the block step `j` of a round uses. */
  function Index(round: nat, j: nat): (k: nat)
    ensures k < 16
  {
    if round == 0 then j % 16
    else if round == 1 then (5 * j + 1) % 16
    else if round == 2 then (3 * j + 5) % 16
    else 7 * j % 16
  }

  /** The auxiliary function of a round. */
  function Blend(round: nat, x: uint32, y: uint32, z: uint32): uint32 {
    if round == 0 then F(x, y, z)
    else if round == 1 then G(x, y, z)
    else if round == 2 then H(x, y, z)
    else I(x, y, z)
  }

  /** One operation: a = b + ((a + mix(b,c,d) + word + constant) <<< s). */
  function Op(a: uint32, b: uint32, mix: uint32, word: uint32, s: nat, ac: uint32): uint32
    requires s <= 32
  {
    (RotateLeft((a + mix + word + ac) % WORD, s) + b) % WORD
  }

  /** Step `j` of a round; the registers change places. */
  function Step(round: nat, j: nat, q: Registers, x: seq<uint32>): Registers
    requires round < 4 && j < 16 && |x| == 16
  {
    Registers(q.d, Op(q.a, q.b, Blend(round, q.b, q.c, q.d), x[Index(round, j)], Shift(round, j), T(round)[j]), q.b, q.c)
  }

  /** The first `n` steps of a round. */
  function Steps(round: nat, n: nat, q: Registers, x: seq<uint32>): Registers
    requires round < 4 && n <= 16 && |x| == 16
  {
    if n == 0 then q else Step(round, n - 1, Steps(round, n - 1, q, x), x)
  }

  lemma Start(round: nat, q: Registers, x: seq<uint32>)
    requires round < 4 && |x| == 16
    ensures Steps(round, 0, q, x) == q
  {
  }

  /** All sixteen steps of a round. */
  function Round(round: nat, q: Registers, x: seq<uint32>): Registers
    requires round < 4 && |x| == 16
  {
    Steps(round, |x|, q, x)
  }

  /** The first `n` rounds. */
  function Rounds(n: nat, q: Registers, x: seq<uint32>): Registers
    requires n <= 4 && |x| == 16
  {
    if n == 0 then q else Round(n - 1, Rounds(n - 1, q, x), x)
  }

  lemma FourRounds(q: Registers, x: seq<uint32>)
    requires |x| == 16
    ensures Rounds(4, q, x) == Round(3, Round(2, Round(1, Round(0, q, x), x), x), x)
  {
    hide Round;
    assert Rounds(0, q, x) == q;
    assert Rounds(1, q, x) == Round(0, q, x);
    assert Rounds(2, q, x) == Round(1, Rounds(1, q, x), x);
    assert Rounds(3, q, x) == Round(2, Rounds(2, q, x), x);
  }

  /** The parameters of a step. */
  predicate Given(round: nat, n: nat, k: nat, s: nat, ac: uint32) {
    round < 4 && n < 16 && k == Index(round, n) && s == Shift(round, n) && ac == T(round)[n]
  }

  /** One more step, with the parameters the program's text gives it. */
  lemma Next(round: nat, n: nat, q: Registers, x: seq<uint32>, k: nat, s: nat, ac: uint32)
    requires Given(round, n, k, s, ac) && |x| == 16
    ensures n < 16 && k < 16 && s <= 32
    ensures var p := Steps(round, n, q, x);
            Steps(round, n + 1, q, x) == Registers(p.d, Op(p.a, p.b, Blend(round, p.b, p.c, p.d), x[k], s, ac), p.b, p.c)
  {
  }

  // ----- The program's rounds -----

  function FF(a: uint32, b: uint32, c: uint32, d: uint32, x: uint32, s: nat, ac: uint32): uint32
    requires s <= 32
  {
    Op(a, b, F(b, c, d), x, s, ac)
  }

  function GG(a: uint32, b: uint32, c: uint32, d: uint32, x: uint32, s: nat, ac: uint32): uint32
    requires s <= 32
  {
    Op(a, b, G(b, c, d), x, s, ac)
  }

  function HH(a: uint32, b: uint32, c: uint32, d: uint32, x: uint32, s: nat, ac: uint32): uint32
    requires s <= 32
  {
    Op(a, b, H(b, c, d), x, s, ac)
  }

  function II(a: uint32, b: uint32, c: uint32, d: uint32, x: uint32, s: nat, ac: uint32): uint32
    requires s <= 32
  {
    Op(a, b, I(b, c, d), x, s, ac)
  }

  lemma Parameters1()
    ensures Given(0, 0, 0, 7, 0xd76aa478) && Given(0, 1, 1, 12, 0xe8c7b756)
    ensures Given(0, 2, 2, 17, 0x242070db) && Given(0, 3, 3, 22, 0xc1bdceee)
    ensures Given(0, 4, 4, 7, 0xf57c0faf) && Given(0, 5, 5, 12, 0x4787c62a)
    ensures Given(0, 6, 6, 17, 0xa8304613) && Given(0, 7, 7, 22, 0xfd469501)
    ensures Given(0, 8, 8, 7, 0x698098d8) && Given(0, 9, 9, 12, 0x8b44f7af)
    ensures Given(0, 10, 10, 17, 0xffff5bb1) && Given(0, 11, 11, 22, 0x895cd7be)
    ensures Given(0, 12, 12, 7, 0x6b901122) && Given(0, 13, 13, 12, 0xfd987193)
    ensures Given(0, 14, 14, 17, 0xa679438e) && Given(0, 15, 15, 22, 0x49b40821)
  {
  }

  method Round1(q: Registers, x: seq<uint32>) returns (r: Registers)
    requires |x| == 16
    ensures r == Round(0, q, x)
  {
    hide F, G, H, I, Op, Steps, Given;
    Parameters1();
    var a, b, c, d := q.a, q.b, q.c, q.d;
    Start(0, q, x);
    Next(0, 0, q, x, 0, 7, 0xd76aa478);
    a := FF(a, b, c, d, x[0], 7, 0xd76aa478);
    Next(0, 1, q, x, 1, 12, 0xe8c7b756);
    d := FF(d, a, b, c, x[1], 12, 0xe8c7b756);
    Next(0, 2, q, x, 2, 17, 0x242070db);
    c := FF(c, d, a, b, x[2], 17, 0x242070db);
    Next(0, 3, q, x, 3, 22, 0xc1bdceee);
    b := FF(b, c, d, a, x[3], 22, 0xc1bdceee);
    Next(0, 4, q, x, 4, 7, 0xf57c0faf);
    a := FF(a, b, c, d, x[4], 7, 0xf57c0faf);
    Next(0, 5, q, x, 5, 12, 0x4787c62a);
    d := FF(d, a, b, c, x[5], 12, 0x4787c62a);
    Next(0, 6, q, x, 6, 17, 0xa8304613);
    c := FF(c, d, a, b, x[6], 17, 0xa8304613);
    Next(0, 7, q, x, 7, 22, 0xfd469501);
    b := FF(b, c, d, a, x[7], 22, 0xfd469501);
    Next(0, 8, q, x, 8, 7, 0x698098d8);
    a := FF(a, b, c, d, x[8], 7, 0x698098d8);
    Next(0, 9, q, x, 9, 12, 0x8b44f7af);
    d := FF(d, a, b, c, x[9], 12, 0x8b44f7af);
    Next(0, 10, q, x, 10, 17, 0xffff5bb1);
    c := FF(c, d, a, b, x[10], 17, 0xffff5bb1);
    Next(0, 11, q, x, 11, 22, 0x895cd7be);
    b := FF(b, c, d, a, x[11], 22, 0x895cd7be);
    Next(0, 12, q, x, 12, 7, 0x6b901122);
    a := FF(a, b, c, d, x[12], 7, 0x6b901122);
    Next(0, 13, q, x, 13, 12, 0xfd987193);
    d := FF(d, a, b, c, x[13], 12, 0xfd987193);
    Next(0, 14, q, x, 14, 17, 0xa679438e);
    c := FF(c, d, a, b, x[14], 17, 0xa679438e);
    Next(0, 15, q, x, 15, 22, 0x49b40821);
    b := FF(b, c, d, a, x[15], 22, 0x49b40821);
    r := Registers(a, b, c, d);
  }

  lemma Parameters2()
    ensures Given(1, 0, 1, 5, 0xf61e2562) && Given(1, 1, 6, 9, 0xc040b340)
    ensures Given(1, 2, 11, 14, 0x265e5a51) && Given(1, 3, 0, 20, 0xe9b6c7aa)
    ensures Given(1, 4, 5, 5, 0xd62f105d) && Given(1, 5, 10, 9, 0x2441453)
    ensures Given(1, 6, 15, 14, 0xd8a1e681) && Given(1, 7, 4, 20, 0xe7d3fbc8)
    ensures Given(1, 8, 9, 5, 0x21e1cde6) && Given(1, 9, 14, 9, 0xc33707d6)
    ensures Given(1, 10, 3, 14, 0xf4d50d87) && Given(1, 11, 8, 20, 0x455a14ed)
    ensures Given(1, 12, 13, 5, 0xa9e3e905) && Given(1, 13, 2, 9, 0xfcefa3f8)
    ensures Given(1, 14, 7, 14, 0x676f02d9) && Given(1, 15, 12, 20, 0x8d2a4c8a)
  {
  }

  method Round2(q: Registers, x: seq<uint32>) returns (r: Registers)
    requires |x| == 16
    ensures r == Round(1, q, x)
  {
    hide F, G, H, I, Op, Steps, Given;
    Parameters2();
    var a, b, c, d := q.a, q.b, q.c, q.d;
    Start(1, q, x);
    Next(1, 0, q, x, 1, 5, 0xf61e2562);
    a := GG(a, b, c, d, x[1], 5, 0xf61e2562);
    Next(1, 1, q, x, 6, 9, 0xc040b340);
    d := GG(d, a, b, c, x[6], 9, 0xc040b340);
    Next(1, 2, q, x, 11, 14, 0x265e5a51);
    c := GG(c, d, a, b, x[11], 14, 0x265e5a51);
    Next(1, 3, q, x, 0, 20, 0xe9b6c7aa);
    b := GG(b, c, d, a, x[0], 20, 0xe9b6c7aa);
    Next(1, 4, q, x, 5, 5, 0xd62f105d);
    a := GG(a, b, c, d, x[5], 5, 0xd62f105d);
    Next(1, 5, q, x, 10, 9, 0x2441453);
    d := GG(d, a, b, c, x[10], 9, 0x2441453);
    Next(1, 6, q, x, 15, 14, 0xd8a1e681);
    c := GG(c, d, a, b, x[15], 14, 0xd8a1e681);
    Next(1, 7, q, x, 4, 20, 0xe7d3fbc8);
    b := GG(b, c, d, a, x[4], 20, 0xe7d3fbc8);
    Next(1, 8, q, x, 9, 5, 0x21e1cde6);
    a := GG(a, b, c, d, x[9], 5, 0x21e1cde6);
    Next(1, 9, q, x, 14, 9, 0xc33707d6);
    d := GG(d, a, b, c, x[14], 9, 0xc33707d6);
    Next(1, 10, q, x, 3, 14, 0xf4d50d87);
    c := GG(c, d, a, b, x[3], 14, 0xf4d50d87);
    Next(1, 11, q, x, 8, 20, 0x455a14ed);
    b := GG(b, c, d, a, x[8], 20, 0x455a14ed);
    Next(1, 12, q, x, 13, 5, 0xa9e3e905);
    a := GG(a, b, c, d, x[13], 5, 0xa9e3e905);
    Next(1, 13, q, x, 2, 9, 0xfcefa3f8);
    d := GG(d, a, b, c, x[2], 9, 0xfcefa3f8);
    Next(1, 14, q, x, 7, 14, 0x676f02d9);
    c := GG(c, d, a, b, x[7], 14, 0x676f02d9);
    Next(1, 15, q, x, 12, 20, 0x8d2a4c8a);
    b := GG(b, c, d, a, x[12], 20, 0x8d2a4c8a);
    r := Registers(a, b, c, d);
  }

  lemma Parameters3()
    ensures Given(2, 0, 5, 4, 0xfffa3942) && Given(2, 1, 8, 11, 0x8771f681)
    ensures Given(2, 2, 11, 16, 0x6d9d6122) && Given(2, 3, 14, 23, 0xfde5380c)
    ensures Given(2, 4, 1, 4, 0xa4beea44) && Given(2, 5, 4, 11, 0x4bdecfa9)
    ensures Given(2, 6, 7, 16, 0xf6bb4b60) && Given(2, 7, 10, 23, 0xbebfbc70)
    ensures Given(2, 8, 13, 4, 0x289b7ec6) && Given(2, 9, 0, 11, 0xeaa127fa)
    ensures Given(2, 10, 3, 16, 0xd4ef3085) && Given(2, 11, 6, 23, 0x4881d05)
    ensures Given(2, 12, 9, 4, 0xd9d4d039) && Given(2, 13, 12, 11, 0xe6db99e5)
    ensures Given(2, 14, 15, 16, 0x1fa27cf8) && Given(2, 15, 2, 23, 0xc4ac5665)
  {
  }

  method Round3(q: Registers, x: seq<uint32>) returns (r: Registers)
    requires |x| == 16
    ensures r == Round(2, q, x)
  {
    hide F, G, H, I, Op, Steps, Given;
    Parameters3();
    var a, b, c, d := q.a, q.b, q.c, q.d;
    Start(2, q, x);
    Next(2, 0, q, x, 5, 4, 0xfffa3942);
    a := HH(a, b, c, d, x[5], 4, 0xfffa3942);
    Next(2, 1, q, x, 8, 11, 0x8771f681);
    d := HH(d, a, b, c, x[8], 11, 0x8771f681);
    Next(2, 2, q, x, 11, 16, 0x6d9d6122);
    c := HH(c, d, a, b, x[11], 16, 0x6d9d6122);
    Next(2, 3, q, x, 14, 23, 0xfde5380c);
    b := HH(b, c, d, a, x[14], 23, 0xfde5380c);
    Next(2, 4, q, x, 1, 4, 0xa4beea44);
    a := HH(a, b, c, d, x[1], 4, 0xa4beea44);
    Next(2, 5, q, x, 4, 11, 0x4bdecfa9);
    d := HH(d, a, b, c, x[4], 11, 0x4bdecfa9);
    Next(2, 6, q, x, 7, 16, 0xf6bb4b60);
    c := HH(c, d, a, b, x[7], 16, 0xf6bb4b60);
    Next(2, 7, q, x, 10, 23, 0xbebfbc70);
    b := HH(b, c, d, a, x[10], 23, 0xbebfbc70);
    Next(2, 8, q, x, 13, 4, 0x289b7ec6);
    a := HH(a, b, c, d, x[13], 4, 0x289b7ec6);
    Next(2, 9, q, x, 0, 11, 0xeaa127fa);
    d := HH(d, a, b, c, x[0], 11, 0xeaa127fa);
    Next(2, 10, q, x, 3, 16, 0xd4ef3085);
    c := HH(c, d, a, b, x[3], 16, 0xd4ef3085);
    Next(2, 11, q, x, 6, 23, 0x4881d05);
    b := HH(b, c, d, a, x[6], 23, 0x4881d05);
    Next(2, 12, q, x, 9, 4, 0xd9d4d039);
    a := HH(a, b, c, d, x[9], 4, 0xd9d4d039);
    Next(2, 13, q, x, 12, 11, 0xe6db99e5);
    d := HH(d, a, b, c, x[12], 11, 0xe6db99e5);
    Next(2, 14, q, x, 15, 16, 0x1fa27cf8);
    c := HH(c, d, a, b, x[15], 16, 0x1fa27cf8);
    Next(2, 15, q, x, 2, 23, 0xc4ac5665);
    b := HH(b, c, d, a, x[2], 23, 0xc4ac5665);
    r := Registers(a, b, c, d);
  }

  lemma Parameters4()
    ensures Given(3, 0, 0, 6, 0xf4292244) && Given(3, 1, 7, 10, 0x432aff97)
    ensures Given(3, 2, 14, 15, 0xab9423a7) && Given(3, 3, 5, 21, 0xfc93a039)
    ensures Given(3, 4, 12, 6, 0x655b59c3) && Given(3, 5, 3, 10, 0x8f0ccc92)
    ensures Given(3, 6, 10, 15, 0xffeff47d) && Given(3, 7, 1, 21, 0x85845dd1)
    ensures Given(3, 8, 8, 6, 0x6fa87e4f) && Given(3, 9, 15, 10, 0xfe2ce6e0)
    ensures Given(3, 10, 6, 15, 0xa3014314) && Given(3, 11, 13, 21, 0x4e0811a1)
    ensures Given(3, 12, 4, 6, 0xf7537e82) && Given(3, 13, 11, 10, 0xbd3af235)
    ensures Given(3, 14, 2, 15, 0x2ad7d2bb) && Given(3, 15, 9, 21, 0xeb86d391)
  {
  }

  method Round4(q: Registers, x: seq<uint32>) returns (r: Registers)
    requires |x| == 16
    ensures r == Round(3, q, x)
  {
    hide F, G, H, I, Op, Steps, Given;
    Parameters4();
    var a, b, c, d := q.a, q.b, q.c, q.d;
    Start(3, q, x);
    Next(3, 0, q, x, 0, 6, 0xf4292244);
    a := II(a, b, c, d, x[0], 6, 0xf4292244);
    Next(3, 1, q, x, 7, 10, 0x432aff97);
    d := II(d, a, b, c, x[7], 10, 0x432aff97);
    Next(3, 2, q, x, 14, 15, 0xab9423a7);
    c := II(c, d, a, b, x[14], 15, 0xab9423a7);
    Next(3, 3, q, x, 5, 21, 0xfc93a039);
    b := II(b, c, d, a, x[5], 21, 0xfc93a039);
    Next(3, 4, q, x, 12, 6, 0x655b59c3);
    a := II(a, b, c, d, x[12], 6, 0x655b59c3);
    Next(3, 5, q, x, 3, 10, 0x8f0ccc92);
    d := II(d, a, b, c, x[3], 10, 0x8f0ccc92);
    Next(3, 6, q, x, 10, 15, 0xffeff47d);
    c := II(c, d, a, b, x[10], 15, 0xffeff47d);
    Next(3, 7, q, x, 1, 21, 0x85845dd1);
    b := II(b, c, d, a, x[1], 21, 0x85845dd1);
    Next(3, 8, q, x, 8, 6, 0x6fa87e4f);
    a := II(a, b, c, d, x[8], 6, 0x6fa87e4f);
    Next(3, 9, q, x, 15, 10, 0xfe2ce6e0);
    d := II(d, a, b, c, x[15], 10, 0xfe2ce6e0);
    Next(3, 10, q, x, 6, 15, 0xa3014314);
    c := II(c, d, a, b, x[6], 15, 0xa3014314);
    Next(3, 11, q, x, 13, 21, 0x4e0811a1);
    b := II(b, c, d, a, x[13], 21, 0x4e0811a1);
    Next(3, 12, q, x, 4, 6, 0xf7537e82);
    a := II(a, b, c, d, x[4], 6, 0xf7537e82);
    Next(3, 13, q, x, 11, 10, 0xbd3af235);
    d := II(d, a, b, c, x[11], 10, 0xbd3af235);
    Next(3, 14, q, x, 2, 15, 0x2ad7d2bb);
    c := II(c, d, a, b, x[2], 15, 0x2ad7d2bb);
    Next(3, 15, q, x, 9, 21, 0xeb86d391);
    b := II(b, c, d, a, x[9], 21, 0xeb86d391);
    r := Registers(a, b, c, d);
  }

  /** The four rounds one after the other. */
  method AllRounds(q: Registers, x: seq<uint32>) returns (r: Registers)
    requires |x| == 16
    ensures r == Rounds(4, q, x)
  {
    FourRounds(q, x);
    hide *;
    r := Round1(q, x);
    r := Round2(r, x);
    r := Round3(r, x);
    r := Round4(r, x);
  }
}
