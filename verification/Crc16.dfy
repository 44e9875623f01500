/** The CRC-16 of the stored files, and what it has to do with polynomials over GF(2). */
module Crc16 {
  import opened Bytes
  import opened CrcTable

  type octet = bv8

  // ----- Bits -----

  /** The bits of an octet, high-order bit first. */
  function BitsOf(b: octet): (s: seq<bool>)
    ensures |s| == 8
  {
    [b & 0x80 != 0, b & 0x40 != 0, b & 0x20 != 0, b & 0x10 != 0,
     b & 0x08 != 0, b & 0x04 != 0, b & 0x02 != 0, b & 0x01 != 0]
  }

  function Bits(m: seq<octet>): (s: seq<bool>)
    ensures |s| == 8 * |m|
  {
    if m == [] then [] else Bits(m[..|m| - 1]) + BitsOf(m[|m| - 1])
  }

  function ZeroBits(n: nat): (s: seq<bool>)
    ensures |s| == n
  {
    seq(n, _ => false)
  }

  function One(bit: bool): bv16 {
    if bit then 1 else 0
  }

  function Top(bit: bool): bv16 {
    if bit then 0x8000 else 0
  }

  /** Long division of a bit string by x^16 + x^12 + x^5 + 1: the remainder takes in bit after bit. */
  function Remainder(bits: seq<bool>): bv16 {
    if bits == [] then 0 else Xor(Shift(Remainder(bits[..|bits| - 1])), One(bits[|bits| - 1]))
  }

  // ----- The program's register -----

  /** One byte through the table. */
  function Next(crc: bv16, b: octet): bv16 {
    (crc << 8) ^ Table(((crc >> 8) as bv8) ^ b)
  }

  function Update(crc: bv16, m: seq<octet>): bv16 {
    if m == [] then crc else Next(Update(crc, m[..|m| - 1]), m[|m| - 1])
  }

  function Crc(m: seq<octet>): bv16 {
    Update(0, m)
  }

  /** Piece by piece or in one go. */
  lemma {:induction false} UpdateAppends(crc: bv16, s: seq<octet>, t: seq<octet>)
    ensures Update(crc, s + t) == Update(Update(crc, s), t)
    decreases |t|
  {
    hide Next;
    if t == [] {
      assert s + t == s;
    } else {
      var t' := t[..|t| - 1];
      assert (s + t)[..|s + t| - 1] == s + t';
      UpdateAppends(crc, s, t');
    }
  }

  // ----- Checksums of bytes -----

  function Octets(m: seq<byte>): (s: seq<octet>)
    ensures |s| == |m|
  {
    seq(|m|, i requires 0 <= i < |m| => m[i] as bv8)
  }

  /** The CRC of a byte string. */
  function Sum(m: seq<byte>): word {
    Crc(Octets(m)) as int
  }

  /** The same, going on from a checksum so far. */
  function SumFrom(crc: word, m: seq<byte>): word {
    if m == [] then crc else Update(crc as bv16, Octets(m)) as int
  }

  lemma SumAppends(s: seq<byte>, t: seq<byte>)
    ensures Sum(s + t) == SumFrom(Sum(s), t)
  {
    hide Update;
    assert Octets(s + t) == Octets(s) + Octets(t);
    UpdateAppends(0, Octets(s), Octets(t));
    assert s + [] == s;
  }

  /** A checksum taken piece by piece, as the chunk loops do, is that of the whole. */
  lemma SumFromAppends(crc: word, s: seq<byte>, t: seq<byte>)
    ensures SumFrom(crc, s + t) == SumFrom(SumFrom(crc, s), t)
  {
    hide Update;
    assert Octets(s + t) == Octets(s) + Octets(t);
    UpdateAppends(crc as bv16, Octets(s), Octets(t));
    assert s + [] == s && [] + t == t;
  }

  lemma OneByteMore(crc: bv16, m: seq<byte>, i: nat)
    requires i < |m|
    ensures Update(crc, Octets(m[..i + 1])) == Next(Update(crc, Octets(m[..i])), m[i] as bv8)
  {
    hide Next;
    assert Octets(m[..i + 1])[..i] == Octets(m[..i]);
  }

  method CalculateCRC(buffer: array<byte>, count: int) returns (crc: word)
    requires CountOf(count) <= buffer.Length
    ensures crc == Sum(buffer[..CountOf(count)])
  {
    hide Update;
    if count <= 0 {
      NoBytes(0);
      return 0;
    }
    crc := RunOver(buffer, 0, count, 0);
  }

  /** `CalculateCRCStep` on `count` bytes from `from` on; the register is passed in and out. */
  method CalculateCRCStep(buffer: array<byte>, from: nat, count: int, crc: word) returns (crc': word)
    requires from + CountOf(count) <= buffer.Length
    ensures crc' == SumFrom(crc, buffer[from..from + CountOf(count)])
  {
    hide Update, Octets;
    if count <= 0 {
      NoBytes(crc as bv16);
      return crc;
    }
    crc' := RunOver(buffer, from, count, crc);
  }

  /** The loop of both. */
  method RunOver(buffer: array<byte>, from: nat, count: nat, crc: word) returns (crc': word)
    requires 0 < count && from + count <= buffer.Length
    ensures crc' == SumFrom(crc, buffer[from..from + count])
  {
    hide Next, Update;
    ghost var m := buffer[from..from + count];
    var temp := crc as bv16;
    var i := 0;
    NoBytes(temp);
    while i < count
      invariant 0 <= i <= count && temp == Update(crc as bv16, Octets(m[..i]))
    {
      OneByteMore(crc as bv16, m, i);
      temp := Next(temp, buffer[from + i] as bv8);
      i := i + 1;
    }
    assert m[..i] == m;
    return temp as int;
  }

  /** Zeros leave the register at zero. */
  lemma {:induction false} SumOfZeros(n: nat)
    ensures Sum(Zeros(n)) == 0
  {
    if n == 0 {
      assert Octets(Zeros(0)) == [];
    } else {
      SumOfZeros(n - 1);
      assert Zeros(n)[..n - 1] == Zeros(n - 1) && Zeros(n)[..n] == Zeros(n);
      OneByteMore(0, Zeros(n), n - 1);
      assert Next(0, 0) == 0;
    }
  }

  lemma NoBytes(crc: bv16)
    ensures Update(crc, Octets([])) == crc
  {
    assert Octets([]) == [];
  }

  // ----- Sums of polynomials -----

  lemma XorAssociates(a: bv16, b: bv16, c: bv16)
    ensures Xor(Xor(a, b), c) == Xor(a, Xor(b, c))
  {
  }

  lemma XorCommutes(a: bv16, b: bv16)
    ensures Xor(a, b) == Xor(b, a)
  {
  }

  lemma XorZero(a: bv16)
    ensures Xor(a, 0) == a
  {
  }

  lemma XorCancels(a: bv16, b: bv16)
    ensures Xor(a, b) == 0 <==> a == b
  {
  }

  lemma XorLaws(a: bv16, b: bv16, c: bv16)
    ensures Xor(Xor(a, b), c) == Xor(a, Xor(b, c))
    ensures Xor(a, b) == Xor(b, a)
    ensures Xor(a, 0) == a
    ensures Xor(a, b) == 0 <==> a == b
  {
    hide Xor;
    XorAssociates(a, b, c);
    XorCommutes(a, b);
    XorZero(a);
    XorCancels(a, b);
  }

  lemma XorSwap(a: bv16, b: bv16, c: bv16, d: bv16)
    ensures Xor(Xor(a, b), Xor(c, d)) == Xor(Xor(a, c), Xor(b, d))
  {
    hide Xor;
    XorAssociates(a, b, Xor(c, d));
    XorAssociates(b, c, d);
    XorCommutes(b, c);
    XorAssociates(c, b, d);
    XorAssociates(a, c, Xor(b, d));
  }

  lemma DoubleSum(a: bv16, b: bv16)
    ensures Double(Xor(a, b)) == Xor(Double(a), Double(b))
  {
  }

  lemma HighSum(a: bv16, b: bv16)
    ensures High(Xor(a, b)) <==> High(a) != High(b)
  {
    HighIsBit(a);
    HighIsBit(b);
    assert Xor(a, b) & 0x8000 == (a & 0x8000) ^ (b & 0x8000);
  }

  lemma HighIsBit(a: bv16)
    ensures a & 0x8000 == if High(a) then 0x8000 else 0
  {
  }

  lemma ShiftSum(a: bv16, b: bv16)
    ensures Shift(Xor(a, b)) == Xor(Shift(a), Shift(b))
  {
    hide Xor, Double, High;
    var g: bv16 := 0x1021;
    DoubleSum(a, b);
    HighSum(a, b);
    XorSwap(Double(a), g, Double(b), g);
    XorLaws(g, g, 0);
    XorLaws(Double(a), Double(b), g);
    XorLaws(Double(a), g, Double(b));
    XorLaws(g, Double(b), 0);
    XorZero(Xor(Double(a), Double(b)));
  }

  lemma Shift8Sum(a: bv16, b: bv16)
    ensures Shift8(Xor(a, b)) == Xor(Shift8(a), Shift8(b))
  {
    hide Xor, Shift;
    ShiftSum(a, b);
    var x, y := Shift(a), Shift(b);
    ShiftSum(x, y);
    x, y := Shift(x), Shift(y);
    ShiftSum(x, y);
    x, y := Shift(x), Shift(y);
    ShiftSum(x, y);
    x, y := Shift(x), Shift(y);
    ShiftSum(x, y);
    x, y := Shift(x), Shift(y);
    ShiftSum(x, y);
    x, y := Shift(x), Shift(y);
    ShiftSum(x, y);
    x, y := Shift(x), Shift(y);
    ShiftSum(x, y);
  }

  /** Low-order bits are not affected before they reach the top. */
  lemma Shift8Low(r: bv16)
    requires r & 0xFF00 == 0
    ensures Shift8(r) == r << 8
  {
  }

  // ----- The register bit by bit -----

  /** The register that takes in bits at its top end. */
  function Absorb(r: bv16, bits: seq<bool>): bv16 {
    if bits == [] then r else Shift(Xor(Absorb(r, bits[..|bits| - 1]), Top(bits[|bits| - 1])))
  }

  lemma {:induction false} AbsorbAppends(r: bv16, s: seq<bool>, t: seq<bool>)
    ensures Absorb(r, s + t) == Absorb(Absorb(r, s), t)
    decreases |t|
  {
    hide Shift, Xor, Top;
    if t == [] {
      assert s + t == s;
    } else {
      var t' := t[..|t| - 1];
      assert (s + t)[..|s + t| - 1] == s + t';
      AbsorbAppends(r, s, t');
    }
  }

  lemma Halves(crc: bv16, b: octet)
    ensures Xor(crc, (b as bv16) << 8) == Xor(((((crc >> 8) as bv8) ^ b) as bv16) << 8, crc & 0x00FF)
    ensures (crc & 0x00FF) & 0xFF00 == 0 && (crc & 0x00FF) << 8 == crc << 8
  {
  }

  lemma NextIsSum(crc: bv16, b: octet)
    ensures Next(crc, b) == Xor(crc << 8, Table(((crc >> 8) as bv8) ^ b))
  {
    hide Table;
  }

  /** The table takes in eight bits at a time. */
  lemma NextIsShift8(crc: bv16, b: octet)
    ensures Next(crc, b) == Shift8(Xor(crc, (b as bv16) << 8))
  {
    hide Shift8, Table;
    var x := ((crc >> 8) as bv8) ^ b;
    var high, low := (x as bv16) << 8, crc & 0x00FF;
    TableIs(x);
    NextIsSum(crc, b);
    Halves(crc, b);
    hide Xor, Next;
    Shift8Sum(high, low);
    Shift8Low(low);
    XorCommutes(Table(x), crc << 8);
  }

  lemma BelowTheTop(w: bv16)
    ensures !High(w & 0x7FFF) && Double(w & 0x7FFF) == Double(w)
  {
  }

  lemma TopAndRest(w: bv16)
    ensures w == Xor(Top(High(w)), w & 0x7FFF)
  {
    HighIsBit(w);
    assert w == (w & 0x8000) ^ (w & 0x7FFF);
  }

  /** A bit may as well wait in a second register until it is at the top. */
  lemma OneBit(x: bv16, w: bv16)
    ensures Shift(Xor(x, w)) == Xor(Shift(Xor(x, Top(High(w)))), Double(w))
  {
    hide Xor, High, Top, Double;
    var low := w & 0x7FFF;
    BelowTheTop(w);
    TopAndRest(w);
    assert Shift(low) == Double(w);
    hide Shift;
    XorAssociates(x, Top(High(w)), low);
    ShiftSum(Xor(x, Top(High(w))), low);
  }

  lemma AbsorbOne(r: bv16, s: seq<bool>, bit: bool)
    ensures Absorb(r, s + [bit]) == Shift(Xor(Absorb(r, s), Top(bit)))
  {
    hide Shift, Xor, Top;
    assert (s + [bit])[..|s|] == s;
  }

  lemma AbsorbNext(r: bv16, s: seq<bool>, i: nat)
    requires i < |s|
    ensures Absorb(r, s[..i + 1]) == Shift(Xor(Absorb(r, s[..i]), Top(s[i])))
  {
    hide Shift, Xor, Top, Absorb;
    assert s[..i + 1] == s[..i] + [s[i]];
    AbsorbOne(r, s[..i], s[i]);
  }

  /** The first `i` bits of a byte, absorbed: the others still wait. */
  lemma AbsorbWaits(r: bv16, b: octet, i: nat, w: bv16, before: bv16)
    requires i < 8 && High(w) == BitsOf(b)[i] && Xor(Absorb(r, BitsOf(b)[..i]), w) == before
    ensures Xor(Absorb(r, BitsOf(b)[..i + 1]), Double(w)) == Shift(before)
  {
    hide Shift, Xor, Top, Absorb, High, BitsOf, Double;
    AbsorbNext(r, BitsOf(b), i);
    OneBit(Absorb(r, BitsOf(b)[..i]), w);
  }

  /** What waits of a byte after `i` bits. */
  function Waiting(b: octet, i: nat): bv16 {
    if i == 0 then (b as bv16) << 8 else Double(Waiting(b, i - 1))
  }

  lemma WaitingBit(b: octet, i: nat)
    requires i < 8
    ensures High(Waiting(b, i)) == BitsOf(b)[i]
    ensures Waiting(b, 8) == 0
  {
    var w := Waiting(b, 0);
    assert Waiting(b, 1) == w << 1;
    assert Waiting(b, 2) == w << 2;
    assert Waiting(b, 3) == w << 3;
    assert Waiting(b, 4) == w << 4;
    assert Waiting(b, 5) == w << 5;
    assert Waiting(b, 6) == w << 6;
    assert Waiting(b, 7) == w << 7;
    hide Waiting;
  }

  /** `i` times Shift. */
  function Shifts(r: bv16, i: nat): bv16 {
    if i == 0 then r else Shift(Shifts(r, i - 1))
  }

  lemma {:induction false} AbsorbSome(r: bv16, b: octet, i: nat)
    requires i <= 8
    ensures Xor(Absorb(r, BitsOf(b)[..i]), Waiting(b, i)) == Shifts(Xor(r, (b as bv16) << 8), i)
  {
    hide Shift, Xor, Top, High, BitsOf, Double;
    if i == 0 {
      assert BitsOf(b)[..0] == [];
    } else {
      AbsorbSome(r, b, i - 1);
      WaitingBit(b, i - 1);
      AbsorbWaits(r, b, i - 1, Waiting(b, i - 1), Shifts(Xor(r, (b as bv16) << 8), i - 1));
    }
  }

  lemma EightShifts(r: bv16)
    ensures Shifts(r, 8) == Shift8(r)
  {
    hide Shift;
    assert Shifts(r, 1) == Shift(r);
    assert Shifts(r, 2) == Shift(Shifts(r, 1));
    assert Shifts(r, 3) == Shift(Shifts(r, 2));
    assert Shifts(r, 4) == Shift(Shifts(r, 3));
    assert Shifts(r, 5) == Shift(Shifts(r, 4));
    assert Shifts(r, 6) == Shift(Shifts(r, 5));
    assert Shifts(r, 7) == Shift(Shifts(r, 6));
  }

  /** A byte's bits, one after the other or all at once. */
  lemma AbsorbByte(r: bv16, b: octet)
    ensures Absorb(r, BitsOf(b)) == Next(r, b)
  {
    hide *;
    AbsorbSome(r, b, 8);
    WaitingBit(b, 0);
    assert BitsOf(b)[..8] == BitsOf(b);
    XorZero(Absorb(r, BitsOf(b)));
    EightShifts(Xor(r, (b as bv16) << 8));
    NextIsShift8(r, b);
  }

  lemma {:induction false} UpdateIsAbsorb(crc: bv16, m: seq<octet>)
    ensures Update(crc, m) == Absorb(crc, Bits(m))
  {
    hide Next, BitsOf, Shift, Xor, Top;
    if m != [] {
      var rest, last := m[..|m| - 1], m[|m| - 1];
      UpdateIsAbsorb(crc, rest);
      AbsorbByte(Update(crc, rest), last);
      AbsorbAppends(crc, Bits(rest), BitsOf(last));
    }
  }

  // ----- The CRC is a remainder -----

  function Shift16(r: bv16): bv16 {
    Shift8(Shift8(r))
  }

  lemma Shift16Sum(a: bv16, b: bv16)
    ensures Shift16(Xor(a, b)) == Xor(Shift16(a), Shift16(b))
  {
    hide Shift8, Xor;
    Shift8Sum(a, b);
    Shift8Sum(Shift8(a), Shift8(b));
  }

  lemma Shift16Facts(r: bv16, bit: bool)
    ensures Shift16(Shift(r)) == Shift(Shift16(r))
    ensures Shift16(One(bit)) == Shift(Top(bit)) && Shift16(0) == 0
  {
    Shift16OfOne();
    assert Shift(0) == 0;
    hide Shift;
  }

  lemma Shift16OfOne()
    ensures Shift16(1) == 0x1021 == Shift(0x8000)
  {
    assert Shift8(1) == 0x0100;
  }

  lemma {:induction false} AbsorbIsRemainder(s: seq<bool>)
    ensures Absorb(0, s) == Shift16(Remainder(s))
  {
    hide Shift, Shift16, Xor, Top, One;
    if s == [] {
      Shift16Facts(0, false);
    } else {
      var rest, last := s[..|s| - 1], s[|s| - 1];
      AbsorbIsRemainder(rest);
      var r := Remainder(rest);
      Shift16Facts(r, last);
      Shift16Sum(Shift(r), One(last));
      ShiftSum(Shift16(r), Top(last));
    }
  }

  lemma ZeroShifts(s: seq<bool>, n: nat)
    ensures Remainder(s + ZeroBits(n + 1)) == Shift(Remainder(s + ZeroBits(n)))
  {
    hide Shift, Xor;
    assert (s + ZeroBits(n + 1))[..|s| + n] == s + ZeroBits(n);
    XorLaws(Shift(Remainder(s + ZeroBits(n))), 0, 0);
  }

  lemma EightZerosShift(s: seq<bool>, n: nat)
    ensures Remainder(s + ZeroBits(n + 8)) == Shift8(Remainder(s + ZeroBits(n)))
  {
    hide Shift, Remainder, Zeros;
    ZeroShifts(s, n);
    ZeroShifts(s, n + 1);
    ZeroShifts(s, n + 2);
    ZeroShifts(s, n + 3);
    ZeroShifts(s, n + 4);
    ZeroShifts(s, n + 5);
    ZeroShifts(s, n + 6);
    ZeroShifts(s, n + 7);
  }

  /** The CRC of a byte string is what remains when the string, followed by 16 zero bits, is divided
      by x^16 + x^12 + x^5 + 1 over GF(2). */
  lemma CrcIsRemainder(m: seq<octet>)
    ensures Crc(m) == Remainder(Bits(m) + ZeroBits(16))
  {
    hide Update, Absorb, Remainder, Bits, Shift8;
    UpdateIsAbsorb(0, m);
    AbsorbIsRemainder(Bits(m));
    EightZerosShift(Bits(m), 8);
    EightZerosShift(Bits(m), 0);
    assert Bits(m) + ZeroBits(0) == Bits(m);
  }

  lemma TwoMore(c: bv16, a: octet, b: octet)
    ensures Update(c, [a, b]) == Next(Next(c, a), b)
  {
    hide Next;
    assert [a, b][..1] == [a] && [a][..0] == [];
    assert Update(c, [a]) == Next(Update(c, []), a);
    assert Update(c, [a, b]) == Next(Update(c, [a]), b);
  }

  /** With its CRC appended, high byte first, every string has the CRC 0. */
  lemma ResidueIsZero(m: seq<octet>)
    ensures Crc(m + [(Crc(m) >> 8) as octet, (Crc(m) & 0xFF) as octet]) == 0
  {
    var c := Crc(m);
    var high, low := (c >> 8) as octet, (c & 0xFF) as octet;
    CancelsOut(c);
    hide Next, Update;
    UpdateAppends(0, m, [high, low]);
    TwoMore(c, high, low);
  }

  lemma CancelsOut(c: bv16)
    ensures Next(Next(c, (c >> 8) as octet), (c & 0xFF) as octet) == 0
  {
    TableOfZero();
    assert ((c >> 8) as bv8) ^ ((c >> 8) as octet) == 0;
    var d := Next(c, (c >> 8) as octet);
    hide Table;
    assert d == c << 8;
    assert ((d >> 8) as bv8) ^ ((c & 0xFF) as octet) == 0;
  }

  lemma TableOfZero()
    ensures Table(0) == 0
  {
  }

  // ----- Bursts -----

  lemma ShiftLosesNothing(x: bv16)
    requires x != 0
    ensures Shift(x) != 0
  {
  }

  /** The `j` low bits of the register, 1 <= j <= 16. */
  function Mask(j: nat): bv16
    requires 1 <= j <= 16
  {
    [0x0001, 0x0003, 0x0007, 0x000F, 0x001F, 0x003F, 0x007F, 0x00FF,
     0x01FF, 0x03FF, 0x07FF, 0x0FFF, 0x1FFF, 0x3FFF, 0x7FFF, 0xFFFF][j - 1]
  }

  lemma MaskGrows(j: nat)
    requires 1 <= j < 16
    ensures Mask(j + 1) == (Mask(j) << 1) | 1 && Mask(j) <= 0x7FFF && Mask(j) & 1 == 1
  {
  }

  predicate Meets(x: bv16, m: bv16) {
    x & m != 0
  }

  lemma StaysLow(x: bv16, m: bv16, bit: bool)
    requires Meets(x, m) && m <= 0x7FFF && m & 1 == 1
    ensures Meets(Shift(Xor(x, Top(bit))), (m << 1) | 1)
  {
  }

  /** The difference of two registers, bit by bit. */
  lemma DifferenceStep(s: seq<bool>, t: seq<bool>, i: nat)
    requires i < |s| == |t|
    ensures Xor(Absorb(0, s[..i + 1]), Absorb(0, t[..i + 1]))
            == Shift(Xor(Xor(Absorb(0, s[..i]), Absorb(0, t[..i])), Top(s[i] != t[i])))
  {
    hide Xor, Shift, Top, Absorb;
    AbsorbNext(0, s, i);
    AbsorbNext(0, t, i);
    var a, b := Absorb(0, s[..i]), Absorb(0, t[..i]);
    ShiftSum(Xor(a, Top(s[i])), Xor(b, Top(t[i])));
    XorSwap(a, Top(s[i]), b, Top(t[i]));
    TopSum(s[i], t[i]);
  }

  lemma TopSum(a: bool, b: bool)
    ensures Xor(Top(a), Top(b)) == Top(a != b)
  {
  }

  /** After the first differing bit `f` the registers differ - in their low bits as long as further
      bits may differ, and for good once 16 bits have gone by. */
  lemma {:induction false} RegistersDiffer(s: seq<bool>, t: seq<bool>, f: nat, i: nat)
    requires f < i <= |s| == |t| && s[f] != t[f] && s[..f] == t[..f]
    requires forall j :: f + 16 <= j < |s| ==> s[j] == t[j]
    ensures var x := Xor(Absorb(0, s[..i]), Absorb(0, t[..i]));
            x != 0 && (i - f <= 16 ==> Meets(x, Mask(i - f)))
    decreases i
  {
    hide Xor, Shift, Top, Absorb, Meets, Mask;
    DifferenceStep(s, t, i - 1);
    var a, b := Absorb(0, s[..i - 1]), Absorb(0, t[..i - 1]);
    if i - 1 == f {
      XorCancels(a, b);
      FirstError();
    } else {
      RegistersDiffer(s, t, f, i - 1);
      var x := Xor(a, b);
      if i - f <= 16 {
        MaskGrows(i - 1 - f);
        StaysLow(x, Mask(i - 1 - f), s[i - 1] != t[i - 1]);
        MeetsSome(Shift(Xor(x, Top(s[i - 1] != t[i - 1]))), Mask(i - f));
      } else {
        NoError(x);
      }
    }
  }

  lemma FirstError()
    ensures Shift(Xor(0, Top(true))) != 0 && Meets(Shift(Xor(0, Top(true))), Mask(1))
  {
  }

  lemma NoError(x: bv16)
    requires x != 0
    ensures Shift(Xor(x, Top(false))) != 0
  {
    XorLaws(x, 0, 0);
    ShiftLosesNothing(x);
    hide Xor, Shift;
  }

  lemma MeetsSome(x: bv16, m: bv16)
    requires Meets(x, m)
    ensures x != 0
  {
  }

  lemma {:induction false} FirstDifference(s: seq<bool>, t: seq<bool>, i: nat) returns (f: nat)
    requires i <= |s| == |t| && s[..i] == t[..i] && s != t
    ensures i <= f < |s| && s[f] != t[f] && s[..f] == t[..f]
    decreases |s| - i
  {
    assert s[..|s|] == s && t[..|t|] == t;
    if s[i] != t[i] {
      f := i;
    } else {
      assert s[..i + 1] == s[..i] + [s[i]] && t[..i + 1] == t[..i] + [t[i]];
      f := FirstDifference(s, t, i + 1);
    }
  }

  lemma {:induction false} BitsDiffer(m: seq<octet>, m': seq<octet>)
    requires |m| == |m'| && m != m'
    ensures Bits(m) != Bits(m')
  {
    hide BitsOf;
    var rest, rest' := m[..|m| - 1], m'[..|m| - 1];
    assert m == rest + [m[|m| - 1]] && m' == rest' + [m'[|m| - 1]];
    var s, t := Bits(m), Bits(m');
    assert s[..8 * |rest|] == Bits(rest) && t[..8 * |rest|] == Bits(rest');
    if rest != rest' {
      BitsDiffer(rest, rest');
    } else {
      assert s[8 * |rest|..] == BitsOf(m[|m| - 1]) && t[8 * |rest|..] == BitsOf(m'[|m| - 1]);
      OctetsDiffer(m[|m| - 1], m'[|m| - 1]);
    }
  }

  lemma SameBits(a: octet, b: octet)
    requires (a & 0x80 != 0) == (b & 0x80 != 0) && (a & 0x40 != 0) == (b & 0x40 != 0)
    requires (a & 0x20 != 0) == (b & 0x20 != 0) && (a & 0x10 != 0) == (b & 0x10 != 0)
    requires (a & 0x08 != 0) == (b & 0x08 != 0) && (a & 0x04 != 0) == (b & 0x04 != 0)
    requires (a & 0x02 != 0) == (b & 0x02 != 0) && (a & 0x01 != 0) == (b & 0x01 != 0)
    ensures a == b
  {
  }

  lemma OctetsDiffer(a: octet, b: octet)
    requires a != b
    ensures BitsOf(a) != BitsOf(b)
  {
    if BitsOf(a) == BitsOf(b) {
      EqualBits(a, b, BitsOf(a), BitsOf(b));
      SameBits(a, b);
    }
  }

  lemma EqualBits(a: octet, b: octet, s: seq<bool>, t: seq<bool>)
    requires s == t && s == BitsOf(a) && t == BitsOf(b)
    ensures (a & 0x80 != 0) == (b & 0x80 != 0) && (a & 0x40 != 0) == (b & 0x40 != 0)
    ensures (a & 0x20 != 0) == (b & 0x20 != 0) && (a & 0x10 != 0) == (b & 0x10 != 0)
    ensures (a & 0x08 != 0) == (b & 0x08 != 0) && (a & 0x04 != 0) == (b & 0x04 != 0)
    ensures (a & 0x02 != 0) == (b & 0x02 != 0) && (a & 0x01 != 0) == (b & 0x01 != 0)
  {
    assert s[0] == t[0] && s[1] == t[1] && s[2] == t[2] && s[3] == t[3];
    assert s[4] == t[4] && s[5] == t[5] && s[6] == t[6] && s[7] == t[7];
  }

  /** Every error burst of at most 16 bits changes the CRC: strings that differ, but only within 16
      consecutive bits, have different CRCs. */
  lemma BurstIsDetected(m: seq<octet>, m': seq<octet>, k: nat)
    requires |m| == |m'| && m != m'
    requires forall j :: 0 <= j < 8 * |m| && !(k <= j < k + 16) ==> Bits(m)[j] == Bits(m')[j]
    ensures Crc(m) != Crc(m')
  {
    hide Bits, Update, Absorb, Xor;
    var s, t := Bits(m), Bits(m');
    BitsDiffer(m, m');
    assert s[..0] == t[..0];
    var f := FirstDifference(s, t, 0);
    RegistersDiffer(s, t, f, |s|);
    assert s[..|s|] == s && t[..|t|] == t;
    UpdateIsAbsorb(0, m);
    UpdateIsAbsorb(0, m');
    XorLaws(Crc(m), Crc(m'), 0);
  }

  // ----- Errors that go unnoticed -----

  /** Where two bit strings of the same length differ. */
  function Difference(s: seq<bool>, t: seq<bool>): (d: seq<bool>)
    requires |s| == |t|
    ensures |d| == |s|
  {
    seq(|s|, i requires 0 <= i < |s| => s[i] != t[i])
  }

  lemma {:induction false} RemainderOfDifference(s: seq<bool>, t: seq<bool>)
    requires |s| == |t|
    ensures Remainder(Difference(s, t)) == Xor(Remainder(s), Remainder(t))
    decreases |s|
  {
    if s == [] {
      XorZero(0);
    } else {
      var n := |s| - 1;
      RemainderOfDifference(s[..n], t[..n]);
      assert Difference(s, t)[..n] == Difference(s[..n], t[..n]);
      hide Shift, Xor, One;
      var a, b := Remainder(s[..n]), Remainder(t[..n]);
      ShiftSum(a, b);
      XorSwap(Shift(a), Shift(b), One(s[n]), One(t[n]));
      OneSum(s[n], t[n]);
    }
  }

  lemma OneSum(a: bool, b: bool)
    ensures Xor(One(a), One(b)) == One(a != b)
  {
  }

  lemma Shift16LosesNothing(x: bv16)
    ensures Shift16(x) == 0 <==> x == 0
  {
    Shift8LosesNothing(x);
    Shift8LosesNothing(Shift8(x));
  }

  lemma Shift8LosesNothing(x: bv16)
    ensures Shift8(x) == 0 <==> x == 0
  {
    EightShifts(x);
    ShiftsLoseNothing(x, 8);
  }

  lemma {:induction false} ShiftsLoseNothing(x: bv16, i: nat)
    ensures Shifts(x, i) == 0 <==> x == 0
  {
    if i > 0 {
      ShiftsLoseNothing(x, i - 1);
      assert Shift(0) == 0;
      if x != 0 {
        hide Shift;
        ShiftLosesNothing(Shifts(x, i - 1));
      }
    }
  }

  /** Two strings of the same length have the same CRC exactly if the generator divides their
      difference. */
  lemma SameCrc(m: seq<octet>, m': seq<octet>)
    requires |m| == |m'|
    ensures Crc(m) == Crc(m') <==> Remainder(Difference(Bits(m), Bits(m'))) == 0
  {
    hide Bits, Update, Absorb, Xor, Shift16, Remainder;
    var s, t := Bits(m), Bits(m');
    UpdateIsAbsorb(0, m);
    UpdateIsAbsorb(0, m');
    AbsorbIsRemainder(s);
    AbsorbIsRemainder(t);
    Shift16Sum(Remainder(s), Remainder(t));
    RemainderOfDifference(s, t);
    Shift16LosesNothing(Remainder(Difference(s, t)));
    XorLaws(Crc(m), Crc(m'), 0);
  }

  /** Seventeen bits are too many: the generator itself goes unnoticed. */
  lemma SeventeenBitsEscape()
    ensures Crc([0x01, 0x10, 0x21]) == Crc([0x00, 0x00, 0x00])
  {
    assert [0x01, 0x10, 0x21][..2] == [0x01, 0x10] && [0x00, 0x00, 0x00][..2] == [0x00, 0x00];
    TwoMore(0, 0x01, 0x10);
    TwoMore(0, 0x00, 0x00);
    assert Next(0, 0x01) == 0x1021;
    assert Next(0x1021, 0x10) == 0x2100;
    assert Next(0x2100, 0x21) == 0;
    assert Next(0, 0x00) == 0;
    hide Next;
    assert Update(0, [0x01, 0x10, 0x21]) == Next(Update(0, [0x01, 0x10]), 0x21);
    assert Update(0, [0x00, 0x00, 0x00]) == Next(Update(0, [0x00, 0x00]), 0x00);
  }
}
