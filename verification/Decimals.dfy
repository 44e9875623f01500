/** The decimal formats of the meter protocol: packed BCD, signed BCD, and the two lossy formats for
    power and energy. */
module Decimals {
  import opened Arithmetic
  import opened Bytes

  // ----- Powers of a hundred -----

  function Pow100(n: nat): (p: nat)
    ensures p >= 1
  {
    if n == 0 then 1 else 100 * Pow100(n - 1)
  }

  // ----- Packed BCD -----

  /** Two decimal digits in a byte. */
  function Packed(v: nat): byte
    requires v < 100
  {
    v / 10 * 16 + v % 10
  }

  /** The value of a byte as the program reads it, whatever the nibbles are. */
  function Unpacked(b: byte): nat {
    b / 16 * 10 + b % 16
  }

  /** `n` bytes of digits, the lowest first. */
  function ToBcd(u: nat, n: nat): (s: seq<byte>)
    ensures |s| == n
  {
    if n == 0 then [] else [Packed(u % 100)] + ToBcd(u / 100, n - 1)
  }

  function FromBcd(s: seq<byte>): nat {
    if s == [] then 0 else Unpacked(s[0]) + 100 * FromBcd(s[1..])
  }

  lemma UnpackedOfPacked(v: nat)
    requires v < 100
    ensures Unpacked(Packed(v)) == v
  {
  }

  /** `n` bytes hold a number modulo 100^n. */
  lemma {:induction false} BcdHoldsModulo(u: nat, n: nat)
    ensures FromBcd(ToBcd(u, n)) == u % Pow100(n)
  {
    if n > 0 {
      var rest := ToBcd(u / 100, n - 1);
      assert ToBcd(u, n)[1..] == rest;
      UnpackedOfPacked(u % 100);
      BcdHoldsModulo(u / 100, n - 1);
      ModuloByDigits(u, Pow100(n - 1));
    }
  }

  /** The `j`-th decimal digit, counted from the units. */
  function Digit(u: nat, j: nat): nat {
    if j == 0 then u % 10 else Digit(u / 10, j - 1)
  }

  lemma PackedDigits(u: nat)
    ensures Packed(u % 100) % 16 == u % 10 && Packed(u % 100) / 16 == u / 10 % 10
  {
    assert u % 100 % 10 == u % 10 && u % 100 / 10 == u / 10 % 10;
  }

  lemma DigitTwoOn(u: nat, j: nat)
    ensures Digit(u, j + 2) == Digit(u / 100, j)
  {
    assert Digit(u, j + 2) == Digit(u / 10, j + 1) == Digit(u / 10 / 10, j);
  }

  /** Which digit is where: byte `k` has digit `2k` in its low half and digit `2k + 1` in its high half. */
  lemma {:induction false} DigitPlaces(u: nat, n: nat, k: nat)
    requires k < n
    ensures ToBcd(u, n)[k] % 16 == Digit(u, 2 * k) && ToBcd(u, n)[k] / 16 == Digit(u, 2 * k + 1)
  {
    hide Packed;
    if k == 0 {
      PackedDigits(u);
      assert Digit(u, 1) == Digit(u / 10, 0);
    } else {
      hide Digit;
      DigitPlaces(u / 100, n - 1, k - 1);
      DigitTwoOn(u, 2 * (k - 1));
      DigitTwoOn(u, 2 * (k - 1) + 1);
    }
  }

  lemma ModuloByDigits(u: nat, p: nat)
    requires p >= 1
    ensures u % (100 * p) == u % 100 + 100 * (u / 100 % p)
  {
    var q := u / 100;
    var a, b := q / p, q % p;
    assert q == p * a + b;
    assert u == (100 * p) * a + (100 * b + u % 100);
    Quotient(u, 100 * p, a, 100 * b + u % 100);
  }

  method BcdToUnsigned(bcd: array<byte>, len: int) returns (rtn: uint32)
    requires len <= bcd.Length
    ensures rtn == FromBcd(bcd[..CountOf(len)]) % 0x1_0000_0000
  {
    rtn := 0;
    var i: int := len - 1;
    if len < 0 {
      return;
    }
    assert bcd[len..len] == [];
    while i >= 0
      invariant -1 <= i < len && rtn == FromBcd(bcd[i + 1..len]) % 0x1_0000_0000
    {
      FromBcdStep(bcd[i..len]);
      assert bcd[i..len][1..] == bcd[i + 1..len];
      rtn := (rtn * 100 + Unpacked(bcd[i])) % 0x1_0000_0000;
      i := i - 1;
    }
  }

  /** One more byte in front, in 32-bit arithmetic. */
  lemma FromBcdStep(s: seq<byte>)
    requires s != []
    ensures (FromBcd(s[1..]) % 0x1_0000_0000 * 100 + Unpacked(s[0])) % 0x1_0000_0000 == FromBcd(s) % 0x1_0000_0000
  {
    hide Unpacked;
    var n, d := FromBcd(s[1..]), Unpacked(s[0]);
    var q, r := n / 0x1_0000_0000, n % 0x1_0000_0000;
    assert n * 100 + d == 0x1_0000_0000 * (100 * q) + (r * 100 + d);
  }

  /** The digits, and whether some did not fit. */
  method UnsignedToBcd(ul: uint32, bcd: array<byte>, maxlen: int) returns (rtn: int)
    requires maxlen <= bcd.Length
    modifies bcd
    ensures bcd[..CountOf(maxlen)] == ToBcd(ul, CountOf(maxlen)) && bcd[CountOf(maxlen)..] == old(bcd[CountOf(maxlen)..])
    ensures rtn == if ul >= Pow100(CountOf(maxlen)) then 1 else 0
  {
    var rest := WriteDigits(ul, bcd, maxlen);
    rtn := if rest != 0 then 1 else 0;
  }

  lemma PackedZero()
    ensures Packed(0) == 0
  {
  }

  /** What is left of a number without its `2 * n` lowest digits. */
  function Shifted(u: nat, n: nat): nat {
    if n == 0 then u else Shifted(u, n - 1) / 100
  }

  lemma {:induction false} ShiftedFromFront(u: nat, n: nat)
    ensures Shifted(u, n + 1) == Shifted(u / 100, n)
  {
    if n > 0 {
      ShiftedFromFront(u, n - 1);
    }
  }

  lemma {:induction false} OneByteMore(u: nat, n: nat)
    ensures ToBcd(u, n + 1) == ToBcd(u, n) + [Packed(Shifted(u, n) % 100)]
    ensures Shifted(u, n + 1) == Shifted(u, n) / 100
  {
    hide Packed;
    if n > 0 {
      OneByteMore(u / 100, n - 1);
      ShiftedFromFront(u, n - 1);
    }
  }

  lemma {:induction false} ShiftedIsQuotient(u: nat, n: nat)
    ensures Shifted(u, n) == u / Pow100(n)
    ensures Shifted(u, n) == 0 <==> u < Pow100(n)
  {
    if n > 0 {
      ShiftedIsQuotient(u, n - 1);
      QuotientByDigits(u, Pow100(n - 1));
    }
    var p := Pow100(n);
    if u < p {
      Quotient(u, p, 0, u);
    } else {
      AtLeastOnce(u, p);
    }
  }

  lemma AtLeastOnce(u: nat, p: nat)
    requires u >= p >= 1
    ensures u / p >= 1
  {
    var q := u / p;
    assert u == p * q + u % p;
  }

  lemma QuotientByDigits(u: nat, p: nat)
    requires p >= 1
    ensures u / p / 100 == u / (100 * p)
  {
    var q, r := u / p, u % p;
    assert u == p * q + r;
    var a, b := q / 100, q % 100;
    assert u == (100 * p) * a + (p * b + r);
    MulMono(p, p, b, 99);
    Quotient(u, 100 * p, a, p * b + r);
  }

  // ----- Signed BCD -----

  function Magnitude(l: int): nat {
    if l < 0 then -l else l
  }

  /** The sign goes into the top bit of the last byte. */
  function ToSignedBcd(l: int, n: nat): (s: seq<byte>)
    ensures |s| == n
  {
    var s := ToBcd(Magnitude(l), n);
    if n > 0 && l < 0 && s[n - 1] < 128 then s[n - 1 := s[n - 1] + 128] else s
  }

  function FromSignedBcd(s: seq<byte>): int
    requires s != []
  {
    var n := |s|;
    if s[n - 1] >= 128 then 0 - FromBcd(s[n - 1 := s[n - 1] - 128]) else FromBcd(s)
  }

  function Above(p: nat, x: nat): nat {
    p * x
  }

  lemma AboveMono(p: nat, x: nat, y: nat)
    requires x < y
    ensures Above(p, x) + p <= Above(p, y)
  {
    MulMono(p, p, x + 1, y);
  }

  lemma {:induction false} FromBcdAppend(s: seq<byte>, b: byte)
    ensures FromBcd(s + [b]) == FromBcd(s) + Above(Pow100(|s|), Unpacked(b))
  {
    hide Unpacked;
    if s == [] {
      assert [b][1..] == [];
      assert s + [b] == [b];
    } else {
      FromBcdAppend(s[1..], b);
      assert (s + [b])[1..] == s[1..] + [b];
    }
  }

  /** The last byte holds the top two digits. */
  lemma TopDigits(m: nat, n: nat)
    requires n > 0
    ensures var s, top := ToBcd(m, n), Shifted(m, n - 1) % 100;
            && s == ToBcd(m, n - 1) + [Packed(top)]
            && FromBcd(s) == FromBcd(ToBcd(m, n - 1)) + Above(Pow100(n - 1), top)
            && FromBcd(ToBcd(m, n - 1)) < Pow100(n - 1)
  {
    OneByteMore(m, n - 1);
    UnpackedOfPacked(Shifted(m, n - 1) % 100);
    hide Packed, Unpacked, Above;
    FromBcdAppend(ToBcd(m, n - 1), Packed(Shifted(m, n - 1) % 100));
    BcdHoldsModulo(m, n - 1);
  }

  /** What is read back: the top digit's own high bit is taken for the sign. */
  lemma ReadBack(l: int, n: nat)
    requires n > 0
    ensures var m, p := Magnitude(l), Pow100(n - 1);
            var top, low := Shifted(m, n - 1) % 100, FromBcd(ToBcd(m, n - 1));
            FromSignedBcd(ToSignedBcd(l, n)) ==
            if top >= 80 then 0 - low - Above(p, top - 80) else if l < 0 then 0 - low - Above(p, top) else low + Above(p, top)
  {
    hide *;
    var m := Magnitude(l);
    var top, pre := Shifted(m, n - 1) % 100, ToBcd(m, n - 1);
    TopDigits(m, n);
    TopByte(top);
    EncodedIs(l, n);
    if top >= 80 {
      SignedTail(pre, Packed(top));
      FromBcdAppend(pre, Packed(top) - 128);
    } else if l < 0 {
      SignedTail(pre, Packed(top) + 128);
    } else {
      SignedTail(pre, Packed(top));
    }
  }

  lemma EncodedIs(l: int, n: nat)
    requires n > 0
    ensures var m := Magnitude(l);
            var top := Shifted(m, n - 1) % 100;
            && (top < 80 ==> Packed(top) < 128)
            && ToSignedBcd(l, n) == ToBcd(m, n - 1) + [if l < 0 && top < 80 then Packed(top) + 128 else Packed(top)]
  {
    hide Packed, ToBcd, Shifted;
    var m := Magnitude(l);
    var top := Shifted(m, n - 1) % 100;
    OneByteMore(m, n - 1);
    TopByte(top);
    var pre := ToBcd(m, n - 1);
    assert ToBcd(m, n)[n - 1] == Packed(top);
    if l < 0 && top < 80 {
      LastByte(pre, Packed(top), Packed(top) + 128);
    }
  }

  /** The sign is the top bit of the last byte, as long as the digits leave it free; the other bits are
      those of the magnitude. */
  lemma SignIsTopBit(l: int, n: nat)
    requires n > 0 && Magnitude(l) < Above(Pow100(n - 1), 80)
    ensures var s, b: nat := ToSignedBcd(l, n), ToSignedBcd(l, n)[n - 1];
            && (b >= 128 <==> l < 0)
            && s[n - 1 := b % 128] == ToBcd(Magnitude(l), n)
  {
    var m := Magnitude(l);
    var top := Shifted(m, n - 1) % 100;
    ShiftedIsQuotient(m, n - 1);
    TopBelow(m, Pow100(n - 1));
    EncodedIs(l, n);
    OneByteMore(m, n - 1);
    hide *;
    SignOnTop(ToBcd(m, n - 1), Packed(top), l < 0);
  }

  lemma SignOnTop(pre: seq<byte>, x: byte, minus: bool)
    requires x < 128
    ensures var s := pre + [if minus then x + 128 else x];
            (s[|pre|] >= 128 <==> minus) && s[|pre| := s[|pre|] % 128] == pre + [x]
  {
    LastByte(pre, if minus then x + 128 else x, x);
  }

  lemma TopBelow(m: nat, p: nat)
    requires p >= 1 && m < Above(p, 80)
    ensures m / p % 100 < 80
  {
    DivStrict(m, p, 80);
  }

  lemma LastByte(pre: seq<byte>, x: byte, y: byte)
    ensures (pre + [x])[|pre| := y] == pre + [y]
  {
  }

  lemma SignedTail(pre: seq<byte>, x: byte)
    ensures FromSignedBcd(pre + [x]) == if x >= 128 then 0 - FromBcd(pre + [x - 128]) else FromBcd(pre + [x])
  {
    hide FromBcd;
    if x >= 128 {
      LastByte(pre, x, x - 128);
    }
  }

  /** Signed numbers are read back exactly if the top digit leaves the sign bit alone: below 8 times
      10^(2n-1). */
  lemma SignedBcdRoundTrip(l: int, n: nat)
    requires n > 0
    ensures FromSignedBcd(ToSignedBcd(l, n)) == l <==> Magnitude(l) < Above(Pow100(n - 1), 80)
  {
    var m, p := Magnitude(l), Pow100(n - 1);
    var top, low := Shifted(m, n - 1) % 100, FromBcd(ToBcd(m, n - 1));
    ReadBack(l, n);
    TopDigits(m, n);
    BcdHoldsModulo(m, n);
    ModuloIsLess(m, Pow100(n));
    HundredTimes(n);
    hide FromSignedBcd, ToSignedBcd, FromBcd, ToBcd, Shifted, Above, Pow100;
    AboveMono(p, top, 100);
    if top >= 80 {
      AboveMono(p, top - 80, top);
      AboveMono(p, 79, 80);
      AboveMono(p, 80, 100);
      AboveMono(p, 79, top);
      AtLeast(p, 80, top);
    } else {
      AboveMono(p, top, 80);
      AboveMono(p, 80, 100);
    }
  }

  lemma AtLeast(p: nat, x: nat, y: nat)
    requires x <= y
    ensures Above(p, x) <= Above(p, y)
  {
    MulMono(p, p, x, y);
  }

  lemma HundredTimes(n: nat)
    requires n > 0
    ensures Pow100(n) == Above(Pow100(n - 1), 100)
  {
  }

  lemma ModuloIsLess(m: nat, p: nat)
    requires p >= 1
    ensures m % p < p && (m < p ==> m % p == m)
  {
    if m < p {
      Quotient(m, p, 0, m);
    }
  }

  lemma TopByte(top: nat)
    requires top < 100
    ensures Packed(top) >= 128 <==> top >= 80
    ensures Unpacked(Packed(top)) == top
    ensures top >= 80 ==> Unpacked(Packed(top) - 128) == top - 80
  {
    var t, u := top / 10, top % 10;
    assert top == 10 * t + u && Packed(top) == 16 * t + u;
    UnpackedIs(t, u);
    if top >= 80 {
      UnpackedIs(t - 8, u);
    }
    hide Packed, Unpacked;
  }

  lemma UnpackedIs(t: nat, u: nat)
    requires t < 16 && u < 16
    ensures Unpacked(16 * t + u) == 10 * t + u
  {
  }

  /** The digit loop of both encoders. */
  method WriteDigits(m: nat, bcd: array<byte>, maxlen: int) returns (rest: nat)
    requires maxlen <= bcd.Length
    modifies bcd
    ensures bcd[..CountOf(maxlen)] == ToBcd(m, CountOf(maxlen)) && bcd[CountOf(maxlen)..] == old(bcd[CountOf(maxlen)..])
    ensures rest == 0 <==> m < Pow100(CountOf(maxlen))
  {
    hide Packed;
    rest := m;
    var i: nat := 0;
    ghost var end := CountOf(maxlen);
    ghost var was := bcd[end..];
    assert bcd[..0] == [];
    while i < maxlen
      invariant i <= end && rest == Shifted(m, i) && bcd[end..] == was
      invariant bcd[..i] == ToBcd(m, i)
    {
      OneByteMore(m, i);
      if rest == 0 {
        PackedZero();
        bcd[i] := 0;
      } else {
        bcd[i] := Packed(rest % 100);
        rest := rest / 100;
      }
      i := i + 1;
    }
    ShiftedIsQuotient(m, end);
  }

  method IntToBcd(l: int32, bcd: array<byte>, maxlen: int) returns (rtn: int)
    requires l != -0x8000_0000 && maxlen <= bcd.Length
    modifies bcd
    ensures maxlen <= 0 ==> rtn == 0 && bcd[..] == old(bcd[..])
    ensures maxlen > 0 ==> bcd[..maxlen] == ToSignedBcd(l, maxlen) && bcd[maxlen..] == old(bcd[maxlen..])
    ensures maxlen > 0 ==> rtn == if Magnitude(l) >= Pow100(maxlen) then 1 else 0
  {
    if maxlen <= 0 {
      return 0;
    }
    var rest := WriteDigits(Magnitude(l), bcd, maxlen);
    ghost var s := bcd[..maxlen];
    if l < 0 && bcd[maxlen - 1] < 128 {
      bcd[maxlen - 1] := bcd[maxlen - 1] + 128;
      assert bcd[..maxlen] == s[maxlen - 1 := s[maxlen - 1] + 128];
    }
    rtn := if rest != 0 then 1 else 0;
  }

  /** The value must fit; an empty one reads as 1. */
  method BcdToInt(bcd: array<byte>, len: int) returns (rtn: int32)
    requires len <= bcd.Length
    requires len > 0 ==> -0x8000_0000 < FromSignedBcd(bcd[..len]) < 0x8000_0000
    ensures rtn == if len <= 0 then 1 else FromSignedBcd(bcd[..len])
  {
    if len <= 0 {
      return 1;
    }
    hide FromBcd;
    var flag := bcd[len - 1] >= 128;
    var top: byte := if flag then bcd[len - 1] - 128 else bcd[len - 1];
    SignedTail(bcd[..len - 1], bcd[len - 1]);
    assert bcd[..len] == bcd[..len - 1] + [bcd[len - 1]];
    var value: int := ReadDigits(bcd, len, top);
    rtn := if flag then -value else value;
  }

  /** The digit loop of the decoder, from the top byte down. */
  method ReadDigits(bcd: array<byte>, len: nat, top: byte) returns (value: nat)
    requires 0 < len <= bcd.Length
    ensures value == FromBcd(bcd[..len - 1] + [top])
  {
    hide Unpacked;
    value := Unpacked(top);
    var i: int := len - 2;
    FromBcdOfOne(top);
    assert bcd[len - 1..len - 1] + [top] == [top];
    while i >= 0
      invariant -1 <= i <= len - 2 && value == FromBcd(bcd[i + 1..len - 1] + [top])
    {
      assert (bcd[i..len - 1] + [top])[1..] == bcd[i + 1..len - 1] + [top];
      value := value * 100 + Unpacked(bcd[i]);
      i := i - 1;
    }
    assert bcd[0..len - 1] == bcd[..len - 1];
  }

  lemma FromBcdOfOne(b: byte)
    ensures FromBcd([b]) == Unpacked(b)
  {
    assert [b][1..] == [];
  }
}
