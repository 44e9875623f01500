/** The two lossy number formats of the meter protocol: three digits and a power of ten for power,
    seven digits and a unit for energy. */
module MeterFormats {
  import opened Bytes
  import opened Decimals

  // ----- Power: three digits and an exponent -----

  /** A number cut to three digits, by at most `steps` divisions. */
  function Cut(n: nat, steps: nat): nat {
    if n < 1000 then n else if steps == 0 then 999 else 10 * Cut(n / 10, steps - 1)
  }

  function Pow10(n: nat): (p: nat)
    ensures p >= 1
  {
    if n == 0 then 1 else 10 * Pow10(n - 1)
  }

  /** The pair of bytes: digits in BCD, and exponent code, sign and first digit in the second byte. */
  function Pair(code: nat, minus: bool, digits: nat): (s: seq<byte>)
    requires code < 8 && digits < 1000
    ensures |s| == 2
  {
    [Packed(digits % 100), code * 32 + (if minus then 16 else 0) + digits / 100]
  }

  /** What a pair of bytes stands for. */
  function FromPair(s: seq<byte>): int
    requires |s| == 2
  {
    var b: nat := s[1];
    var digits := b % 16 * 100 + Unpacked(s[0]);
    var base: int := 6 - b / 32;
    var value := if base < 0 then digits / 10 else Above(Pow10(base), digits);
    if b / 16 % 2 == 1 then 0 - value else value
  }

  lemma PairReadsBack(code: nat, minus: bool, digits: nat)
    requires code < 7 && digits < 1000
    ensures FromPair(Pair(code, minus, digits)) == if minus then 0 - Above(Pow10(6 - code), digits) else Above(Pow10(6 - code), digits)
  {
    hide Packed, Unpacked, Above;
    UnpackedOfPacked(digits % 100);
    var b := code * 32 + (if minus then 16 else 0) + digits / 100;
    assert b / 32 == code && b / 16 % 2 == (if minus then 1 else 0) && b % 16 == digits / 100;
  }

  /** The powers of ten by exponent code. */
  const TENS: seq<nat> := [1_000_000, 100_000, 10_000, 1_000, 100, 10, 1]

  /** What two bytes stand for, bit by bit: two digits, then from the top three bits of exponent code,
      a sign and the first digit. Code 7 stands for tenths. */
  lemma PairStandsFor(tens: nat, units: nat, code: nat, minus: bool, hundreds: nat)
    requires tens < 16 && units < 16 && code < 8 && hundreds < 16
    ensures var digits := hundreds * 100 + tens * 10 + units;
            var value := if code < 7 then TENS[code] * digits else digits / 10;
            FromPair([16 * tens + units, 32 * code + (if minus then 16 else 0) + hundreds]) == if minus then 0 - value else value
  {
    var b := 32 * code + (if minus then 16 else 0) + hundreds;
    assert b / 32 == code && b / 16 % 2 == (if minus then 1 else 0) && b % 16 == hundreds;
    UnpackedIs(tens, units);
    PowersOfTen();
    hide Pow10, Unpacked;
  }

  lemma PowersOfTen()
    ensures Pow10(0) == 1 && Pow10(1) == 10 && Pow10(2) == 100 && Pow10(3) == 1_000
    ensures Pow10(4) == 10_000 && Pow10(5) == 100_000 && Pow10(6) == 1_000_000
  {
    assert Pow10(2) == 10 * Pow10(1) && Pow10(3) == 10 * Pow10(2) && Pow10(4) == 10 * Pow10(3);
    assert Pow10(5) == 10 * Pow10(4) && Pow10(6) == 10 * Pow10(5);
  }

  method Sfloat02ToPower(psrc: seq<byte>) returns (rtn: int)
    requires |psrc| == 2
    ensures rtn == FromPair(psrc)
  {
    var low: nat := Unpacked(psrc[0]);
    var high: nat := psrc[1];
    rtn := high % 16 * 100 + low;
    var base: int := 7 - high / 32;
    base := base - 1;
    if base < 0 {
      rtn := rtn / 10;
    } else {
      var i := 0;
      ghost var digits := rtn;
      while i < base
        invariant 0 <= i <= base && rtn == Above(Pow10(i), digits)
      {
        rtn := rtn * 10;
        i := i + 1;
      }
    }
    if high / 16 % 2 == 1 {
      rtn := -rtn;
    }
  }

  /** `PowerToSfloat02`: whole hundreds below 99900 always get the exponent 2; every other number as
      many divisions as it needs, and at most six. What is read back is the number cut to three digits. */
  method PowerToSfloat02(src0: int32, pdst: array<byte>)
    requires src0 != -0x8000_0000 && pdst.Length >= 2
    modifies pdst
    ensures FromPair(pdst[..2]) == Sign(src0) * Cut(Magnitude(src0), 6)
    ensures pdst[2..] == old(pdst[2..])
  {
    var src: nat := Magnitude(src0);
    var flag := src0 < 0;
    var code: nat, digits: nat;
    if src < 99900 && src % 100 == 0 {
      code, digits := 4, src / 100;
      WholeHundreds(src);
    } else {
      code, digits := Divide(src);
    }
    hide Packed, Unpacked;
    PairReadsBack(code, flag, digits);
    var uc: byte := code * 32;
    if flag {
      uc := uc + 16;
    }
    pdst[1] := uc + digits / 100;
    pdst[0] := Packed(digits % 100);
    assert pdst[..2] == Pair(code, flag, digits);
  }

  /** The division loop. */
  method Divide(src0: nat) returns (code: nat, digits: nat)
    ensures code < 7 && digits < 1000 && Above(Pow10(6 - code), digits) == Cut(src0, 6)
  {
    hide Pow10, Above;
    var src, i := src0, 1;
    Times1(Cut(src0, 6));
    while i < 7
      invariant 1 <= i <= 7 && Cut(src0, 6) == Above(Pow10(i - 1), Cut(src, 7 - i))
    {
      if src < 1000 {
        break;
      }
      CutStep(src, i);
      src := src / 10;
      i := i + 1;
    }
    if src >= 1000 {
      src := 999;
    }
    code, digits := 7 - i, src;
  }

  lemma Times1(n: nat)
    ensures Above(Pow10(0), n) == n
  {
  }

  lemma CutStep(src: nat, i: nat)
    requires 1 <= i < 7 && src >= 1000
    ensures Above(Pow10(i - 1), Cut(src, 7 - i)) == Above(Pow10(i), Cut(src / 10, 7 - (i + 1)))
  {
    var c := Cut(src / 10, 6 - i);
    assert Cut(src, 7 - i) == 10 * c;
    assert Pow10(i) == 10 * Pow10(i - 1);
  }

  lemma WholeHundreds(src: nat)
    requires src < 99900 && src % 100 == 0
    ensures src / 100 < 1000 && Above(Pow10(2), src / 100) == src == Cut(src, 6)
  {
    assert Pow10(2) == 100 by {
      assert Pow10(1) == 10;
    }
    var h := src / 100;
    assert src == 100 * h;
    if src >= 10000 {
      assert src / 10 == 10 * h && src / 10 / 10 == h;
      assert Cut(src / 10 / 10, 4) == h;
    } else if src >= 1000 {
      assert src / 10 == 10 * h;
    }
  }

  function Sign(l: int): int {
    if l < 0 then -1 else 1
  }

  lemma {:induction false} CutKeepsDigits(n: nat, steps: nat)
    ensures Cut(n, steps) <= n && (n >= 100 ==> Cut(n, steps) >= 100)
  {
    if n >= 1000 && steps > 0 {
      CutKeepsDigits(n / 10, steps - 1);
    }
  }

  /** What is cut off is less than a power of ten that goes into the number at least a hundred times. */
  lemma {:induction false} CutOff(n: nat, steps: nat) returns (k: nat)
    requires n < Above(1000, Pow10(steps))
    ensures n - Cut(n, steps) < Pow10(k) && (k == 0 || 100 * Pow10(k) <= n)
  {
    if n < 1000 {
      k := 0;
    } else {
      assert steps > 0 by {
        assert Above(1000, Pow10(0)) == 1000;
      }
      assert Above(1000, Pow10(steps)) == 10 * Above(1000, Pow10(steps - 1));
      k := CutOff(n / 10, steps - 1);
      if k == 0 {
        assert 100 * Pow10(1) == 1000;
      }
      k := k + 1;
    }
  }

  /** Below 10^9 the number read back loses less than one hundredth. */
  lemma CutIsClose(n: nat)
    requires 0 < n < 1_000_000_000
    ensures Cut(n, 6) <= n && 100 * (n - Cut(n, 6)) < n
  {
    assert Pow10(6) == 1_000_000 by {
      assert Pow10(2) == 100;
      assert Pow10(4) == 10000;
    }
    CutKeepsDigits(n, 6);
    hide Cut;
    var k := CutOff(n, 6);
    if k == 0 {
      assert Pow10(0) == 1;
    }
    hide Pow10;
  }

  /** Writing a number that was read back changes it no more. */
  lemma {:induction false} CutIsIdempotent(n: nat, steps: nat)
    ensures Cut(Cut(n, steps), steps) == Cut(n, steps)
  {
    if n >= 1000 && steps > 0 {
      CutIsIdempotent(n / 10, steps - 1);
      CutKeepsDigits(n / 10, steps - 1);
      var c := Cut(n / 10, steps - 1);
      assert 10 * c / 10 == c;
    }
  }

  // ----- Energy: seven digits and a unit -----

  const MAX_GENE_MWH: nat := 2_000_000

  /** What the format keeps of an energy: everything up to seven digits, whole thousands above. */
  function Kept(m: nat): nat {
    if m <= 9_999_999 then m
    else if m / 1000 <= MAX_GENE_MWH then m / 1000 * 1000
    else MAX_GENE_MWH * 1000
  }

  /** Four bytes of energy: seven digits, unit and sign. */
  function Energy(digits: nat, mega: bool, minus: bool): (s: seq<byte>)
    requires digits <= 9_999_999
    ensures |s| == 4
  {
    ToBcd(digits, 3) + [Packed(Shifted(digits, 3) % 100) % 16 + (if mega then 64 else 0) + (if minus then 16 else 0)]
  }

  function FromEnergy(s: seq<byte>): int
    requires |s| == 4
  {
    var b: nat := s[3];
    var tmp := b % 16 * 1000000 + FromBcd(s[..3]);
    var value := if b / 64 % 2 == 1 then (if tmp > MAX_GENE_MWH then MAX_GENE_MWH else tmp) * 1000 else tmp;
    if b / 16 % 2 == 1 then 0 - value else value
  }

  /** What four bytes stand for: seven digits from the low half of the first byte on, bit 6 of the last
      byte for thousands, bit 4 for the sign; the other two bits do not count. */
  lemma EnergyStandsFor(low: seq<byte>, top: nat, minus: bool, b5: bool, mega: bool, b7: bool)
    requires |low| == 3 && top < 16
    ensures var b := top + (if minus then 16 else 0) + (if b5 then 32 else 0) + (if mega then 64 else 0) + (if b7 then 128 else 0);
            var digits := top * 1_000_000 + Unpacked(low[2]) * 10_000 + Unpacked(low[1]) * 100 + Unpacked(low[0]);
            var value := if !mega then digits else if digits > 2_000_000 then 2_000_000_000 else digits * 1_000;
            FromEnergy(low + [b]) == if minus then 0 - value else value
  {
    var b := top + (if minus then 16 else 0) + (if b5 then 32 else 0) + (if mega then 64 else 0) + (if b7 then 128 else 0);
    BitsOfByte(top, minus, b5, mega, b7);
    SixDigits(low);
    assert (low + [b])[..3] == low;
    hide Unpacked, FromBcd;
  }

  lemma BitsOfByte(top: nat, minus: bool, b5: bool, mega: bool, b7: bool)
    requires top < 16
    ensures var b := top + (if minus then 16 else 0) + (if b5 then 32 else 0) + (if mega then 64 else 0) + (if b7 then 128 else 0);
            b < 256 && b % 16 == top && (b / 64 % 2 == 1 <==> mega) && (b / 16 % 2 == 1 <==> minus)
  {
  }

  lemma SixDigits(s: seq<byte>)
    requires |s| == 3
    ensures FromBcd(s) == Unpacked(s[2]) * 10_000 + Unpacked(s[1]) * 100 + Unpacked(s[0])
  {
    hide Unpacked;
    assert s[1..][1..] == [s[2]] && s[1..][0] == s[1] && [s[2]][1..] == [];
    assert FromBcd([s[2]]) == Unpacked(s[2]);
  }

  lemma EnergyReadsBack(digits: nat, mega: bool, minus: bool)
    requires digits <= 9_999_999
    ensures var value := if mega then (if digits > MAX_GENE_MWH then MAX_GENE_MWH else digits) * 1000 else digits;
            FromEnergy(Energy(digits, mega, minus)) == if minus then 0 - value else value
  {
    hide ToBcd, FromBcd, Packed, Shifted;
    SevenDigits(digits);
    var s := Energy(digits, mega, minus);
    assert s[..3] == ToBcd(digits, 3);
    ByteParts(digits / 1000000, mega, minus);
    assert s[3] == digits / 1000000 + (if mega then 64 else 0) + (if minus then 16 else 0);
    hide Energy;
  }

  lemma ByteParts(top: nat, mega: bool, minus: bool)
    requires top < 10
    ensures var b := top + (if mega then 64 else 0) + (if minus then 16 else 0);
            top % 16 == top && b < 256 && b % 16 == top && (b / 64 % 2 == 1 <==> mega) && (b / 16 % 2 == 1 <==> minus)
  {
  }

  lemma SevenDigits(digits: nat)
    requires digits <= 9_999_999
    ensures var top := digits / 1000000;
            && Packed(Shifted(digits, 3) % 100) == top < 10
            && FromBcd(ToBcd(digits, 3)) == digits - top * 1000000
  {
    hide ToBcd, FromBcd, Shifted, Pow100, Packed;
    BcdHoldsModulo(digits, 3);
    ShiftedIsQuotient(digits, 3);
    Million();
    PackedDigit(digits / 1000000);
  }

  lemma PackedDigit(top: nat)
    requires top < 10
    ensures top % 100 == top && Packed(top) == top
  {
  }

  lemma Million()
    ensures Pow100(3) == 1000000
  {
    assert Pow100(1) == 100;
    assert Pow100(2) == 10000;
  }

  method Sbcd03ToEnergy(psrc: array<byte>) returns (tmp: int)
    requires psrc.Length == 4
    ensures tmp == FromEnergy(psrc[..])
  {
    hide Unpacked;
    ThreeBytes(psrc[..3]);
    var b: nat := psrc[3];
    tmp := b % 16;
    tmp := tmp * 1000000;
    var low := BcdToUnsigned(psrc, 3);
    assert psrc[..][..3] == psrc[..3];
    tmp := tmp + low;
    if b / 64 % 2 == 1 {
      if tmp > MAX_GENE_MWH {
        tmp := MAX_GENE_MWH;
      }
      tmp := tmp * 1000;
    }
    if b / 16 % 2 == 1 {
      tmp := -tmp;
    }
  }

  lemma ThreeBytes(s: seq<byte>)
    requires |s| == 3
    ensures FromBcd(s) < 0x1_0000_0000
  {
    UnpackedIsSmall(s[0]);
    UnpackedIsSmall(s[1]);
    UnpackedIsSmall(s[2]);
    assert s[1..][1..] == [s[2]] && s[1..][0] == s[1] && [s[2]][1..] == [];
    hide Unpacked;
    assert FromBcd([s[2]]) == Unpacked(s[2]);
  }

  lemma UnpackedIsSmall(b: byte)
    ensures Unpacked(b) < 200
  {
  }

  /** `EnergyToSbcd03`: what is read back is exact up to seven digits, whole thousands up to
      2000000999, and 2000000000 from there on. */
  method EnergyToSbcd03(src0: int32, pdst: array<byte>)
    requires src0 != -0x8000_0000 && pdst.Length == 4
    modifies pdst
    ensures FromEnergy(pdst[..]) == Sign(src0) * Kept(Magnitude(src0))
  {
    var src: nat := Magnitude(src0);
    var mega := false;
    if src > 9_999_999 {
      src := src / 1000;
      mega := true;
      if src > 9_999_999 {
        src := 9_999_999;
      }
    }
    EnergyReadsBack(src, mega, src0 < 0);
    OneByteMore(src, 3);
    hide FromEnergy, ToBcd, Packed;
    var _ := UnsignedToBcd(src, pdst, 4);
    assert pdst[..4] == pdst[..];
    var digits := pdst[..];
    pdst[3] := pdst[3] % 16 + (if mega then 64 else 0) + (if src0 < 0 then 16 else 0);
    assert pdst[..] == Energy(src, mega, src0 < 0);
  }

  /** Small energies are kept exactly, and greater ones to the thousand. */
  lemma KeptIsClose(m: nat)
    requires m <= 2_000_000_999
    ensures Kept(m) <= m < Kept(m) + 1000 && (m <= 9_999_999 ==> Kept(m) == m)
  {
  }
}
