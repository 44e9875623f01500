/** Values of the configuration store as text: decimal and hexadecimal numbers, and strings of bytes. */
module ConfigText {
  import opened Bytes

  type text = seq<byte>

  const MINUS: byte := 45
  const PLUS: byte := 43
  const ZERO: byte := 48
  const X: byte := 120
  const UPPER_X: byte := 88

  // ----- Writing -----

  /** A digit below 16, as `%X` writes it. */
  function HexDigit(d: nat): byte
    requires d < 16
  {
    if d < 10 then 48 + d else 55 + d
  }

  lemma HexDigitIs(d: nat)
    requires d < 16
    ensures HexDigit(d) == "0123456789ABCDEF"[d] as int
  {
  }

  /** The digits of a number, without leading zeros. */
  function Digits(n: nat, base: nat): (s: text)
    requires 2 <= base <= 16
    ensures |s| >= 1
  {
    if n < base then [HexDigit(n)] else Digits(n / base, base) + [HexDigit(n % base)]
  }

  /** `%d`. */
  function Decimal(v: int): text {
    if v < 0 then [MINUS] + Digits(-v, 10) else Digits(v, 10)
  }

  /** `0x%X` of the value as an unsigned number. */
  function Hexadecimal(v: int32): text {
    [ZERO, X] + Digits(if v < 0 then v + 0x1_0000_0000 else v, 16)
  }

  /** `%02X` of every byte. */
  function HexString(bytes: seq<byte>): (s: text)
    ensures |s| == 2 * |bytes|
  {
    if bytes == [] then []
    else
      var b: nat := bytes[|bytes| - 1];
      HexString(bytes[..|bytes| - 1]) + [HexDigit(b / 16), HexDigit(b % 16)]
  }

  // ----- Reading -----

  /** The value of a hexadecimal digit; 16 for anything else. */
  function Nibble(c: byte): (d: nat)
    ensures d <= 16
  {
    if 48 <= c <= 57 then c - 48
    else if 65 <= c <= 70 then c - 55
    else if 97 <= c <= 102 then c - 87
    else 16
  }

  /** How many digits below `base` the text starts with. */
  function Run(s: text, base: nat): (n: nat)
    requires base <= 16
    ensures n <= |s| && forall i :: 0 <= i < n ==> Nibble(s[i]) < base
    ensures n < |s| ==> Nibble(s[n]) >= base
  {
    if s == [] || Nibble(s[0]) >= base then 0 else 1 + Run(s[1..], base)
  }

  function Times(n: nat, base: nat): nat {
    n * base
  }

  /** The number a text of digits stands for. */
  function Number(s: text, base: nat): nat {
    if s == [] then 0 else Times(Number(s[..|s| - 1], base), base) + Nibble(s[|s| - 1])
  }

  predicate Space(c: byte) {
    c == 32 || 9 <= c <= 13
  }

  /** `atoi` of the C library, for numbers that fit: white space, a sign, digits. */
  function Atoi(s: text): int {
    if s == [] then 0
    else if Space(s[0]) then Atoi(s[1..])
    else if s[0] == MINUS then -(Number(s[1..][..Run(s[1..], 10)], 10) as int)
    else if s[0] == PLUS then Number(s[1..][..Run(s[1..], 10)], 10)
    else Number(s[..Run(s, 10)], 10)
  }

  /** A 32-bit pattern as a signed number. */
  function Signed(u: uint32): int32 {
    if u < 0x8000_0000 then u else u - 0x1_0000_0000
  }

  function StrToInt(s: text): int {
    if |s| >= 2 && s[0] == ZERO && (s[1] == X || s[1] == UPPER_X) then
      Signed(Number(s[2..][..Run(s[2..], 16)], 16) % 0x1_0000_0000)
    else Atoi(s)
  }

  /** `XinStrToInt`: the sum keeps its low 32 bits. */
  method XinStrToInt(str: text) returns (r: int)
    ensures r == StrToInt(str)
  {
    if |str| >= 2 && str[0] == ZERO && (str[1] == X || str[1] == UPPER_X) {
      var s := str[2..];
      var sum: uint32 := 0;
      var i := 0;
      ghost var n := Run(s, 16);
      while i < |s|
        invariant 0 <= i <= n && sum == Number(s[..i], 16) % 0x1_0000_0000
      {
        var num := Nibble(s[i]);
        if num == 16 {
          break;
        }
        assert s[..i + 1][..i] == s[..i];
        ModStep(Number(s[..i], 16), num);
        sum := (sum * 16 + num) % 0x1_0000_0000;
        i := i + 1;
      }
      return Signed(sum);
    }
    return Atoi(str);
  }

  lemma ModStep(n: nat, d: nat)
    ensures (n % 0x1_0000_0000 * 16 + d) % 0x1_0000_0000 == (n * 16 + d) % 0x1_0000_0000
  {
    var q, r := n / 0x1_0000_0000, n % 0x1_0000_0000;
    assert n * 16 + d == 0x1_0000_0000 * (16 * q) + (r * 16 + d);
  }

  // ----- There and back -----

  lemma NibbleOfHexDigit(d: nat)
    requires d < 16
    ensures Nibble(HexDigit(d)) == d
  {
  }

  lemma DivideBy(n: nat, base: nat)
    requires 2 <= base <= 16
    ensures n == Times(n / base, base) + n % base && n % base < base
    ensures n >= base ==> 0 < n / base < n
  {
  }

  lemma NumberOfOneMore(s: text, c: byte, base: nat)
    ensures Number(s + [c], base) == Times(Number(s, base), base) + Nibble(c)
  {
    hide Nibble;
    assert (s + [c])[..|s|] == s;
  }

  lemma {:induction false} NumberOfDigits(n: nat, base: nat)
    requires 2 <= base <= 16
    ensures Number(Digits(n, base), base) == n
    ensures forall i :: 0 <= i < |Digits(n, base)| ==> Nibble(Digits(n, base)[i]) < base
    decreases n
  {
    hide Nibble, HexDigit, Number, Times;
    DivideBy(n, base);
    NibbleOfHexDigit(n % base);
    if n < base {
      NumberOfOneMore([], HexDigit(n), base);
      EmptyNumber(base);
      assert [] + [HexDigit(n)] == [HexDigit(n)];
    } else {
      var q := n / base;
      NumberOfDigits(q, base);
      NumberOfOneMore(Digits(q, base), HexDigit(n % base), base);
    }
  }

  lemma EmptyNumber(base: nat)
    ensures Times(Number([], base), base) == 0
  {
  }

  lemma {:induction false} RunOfAll(s: text, base: nat)
    requires base <= 16 && forall i :: 0 <= i < |s| ==> Nibble(s[i]) < base
    ensures Run(s, base) == |s|
  {
    if s != [] {
      RunOfAll(s[1..], base);
    }
  }

  /** Every integer written in decimal is read back. */
  lemma DecimalRoundTrip(v: int)
    ensures StrToInt(Decimal(v)) == v
  {
    var s := Digits(if v < 0 then -v else v, 10);
    NumberOfDigits(if v < 0 then -v else v, 10);
    RunOfAll(s, 10);
    assert s[..|s|] == s;
    assert Nibble(s[0]) < 10;
    if v < 0 {
      assert Decimal(v)[1..] == s;
    } else if |s| >= 2 {
      assert Nibble(s[1]) < 10;
    }
  }

  /** Every 32-bit integer written in hexadecimal is read back. */
  lemma HexadecimalRoundTrip(v: int32)
    ensures StrToInt(Hexadecimal(v)) == v
  {
    hide Number, Run, Digits, Nibble;
    var u: nat := if v < 0 then v + 0x1_0000_0000 else v;
    var s := Digits(u, 16);
    NumberOfDigits(u, 16);
    RunOfAll(s, 16);
    assert Hexadecimal(v)[2..] == s && s[..|s|] == s;
  }

  /** The sixteen digits, in either case, and nothing else. */
  lemma DigitsInEitherCase(c: byte)
    ensures forall d :: 0 <= d < 16 ==> Nibble("0123456789ABCDEF"[d] as int) == d == Nibble("0123456789abcdef"[d] as int)
    ensures Nibble(c) < 16 ==> c == "0123456789ABCDEF"[Nibble(c)] as int || c == "0123456789abcdef"[Nibble(c)] as int
  {
    if 48 <= c <= 57 {
      assert "0123456789"[c - 48] as int == c;
    } else if 65 <= c <= 70 {
      assert "ABCDEF"[c - 65] as int == c;
    } else if 97 <= c <= 102 {
      assert "abcdef"[c - 97] as int == c;
    }
  }

  /** What comes behind the digits ends them. */
  predicate Ends(tail: text, base: nat) {
    tail != [] ==> Nibble(tail[0]) >= base
  }

  lemma {:induction false} RunStops(s: text, tail: text, base: nat)
    requires base <= 16 && Ends(tail, base) && forall i :: 0 <= i < |s| ==> Nibble(s[i]) < base
    ensures Run(s + tail, base) == |s| && (s + tail)[..|s|] == s
    decreases |s|
  {
    hide Nibble;
    if s == [] {
      assert s + tail == tail;
    } else {
      RunStops(s[1..], tail, base);
      assert (s + tail)[1..] == s[1..] + tail;
    }
  }

  /** A number in decimal is read behind any white space and a sign, whatever comes behind it. */
  lemma {:induction false} DecimalInText(space: text, sign: text, n: nat, tail: text)
    requires (forall i :: 0 <= i < |space| ==> Space(space[i])) && sign in [[], [MINUS], [PLUS]] && Ends(tail, 10)
    ensures Atoi(space + (sign + (Digits(n, 10) + tail))) == if sign == [MINUS] then 0 - n else n
    decreases |space|
  {
    var s := sign + (Digits(n, 10) + tail);
    if space == [] {
      assert space + s == s;
      SignedInText(sign, n, tail);
    } else {
      DecimalInText(space[1..], sign, n, tail);
      assert (space + s)[0] == space[0] && (space + s)[1..] == space[1..] + s;
    }
  }

  lemma SignedInText(sign: text, n: nat, tail: text)
    requires sign in [[], [MINUS], [PLUS]] && Ends(tail, 10)
    ensures Atoi(sign + (Digits(n, 10) + tail)) == if sign == [MINUS] then 0 - n else n
  {
    var d := Digits(n, 10);
    NumberOfDigits(n, 10);
    RunStops(d, tail, 10);
    assert Nibble(d[0]) < 10 && (d + tail)[0] == d[0];
    hide Number, Run, Digits, Atoi;
    if sign == [] {
      assert sign + (d + tail) == d + tail;
      AtoiOfDigits(d + tail);
    } else {
      assert (sign + (d + tail))[0] == sign[0] && (sign + (d + tail))[1..] == d + tail;
      AtoiOfSign(sign + (d + tail));
    }
  }

  lemma AtoiOfDigits(s: text)
    requires s != [] && Nibble(s[0]) < 10
    ensures Atoi(s) == Number(s[..Run(s, 10)], 10)
  {
    hide Number, Run;
  }

  lemma AtoiOfSign(s: text)
    requires s != [] && s[0] in [MINUS, PLUS]
    ensures var m := Number(s[1..][..Run(s[1..], 10)], 10);
            Atoi(s) == if s[0] == MINUS then 0 - m else m
  {
    hide Number, Run;
  }

  /** A number in hexadecimal is read behind 0x or 0X, modulo 2^32 and as a signed number, whatever
      comes behind it. */
  lemma HexadecimalInText(x: byte, u: nat, tail: text)
    requires x in [X, UPPER_X] && Ends(tail, 16)
    ensures var w := u % 0x1_0000_0000;
            StrToInt([ZERO, x] + (Digits(u, 16) + tail)) == if w < 0x8000_0000 then w else w - 0x1_0000_0000
  {
    NumberOfDigits(u, 16);
    RunStops(Digits(u, 16), tail, 16);
    hide Number, Run, Digits, Nibble;
    assert ([ZERO, x] + (Digits(u, 16) + tail))[2..] == Digits(u, 16) + tail;
  }

  // ----- Strings of bytes -----

  function Pair(high: nat, low: nat): byte
    requires high < 16 && low < 16
  {
    high * 16 + low
  }

  /** The bytes a text of hexadecimal digits stands for, at most `len`. */
  function StrToHex(s: text, len: nat): (r: seq<byte>)
    ensures |r| <= len
  {
    var n := Run(s, 16) / 2;
    var k := if n <= len then n else len;
    seq(k, i requires 0 <= i < k => Pair(Nibble(s[2 * i]), Nibble(s[2 * i + 1])))
  }

  /** `XinStrToHex` into a buffer of `len` bytes. */
  method XinStrToHex(str: text, buffer: array<byte>, len: nat) returns (copylen: nat)
    requires 1 <= len <= buffer.Length
    modifies buffer
    ensures copylen == |StrToHex(str, len)| && buffer[..copylen] == StrToHex(str, len)
    ensures buffer[len..] == old(buffer[len..])
  {
    hide Nibble, Run;
    copylen := 0;
    var skip := false;
    ghost var n := Run(str, 16);
    ghost var was := buffer[len..];
    var i := 0;
    while i < |str|
      invariant i <= n && copylen < len && i == 2 * copylen + (if skip then 1 else 0)
      invariant forall k :: 0 <= k < copylen ==> buffer[k] == Pair(Nibble(str[2 * k]), Nibble(str[2 * k + 1]))
      invariant skip ==> buffer[copylen] == Pair(Nibble(str[2 * copylen]), 0)
      invariant buffer[len..] == was
    {
      var uc := Nibble(str[i]);
      if uc == 16 {
        break;
      }
      if skip {
        buffer[copylen] := buffer[copylen] + uc;
        skip := false;
        copylen := copylen + 1;
        if copylen >= len {
          break;
        }
      } else {
        buffer[copylen] := Pair(uc, 0);
        skip := true;
      }
      i := i + 1;
    }
  }

  lemma {:induction false} HexStringAt(bytes: seq<byte>, i: nat)
    requires i < |bytes|
    ensures var b: nat, s := bytes[i], HexString(bytes);
            s[2 * i] == HexDigit(b / 16) && s[2 * i + 1] == HexDigit(b % 16)
  {
    if i < |bytes| - 1 {
      HexStringAt(bytes[..|bytes| - 1], i);
    }
  }

  /** The two digits of a byte. */
  lemma DigitsOfByte(bytes: seq<byte>, i: nat)
    requires i < |bytes|
    ensures var s := HexString(bytes);
            Nibble(s[2 * i]) < 16 && Nibble(s[2 * i + 1]) < 16 && Pair(Nibble(s[2 * i]), Nibble(s[2 * i + 1])) == bytes[i]
  {
    hide Nibble, HexDigit, HexString;
    var b: nat := bytes[i];
    HexStringAt(bytes, i);
    NibbleOfHexDigit(b / 16);
    NibbleOfHexDigit(b % 16);
  }

  lemma AllDigits(bytes: seq<byte>)
    ensures forall j :: 0 <= j < |HexString(bytes)| ==> Nibble(HexString(bytes)[j]) < 16
  {
    hide Nibble, HexString, Pair;
    forall j | 0 <= j < |HexString(bytes)|
      ensures Nibble(HexString(bytes)[j]) < 16
    {
      DigitsOfByte(bytes, j / 2);
      assert j == 2 * (j / 2) || j == 2 * (j / 2) + 1;
    }
  }

  lemma RunOfHexString(bytes: seq<byte>, tail: text)
    requires Ends(tail, 16)
    ensures Run(HexString(bytes) + tail, 16) == 2 * |bytes|
  {
    AllDigits(bytes);
    hide *;
    RunStops(HexString(bytes), tail, 16);
  }

  /** Every string of bytes is read back, as much of it as fits, whatever comes behind it. */
  lemma HexStringInText(bytes: seq<byte>, tail: text, len: nat)
    requires Ends(tail, 16)
    ensures StrToHex(HexString(bytes) + tail, len) == if |bytes| <= len then bytes else bytes[..len]
  {
    hide *;
    RunOfHexString(bytes, tail);
    var s, r := HexString(bytes) + tail, StrToHex(HexString(bytes) + tail, len);
    StrToHexLength(s, len);
    forall i | 0 <= i < |r|
      ensures r[i] == bytes[i]
    {
      DigitsOfByte(bytes, i);
      StrToHexAt(s, len, i);
      assert s[2 * i] == HexString(bytes)[2 * i] && s[2 * i + 1] == HexString(bytes)[2 * i + 1];
    }
  }

  lemma StrToHexLength(s: text, len: nat)
    ensures |StrToHex(s, len)| == if Run(s, 16) / 2 <= len then Run(s, 16) / 2 else len
  {
    hide Run, Nibble, Pair;
  }

  lemma StrToHexAt(s: text, len: nat, i: nat)
    requires i < |StrToHex(s, len)|
    ensures 2 * i + 1 < |s| && Nibble(s[2 * i]) < 16 && Nibble(s[2 * i + 1]) < 16
    ensures StrToHex(s, len)[i] == Pair(Nibble(s[2 * i]), Nibble(s[2 * i + 1]))
  {
    hide Run, Nibble, Pair;
  }

  lemma HexStringRoundTrip(bytes: seq<byte>, len: nat)
    ensures StrToHex(HexString(bytes), len) == if |bytes| <= len then bytes else bytes[..len]
  {
    HexStringInText(bytes, [], len);
    assert HexString(bytes) + [] == HexString(bytes);
  }
}
