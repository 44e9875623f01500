/** Bit-level input and output of the compressor: bytes are filled and emptied from bit 7 down to bit 0. */
module BitIo {
  import opened Arithmetic
  import opened Bytes

  /** The `n` low bits of `v`, most significant first. */
  function ToBits(v: nat, n: nat): (s: seq<bool>)
    ensures |s| == n
  {
    if n == 0 then [] else ToBits(v / 2, n - 1) + [v % 2 == 1]
  }

  function BitsOf(b: byte): (s: seq<bool>)
    ensures |s| == 8
  {
    ToBits(b, 8)
  }

  /** The first bit is the one worth most: bit `i` of `n` is worth 2^(n-1-i). */
  lemma {:induction false} HighBitFirst(v: nat, n: nat, i: nat)
    requires i < n
    ensures Pow2(n - 1 - i) > 0 && ToBits(v, n)[i] == (v / Pow2(n - 1 - i) % 2 == 1)
    decreases n
  {
    if i < n - 1 {
      HighBitFirst(v / 2, n - 1, i);
      HalvedQuotient(v, Pow2(n - 2 - i));
      assert ToBits(v, n)[i] == ToBits(v / 2, n - 1)[i];
    }
  }

  lemma HalvedQuotient(v: nat, p: nat)
    requires p > 0
    ensures v / 2 / p == v / (2 * p)
  {
    var q, r := v / 2 / p, v / 2 % p;
    assert v / 2 == p * q + r;
    assert v == (2 * p) * q + (2 * r + v % 2);
    Quotient(v, 2 * p, q, 2 * r + v % 2);
  }

  /** The bits of a byte string, in transmission order. */
  ghost function Unpack(bs: seq<byte>): (s: seq<bool>)
    ensures |s| == 8 * |bs|
  {
    if bs == [] then [] else Unpack(bs[..|bs| - 1]) + BitsOf(bs[|bs| - 1])
  }

  /** What `getmemc` delivers for index `i`: past the end EOF, whose low byte is all ones. */
  function ByteAt(bs: seq<byte>, i: nat): byte {
    if i < |bs| then bs[i] else 255
  }

  /** The bit stream a reader sees: the bits of the file and then only ones. */
  ghost function StreamBit(bs: seq<byte>, i: nat): bool {
    BitsOf(ByteAt(bs, i / 8))[i % 8]
  }

  lemma {:induction false} UnpackIsStream(bs: seq<byte>, i: nat)
    requires i < 8 * |bs|
    ensures Unpack(bs)[i] == StreamBit(bs, i)
  {
    var front := bs[..|bs| - 1];
    if i < 8 * |front| {
      UnpackIsStream(front, i);
    } else {
      assert i / 8 == |front| && i % 8 == i - |Unpack(front)|;
    }
  }

  lemma {:induction false} ToBitsInjective(a: nat, b: nat, n: nat)
    requires a < Pow2(n) && b < Pow2(n) && ToBits(a, n) == ToBits(b, n)
    ensures a == b
  {
    if n > 0 {
      assert ToBits(a, n)[..n - 1] == ToBits(a / 2, n - 1) && ToBits(b, n)[..n - 1] == ToBits(b / 2, n - 1);
      assert ToBits(a, n)[n - 1] == (a % 2 == 1) && ToBits(b, n)[n - 1] == (b % 2 == 1);
      ToBitsInjective(a / 2, b / 2, n - 1);
    }
  }

  /** A file whose bits begin with those of a header begins with the header. */
  lemma UnpackPrefix(header: seq<byte>, file: seq<byte>)
    requires |header| <= |file| && Unpack(header) == Unpack(file)[..8 * |header|]
    ensures file[..|header|] == header
  {
    forall i | 0 <= i < |header|
      ensures file[i] == header[i]
    {
      SameByte(header, file, i);
    }
  }

  lemma SameByte(header: seq<byte>, file: seq<byte>, i: nat)
    requires i < |header| <= |file| && Unpack(header) == Unpack(file)[..8 * |header|]
    ensures file[i] == header[i]
  {
    hide ToBits, Unpack, StreamBit;
    forall j | 0 <= j < 8
      ensures BitsOf(file[i])[j] == BitsOf(header[i])[j]
    {
      StreamAt(file, i, j);
      StreamAt(header, i, j);
      UnpackIsStream(file, 8 * i + j);
      UnpackIsStream(header, 8 * i + j);
    }
    assert BitsOf(file[i]) == BitsOf(header[i]);
    assert Pow2(4) == 16;
    ToBitsInjective(file[i], header[i], 8);
  }

  lemma StreamAt(bs: seq<byte>, i: nat, j: nat)
    requires j < 8
    ensures StreamBit(bs, 8 * i + j) == BitsOf(ByteAt(bs, i))[j]
  {
  }

  predicate OneBit(mask: int) {
    mask == 1 || (mask > 1 && mask % 2 == 0 && OneBit(mask / 2))
  }

  /** The number of the bit that `mask` selects: 0 for the least significant one. */
  function BitNumber(mask: int): nat {
    if mask <= 1 then 0 else 1 + BitNumber(mask / 2)
  }

  /** `x / mask`, that is `x` without the bits below the mask. */
  function From(x: nat, mask: int): nat {
    if mask <= 1 then x else From(x / 2, mask / 2)
  }

  /** `v * mask`, that is `v` moved up to the mask. */
  function Scaled(v: nat, mask: int): nat {
    if mask <= 1 then v else 2 * Scaled(v, mask / 2)
  }

  /** `x & mask` for a mask with a single bit. */
  predicate HasBit(x: nat, mask: int) {
    From(x, mask) % 2 == 1
  }

  /** `x | mask` for a mask with a single bit. */
  function OrBit(x: nat, mask: int): nat
    requires OneBit(mask)
  {
    if HasBit(x, mask) then x else x + mask
  }

  lemma {:induction false} ScaledPlus(v: nat, mask: int)
    requires OneBit(mask)
    ensures Scaled(2 * v, mask) == 2 * Scaled(v, mask) && Scaled(v + 1, mask) == Scaled(v, mask) + mask
    ensures From(Scaled(v, mask), mask) == v
  {
    if mask != 1 {
      ScaledPlus(v, mask / 2);
    }
  }

  /** A byte holding the number `v` above the mask and nothing from the mask downwards. */
  predicate Aligned(buffer: nat, mask: int, v: nat) {
    OneBit(mask) && BitNumber(mask) <= 7 && buffer == Scaled(2 * v, mask) && Scaled(2 * v + 2, mask) <= 256
  }

  lemma LowestMask(v: nat)
    ensures Scaled(v, 1) == v && BitNumber(1) == 0
  {
  }

  lemma SetBit(v: nat, mask: int)
    requires OneBit(mask)
    ensures OrBit(Scaled(2 * v, mask), mask) == Scaled(2 * v + 1, mask)
  {
    ScaledPlus(2 * v, mask);
  }

  lemma ScaledDown(w: nat, mask: int)
    requires OneBit(mask) && mask != 1
    ensures OneBit(mask / 2) && mask / 2 != 0 && BitNumber(mask) == BitNumber(mask / 2) + 1
    ensures Scaled(2 * w, mask / 2) == Scaled(w, mask)
  {
    ScaledPlus(w, mask / 2);
  }

  /** Setting or leaving the bit under the mask and moving the mask down. */
  lemma PlaceBit(buffer: nat, mask: int, v: nat, bit: bool)
    requires Aligned(buffer, mask, v)
    ensures var filled, w := if bit then OrBit(buffer, mask) else buffer, 2 * v + if bit then 1 else 0;
            if mask == 1 then filled == w < 256 && BitNumber(mask) == 0
            else mask / 2 != 0 && Aligned(filled, mask / 2, w) && BitNumber(mask) == BitNumber(mask / 2) + 1
  {
    hide OrBit, Scaled, OneBit, BitNumber;
    SetBit(v, mask);
    ScaledPlus(2 * v, mask);
    ScaledPlus(2 * v + 1, mask);
    LowestMask(2 * v);
    LowestMask(2 * v + 1);
    LowestMask(2 * v + 2);
    if mask != 1 {
      var w := 2 * v + if bit then 1 else 0;
      ScaledDown(w, mask);
      ScaledDown(w + 1, mask);
      assert 2 * (w + 1) == 2 * w + 2;
    }
  }

  lemma TopMask()
    ensures Aligned(0, 128, 0) && BitNumber(128) == 7
  {
  }

  lemma AppendBit(v: nat, n: nat, bit: bool)
    ensures ToBits(2 * v + (if bit then 1 else 0), n + 1) == ToBits(v, n) + [bit]
  {
  }

  /** Testing the bit under the mask reads the bit of that number. */
  lemma {:induction false} TestBit(b: nat, n: nat, mask: int)
    requires OneBit(mask) && BitNumber(mask) < n
    ensures ToBits(b, n)[n - 1 - BitNumber(mask)] == HasBit(b, mask)
  {
    if mask != 1 {
      TestBit(b / 2, n - 1, mask / 2);
    }
  }

  class BitWriter {
    var buffer2: nat
    var mask2: int
    var dbuff: seq<byte>  // the output memory up to CurrentOutputPtr

    ghost var top: nat    // the bits of the buffer above the mask, as a number

    constructor (header: seq<byte>)
      ensures Valid() && Bits() == Unpack(header) && dbuff == header
    {
      buffer2, mask2, dbuff, top := 0, 128, header, 0;
    }

    /** `mask2` is a single bit; the buffer is a byte that is still clear from that bit downwards. */
    ghost predicate Valid()
      reads this
    {
      Aligned(buffer2, mask2, top)
    }

    /** Everything written so far, including the bits still waiting in the buffer. */
    ghost function Bits(): seq<bool>
      requires Valid()
      reads this
    {
      Unpack(dbuff) + ToBits(top, 7 - BitNumber(mask2))
    }

    method PutBit(bit: bool)
      requires Valid()
      modifies this
      ensures Valid()
      ensures Bits() == old(Bits()) + [bit]
    {
      hide From, Scaled, OneBit, BitNumber, HasBit;
      TopMask();
      PlaceBit(buffer2, mask2, top, bit);
      AppendBit(top, 7 - BitNumber(mask2), bit);
      if bit {
        buffer2 := OrBit(buffer2, mask2);
      }
      top := 2 * top + if bit then 1 else 0;
      mask2 := mask2 / 2;
      if mask2 == 0 {
        dbuff := dbuff + [buffer2];
        assert dbuff[..|dbuff| - 1] == old(dbuff);
        buffer2, mask2, top := 0, 128, 0;
      }
    }

    method FlushBitBuffer()
      requires Valid()
      modifies this
      ensures Valid()
      ensures old(Bits()) <= Unpack(dbuff)
    {
      ghost var before := Bits();
      for i := 0 to 7
        invariant Valid() && before <= Bits() && |Bits()| == |before| + i
      {
        PutBit(false);
      }
      assert Unpack(dbuff) <= Bits() && |Bits()| < |Unpack(dbuff)| + 8;
    }
  }

  class BitReader {
    const rbuff: seq<byte>
    var CurrentInputPtr: nat
    var buffer1: nat
    var mask1: int

    constructor (bytes: seq<byte>, start: nat)
      ensures rbuff == bytes && Valid() && Position() == 8 * start
    {
      rbuff, CurrentInputPtr, buffer1, mask1 := bytes, start, 0, 0;
    }

    ghost predicate Valid()
      reads this
    {
      mask1 == 0 || (OneBit(mask1) && BitNumber(mask1) <= 7 && CurrentInputPtr > 0 && buffer1 == ByteAt(rbuff, CurrentInputPtr - 1))
    }

    /** Index in the stream of the next bit to be delivered. */
    ghost function Position(): nat
      requires Valid()
      reads this
    {
      if mask1 == 0 then 8 * CurrentInputPtr else 8 * CurrentInputPtr - BitNumber(mask1)
    }

    method GetBit() returns (bit: int)
      requires Valid()
      modifies this
      ensures Valid()
      ensures Position() == old(Position()) + 1
      ensures bit == if StreamBit(rbuff, old(Position())) then 1 else 0
    {
      hide From, ToBits;
      mask1 := mask1 / 2;
      if mask1 == 0 {
        buffer1 := ByteAt(rbuff, CurrentInputPtr);
        CurrentInputPtr := CurrentInputPtr + 1;
        mask1 := 128;
      }
      StreamAt(rbuff, CurrentInputPtr - 1, 7 - BitNumber(mask1));
      TestBit(buffer1, 8, mask1);
      bit := if HasBit(buffer1, mask1) then 1 else 0;
    }
  }
}
