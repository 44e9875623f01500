/** Group files: a head, items each behind its own CRC, and a CRC of all of them at the end. */
module GroupFile {
  import opened Bytes
  import opened Crc16
  import opened StoredFile

  // ----- What a file holds -----

  datatype Head = Head(headcrc: word, reserv: word, magic: uint32, itemlen: word, itemnum: word) {
    /** The part its checksum covers. */
    function Covered(): (s: seq<byte>)
      ensures |s| == 10
    {
      Bytes2(reserv) + Bytes4(magic) + Bytes2(itemlen) + Bytes2(itemnum)
    }

    function Bytes(): (s: seq<byte>)
      ensures |s| == 12
    {
      Bytes2(headcrc) + Covered()
    }
  }

  function ParseHead(s: seq<byte>): Head
    requires |s| == 12
  {
    Head(Word2(s[0..2]), Word2(s[2..4]), Word4(s[4..8]), Word2(s[8..10]), Word2(s[10..12]))
  }

  lemma ParseHeadOfBytes(h: Head)
    ensures ParseHead(h.Bytes()) == h
  {
    hide Bytes2, Bytes4, Word2, Word4;
    var s := h.Bytes();
    assert s[0..2] == Bytes2(h.headcrc);
    assert s[2..4] == Bytes2(h.reserv);
    assert s[4..8] == Bytes4(h.magic);
    assert s[8..10] == Bytes2(h.itemlen);
    assert s[10..12] == Bytes2(h.itemnum);
    Word2OfBytes2(h.headcrc);
    Word2OfBytes2(h.reserv);
    Word4OfBytes4(h.magic);
    Word2OfBytes2(h.itemlen);
    Word2OfBytes2(h.itemnum);
  }

  /** The last two bytes are the CRC of all bytes before them, low byte first. */
  predicate TailOk(b: seq<byte>) {
    |b| >= 2 && Word2(b[|b| - 2..]) == Sum(b[..|b| - 2])
  }

  /** What the tail check accepts. A single byte behind a multiple of 32 goes unnoticed. */
  predicate Accepted(body: seq<byte>) {
    TailOk(if |body| % 32 == 1 then body[..|body| - 1] else body)
  }

  /** Such a byte: behind 32 zeros, or more blocks of them, a one is accepted, although the whole does
      not end with its CRC. */
  lemma OddByteEscapes(n: nat)
    requires n > 0 && n % 32 == 0
    ensures Accepted(Zeros(n) + [1]) && !TailOk(Zeros(n) + [1])
  {
    hide TailOk, Zeros;
    ZerosEndOk(n);
    OneEndsWrong(n);
    UnseenByte(Zeros(n), 1);
  }

  lemma UnseenByte(b: seq<byte>, c: byte)
    requires |b| % 32 == 0
    ensures Accepted(b + [c]) <==> TailOk(b)
  {
    hide TailOk;
    var body := b + [c];
    assert body[..|body| - 1] == b;
  }

  lemma ZerosEndOk(n: nat)
    requires n >= 2
    ensures TailOk(Zeros(n))
  {
    hide Sum;
    SumOfZeros(n - 2);
    assert Zeros(n)[..n - 2] == Zeros(n - 2) && Zeros(n)[n - 2..] == [0, 0];
  }

  lemma OneEndsWrong(n: nat)
    requires n >= 1
    ensures !TailOk(Zeros(n) + [1])
  {
    hide Sum;
    SumOfZeros(n - 1);
    var body := Zeros(n) + [1];
    assert body[..n - 1] == Zeros(n - 1) && body[n - 1..] == [0, 1];
  }

  /** A slot: an item behind its CRC. */
  function Slot(item: seq<byte>): (s: seq<byte>)
    ensures |s| == 2 + |item|
  {
    Bytes2(Sum(item)) + item
  }

  function Slots(items: seq<seq<byte>>): seq<byte> {
    if items == [] then [] else Slots(items[..|items| - 1]) + Slot(items[|items| - 1])
  }

  predicate AllOf(items: seq<seq<byte>>, itemlen: nat) {
    forall i :: 0 <= i < |items| ==> |items[i]| == itemlen
  }

  /** The items that can be read from `data`: slot by slot, those whose own CRC is right. */
  function Good(data: seq<byte>, itemlen: nat): seq<seq<byte>>
    decreases |data|
  {
    if |data| < 2 + itemlen then []
    else
      var item := data[2..2 + itemlen];
      (if Word2(data[..2]) == Sum(item) then [item] else []) + Good(data[2 + itemlen..], itemlen)
  }

  // ----- Properties -----

  /** A length of whole slots of `n` bytes. */
  predicate WholeSlots(len: nat, n: nat)
    requires n > 0
  {
    len == 0 || (len >= n && WholeSlots(len - n, n))
  }

  /** The item of a slot, if its CRC is right. */
  function GoodItem(slot: seq<byte>): seq<seq<byte>>
    requires |slot| >= 2
  {
    if Word2(slot[..2]) == Sum(slot[2..]) then [slot[2..]] else []
  }

  lemma GoodStep(data: seq<byte>, itemlen: nat)
    ensures |data| < 2 + itemlen ==> Good(data, itemlen) == []
    ensures |data| >= 2 + itemlen ==>
              Good(data, itemlen) == GoodItem(data[..2 + itemlen]) + Good(data[2 + itemlen..], itemlen)
  {
    hide Word2, Sum;
    if |data| >= 2 + itemlen {
      assert data[..2 + itemlen][..2] == data[..2] && data[..2 + itemlen][2..] == data[2..2 + itemlen];
    }
  }

  lemma {:induction false} GoodSplits(a: seq<byte>, b: seq<byte>, itemlen: nat)
    requires WholeSlots(|a|, 2 + itemlen)
    ensures Good(a + b, itemlen) == Good(a, itemlen) + Good(b, itemlen)
    decreases |a|
  {
    GoodStep(a, itemlen);
    GoodStep(a + b, itemlen);
    hide Good, GoodItem;
    if a == [] {
      assert a + b == b;
    } else {
      var n := 2 + itemlen;
      assert (a + b)[..n] == a[..n] && (a + b)[n..] == a[n..] + b;
      GoodSplits(a[n..], b, itemlen);
    }
  }

  lemma GoodSlot(item: seq<byte>)
    ensures Good(Slot(item), |item|) == [item]
  {
    hide Word2, Bytes2, Sum;
    var s := Slot(item);
    assert s[..2] == Bytes2(Sum(item)) && s[2..2 + |item|] == item && s[2 + |item|..] == [];
    Word2OfBytes2(Sum(item));
    assert Good([], |item|) == [];
  }

  lemma {:induction false} SlotsLength(items: seq<seq<byte>>, itemlen: nat)
    requires AllOf(items, itemlen)
    ensures WholeSlots(|Slots(items)|, 2 + itemlen)
    ensures itemlen % 2 == 0 ==> |Slots(items)| % 2 == 0
  {
    hide Slot;
    if items != [] {
      SlotsLength(items[..|items| - 1], itemlen);
      assert |Slots(items)| == |Slots(items[..|items| - 1])| + (2 + itemlen);
    }
  }

  /** What has been written is read back, in order; the tail is not taken for an item. */
  lemma {:induction false} GoodOfSlots(items: seq<seq<byte>>, itemlen: nat, tail: seq<byte>)
    requires AllOf(items, itemlen) && itemlen > 0 && |tail| == 2
    ensures Good(Slots(items) + tail, itemlen) == items
  {
    hide Word2, Bytes2, Sum, Slot;
    assert Good(tail, itemlen) == [];
    if items == [] {
      assert Slots(items) + tail == tail;
    } else {
      var rest, last := items[..|items| - 1], items[|items| - 1];
      GoodOfSlots(rest, itemlen, tail);
      SlotsLength(rest, itemlen);
      GoodSlot(last);
      assert Slots(items) == Slots(rest) + Slot(last);
      hide Good, Slots, WholeSlots;
      OneSlot(2 + itemlen);
      GoodSplits(Slots(rest), tail, itemlen);
      GoodSplits(Slots(rest), Slot(last) + tail, itemlen);
      GoodSplits(Slot(last), tail, itemlen);
      assert Slots(items) + tail == Slots(rest) + (Slot(last) + tail);
      assert Good(Slots(rest), itemlen) == rest;
    }
  }

  lemma OneSlot(n: nat)
    requires n > 0
    ensures WholeSlots(n, n)
  {
  }

  /** A damaged slot - any bytes that are not a good slot - costs its own item, and no other. */
  lemma DamageIsLocal(before: seq<seq<byte>>, bad: seq<byte>, after: seq<seq<byte>>, itemlen: nat, tail: seq<byte>)
    requires AllOf(before, itemlen) && AllOf(after, itemlen) && itemlen > 0 && |tail| == 2
    requires |bad| == 2 + itemlen && Word2(bad[..2]) != Sum(bad[2..])
    ensures Good(Slots(before) + bad + Slots(after) + tail, itemlen) == before + after
  {
    hide *;
    var b, rest := Slots(before), Slots(after) + tail;
    SlotsLength(before, itemlen);
    OneSlot(2 + itemlen);
    BadSlot(bad, itemlen);
    NoSlot(tail, itemlen);
    GoodSplits(b, bad + rest, itemlen);
    GoodSplits(bad, rest, itemlen);
    GoodOfSlots(after, itemlen, tail);
    GoodOfSlots(before, itemlen, tail);
    GoodSplits(b, tail, itemlen);
    assert Good(bad + rest, itemlen) == after;
    assert Good(b, itemlen) == before;
    assert b + bad + Slots(after) + tail == b + (bad + rest);
  }

  lemma NoSlot(tail: seq<byte>, itemlen: nat)
    requires |tail| == 2 && itemlen > 0
    ensures Good(tail, itemlen) == []
  {
  }

  lemma BadSlot(bad: seq<byte>, itemlen: nat)
    requires |bad| == 2 + itemlen && Word2(bad[..2]) != Sum(bad[2..])
    ensures Good(bad, itemlen) == []
  {
    hide Word2, Sum;
    assert bad[2..2 + itemlen] == bad[2..] && bad[2 + itemlen..] == [];
    assert Good([], itemlen) == [];
  }

  /** What closing a written file leaves behind the head is accepted when it is opened. */
  lemma WrittenIsAccepted(items: seq<seq<byte>>, itemlen: nat)
    requires AllOf(items, itemlen) && itemlen % 2 == 0
    ensures Accepted(Slots(items) + Bytes2(Sum(Slots(items))))
  {
    hide Bytes2, Word2, Sum, Slots;
    var s := Slots(items);
    var b := s + Bytes2(Sum(s));
    SlotsLength(items, itemlen);
    assert b[|b| - 2..] == Bytes2(Sum(s)) && b[..|b| - 2] == s;
    Word2OfBytes2(Sum(s));
  }

  predicate HeadOk(h: Head, magic: uint32) {
    h.magic == magic && h.itemlen % 2 == 0 && h.headcrc == Sum(h.Covered())
  }

  function MakeHead(magic: uint32, itemlen: int, itemnum: int): Head
    requires 0 <= itemlen < 0x1_0000 && 0 <= itemnum < 0x1_0000
  {
    var h := Head(0, 0, magic, itemlen, itemnum);
    h.(headcrc := Sum(h.Covered()))
  }

  /** A written file, opened with the same magic number, has the head and the items it was given. */
  lemma WrittenOpens(magic: uint32, itemlen: int, itemnum: int, items: seq<seq<byte>>)
    requires 0 < itemlen < 0x1_0000 && itemlen % 2 == 0 && 0 < itemnum < 0x1_0000 && AllOf(items, itemlen)
    ensures var d := MakeHead(magic, itemlen, itemnum).Bytes() + Slots(items) + Bytes2(Sum(Slots(items)));
            var h := ParseHead(d[..12]);
            && HeadOk(h, magic) && h.itemlen == itemlen && h.itemnum == itemnum
            && Accepted(d[12..]) && Good(d[12..], itemlen) == items
  {
    hide *;
    MadeHeadIsOk(magic, itemlen, itemnum);
    var h := MakeHead(magic, itemlen, itemnum);
    var body := Slots(items) + Bytes2(Sum(Slots(items)));
    var d := h.Bytes() + Slots(items) + Bytes2(Sum(Slots(items)));
    assert d[..12] == h.Bytes() && d[12..] == body;
    ParseHeadOfBytes(h);
    WrittenIsAccepted(items, itemlen);
    GoodOfSlots(items, itemlen, Bytes2(Sum(Slots(items))));
  }

  lemma MadeHeadIsOk(magic: uint32, itemlen: int, itemnum: int)
    requires 0 <= itemlen < 0x1_0000 && itemlen % 2 == 0 && 0 <= itemnum < 0x1_0000
    ensures var h := MakeHead(magic, itemlen, itemnum);
            HeadOk(h, magic) && h.itemlen == itemlen && h.itemnum == itemnum
  {
    hide Sum, Bytes2, Bytes4;
  }

  lemma AllOfMore(items: seq<seq<byte>>, item: seq<byte>, itemlen: nat)
    requires AllOf(items, itemlen) && |item| == itemlen
    ensures AllOf(items + [item], itemlen)
  {
  }

  // ----- The program -----

  class Group {
    const file: File
    var itemlen: int
    var itemnum: int
    var crctemp: word
    var flag: char
    ghost var head: Head
    ghost var items: seq<seq<byte>>

    constructor (file: File, itemlen: int, itemnum: int)
      ensures this.file == file && this.itemlen == itemlen && this.itemnum == itemnum
    {
      this.file, this.itemlen, this.itemnum := file, itemlen, itemnum;
      crctemp, flag := 0, '?';
    }

    /** A file being written: the head and the items so far, and their CRC. */
    ghost predicate Writing()
      reads this, file
    {
      && flag == 'w' && itemlen > 0 && itemlen % 2 == 0 && AllOf(items, itemlen)
      && file.data == head.Bytes() + Slots(items) && file.pos == |file.data|
      && crctemp == Sum(Slots(items))
    }

    /** The check of the tail: the file is read in pieces of 32 bytes, into the two halves of a buffer
        by turns, since the last two bytes must not be summed up. */
    method TailCheck() returns (ok: bool)
      requires file.Valid()
      modifies file`pos
      ensures file.Valid() && (ok <==> Accepted(old(file.Rest())))
    {
      hide Word2, Sum, Accepted, SumFrom;
      ghost var body := file.Rest();
      var cache := new byte[64];
      var temp, crc: word := 0, 0;
      var readlen, offset := 0, 0;
      TheStart();
      while true
        invariant file.Valid() && fresh(cache) && cache.Length == 64
        invariant readlen <= |body| && readlen % 32 == 0 && file.Rest() == body[readlen..]
        invariant offset == 0 || offset == 32
        invariant temp == Sum(body[..readlen])
        invariant readlen > 0 ==> crc == Sum(body[..readlen - 32])
        invariant readlen > 0 ==> cache[32 - offset..64 - offset] == body[readlen - 32..readlen]
        decreases |body| - readlen
      {
        var got := file.Read(32);
        var rtn := |got|;
        Put(cache, offset, got);
        assert got == body[readlen..readlen + rtn];
        if rtn < 32 {
          ok := TailEnd(cache, offset, rtn, readlen, crc, temp, body);
          return;
        }
        crc := temp;
        temp := CalculateCRCStep(cache, offset, 32, temp);
        SumAppends(body[..readlen], body[readlen..readlen + 32]);
        assert body[..readlen + 32] == body[..readlen] + body[readlen..readlen + 32];
        offset := 32 - offset;
        readlen := readlen + 32;
      }
    }

    /** The end of the check, after a last piece of `rtn` bytes. */
    method TailEnd(cache: array<byte>, offset0: nat, rtn: nat, readlen: nat, crc0: word, temp0: word, ghost body: seq<byte>)
        returns (ok: bool)
      requires cache.Length == 64 && (offset0 == 0 || offset0 == 32) && rtn < 32
      requires readlen % 32 == 0 && |body| == readlen + rtn && cache[offset0..offset0 + rtn] == body[readlen..]
      requires temp0 == Sum(body[..readlen])
      requires readlen > 0 ==> crc0 == Sum(body[..readlen - 32])
      requires readlen > 0 ==> cache[32 - offset0..64 - offset0] == body[readlen - 32..readlen]
      ensures ok <==> Accepted(body)
    {
      hide Word2, Sum, Accepted, SumFrom;
      var temp, crc, offset := temp0, crc0, offset0;
      if rtn < 2 {
        if readlen == 0 {
          TooShort(body);
          return false;
        }
        temp := crc;
        offset := 32 - offset;
        temp := CalculateCRCStep(cache, offset, 30, temp);
        assert cache[offset..offset + 32][..30] == cache[offset..offset + 30];
        LastPieceWhole(body, readlen, cache[offset..offset + 32], temp);
        crc := Word2(cache[offset + 30..offset + 32]);
        assert cache[offset..offset + 32][30..] == cache[offset + 30..offset + 32];
      } else {
        temp := CalculateCRCStep(cache, offset, rtn - 2, temp);
        assert cache[offset..offset + rtn][..rtn - 2] == cache[offset..offset + rtn - 2];
        LastPieceShort(body, readlen, cache[offset..offset + rtn], temp);
        crc := Word2(cache[offset + rtn - 2..offset + rtn]);
        assert cache[offset..offset + rtn][rtn - 2..] == cache[offset + rtn - 2..offset + rtn];
      }
      return crc == temp;
    }

    /** What has been read goes into the buffer at `offset`. */
    method Put(cache: array<byte>, offset: nat, got: seq<byte>)
      requires offset + |got| <= cache.Length
      modifies cache
      ensures cache[offset..offset + |got|] == got
      ensures forall k :: 0 <= k < cache.Length && !(offset <= k < offset + |got|) ==> cache[k] == old(cache[k])
    {
      forall k | 0 <= k < |got| {
        cache[offset + k] := got[k];
      }
    }

    /** `OpenGrpBinFile` with flag 'r': 0 exactly if the head is a good one of this kind of file and
        the tail is in order; the file then stands at the first item. */
    method OpenForRead(magic: uint32) returns (rtn: int)
      requires file.Valid() && file.pos == 0
      modifies this, file`pos
      ensures file.Valid() && flag == 'r' && (rtn == 0 || rtn == 1)
      ensures var d := file.data;
              && (rtn == 0 <==> |d| >= 12 && HeadOk(ParseHead(d[..12]), magic) && Accepted(d[12..]))
              && (rtn == 0 ==> file.Rest() == d[12..] && itemlen == ParseHead(d[..12]).itemlen
                               && itemnum == ParseHead(d[..12]).itemnum)
    {
      hide Word2, Word4, Accepted, Sum;
      flag := 'r';
      var got := file.Read(12);
      if |got| < 12 {
        return 1;
      }
      assert got == file.data[..12] && file.Rest() == file.data[12..];
      var head := ParseHead(got);
      if head.magic != magic {
        return 1;
      }
      if head.itemlen % 2 == 1 {
        return 1;
      }
      if head.headcrc != Sum(head.Covered()) {
        return 1;
      }
      var ok := TailCheck();
      if !ok {
        return 1;
      }
      file.pos := 12;
      itemlen, itemnum := head.itemlen, head.itemnum;
      return 0;
    }

    /** `OpenGrpBinFile` with flag 'w', on the empty file it has made: 0 exactly if the item length is
        even and both numbers are positive 16-bit numbers. */
    method OpenForWrite(magic: uint32) returns (rtn: int)
      requires file.data == [] && file.pos == 0
      modifies this, file
      ensures itemlen == old(itemlen) && itemnum == old(itemnum) && flag == 'w'
      ensures rtn == if 0 < itemlen < 0x1_0000 && itemlen % 2 == 0 && 0 < itemnum < 0x1_0000 then 0 else 1
      ensures rtn == 0 ==> Writing() && items == [] && head == MakeHead(magic, itemlen, itemnum)
    {
      hide Head.Bytes, Sum;
      TheStart();
      flag := 'w';
      if itemlen <= 0 || itemlen > 0xFFFF || itemlen % 2 == 1 {
        return 1;
      }
      if itemnum <= 0 || itemnum > 0xFFFF {
        return 1;
      }
      crctemp := 0;
      head, items := MakeHead(magic, itemlen, itemnum), [];
      file.Write(MakeHead(magic, itemlen, itemnum).Bytes());
      assert head.Bytes() + Slots(items) == head.Bytes();
      return 0;
    }

    method WriteGrpBinFileItem(buffer: array<byte>) returns (rtn: int)
      requires Writing() && buffer.Length >= itemlen
      modifies `crctemp, `items, file
      ensures rtn == 0 && Writing() && items == old(items) + [buffer[..itemlen]]
    {
      hide AllOf, Slots, Sum, SumFrom, Head.Bytes, Bytes2;
      ghost var item, h, slots := buffer[..itemlen], head.Bytes(), Slots(items);
      OneMoreItem(items, item);
      AllOfMore(items, item, itemlen);
      var bytes, sum := SumItem(buffer);
      crctemp := sum;
      file.Write(bytes);
      file.Write(buffer[..itemlen]);
      items := items + [item];
      assert h + slots + bytes + item == h + (slots + bytes + item);
      return 0;
    }

    /** The item's CRC as bytes, and the running CRC over these and the item. */
    method SumItem(buffer: array<byte>) returns (bytes: seq<byte>, sum: word)
      requires 0 <= itemlen <= buffer.Length
      ensures var item := buffer[..itemlen];
              bytes == Bytes2(Sum(item)) && sum == SumFrom(SumFrom(crctemp, bytes), item)
    {
      hide Sum, SumFrom, Bytes2;
      var crc := CalculateCRC(buffer, itemlen);
      var pcrc := new byte[2];
      pcrc[0], pcrc[1] := Bytes2(crc)[0], Bytes2(crc)[1];
      bytes := pcrc[..];
      assert bytes == pcrc[0..2] == Bytes2(crc) && buffer[0..itemlen] == buffer[..itemlen];
      sum := CalculateCRCStep(pcrc, 0, 2, crctemp);
      sum := CalculateCRCStep(buffer, 0, itemlen, sum);
    }

    /** Closing a written file leaves what opening accepts, and from which the items can be read. */
    method CloseGrpBinFile()
      requires flag == 'w' ==> Writing()
      modifies file
      ensures flag == 'w' ==>
                var body := Slots(items) + Bytes2(Sum(Slots(items)));
                file.data == head.Bytes() + body && Accepted(body) && Good(body, itemlen) == items
      ensures flag != 'w' ==> file.data == old(file.data)
    {
      hide Sum, Head.Bytes, Accepted, Good, Bytes2;
      if flag == 'w' {
        WrittenIsAccepted(items, itemlen);
        GoodOfSlots(items, itemlen, Bytes2(crctemp));
        file.Write(Bytes2(crctemp));
        assert head.Bytes() + Slots(items) + Bytes2(crctemp) == head.Bytes() + (Slots(items) + Bytes2(crctemp));
      }
    }

    /** The next good item; slots with a wrong CRC are passed over. */
    method ReadGrpBinFileItem(buffer: array<byte>, len: int) returns (rtn: int)
      requires file.Valid() && itemlen >= 0 && len <= buffer.Length
      modifies file`pos, buffer
      ensures file.Valid()
      ensures itemlen > len ==> rtn == -1 && file.pos == old(file.pos)
      ensures itemlen == 0 ==> rtn == -1
      ensures 0 < itemlen <= len ==>
                var good := Good(old(file.Rest()), itemlen);
                if good == [] then rtn == -1
                else rtn == itemlen && buffer[..itemlen] == good[0] && Good(file.Rest(), itemlen) == good[1..]
    {
      hide Word2, Sum, Good;
      if itemlen > len {
        return -1;
      }
      while true
        invariant file.Valid() && Good(file.Rest(), itemlen) == Good(old(file.Rest()), itemlen)
        decreases |file.Rest()|
      {
        ghost var rest := file.Rest();
        GoodStep(rest, itemlen);
        var crc1 := file.Read(2);
        if |crc1| < 2 {
          return -1;
        }
        var got := file.Read(itemlen);
        if itemlen == 0 || |got| < itemlen {
          return -1;
        }
        Put(buffer, 0, got);
        ghost var slot := rest[..2 + itemlen];
        assert got == slot[2..] && file.Rest() == rest[2 + itemlen..] && crc1 == slot[..2];
        assert buffer[..itemlen] == got;
        var crc2 := CalculateCRC(buffer, itemlen);
        if Word2(crc1) == crc2 {
          return itemlen;
        }
      }
    }
  }

  /** The CRC of the slots, over the bytes as they are written. */
  lemma OneMoreItem(items: seq<seq<byte>>, item: seq<byte>)
    ensures Slots(items + [item]) == Slots(items) + Bytes2(Sum(item)) + item
    ensures Sum(Slots(items + [item])) == SumFrom(SumFrom(Sum(Slots(items)), Bytes2(Sum(item))), item)
  {
    hide Sum, SumFrom, Bytes2;
    assert (items + [item])[..|items|] == items;
    SumAppends(Slots(items), Bytes2(Sum(item)) + item);
    SumFromAppends(Sum(Slots(items)), Bytes2(Sum(item)), item);
    assert Slots(items) + (Bytes2(Sum(item)) + item) == Slots(items) + Bytes2(Sum(item)) + item;
  }

  lemma TheStart()
    ensures Sum([]) == 0 && Slots([]) == []
  {
  }

  lemma TooShort(body: seq<byte>)
    requires |body| < 2
    ensures !Accepted(body)
  {
    hide Word2, Sum;
  }

  /** The end of a body whose length is a multiple of 32, or one more. */
  lemma LastPieceWhole(body: seq<byte>, readlen: nat, last: seq<byte>, temp: word)
    requires 32 <= readlen <= |body| <= readlen + 1 && readlen % 32 == 0 && last == body[readlen - 32..readlen]
    requires temp == SumFrom(Sum(body[..readlen - 32]), last[..30])
    ensures Accepted(body) <==> Word2(last[30..]) == temp
  {
    hide Word2, Sum, SumFrom;
    var b := body[..readlen];
    assert (if |body| % 32 == 1 then body[..|body| - 1] else body) == b;
    SumAppends(body[..readlen - 32], last[..30]);
    assert body[..readlen - 32] + last[..30] == b[..|b| - 2];
    assert b[|b| - 2..] == last[30..];
  }

  /** The end of any other body. */
  lemma LastPieceShort(body: seq<byte>, readlen: nat, last: seq<byte>, temp: word)
    requires 2 <= |last| < 32 && readlen % 32 == 0 && readlen <= |body| && last == body[readlen..]
    requires temp == SumFrom(Sum(body[..readlen]), last[..|last| - 2])
    ensures Accepted(body) <==> Word2(last[|last| - 2..]) == temp
  {
    hide Word2, SumFrom, Sum;
    assert |body| % 32 == |last|;
    SumAppends(body[..readlen], last[..|last| - 2]);
    assert body[..readlen] + last[..|last| - 2] == body[..|body| - 2];
    assert body[|body| - 2..] == last[|last| - 2..];
  }
}
