/** Binary files: a head with two checksums, and data that are checked in pieces of 64K. */
module BinFile {
  import opened Bytes
  import opened Crc16
  import opened StoredFile

  const MAX_FILELEN: nat := 0x40_0000
  const MAX_MEMLEN: nat := 0x1_0000

  datatype Head = Head(headcrc: word, datacrc: word, magic: uint32, len: uint32) {
    /** The part the head's checksum covers. */
    function Covered(): (s: seq<byte>)
      ensures |s| == 10
    {
      Bytes2(datacrc) + Bytes4(magic) + Bytes4(len)
    }

    function Bytes(): (s: seq<byte>)
      ensures |s| == 12
    {
      Bytes2(headcrc) + Covered()
    }
  }

  function ParseHead(s: seq<byte>): Head
    requires |s| == 12
  {
    Head(Word2(s[0..2]), Word2(s[2..4]), Word4(s[4..8]), Word4(s[8..12]))
  }

  lemma ParseHeadOfBytes(h: Head)
    ensures ParseHead(h.Bytes()) == h
  {
    hide Bytes2, Bytes4, Word2, Word4;
    var s := h.Bytes();
    assert s[0..2] == Bytes2(h.headcrc);
    assert s[2..4] == Bytes2(h.datacrc);
    assert s[4..8] == Bytes4(h.magic);
    assert s[8..12] == Bytes4(h.len);
    Word2OfBytes2(h.headcrc);
    Word2OfBytes2(h.datacrc);
    Word4OfBytes4(h.magic);
    Word4OfBytes4(h.len);
  }

  predicate HeadOk(h: Head, magic: uint32) {
    h.magic == magic && 0 < h.len <= MAX_FILELEN && h.headcrc == Sum(h.Covered())
  }

  /** What the data in a file are, if the file is in order. */
  predicate FileOk(d: seq<byte>, magic: uint32) {
    && |d| >= 12
    && var h := ParseHead(d[..12]);
       HeadOk(h, magic) && |d| >= 12 + h.len && Sum(d[12..12 + h.len]) == h.datacrc
  }

  function DataOf(d: seq<byte>): seq<byte>
    requires |d| >= 12 && |d| >= 12 + ParseHead(d[..12]).len
  {
    d[12..12 + ParseHead(d[..12]).len]
  }

  function MakeHead(magic: uint32, data: seq<byte>): Head
    requires |data| <= MAX_FILELEN
  {
    var h := Head(0, Sum(data), magic, |data|);
    h.(headcrc := Sum(h.Covered()))
  }

  lemma MadeHeadIsOk(magic: uint32, data: seq<byte>)
    requires 0 < |data| <= MAX_FILELEN
    ensures HeadOk(MakeHead(magic, data), magic)
  {
    hide Sum, Bytes2, Bytes4;
  }

  /** What has been saved is in order, and is what was saved. */
  lemma SavedIsOk(magic: uint32, data: seq<byte>)
    requires 0 < |data| <= MAX_FILELEN
    ensures var d := MakeHead(magic, data).Bytes() + data;
            FileOk(d, magic) && DataOf(d) == data
  {
    hide Sum, Head.Bytes, Head.Covered, HeadOk, ParseHead;
    var h := MakeHead(magic, data);
    var d := h.Bytes() + data;
    MadeHeadIsOk(magic, data);
    ParseHeadOfBytes(h);
    assert d[..12] == h.Bytes() && d[12..12 + |data|] == data;
  }

  /** `SaveBinFile` into an empty file: 0 and the file written, or 1 for a length out of range. */
  method SaveBinFile(file: File, magic: uint32, buffer: array<byte>, len: int) returns (rtn: int)
    requires file.data == [] && file.pos == 0 && len <= buffer.Length
    modifies file
    ensures rtn == if 0 < len <= MAX_FILELEN then 0 else 1
    ensures rtn == 0 ==> FileOk(file.data, magic) && DataOf(file.data) == buffer[..len]
    ensures rtn == 1 ==> file.data == []
  {
    if len <= 0 || len > MAX_FILELEN {
      return 1;
    }
    hide Sum, Head.Bytes, Head.Covered, FileOk, DataOf;
    SavedIsOk(magic, buffer[..len]);
    var datacrc := CalculateCRC(buffer, len);
    var head := Head(0, datacrc, magic, len);
    head := head.(headcrc := Sum(head.Covered()));
    assert head == MakeHead(magic, buffer[..len]);
    file.Write(head.Bytes());
    file.Write(buffer[..len]);
    assert file.data == head.Bytes() + buffer[..len];
    return 0;
  }

  /** The chunk loop: `total` bytes from the file, through a cache of `cache.Length`, which is the
      total or 64K, whichever is less. */
  method SumInPieces(file: File, cache: array<byte>, total: nat) returns (ok: bool, crc: word)
    requires file.Valid() && 0 < total && cache.Length == Least(total, MAX_MEMLEN)
    modifies file`pos, cache
    ensures file.Valid() && (ok <==> total <= |old(file.Rest())|)
    ensures ok ==> crc == Sum(old(file.Rest())[..total]) && file.Rest() == old(file.Rest())[total..]
    ensures ok && total <= MAX_MEMLEN ==> cache[..] == old(file.Rest())[..total]
  {
    hide Sum, SumFrom;
    ghost var rest := file.Rest();
    crc := 0;
    var filelen := total;
    var memlen := cache.Length;
    SumOfNothing();
    assert rest[..0] == [];
    while filelen > 0
      invariant 0 <= filelen <= total && total - filelen <= |rest|
      invariant file.Valid() && file.Rest() == rest[total - filelen..]
      invariant filelen > 0 ==> memlen == Least(filelen, cache.Length)
      invariant crc == Sum(rest[..total - filelen])
      invariant filelen == 0 && total <= MAX_MEMLEN ==> cache[..] == rest[..total]
      invariant 0 < filelen < total ==> total > MAX_MEMLEN
    {
      ghost var done := total - filelen;
      var got;
      got, crc := SumPiece(file, cache, memlen, crc, rest, done);
      if !got {
        return false, crc;
      }
      filelen := filelen - memlen;
      if filelen > 0 && filelen < memlen {
        memlen := filelen;
      }
    }
    ok := true;
  }

  /** One piece more, read into the cache and summed up. */
  method SumPiece(file: File, cache: array<byte>, memlen: nat, crc0: word, ghost rest: seq<byte>, ghost done: nat)
    returns (ok: bool, crc: word)
    requires file.Valid() && done <= |rest| && file.Rest() == rest[done..]
    requires 0 < memlen <= cache.Length && crc0 == Sum(rest[..done])
    modifies file`pos, cache
    ensures file.Valid() && (ok <==> done + memlen <= |rest|)
    ensures ok ==> file.Rest() == rest[done + memlen..] && crc == Sum(rest[..done + memlen])
                   && cache[..memlen] == rest[done..done + memlen]
  {
    hide Sum, SumFrom;
    crc := crc0;
    var got := file.Read(memlen);
    if |got| < memlen {
      return false, crc;
    }
    Fill(cache, got);
    PieceOfRest(rest, done, memlen);
    assert cache[0..memlen] == cache[..memlen] == got;
    crc := CalculateCRCStep(cache, 0, memlen, crc);
    SumAppends(rest[..done], rest[done..done + memlen]);
    assert rest[..done + memlen] == rest[..done] + rest[done..done + memlen];
    ok := true;
  }

  lemma PieceOfRest(rest: seq<byte>, done: nat, n: nat)
    requires done + n <= |rest|
    ensures rest[done..][..n] == rest[done..done + n] && rest[done..][n..] == rest[done + n..]
  {
  }

  lemma SumOfNothing()
    ensures Sum([]) == 0
  {
  }

  /** What has been read goes to the front of the cache. */
  method Fill(cache: array<byte>, got: seq<byte>)
    requires |got| <= cache.Length
    modifies cache
    ensures cache[..|got|] == got && cache[|got|..] == old(cache[|got|..])
  {
    forall k | 0 <= k < |got| {
      cache[k] := got[k];
    }
  }

  /** `ReadBinFile`: the data, as many as fit, exactly if the whole file is in order; otherwise -1, and
      the buffer is left alone. */
  method ReadBinFile(file: File, magic: uint32, buffer: array<byte>, len: int) returns (rtn: int)
    requires file.Valid() && file.pos == 0 && len <= buffer.Length
    modifies file`pos, buffer
    ensures rtn != -1 <==> 0 < len <= MAX_FILELEN && FileOk(file.data, magic)
    ensures rtn != -1 ==> rtn == Least(len, |DataOf(file.data)|) && buffer[..rtn] == DataOf(file.data)[..rtn]
    ensures rtn == -1 ==> buffer[..] == old(buffer[..])
  {
    hide Sum, Head.Covered, Word2, Word4;
    if len <= 0 || len > MAX_FILELEN {
      return -1;
    }
    var got := file.Read(12);
    if |got| < 12 {
      return -1;
    }
    assert got == file.data[..12] && file.Rest() == file.data[12..];
    var head := ParseHead(got);
    if head.magic != magic {
      return -1;
    }
    if head.len <= 0 || head.len > MAX_FILELEN {
      return -1;
    }
    if head.headcrc != Sum(head.Covered()) {
      return -1;
    }
    var memcache := new byte[if head.len > MAX_MEMLEN then MAX_MEMLEN else head.len];
    var ok, crc := SumInPieces(file, memcache, head.len);
    if !ok {
      return -1;
    }
    assert file.data[12..][..head.len] == file.data[12..12 + head.len];
    if head.datacrc != crc {
      return -1;
    }
    rtn := if len > head.len then head.len else len;
    if head.len > MAX_MEMLEN {
      file.pos := 12;
      var again := file.Read(rtn);
      Fill(buffer, again);
    } else {
      Fill(buffer, memcache[..rtn]);
    }
  }
}
