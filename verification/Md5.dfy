/** MD5 (RFC 1321): the digest of a message, and the program's context that is fed piece by piece. */
module Md5 {
  import opened Bytes
  import opened Md5Transform

  const INIT := Registers(0x67452301, 0xefcdab89, 0x98badcfe, 0x10325476)

  // ----- The digest -----

  /** Words as bytes, the low-order byte of each first. */
  function LittleEndians(ws: seq<uint32>): (s: seq<byte>)
    ensures |s| == 4 * |ws|
  {
    if ws == [] then [] else LittleEndians(ws[..|ws| - 1]) + Bytes4(ws[|ws| - 1])
  }

  /** The sixteen words of a block. */
  function Words(block: seq<byte>): (x: seq<uint32>)
    requires |block| == 64
    ensures |x| == 16
  {
    seq(16, i requires 0 <= i < 16 => Word4(block[4 * i..4 * i + 4]))
  }

  /** The registers after one more block: four rounds, then the sums (section 3.4). */
  function Compress(q: Registers, block: seq<byte>): Registers
    requires |block| == 64
  {
    Sums(q, Rounds(4, q, Words(block)))
  }

  function Sums(q: Registers, r: Registers): Registers {
    Registers((q.a + r.a) % WORD, (q.b + r.b) % WORD, (q.c + r.c) % WORD, (q.d + r.d) % WORD)
  }

  predicate OnBlocks(n: nat) {
    n % 64 == 0
  }

  /** The registers after a string of whole blocks. */
  function Blocks(s: seq<byte>): Registers
    requires OnBlocks(|s|)
  {
    if s == [] then INIT else Compress(Blocks(s[..|s| - 64]), s[|s| - 64..])
  }

  /** One bit 1, then the fewest zero bits that leave room for the length (section 3.1). */
  function Padding(n: nat): (s: seq<byte>)
    ensures 1 <= |s| <= 64 && (n + |s|) % 64 == 56
  {
    [0x80] + Zeros((119 - n % 64) % 64)
  }

  /** The message length in bits, modulo 2^64, low-order word first (section 3.2). */
  function Length(n: nat): (s: seq<byte>)
    ensures |s| == 8
  {
    LittleEndians([8 * n % WORD, 8 * n / WORD % WORD])
  }

  function Padded(m: seq<byte>): (s: seq<byte>)
    ensures |s| % 64 == 0
  {
    m + Padding(|m|) + Length(|m|)
  }

  /** The message digest (section 3.5). */
  function Digest(m: seq<byte>): (s: seq<byte>)
    ensures |s| == 16
  {
    var r := Blocks(Padded(m));
    LittleEndians([r.a, r.b, r.c, r.d])
  }

  // ----- Arithmetic of the bit counter -----

  /** The counter as two words. */
  predicate Counts(c0: uint32, c1: uint32, n: nat) {
    c0 == 8 * n % WORD && c1 == 8 * n / WORD % WORD
  }

  /** The bytes in the unfinished block, from the counter's low word. */
  lemma CountIndex(c0: uint32, c1: uint32, n: nat)
    requires Counts(c0, c1, n)
    ensures c0 / 8 % 64 == n % 64
  {
    var k, r := n / 0x2000_0000, n % 0x2000_0000;
    assert 8 * n == WORD * k + 8 * r;
    assert c0 == 8 * r;
    SameMod64(n, k, r);
  }

  lemma SameMod64(n: nat, k: nat, r: nat)
    requires n == 0x2000_0000 * k + r
    ensures n % 64 == r % 64
  {
    assert n - r == 64 * (0x80_0000 * k);
  }

  /** Adding `len` bytes, the carry noticed by comparing. */
  lemma CountAdds(c0: uint32, c1: uint32, n: nat, len: uint32)
    requires Counts(c0, c1, n)
    ensures var low := 8 * len % WORD;
            var d0 := (c0 + low) % WORD;
            var carry := if d0 < low then 1 else 0;
            Counts(d0, ((c1 + carry) % WORD + len / 0x2000_0000) % WORD, n + len)
  {
    var low, high := 8 * len % WORD, len / 0x2000_0000;
    var d0 := (c0 + low) % WORD;
    var carry := if d0 < low then 1 else 0;
    var k := 8 * n / WORD;
    assert 8 * (n + len) == WORD * (k + high + carry) + d0 by {
      assert 8 * len == WORD * high + low;
      assert c0 + low == WORD * carry + d0;
      assert 8 * n == WORD * k + c0;
    }
    SplitWords(8 * (n + len), k + high + carry, d0);
    ModSum(k, high, carry);
  }

  lemma SplitWords(t: nat, high: nat, low: nat)
    requires t == WORD * high + low && low < WORD
    ensures t / WORD == high && t % WORD == low
  {
  }

  lemma ModSum(k: nat, high: nat, carry: nat)
    ensures ((k % WORD + carry) % WORD + high) % WORD == (k + high + carry) % WORD
  {
  }

  // ----- The message so far -----

  function Whole(n: nat): (r: nat)
    ensures r <= n && r % 64 == 0 && n - r == n % 64 && n - r < 64
  {
    n - n % 64
  }

  lemma WholeIs(n: nat, w: nat)
    requires OnBlocks(w) && w <= n < w + 64
    ensures Whole(n) == w
  {
  }

  /** The registers after the whole blocks of a message. */
  function Absorbed(m: seq<byte>): Registers {
    Blocks(m[..Whole(|m|)])
  }

  lemma PieceOf(m: seq<byte>, s: seq<byte>, i: nat, j: nat)
    requires i <= j <= |s|
    ensures (m + s)[|m| + i..|m| + j] == s[i..j]
  {
  }

  /** The unfinished block, filled up. */
  lemma FilledUp(m: seq<byte>, s: seq<byte>, len: nat)
    requires len <= |s| && |m| % 64 + len == 64
    ensures var w := Whole(|m|);
            (m + s)[..w] == m[..w] && w + 64 == |m| + len && (m + s)[w..w + 64] == m[w..] + s[0..len]
  {
  }

  /** One more whole block. */
  lemma OneMoreBlock(t: seq<byte>, w: nat)
    requires OnBlocks(w) && w + 64 <= |t|
    ensures OnBlocks(w + 64) && Blocks(t[..w + 64]) == Compress(Blocks(t[..w]), t[w..w + 64])
  {
    hide Compress, Words;
    var s := t[..w + 64];
    assert s[..|s| - 64] == t[..w] && s[|s| - 64..] == t[w..w + 64];
  }

  /** The static padding string begins with every padding. */
  lemma PaddingIs(padding: seq<byte>, n: nat, padLen: nat)
    requires |padding| == 64 && forall k :: 0 <= k < 64 ==> padding[k] == if k == 0 then 0x80 else 0
    requires padLen == if n % 64 < 56 then 56 - n % 64 else 120 - n % 64
    ensures padding[..padLen] == Padding(n)
  {
  }

  // ----- Bytes and words in arrays -----

  /** `Encode`: words to bytes. */
  method Encode(output: array<byte>, input: array<uint32>, len: nat)
    requires len % 4 == 0 && len <= output.Length && len <= 4 * input.Length
    modifies output
    ensures output[..len] == LittleEndians(input[..len / 4]) && output[len..] == old(output[len..])
  {
    ghost var was := output[..];
    var i, j := 0, 0;
    while j < len
      invariant j == 4 * i <= len && output[..j] == LittleEndians(input[..i])
      invariant output[len..] == was[len..]
    {
      var w: nat := input[i];
      output[j] := w % 256;
      output[j + 1] := w / 256 % 256;
      output[j + 2] := w / 65536 % 256;
      output[j + 3] := w / 16777216 % 256;
      assert input[..i + 1][..i] == input[..i];
      assert output[..j + 4] == output[..j] + Bytes4(w);
      i, j := i + 1, j + 4;
    }
    assert len / 4 == i;
  }

  /** `Decode`: bytes to words. */
  method Decode(output: array<uint32>, block: seq<byte>)
    requires |block| == 64 && output.Length == 16
    modifies output
    ensures output[..] == Words(block)
  {
    var i, j := 0, 0;
    while j < 64
      invariant j == 4 * i <= 64
      invariant forall k :: 0 <= k < i ==> output[k] == Word4(block[4 * k..4 * k + 4])
    {
      var b0: nat, b1: nat, b2: nat, b3: nat := block[j], block[j + 1], block[j + 2], block[j + 3];
      output[i] := b0 + b1 * 256 + b2 * 65536 + b3 * 16777216;
      i, j := i + 1, j + 4;
    }
  }

  // ----- The context -----

  class Context {
    const state: array<uint32>
    const count: array<uint32>
    const buffer: array<byte>
    ghost var message: seq<byte>

    ghost predicate Shape()
      reads this
    {
      state.Length == 4 && count.Length == 2 && buffer.Length == 64 && state != count
    }

    /** The registers. */
    function Regs(): Registers
      requires state.Length == 4
      reads state
    {
      Registers(state[0], state[1], state[2], state[3])
    }

    /** The context stands for the message: its whole blocks absorbed, the rest in the buffer, its
        length in the counter. */
    ghost predicate Valid()
      reads this, state, count, buffer
    {
      && Shape()
      && Regs() == Absorbed(message) && Counts(count[0], count[1], |message|)
      && buffer[..|message| % 64] == message[Whole(|message|)..]
    }

    constructor ()
      ensures Shape() && fresh(state) && fresh(count) && fresh(buffer)
    {
      state := new uint32[4];
      count := new uint32[2];
      buffer := new byte[64];
    }

    method MD5Init()
      requires Shape()
      modifies `message, state, count
      ensures Valid() && message == []
    {
      message := [];
      count[0], count[1] := 0, 0;
      state[0] := 0x67452301;
      state[1] := 0xefcdab89;
      state[2] := 0x98badcfe;
      state[3] := 0x10325476;
    }

    /** `MD5Transform` on the context's state. */
    method MD5Transform(block: seq<byte>)
      requires Shape() && |block| == 64
      modifies state
      ensures Regs() == Compress(old(Regs()), block)
    {
      hide Rounds, Words;
      var x := new uint32[16];
      Decode(x, block);
      var r := AllRounds(Regs(), x[..]);
      state[0] := (state[0] + r.a) % WORD;
      state[1] := (state[1] + r.b) % WORD;
      state[2] := (state[2] + r.c) % WORD;
      state[3] := (state[3] + r.d) % WORD;
    }

    /** `MD5_memcpy` into the buffer. */
    method Copy(index: nat, input: array<byte>, i: nat, len: nat)
      requires buffer.Length == 64 && index + len <= 64 && i + len <= input.Length && input != buffer
      modifies buffer
      ensures buffer[..index + len] == old(buffer[..index]) + input[i..i + len]
    {
      ghost var was := buffer[..];
      var k := 0;
      while k < len
        invariant k <= len && buffer[..index + k] == was[..index] + input[i..i + k]
      {
        buffer[index + k] := input[i + k];
        k := k + 1;
      }
    }

    /** The bit counter, and the index of the unfinished block before. */
    method Count(inputLen: nat) returns (index: nat)
      requires Shape() && inputLen < WORD && Counts(count[0], count[1], |message|)
      modifies count
      ensures index == |message| % 64 && Counts(count[0], count[1], |message| + inputLen)
    {
      hide Counts;
      CountIndex(count[0], count[1], |message|);
      CountAdds(count[0], count[1], |message|, inputLen);
      index := count[0] / 8 % 64;
      var low: uint32 := 8 * inputLen % WORD;
      count[0] := (count[0] + low) % WORD;
      if count[0] < low {
        count[1] := (count[1] + 1) % WORD;
      }
      count[1] := (count[1] + inputLen / 0x2000_0000) % WORD;
    }

    /** The unfinished block is filled up and absorbed. */
    method FillUp(input: array<byte>, inputLen: nat, index: nat, ghost t: seq<byte>) returns (partLen: nat)
      requires Shape() && inputLen <= input.Length && input != buffer && t == message + input[..inputLen]
      requires index == |message| % 64 && 64 - index <= inputLen
      requires Regs() == Absorbed(message) && buffer[..index] == message[Whole(|message|)..]
      modifies state, buffer
      ensures partLen == 64 - index && OnBlocks(|message| + partLen) && Regs() == Blocks(t[..|message| + partLen])
    {
      hide Compress, Blocks, Whole;
      ghost var w := Whole(|message|);
      partLen := 64 - index;
      FilledUp(message, input[..inputLen], partLen);
      assert input[0..partLen] == input[..inputLen][0..partLen];
      Copy(index, input, 0, partLen);
      assert buffer[..] == buffer[..64] == t[w..w + 64];
      OneMoreBlock(t, w);
      MD5Transform(buffer[..]);
    }

    /** The whole blocks that the input completes. */
    method Absorb(input: array<byte>, inputLen: nat, index: nat, ghost t: seq<byte>) returns (i: nat)
      requires Shape() && inputLen <= input.Length && input != buffer && t == message + input[..inputLen]
      requires index == |message| % 64 && 64 - index <= inputLen && inputLen + 63 < WORD
      requires Regs() == Absorbed(message) && buffer[..index] == message[Whole(|message|)..]
      modifies state, buffer
      ensures i <= inputLen && |message| + i == Whole(|t|) && Regs() == Absorbed(t)
    {
      hide Compress, Blocks, Whole, OnBlocks;
      ghost var n := |message|;
      var partLen := FillUp(input, inputLen, index, t);
      i := partLen;
      while i + 63 < inputLen
        invariant partLen <= i <= inputLen && OnBlocks(n + i) && Regs() == Blocks(t[..n + i])
      {
        PieceOf(message, input[..inputLen], i, i + 64);
        assert input[i..i + 64] == input[..inputLen][i..i + 64];
        OneMoreBlock(t, n + i);
        MD5Transform(input[i..i + 64]);
        i := i + 64;
      }
      WholeIs(|t|, n + i);
    }

    /** Feed the first `inputLen` bytes of `input`; `i + 63` must not run over 32 bits. */
    method MD5Update(input: array<byte>, inputLen: nat)
      requires Valid() && inputLen <= input.Length && inputLen + 63 < WORD && input != buffer
      modifies `message, state, count, buffer
      ensures Valid() && message == old(message) + input[..inputLen]
    {
      hide Counts, Blocks;
      ghost var t := message + input[..inputLen];
      var index := Count(inputLen);
      var partLen := 64 - index;
      var i;
      if inputLen >= partLen {
        i := Absorb(input, inputLen, index, t);
        index := 0;
        assert t[|message| + i..] == input[i..inputLen];
      } else {
        i := 0;
        assert Whole(|t|) == Whole(|message|);
        assert t[..Whole(|t|)] == message[..Whole(|t|)];
        assert t[Whole(|t|)..] == message[Whole(|t|)..] + input[0..inputLen];
      }
      hide Absorbed;
      Copy(index, input, i, inputLen - i);
      message := t;
    }

    /** The digest of everything fed since `MD5Init`; the context is wiped. */
    method MD5Final(digest: array<byte>)
      requires Valid() && digest.Length >= 16 && digest != buffer
      modifies `message, state, count, buffer, digest
      ensures digest[..16] == Digest(old(message))
      ensures digest[16..] == old(digest[16..])
      ensures state[..] == [0, 0, 0, 0] && count[..] == [0, 0] && buffer[..] == Zeros(64)
    {
      hide Blocks;
      ghost var m := message;
      var bits := new byte[8];
      Encode(bits, count, 8);
      assert count[..2] == [8 * |m| % WORD, 8 * |m| / WORD % WORD] && bits[..8] == Length(|m|);
      CountIndex(count[0], count[1], |m|);
      var index := count[0] / 8 % 64;
      var padLen := if index < 56 then 56 - index else 120 - index;
      var padding := new byte[64](k => if k == 0 then 0x80 else 0);
      PaddingIs(padding[..], |m|, padLen);
      assert padding[..][..padLen] == padding[..padLen];
      MD5Update(padding, padLen);
      MD5Update(bits, 8);
      assert message == Padded(m);
      assert message[..Whole(|message|)] == message;
      Encode(digest, state, 16);
      assert state[..4] == [Regs().a, Regs().b, Regs().c, Regs().d];
      Wipe();
    }

    /** `MD5_memset` of the whole context. */
    method Wipe()
      requires Shape()
      modifies state, count, buffer
      ensures state[..] == [0, 0, 0, 0] && count[..] == [0, 0] && buffer[..] == Zeros(64)
    {
      state[0], state[1], state[2], state[3] := 0, 0, 0, 0;
      count[0], count[1] := 0, 0;
      var i := 0;
      while i < 64
        invariant i <= 64 && buffer[..i] == Zeros(i)
        invariant state[..] == [0, 0, 0, 0] && count[..] == [0, 0]
      {
        buffer[i] := 0;
        i := i + 1;
      }
    }
  }
}
