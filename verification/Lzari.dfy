/** The compressor and the decompressor: sliding window, match finder and arithmetic coder together. */
module Lzari {
  import opened Bytes
  import opened BitIo
  import opened IntervalCoder
  import opened AdaptiveModel
  import opened TokenCoder
  import opened SearchTree
  import opened MatchFinder
  import opened SlidingWindow
  import AC = ArithmeticCoder

  const EOF := -1

  // ----- The file format -----

  /** Each token obeys the greedy rule where it stands, and together they spell the text from `h` to `end`. */
  predicate GreedyParse(text: seq<byte>, h: nat, ts: seq<Token>, end: nat)
    decreases |ts|
  {
    if ts == [] then h == end
    else h < |text| && Greedy(text, h, ts[0]) && GreedyParse(text, h + TokenLength(ts[0]), ts[1..], end)
  }

  /** The tokens coded for an input. Even the empty input codes one literal. */
  predicate TokensFor(input: seq<byte>, ts: seq<Token>) {
    ValidTokens(ts) && if input == [] then |ts| == 1 else GreedyParse(Preset() + input, N, ts, N + |input|)
  }

  /** A file made of the length header and the code of `ts`. */
  ghost predicate FileOf(file: seq<byte>, length: uint32, ts: seq<Token>)
    requires ValidTokens(ts)
  {
    |file| >= 4 && file[..4] == Bytes4(length) && Unpack(file[..4]) + EncodedBits(ts) <= Unpack(file)
  }

  /** What the decompressor makes of any file at all. */
  ghost function DecodeFile(file: seq<byte>): (output: seq<byte>)
    requires |file| >= 4
    ensures |output| >= Word4(file[..4])
  {
    var s := AC.StreamOf(file);
    DecodeText(DecInit(s, 32), s, Preset(), N + Word4(file[..4]))[N..]
  }

  // ----- Round trip on values -----

  /** A greedy parse spells exactly the text, and only its last token completes it. */
  lemma {:induction false} ParseSpells(text: seq<byte>, h: nat, ts: seq<Token>)
    requires N <= h <= |text| && GreedyParse(text, h, ts, |text|)
    ensures ValidTokens(ts) && ApplyAll(text[..h], ts) == text && JustReaches(text[..h], ts, |text|)
    decreases |ts|
  {
    if ts == [] {
      assert text[..h] == text;
    } else {
      GreedyApplies(text, h, ts[0]);
      ParseSpells(text, h + TokenLength(ts[0]), ts[1..]);
      assert forall i :: 1 <= i < |ts| ==> ts[i] == ts[1..][i - 1];
    }
  }

  lemma {:induction false} ParseSnoc(text: seq<byte>, h: nat, ts: seq<Token>, end: nat, t: Token)
    requires GreedyParse(text, h, ts, end) && end < |text| && Greedy(text, end, t)
    ensures GreedyParse(text, h, ts + [t], end + TokenLength(t))
    decreases |ts|
  {
    if ts == [] {
      assert (ts + [t])[1..] == [];
    } else {
      assert (ts + [t])[1..] == ts[1..] + [t];
      ParseSnoc(text, h + TokenLength(ts[0]), ts[1..], end, t);
    }
  }

  lemma FileCarries(file: seq<byte>, length: uint32, ts: seq<Token>)
    requires ValidTokens(ts) && FileOf(file, length, ts)
    ensures Carries(AC.StreamOf(file), 32, EncodedBits(ts))
  {
    hide EncodedBits, Unpack, StreamBit;
    var bits := EncodedBits(ts);
    forall i | 0 <= i < |bits|
      ensures AC.StreamOf(file)(32 + i) == bits[i]
    {
      assert bits[i] == (Unpack(file[..4]) + bits)[32 + i] == Unpack(file)[32 + i];
      UnpackIsStream(file, 32 + i);
    }
  }

  lemma FileHeader(file: seq<byte>, length: uint32, ts: seq<Token>)
    requires ValidTokens(ts) && FileOf(file, length, ts)
    ensures |file| >= 4 && file[..4] == Bytes4(length)
  {
  }

  /** Every file the compressor may write for an input decodes to that input. */
  lemma RoundTrip(input: seq<byte>, file: seq<byte>, ts: seq<Token>)
    requires |input| < 0x1_0000_0000 && TokensFor(input, ts) && FileOf(file, |input|, ts)
    ensures DecodeFile(file) == input
  {
    hide Word4, Bytes4, EncodedBits, FileOf;
    assert file[..4] == Bytes4(|input|) by {
      FileHeader(file, |input|, ts);
    }
    Word4OfBytes4(|input|);
    var s := AC.StreamOf(file);
    if input != [] {
      var text := Preset() + input;
      assert text[..N] == Preset();
      ParseSpells(text, N, ts);
      FileCarries(file, |input|, ts);
      DecodesAll(s, 32, ts, Preset(), N + |input|);
    }
  }

  // ----- The compressor -----

  class Compressor {
    const dict: Dictionary
    const coder: AC.Encoder
    const rbuff: seq<byte>
    var CurrentInputPtr: nat

    /** The state `InitCompress` establishes; the output begins after the length header. */
    constructor (input: seq<byte>)
      requires |input| < 0x1_0000_0000
      ensures rbuff == input && CurrentInputPtr == 0 && Separate()
      ensures coder.Ready() && coder.base == Unpack(Bytes4(|input|)) && coder.Coder() == EncInit.coder
      ensures coder.tables.sym_to_char[0] == 0
      ensures fresh(dict) && fresh(coder) && fresh(DictParts()) && fresh(CoderParts())
      ensures coder.writer.dbuff == Bytes4(|input|)
    {
      dict := new Dictionary();
      coder := new AC.Encoder(Bytes4(|input|));
      rbuff := input;
      CurrentInputPtr := 0;
    }

    ghost function DictParts(): set<object> {
      {dict, dict.lson, dict.rson, dict.dad} + {dict.text_buf}
    }

    ghost function CoderParts(): set<object> {
      {coder, coder.writer} + coder.tables.Cells()
    }

    /** The match finder and the coder share no memory. */
    ghost predicate Separate() {
      dict.Shape() && coder.tables.Shape() && DictParts() !! CoderParts() && this !in DictParts() + CoderParts()
    }

    method getmemc() returns (c: int)
      modifies this`CurrentInputPtr
      ensures CurrentInputPtr == old(CurrentInputPtr) + 1
      ensures c == if old(CurrentInputPtr) < |rbuff| then rbuff[old(CurrentInputPtr)] as int else EOF
    {
      c := if CurrentInputPtr < |rbuff| then rbuff[CurrentInputPtr] as int else EOF;
      CurrentInputPtr := CurrentInputPtr + 1;
    }

    /** The dictionary is ready for position `h`: the buffer shows `text` up to `end`, and the trees
        hold windows of recent positions only, among them one for every position of the real text in reach. */
    ghost predicate Window(text: seq<byte>, h: nat, end: nat)
      reads DictParts()
    {
      && dict.Valid() && Buffered(dict.text_buf[..], text, h, end)
      && Near(dict.Nodes(), Ring(h)) && Covered(dict.Nodes(), dict.text_buf[..], h)
    }

    /** Insert the window at `h` and report the longest match for it. */
    method Enter(r: nat, ghost text: seq<byte>, ghost h: nat, ghost end: nat)
      requires dict.Valid() && r == Ring(h) && Ahead(dict.Nodes(), dict.text_buf[..], h)
      modifies dict, dict.lson, dict.rson, dict.dad
      ensures dict.Valid() && Near(dict.Nodes(), Ring(h)) && Covered(dict.Nodes(), dict.text_buf[..], h)
      ensures h <= end && Buffered(dict.text_buf[..], text, h, end) ==>
                Found(text, h, end, dict.match_length, dict.match_position)
    {
      ghost var nodes, buf := dict.Nodes(), dict.text_buf[..];
      dict.InsertNode(r);
      EnterCovers(nodes, dict.Nodes(), buf, h);
      if h <= end && Buffered(buf, text, h, end) {
        SearchFinds(nodes, buf, text, h, end, dict.match_length, dict.match_position);
      }
    }

    /** Delete the oldest window. */
    method Leave(s: nat, ghost h: nat)
      requires dict.Valid() && s == Ring(h + F)
      requires Near(dict.Nodes(), Ring(h)) && Covered(dict.Nodes(), dict.text_buf[..], h)
      modifies dict`forest, dict.lson, dict.rson, dict.dad
      ensures dict.Valid() && Vacated(dict.Nodes(), dict.text_buf[..], h)
    {
      ghost var nodes := dict.Nodes();
      DeleteOldest(nodes, dict.text_buf[..], h);
      dict.DeleteNode(s);
      assert dict.Nodes() == nodes - {s};
    }

    /** Overwrite the oldest byte and its mirror image. */
    method Store(s: nat, c: byte, ghost h: nat)
      requires dict.Valid() && s == Ring(h + F) && Vacated(dict.Nodes(), dict.text_buf[..], h)
      modifies dict.text_buf
      ensures dict.Valid() && Vacated(dict.Nodes(), dict.text_buf[..], h)
      ensures dict.text_buf[..] == Write(old(dict.text_buf[..]), s, c)
    {
      ghost var nodes, buf := dict.Nodes(), dict.text_buf[..];
      dict.text_buf[s] := c;
      if s < F - 1 {
        dict.text_buf[s + N] := c;
      }
      assert dict.text_buf[..] == Write(buf, s, c);
      forall p | 0 <= p < N && In(dict.forest, buf, p)
        ensures Win(dict.text_buf[..], p) == Win(buf, p)
      {
        assert p in nodes;
        WriteKeepsWindow(buf, h, c, p);
      }
      ForestText(dict.forest, buf, dict.text_buf[..], dict.Arrays());
      assert dict.Nodes() == nodes;
      WriteBetween(nodes, buf, h, c);
    }

    /** Move on by one byte, taking `c` into the look-ahead. */
    method Slide(c: byte, r: nat, s: nat, ghost text: seq<byte>, ghost h: nat) returns (r': nat, s': nat)
      requires Window(text, h, h + F) && r == Ring(h) && s == Ring(h + F) && h + F < |text| && c == text[h + F]
      modifies DictParts()
      ensures r' == Ring(h + 1) && s' == Ring(h + 1 + F) && Window(text, h + 1, h + 1 + F)
      ensures Found(text, h + 1, h + 1 + F, dict.match_length, dict.match_position)
    {
      hide Dictionary.Valid, Dictionary.Nodes, Buffered, Near, Covered, Vacated, Ahead, Found, Ring, Write;
      WriteBuffers(dict.text_buf[..], text, h);
      Leave(s, h);
      Store(s, c, h);
      RingNext(h);
      RingNext(h + F);
      s' := (s + 1) % N;
      r' := (r + 1) % N;
      StepAhead(dict.Nodes(), dict.text_buf[..], h);
      Enter(r', text, h + 1, h + 1 + F);
    }

    /** Move on by one byte when the input is exhausted. */
    method Drop(r: nat, s: nat, len: int, ghost text: seq<byte>, ghost h: nat) returns (r': nat, s': nat, len': int)
      requires len >= 0 && Window(text, h, h + len) && r == Ring(h) && s == Ring(h + F)
      modifies DictParts()
      ensures r' == Ring(h + 1) && s' == Ring(h + 1 + F) && len' == len - 1
      ensures len' > 0 ==> Window(text, h + 1, h + len)
                           && Found(text, h + 1, h + len, dict.match_length, dict.match_position)
    {
      hide Dictionary.Valid, Dictionary.Nodes, Near, Covered, Vacated, Ahead, Found, Ring;
      Leave(s, h);
      RingNext(h);
      RingNext(h + F);
      s' := (s + 1) % N;
      r' := (r + 1) % N;
      len' := len - 1;
      if len' != 0 {
        StepAhead(dict.Nodes(), dict.text_buf[..], h);
        Enter(r', text, h + 1, h + len);
      }
    }

    /** The input has been taken in up to text index `end`. */
    predicate TakenTo(end: nat)
      reads this`CurrentInputPtr
    {
      end == N + if CurrentInputPtr < |rbuff| then CurrentInputPtr else |rbuff|
    }

    /** `len` bytes of look-ahead at text index `h`: all there is, or the full window. */
    ghost predicate LooksAhead(text: seq<byte>, h: nat, len: int, r: nat, s: nat)
      reads this`CurrentInputPtr, DictParts()
    {
      && 0 <= len && r == Ring(h) && s == Ring(h + F) && Window(text, h, h + len)
      && TakenTo(h + len) && (h + len == |text| || len == F)
    }

    /** What the match finder has reported for text index `h`. */
    ghost predicate Reported(text: seq<byte>, h: nat, len: nat)
      reads dict
    {
      Found(text, h, h + len, dict.match_length, dict.match_position)
    }

    /** Move on over at most `last` input bytes. */
    method SlideAll(r: nat, s: nat, last: nat, ghost len: int, ghost text: seq<byte>, ghost h: nat)
      returns (r': nat, s': nat, i: nat)
      requires Separate() && text == Preset() + rbuff && LooksAhead(text, h, len, r, s)
      modifies this`CurrentInputPtr, DictParts()
      ensures i <= last && LooksAhead(text, h + i, len, r', s')
      ensures i < last ==> CurrentInputPtr > |rbuff| && h + i + len == |text|
      ensures i > 0 ==> len == F && Reported(text, h + i, len)
    {
      hide Dictionary.Valid, Buffered, Covered, Near, Found, Preset;
      r', s', i := r, s, 0;
      while i < last
        invariant i <= last && LooksAhead(text, h + i, len, r', s')
        invariant i > 0 ==> len == F && Reported(text, h + i, len)
      {
        var c := getmemc();
        if c == EOF {
          break;
        }
        r', s' := Slide(c, r', s', text, h + i);
        i := i + 1;
      }
    }

    /** Move on by `k` bytes when the input is exhausted. */
    method DropAll(r: nat, s: nat, len: int, k: nat, ghost text: seq<byte>, ghost h: nat)
      returns (r': nat, s': nat, len': int)
      requires 0 <= len && r == Ring(h) && s == Ring(h + F) && Window(text, h, h + len)
      requires k <= len || (len == 0 && k == 1)
      modifies DictParts()
      ensures r' == Ring(h + k) && s' == Ring(h + k + F) && len' == len - k
      ensures len' > 0 ==> Window(text, h + k, h + len)
      ensures len' > 0 && k > 0 ==> Reported(text, h + k, len')
    {
      hide Dictionary.Valid, Buffered, Covered, Near, Found;
      r', s', len' := r, s, len;
      var i := 0;
      while i < k
        invariant i <= k && len' == len - i && r' == Ring(h + i) && s' == Ring(h + i + F)
        invariant len' > 0 || i == 0 ==> Window(text, h + i, h + len)
        invariant len' > 0 && i > 0 ==> Reported(text, h + i, len')
      {
        r', s', len' := Drop(r', s', len', text, h + i);
        i := i + 1;
      }
    }

    /** Move on by `last` bytes, over input bytes first and then without input. */
    method Advance(r: nat, s: nat, len: int, last: nat, ghost text: seq<byte>, ghost h: nat)
      returns (r': nat, s': nat, len': int)
      requires Separate() && text == Preset() + rbuff && LooksAhead(text, h, len, r, s)
      requires 1 <= last && (last <= len || (len == 0 && last == 1))
      modifies this`CurrentInputPtr, DictParts()
      ensures len' < 0 <==> len == 0
      ensures len' == 0 ==> h + last == |text|
      ensures len' > 0 ==> LooksAhead(text, h + last, len', r', s') && Reported(text, h + last, len')
    {
      hide Window, Reported, Preset;
      var i;
      r', s', i := SlideAll(r, s, last, len, text, h);
      len' := len;
      if i < last {
        r', s', len' := DropAll(r', s', len, last - i, text, h + i);
      }
    }

    /** Writing to the buffer while no window is in the trees. */
    method Fill(i: nat, c: byte)
      requires dict.Valid() && dict.Nodes() == {} && i < BUFFER
      modifies dict.text_buf
      ensures dict.Valid() && dict.Nodes() == {} && dict.text_buf[..] == old(dict.text_buf[..])[i := c]
    {
      ghost var buf := dict.text_buf[..];
      dict.text_buf[i] := c;
      forall p | 0 <= p < N
        ensures !In(dict.forest, buf, p)
      {
        assert p !in dict.Nodes();
      }
      ForestText(dict.forest, buf, dict.text_buf[..], dict.Arrays());
    }

    /** Blanks, and then the first bytes of the input. */
    method Load(ghost text: seq<byte>) returns (len: int)
      requires dict.Valid() && dict.Nodes() == {} && text == Preset() + rbuff && CurrentInputPtr == 0
      modifies this`CurrentInputPtr, dict.text_buf
      ensures dict.Valid() && dict.Nodes() == {} && 0 <= len <= F
      ensures Buffered(dict.text_buf[..], text, N, N + len) && TakenTo(N + len) && (N + len == |text| || len == F)
    {
      var r := N - F;
      for i := 0 to r
        invariant dict.Valid() && dict.Nodes() == {}
        invariant forall k :: 0 <= k < i ==> dict.text_buf[..][k] == SPACE
        modifies dict.text_buf
      {
        Fill(i, SPACE);
      }
      len := 0;
      while len < F
        invariant 0 <= len <= F && len <= |rbuff| && CurrentInputPtr == len
        invariant dict.Valid() && dict.Nodes() == {}
        invariant forall k :: 0 <= k < N - F ==> dict.text_buf[..][k] == SPACE
        invariant forall k :: 0 <= k < len ==> dict.text_buf[..][N - F + k] == rbuff[k]
      {
        var c := getmemc();
        if c == EOF {
          break;
        }
        Fill(r + len, c);
        len := len + 1;
      }
      forall x | F <= x < N + len
        ensures dict.text_buf[..][Ring(x)] == text[x]
      {
        assert Ring(x) == x - F;
      }
    }

    /** Enter the windows before the first position, and then that position itself. */
    method EnterFirst(r: nat, len: nat, ghost text: seq<byte>)
      requires dict.Valid() && dict.Nodes() == {} && r == Ring(N) && Buffered(dict.text_buf[..], text, N, N + len)
      modifies dict, dict.lson, dict.rson, dict.dad
      ensures Window(text, N, N + len) && Reported(text, N, len)
    {
      for i := 1 to F + 1
        invariant dict.Valid()
        invariant forall p :: p in dict.Nodes() ==> p < N && 1 <= Distance(r, p) < i
      {
        ghost var nodes := dict.Nodes();
        assert Distance(r, r - i) == i;
        dict.InsertNode(r - i);
        assert forall p :: p in dict.Nodes() ==> p == r - i || p in nodes;
      }
      DistanceZero(r, r);
      Enter(r, text, N, N + len);
    }

    /** Cut the match to the look-ahead and choose between a literal and the match. */
    method ChooseToken(r: nat, len: int, ghost text: seq<byte>, ghost h: nat) returns (t: Token)
      requires N <= h && r == Ring(h) && 0 <= len && Window(text, h, h + len)
      requires Reported(text, h, len) && (h + len == |text| || len == F)
      modifies dict`match_length
      ensures ValidToken(t) && dict.match_length == TokenLength(t) && Window(text, h, h + len)
      ensures len == 0 ==> t.Literal?
      ensures len > 0 ==> Greedy(text, h, t) && TokenLength(t) <= len
    {
      if len > 0 {
        ChoiceIsGreedy(text, h, h + len, dict.match_length, dict.match_position);
      }
      if dict.match_length > len {
        dict.match_length := len;
      }
      if dict.match_length <= THRESHOLD {
        dict.match_length := 1;
        t := Literal(dict.text_buf[r]);
      } else {
        t := Match(dict.match_length, dict.match_position);
      }
    }

    /** Code a token. */
    method Emit(t: Token)
      requires Separate() && coder.Valid() && ValidToken(t)
      modifies CoderParts()
      ensures coder.Valid() && coder.State() == EncodeToken(old(coder.State()), t)
    {
      hide AC.Encoder.Valid, AC.Encoder.State, TokenCoder.EncodeChar, TokenCoder.EncodePosition;
      if t.Literal? {
        coder.EncodeChar(t.c);
      } else {
        coder.EncodeChar(255 - THRESHOLD + t.length);
        coder.EncodePosition(t.distance - 1);
      }
    }

    method EmitNext(t: Token, ghost ts: seq<Token>)
      requires Separate() && coder.Valid() && ValidTokens(ts) && coder.State() == Coded(ts) && ValidToken(t)
      modifies CoderParts()
      ensures coder.Valid() && ValidTokens(ts + [t]) && coder.State() == Coded(ts + [t])
    {
      Emit(t);
      CodedSnoc(ts, t);
    }

    /** The tokens coded so far bring the text up to `h`. */
    ghost predicate Progress(text: seq<byte>, ts: seq<Token>, h: nat)
      reads CoderParts()
    {
      && coder.Valid() && ValidTokens(ts) && coder.State() == Coded(ts)
      && (rbuff != [] ==> GreedyParse(text, N, ts, h))
    }

    /** Where the encoder stands between two tokens. */
    ghost predicate Standing(text: seq<byte>, ts: seq<Token>, h: nat, r: nat, s: nat, len: int)
      reads this`CurrentInputPtr, DictParts(), CoderParts()
    {
      && Separate() && text == Preset() + rbuff && N <= h <= |text| && Progress(text, ts, h)
      && (rbuff == [] ==> |ts| == if len == 0 then 0 else 1)
      && (if len > 0 || (len == 0 && rbuff == []) then LooksAhead(text, h, len, r, s) && Reported(text, h, len)
          else rbuff != [] ==> h == |text|)
    }

    method StartCoder(ghost text: seq<byte>)
      requires Separate() && coder.Ready() && coder.Coder() == EncInit.coder && coder.tables.sym_to_char[0] == 0
      modifies coder.tables.Cells()
      ensures Progress(text, [], N)
    {
      coder.tables.StartModel();
    }

    method Start(ghost text: seq<byte>) returns (r: nat, s: nat, len: int)
      requires Separate() && CurrentInputPtr == 0 && coder.Ready() && coder.Coder() == EncInit.coder
      requires coder.tables.sym_to_char[0] == 0 && text == Preset() + rbuff
      modifies this`CurrentInputPtr, DictParts(), CoderParts()
      ensures Standing(text, [], N, r, s, len) && (len > 0 || (len == 0 && rbuff == []))
    {
      hide Window, Progress, Reported, Found, Dictionary.Valid, AC.Encoder.Valid, Buffered, Preset, Dictionary.Nodes;
      StartCoder(text);
      dict.InitTree();
      len := Load(text);
      r, s := N - F, 0;
      EnterFirst(r, len, text);
    }

    /** Choose the next token and code it. */
    method CodeNext(r: nat, s: nat, len: int, ghost ts: seq<Token>, ghost text: seq<byte>, ghost h: nat)
      returns (t: Token)
      requires Separate() && text == Preset() + rbuff && N <= h <= |text| && Progress(text, ts, h)
      requires (len > 0 || (len == 0 && rbuff == [])) && LooksAhead(text, h, len, r, s) && Reported(text, h, len)
      modifies dict`match_length, CoderParts()
      ensures dict.match_length == TokenLength(t) && LooksAhead(text, h, len, r, s)
      ensures 1 <= TokenLength(t) && (TokenLength(t) <= len || (len == 0 && TokenLength(t) == 1))
      ensures Progress(text, ts + [t], if rbuff == [] then h else h + TokenLength(t))
    {
      hide Dictionary.Valid, AC.Encoder.Valid, AC.Encoder.State, Buffered, Covered, Near, Coded, Dictionary.Nodes, Found, Greedy;
      t := ChooseToken(r, len, text, h);
      EmitNext(t, ts);
      if rbuff != [] {
        ParseSnoc(text, N, ts, h, t);
      }
    }

    /** Code the next token and move on behind it. */
    method EncodeNext(r: nat, s: nat, len: int, ghost ts: seq<Token>, ghost text: seq<byte>, ghost h: nat)
      returns (r': nat, s': nat, len': int, t: Token, ghost h': nat)
      requires Standing(text, ts, h, r, s, len) && (len > 0 || (len == 0 && rbuff == []))
      modifies this`CurrentInputPtr, DictParts(), CoderParts()
      ensures Standing(text, ts + [t], h', r', s', len')
      ensures rbuff == [] ==> len' < 0
      ensures rbuff != [] ==> h' > h
    {
      hide Window, Progress, Reported, GreedyParse, Greedy, AC.Encoder.Valid;
      t := CodeNext(r, s, len, ts, text, h);
      r', s', len' := Advance(r, s, len, dict.match_length, text, h);
      h' := if rbuff == [] then h else h + TokenLength(t);
    }

    method Encode() returns (ghost ts: seq<Token>)
      requires Separate() && CurrentInputPtr == 0 && coder.Ready() && coder.Coder() == EncInit.coder
      requires coder.tables.sym_to_char[0] == 0
      modifies this`CurrentInputPtr, DictParts(), CoderParts()
      ensures TokensFor(rbuff, ts)
      ensures coder.base + EncodedBits(ts) <= Unpack(coder.writer.dbuff)
    {
      ghost var text, h := Preset() + rbuff, N;
      var r, s, len := Start(text);
      ts := [];
      while true
        invariant Standing(text, ts, h, r, s, len) && (len > 0 || (len == 0 && rbuff == []))
        decreases |text| - h
      {
        var t;
        r, s, len, t, h := EncodeNext(r, s, len, ts, text, h);
        ts := ts + [t];
        if len <= 0 {
          break;
        }
      }
      coder.EncodeEnd();
    }
  }
  // ----- The decompressor -----

  class Decompressor {
    const coder: AC.Decoder
    const text_buf: array<byte>
    var dbuff: seq<byte>  // the output memory up to CurrentOutputPtr

    /** The state `InitCompress` establishes; the code begins after the length header. */
    constructor (file: seq<byte>)
      ensures coder.reader.rbuff == file && dbuff == [] && Separate()
      ensures coder.reader.Valid() && coder.reader.Position() == 32
      ensures coder.low == 0 && coder.high == Q4 && coder.value == 0 && coder.tables.sym_to_char[0] == 0
      ensures forall k :: 0 <= k < text_buf.Length ==> text_buf[k] == 0
      ensures fresh(coder) && fresh(CoderParts()) && fresh(text_buf)
    {
      coder := new AC.Decoder(file, 4);
      text_buf := new byte[BUFFER](_ => 0);
      dbuff := [];
    }

    ghost function CoderParts(): set<object> {
      {coder, coder.reader} + coder.tables.Cells()
    }

    ghost predicate Separate() {
      coder.tables.Shape() && text_buf.Length == BUFFER && this !in CoderParts()
    }

    /** The ring shows the last `N` bytes of the text, and the output is what follows the preset. */
    ghost predicate Shows(text: seq<byte>, r: nat)
      reads this, text_buf
    {
      && text_buf.Length == BUFFER && |text| >= N && r == Ring(|text|) && Preset() <= text && dbuff == text[N..]
      && forall x :: |text| - N <= x < |text| ==> text_buf[Ring(x)] == text[x]
    }

    /** Append one byte to the output and the ring. */
    method Append(c: byte, r: nat, ghost text: seq<byte>) returns (r': nat)
      requires Shows(text, r)
      modifies this, text_buf
      ensures Shows(text + [c], r')
    {
      dbuff := dbuff + [c];
      text_buf[r] := c;
      r' := (r + 1) % N;
      RingNext(|text|);
      forall x | |text| + 1 - N <= x < |text| + 1
        ensures text_buf[Ring(x)] == (text + [c])[x]
      {
        if x < |text| {
          RingBack(|text|, x);
          DistanceZero(r, Ring(x));
        }
      }
    }

    /** Copy `j` bytes from `distance` bytes back. */
    method CopyMatch(r: nat, distance: nat, j: nat, ghost text: seq<byte>) returns (r': nat)
      requires Shows(text, r) && 1 <= distance <= N
      modifies this, text_buf
      ensures Shows(CopyBack(text, j, distance), r')
    {
      hide CopyBack, Preset, Ring;
      var i := (r - distance) % N;
      r' := r;
      ghost var t := text;
      for k := 0 to j
        invariant Shows(t, r') && |t| == |text| + k && CopyBack(t, j - k, distance) == CopyBack(text, j, distance)
      {
        RingOffset(|text|, distance, k);
        assert text_buf[Ring(|t| - distance)] == t[|t| - distance];
        CopyBackStep(t, j - k, distance);
        var c := text_buf[(i + k) % N];
        r' := Append(c, r', t);
        t := t + [c];
      }
    }

    method DecodeToken() returns (t: Token)
      requires Separate() && coder.Valid()
      modifies CoderParts()
      ensures coder.Valid() && (t, coder.State()) == TokenCoder.DecodeToken(old(coder.State()), coder.Source())
    {
      hide AC.Decoder.Valid, AC.Decoder.State, TokenCoder.DecodeChar, TokenCoder.DecodePosition;
      var c := coder.DecodeChar();
      if c < 256 {
        t := Literal(c);
      } else {
        var position := coder.DecodePosition();
        t := Match(c - 255 + THRESHOLD, position + 1);
      }
    }

    method StartRing() returns (r: nat)
      requires text_buf.Length == BUFFER && dbuff == [] && forall k :: 0 <= k < BUFFER ==> text_buf[k] == 0
      modifies text_buf
      ensures Shows(Preset(), r)
    {
      for i := 0 to N - F
        invariant forall k :: 0 <= k < N ==> text_buf[k] == if k < i then SPACE else 0
      {
        text_buf[i] := SPACE;
      }
      r := N - F;
    }

    method StartCoder()
      requires Separate() && coder.reader.Valid() && coder.reader.Position() == 32
      requires coder.low == 0 && coder.high == Q4 && coder.value == 0 && coder.tables.sym_to_char[0] == 0
      modifies CoderParts()
      ensures coder.Valid() && coder.State() == DecInit(coder.Source(), 32)
    {
      coder.StartDecode();
      StartInStep(coder.Source(), 32);
      coder.tables.StartModel();
    }

    /** Decode one token and append what it stands for. */
    method DecodeNext(r: nat, count: nat, ghost text: seq<byte>)
      returns (r': nat, count': nat, ghost text': seq<byte>)
      requires Separate() && coder.Valid() && Shows(text, r) && |text| == N + count
      modifies this, text_buf, CoderParts()
      ensures coder.Valid() && Shows(text', r') && |text'| == N + count' && count' > count
      ensures var (t, d) := TokenCoder.DecodeToken(old(coder.State()), coder.Source());
              text' == Apply(text, t) && coder.State() == d
    {
      hide AC.Decoder.Valid, AC.Decoder.State, AC.Decoder.Source, TokenCoder.DecodeToken, Shows, Preset, CopyBack;
      var t := DecodeToken();
      match t {
        case Literal(c) =>
          r' := Append(c, r, text);
          count' := count + 1;
        case Match(length, distance) =>
          r' := CopyMatch(r, distance, length, text);
          count' := count + length;
      }
      text' := Apply(text, t);
    }

    method Decode()
      requires Separate() && coder.reader.Valid() && coder.reader.Position() == 32 && dbuff == []
      requires coder.low == 0 && coder.high == Q4 && coder.value == 0 && coder.tables.sym_to_char[0] == 0
      requires forall k :: 0 <= k < BUFFER ==> text_buf[k] == 0
      requires |coder.reader.rbuff| >= 4
      modifies this, text_buf, CoderParts()
      ensures dbuff == DecodeFile(coder.reader.rbuff)
    {
      hide AC.Decoder.Valid, AC.Decoder.State, TokenCoder.DecodeToken, DecInit, Apply, Preset;
      var textsize := Word4(coder.reader.rbuff[..4]);
      StartCoder();
      var r := StartRing();
      ghost var s, text := coder.Source(), Preset();
      ghost var goal := DecodeText(DecInit(s, 32), s, text, N + textsize);
      var count: nat := 0;
      while count < textsize
        invariant coder.Valid() && Shows(text, r) && |text| == N + count
        invariant DecodeText(coder.State(), s, text, N + textsize) == goal
      {
        r, count, text := DecodeNext(r, count, text);
      }
    }
  }

  // ----- Round trip of the running programs -----

  method Compress(input: seq<byte>) returns (file: seq<byte>, ghost ts: seq<Token>)
    requires |input| < 0x1_0000_0000
    ensures TokensFor(input, ts) && FileOf(file, |input|, ts)
  {
    var c := new Compressor(input);
    ts := c.Encode();
    file := c.coder.writer.dbuff;
    ghost var header := Bytes4(|input|);
    assert |Unpack(header)| == 32 && |Unpack(file)| == 8 * |file|;
    assert Unpack(header) == (Unpack(header) + EncodedBits(ts))[..32] == Unpack(file)[..32];
    UnpackPrefix(header, file);
  }

  method Decompress(file: seq<byte>) returns (output: seq<byte>)
    requires |file| >= 4
    ensures output == DecodeFile(file)
  {
    var d := new Decompressor(file);
    d.Decode();
    output := d.dbuff;
  }

  /** Compressing and decompressing gives back every input. */
  method CompressAndDecompress(input: seq<byte>) returns (file: seq<byte>, output: seq<byte>)
    requires |input| < 0x1_0000_0000
    ensures output == input
  {
    ghost var ts;
    file, ts := Compress(input);
    RoundTrip(input, file, ts);
    output := Decompress(file);
  }
}
