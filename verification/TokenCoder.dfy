/** Literals and matches as the compressor's messages: what a message stands for, how it is coded,
    and why the decoder gets every message back. */
module TokenCoder {
  import opened Bytes
  import opened BitIo
  import opened IntervalCoder
  import opened AdaptiveModel

  datatype Token = Literal(c: byte) | Match(length: nat, distance: nat)

  predicate ValidToken(t: Token) {
    t.Match? ==> THRESHOLD < t.length <= F && 1 <= t.distance <= N
  }

  predicate ValidTokens(ts: seq<Token>) {
    forall i :: 0 <= i < |ts| ==> ValidToken(ts[i])
  }

  // ----- Meaning -----

  /** Copy `length` bytes from `distance` bytes back; the copy may run into its own output. */
  function CopyBack(text: seq<byte>, length: nat, distance: nat): (t: seq<byte>)
    requires 1 <= distance <= |text|
    ensures |t| == |text| + length && text <= t
    decreases length
  {
    if length == 0 then text else CopyBack(text + [text[|text| - distance]], length - 1, distance)
  }

  lemma CopyBackStep(text: seq<byte>, length: nat, distance: nat)
    requires 1 <= distance <= |text| && length > 0
    ensures CopyBack(text, length, distance) == CopyBack(text + [text[|text| - distance]], length - 1, distance)
  {
  }

  /** From index `from` on, the text repeats after every `d` bytes. */
  predicate Periodic(t: seq<byte>, from: nat, d: nat)
    requires d <= from
  {
    forall k :: from <= k < |t| ==> t[k] == t[k - d]
  }

  /** What has been copied repeats with the distance as its period, even where it overlaps itself. */
  lemma {:induction false} CopyBackRepeats(text: seq<byte>, length: nat, distance: nat)
    requires 1 <= distance <= |text|
    ensures Periodic(CopyBack(text, length, distance), |text|, distance)
    decreases length
  {
    if length > 0 {
      var more := text + [text[|text| - distance]];
      var t := CopyBack(more, length - 1, distance);
      CopyBackRepeats(more, length - 1, distance);
      assert t[|text|] == more[|text|] && t[|text| - distance] == more[|text| - distance];
    }
  }

  function Apply(text: seq<byte>, t: Token): (r: seq<byte>)
    requires ValidToken(t) && |text| >= N
    ensures |text| < |r| && text <= r
  {
    match t
    case Literal(c) => text + [c]
    case Match(length, distance) => CopyBack(text, length, distance)
  }

  /** The text after applying a message sequence to `text`. */
  function ApplyAll(text: seq<byte>, ts: seq<Token>): (r: seq<byte>)
    requires ValidTokens(ts) && |text| >= N
    ensures |text| + |ts| <= |r| && text <= r
    decreases |ts|
  {
    if ts == [] then text else ApplyAll(Apply(text, ts[0]), ts[1..])
  }

  // ----- Encoding -----

  datatype EncState = EncState(coder: Enc, model: Model)

  predicate ValidEnc(e: EncState) {
    Settled(e.coder.low, e.coder.high) && ValidModel(e.model)
  }

  const EncInit := EncState(Enc(0, Q4, 0, []), InitialModel())

  function EncodeChar(e: EncState, ch: nat): (e': EncState)
    requires ValidEnc(e) && ch < N_CHAR
    ensures ValidEnc(e')
  {
    var sym := e.model.toSym[ch];
    UpdateValid(e.model, sym);
    EncState(EncStep(e.coder, SlotAt(e.model.freq, sym)), Update(e.model, sym))
  }

  function PositionSlot(position: nat): (s: Slot)
    requires position < N
    ensures ValidSlot(s)
  {
    PositionTotal();
    SlotAt(PositionFreq(), position + 1)
  }

  function EncodePosition(e: EncState, position: nat): (e': EncState)
    requires ValidEnc(e) && position < N
    ensures ValidEnc(e')
  {
    e.(coder := EncStep(e.coder, PositionSlot(position)))
  }

  /** The character code that announces a message: 0 .. 255 a literal, from 256 on a match length. */
  function CharOf(t: Token): (ch: nat)
    requires ValidToken(t)
    ensures ch < N_CHAR && (ch < 256 <==> t.Literal?)
  {
    match t
    case Literal(c) => c
    case Match(length, _) => 255 - THRESHOLD + length
  }

  /** The message announced by `ch`; the position counts only for a match. */
  function TokenOf(ch: nat, position: nat): (t: Token)
    requires ch < N_CHAR && position < N
    ensures ValidToken(t) && CharOf(t) == ch && (t.Match? ==> t.distance == position + 1)
  {
    if ch < 256 then Literal(ch) else Match(ch - 255 + THRESHOLD, position + 1)
  }

  function EncodeToken(e: EncState, t: Token): (e': EncState)
    requires ValidEnc(e) && ValidToken(t)
    ensures ValidEnc(e')
  {
    var e1 := EncodeChar(e, CharOf(t));
    if t.Match? then EncodePosition(e1, t.distance - 1) else e1
  }

  function EncodeTokens(e: EncState, ts: seq<Token>): (e': EncState)
    requires ValidEnc(e) && ValidTokens(ts)
    ensures ValidEnc(e')
    decreases |ts|
  {
    if ts == [] then e else EncodeTokens(EncodeToken(e, ts[0]), ts[1..])
  }

  lemma {:induction false} EncodeSnoc(e: EncState, ts: seq<Token>, t: Token)
    requires ValidEnc(e) && ValidTokens(ts) && ValidToken(t)
    ensures EncodeTokens(e, ts + [t]) == EncodeToken(EncodeTokens(e, ts), t)
    decreases |ts|
  {
    if ts == [] {
      assert (ts + [t])[1..] == [];
    } else {
      assert (ts + [t])[1..] == ts[1..] + [t];
      EncodeSnoc(EncodeToken(e, ts[0]), ts[1..], t);
    }
  }

  /** The encoder's state after a message sequence. */
  function Coded(ts: seq<Token>): (e: EncState)
    requires ValidTokens(ts)
    ensures ValidEnc(e)
  {
    InitialModelValid();
    EncodeTokens(EncInit, ts)
  }

  lemma CodedSnoc(ts: seq<Token>, t: Token)
    requires ValidTokens(ts) && ValidToken(t)
    ensures ValidTokens(ts + [t]) && Coded(ts + [t]) == EncodeToken(Coded(ts), t)
  {
    hide EncodeToken, InitialModel, ValidModel;
    InitialModelValid();
    EncodeSnoc(EncInit, ts, t);
  }

  /** The code for a message sequence, up to the flushing of the last byte. */
  function EncodedBits(ts: seq<Token>): seq<bool>
    requires ValidTokens(ts)
  {
    EncFinish(Coded(ts).coder)
  }

  // ----- Decoding -----

  datatype DecState = DecState(coder: Dec, model: Model)

  predicate ValidDecState(d: DecState) {
    ValidDec(d.coder) && ValidModel(d.model)
  }

  /** The entry of a frequency table that the code value selects. */
  function Selected(d: Dec, freq: seq<nat>): (k: nat)
    requires ValidDec(d) && Positive(freq) && |freq| > 1 && 0 < Above(freq, 0) < Q1
    ensures 1 <= k < |freq| && Selects(d, SlotAt(freq, k))
  {
    var x := LookUp(d, Above(freq, 0));
    var k := Find(freq, x, 1);
    SelectedSlot(d, SlotAt(freq, k));
    k
  }

  lemma SelectedIsUnique(d: Dec, freq: seq<nat>, k: nat)
    requires ValidDec(d) && Positive(freq) && 1 <= k < |freq| && Above(freq, 0) < Q1
    requires Selects(d, SlotAt(freq, k))
    ensures 0 < Above(freq, 0) && Selected(d, freq) == k
  {
    SelectedSlot(d, SlotAt(freq, k));
    FindIsUnique(freq, LookUp(d, Above(freq, 0)), k);
  }

  lemma TotalPositive(freq: seq<nat>)
    requires Positive(freq) && |freq| > 1
    ensures Above(freq, 0) > 0
  {
  }

  function DecodeChar(d: DecState, s: Stream): (r: (nat, DecState))
    requires ValidDecState(d)
    ensures r.0 < N_CHAR && ValidDecState(r.1)
  {
    TotalPositive(d.model.freq);
    var sym := Selected(d.coder, d.model.freq);
    UpdateValid(d.model, sym);
    (d.model.toChar[sym], DecState(DecStep(d.coder, SlotAt(d.model.freq, sym), s), Update(d.model, sym)))
  }

  function SelectedPosition(d: Dec): (position: nat)
    requires ValidDec(d)
    ensures position < N && Selects(d, PositionSlot(position))
  {
    TotalPositive(PositionFreq());
    PositionTotal();
    Selected(d, PositionFreq()) - 1
  }

  function DecodePosition(d: DecState, s: Stream): (r: (nat, DecState))
    requires ValidDecState(d)
    ensures r.0 < N && ValidDecState(r.1)
  {
    var position := SelectedPosition(d.coder);
    (position, d.(coder := DecStep(d.coder, PositionSlot(position), s)))
  }

  function DecodeToken(d: DecState, s: Stream): (r: (Token, DecState))
    requires ValidDecState(d)
    ensures ValidToken(r.0) && ValidDecState(r.1)
  {
    var (c, d1) := DecodeChar(d, s);
    if c < 256 then (TokenOf(c, 0), d1)
    else
      var (position, d2) := DecodePosition(d1, s);
      (TokenOf(c, position), d2)
  }

  function DecInit(s: Stream, base: nat): (d: DecState)
    ensures ValidDecState(d)
  {
    StartInStep(s, base);
    InitialModelValid();
    DecState(DecStart(s, base), InitialModel())
  }

  /** The decoder's main loop: messages are decoded and applied until the text is long enough. */
  function DecodeText(d: DecState, s: Stream, text: seq<byte>, limit: nat): (r: seq<byte>)
    requires ValidDecState(d) && |text| >= N
    ensures |r| >= limit && text <= r
    decreases limit - |text|
  {
    if |text| >= limit then text
    else
      var (t, d') := DecodeToken(d, s);
      DecodeText(d', s, Apply(text, t), limit)
  }

  // ----- Round trip -----

  predicate InStepStates(s: Stream, base: nat, e: EncState, d: DecState) {
    InStep(s, base, e.coder, d.coder) && d.model == e.model
  }

  lemma DecodesChar(s: Stream, base: nat, e: EncState, d: DecState, ch: nat)
    requires ValidEnc(e) && ValidDecState(d) && InStepStates(s, base, e, d) && ch < N_CHAR
    requires OnTrack(s, base, EncodeChar(e, ch).coder)
    ensures DecodeChar(d, s).0 == ch && InStepStates(s, base, EncodeChar(e, ch), DecodeChar(d, s).1)
    ensures OnTrack(s, base, e.coder)
  {
    var sym := e.model.toSym[ch];
    var slot := SlotAt(e.model.freq, sym);
    StepTrack(s, base, e.coder, slot);
    DecodesSlot(s, base, e.coder, d.coder, slot);
    SelectedIsUnique(d.coder, d.model.freq, sym);
  }

  lemma DecodesPosition(s: Stream, base: nat, e: EncState, d: DecState, position: nat)
    requires ValidEnc(e) && ValidDecState(d) && InStepStates(s, base, e, d) && position < N
    requires OnTrack(s, base, EncodePosition(e, position).coder)
    ensures DecodePosition(d, s).0 == position && InStepStates(s, base, EncodePosition(e, position), DecodePosition(d, s).1)
    ensures OnTrack(s, base, e.coder)
  {
    hide PositionFreq, ValidModel, EncRenorm, DecRenorm, OnTrack;
    PositionTotal();
    var slot := PositionSlot(position);
    StepTrack(s, base, e.coder, slot);
    DecodesSlot(s, base, e.coder, d.coder, slot);
    SelectedIsUnique(d.coder, PositionFreq(), position + 1);
  }

  /** A stream that stays on track beyond a message was on track before it. */
  lemma TokenTrack(s: Stream, base: nat, e: EncState, t: Token)
    requires ValidEnc(e) && ValidToken(t)
    ensures OnTrack(s, base, EncodeToken(e, t).coder) ==> OnTrack(s, base, e.coder)
  {
    var ch := CharOf(t);
    StepTrack(s, base, e.coder, SlotAt(e.model.freq, e.model.toSym[ch]));
    if t.Match? {
      StepTrack(s, base, EncodeChar(e, ch).coder, PositionSlot(t.distance - 1));
    }
  }

  lemma DecodesMatch(s: Stream, base: nat, e: EncState, d: DecState, ch: nat, position: nat)
    requires ValidEnc(e) && ValidDecState(d) && InStepStates(s, base, e, d) && ch < N_CHAR && position < N
    requires OnTrack(s, base, EncodePosition(EncodeChar(e, ch), position).coder)
    ensures DecodeChar(d, s).0 == ch
    ensures DecodePosition(DecodeChar(d, s).1, s).0 == position
    ensures InStepStates(s, base, EncodePosition(EncodeChar(e, ch), position), DecodePosition(DecodeChar(d, s).1, s).1)
  {
    var e1 := EncodeChar(e, ch);
    StepTrack(s, base, e1.coder, PositionSlot(position));
    DecodesChar(s, base, e, d, ch);
    DecodesPosition(s, base, e1, DecodeChar(d, s).1, position);
  }

  lemma DecodesToken(s: Stream, base: nat, e: EncState, d: DecState, t: Token)
    requires ValidEnc(e) && ValidDecState(d) && InStepStates(s, base, e, d) && ValidToken(t)
    requires OnTrack(s, base, EncodeToken(e, t).coder)
    ensures DecodeToken(d, s).0 == t
    ensures InStepStates(s, base, EncodeToken(e, t), DecodeToken(d, s).1)
  {
    hide DecodeChar, DecodePosition, EncodeChar, EncodePosition, OnTrack, InStep, ValidModel;
    var ch := CharOf(t);
    if t.Match? {
      DecodesMatch(s, base, e, d, ch, t.distance - 1);
      assert TokenOf(ch, t.distance - 1) == t;
    } else {
      DecodesChar(s, base, e, d, ch);
      assert TokenOf(ch, 0) == t;
    }
  }

  lemma {:induction false} TokensTrack(s: Stream, base: nat, e: EncState, ts: seq<Token>)
    requires ValidEnc(e) && ValidTokens(ts)
    ensures OnTrack(s, base, EncodeTokens(e, ts).coder) ==> OnTrack(s, base, e.coder)
    decreases |ts|
  {
    if ts != [] {
      TokenTrack(s, base, e, ts[0]);
      TokensTrack(s, base, EncodeToken(e, ts[0]), ts[1..]);
    }
  }

  /** `limit` is reached by the last message and not before. */
  predicate JustReaches(text: seq<byte>, ts: seq<Token>, limit: nat)
    requires ValidTokens(ts) && |text| >= N
    decreases |ts|
  {
    if ts == [] then |text| >= limit else |text| < limit && JustReaches(Apply(text, ts[0]), ts[1..], limit)
  }

  /** A decoder in step with the encoder reproduces the text of all messages to come. */
  lemma {:induction false} DecodesTokens(s: Stream, base: nat, e: EncState, d: DecState,
                                         ts: seq<Token>, text: seq<byte>, limit: nat)
    requires ValidEnc(e) && ValidTokens(ts) && OnTrack(s, base, EncodeTokens(e, ts).coder)
    requires ValidDecState(d) && InStepStates(s, base, e, d)
    requires |text| >= N && JustReaches(text, ts, limit)
    ensures DecodeText(d, s, text, limit) == ApplyAll(text, ts)
    decreases |ts|
  {
    if ts != [] {
      TokensTrack(s, base, EncodeToken(e, ts[0]), ts[1..]);
      DecodesToken(s, base, e, d, ts[0]);
      DecodesTokens(s, base, EncodeToken(e, ts[0]), DecodeToken(d, s).1, ts[1..], Apply(text, ts[0]), limit);
    }
  }

  /** The arithmetic coder loses nothing: whatever bits follow the finished code, decoding it
      reproduces the text of the messages, for every message sequence and any wanted length that
      the last message reaches and no earlier one. */
  lemma DecodesAll(s: Stream, base: nat, ts: seq<Token>, text: seq<byte>, limit: nat)
    requires ValidTokens(ts) && Carries(s, base, EncodedBits(ts))
    requires |text| >= N && JustReaches(text, ts, limit)
    ensures DecodeText(DecInit(s, base), s, text, limit) == ApplyAll(text, ts)
  {
    InitialModelValid();
    FinishOnTrack(s, base, EncodeTokens(EncInit, ts).coder);
    StartInStep(s, base);
    DecodesTokens(s, base, EncInit, DecInit(s, base), ts, text, limit);
  }
}
