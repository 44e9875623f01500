/** The arithmetic coder on values: what the encoder's and the decoder's interval arithmetic compute,
    and why a decoder reading the encoder's bits follows it symbol by symbol. */
module IntervalCoder {
  import opened Arithmetic

  const M := 15
  const Q1 := 0x8000
  const Q2 := 0x10000
  const Q3 := 0x18000
  const Q4 := 0x20000

  /** The share `[lo, hi)` out of `total` that the model gives to one symbol. */
  datatype Slot = Slot(lo: nat, hi: nat, total: nat)

  predicate ValidSlot(s: Slot) {
    s.lo < s.hi <= s.total < Q1
  }

  /** Encoder: the interval, the number of undecided middle bits and the bits emitted so far. */
  datatype Enc = Enc(low: nat, high: nat, shifts: nat, bits: seq<bool>)

  /** Decoder: the interval, the 17-bit code value relative to it and the next stream position. */
  datatype Dec = Dec(low: nat, high: nat, value: nat, pos: nat)

  predicate Interval(low: nat, high: nat) {
    low < high <= Q4
  }

  /** No renormalisation step applies: the interval straddles Q2 and is wider than Q1. */
  predicate Settled(low: nat, high: nat) {
    Interval(low, high) && low < Q2 < high && (low < Q1 || high > Q3)
  }

  predicate ValidDec(d: Dec) {
    Settled(d.low, d.high) && d.low <= d.value < d.high
  }

  /** The boundary of the interval for cumulative frequency `c`. */
  function Bound(low: nat, high: nat, c: nat, total: nat): nat
    requires low <= high && 0 < total
  {
    low + (high - low) * c / total
  }

  /** In a settled interval every valid slot gets a non-empty part, and no product leaves 32 bits. */
  lemma SlotsAreWide(low: nat, high: nat, s: Slot)
    requires Settled(low, high) && ValidSlot(s)
    ensures (high - low) * s.hi < 0x1_0000_0000
    ensures low <= Bound(low, high, s.lo, s.total) < Bound(low, high, s.hi, s.total) <= high
  {
    var range := high - low;
    assert Q1 <= range <= Q4;
    Parts(range, s.lo, s.hi, s.total);
  }

  lemma Parts(range: nat, lo: nat, hi: nat, total: nat)
    requires lo < hi <= total < Q1 <= range <= Q4
    ensures range * hi < 0x1_0000_0000
    ensures 0 <= range * lo / total < range * hi / total <= range
  {
    ProductFits(range, hi);
    MulMono(range, range, hi, total);
    NextMultiple(range, lo, hi);
    DivBetween(range * lo, range * hi, range, total);
  }

  lemma ProductFits(range: nat, c: nat)
    requires range <= Q4 && c < Q1
    ensures range * c < 0x1_0000_0000
  {
    MulMono(range, Q4, c, Q1 - 1);
  }

  lemma NextMultiple(range: nat, lo: nat, hi: nat)
    requires lo < hi
    ensures range * lo + range <= range * hi
  {
    MulMono(range, range, lo + 1, hi);
    assert range * (lo + 1) == range * lo + range;
  }

  lemma DivBetween(x: nat, y: nat, range: nat, total: nat)
    requires 0 < total <= range && x + range <= y <= range * total
    ensures 0 <= x / total < y / total <= range
  {
    assert x / total * total <= x;
    assert (x / total + 1) * total == x / total * total + total <= y;
    DivLower(y, total, x / total + 1);
    DivUpper(y, total, range);
  }

  /** The key step of decoding: the scaled code value lies at or above a cumulative frequency
      exactly when the code value lies at or above that frequency's boundary. */
  lemma ScaledValue(w: nat, range: nat, c: nat, total: nat)
    requires w < range && 0 < total
    ensures (w + 1) * total >= 1
    ensures range * c / total <= w <==> c <= ((w + 1) * total - 1) / range
  {
    MulMono(1, w + 1, 1, total);
    var scaled: nat := (w + 1) * total - 1;
    DivAtMost(range * c, total, w);
    assert c * range == range * c;
    if c * range <= scaled {
      DivLower(scaled, range, c);
    } else {
      DivStrict(scaled, range, c);
    }
  }

  lemma ScaledBelow(w: nat, range: nat, total: nat)
    requires w < range && 0 < total
    ensures (w + 1) * total >= 1
    ensures 0 <= ((w + 1) * total - 1) / range < total
  {
    MulMono(1, w + 1, 1, total);
    MulMono(w + 1, range, total, total);
    assert range * total == total * range;
    DivStrict((w + 1) * total - 1, range, total);
  }

  // ----- Encoding -----

  /** `bit` followed by the pending complements. */
  function Emit(bits: seq<bool>, bit: bool, shifts: nat): seq<bool> {
    bits + [bit] + Repeat(!bit, shifts)
  }

  function Repeat(bit: bool, n: nat): (s: seq<bool>)
    ensures |s| == n
  {
    if n == 0 then [] else Repeat(bit, n - 1) + [bit]
  }

  function Narrow(e: Enc, s: Slot): Enc
    requires e.low <= e.high && 0 < s.total
  {
    e.(low := Bound(e.low, e.high, s.lo, s.total), high := Bound(e.low, e.high, s.hi, s.total))
  }

  function EmitZero(e: Enc): Enc {
    Enc(2 * e.low, 2 * e.high, 0, Emit(e.bits, false, e.shifts))
  }

  function EmitOne(e: Enc): Enc
    requires Q2 <= e.low <= e.high
  {
    Enc(2 * (e.low - Q2), 2 * (e.high - Q2), 0, Emit(e.bits, true, e.shifts))
  }

  function Defer(e: Enc): Enc
    requires Q1 <= e.low <= e.high
  {
    Enc(2 * (e.low - Q1), 2 * (e.high - Q1), e.shifts + 1, e.bits)
  }

  function EncRenorm(e: Enc): (e': Enc)
    requires Interval(e.low, e.high)
    ensures Settled(e'.low, e'.high)
    decreases Q4 - (e.high - e.low)
  {
    if e.high <= Q2 then
      EncRenorm(EmitZero(e))
    else if e.low >= Q2 then
      EncRenorm(EmitOne(e))
    else if e.low >= Q1 && e.high <= Q3 then
      EncRenorm(Defer(e))
    else e
  }

  function EncStep(e: Enc, s: Slot): (e': Enc)
    requires Settled(e.low, e.high) && ValidSlot(s)
    ensures Settled(e'.low, e'.high)
  {
    SlotsAreWide(e.low, e.high, s);
    EncRenorm(Narrow(e, s))
  }

  /** The bits `EncodeEnd` leaves before the buffer is flushed. */
  function EncFinish(e: Enc): seq<bool> {
    Emit(e.bits, e.low >= Q1, e.shifts + 1)
  }

  // ----- Decoding -----

  /** A bit stream that never ends. */
  type Stream = nat -> bool

  function Bit(s: Stream, i: nat): nat {
    if s(i) then 1 else 0
  }

  /** Subtract, double and take in the next bit. */
  function Consume(d: Dec, sub: nat, s: Stream): Dec
    requires sub <= d.low <= d.value < d.high
  {
    Dec(2 * (d.low - sub), 2 * (d.high - sub), 2 * (d.value - sub) + Bit(s, d.pos), d.pos + 1)
  }

  function DecRenorm(d: Dec, s: Stream): (d': Dec)
    requires Interval(d.low, d.high) && d.low <= d.value < d.high
    ensures ValidDec(d')
    decreases Q4 - (d.high - d.low)
  {
    if d.low >= Q2 then DecRenorm(Consume(d, Q2, s), s)
    else if d.low >= Q1 && d.high <= Q3 then DecRenorm(Consume(d, Q1, s), s)
    else if d.high > Q2 then d
    else DecRenorm(Consume(d, 0, s), s)
  }

  /** The number the decoder looks up in the cumulative frequencies. */
  function LookUp(d: Dec, total: nat): (x: nat)
    requires ValidDec(d) && 0 < total
    ensures x < total
  {
    ScaledBelow(d.value - d.low, d.high - d.low, total);
    ((d.value - d.low + 1) * total - 1) / (d.high - d.low)
  }

  /** The code value lies in the part of the interval that belongs to slot `s`. */
  predicate Selects(d: Dec, s: Slot)
    requires d.low <= d.high && 0 < s.total
  {
    Bound(d.low, d.high, s.lo, s.total) <= d.value < Bound(d.low, d.high, s.hi, s.total)
  }

  /** A slot is selected exactly when the looked-up number falls into it. */
  lemma SelectedSlot(d: Dec, s: Slot)
    requires ValidDec(d) && ValidSlot(s)
    ensures Selects(d, s) <==> s.lo <= LookUp(d, s.total) < s.hi
  {
    ScaledValue(d.value - d.low, d.high - d.low, s.lo, s.total);
    ScaledValue(d.value - d.low, d.high - d.low, s.hi, s.total);
  }

  function DecStep(d: Dec, s: Slot, stream: Stream): (d': Dec)
    requires ValidDec(d) && ValidSlot(s) && Selects(d, s)
    ensures ValidDec(d')
  {
    SlotsAreWide(d.low, d.high, s);
    DecRenorm(d.(low := Bound(d.low, d.high, s.lo, s.total), high := Bound(d.low, d.high, s.hi, s.total)), stream)
  }

  /** `StartDecode`: `M + 2` bits from position `base` on. */
  function DecStart(s: Stream, base: nat): Dec {
    Dec(0, Q4, Window(s, base, M + 2), base + M + 2)
  }

  /** The number formed by `n` stream bits from `base` on. */
  function Window(s: Stream, base: nat, n: nat): nat {
    if n == 0 then 0 else 2 * Window(s, base, n - 1) + Bit(s, base + n - 1)
  }

  lemma {:induction false} WindowBound(s: Stream, base: nat, n: nat, k: nat)
    ensures Pow2(k) * Window(s, base, n) <= Window(s, base, n + k) < Pow2(k) * (Window(s, base, n) + 1)
  {
    if k > 0 {
      WindowBound(s, base, n, k - 1);
      DoubleBounds(Pow2(k - 1), Window(s, base, n), Window(s, base, n + k - 1), Bit(s, base + n + k - 1));
    }
  }

  lemma DoubleBounds(p: nat, w: nat, x: nat, bit: nat)
    requires p * w <= x < p * (w + 1) && bit <= 1
    ensures 2 * p * w <= 2 * x + bit < 2 * p * (w + 1)
  {
    MulAssoc(2, p, w);
    MulAssoc(2, p, w + 1);
  }

  lemma Pow2Values()
    ensures Pow2(M) == Q1 && Pow2(M + 2) == Q4
  {
    assert Pow2(3) == 8;
    assert Pow2(5) == 0x20;
    assert Pow2(7) == 0x80;
    assert Pow2(9) == 0x200;
    assert Pow2(11) == 0x800;
    assert Pow2(13) == 0x2000;
  }

  // ----- Encoder and decoder in step -----

  function Number(bits: seq<bool>): nat {
    if bits == [] then 0
    else 2 * Number(bits[..|bits| - 1]) + if bits[|bits| - 1] then 1 else 0
  }

  /** What the encoder has subtracted from the true lower end so far, at the current scale:
      the emitted bits followed by the smaller of the two ways the pending bits can turn out. */
  function Offset(e: Enc): nat {
    Q2 * Number(Emit(e.bits, false, e.shifts))
  }

  /** How often the interval has been doubled. */
  function Doublings(e: Enc): nat {
    |e.bits| + e.shifts
  }

  /** The code value of `s` at the encoder's scale. */
  function Code(s: Stream, base: nat, e: Enc): int {
    Window(s, base, M + 2 + Doublings(e)) - Offset(e)
  }

  /** The stream lies inside the interval the encoder has narrowed to. */
  predicate OnTrack(s: Stream, base: nat, e: Enc) {
    e.low <= Code(s, base, e) < e.high
  }

  /** The decoder stands where the encoder stood. */
  predicate InStep(s: Stream, base: nat, e: Enc, d: Dec) {
    d.low == e.low && d.high == e.high && d.value == Code(s, base, e) && d.pos == base + M + 2 + Doublings(e)
  }

  lemma NumberSnoc(bits: seq<bool>, bit: bool)
    ensures Number(bits + [bit]) == 2 * Number(bits) + if bit then 1 else 0
  {
    assert (bits + [bit])[..|bits|] == bits;
  }

  lemma EmitSnoc(bits: seq<bool>, bit: bool, k: nat)
    ensures Emit(bits, bit, k + 1) == Emit(bits, bit, k) + [!bit]
  {
  }

  /** A carry into the pending bits: `1 0...0` is `0 1...1` plus one. */
  lemma {:induction false} Carry(bits: seq<bool>, k: nat)
    ensures Number(Emit(bits, true, k)) == Number(Emit(bits, false, k)) + 1
  {
    if k == 0 {
      assert Emit(bits, true, 0) == bits + [true] && Emit(bits, false, 0) == bits + [false];
      NumberSnoc(bits, true);
      NumberSnoc(bits, false);
    } else {
      Carry(bits, k - 1);
      EmitSnoc(bits, true, k - 1);
      EmitSnoc(bits, false, k - 1);
      NumberSnoc(Emit(bits, true, k - 1), false);
      NumberSnoc(Emit(bits, false, k - 1), true);
    }
  }

  lemma OffsetNoShifts(e: Enc)
    requires e.shifts == 0
    ensures Offset(e) == Q4 * Number(e.bits)
  {
    assert Emit(e.bits, false, 0) == e.bits + [false];
    NumberSnoc(e.bits, false);
  }

  /** The bit a decoder in step takes in next. */
  function NextBit(s: Stream, base: nat, e: Enc): nat {
    Bit(s, base + M + 2 + Doublings(e))
  }

  lemma CodeAfterZero(s: Stream, base: nat, e: Enc)
    ensures Doublings(EmitZero(e)) == Doublings(e) + 1
    ensures Code(s, base, EmitZero(e)) == 2 * Code(s, base, e) + NextBit(s, base, e)
  {
    OffsetNoShifts(EmitZero(e));
  }

  lemma CodeAfterOne(s: Stream, base: nat, e: Enc)
    requires Q2 <= e.low <= e.high
    ensures Doublings(EmitOne(e)) == Doublings(e) + 1
    ensures Code(s, base, EmitOne(e)) == 2 * (Code(s, base, e) - Q2) + NextBit(s, base, e)
  {
    OffsetNoShifts(EmitOne(e));
    Carry(e.bits, e.shifts);
  }

  lemma CodeAfterDefer(s: Stream, base: nat, e: Enc)
    requires Q1 <= e.low <= e.high
    ensures Doublings(Defer(e)) == Doublings(e) + 1
    ensures Code(s, base, Defer(e)) == 2 * (Code(s, base, e) - Q1) + NextBit(s, base, e)
  {
    EmitSnoc(e.bits, false, e.shifts);
    NumberSnoc(Emit(e.bits, false, e.shifts), true);
  }

  /** Renormalising neither loses nor gains streams. */
  lemma {:induction false} RenormTrack(s: Stream, base: nat, e: Enc)
    requires Interval(e.low, e.high)
    ensures OnTrack(s, base, EncRenorm(e)) <==> OnTrack(s, base, e)
    decreases Q4 - (e.high - e.low)
  {
    var code := Code(s, base, e);
    if e.high <= Q2 {
      CodeAfterZero(s, base, e);
      RenormTrack(s, base, EmitZero(e));
    } else if e.low >= Q2 {
      CodeAfterOne(s, base, e);
      RenormTrack(s, base, EmitOne(e));
    } else if e.low >= Q1 && e.high <= Q3 {
      CodeAfterDefer(s, base, e);
      RenormTrack(s, base, Defer(e));
    }
  }

  /** Later intervals lie inside earlier ones. */
  lemma StepTrack(s: Stream, base: nat, e: Enc, slot: Slot)
    requires Settled(e.low, e.high) && ValidSlot(slot)
    ensures OnTrack(s, base, EncStep(e, slot)) ==> OnTrack(s, base, e) && OnTrack(s, base, Narrow(e, slot))
  {
    SlotsAreWide(e.low, e.high, slot);
    RenormTrack(s, base, Narrow(e, slot));
  }

  /** The decoder tests for the middle half before the lower half, so where the encoder emits a
      zero for an interval in the second quarter, the decoder subtracts Q1 instead. Until the
      encoder's next bit (a one) has been consumed, the decoder then runs Q2 below it. */
  predicate Deferred(s: Stream, base: nat, e: Enc, d: Dec) {
    && e.low >= Q2 && d.low == e.low - Q2 && d.high == e.high - Q2
    && d.value == Code(s, base, e) - Q2 && d.pos == base + M + 2 + Doublings(e)
  }

  lemma {:induction false} RenormInStep(s: Stream, base: nat, e: Enc, d: Dec)
    requires Interval(e.low, e.high) && OnTrack(s, base, e) && InStep(s, base, e, d)
    ensures InStep(s, base, EncRenorm(e), DecRenorm(d, s))
    decreases Q4 - (e.high - e.low)
  {
    if e.high <= Q2 {
      CodeAfterZero(s, base, e);
      if e.low >= Q1 {
        RenormDeferred(s, base, EmitZero(e), Consume(d, Q1, s));
      } else {
        RenormInStep(s, base, EmitZero(e), Consume(d, 0, s));
      }
    } else if e.low >= Q2 {
      CodeAfterOne(s, base, e);
      RenormInStep(s, base, EmitOne(e), Consume(d, Q2, s));
    } else if e.low >= Q1 && e.high <= Q3 {
      CodeAfterDefer(s, base, e);
      RenormInStep(s, base, Defer(e), Consume(d, Q1, s));
    }
  }

  lemma {:induction false} RenormDeferred(s: Stream, base: nat, e: Enc, d: Dec)
    requires Interval(e.low, e.high) && OnTrack(s, base, e) && Deferred(s, base, e, d)
    ensures InStep(s, base, EncRenorm(e), DecRenorm(d, s))
    decreases Q4 - (e.high - e.low)
  {
    CodeAfterOne(s, base, e);
    if d.low >= Q1 {
      RenormDeferred(s, base, EmitOne(e), Consume(d, Q1, s));
    } else {
      RenormInStep(s, base, EmitOne(e), Consume(d, 0, s));
    }
  }

  /** If the stream stays in the interval after coding `slot`, a decoder in step selects
      `slot` and is in step again afterwards. */
  lemma DecodesSlot(s: Stream, base: nat, e: Enc, d: Dec, slot: Slot)
    requires Settled(e.low, e.high) && ValidSlot(slot)
    requires InStep(s, base, e, d) && OnTrack(s, base, EncStep(e, slot))
    ensures ValidDec(d) && Selects(d, slot)
    ensures InStep(s, base, EncStep(e, slot), DecStep(d, slot, s))
  {
    StepTrack(s, base, e, slot);
    SlotsAreWide(e.low, e.high, slot);
    var n := Narrow(e, slot);
    RenormInStep(s, base, n, d.(low := n.low, high := n.high));
  }

  /** The stream starts, at `base`, with the given bits. */
  predicate Carries(s: Stream, base: nat, bits: seq<bool>) {
    forall i :: 0 <= i < |bits| ==> s(base + i) == bits[i]
  }

  lemma {:induction false} CarriedNumber(s: Stream, base: nat, bits: seq<bool>)
    requires Carries(s, base, bits)
    ensures Window(s, base, |bits|) == Number(bits)
  {
    if bits != [] {
      CarriedNumber(s, base, bits[..|bits| - 1]);
    }
  }

  lemma CarriedWindow(s: Stream, base: nat, bits: seq<bool>)
    requires Carries(s, base, bits)
    ensures Q1 * Number(bits) <= Window(s, base, |bits| + M) < Q1 * Number(bits) + Q1
  {
    CarriedNumber(s, base, bits);
    WindowBound(s, base, |bits|, M);
    Pow2Values();
  }

  /** The final bits, as a number: they fix the second or the third quarter. */
  lemma FinishNumber(e: Enc)
    ensures Q1 * Number(EncFinish(e)) == Offset(e) + if e.low >= Q1 then Q2 else Q1
  {
    var pending := Emit(e.bits, false, e.shifts);
    EmitSnoc(e.bits, false, e.shifts);
    NumberSnoc(pending, true);
    Carry(e.bits, e.shifts + 1);
  }

  /** Whatever follows the final bits, the stream lies in the last interval. */
  lemma FinishOnTrack(s: Stream, base: nat, e: Enc)
    requires Settled(e.low, e.high) && Carries(s, base, EncFinish(e))
    ensures OnTrack(s, base, e)
  {
    var bits := EncFinish(e);
    CarriedWindow(s, base, bits);
    FinishNumber(e);
    assert |bits| + M == M + 2 + Doublings(e);
  }

  lemma StartInStep(s: Stream, base: nat)
    ensures InStep(s, base, Enc(0, Q4, 0, []), DecStart(s, base)) && ValidDec(DecStart(s, base))
  {
    assert Emit([], false, 0) == [false];
    WindowBound(s, base, 0, M + 2);
    Pow2Values();
  }
}
