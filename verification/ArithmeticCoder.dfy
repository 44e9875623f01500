/** The arithmetic encoder and decoder as they run: counters, tables and bit buffers updated in
    place, every sum and product checked to fit the program's 32-bit unsigned long. */
module ArithmeticCoder {
  import opened Arithmetic
  import opened Bytes
  import opened BitIo
  import opened IntervalCoder
  import opened AdaptiveModel
  import opened TokenCoder

  /** The part of the interval that belongs to entry `k` of a table of cumulative sums. */
  method Share32(low: uint32, high: uint32, cum: array<nat>, k: nat, ghost freq: seq<nat>)
    returns (low': uint32, high': uint32)
    requires Settled(low, high) && 1 <= k < cum.Length == |freq| && Positive(freq) && Above(freq, 0) < Q1
    requires forall i :: 0 <= i < cum.Length ==> cum[i] == Above(freq, i)
    ensures var s := SlotAt(freq, k);
            && low' == Bound(low, high, s.lo, s.total)
            && high' == Bound(low, high, s.hi, s.total)
            && low <= low' < high' <= high
  {
    ghost var s := SlotAt(freq, k);
    SlotsAreWide(low, high, s);
    MulMono(high - low, high - low, s.lo, s.hi);
    var range: uint32 := high - low;
    var above: uint32 := range * cum[k - 1];
    var below: uint32 := range * cum[k];
    high' := low + above / cum[0];
    low' := low + below / cum[0];
  }

  class Encoder {
    const tables: Tables
    const writer: BitWriter
    var low: uint32
    var high: uint32
    var shifts: nat
    ghost const base: seq<bool>  // what the writer held before the first code bit

    /** The state `InitCompress` establishes, with the output memory holding `header`. */
    constructor (header: seq<byte>)
      ensures fresh(tables) && fresh(tables.Cells()) && fresh(writer) && tables.Shape()
      ensures tables.sym_to_char[0] == 0
      ensures Ready() && base == Unpack(header) && Coder() == EncInit.coder && writer.dbuff == header
    {
      tables := new Tables();
      writer := new BitWriter(header);
      low, high, shifts := 0, Q4, 0;
      base := Unpack(header);
    }

    ghost predicate Ready()
      reads this, writer
    {
      writer.Valid() && base <= writer.Bits() && Interval(low, high)
    }

    ghost function Coder(): Enc
      requires Ready()
      reads this, writer
    {
      Enc(low, high, shifts, writer.Bits()[|base|..])
    }

    ghost predicate Valid()
      reads this, writer, tables.Cells()
    {
      Ready() && Settled(low, high) && tables.Valid()
    }

    ghost function State(): (e: EncState)
      requires Valid()
      ensures ValidEnc(e)
      reads this, writer, tables.Cells()
    {
      EncState(Coder(), tables.View())
    }

    method Put(bit: bool)
      requires Ready()
      modifies writer
      ensures Ready() && Coder() == old(Coder()).(bits := old(Coder().bits) + [bit])
    {
      ghost var bits := Coder().bits;
      assert writer.Bits() == base + bits;
      writer.PutBit(bit);
      assert writer.Bits() == base + (bits + [bit]);
    }

    /** One bit, followed by the pending complements. */
    method Output(bit: bool)
      requires Ready()
      modifies this`shifts, writer
      ensures Ready() && Coder() == old(Coder()).(shifts := 0, bits := Emit(old(Coder().bits), bit, old(shifts)))
    {
      hide BitWriter.Valid, BitWriter.Bits, Interval;
      ghost var e := Coder();
      Put(bit);
      assert Emit(e.bits, bit, 0) == e.bits + [bit];
      while shifts > 0
        invariant Ready() && shifts <= e.shifts
        invariant Coder() == e.(shifts := shifts, bits := Emit(e.bits, bit, e.shifts - shifts))
      {
        EmitSnoc(e.bits, bit, e.shifts - shifts);
        Put(!bit);
        shifts := shifts - 1;
      }
    }

    method Renormalize()
      requires Ready()
      modifies this, writer
      ensures Ready() && Coder() == EncRenorm(old(Coder()))
    {
      hide BitWriter.Valid, BitWriter.Bits, Emit;
      ghost var goal := EncRenorm(Coder());
      while true
        invariant Ready() && EncRenorm(Coder()) == goal
        decreases Q4 - (high - low)
      {
        ghost var e := Coder();
        if high <= Q2 {
          Output(false);
        } else if low >= Q2 {
          Output(true);
          low, high := low - Q2, high - Q2;
        } else if low >= Q1 && high <= Q3 {
          shifts := shifts + 1;
          low, high := low - Q1, high - Q1;
        } else {
          break;
        }
        low, high := low + low, high + high;
        assert Coder() == if e.high <= Q2 then EmitZero(e) else if e.low >= Q2 then EmitOne(e) else Defer(e);
      }
    }

    method EncodeChar(ch: nat)
      requires Valid() && ch < N_CHAR
      modifies this, writer, tables.char_to_sym, tables.sym_to_char, tables.sym_freq, tables.sym_cum
      ensures Valid() && State() == TokenCoder.EncodeChar(old(State()), ch)
    {
      hide BitWriter.Valid, BitWriter.Bits, EncRenorm, Update;
      var sym := tables.char_to_sym[ch];
      low, high := Share32(low, high, tables.sym_cum, sym, tables.sym_freq[..]);
      Renormalize();
      tables.UpdateModel(sym);
    }

    method EncodePosition(position: nat)
      requires Valid() && position < N
      modifies this, writer
      ensures Valid() && State() == TokenCoder.EncodePosition(old(State()), position)
    {
      hide PositionFreq, ValidModel, BitWriter.Valid, BitWriter.Bits, EncRenorm;
      PositionTotal();
      low, high := Share32(low, high, tables.position_cum, position + 1, PositionFreq());
      Renormalize();
    }

    method EncodeEnd()
      requires Valid()
      modifies this, writer
      ensures base + EncFinish(old(State().coder)) <= Unpack(writer.dbuff)
    {
      ghost var e := Coder();
      shifts := shifts + 1;
      if low < Q1 {
        Output(false);
      } else {
        Output(true);
      }
      assert writer.Bits() == base + EncFinish(e);
      writer.FlushBitBuffer();
    }
  }

  ghost function StreamOf(bytes: seq<byte>): Stream {
    (i: nat) => StreamBit(bytes, i)
  }

  class Decoder {
    const tables: Tables
    const reader: BitReader
    var low: uint32
    var high: uint32
    var value: uint32

    /** The state `InitCompress` establishes, with the input pointer at `start`. */
    constructor (bytes: seq<byte>, start: nat)
      ensures fresh(tables) && fresh(tables.Cells()) && fresh(reader) && tables.Shape()
      ensures tables.sym_to_char[0] == 0
      ensures reader.Valid() && reader.rbuff == bytes && reader.Position() == 8 * start
      ensures low == 0 && high == Q4 && value == 0
    {
      tables := new Tables();
      reader := new BitReader(bytes, start);
      low, high, value := 0, Q4, 0;
    }

    ghost function Source(): Stream {
      StreamOf(reader.rbuff)
    }

    ghost predicate Ready()
      reads this, reader
    {
      reader.Valid() && Interval(low, high) && low <= value < high
    }

    ghost function Coder(): Dec
      requires Ready()
      reads this, reader
    {
      Dec(low, high, value, reader.Position())
    }

    ghost predicate Valid()
      reads this, reader, tables.Cells()
    {
      Ready() && Settled(low, high) && tables.Valid()
    }

    ghost function State(): (d: DecState)
      requires Valid()
      ensures ValidDecState(d)
      reads this, reader, tables.Cells()
    {
      DecState(Coder(), tables.View())
    }

    method StartDecode()
      requires reader.Valid() && low == 0 && high == Q4 && value == 0
      modifies this, reader
      ensures Ready() && Coder() == DecStart(Source(), old(reader.Position()))
    {
      ghost var base := reader.Position();
      hide Pow2;
      for i := 0 to M + 2
        invariant reader.Valid() && reader.Position() == base + i && low == 0 && high == Q4
        invariant value == Window(Source(), base, i)
        invariant i > 0 ==> value < Pow2(i)
      {
        WindowBound(Source(), base, 0, i + 1);
        Pow2Small(i + 1);
        var bit := reader.GetBit();
        value := 2 * value + bit;
      }
      Pow2Values();
    }

    /** Double the interval and take in the next bit. */
    method Double()
      requires reader.Valid() && low <= value < high <= low + Q2 && high <= Q2
      modifies this, reader
      ensures Ready() && Coder() == Consume(Dec(old(low), old(high), old(value), old(reader.Position())), 0, Source())
    {
      low, high := low + low, high + high;
      var bit := reader.GetBit();
      value := 2 * value + bit;
    }

    method Renormalize()
      requires Ready()
      modifies this, reader
      ensures Ready() && Coder() == DecRenorm(old(Coder()), Source())
    {
      hide BitReader.Valid, BitReader.Position;
      ghost var goal := DecRenorm(Coder(), Source());
      while true
        invariant Ready() && DecRenorm(Coder(), Source()) == goal
        decreases Q4 - (high - low)
      {
        ghost var d := Coder();
        if low >= Q2 {
          value, low, high := value - Q2, low - Q2, high - Q2;
        } else if low >= Q1 && high <= Q3 {
          value, low, high := value - Q1, low - Q1, high - Q1;
        } else if high > Q2 {
          break;
        }
        Double();
        assert Coder() == Consume(d, if d.low >= Q2 then Q2 else if d.low >= Q1 then Q1 else 0, Source());
      }
    }

    /** `((value - low + 1) * total - 1) / range`, within 32 bits. */
    method Scaled32(total: nat) returns (x: nat)
      requires Ready() && Settled(low, high) && 0 < total < Q1
      ensures x == LookUp(Coder(), total)
    {
      ProductFits(value - low + 1, total);
      ScaledBelow(value - low, high - low, total);
      var product: uint32 := (value - low + 1) * total;
      x := (product - 1) / (high - low);
    }

    /** Narrow the interval to entry `k` of a cumulative table and renormalise. */
    method Select(k: nat, cum: array<nat>, ghost freq: seq<nat>)
      requires Ready() && Settled(low, high) && 1 <= k < cum.Length == |freq| && Positive(freq) && Above(freq, 0) < Q1
      requires forall i :: 0 <= i < cum.Length ==> cum[i] == Above(freq, i)
      requires Selects(Coder(), SlotAt(freq, k))
      modifies this, reader
      ensures Ready() && Coder() == DecStep(old(Coder()), SlotAt(freq, k), Source())
    {
      low, high := Share32(low, high, cum, k, freq);
      Renormalize();
    }

    method DecodeChar() returns (ch: nat)
      requires Valid()
      modifies this, reader, tables.char_to_sym, tables.sym_to_char, tables.sym_freq, tables.sym_cum
      ensures Valid() && (ch, State()) == TokenCoder.DecodeChar(old(State()), Source())
    {
      TotalPositive(tables.sym_freq[..]);
      var x := Scaled32(tables.sym_cum[0]);
      var sym := tables.BinarySearchSym(x);
      assert sym == Selected(Coder(), tables.sym_freq[..]);
      Select(sym, tables.sym_cum, tables.sym_freq[..]);
      ch := tables.sym_to_char[sym];
      tables.UpdateModel(sym);
    }

    method DecodePosition() returns (position: nat)
      requires Valid()
      modifies this, reader
      ensures Valid() && (position, State()) == TokenCoder.DecodePosition(old(State()), Source())
    {
      position := SelectPosition();
      ghost var d := Coder();
      assert position == SelectedPosition(d);
      Select(position + 1, tables.position_cum, PositionFreq());
    }

    method SelectPosition() returns (position: nat)
      requires Ready() && Settled(low, high) && tables.Shape() && tables.PositionSums()
      ensures position < N && position == SelectedPosition(Coder())
    {
      PositionTotal();
      TotalPositive(PositionFreq());
      var x := Scaled32(tables.position_cum[0]);
      position := tables.BinarySearchPos(x);
    }
  }

  lemma {:induction false} Pow2Small(k: nat)
    requires k <= M + 2
    ensures Pow2(k) <= Q4
    decreases M + 2 - k
  {
    if k == M + 2 {
      Pow2Values();
    } else {
      Pow2Small(k + 1);
    }
  }
}
