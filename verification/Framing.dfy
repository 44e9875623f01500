/** The link layer of the uplink: packets with a CRC, and the byte-fed receiver with its poll timer. */
module Framing {
  import opened Bytes
  import opened Wrappers

  /** GetCRC16, whose tables are not modelled: any function from byte strings to words. */
  type Checksum = seq<byte> -> word

  const HEAD: byte := 0x68
  const TAIL: byte := 0x16

  // ----- Packets -----

  /** The big-endian length field at offsets 8 and 9. */
  function DataLen(s: seq<byte>): (n: nat)
    requires |s| >= 10
    ensures n < 0x1_0000
  {
    var hi: nat, lo: nat := s[8], s[9];
    hi * 256 + lo
  }

  /** Header and data of a packet to be sent: both head marks in place, the length field telling the truth. */
  predicate IsBody(s: seq<byte>) {
    |s| >= 10 && s[0] == HEAD && s[6] == HEAD && |s| == 10 + DataLen(s)
  }

  /** What `MakePacketG` turns it into: checksum, high byte first, and tail mark. */
  function Packet(body: seq<byte>, crc: Checksum): (p: seq<byte>)
    ensures |p| == |body| + 3
  {
    var c: nat := crc(body);
    body + [c / 256, c % 256, TAIL]
  }

  /** `CheckStreamOK` on a buffer long enough to have all fields. */
  predicate StreamOk(s: seq<byte>, crc: Checksum)
    requires |s| >= 7
  {
    && s[0] == HEAD && s[6] == HEAD && s[|s| - 1] == TAIL
    && var hi: nat, lo: nat := s[|s| - 3], s[|s| - 2];
       crc(s[..|s| - 3]) == hi * 256 + lo
  }

  // ----- The receiver as a value -----

  datatype Timer = Timer(cnt: nat, max: int, flag: bool)

  /** `buf` is what has been stored since the last reset; its length is the program's `cnt`. */
  datatype Fsm = Fsm(stat: nat, buf: seq<byte>, maxlen: nat, timer: Timer)

  function Clear(st: Fsm): Fsm {
    Fsm(0, [], 0, st.timer.(flag := false))
  }

  /** One poll of the receive timer. */
  function Tick(st: Fsm): Fsm {
    if !st.timer.flag then Fsm(0, [], 0, st.timer)
    else
      var st' := st.(timer := st.timer.(cnt := st.timer.cnt + 1));
      if st'.timer.cnt >= st'.timer.max then Clear(st') else st'
  }

  /** Does this byte complete a good packet? */
  predicate Completes(st: Fsm, uc: byte, crc: Checksum) {
    st.stat == 5 && uc == TAIL && 6 <= |st.buf| < 0xFFFF && StreamOk(st.buf + [uc], crc)
  }

  /** The receiver after one more byte. */
  function Step(st: Fsm, uc: byte, timeout: int): Fsm {
    var more := st.(buf := st.buf + [uc]);
    if st.stat == 0 then
      if uc == HEAD then Fsm(1, [uc], 6, Timer(0, timeout, true)) else st
    else if st.stat == 1 then
      if |more.buf| >= st.maxlen then more.(stat := 2, maxlen := 10) else more
    else if st.stat == 2 then
      if uc != HEAD then Clear(st) else more.(stat := 3)
    else if st.stat == 3 then
      if |more.buf| >= st.maxlen && |more.buf| >= 10 then
        more.(stat := 4, maxlen := (LastLen(more.buf) + 10 + 2) % 0x1_0000)
      else more
    else if st.stat == 4 then
      if |more.buf| >= st.maxlen then more.(stat := 5) else more
    else
      Clear(st)
  }

  /** The length field as the receiver reads it: the last two bytes stored. */
  function LastLen(s: seq<byte>): nat
    requires |s| >= 2
  {
    var hi: nat, lo: nat := s[|s| - 2], s[|s| - 1];
    hi * 256 + lo
  }

  /** Every reachable state: the counters fit the phase, and a state other than 0 means that the
      timer is running. */
  predicate Valid(st: Fsm) {
    && st.stat <= 5 && (st.stat != 0 <==> st.timer.flag)
    && (st.stat == 0 ==> st.buf == [] && st.maxlen == 0)
    && (st.stat != 0 ==> |st.buf| >= 1 && st.buf[0] == HEAD)
    && (st.stat == 1 ==> |st.buf| < 6 == st.maxlen)
    && (st.stat == 2 ==> |st.buf| == 6 && st.maxlen == 10)
    && (st.stat >= 3 ==> |st.buf| >= 7 && st.buf[6] == HEAD)
    && (st.stat == 3 ==> |st.buf| < 10 == st.maxlen)
    && (st.stat >= 4 ==> |st.buf| >= 10 && st.maxlen == (DataLen(st.buf) + 12) % 0x1_0000)
    && (st.stat == 4 ==> |st.buf| == 10 || |st.buf| < st.maxlen)
    && (st.stat == 5 ==> |st.buf| >= 11 && (|st.buf| == st.maxlen || (|st.buf| == 11 && st.maxlen < 11)))
  }

  lemma TickValid(st: Fsm)
    requires Valid(st)
    ensures Valid(Tick(st))
  {
  }

  lemma StepValid(st: Fsm, uc: byte, timeout: int)
    requires Valid(st)
    ensures Valid(Step(st, uc, timeout))
  {
    var more := st.buf + [uc];
    assert |st.buf| >= 10 ==> DataLen(more) == DataLen(st.buf);
    assert |more| == 10 ==> LastLen(more) == DataLen(more);
  }

  // ----- What is accepted -----

  /** The buffer accepted with the tail byte. */
  lemma AcceptedShape(st: Fsm, uc: byte, crc: Checksum)
    requires Valid(st) && Completes(st, uc, crc)
    ensures var s := st.buf + [uc];
            && |s| >= 12
            && DataLen(s) == DataLen(st.buf)
            && (|s| == DataLen(s) + 13 <==> DataLen(s) + 12 < 0x1_0000)
  {
  }

  /** An accepted buffer is exactly the packet made from its own header and data - provided its
      declared length keeps the 16-bit length counter from wrapping round, and only then. */
  lemma AcceptedIsPacket(st: Fsm, uc: byte, crc: Checksum)
    requires Valid(st) && Completes(st, uc, crc)
    ensures var s := st.buf + [uc];
            DataLen(s) + 12 < 0x1_0000 <==> IsBody(s[..|s| - 3]) && s == Packet(s[..|s| - 3], crc)
  {
    var s := st.buf + [uc];
    AcceptedShape(st, uc, crc);
    if DataLen(s) + 12 < 0x1_0000 {
      var hi: nat, lo: nat := s[|s| - 3], s[|s| - 2];
      assert (hi * 256 + lo) / 256 == hi && (hi * 256 + lo) % 256 == lo;
      assert s == s[..|s| - 3] + [s[|s| - 3], s[|s| - 2], s[|s| - 1]];
    } else if |s| >= 13 {
      assert DataLen(s[..|s| - 3]) == DataLen(s);
    }
  }

  // ----- Polls -----

  /** Take bytes from the queue until it is empty or a packet is complete. */
  function Drain(st: Fsm, queue: seq<byte>, crc: Checksum, timeout: int): (r: (Fsm, seq<byte>, Option<seq<byte>>))
    ensures |r.1| <= |queue| && (r.2 == None ==> r.1 == []) && (r.2.Some? ==> |r.1| < |queue|)
    decreases |queue|
  {
    if queue == [] then (st, [], None)
    else if Completes(st, queue[0], crc) then (Clear(st), queue[1..], Some(st.buf + [queue[0]]))
    else Drain(Step(st, queue[0], timeout), queue[1..], crc, timeout)
  }

  /** One call of `UplinkRecvPkt`. */
  function Poll(st: Fsm, queue: seq<byte>, crc: Checksum, timeout: int): (r: (Fsm, seq<byte>, Option<seq<byte>>))
    ensures r.2 == None ==> r.1 == []
  {
    Drain(Tick(st), queue, crc, timeout)
  }

  /** The receiver, the bytes still queued and the packets delivered before poll `k`, when
      `arrivals[i]` is what comes in just before poll `i`. */
  datatype Run = Run(st: Fsm, queue: seq<byte>, delivered: seq<seq<byte>>)

  const Idle := Fsm(0, [], 0, Timer(0, 0, false))

  function RunTo(arrivals: seq<seq<byte>>, crc: Checksum, timeout: int, k: nat): Run
    requires k <= |arrivals|
  {
    if k == 0 then Run(Idle, [], [])
    else
      var r := RunTo(arrivals, crc, timeout, k - 1);
      var (st, queue, packet) := Poll(r.st, r.queue + arrivals[k - 1], crc, timeout);
      Run(st, queue, if packet.Some? then r.delivered + [packet.value] else r.delivered)
  }

  // ----- One packet -----

  /** The state after the first `n` bytes of a packet, the timer started when its first byte came. */
  predicate Inside(st: Fsm, p: seq<byte>, n: nat) {
    && 1 <= n < |p| && st.timer.flag && st.buf == p[..n]
    && st.stat == (if n < 6 then 1 else if n == 6 then 2 else if n < 10 then 3 else if n < |p| - 1 then 4 else 5)
    && st.maxlen == (if n < 6 then 6 else if n < 10 then 10 else |p| - 1)
  }

  /** A well-formed packet whose length the receiver can count. */
  predicate IsPacket(p: seq<byte>, crc: Checksum) {
    |p| >= 13 && IsBody(p[..|p| - 3]) && p == Packet(p[..|p| - 3], crc) && |p| < 0x1_0000
  }

  lemma PacketFields(p: seq<byte>, crc: Checksum)
    requires IsPacket(p, crc)
    ensures p[0] == HEAD && p[6] == HEAD && p[|p| - 1] == TAIL && |p| == DataLen(p) + 13
    ensures StreamOk(p, crc)
  {
    var body := p[..|p| - 3];
    assert p[0] == body[0] && p[6] == body[6] && p[8] == body[8] && p[9] == body[9];
    var c: nat := crc(body);
    assert p[|p| - 3] == c / 256 && p[|p| - 2] == c % 256;
  }

  /** A packet byte by byte: two marks 0x68, the length high byte first, the checksum of all before it
      high byte first, and the mark 0x16. */
  lemma PacketLayout(p: seq<byte>, crc: Checksum)
    requires 13 <= |p| < 0x1_0000
    ensures IsPacket(p, crc) <==>
              var n := |p|;
              && p[0] == 0x68 && p[6] == 0x68 && p[n - 1] == 0x16
              && (p[8] as nat) * 256 + (p[9] as nat) == n - 13
              && (p[n - 3] as nat) * 256 + (p[n - 2] as nat) == crc(p[..n - 3])
  {
    var n, body := |p|, p[..|p| - 3];
    var hi: nat, lo: nat, c: nat := p[n - 3], p[n - 2], crc(body);
    assert p[0] == body[0] && p[6] == body[6] && p[8] == body[8] && p[9] == body[9];
    assert p == body + [p[n - 3], p[n - 2], p[n - 1]];
    assert (hi * 256 + lo) / 256 == hi && (hi * 256 + lo) % 256 == lo && c / 256 * 256 + c % 256 == c;
    assert Packet(body, crc)[n - 3] == c / 256 && Packet(body, crc)[n - 2] == c % 256 && Packet(body, crc)[n - 1] == TAIL;
  }

  lemma FirstByte(st: Fsm, p: seq<byte>, crc: Checksum, timeout: int)
    requires IsPacket(p, crc) && st.stat == 0
    ensures !Completes(st, p[0], crc)
    ensures Inside(Step(st, p[0], timeout), p, 1) && Step(st, p[0], timeout).timer == Timer(0, timeout, true)
  {
    PacketFields(p, crc);
    assert p[..1] == [p[0]];
  }

  lemma NextByte(st: Fsm, p: seq<byte>, n: nat, crc: Checksum, timeout: int)
    requires IsPacket(p, crc) && Inside(st, p, n)
    ensures n < |p| - 1 ==> !Completes(st, p[n], crc) && Inside(Step(st, p[n], timeout), p, n + 1)
                            && Step(st, p[n], timeout).timer == st.timer
    ensures n == |p| - 1 ==> Completes(st, p[n], crc) && st.buf + [p[n]] == p
  {
    PacketFields(p, crc);
    assert p[..n + 1] == st.buf + [p[n]];
    if n == 9 {
      assert LastLen(p[..10]) == DataLen(p);
    }
    if n == |p| - 1 {
      assert p[..n + 1] == p;
    }
  }

  // ----- Whole runs -----

  /** The bytes that have arrived before poll `k`. */
  function Arrived(arrivals: seq<seq<byte>>, k: nat): seq<byte>
    requires k <= |arrivals|
  {
    if k == 0 then [] else Arrived(arrivals, k - 1) + arrivals[k - 1]
  }

  /** How many bytes have arrived before poll `k`; after the last poll nothing more comes. */
  function Count(arrivals: seq<seq<byte>>, k: nat): nat {
    |Arrived(arrivals, if k <= |arrivals| then k else |arrivals|)|
  }

  lemma {:induction false} ArrivedGrows(arrivals: seq<seq<byte>>, i: nat, k: nat)
    requires i <= k <= |arrivals|
    ensures Arrived(arrivals, i) <= Arrived(arrivals, k)
    decreases k
  {
    if i < k {
      ArrivedGrows(arrivals, i, k - 1);
    }
  }

  lemma CountGrows(arrivals: seq<seq<byte>>, i: nat, k: nat)
    requires i <= k
    ensures Count(arrivals, i) <= Count(arrivals, k)
  {
    var m := if i <= |arrivals| then i else |arrivals|;
    var n := if k <= |arrivals| then k else |arrivals|;
    ArrivedGrows(arrivals, m, n);
  }

  /** Packets laid out in a byte stream: where each starts. In between there may be noise, and
      beginnings of packets that were broken off. */
  datatype Layout = Layout(stream: seq<byte>, starts: seq<nat>, packets: seq<seq<byte>>) {
    /** Where packet `m` starts; beyond the last one, the end of the stream. */
    function Start(m: nat): nat
      requires |starts| == |packets|
    {
      if m < |packets| then starts[m] else |stream|
    }

    /** Where packet `m` ends. */
    function End(m: nat): nat
      requires |starts| == |packets| && m < |packets|
    {
      starts[m] + |packets[m]|
    }

    /** Where the packet before `m` ends. */
    function Before(m: nat): nat
      requires |starts| == |packets| && m <= |packets|
    {
      if m == 0 then 0 else End(m - 1)
    }

    /** No piece of the gap before packet `m`, or at the end, passes the receiver's check. */
    ghost predicate GapAt(m: nat, crc: Checksum)
      requires |starts| == |packets| && m <= |packets|
    {
      && Before(m) <= Start(m) <= |stream|
      && forall a, b :: Before(m) <= a && a + 12 <= b <= Start(m) ==> !StreamOk(stream[a..b], crc)
    }

    ghost predicate PacketAt(m: nat, crc: Checksum)
      requires |starts| == |packets| && m < |packets|
    {
      IsPacket(packets[m], crc) && End(m) <= |stream| && stream[starts[m]..End(m)] == packets[m]
    }

    ghost predicate Valid(crc: Checksum) {
      && |starts| == |packets|
      && (forall m :: 0 <= m <= |packets| ==> GapAt(m, crc))
      && (forall m :: 0 <= m < |packets| ==> PacketAt(m, crc))
    }

    /** Position `h` of the gap before packet `m` looks like the beginning of a packet. */
    predicate HeadIn(m: nat, h: nat)
      requires |starts| == |packets| && m <= |packets|
    {
      Before(m) <= h < Start(m) && h < |stream| && stream[h] == HEAD
    }
  }

  /** Once the first byte of a packet is there, the rest arrives in fewer than `timeout` later polls. */
  ghost predicate Timely(l: Layout, arrivals: seq<seq<byte>>, timeout: nat)
    requires |l.starts| == |l.packets|
  {
    forall m, i: nat :: 0 <= m < |l.packets| ==> TimelyFrom(l, arrivals, timeout, m, i)
  }

  ghost predicate TimelyFrom(l: Layout, arrivals: seq<seq<byte>>, timeout: nat, m: nat, i: nat)
    requires |l.starts| == |l.packets| && m < |l.packets|
  {
    l.starts[m] < Count(arrivals, i + 1) ==> l.End(m) <= Count(arrivals, i + timeout)
  }

  /** How many bytes the receiver has taken before poll `k`. */
  function Taken(arrivals: seq<seq<byte>>, crc: Checksum, timeout: int, k: nat): int
    requires k <= |arrivals|
  {
    Count(arrivals, k) - |RunTo(arrivals, crc, timeout, k).queue|
  }

  /** How many polls it takes the timer, once started, to run out. */
  function Lifetime(timeout: nat): nat {
    if timeout == 0 then 1 else timeout
  }

  /** After something in a gap that looks like the beginning of a packet has been taken, the next
      packet's first byte comes only when the timer has run out. */
  ghost predicate Settles(l: Layout, arrivals: seq<seq<byte>>, crc: Checksum, timeout: nat)
    requires |l.starts| == |l.packets|
  {
    forall m, h, i | 0 <= m < |l.packets| && 0 <= h && 0 <= i < |arrivals| ::
      l.HeadIn(m, h) && TakenIn(arrivals, crc, timeout, h, i) ==> Count(arrivals, i + Lifetime(timeout)) <= l.starts[m]
  }

  /** Byte `h` of the stream is taken in poll `i`. */
  predicate TakenIn(arrivals: seq<seq<byte>>, crc: Checksum, timeout: int, h: int, i: nat)
    requires i < |arrivals|
  {
    Taken(arrivals, crc, timeout, i) <= h < Taken(arrivals, crc, timeout, i + 1)
  }

  /** Where nothing in the gaps looks like a beginning, this asks for nothing, and the gaps are in order. */
  lemma NoiseIsHarmless(l: Layout, arrivals: seq<seq<byte>>, crc: Checksum, timeout: nat)
    requires |l.starts| == |l.packets|
    requires forall m :: 0 <= m <= |l.packets| ==> l.Before(m) <= l.Start(m) <= |l.stream|
    requires forall m, h :: 0 <= m <= |l.packets| && 0 <= h ==> !l.HeadIn(m, h)
    ensures Settles(l, arrivals, crc, timeout)
    ensures forall m :: 0 <= m <= |l.packets| ==> l.GapAt(m, crc)
  {
    forall m, a, b | 0 <= m <= |l.packets| && l.Before(m) <= a && a + 12 <= b <= l.Start(m)
      ensures !StreamOk(l.stream[a..b], crc)
    {
      assert !l.HeadIn(m, a);
    }
  }

  lemma {:induction false} DrainNoise(st: Fsm, queue: seq<byte>, n: nat, crc: Checksum, timeout: int)
    requires st.stat == 0 && n <= |queue| && forall x :: 0 <= x < n ==> queue[x] != HEAD
    ensures Drain(st, queue, crc, timeout) == Drain(st, queue[n..], crc, timeout)
    decreases n
  {
    if n == 0 {
      assert queue[0..] == queue;
    } else {
      DrainNoise(st, queue[1..], n - 1, crc, timeout);
      assert queue[1..][n - 1..] == queue[n..];
    }
  }

  /** Bytes of one packet: the receiver stays inside it, or completes it and leaves what follows. */
  lemma {:induction false} DrainPacket(st: Fsm, p: seq<byte>, n: nat, queue: seq<byte>, crc: Checksum, timeout: int)
    requires IsPacket(p, crc) && Inside(st, p, n)
    requires forall x :: 0 <= x < |queue| && n + x < |p| ==> queue[x] == p[n + x]
    ensures var (st', queue', packet) := Drain(st, queue, crc, timeout);
            if n + |queue| < |p| then packet == None && Inside(st', p, n + |queue|) && st'.timer == st.timer
            else packet == Some(p) && queue' == queue[|p| - n..] && st'.stat == 0 && !st'.timer.flag
    decreases |queue|
  {
    if queue != [] {
      NextByte(st, p, n, crc, timeout);
      if n < |p| - 1 {
        assert forall x :: 0 <= x < |queue[1..]| && n + 1 + x < |p| ==> queue[1..][x] == queue[x + 1] == p[n + (x + 1)];
        DrainPacket(Step(st, p[n], timeout), p, n + 1, queue[1..], crc, timeout);
        if n + |queue| >= |p| {
          assert queue[1..][|p| - (n + 1)..] == queue[|p| - n..];
        }
      }
    }
  }

  // ----- Beginnings that were broken off -----

  /** The receiver has stored the last bytes of the gap before packet `m`, up to `x`, as the beginning
      of a packet. */
  ghost predicate Astray(l: Layout, m: nat, st: Fsm, x: nat)
    requires |l.starts| == |l.packets| && m <= |l.packets|
  {
    && st.stat != 0 && x <= l.Start(m) && x <= |l.stream|
    && l.Before(m) + |st.buf| <= x && st.buf == l.stream[x - |st.buf|..x]
  }

  /** One byte of a gap completes no packet. It may begin one, which starts the timer. */
  lemma GarbageByte(l: Layout, m: nat, st: Fsm, x: nat, crc: Checksum, timeout: int)
    requires l.Valid(crc) && m <= |l.packets| && l.Before(m) <= x < l.Start(m) && x < |l.stream|
    requires Valid(st) && (st.stat == 0 || Astray(l, m, st, x))
    ensures !Completes(st, l.stream[x], crc)
    ensures var st' := Step(st, l.stream[x], timeout);
            && Valid(st') && (st'.stat == 0 || Astray(l, m, st', x + 1))
            && (st'.stat != 0 && st.stat != 0 ==> st'.timer == st.timer)
            && (st'.stat != 0 && st.stat == 0 ==> st'.timer == Timer(0, timeout, true) && l.HeadIn(m, x))
  {
    NoneCompletes(l, m, st, x, crc);
    StepHolding(l.stream, st, x, timeout);
    hide Completes, Layout.Valid, StreamOk;
  }

  lemma NoneCompletes(l: Layout, m: nat, st: Fsm, x: nat, crc: Checksum)
    requires l.Valid(crc) && m <= |l.packets| && l.Before(m) <= x < l.Start(m) && x < |l.stream|
    requires Valid(st) && (st.stat == 0 || Astray(l, m, st, x))
    ensures !Completes(st, l.stream[x], crc)
  {
    assert l.GapAt(m, crc);
    hide StreamOk, Layout.Valid;
    if st.stat != 0 {
      assert st.buf + [l.stream[x]] == l.stream[x - |st.buf|..x + 1];
    }
  }

  /** Bytes of a gap: they are all taken and complete nothing. What they leave begun was begun before,
      or in this poll by a byte that looks like the beginning of a packet. */
  lemma {:induction false} DrainGarbage(l: Layout, m: nat, st: Fsm, x: nat, y: nat, crc: Checksum, timeout: int)
    requires l.Valid(crc) && m <= |l.packets| && l.Before(m) <= x <= y <= l.Start(m) && y <= |l.stream|
    requires Valid(st) && (st.stat == 0 || Astray(l, m, st, x))
    ensures var (st', queue', packet) := Drain(st, l.stream[x..y], crc, timeout);
            && queue' == [] && packet == None && Valid(st') && (st'.stat == 0 || Astray(l, m, st', y))
            && (st'.stat != 0 ==>
                  || (st.stat != 0 && st'.timer == st.timer)
                  || (st'.timer == Timer(0, timeout, true) && exists h :: x <= h < y && l.HeadIn(m, h)))
    decreases y - x
  {
    hide Step, Completes, Layout.Valid, Valid, Astray;
    if x == y {
      assert l.stream[x..y] == [];
    } else {
      GarbageByte(l, m, st, x, crc, timeout);
      DrainGarbage(l, m, Step(st, l.stream[x], timeout), x + 1, y, crc, timeout);
      assert l.stream[x..y][1..] == l.stream[x + 1..y];
    }
  }

  /** Bytes that complete nothing are taken before the others. */
  lemma {:induction false} DrainSplits(st: Fsm, a: seq<byte>, b: seq<byte>, crc: Checksum, timeout: int)
    requires Drain(st, a, crc, timeout).2 == None
    ensures Drain(st, a + b, crc, timeout) == Drain(Drain(st, a, crc, timeout).0, b, crc, timeout)
    decreases |a|
  {
    hide Step, Completes;
    if a == [] {
      assert a + b == b;
    } else {
      assert (a + b)[0] == a[0] && (a + b)[1..] == a[1..] + b;
      DrainSplits(Step(st, a[0], timeout), a[1..], b, crc, timeout);
    }
  }

  /** Whatever follows it, a gap is taken to its end. */
  lemma GapIsTaken(l: Layout, m: nat, st: Fsm, x: nat, y: nat, crc: Checksum, timeout: int)
    requires l.Valid(crc) && m < |l.packets| && l.Before(m) <= x <= l.starts[m] <= y <= |l.stream|
    requires Valid(st) && st.stat == 0
    ensures |Drain(st, l.stream[x..y], crc, timeout).1| <= y - l.starts[m]
  {
    var s := l.starts[m];
    DrainGarbage(l, m, st, x, s, crc, timeout);
    hide Drain;
    DrainSplits(st, l.stream[x..s], l.stream[s..y], crc, timeout);
    assert l.stream[x..s] + l.stream[s..y] == l.stream[x..y];
  }

  /** From a gap in which nothing more looks like a beginning, into packet `m`. */
  lemma DrainGap(l: Layout, m: nat, st: Fsm, x: nat, y: nat, crc: Checksum, timeout: int)
    requires l.Valid(crc) && m < |l.packets| && st.stat == 0
    requires l.Before(m) <= x <= l.starts[m] < y <= |l.stream| && forall h :: x <= h < l.starts[m] ==> l.stream[h] != HEAD
    ensures var (st', queue', packet) := Drain(st, l.stream[x..y], crc, timeout);
            if y < l.End(m) then
              packet == None && Inside(st', l.packets[m], y - l.starts[m]) && st'.timer == Timer(0, timeout, true)
            else packet == Some(l.packets[m]) && queue' == l.stream[l.End(m)..y] && st'.stat == 0 && !st'.timer.flag
  {
    hide IsPacket, Drain;
    var queue, n := l.stream[x..y], l.starts[m] - x;
    assert forall j :: 0 <= j < n ==> queue[j] == l.stream[x + j];
    DrainNoise(st, queue, n, crc, timeout);
    assert queue[n..] == l.stream[l.starts[m]..y];
    DrainFirst(l, m, st, y, crc, timeout);
  }

  /** From the first byte of packet `m`. */
  lemma DrainFirst(l: Layout, m: nat, st: Fsm, y: nat, crc: Checksum, timeout: int)
    requires l.Valid(crc) && m < |l.packets| && st.stat == 0 && l.starts[m] < y <= |l.stream|
    ensures var (st', queue', packet) := Drain(st, l.stream[l.starts[m]..y], crc, timeout);
            if y < l.End(m) then
              packet == None && Inside(st', l.packets[m], y - l.starts[m]) && st'.timer == Timer(0, timeout, true)
            else packet == Some(l.packets[m]) && queue' == l.stream[l.End(m)..y] && st'.stat == 0 && !st'.timer.flag
  {
    hide IsPacket, Inside, Step;
    assert l.PacketAt(m, crc);
    var p, a := l.packets[m], l.starts[m];
    assert forall i :: 0 <= i < |p| ==> p[i] == l.stream[a + i];
    FirstByte(st, p, crc, timeout);
    var rest := l.stream[a + 1..y];
    assert l.stream[a..y][1..] == rest;
    DrainPacket(Step(st, p[0], timeout), p, 1, rest, crc, timeout);
    if y >= l.End(m) {
      assert rest[|p| - 1..] == l.stream[l.End(m)..y];
    }
  }

  // ----- Poll by poll -----

  /** Where a run stands before poll `k`, with `m` packets delivered: in the gap before packet `m`, or,
      with nothing queued, since poll `i` at something begun there, or since poll `i` inside packet `m`. */
  ghost predicate Stands(l: Layout, arrivals: seq<seq<byte>>, crc: Checksum, timeout: nat, k: nat, m: nat, i: nat)
    requires l.Valid(crc) && k <= |arrivals|
  {
    var r := RunTo(arrivals, crc, timeout, k);
    var c := Count(arrivals, k);
    && m <= |l.packets| && r.delivered == l.packets[..m]
    && |r.queue| <= c <= |l.stream| && r.queue == l.stream[c - |r.queue|..c]
    && Valid(r.st)
    && var x := c - |r.queue|;
       if r.st.stat == 0 then l.Before(m) <= x <= l.Start(m)
       else
         && r.queue == [] && i < k && r.st.timer == Timer(k - 1 - i, timeout, true)
         && if x <= l.Start(m) then
              Astray(l, m, r.st, x) && (m < |l.packets| ==> Count(arrivals, i + Lifetime(timeout)) <= l.starts[m])
            else
              m < |l.packets| && Inside(r.st, l.packets[m], x - l.starts[m]) && l.starts[m] < Count(arrivals, i + 1)
  }

  lemma GapBounds(l: Layout, crc: Checksum, m: nat)
    requires l.Valid(crc) && m <= |l.packets|
    ensures l.Before(m) <= l.Start(m) <= |l.stream|
  {
    assert l.GapAt(m, crc);
  }

  lemma RunNext(arrivals: seq<seq<byte>>, crc: Checksum, timeout: nat, k: nat, queue: seq<byte>)
    requires k < |arrivals| && queue == RunTo(arrivals, crc, timeout, k).queue + arrivals[k]
    ensures var r := RunTo(arrivals, crc, timeout, k);
            var (st, queue', packet) := Drain(Tick(r.st), queue, crc, timeout);
            RunTo(arrivals, crc, timeout, k + 1) ==
            Run(st, queue', if packet.Some? then r.delivered + [packet.value] else r.delivered)
  {
  }

  /** The queue a poll finds, as a piece of the stream. */
  lemma QueueAt(l: Layout, arrivals: seq<seq<byte>>, crc: Checksum, timeout: nat, k: nat, m: nat, i: nat) returns (x: nat)
    requires l.Valid(crc) && l.stream == Arrived(arrivals, |arrivals|)
    requires k < |arrivals| && Stands(l, arrivals, crc, timeout, k, m, i)
    ensures var r := RunTo(arrivals, crc, timeout, k);
            && x == Taken(arrivals, crc, timeout, k) && Count(arrivals, k) <= Count(arrivals, k + 1) <= |l.stream|
            && x <= Count(arrivals, k)
            && r.queue + arrivals[k] == l.stream[x..Count(arrivals, k + 1)]
  {
    hide Inside, Astray, Valid, Lifetime, RunTo, Layout.Valid;
    var r := RunTo(arrivals, crc, timeout, k);
    var c, y := Count(arrivals, k), Count(arrivals, k + 1);
    x := c - |r.queue|;
    ArrivedGrows(arrivals, k, |arrivals|);
    ArrivedGrows(arrivals, k + 1, |arrivals|);
    assert Arrived(arrivals, k + 1) == l.stream[..y] && Arrived(arrivals, k) == l.stream[..c];
    assert arrivals[k] == l.stream[..y][c..] == l.stream[c..y];
    assert l.stream[x..c] + l.stream[c..y] == l.stream[x..y];
  }

  /** Before poll `k`, with nothing queued: in the gap, idle or at something begun in it since poll `i`. */
  ghost predicate RestsInGap(l: Layout, arrivals: seq<seq<byte>>, timeout: nat, r: Run, k: nat, m: nat, i: nat)
    requires |l.starts| == |l.packets| && m <= |l.packets|
  {
    var c := Count(arrivals, k);
    && l.Before(m) <= c <= l.Start(m) && c <= |l.stream|
    && r.delivered == l.packets[..m] && r.queue == [] && Valid(r.st)
    && (r.st.stat != 0 ==>
          && Astray(l, m, r.st, c) && i < k && r.st.timer == Timer(k - 1 - i, timeout, true)
          && (m < |l.packets| ==> Count(arrivals, i + Lifetime(timeout)) <= l.starts[m]))
  }

  /** Inside packet `m` since poll `i`, or just behind it. */
  ghost predicate ReachesPacket(l: Layout, arrivals: seq<seq<byte>>, timeout: nat, r: Run, k: nat, m: nat, i: nat)
    requires |l.starts| == |l.packets| && m < |l.packets|
  {
    var c := Count(arrivals, k);
    && l.starts[m] < c <= |l.stream| && Valid(r.st)
    && if c < l.End(m) then
         && r.delivered == l.packets[..m] && r.queue == [] && Inside(r.st, l.packets[m], c - l.starts[m])
         && i < k && l.starts[m] < Count(arrivals, i + 1) && r.st.timer == Timer(k - 1 - i, timeout, true)
       else
         r.delivered == l.packets[..m] + [l.packets[m]] && r.queue == l.stream[l.End(m)..c] && r.st.stat == 0
  }

  lemma StandsInGap(l: Layout, arrivals: seq<seq<byte>>, crc: Checksum, timeout: nat, k: nat, m: nat, i: nat)
    requires l.Valid(crc) && k <= |arrivals| && m <= |l.packets|
    requires RestsInGap(l, arrivals, timeout, RunTo(arrivals, crc, timeout, k), k, m, i)
    ensures Stands(l, arrivals, crc, timeout, k, m, i)
  {
    hide RunTo, Count, IsPacket, Inside, Astray, Valid, Lifetime, Layout.Valid, Layout.PacketAt, Layout.GapAt;
  }

  lemma StandsAtPacket(l: Layout, arrivals: seq<seq<byte>>, crc: Checksum, timeout: nat, k: nat, m: nat, i: nat) returns (m': nat)
    requires l.Valid(crc) && k <= |arrivals| && m < |l.packets|
    requires ReachesPacket(l, arrivals, timeout, RunTo(arrivals, crc, timeout, k), k, m, i)
    ensures Stands(l, arrivals, crc, timeout, k, m', i)
  {
    if Count(arrivals, k) < l.End(m) {
      m' := m;
      hide RunTo, Count, IsPacket, Valid, Lifetime, Layout.PacketAt, Layout.GapAt;
    } else {
      m' := m + 1;
      GapBounds(l, crc, m + 1);
      hide RunTo, Count, IsPacket, Inside, Valid, Lifetime, Layout.Valid, Layout.PacketAt, Layout.GapAt;
      assert l.packets[..m + 1] == l.packets[..m] + [l.packets[m]];
    }
  }

  /** The state a poll leaves is valid. */
  lemma {:induction false} DrainValid(st: Fsm, queue: seq<byte>, crc: Checksum, timeout: int)
    requires Valid(st)
    ensures Valid(Drain(st, queue, crc, timeout).0)
    decreases |queue|
  {
    hide Step, Completes;
    if queue != [] {
      if Completes(st, queue[0], crc) {
        assert Valid(Clear(st));
      } else {
        StepValid(st, queue[0], timeout);
        hide Valid;
        DrainValid(Step(st, queue[0], timeout), queue[1..], crc, timeout);
      }
    }
  }

  /** If something in the gap was taken in poll `k` that looks like a beginning, the next packet waits. */
  lemma HeadSettles(l: Layout, arrivals: seq<seq<byte>>, crc: Checksum, timeout: nat, k: nat, m: nat, h: nat)
    requires |l.starts| == |l.packets| && Settles(l, arrivals, crc, timeout) && k < |arrivals| && m < |l.packets|
    requires l.HeadIn(m, h)
    requires Taken(arrivals, crc, timeout, k) <= h < Count(arrivals, k + 1) - |RunTo(arrivals, crc, timeout, k + 1).queue|
    ensures Count(arrivals, k + 1) <= Count(arrivals, k + Lifetime(timeout)) <= l.starts[m]
  {
    assert TakenIn(arrivals, crc, timeout, h, k);
    hide RunTo, Count, Layout.HeadIn, TakenIn, Taken;
    CountGrows(arrivals, k + 1, k + Lifetime(timeout));
  }

  /** What has been taken reaches at least into the gap before packet `m`. */
  lemma BeforeTaken(l: Layout, arrivals: seq<seq<byte>>, crc: Checksum, timeout: nat, k: nat, m: nat, i: nat)
    requires l.Valid(crc) && k <= |arrivals| && Stands(l, arrivals, crc, timeout, k, m, i)
    ensures |l.starts| == |l.packets| && m <= |l.packets| && l.Before(m) <= Taken(arrivals, crc, timeout, k)
    ensures RunTo(arrivals, crc, timeout, k).delivered == l.packets[..m] && Valid(RunTo(arrivals, crc, timeout, k).st)
    ensures l.Before(m) <= l.Start(m) <= |l.stream|
  {
    GapBounds(l, crc, m);
    hide RunTo, Count, Valid, Lifetime, Layout.Valid, IsPacket;
  }

  /** A poll takes what follows in the stream. */
  lemma OnePoll(l: Layout, arrivals: seq<seq<byte>>, crc: Checksum, timeout: nat, k: nat, m: nat, i: nat) returns (x: nat)
    requires l.Valid(crc) && l.stream == Arrived(arrivals, |arrivals|)
    requires k < |arrivals| && Stands(l, arrivals, crc, timeout, k, m, i)
    ensures |l.starts| == |l.packets| && m <= |l.packets| && l.Before(m) <= x && l.Before(m) <= l.Start(m) <= |l.stream|
    ensures x == Taken(arrivals, crc, timeout, k) && x <= Count(arrivals, k) <= Count(arrivals, k + 1) <= |l.stream|
    ensures var r, r', y := RunTo(arrivals, crc, timeout, k), RunTo(arrivals, crc, timeout, k + 1), Count(arrivals, k + 1);
            && r.queue + arrivals[k] == l.stream[x..y] && Valid(r.st) && Valid(Tick(r.st)) && r.delivered == l.packets[..m]
            && var (st, queue, packet) := Drain(Tick(r.st), l.stream[x..y], crc, timeout);
               && r'.st == st && r'.queue == queue && Valid(st)
               && r'.delivered == if packet.Some? then l.packets[..m] + [packet.value] else l.packets[..m]
  {
    hide *;
    x := QueueAt(l, arrivals, crc, timeout, k, m, i);
    BeforeTaken(l, arrivals, crc, timeout, k, m, i);
    var st, queue := RunTo(arrivals, crc, timeout, k).st, l.stream[x..Count(arrivals, k + 1)];
    TickValid(st);
    DrainValid(Tick(st), queue, crc, timeout);
    RunNext(arrivals, crc, timeout, k, queue);
  }

  /** One poll that takes only bytes of a gap: what it leaves begun was begun before, or by a byte
      after which the next packet waits. */
  lemma PollGarbage(l: Layout, arrivals: seq<seq<byte>>, crc: Checksum, timeout: nat, k: nat, m: nat, i: nat, x: nat)
    requires l.Valid(crc) && l.stream == Arrived(arrivals, |arrivals|) && Settles(l, arrivals, crc, timeout)
    requires k < |arrivals| && Stands(l, arrivals, crc, timeout, k, m, i) && m <= |l.packets|
    requires x == Taken(arrivals, crc, timeout, k) && Count(arrivals, k + 1) <= l.Start(m)
    requires var st := Tick(RunTo(arrivals, crc, timeout, k).st); st.stat == 0 || Astray(l, m, st, x)
    ensures var st, r', y := Tick(RunTo(arrivals, crc, timeout, k).st), RunTo(arrivals, crc, timeout, k + 1), Count(arrivals, k + 1);
            && l.Before(m) <= y <= |l.stream| && r'.delivered == l.packets[..m] && r'.queue == [] && Valid(r'.st)
            && (r'.st.stat != 0 ==>
                  && Astray(l, m, r'.st, y)
                  && ((st.stat != 0 && r'.st.timer == st.timer)
                      || (r'.st.timer == Timer(0, timeout, true)
                          && (m < |l.packets| ==> Count(arrivals, k + Lifetime(timeout)) <= l.starts[m]))))
  {
    hide *;
    var _ := OnePoll(l, arrivals, crc, timeout, k, m, i);
    var y := Count(arrivals, k + 1);
    DrainGarbage(l, m, Tick(RunTo(arrivals, crc, timeout, k).st), x, y, crc, timeout);
    if h :| x <= h < y && l.HeadIn(m, h) {
      if m < |l.packets| {
        HeadSettles(l, arrivals, crc, timeout, k, m, h);
      }
    }
  }

  /** One poll from a gap, when the receiver is idle or its timer has just run out, and the next packet
      has not come. */
  lemma PollIdle(l: Layout, arrivals: seq<seq<byte>>, crc: Checksum, timeout: nat, k: nat, m: nat, i: nat)
    requires l.Valid(crc) && l.stream == Arrived(arrivals, |arrivals|) && Settles(l, arrivals, crc, timeout)
    requires k < |arrivals| && Stands(l, arrivals, crc, timeout, k, m, i) && m <= |l.packets|
    requires Tick(RunTo(arrivals, crc, timeout, k).st).stat == 0 && Count(arrivals, k + 1) <= l.Start(m)
    ensures RestsInGap(l, arrivals, timeout, RunTo(arrivals, crc, timeout, k + 1), k + 1, m, k)
  {
    hide RunTo, Count, Drain, Tick, Astray, Valid, Lifetime, Layout.Valid, Settles, Arrived, Stands, Taken, Layout.HeadIn;
    var x := OnePoll(l, arrivals, crc, timeout, k, m, i);
    PollGarbage(l, arrivals, crc, timeout, k, m, i, x);
  }

  /** As long as the timer of something begun in the gap goes on, the next packet does not come. */
  lemma TickAstray(l: Layout, arrivals: seq<seq<byte>>, crc: Checksum, timeout: nat, k: nat, m: nat, i: nat, x: nat)
    requires l.Valid(crc) && k < |arrivals| && Stands(l, arrivals, crc, timeout, k, m, i) && m <= |l.packets|
    requires x == Taken(arrivals, crc, timeout, k) <= l.Start(m) && Count(arrivals, k + 1) <= |l.stream|
    requires Tick(RunTo(arrivals, crc, timeout, k).st).stat != 0
    ensures var st := Tick(RunTo(arrivals, crc, timeout, k).st);
            && i < k && st.timer == Timer(k - i, timeout, true) && Astray(l, m, st, x)
            && Count(arrivals, k + 1) <= l.Start(m)
            && (m < |l.packets| ==> Count(arrivals, i + Lifetime(timeout)) <= l.starts[m])
  {
    hide RunTo, Count, Valid, Layout.Valid, IsPacket, Inside;
    var r := RunTo(arrivals, crc, timeout, k);
    assert r.st.stat != 0 && r.st.timer == Timer(k - 1 - i, timeout, true) && k - i < timeout;
    CountGrows(arrivals, k + 1, i + Lifetime(timeout));
  }

  /** One poll from something begun in the gap, whose timer goes on: the next packet has not come. */
  lemma PollAstray(l: Layout, arrivals: seq<seq<byte>>, crc: Checksum, timeout: nat, k: nat, m: nat, i: nat)
      returns (i': nat)
    requires l.Valid(crc) && l.stream == Arrived(arrivals, |arrivals|) && Settles(l, arrivals, crc, timeout)
    requires k < |arrivals| && Stands(l, arrivals, crc, timeout, k, m, i) && m <= |l.packets|
    requires Tick(RunTo(arrivals, crc, timeout, k).st).stat != 0 && Taken(arrivals, crc, timeout, k) <= l.Start(m)
    ensures RestsInGap(l, arrivals, timeout, RunTo(arrivals, crc, timeout, k + 1), k + 1, m, i')
  {
    hide RunTo, Count, Drain, Tick, Astray, Valid, Lifetime, Layout.Valid, Settles, Arrived, Stands, Taken, Layout.HeadIn;
    var x := OnePoll(l, arrivals, crc, timeout, k, m, i);
    TickAstray(l, arrivals, crc, timeout, k, m, i, x);
    PollGarbage(l, arrivals, crc, timeout, k, m, i, x);
    i' := if RunTo(arrivals, crc, timeout, k + 1).st.timer == Tick(RunTo(arrivals, crc, timeout, k).st).timer then i else k;
  }

  /** When the next packet has come, an idle receiver finds nothing before it that looks like one. */
  lemma NothingBegins(l: Layout, arrivals: seq<seq<byte>>, crc: Checksum, timeout: nat, k: nat, m: nat, x: nat)
    requires l.Valid(crc) && Settles(l, arrivals, crc, timeout) && k < |arrivals| && m < |l.packets|
    requires var r, y := RunTo(arrivals, crc, timeout, k), Count(arrivals, k + 1);
             && x == Taken(arrivals, crc, timeout, k) && l.Before(m) <= x <= l.starts[m] < y <= |l.stream|
             && r.queue + arrivals[k] == l.stream[x..y] && Valid(r.st) && Tick(r.st).stat == 0
    ensures forall h :: x <= h < l.starts[m] ==> l.stream[h] != HEAD
  {
    var r, y := RunTo(arrivals, crc, timeout, k), Count(arrivals, k + 1);
    TickValid(r.st);
    RunNext(arrivals, crc, timeout, k, l.stream[x..y]);
    GapIsTaken(l, m, Tick(r.st), x, y, crc, timeout);
    hide *;
    forall h | x <= h < l.starts[m]
      ensures l.stream[h] != HEAD
    {
      if l.stream[h] == HEAD {
        assert l.HeadIn(m, h);
        HeadSettles(l, arrivals, crc, timeout, k, m, h);
      }
    }
  }

  /** One poll from a gap into the next packet. */
  lemma PollIntoPacket(l: Layout, arrivals: seq<seq<byte>>, crc: Checksum, timeout: nat, k: nat, m: nat, i: nat)
    requires l.Valid(crc) && l.stream == Arrived(arrivals, |arrivals|) && Settles(l, arrivals, crc, timeout)
    requires k < |arrivals| && Stands(l, arrivals, crc, timeout, k, m, i) && m < |l.packets|
    requires Tick(RunTo(arrivals, crc, timeout, k).st).stat == 0
    requires Taken(arrivals, crc, timeout, k) <= l.starts[m] < Count(arrivals, k + 1)
    ensures ReachesPacket(l, arrivals, timeout, RunTo(arrivals, crc, timeout, k + 1), k + 1, m, k)
  {
    hide RunTo, Count, Drain, Tick, Valid, Lifetime, Layout.Valid, Settles, Arrived, Stands, Taken, Inside, IsPacket;
    var x := OnePoll(l, arrivals, crc, timeout, k, m, i);
    NothingBegins(l, arrivals, crc, timeout, k, m, x);
    DrainGap(l, m, Tick(RunTo(arrivals, crc, timeout, k).st), x, Count(arrivals, k + 1), crc, timeout);
  }

  /** Inside a packet the timer goes on. */
  lemma TickInside(l: Layout, arrivals: seq<seq<byte>>, crc: Checksum, timeout: nat, k: nat, m: nat, i: nat, x: nat)
    requires l.Valid(crc) && Timely(l, arrivals, timeout)
    requires k <= |arrivals| && Stands(l, arrivals, crc, timeout, k, m, i) && m <= |l.packets|
    requires x == Taken(arrivals, crc, timeout, k) && l.Start(m) < x
    ensures m < |l.packets| && i < k && l.starts[m] < Count(arrivals, i + 1)
    ensures IsPacket(l.packets[m], crc) && l.End(m) <= |l.stream| && l.stream[l.starts[m]..l.End(m)] == l.packets[m]
    ensures var st := Tick(RunTo(arrivals, crc, timeout, k).st);
            x < l.End(m) && Inside(st, l.packets[m], x - l.starts[m]) && st.timer == Timer(k - i, timeout, true)
  {
    StillTimely(l, arrivals, crc, timeout, k, m, i);
    assert l.PacketAt(m, crc);
    hide RunTo, Count, Valid, Lifetime, IsPacket, Layout.Valid;
  }

  /** One poll from inside packet `m`. */
  lemma PollInside(l: Layout, arrivals: seq<seq<byte>>, crc: Checksum, timeout: nat, k: nat, m: nat, i: nat)
    requires l.Valid(crc) && l.stream == Arrived(arrivals, |arrivals|) && Timely(l, arrivals, timeout)
    requires k < |arrivals| && Stands(l, arrivals, crc, timeout, k, m, i) && m <= |l.packets|
    requires l.Start(m) < Taken(arrivals, crc, timeout, k)
    ensures m < |l.packets| && ReachesPacket(l, arrivals, timeout, RunTo(arrivals, crc, timeout, k + 1), k + 1, m, i)
  {
    hide RunTo, Count, Tick, Valid, Lifetime, Stands, Inside, IsPacket, Arrived, Timely, Drain, Layout.Valid, Taken;
    var x := OnePoll(l, arrivals, crc, timeout, k, m, i);
    TickInside(l, arrivals, crc, timeout, k, m, i, x);
    var p, a, y := l.packets[m], l.starts[m], Count(arrivals, k + 1);
    assert forall j :: 0 <= j < |p| ==> p[j] == l.stream[a..l.End(m)][j] == l.stream[a + j];
    DrainPacket(Tick(RunTo(arrivals, crc, timeout, k).st), p, x - a, l.stream[x..y], crc, timeout);
    assert y >= l.End(m) ==> l.stream[x..y][|p| - (x - a)..] == l.stream[l.End(m)..y];
  }

  /** Inside a packet the timer has not run out. */
  lemma StillTimely(l: Layout, arrivals: seq<seq<byte>>, crc: Checksum, timeout: nat, k: nat, m: nat, i: nat)
    requires l.Valid(crc) && Timely(l, arrivals, timeout)
    requires k <= |arrivals| && Stands(l, arrivals, crc, timeout, k, m, i) && m <= |l.packets|
    requires l.Start(m) < Taken(arrivals, crc, timeout, k)
    ensures m < |l.packets| && k < i + timeout
  {
    hide RunTo, Count, Valid, Lifetime, IsPacket;
    assert TimelyFrom(l, arrivals, timeout, m, i);
    if k >= i + timeout {
      CountGrows(arrivals, i + timeout, k);
    }
  }

  lemma StandsFirst(l: Layout, arrivals: seq<seq<byte>>, crc: Checksum, timeout: nat)
    requires l.Valid(crc)
    ensures Stands(l, arrivals, crc, timeout, 0, 0, 0)
  {
    assert l.GapAt(0, crc);
  }

  lemma {:induction false} RunStands(l: Layout, arrivals: seq<seq<byte>>, crc: Checksum, timeout: nat, k: nat)
      returns (m: nat, i: nat)
    requires l.Valid(crc) && l.stream == Arrived(arrivals, |arrivals|)
    requires Timely(l, arrivals, timeout) && Settles(l, arrivals, crc, timeout)
    requires k <= |arrivals|
    ensures Stands(l, arrivals, crc, timeout, k, m, i) && m <= |l.packets|
    decreases k
  {
    hide *;
    if k == 0 {
      m, i := 0, 0;
      StandsFirst(l, arrivals, crc, timeout);
    } else {
      m, i := RunStands(l, arrivals, crc, timeout, k - 1);
      m, i := StandsOn(l, arrivals, crc, timeout, k - 1, m, i);
      BeforeTaken(l, arrivals, crc, timeout, k, m, i);
    }
  }

  lemma StandsOn(l: Layout, arrivals: seq<seq<byte>>, crc: Checksum, timeout: nat, k: nat, m: nat, i: nat)
      returns (m': nat, i': nat)
    requires l.Valid(crc) && l.stream == Arrived(arrivals, |arrivals|)
    requires Timely(l, arrivals, timeout) && Settles(l, arrivals, crc, timeout)
    requires k < |arrivals| && Stands(l, arrivals, crc, timeout, k, m, i) && m <= |l.packets|
    ensures Stands(l, arrivals, crc, timeout, k + 1, m', i')
  {
    hide *;
    BeforeTaken(l, arrivals, crc, timeout, k, m, i);
    if l.Start(m) < Taken(arrivals, crc, timeout, k) {
      PollInside(l, arrivals, crc, timeout, k, m, i);
      i' := i;
      m' := StandsAtPacket(l, arrivals, crc, timeout, k + 1, m, i);
    } else {
      m', i' := GapOn(l, arrivals, crc, timeout, k, m, i);
    }
  }

  lemma GapOn(l: Layout, arrivals: seq<seq<byte>>, crc: Checksum, timeout: nat, k: nat, m: nat, i: nat)
      returns (m': nat, i': nat)
    requires l.Valid(crc) && l.stream == Arrived(arrivals, |arrivals|) && Settles(l, arrivals, crc, timeout)
    requires k < |arrivals| && Stands(l, arrivals, crc, timeout, k, m, i) && m <= |l.packets|
    requires Taken(arrivals, crc, timeout, k) <= l.Start(m)
    ensures Stands(l, arrivals, crc, timeout, k + 1, m', i')
  {
    m', i' := m, k;
    NoMoreThanStream(l, arrivals, k + 1);
    assert m < |l.packets| || l.Start(m) == |l.stream|;
    assert m < |l.packets| ==> l.Start(m) == l.starts[m];
    hide *;
    if Tick(RunTo(arrivals, crc, timeout, k).st).stat != 0 {
      i' := PollAstray(l, arrivals, crc, timeout, k, m, i);
      StandsInGap(l, arrivals, crc, timeout, k + 1, m, i');
    } else if Count(arrivals, k + 1) <= l.Start(m) {
      PollIdle(l, arrivals, crc, timeout, k, m, i);
      StandsInGap(l, arrivals, crc, timeout, k + 1, m, k);
    } else {
      PollIntoPacket(l, arrivals, crc, timeout, k, m, i);
      m' := StandsAtPacket(l, arrivals, crc, timeout, k + 1, m, k);
    }
  }

  lemma NoMoreThanStream(l: Layout, arrivals: seq<seq<byte>>, k: nat)
    requires l.stream == Arrived(arrivals, |arrivals|)
    ensures Count(arrivals, k) <= |l.stream|
  {
    CountGrows(arrivals, k, k + |arrivals|);
  }

  /** However the packets, the noise and the broken-off beginnings between them are split over the
      polls, as long as every packet is timely and comes after the timer of whatever was begun before
      it has run out: what has been delivered before any poll is the packets in order, without gaps;
      whenever the queue is empty, every packet that has arrived has been delivered; and once
      everything has come and been taken, all of them. */
  lemma Delivers(l: Layout, arrivals: seq<seq<byte>>, crc: Checksum, timeout: nat, k: nat)
    requires l.Valid(crc) && l.stream == Arrived(arrivals, |arrivals|)
    requires Timely(l, arrivals, timeout) && Settles(l, arrivals, crc, timeout)
    requires k <= |arrivals|
    ensures var r := RunTo(arrivals, crc, timeout, k);
            && r.delivered <= l.packets
            && (r.queue == [] ==> AllArrived(l, |r.delivered|, Count(arrivals, k)))
            && (r.queue == [] && k == |arrivals| ==> r.delivered == l.packets)
  {
    hide Layout.Valid, Timely, Settles;
    var m, i := RunStands(l, arrivals, crc, timeout, k);
    PacketsInOrder(l, crc, m);
    var r := RunTo(arrivals, crc, timeout, k);
    hide RunTo, Count, Valid, Lifetime;
    if m < |l.packets| {
      EndInside(l, crc, m);
    }
  }

  /** Packets that end within the first `c` bytes are among the first `n`. */
  ghost predicate AllArrived(l: Layout, n: nat, c: nat)
    requires |l.starts| == |l.packets|
  {
    forall j :: 0 <= j < |l.packets| && l.End(j) <= c ==> j < n
  }

  lemma EndInside(l: Layout, crc: Checksum, m: nat)
    requires l.Valid(crc) && m < |l.packets|
    ensures l.starts[m] < l.End(m) <= |l.stream|
  {
    assert l.PacketAt(m, crc);
  }

  lemma {:induction false} PacketsInOrder(l: Layout, crc: Checksum, m: nat)
    requires l.Valid(crc) && m <= |l.packets|
    ensures forall j :: m <= j < |l.packets| ==> l.End(m) <= l.End(j)
    decreases |l.packets| - m
  {
    if m + 1 < |l.packets| {
      assert l.GapAt(m + 1, crc) && l.PacketAt(m + 1, crc);
      PacketsInOrder(l, crc, m + 1);
    }
  }

  // ----- The timer in a run -----

  /** The receiver has stored the last bytes taken of `s`, up to `x`. */
  predicate Holding(s: seq<byte>, st: Fsm, x: nat) {
    st.stat != 0 ==> |st.buf| <= x <= |s| && st.buf == s[x - |st.buf|..x]
  }

  lemma StepHolding(s: seq<byte>, st: Fsm, x: nat, timeout: int)
    requires x < |s| && Valid(st) && Holding(s, st, x)
    ensures var st' := Step(st, s[x], timeout);
            && Valid(st') && Holding(s, st', x + 1)
            && (st'.stat != 0 ==>
                  if st.stat != 0 then st'.timer == st.timer && |st'.buf| == |st.buf| + 1
                  else st'.timer == Timer(0, timeout, true) && |st'.buf| == 1)
  {
    StepValid(st, s[x], timeout);
    assert st.stat != 0 ==> st.buf + [s[x]] == s[x - |st.buf|..x + 1];
  }

  /** From place `x` to `x'` of `s`: what is held then was begun before, or in between by a byte that
      has started the timer. */
  predicate Took(s: seq<byte>, st: Fsm, x: nat, timeout: int, st': Fsm, x': int) {
    && x <= x' <= |s| && Valid(st') && Holding(s, st', x')
    && (st'.stat != 0 ==>
          || (st.stat != 0 && st'.timer == st.timer && x' - |st'.buf| == x - |st.buf|)
          || (st'.timer == Timer(0, timeout, true) && x <= x' - |st'.buf| < x'))
  }

  lemma TookFirst(s: seq<byte>, st: Fsm, x: nat, timeout: int, st': Fsm, x': int)
    requires x < |s| && Valid(st) && Holding(s, st, x) && Took(s, Step(st, s[x], timeout), x + 1, timeout, st', x')
    ensures Took(s, st, x, timeout, st', x')
  {
    StepHolding(s, st, x, timeout);
    hide Step, Valid, Holding;
  }

  lemma DrainOne(s: seq<byte>, st: Fsm, x: nat, crc: Checksum, timeout: int)
    requires x < |s| && Valid(st)
    ensures Drain(st, s[x..], crc, timeout) ==
            if Completes(st, s[x], crc) then (Clear(st), s[x + 1..], Some(st.buf + [s[x]]))
            else Drain(Step(st, s[x], timeout), s[x + 1..], crc, timeout)
    ensures Took(s, st, x, timeout, Clear(st), x + 1)
  {
    assert s[x..][0] == s[x] && s[x..][1..] == s[x + 1..];
    hide Completes, Step;
  }

  /** What taking bytes leaves held. */
  lemma {:induction false} DrainHolding(s: seq<byte>, st: Fsm, x: nat, crc: Checksum, timeout: int)
    requires x <= |s| && Valid(st) && Holding(s, st, x)
    ensures var (st', queue', packet) := Drain(st, s[x..], crc, timeout);
            |queue'| <= |s| && queue' == s[|s| - |queue'|..] && Took(s, st, x, timeout, st', |s| - |queue'|)
    decreases |s| - x
  {
    if x < |s| {
      DrainOne(s, st, x, crc, timeout);
      StepHolding(s, st, x, timeout);
      hide *;
      if !Completes(st, s[x], crc) {
        DrainHolding(s, Step(st, s[x], timeout), x + 1, crc, timeout);
        var (st', queue', _) := Drain(st, s[x..], crc, timeout);
        TookFirst(s, st, x, timeout, st', |s| - |queue'|);
      }
    }
  }

  /** Before poll `k` the receiver is idle, or holds the last bytes it has taken, of which the first was
      taken in poll `i`; the timer has counted the polls since then, and has not run out. */
  ghost predicate BegunIn(arrivals: seq<seq<byte>>, crc: Checksum, timeout: nat, k: nat, i: nat)
    requires k <= |arrivals|
  {
    var r, x := RunTo(arrivals, crc, timeout, k), Taken(arrivals, crc, timeout, k);
    && 0 <= x <= Count(arrivals, k) && r.queue == Arrived(arrivals, k)[x..] && Valid(r.st)
    && Holding(Arrived(arrivals, k), r.st, x)
    && (r.st.stat != 0 ==>
          && i < k < i + 1 + Lifetime(timeout) && r.st.timer == Timer(k - 1 - i, timeout, true)
          && TakenIn(arrivals, crc, timeout, x - |r.st.buf|, i))
  }

  /** In every run, whatever comes in: what is held was begun fewer than `timeout` polls ago, and the
      timer counts the polls. */
  lemma {:induction false} NothingIsHeldLonger(arrivals: seq<seq<byte>>, crc: Checksum, timeout: nat, k: nat) returns (i: nat)
    requires k <= |arrivals|
    ensures BegunIn(arrivals, crc, timeout, k, i)
    decreases k
  {
    hide *;
    if k == 0 {
      i := 0;
      IdleAtFirst(arrivals, crc, timeout);
    } else {
      i := NothingIsHeldLonger(arrivals, crc, timeout, k - 1);
      i := OnePollOn(arrivals, crc, timeout, k - 1, i);
    }
  }

  lemma IdleAtFirst(arrivals: seq<seq<byte>>, crc: Checksum, timeout: nat)
    ensures BegunIn(arrivals, crc, timeout, 0, 0)
  {
  }

  lemma OnePollOn(arrivals: seq<seq<byte>>, crc: Checksum, timeout: nat, k: nat, i: nat) returns (i': nat)
    requires k < |arrivals| && BegunIn(arrivals, crc, timeout, k, i)
    ensures BegunIn(arrivals, crc, timeout, k + 1, i')
  {
    hide *;
    BeforePoll(arrivals, crc, timeout, k, i);
    var r, s, x := RunTo(arrivals, crc, timeout, k), Arrived(arrivals, k + 1), Taken(arrivals, crc, timeout, k);
    RunNext(arrivals, crc, timeout, k, s[x..]);
    DrainHolding(s, Tick(r.st), x, crc, timeout);
    i' := AfterPoll(arrivals, crc, timeout, k, i, Tick(r.st), x);
  }

  /** The timer has been polled, but nothing taken yet. */
  ghost predicate Polled(arrivals: seq<seq<byte>>, crc: Checksum, timeout: nat, k: nat, i: nat, st: Fsm)
    requires k < |arrivals|
  {
    var x := Taken(arrivals, crc, timeout, k);
    st.stat != 0 ==>
      && i < k && k - i < Lifetime(timeout) && st.timer == Timer(k - i, timeout, true)
      && TakenIn(arrivals, crc, timeout, x - |st.buf|, i)
  }

  lemma BeforePoll(arrivals: seq<seq<byte>>, crc: Checksum, timeout: nat, k: nat, i: nat)
    requires k < |arrivals| && BegunIn(arrivals, crc, timeout, k, i)
    ensures var r, s, x := RunTo(arrivals, crc, timeout, k), Arrived(arrivals, k + 1), Taken(arrivals, crc, timeout, k);
            && 0 <= x <= |s| == Count(arrivals, k + 1) && r.queue + arrivals[k] == s[x..]
            && Valid(Tick(r.st)) && Holding(s, Tick(r.st), x) && Polled(arrivals, crc, timeout, k, i, Tick(r.st))
  {
    var r, x := RunTo(arrivals, crc, timeout, k), Taken(arrivals, crc, timeout, k);
    assert 0 <= x <= Count(arrivals, k) && r.queue == Arrived(arrivals, k)[x..] && Valid(r.st);
    assert Count(arrivals, k) == |Arrived(arrivals, k)| && Arrived(arrivals, k + 1) == Arrived(arrivals, k) + arrivals[k];
    TickPolls(arrivals, crc, timeout, k, i);
    TickValid(r.st);
    hide *;
    HoldingGrows(Arrived(arrivals, k), arrivals[k], Tick(r.st), x);
  }

  lemma TickPolls(arrivals: seq<seq<byte>>, crc: Checksum, timeout: nat, k: nat, i: nat)
    requires k < |arrivals| && BegunIn(arrivals, crc, timeout, k, i)
    ensures var st, x := Tick(RunTo(arrivals, crc, timeout, k).st), Taken(arrivals, crc, timeout, k);
            Holding(Arrived(arrivals, k), st, x) && Polled(arrivals, crc, timeout, k, i, st)
  {
    hide RunTo, Taken, Count, Arrived, Valid, TakenIn;
  }

  lemma HoldingGrows(a: seq<byte>, b: seq<byte>, st: Fsm, x: nat)
    requires x <= |a| && Holding(a, st, x)
    ensures Holding(a + b, st, x) && (a + b)[x..] == a[x..] + b
  {
    assert st.stat != 0 ==> (a + b)[x - |st.buf|..x] == a[x - |st.buf|..x];
  }

  lemma AfterPoll(arrivals: seq<seq<byte>>, crc: Checksum, timeout: nat, k: nat, i: nat, st: Fsm, x: nat) returns (i': nat)
    requires k < |arrivals| && x == Taken(arrivals, crc, timeout, k) && Polled(arrivals, crc, timeout, k, i, st)
    requires var r', s := RunTo(arrivals, crc, timeout, k + 1), Arrived(arrivals, k + 1);
             && |r'.queue| <= |s| == Count(arrivals, k + 1) && r'.queue == s[|s| - |r'.queue|..]
             && Took(s, st, x, timeout, r'.st, |s| - |r'.queue|)
    ensures BegunIn(arrivals, crc, timeout, k + 1, i')
  {
    hide RunTo, Count, Arrived, Valid, Holding;
    i' := if st.stat != 0 && RunTo(arrivals, crc, timeout, k + 1).st.timer == st.timer then i else k;
  }

  /** A poll to which nothing comes. */
  lemma SilentPoll(arrivals: seq<seq<byte>>, crc: Checksum, timeout: nat, k: nat)
    requires k < |arrivals| && arrivals[k] == [] && RunTo(arrivals, crc, timeout, k).queue == []
    ensures var r := RunTo(arrivals, crc, timeout, k);
            RunTo(arrivals, crc, timeout, k + 1) == Run(Tick(r.st), [], r.delivered)
  {
    assert RunTo(arrivals, crc, timeout, k).queue + arrivals[k] == [];
  }

  /** What is begun in poll `i` and followed by nothing is kept as it is until poll `i + timeout`, which
      drops it: the receiver is idle again after that poll and not before. */
  lemma {:induction false} BrokenOffIsDropped(arrivals: seq<seq<byte>>, crc: Checksum, timeout: nat, i: nat, k: nat)
    requires i < k <= |arrivals| && forall j :: i < j < k ==> arrivals[j] == []
    requires var r := RunTo(arrivals, crc, timeout, i + 1);
             r.st.stat != 0 && r.st.timer == Timer(0, timeout, true) && r.queue == []
    ensures var r, r' := RunTo(arrivals, crc, timeout, i + 1), RunTo(arrivals, crc, timeout, k);
            && r'.delivered == r.delivered && r'.queue == []
            && if k <= i + timeout || k == i + 1 then r'.st == r.st.(timer := Timer(k - 1 - i, timeout, true))
               else r'.st.stat == 0 && r'.st.buf == []
    decreases k
  {
    hide *;
    if k > i + 1 {
      BrokenOffIsDropped(arrivals, crc, timeout, i, k - 1);
      SilentPoll(arrivals, crc, timeout, k - 1);
      TickCounts(RunTo(arrivals, crc, timeout, k - 1).st);
    }
  }

  lemma TickCounts(st: Fsm)
    ensures var n := st.timer.cnt + 1;
            if st.timer.flag && n < st.timer.max then Tick(st) == st.(timer := st.timer.(cnt := n))
            else Tick(st).stat == 0 && Tick(st).buf == []
  {
  }

  // ----- A length that wraps -----

  /** The first nine bytes of a packet that declares 0xFFF4 bytes of data: the receiver then waits
      for 65536 bytes, which it counts as none. */
  const WRAPPING: seq<byte> := [HEAD, 0, 0, 0, 0, 0, HEAD, 0, 0xFF]

  /** The receiver after the first `n` bytes of it. */
  predicate InsideWrapping(st: Fsm, s: seq<byte>, n: nat) {
    && 1 <= n < 12 == |s| && st.buf == s[..n]
    && st.stat == (if n < 6 then 1 else if n == 6 then 2 else if n < 10 then 3 else if n == 10 then 4 else 5)
    && st.maxlen == (if n < 6 then 6 else if n < 10 then 10 else 0)
  }

  lemma {:induction false} DrainWrapping(st: Fsm, s: seq<byte>, n: nat, crc: Checksum, timeout: int)
    requires InsideWrapping(st, s, n) && s[..9] == WRAPPING && s[9] == 0xF4 && s[11] == TAIL && StreamOk(s, crc)
    ensures Drain(st, s[n..], crc, timeout).2 == Some(s)
    decreases 12 - n
  {
    assert s[n..][0] == s[n] && s[n..][1..] == s[n + 1..] && s[..n + 1] == st.buf + [s[n]];
    assert s[6] == s[..9][6] && s[8] == s[..9][8];
    if n < 11 {
      assert n == 9 ==> LastLen(s[..10]) == 0xFFF4;
      DrainWrapping(Step(st, s[n], timeout), s, n + 1, crc, timeout);
    } else {
      assert s[..12] == s;
    }
  }

  /** If the checksum of these nine bytes begins with 0xF4, twelve bytes are accepted and delivered
      that are no packet. */
  lemma WrappedLengthIsAccepted(crc: Checksum, timeout: int)
    requires (crc(WRAPPING) as nat) / 256 == 0xF4
    ensures var low: nat := crc(WRAPPING);
            var s := WRAPPING + [0xF4, low % 256, TAIL];
            && RunTo([s], crc, timeout, 1).delivered == [s]
            && forall body :: IsBody(body) ==> Packet(body, crc) != s
  {
    var low: nat := crc(WRAPPING);
    var s := WRAPPING + [0xF4, low % 256, TAIL];
    var st := Tick(Idle);
    assert s[..9] == WRAPPING && s[0] == HEAD && s[..1] == [s[0]] && s[0..] == s && [] + s == s;
    assert RunTo([s], crc, timeout, 0) == Run(Idle, [], []);
    assert StreamOk(s, crc);
    hide StreamOk;
    DrainWrapping(Step(st, s[0], timeout), s, 1, crc, timeout);
    assert Drain(st, s, crc, timeout) == Drain(Step(st, s[0], timeout), s[1..], crc, timeout);
    assert RunTo([s], crc, timeout, 1).delivered == [] + [s];
  }

  // ----- The program's own state -----

  /** Does the receiver store this byte? */
  predicate Stores(st: Fsm, uc: byte) {
    && (st.stat == 0 || st.stat == 2 ==> uc == HEAD)
    && (st.stat == 5 ==> uc == TAIL)
  }

  /** No byte of the queue is stored beyond a buffer of `n` bytes. */
  ghost predicate Room(st: Fsm, queue: seq<byte>, crc: Checksum, timeout: int, n: nat)
    decreases |queue|
  {
    queue == [] ||
    ((Stores(st, queue[0]) ==> |st.buf| < n)
     && (Completes(st, queue[0], crc) || Room(Step(st, queue[0], timeout), queue[1..], crc, timeout, n)))
  }

  lemma {:induction false} RoomForNoise(st: Fsm, queue: seq<byte>, n: nat, crc: Checksum, timeout: int, size: nat)
    requires st.stat == 0 && n <= |queue| && forall x :: 0 <= x < n ==> queue[x] != HEAD
    requires Room(st, queue[n..], crc, timeout, size)
    ensures Room(st, queue, crc, timeout, size)
    decreases n
  {
    hide StreamOk;
    if n == 0 {
      assert queue[0..] == queue;
    } else {
      assert queue[1..][n - 1..] == queue[n..];
      assert Step(st, queue[0], timeout) == st && !Stores(st, queue[0]);
      hide Step, Stores, Completes;
      RoomForNoise(st, queue[1..], n - 1, crc, timeout, size);
    }
  }

  lemma {:induction false} RoomForPacket(st: Fsm, p: seq<byte>, n: nat, queue: seq<byte>, crc: Checksum, timeout: int, size: nat)
    requires IsPacket(p, crc) && Inside(st, p, n) && |p| <= size
    requires forall x :: 0 <= x < |queue| && n + x < |p| ==> queue[x] == p[n + x]
    ensures Room(st, queue, crc, timeout, size)
    decreases |queue|
  {
    if queue != [] {
      NextByte(st, p, n, crc, timeout);
      if n < |p| - 1 {
        assert forall x :: 0 <= x < |queue[1..]| && n + 1 + x < |p| ==> queue[1..][x] == queue[x + 1] == p[n + (x + 1)];
        RoomForPacket(Step(st, p[n], timeout), p, n + 1, queue[1..], crc, timeout, size);
      }
    }
  }

  lemma RoomForFirst(l: Layout, m: nat, st: Fsm, y: nat, crc: Checksum, timeout: int, size: nat)
    requires l.Valid(crc) && m < |l.packets| && st.stat == 0 && st.buf == [] && l.starts[m] < y <= |l.stream|
    requires |l.packets[m]| <= size
    ensures Room(st, l.stream[l.starts[m]..y], crc, timeout, size)
  {
    hide IsPacket, Inside, Step;
    assert l.PacketAt(m, crc);
    var p, a := l.packets[m], l.starts[m];
    assert forall i :: 0 <= i < |p| ==> p[i] == l.stream[a + i];
    FirstByte(st, p, crc, timeout);
    EndInside(l, crc, m);
    var rest := l.stream[a + 1..y];
    assert l.stream[a..y][1..] == rest;
    RoomForPacket(Step(st, p[0], timeout), p, 1, rest, crc, timeout, size);
  }

  lemma RoomForGap(l: Layout, m: nat, st: Fsm, x: nat, y: nat, crc: Checksum, timeout: int, size: nat)
    requires l.Valid(crc) && m < |l.packets| && st.stat == 0 && st.buf == [] && |l.packets[m]| <= size
    requires l.Before(m) <= x <= l.starts[m] < y <= |l.stream| && forall h :: x <= h < l.starts[m] ==> l.stream[h] != HEAD
    ensures Room(st, l.stream[x..y], crc, timeout, size)
  {
    hide IsPacket;
    var queue, n := l.stream[x..y], l.starts[m] - x;
    assert forall j :: 0 <= j < n ==> queue[j] == l.stream[x + j];
    assert queue[n..] == l.stream[l.starts[m]..y];
    RoomForFirst(l, m, st, y, crc, timeout, size);
    RoomForNoise(st, queue, n, crc, timeout, size);
  }

  /** A buffer of this size holds whatever is begun in the gap before packet `m`. */
  predicate HoldsGap(l: Layout, m: nat, size: nat)
    requires |l.starts| == |l.packets| && m <= |l.packets|
  {
    l.Start(m) - l.Before(m) <= size || forall h :: 0 <= h < |l.stream| ==> !l.HeadIn(m, h)
  }

  lemma {:induction false} RoomForGarbage(l: Layout, m: nat, st: Fsm, x: nat, y: nat, crc: Checksum, timeout: int, size: nat)
    requires l.Valid(crc) && m <= |l.packets| && l.Before(m) <= x <= y <= l.Start(m) && y <= |l.stream|
    requires Valid(st) && (st.stat == 0 || Astray(l, m, st, x)) && HoldsGap(l, m, size)
    ensures Room(st, l.stream[x..y], crc, timeout, size)
    decreases y - x
  {
    if x == y {
      assert l.stream[x..y] == [];
    } else {
      GarbageByte(l, m, st, x, crc, timeout);
      RoomForByte(l, m, st, x, size);
      hide Step, Completes, Layout.Valid, Valid, Astray, Stores, HoldsGap;
      RoomForGarbage(l, m, Step(st, l.stream[x], timeout), x + 1, y, crc, timeout, size);
      assert l.stream[x..y][0] == l.stream[x] && l.stream[x..y][1..] == l.stream[x + 1..y];
    }
  }

  lemma RoomForByte(l: Layout, m: nat, st: Fsm, x: nat, size: nat)
    requires |l.starts| == |l.packets| && m <= |l.packets| && l.Before(m) <= x < l.Start(m) && x < |l.stream|
    requires Valid(st) && (st.stat == 0 || Astray(l, m, st, x)) && HoldsGap(l, m, size)
    ensures Stores(st, l.stream[x]) ==> |st.buf| < size
  {
    if st.stat != 0 {
      assert l.stream[x - |st.buf|] == st.buf[0];
      assert l.HeadIn(m, x - |st.buf|);
    } else if l.stream[x] == HEAD {
      assert l.HeadIn(m, x);
    }
  }

  /** A buffer that holds every packet of the stream, and every gap with something in it that looks
      like a beginning, has room at every poll of the run. */
  lemma RoomInRun(l: Layout, arrivals: seq<seq<byte>>, crc: Checksum, timeout: nat, k: nat, size: nat)
    requires l.Valid(crc) && l.stream == Arrived(arrivals, |arrivals|)
    requires Timely(l, arrivals, timeout) && Settles(l, arrivals, crc, timeout)
    requires k < |arrivals| && forall m :: 0 <= m < |l.packets| ==> |l.packets[m]| <= size
    requires forall m :: 0 <= m <= |l.packets| ==> HoldsGap(l, m, size)
    ensures var r := RunTo(arrivals, crc, timeout, k);
            Room(Tick(r.st), r.queue + arrivals[k], crc, timeout, size)
  {
    var m, i := RunStands(l, arrivals, crc, timeout, k);
    var x := QueueAt(l, arrivals, crc, timeout, k, m, i);
    hide *;
    if l.Start(m) < x {
      RoomInside(l, arrivals, crc, timeout, k, m, i, x, size);
    } else {
      RoomOutside(l, arrivals, crc, timeout, k, m, i, x, size);
    }
  }

  lemma RoomInside(l: Layout, arrivals: seq<seq<byte>>, crc: Checksum, timeout: nat, k: nat, m: nat, i: nat, x: nat, size: nat)
    requires l.Valid(crc) && Timely(l, arrivals, timeout) && k < |arrivals| && m <= |l.packets|
    requires Stands(l, arrivals, crc, timeout, k, m, i) && x == Taken(arrivals, crc, timeout, k) && l.Start(m) < x
    requires x <= Count(arrivals, k) <= Count(arrivals, k + 1) <= |l.stream|
    requires m < |l.packets| ==> |l.packets[m]| <= size
    ensures Room(Tick(RunTo(arrivals, crc, timeout, k).st), l.stream[x..Count(arrivals, k + 1)], crc, timeout, size)
  {
    TickInside(l, arrivals, crc, timeout, k, m, i, x);
    hide RunTo, Count, Tick, Valid, Lifetime, Stands, Inside, IsPacket, Room, Timely, Layout.Valid;
    var p, a := l.packets[m], l.starts[m];
    assert forall j :: 0 <= j < |p| ==> p[j] == l.stream[a..l.End(m)][j] == l.stream[a + j];
    RoomForPacket(Tick(RunTo(arrivals, crc, timeout, k).st), p, x - a, l.stream[x..Count(arrivals, k + 1)], crc, timeout, size);
  }

  lemma RoomOutside(l: Layout, arrivals: seq<seq<byte>>, crc: Checksum, timeout: nat, k: nat, m: nat, i: nat, x: nat, size: nat)
    requires l.Valid(crc) && l.stream == Arrived(arrivals, |arrivals|) && Settles(l, arrivals, crc, timeout)
    requires k < |arrivals| && m <= |l.packets|
    requires Stands(l, arrivals, crc, timeout, k, m, i) && x == Taken(arrivals, crc, timeout, k) && x <= l.Start(m)
    requires x <= Count(arrivals, k) <= Count(arrivals, k + 1) <= |l.stream|
    requires RunTo(arrivals, crc, timeout, k).queue + arrivals[k] == l.stream[x..Count(arrivals, k + 1)]
    requires HoldsGap(l, m, size) && (m < |l.packets| ==> |l.packets[m]| <= size)
    ensures Room(Tick(RunTo(arrivals, crc, timeout, k).st), l.stream[x..Count(arrivals, k + 1)], crc, timeout, size)
  {
    var r, y := RunTo(arrivals, crc, timeout, k), Count(arrivals, k + 1);
    TickValid(r.st);
    BeforeTaken(l, arrivals, crc, timeout, k, m, i);
    var st := Tick(r.st);
    assert st.stat == 0 ==> st.buf == [];
    if st.stat == 0 && y > l.Start(m) {
      NothingBegins(l, arrivals, crc, timeout, k, m, x);
      hide *;
      RoomForGap(l, m, st, x, y, crc, timeout, size);
    } else {
      if st.stat != 0 {
        TickAstray(l, arrivals, crc, timeout, k, m, i, x);
      }
      hide *;
      RoomForGarbage(l, m, st, x, y, crc, timeout, size);
    }
  }

  /** `MakePacketG`: the checksum and the tail are written behind the data, in place. */
  method MakePacketG(pkt: array<byte>, crc: Checksum) returns (nLen: nat)
    requires pkt.Length >= 10 && pkt.Length >= DataLen(pkt[..10]) + 13
    modifies pkt
    ensures nLen == old(DataLen(pkt[..10])) + 13
    ensures pkt[..nLen] == Packet(old(pkt[..nLen - 3]), crc)
    ensures pkt[nLen..] == old(pkt[nLen..])
  {
    ghost var was := pkt[..];
    var hi: nat, lo: nat := pkt[8], pkt[9];
    var dataLen := hi * 256 + lo;
    nLen := 10 + dataLen + 2 + 1;
    var sum: nat := crc(pkt[..nLen - 3]);
    pkt[10 + dataLen] := sum / 256;
    pkt[10 + dataLen + 1] := sum % 256;
    pkt[10 + dataLen + 2] := TAIL;
    assert pkt[..nLen - 3] == was[..nLen - 3];
  }

  /** One interface: its receive buffer, receiver and timer, and the bytes `getchar` has to hand. */
  class Receiver {
    const rcvbuf: array<byte>
    const timeout: int
    const crc: Checksum
    var pbuf: nat
    var cnt: word
    var maxlen: word
    var stat: nat
    var timerCnt: nat
    var timerMax: int
    var timerFlag: bool
    var pending: seq<byte>

    /** The fields as one value. */
    ghost function State(): Fsm
      requires pbuf <= rcvbuf.Length
      reads this, rcvbuf
    {
      Fsm(stat, rcvbuf[..pbuf], maxlen, Timer(timerCnt, timerMax, timerFlag))
    }

    ghost predicate Ok()
      reads this, rcvbuf
    {
      pbuf == cnt <= rcvbuf.Length < 0x1_0000 && Valid(State())
    }

    constructor (size: nat, timeout: int, crc: Checksum)
      requires size < 0x1_0000
      ensures Ok() && State() == Idle && pending == [] && fresh(rcvbuf)
      ensures rcvbuf.Length == size && this.timeout == timeout && this.crc == crc
    {
      rcvbuf := new byte[size];
      this.timeout, this.crc := timeout, crc;
      pbuf, cnt, maxlen, stat := 0, 0, 0, 0;
      timerCnt, timerMax, timerFlag := 0, 0, false;
      pending := [];
    }

    method SetUpTimer(max: int)
      modifies `timerCnt, `timerMax, `timerFlag
      ensures timerCnt == 0 && timerMax == max && timerFlag
    {
      timerCnt, timerMax, timerFlag := 0, max, true;
    }

    method StopUpTimer()
      modifies `timerFlag
      ensures !timerFlag
    {
      timerFlag := false;
    }

    method UplinkClearState()
      requires pbuf <= rcvbuf.Length < 0x1_0000
      modifies `pbuf, `cnt, `maxlen, `stat, `timerFlag
      ensures Ok() && State() == Clear(old(State()))
    {
      pbuf, stat, cnt, maxlen := 0, 0, 0, 0;
      StopUpTimer();
    }

    method UpTimerProc()
      requires Ok()
      modifies `pbuf, `cnt, `maxlen, `stat, `timerCnt, `timerFlag
      ensures Ok() && State() == Tick(old(State()))
    {
      if !timerFlag {
        pbuf, stat, cnt, maxlen := 0, 0, 0, 0;
        return;
      }
      timerCnt := timerCnt + 1;
      if timerCnt >= timerMax {
        UplinkClearState();
      }
    }

    method CheckStreamOK(packLen: nat) returns (ok: bool)
      requires 7 <= packLen <= rcvbuf.Length
      ensures ok <==> StreamOk(rcvbuf[..packLen], crc)
    {
      if rcvbuf[0] != HEAD { return false; }
      if rcvbuf[6] != HEAD { return false; }
      if rcvbuf[packLen - 1] != TAIL { return false; }
      var hi: nat, lo: nat := rcvbuf[packLen - 3], rcvbuf[packLen - 2];
      assert rcvbuf[..packLen][..packLen - 3] == rcvbuf[..packLen - 3];
      return crc(rcvbuf[..packLen - 3]) == hi * 256 + lo;
    }

    /** Append a byte to the buffer. */
    method Store(uc: byte)
      requires pbuf == cnt < rcvbuf.Length < 0x1_0000
      modifies `pbuf, `cnt, rcvbuf
      ensures pbuf == cnt == old(cnt) + 1
      ensures rcvbuf[..pbuf] == old(rcvbuf[..pbuf]) + [uc]
    {
      rcvbuf[pbuf] := uc;
      pbuf, cnt := pbuf + 1, cnt + 1;
    }

    /** The last case of the receive loop: the byte that must be the tail mark. */
    method ReceiveTail(uc: byte) returns (done: bool)
      requires Ok() && stat == 5 && (uc == TAIL ==> cnt < rcvbuf.Length)
      modifies `pbuf, `cnt, `maxlen, `stat, `timerCnt, `timerMax, `timerFlag, rcvbuf
      ensures done <==> Completes(old(State()), uc, crc)
      ensures Ok() && State() == Clear(old(State()))
      ensures done ==> old(State()).buf + [uc] <= rcvbuf[..]
    {
      ghost var st := State();
      done := false;
      if uc != TAIL {
        UplinkClearState();
      } else {
        Store(uc);
        StopUpTimer();
        done := CheckStreamOK(cnt);
        UplinkClearState();
        assert st.buf + [uc] <= rcvbuf[..];
      }
    }

    /** The body of the receive loop. */
    method Receive(uc: byte) returns (done: bool)
      requires Ok() && (Stores(State(), uc) ==> cnt < rcvbuf.Length)
      modifies `pbuf, `cnt, `maxlen, `stat, `timerCnt, `timerMax, `timerFlag, rcvbuf
      ensures done <==> Completes(old(State()), uc, crc)
      ensures Ok() && State() == if done then Clear(old(State())) else Step(old(State()), uc, timeout)
      ensures done ==> old(State()).buf + [uc] <= rcvbuf[..]
    {
      ghost var st := State();
      StepValid(st, uc, timeout);
      hide StreamOk;
      done := false;
      match stat {
        case 0 =>
          if uc == HEAD {
            UplinkClearState();
            Store(uc);
            stat, maxlen := 1, 6;
            SetUpTimer(timeout);
          }
        case 1 =>
          Store(uc);
          if cnt >= maxlen {
            stat, maxlen := 2, 10;
          }
        case 2 =>
          if uc != HEAD {
            UplinkClearState();
          } else {
            Store(uc);
            stat := 3;
          }
        case 3 =>
          Store(uc);
          if cnt >= maxlen {
            stat := 4;
            var hi: nat, lo: nat := rcvbuf[pbuf - 2], rcvbuf[pbuf - 1];
            maxlen := (hi * 256 + lo + 10 + 2) % 0x1_0000;
          }
        case 4 =>
          Store(uc);
          if cnt >= maxlen {
            stat := 5;
          }
        case 5 =>
          done := ReceiveTail(uc);
      }
    }

    /** `UplinkRecvPkt`: 0 when a packet has been received, which then stands at the front of the
        buffer; 1 when not. */
    method UplinkRecvPkt() returns (rtn: int)
      requires Ok() && Room(Tick(State()), pending, crc, timeout, rcvbuf.Length)
      modifies this, rcvbuf
      ensures Ok()
      ensures var (st, queue, packet) := Poll(old(State()), old(pending), crc, timeout);
              && State() == st && pending == queue
              && rtn == (if packet.Some? then 0 else 1)
              && (packet.Some? ==> packet.value <= rcvbuf[..])
    {
      UpTimerProc();
      while pending != []
        invariant Ok() && Room(State(), pending, crc, timeout, rcvbuf.Length)
        invariant Drain(State(), pending, crc, timeout) == old(Poll(State(), pending, crc, timeout))
        decreases |pending|
      {
        var uc := pending[0];
        pending := pending[1..];
        var done := Receive(uc);
        if done {
          return 0;
        }
      }
      return 1;
    }
  }
}
