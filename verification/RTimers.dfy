/** The wall-clock timers: recalculation, catching up, and the timer pass. */
module RTimers {
  import opened Bytes
  import opened Calendar
  import opened SlotList
  import opened TimerGrid

  const MAX: nat := 63

  datatype Entry = Entry(valid: bool, id: int, call: Callback, tstart: int32, tbase: int32, dev: byte, mod: byte,
                         bonce: bool, basetime: nat)

  datatype State = State(slots: seq<Entry>, order: seq<nat>, addup: nat)

  /** What a timer is asked for. */
  datatype Conf = Conf(curtime: int32, bonce: bool, tdev: byte, tmod: byte, basetime: Clock)

  /** A handler being called with the current time. */
  datatype Call = Call(id: int, call: Callback, time: int32)

  // ----- One timer -----

  /** Interval and unit as `RecalRTimerP` puts them right. */
  function Normal(e: Entry): (n: Entry)
    ensures n.dev > 0 && n.mod <= MONTH
  {
    var e := if e.dev == 0 then e.(dev := if e.mod == 0 then 15 else 1) else e;
    if e.mod > MONTH then e.(mod := HOUR) else e
  }

  /** The timer with the first slot after `now`, searched from grid position `o` on. */
  ghost function Armed(e: Entry, o: nat, now: int): Entry
    requires e.dev > 0 && Reaches(e, o, now)
  {
    var tbase := Point(e.mod, Next(e.mod, Stride(e.mod, e.dev), o, e.basetime, now));
    e.(tbase := tbase, tstart := tbase + e.basetime)
  }

  /** That slot is a 32-bit time. */
  ghost predicate Reaches(e: Entry, o: nat, now: int)
    requires e.dev > 0
  {
    Point(e.mod, Next(e.mod, Stride(e.mod, e.dev), o, e.basetime, now)) + e.basetime < 0x8000_0000
  }

  /** A recalculation does not leave the 32-bit times. */
  ghost predicate CanRecal(e: Entry, now: int32) {
    e.bonce || (now >= 0 && Reaches(Normal(e), Origin(Normal(e).mod, now), now))
  }

  ghost function Recalled(e: Entry, now: int32): Entry
    requires CanRecal(e, now)
  {
    if e.bonce then Normal(e) else Armed(Normal(e), Origin(Normal(e).mod, now), now)
  }

  /** A repeating timer's fields fit together, and its base lies on whole units. */
  ghost predicate EntryOk(e: Entry, i: nat) {
    e.valid ==>
      && SlotOf(e.id) == i
      && (!e.bonce ==>
           e.dev > 0 && e.mod <= MONTH && e.tbase >= 0 && OnGrid(e.mod, e.tbase) && e.tstart == e.tbase + e.basetime
           && OnUnits(e.mod, e.tbase))
  }

  predicate Due(e: Entry, now: int32) {
    now >= e.tstart
  }

  /** A pass at `now` does not leave the 32-bit times with this timer. */
  ghost predicate CanFire(e: Entry, now: int32) {
    e.valid && !e.bonce && Due(e, now) ==>
      if now - e.tstart > 3600 then CanRecal(e, now)
      else e.dev > 0 && e.tbase >= 0 && Reaches(e, Pos(e.mod, e.tbase), now)
  }

  /** A timer after a pass: up to an hour late it goes on from its last slot, later than that it is
      recalculated; a one-shot timer stops. */
  ghost function Passed(e: Entry, now: int32): Entry
    requires CanFire(e, now)
  {
    if !e.valid || !Due(e, now) then e
    else if e.bonce then e.(valid := false)
    else if now - e.tstart > 3600 then Recalled(e, now)
    else Armed(e, Pos(e.mod, e.tbase), now)
  }

  // ----- What recalculation and passes achieve -----

  /** Recalculated, a repeating timer starts at the least of its slots after `now`, counted from the
      start of the year, month, day or hour. */
  lemma RecalIsLeastSlot(e: Entry, now: int32)
    requires CanRecal(e, now) && !e.bonce
    ensures var n, r := Normal(e), Recalled(e, now);
            && r.tstart > now && r.tstart == r.tbase + e.basetime
            && LeastSlot(n.mod, n.dev, Origin(n.mod, now), e.basetime, now, r.tstart)
            && r == n.(tbase := r.tbase, tstart := r.tstart)
  {
    NextIsLeast(Normal(e).mod, Normal(e).dev, Origin(Normal(e).mod, now), e.basetime, now);
  }

  /** After a pass it starts at the least slot after `now`: counted from its last one if it was up to an
      hour late, and from the start of the year, month, day or hour otherwise. */
  lemma PassIsLeastSlot(e: Entry, i: nat, now: int32)
    requires EntryOk(e, i) && CanFire(e, now) && e.valid && !e.bonce && now >= e.tstart
    ensures var r, late := Passed(e, now), now - e.tstart > 3600;
            && r.tstart > now && r.tstart == r.tbase + e.basetime
            && (late ==> now >= 0)
            && LeastSlot(e.mod, e.dev, if late then Origin(e.mod, now) else Pos(e.mod, e.tbase), e.basetime, now, r.tstart)
            && r == e.(tbase := r.tbase, tstart := r.tstart)
  {
    hide Next, LeastSlot, Stride, Pos, OnGrid, Point, FirstOf, ToUTime, Origin;
    if now - e.tstart > 3600 {
      RecalIsLeastSlot(e, now);
    } else {
      NextIsLeast(e.mod, e.dev, Pos(e.mod, e.tbase), e.basetime, now);
    }
  }

  lemma ArmedOk(e: Entry, i: nat, o: nat, now: int32)
    requires e.valid && SlotOf(e.id) == i && !e.bonce && e.dev > 0 && e.mod <= MONTH && Reaches(e, o, now)
    requires OnUnits(e.mod, o)
    ensures EntryOk(Armed(e, o, now), i) && Armed(e, o, now).tstart > now
  {
    PointsAreOnGrid(e.mod, Next(e.mod, Stride(e.mod, e.dev), o, e.basetime, now));
    NextStaysOnUnits(e.mod, e.dev, o, e.basetime, now);
  }

  lemma RecalledOk(e: Entry, i: nat, now: int32)
    requires e.valid && SlotOf(e.id) == i && CanRecal(e, now)
    ensures EntryOk(Recalled(e, now), i) && Recalled(e, now).valid && (!e.bonce ==> Recalled(e, now).tstart > now)
  {
    hide Reaches, EntryOk, OnUnits;
    if e.bonce {
      OneShotOk(e, i);
    } else {
      OriginOnUnits(Normal(e).mod, now);
      ArmedOk(Normal(e), i, Origin(Normal(e).mod, now), now);
    }
  }

  lemma OneShotOk(e: Entry, i: nat)
    requires SlotOf(e.id) == i && e.bonce
    ensures EntryOk(Normal(e), i)
  {
  }

  /** A pass keeps timers in order, and leaves none due. */
  lemma PassedOk(e: Entry, i: nat, now: int32)
    requires EntryOk(e, i) && CanFire(e, now)
    ensures EntryOk(Passed(e, now), i)
    ensures Passed(e, now).valid ==> !Due(Passed(e, now), now)
  {
    if e.valid && !e.bonce && Due(e, now) {
      if now - e.tstart > 3600 {
        RecalledOk(e, i, now);
      } else {
        ArmedOk(e, i, Pos(e.mod, e.tbase), now);
      }
    }
  }

  /** An hourly or daily timer with interval 1: catching it up step by step and recalculating it make
      no difference, exactly if the first slot of the day or month is at most one interval ahead. */
  lemma EitherWay(e: Entry, i: nat, now: int32)
    requires EntryOk(e, i) && e.valid && !e.bonce && Due(e, now) && (e.mod == HOUR || e.mod == DAY) && e.dev == 1
    requires CanRecal(e, now) && Reaches(e, Pos(e.mod, e.tbase), now)
    ensures Armed(e, Pos(e.mod, e.tbase), now) == Recalled(e, now) <==> Origin(e.mod, now) + e.basetime <= now + Unit(e.mod)
  {
    CatchUpIsRecalculation(e.mod, e.tbase, e.basetime, now);
  }

  /** The offset of an hourly or daily timer is shorter than its unit. */
  predicate Regular(e: Entry) {
    e.valid && !e.bonce && (e.mod == HOUR || e.mod == DAY) ==> e.basetime < Unit(e.mod)
  }

  /** It is, for a timer asked for with a real clock. */
  lemma NewIsRegular(was: Entry, id: int, conf: Conf, call: Callback)
    requires CanStart(was, conf) && conf.tdev != 0 && conf.tmod <= MONTH && (!conf.bonce ==> Fits(conf.tmod, conf.basetime))
    ensures Regular(NewEntry(was, id, conf, call))
  {
  }

  /** And it stays so, since passes and recalculations move only base and start. */
  lemma StaysRegular(e: Entry, i: nat, now: int32)
    requires EntryOk(e, i) && Regular(e)
    ensures CanFire(e, now) ==> Regular(Passed(e, now))
    ensures CanRecal(e, now) ==> Regular(Recalled(e, now))
  {
  }

  /** No timer leaves the 32-bit times as long as `now` is at least 255 months and its offset before
      the last of them. */
  lemma NoOverflow(e: Entry, i: nat, now: int32)
    requires EntryOk(e, i) && 0 <= now && now + e.basetime + 255 * 31 * 86400 < 0x8000_0000
    ensures CanRecal(e, now) && CanFire(e, now)
  {
    var n := Normal(e);
    TruncatedIsOrigin(n.mod, ClockOf(now), now);
    NextBound(n.mod, n.dev, Origin(n.mod, now), e.basetime, now);
    if e.valid && !e.bonce && Due(e, now) {
      NextBound(e.mod, e.dev, Pos(e.mod, e.tbase), e.basetime, now);
    }
  }

  // ----- All timers -----

  /** The first empty slot from `i` on, or `|slots|`. */
  function FirstEmpty(slots: seq<Entry>, i: nat): (r: nat)
    requires i <= |slots|
    ensures i <= r <= |slots| && (r < |slots| ==> !slots[r].valid)
    ensures forall j :: i <= j < r ==> slots[j].valid
    decreases |slots| - i
  {
    if i == |slots| || !slots[i].valid then i else FirstEmpty(slots, i + 1)
  }

  /** The linked slots are exactly the valid ones. */
  ghost predicate Ok(s: State) {
    && |s.slots| == MAX && Distinct(s.order, MAX)
    && (forall i: nat :: i < MAX ==> (i in s.order <==> s.slots[i].valid))
    && (forall i: nat :: i < MAX ==> EntryOk(s.slots[i], i))
  }

  /** The entry for a new timer; of the slot's former contents a one-shot timer keeps what it does
      not use. */
  ghost function NewEntry(was: Entry, id: int, conf: Conf, call: Callback): Entry
    requires CanStart(was, conf)
  {
    if conf.bonce then was.(valid := true, id := id, call := call, bonce := true, dev := 1, mod := 1, tstart := conf.curtime)
    else Recalled(Asked(was, conf).(valid := true, id := id, call := call), conf.curtime)
  }

  ghost function Asked(was: Entry, conf: Conf): Entry {
    was.(bonce := false, dev := conf.tdev, mod := conf.tmod, basetime := GetBase(conf.tmod, conf.basetime))
  }

  ghost predicate CanStart(was: Entry, conf: Conf) {
    conf.bonce || CanRecal(Asked(was, conf), conf.curtime)
  }

  ghost function Added(s: State, conf: Conf, call: Callback): (State, int)
    requires CanAdd(s, conf)
  {
    var i := FirstEmpty(s.slots, 0);
    if conf.tdev == 0 || conf.tmod > MONTH || i == |s.slots| then (s, -1)
    else
      var id := Id(s.addup, i);
      (State(s.slots[i := NewEntry(s.slots[i], id, conf, call)], s.order + [i], s.addup + 1), id)
  }

  predicate Names(s: State, id: int) {
    0 <= SlotOf(id) < |s.slots| && s.slots[SlotOf(id)].id == id && s.slots[SlotOf(id)].valid
  }

  function Stopped(s: State, id: int): State {
    if Names(s, id) then
      var i := SlotOf(id);
      s.(slots := s.slots[i := s.slots[i].(valid := false)], order := Without(s.order, i))
    else s
  }

  /** The slot that a new timer goes to, if the request is accepted, can take it. */
  ghost predicate CanAdd(s: State, conf: Conf) {
    var i := FirstEmpty(s.slots, 0);
    conf.tdev == 0 || conf.tmod > MONTH || i == |s.slots| || CanStart(s.slots[i], conf)
  }

  /** A running timer has the id, the handler, and what else was asked for. */
  predicate AsAsked(e: Entry, id: int, conf: Conf, call: Callback) {
    && e.valid && e.id == id && e.call == call && e.bonce == conf.bonce
    && if conf.bonce then e.dev == 1 && e.mod == HOUR && e.tstart == conf.curtime
       else e.dev == conf.tdev && e.mod == conf.tmod && e.basetime == GetBase(conf.tmod, conf.basetime)
  }

  /** A new timer is linked in, and repeating, starts at the least of its slots after the time given. */
  lemma AddedOk(s: State, conf: Conf, call: Callback)
    requires Ok(s) && CanAdd(s, conf)
    ensures var (r, id) := Added(s, conf, call);
            && Ok(r)
            && (id == -1 <==> conf.tdev == 0 || conf.tmod > MONTH || forall i :: 0 <= i < MAX ==> s.slots[i].valid)
            && (id == -1 ==> r == s)
            && (id != -1 ==>
                  && Names(r, id) && AsAsked(r.slots[SlotOf(id)], id, conf, call)
                  && r.order == s.order + [SlotOf(id)] && r.addup == s.addup + 1
                  && (forall j :: 0 <= j < MAX && j != SlotOf(id) ==> r.slots[j] == s.slots[j])
                  && (!conf.bonce ==>
                        LeastSlot(conf.tmod, conf.tdev, Origin(conf.tmod, conf.curtime),
                                  GetBase(conf.tmod, conf.basetime), conf.curtime, r.slots[SlotOf(id)].tstart)))
  {
    hide NewEntry, EntryOk, CanStart, Origin, Id, GetBase, LeastSlot;
    var i := FirstEmpty(s.slots, 0);
    FarIds(s.addup, s.addup, i);
    if i < MAX && conf.tdev != 0 && conf.tmod <= MONTH {
      NewEntryOk(s.slots[i], i, Id(s.addup, i), conf, call);
    }
  }

  lemma NewEntryOk(was: Entry, i: nat, id: int, conf: Conf, call: Callback)
    requires CanStart(was, conf) && SlotOf(id) == i && conf.tdev != 0 && conf.tmod <= MONTH
    ensures var e := NewEntry(was, id, conf, call);
            && EntryOk(e, i) && AsAsked(e, id, conf, call)
            && (!conf.bonce ==>
                  LeastSlot(conf.tmod, conf.tdev, Origin(conf.tmod, conf.curtime),
                            GetBase(conf.tmod, conf.basetime), conf.curtime, e.tstart))
  {
    if !conf.bonce {
      hide LeastSlot, Next, Point, Origin, OnGrid, GetBase;
      var e := Asked(was, conf).(valid := true, id := id, call := call);
      RecalIsLeastSlot(e, conf.curtime);
      RecalledOk(e, i, conf.curtime);
    }
  }

  lemma StoppedOk(s: State, id: int)
    requires Ok(s)
    ensures Ok(Stopped(s, id)) && !Names(Stopped(s, id), id)
  {
    if Names(s, id) {
      WithoutKeeps(s.order, MAX, SlotOf(id));
    }
  }

  /** The one-shot timers a pass stops. */
  function Stops(slots: seq<Entry>, now: int32): nat -> bool {
    (i: nat) => i < |slots| && Due(slots[i], now) && slots[i].bonce
  }

  /** The handlers called in a pass, in order. */
  function Calls(slots: seq<Entry>, order: seq<nat>, now: int32): seq<Call>
    requires forall k :: 0 <= k < |order| ==> order[k] < |slots|
  {
    if order == [] then []
    else
      var rest, e := order[..|order| - 1], slots[order[|order| - 1]];
      Calls(slots, rest, now) + if Due(e, now) then [Call(e.id, e.call, now)] else []
  }

  ghost predicate AllCanFire(slots: seq<Entry>, now: int32) {
    forall i :: 0 <= i < |slots| ==> CanFire(slots[i], now)
  }

  ghost function AllPassed(s: State, now: int32): State
    requires AllCanFire(s.slots, now)
  {
    State(seq(|s.slots|, i requires 0 <= i < |s.slots| => Passed(s.slots[i], now)), Kept(s.order, Stops(s.slots, now)), s.addup)
  }

  /** A pass keeps the list in order, and leaves no timer due: each fires at most once in a pass. */
  lemma AllPassedOk(s: State, now: int32)
    requires Ok(s) && AllCanFire(s.slots, now)
    ensures Ok(AllPassed(s, now))
    ensures forall i :: 0 <= i < MAX && AllPassed(s, now).slots[i].valid ==> !Due(AllPassed(s, now).slots[i], now)
  {
    KeptIs(s.order, MAX, Stops(s.slots, now));
    forall i: nat | i < MAX
      ensures EntryOk(Passed(s.slots[i], now), i)
      ensures Passed(s.slots[i], now).valid ==> !Due(Passed(s.slots[i], now), now)
      ensures Passed(s.slots[i], now).valid <==> s.slots[i].valid && !Stops(s.slots, now)(i)
    {
      PassedOk(s.slots[i], i, now);
    }
  }

  ghost predicate AllCanRecal(slots: seq<Entry>, now: int32) {
    forall i :: 0 <= i < |slots| && slots[i].valid ==> CanRecal(slots[i], now)
  }

  ghost function AllRecalled(s: State, now: int32): State
    requires AllCanRecal(s.slots, now)
  {
    s.(slots := seq(|s.slots|, i requires 0 <= i < |s.slots| =>
                      if s.slots[i].valid then Recalled(s.slots[i], now) else s.slots[i]))
  }

  lemma AllRecalledOk(s: State, now: int32)
    requires Ok(s) && AllCanRecal(s.slots, now)
    ensures Ok(AllRecalled(s, now))
  {
    forall i: nat | i < MAX && s.slots[i].valid
      ensures EntryOk(Recalled(s.slots[i], now), i) && Recalled(s.slots[i], now).valid
    {
      assert EntryOk(s.slots[i], i);
      RecalledOk(s.slots[i], i, now);
    }
  }

  ghost function RecalledOne(s: State, id: int, now: int32): State
    requires Names(s, id) ==> CanRecal(s.slots[SlotOf(id)], now)
  {
    if Names(s, id) then s.(slots := s.slots[SlotOf(id) := Recalled(s.slots[SlotOf(id)], now)]) else s
  }

  lemma RecalledOneOk(s: State, id: int, now: int32)
    requires Ok(s) && (Names(s, id) ==> CanRecal(s.slots[SlotOf(id)], now))
    ensures Ok(RecalledOne(s, id, now))
  {
    if Names(s, id) {
      assert EntryOk(s.slots[SlotOf(id)], SlotOf(id));
      RecalledOk(s.slots[SlotOf(id)], SlotOf(id), now);
    }
  }

  function CallOf(e: Entry, now: int32): Call {
    Call(e.id, e.call, now)
  }

  /** A call of the handler of a timer in the list that is due. */
  predicate IsDueCall(slots: seq<Entry>, order: seq<nat>, now: int32, c: Call) {
    var i := SlotOf(c.id);
    i in order && i < |slots| && Due(slots[i], now) && c == CallOf(slots[i], now)
  }

  /** In a pass the due timers are called, once each and with the time of the pass, and no others. */
  lemma {:induction false} CalledOnce(slots: seq<Entry>, order: seq<nat>, now: int32)
    requires |slots| == MAX && Distinct(order, MAX)
    requires forall i :: i in order ==> i < MAX && SlotOf(slots[i].id) == i
    ensures var calls := Calls(slots, order, now);
            && (forall c :: c in calls <==> IsDueCall(slots, order, now, c))
            && (forall a, b :: 0 <= a < b < |calls| ==> calls[a].id != calls[b].id)
  {
    if order != [] {
      var rest, last := order[..|order| - 1], order[|order| - 1];
      assert order == rest + [last];
      assert last in order && last !in rest;
      CalledOnce(slots, rest, now);
      var before, calls := Calls(slots, rest, now), Calls(slots, order, now);
      assert calls == before + if Due(slots[last], now) then [CallOf(slots[last], now)] else [];
      hide Calls, Distinct, Due, SlotOf;
      forall c
        ensures c in calls <==> IsDueCall(slots, order, now, c)
      {
        assert c in before <==> IsDueCall(slots, rest, now, c);
      }
      forall a | 0 <= a < |before|
        ensures before[a].id != slots[last].id
      {
        assert before[a] in before;
      }
    }
  }

  /** A pass calls exactly the handlers of the timers that run and are due, each one once. */
  lemma PassCallsDue(s: State, now: int32)
    requires Ok(s)
    ensures forall k :: 0 <= k < |s.order| ==> s.order[k] < |s.slots|
    ensures var calls := Calls(s.slots, s.order, now);
            && (forall i: nat :: i < MAX && s.slots[i].valid ==> (CallOf(s.slots[i], now) in calls <==> Due(s.slots[i], now)))
            && (forall c :: c in calls ==> var i := SlotOf(c.id); 0 <= i < MAX && s.slots[i].valid && c == CallOf(s.slots[i], now))
            && (forall a, b :: 0 <= a < b < |calls| ==> calls[a].id != calls[b].id)
  {
    assert forall i: nat :: i < MAX && s.slots[i].valid ==> EntryOk(s.slots[i], i) && i in s.order;
    assert forall i :: i in s.order ==> i < MAX && s.slots[i].valid;
    CalledOnce(s.slots, s.order, now);
    hide Calls, Distinct, Due, Ok;
    forall i: nat | i < MAX && s.slots[i].valid
      ensures CallOf(s.slots[i], now) in Calls(s.slots, s.order, now) <==> Due(s.slots[i], now)
    {
      assert SlotOf(CallOf(s.slots[i], now).id) == i;
    }
  }

  // ----- Runs -----

  datatype Op =
    | Add(conf: Conf, call: Callback)
    | Stop(id: int)
    | Recal(id: int, now: int32)
    | RecalAll(now: int32)
    | Pass(now: int32)

  /** No time leaves 32 bits. */
  ghost predicate Can(s: State, op: Op) {
    match op
    case Add(conf, _) => CanAdd(s, conf)
    case Stop(_) => true
    case Recal(id, now) => Names(s, id) ==> CanRecal(s.slots[SlotOf(id)], now)
    case RecalAll(now) => AllCanRecal(s.slots, now)
    case Pass(now) => AllCanFire(s.slots, now)
  }

  ghost function Step(s: State, op: Op): State
    requires Can(s, op)
  {
    match op
    case Add(conf, call) => Added(s, conf, call).0
    case Stop(id) => Stopped(s, id)
    case Recal(id, now) => RecalledOne(s, id, now)
    case RecalAll(now) => AllRecalled(s, now)
    case Pass(now) => AllPassed(s, now)
  }

  lemma StepOk(s: State, op: Op)
    requires Ok(s) && Can(s, op)
    ensures Ok(Step(s, op))
  {
    hide Ok, CanAdd, AllCanRecal, AllCanFire, CanRecal;
    match op
    case Add(conf, call) => AddedOk(s, conf, call);
    case Stop(id) => StoppedOk(s, id);
    case Recal(id, now) => RecalledOneOk(s, id, now);
    case RecalAll(now) => AllRecalledOk(s, now);
    case Pass(now) => AllPassedOk(s, now);
  }

  /** The run is possible without leaving 32 bits. */
  ghost predicate Runs(s: State, ops: seq<Op>)
    requires Ok(s)
    decreases |ops|, 0
  {
    ops == [] ||
    var n := |ops| - 1;
    Runs(s, ops[..n]) && Can(Run(s, ops[..n]), ops[n])
  }

  /** The state after a run. */
  ghost function Run(s: State, ops: seq<Op>): (r: State)
    requires Ok(s) && Runs(s, ops)
    ensures Ok(r)
    decreases |ops|, 1
  {
    if ops == [] then s
    else
      var before := Run(s, ops[..|ops| - 1]);
      StepOk(before, ops[|ops| - 1]);
      Step(before, ops[|ops| - 1])
  }

  /** The table as `SysTimerInit` leaves it. */
  function Empty(): (s: State)
    ensures Ok(s)
  {
    State(seq(MAX, i => Entry(false, 0, Callback(0, 0), 0, 0, 0, 0, false, 0)), [], 0)
  }

  ghost predicate AllRegular(s: State) {
    forall i :: 0 <= i < |s.slots| ==> Regular(s.slots[i])
  }

  /** New timers are asked for with real clocks. */
  predicate RealClock(op: Op) {
    op.Add? && !op.conf.bonce ==> Fits(op.conf.tmod, op.conf.basetime)
  }

  lemma StepRegular(s: State, op: Op)
    requires Ok(s) && Can(s, op) && AllRegular(s) && RealClock(op)
    ensures AllRegular(Step(s, op))
  {
    hide Regular, Recalled, Passed, NewEntry, CanRecal, CanFire, CanStart;
    forall i: nat | i < MAX
      ensures Regular(Step(s, op).slots[i])
    {
      StepKeepsRegular(s, op, i);
    }
  }

  lemma StepKeepsRegular(s: State, op: Op, i: nat)
    requires Ok(s) && Can(s, op) && AllRegular(s) && RealClock(op) && i < MAX
    ensures |Step(s, op).slots| == MAX && Regular(Step(s, op).slots[i])
  {
    var e := s.slots[i];
    assert EntryOk(e, i) && Regular(e);
    match op {
      case Add(conf, call) =>
        if CanStart(e, conf) && conf.tdev != 0 && conf.tmod <= MONTH {
          NewIsRegular(e, Id(s.addup, i), conf, call);
        }
      case Stop(id) =>
      case Recal(id, now) =>
        StaysRegular(e, i, now);
      case RecalAll(now) =>
        StaysRegular(e, i, now);
      case Pass(now) =>
        assert CanFire(e, now);
        StaysRegular(e, i, now);
    }
  }

  lemma {:induction false} RunRegular(ops: seq<Op>)
    requires Runs(Empty(), ops) && forall k :: 0 <= k < |ops| ==> RealClock(ops[k])
    ensures AllRegular(Run(Empty(), ops))
    decreases |ops|
  {
    hide Ok, Can, Step, RealClock;
    if ops != [] {
      var n := |ops| - 1;
      RunRegular(ops[..n]);
      StepRegular(Run(Empty(), ops[..n]), ops[n]);
    }
  }

  /** After any run in which timers were asked for with real clocks, a late hourly or daily timer with
      interval 1 may be caught up or recalculated: it makes no difference. */
  lemma AlwaysEitherWay(ops: seq<Op>, i: nat, now: int32)
    requires Runs(Empty(), ops) && (forall k :: 0 <= k < |ops| ==> RealClock(ops[k])) && i < MAX
    requires var e := Run(Empty(), ops).slots[i];
             && e.valid && !e.bonce && Due(e, now) && (e.mod == HOUR || e.mod == DAY) && e.dev == 1
             && e.tbase >= 0 && CanRecal(e, now) && Reaches(e, Pos(e.mod, e.tbase), now)
    ensures var e := Run(Empty(), ops).slots[i];
            Armed(e, Pos(e.mod, e.tbase), now) == Recalled(e, now)
  {
    var s := Run(Empty(), ops);
    var e := s.slots[i];
    assert EntryOk(e, i);
    RunRegular(ops);
    assert Regular(e);
    hide Run, Runs, Ok, AllRegular, Reaches, Armed, Recalled;
    EitherWay(e, i, now);
    TruncatedIsOrigin(e.mod, ClockOf(now), now);
  }

  // ----- Stale ids -----

  ghost function MarkOf(s: State, i: nat): Mark
    requires Ok(s) && i < MAX
  {
    Mark(s.slots[i].valid, s.slots[i].id, s.addup)
  }

  /** Slot `i` before the run and after each of its steps. */
  ghost function History(s: State, ops: seq<Op>, i: nat): (h: seq<Mark>)
    requires Ok(s) && Runs(s, ops) && i < MAX
    ensures |h| == |ops| + 1 && h[0] == MarkOf(s, i) && h[|ops|] == MarkOf(Run(s, ops), i)
    decreases |ops|
  {
    if ops == [] then [MarkOf(s, i)] else History(s, ops[..|ops| - 1], i) + [MarkOf(Run(s, ops), i)]
  }

  /** A step keeps the id of a running timer, and makes the id of a new one from the counter. */
  lemma NewId(s: State, op: Op, i: nat)
    requires Ok(s) && Can(s, op) && i < MAX
    ensures Ok(Step(s, op)) && Follows(MarkOf(s, i), MarkOf(Step(s, op), i), i)
  {
    StepOk(s, op);
  }

  lemma {:induction false} HistoryOk(s: State, ops: seq<Op>, i: nat)
    requires Ok(s) && Runs(s, ops) && i < MAX
    ensures IsHistory(History(s, ops, i), i)
    decreases |ops|
  {
    if ops != [] {
      var n := |ops| - 1;
      HistoryOk(s, ops[..n], i);
      assert Run(s, ops) == Step(Run(s, ops[..n]), ops[n]);
      NewId(Run(s, ops[..n]), ops[n], i);
      hide Ok, Follows, Step, Can;
      HistoryGrows(History(s, ops[..n], i), MarkOf(Run(s, ops), i), i);
    }
  }

  /** The id of a timer that has ended names no timer any more, until 65536 more have been added. */
  lemma StaleIdNamesNothing(s: State, ops: seq<Op>, i: nat)
    requires Ok(s) && Runs(s, ops) && i < MAX && Newest(MarkOf(s, i), i)
    requires !Lasts(History(s, ops, i)) && Run(s, ops).addup - s.addup < 0x1_0000
    ensures var r, id := Run(s, ops), s.slots[i].id;
            !Names(r, id) && Stopped(r, id) == r
  {
    hide Run, Runs, Ok, History;
    HistoryOk(s, ops, i);
    StaleId(History(s, ops, i), i);
    FarIds(s.addup - 1, s.addup - 1, i);
  }

  // ----- What becomes of one timer -----

  /** What each step does to a running timer: additions and what names other timers leave it alone. */
  lemma StepOnTimer(s: State, op: Op, i: nat)
    requires Ok(s) && Can(s, op) && i < MAX && s.slots[i].valid
    ensures |Step(s, op).slots| == MAX
    ensures var e, e' := s.slots[i], Step(s, op).slots[i];
            match op
            case Add(_, _) => e' == e
            case Stop(id) => e' == if id == e.id then e.(valid := false) else e
            case Recal(id, now) => if id == e.id then CanRecal(e, now) && e' == Recalled(e, now) else e' == e
            case RecalAll(now) => CanRecal(e, now) && e' == Recalled(e, now)
            case Pass(now) => CanFire(e, now) && e' == Passed(e, now)
  {
    assert EntryOk(s.slots[i], i);
    hide EntryOk, Recalled, Passed, CanRecal, CanFire, NewEntry, CanStart, Distinct;
  }

  /** The same timer later: only base and start have moved, those of a one-shot timer not at all. */
  predicate SameTimer(e: Entry, e': Entry) {
    e' == e.(tbase := e'.tbase, tstart := e'.tstart) && (e.bonce ==> e' == e)
  }

  /** Interval and unit need not be put right. */
  predicate Settled(e: Entry) {
    e.dev > 0 && e.mod <= MONTH
  }

  lemma RecalledIsSame(e: Entry, now: int32)
    requires Settled(e) && CanRecal(e, now)
    ensures SameTimer(e, Recalled(e, now))
  {
  }

  lemma PassedIsSame(e: Entry, now: int32)
    requires Settled(e) && e.valid && CanFire(e, now) && Passed(e, now).valid
    ensures SameTimer(e, Passed(e, now))
  {
  }

  lemma StepKeepsTimer(s: State, op: Op, i: nat)
    requires Ok(s) && Can(s, op) && i < MAX && s.slots[i].valid && Settled(s.slots[i])
    requires |Step(s, op).slots| == MAX && Step(s, op).slots[i].valid
    ensures SameTimer(s.slots[i], Step(s, op).slots[i])
  {
    StepOnTimer(s, op, i);
    hide Ok, Can, Step, CanRecal, CanFire, Recalled, Passed, Settled, SlotOf;
    var e := s.slots[i];
    match op
    case Add(_, _) =>
    case Stop(_) =>
    case Recal(id, now) => if id == e.id { RecalledIsSame(e, now); }
    case RecalAll(now) => RecalledIsSame(e, now);
    case Pass(now) => PassedIsSame(e, now);
  }

  /** A run and its last step. */
  lemma LastStep(s: State, ops: seq<Op>, i: nat)
    requires Ok(s) && Runs(s, ops) && ops != [] && i < MAX
    ensures var rest, op := ops[..|ops| - 1], ops[|ops| - 1];
            && Runs(s, rest) && Can(Run(s, rest), op) && Run(s, ops) == Step(Run(s, rest), op)
            && |Run(s, ops).slots| == MAX && |Run(s, rest).slots| == MAX
            && (Lasts(History(s, ops, i)) ==>
                  Lasts(History(s, rest, i)) && Run(s, ops).slots[i].valid && Run(s, rest).slots[i].valid)
  {
    hide Can, Step;
    var h, h' := History(s, ops[..|ops| - 1], i), History(s, ops, i);
    assert h' == h + [MarkOf(Run(s, ops), i)];
    assert forall k :: 0 <= k < |h| ==> h'[k] == h[k];
  }

  lemma {:induction false} RunKeepsTimer(s: State, ops: seq<Op>, i: nat)
    requires Ok(s) && Runs(s, ops) && i < MAX && Settled(s.slots[i]) && Lasts(History(s, ops, i))
    ensures |Run(s, ops).slots| == MAX && Run(s, ops).slots[i].valid && SameTimer(s.slots[i], Run(s, ops).slots[i])
    decreases |ops|
  {
    if ops != [] {
      LastStep(s, ops, i);
      RunKeepsTimer(s, ops[..|ops| - 1], i);
      hide Ok, Can, Step, Run, Runs, History, Lasts;
      StepKeepsTimer(Run(s, ops[..|ops| - 1]), ops[|ops| - 1], i);
    }
  }

  /** A repeating timer starts at the time of the clock it was asked for with. */
  lemma StartShowsClock(e: Entry, i: nat, b: Clock)
    requires EntryOk(e, i) && e.valid && !e.bonce && Fits(e.mod, b) && e.basetime == GetBase(e.mod, b)
    ensures e.tbase >= 0 && e.tstart >= 0 && ShowsClock(e.mod, b, ClockOf(e.tbase), ClockOf(e.tstart))
  {
    SlotShowsClock(e.mod, b, Pos(e.mod, e.tbase));
  }

  /** A timer that has been added, in every run in which it lives: its handler, interval and unit are
      those asked for; a one-shot timer waits for the time asked for; a repeating one always starts
      next at the minute, hour or day asked for. */
  lemma KeepsItsTime(s: State, conf: Conf, call: Callback, r: State, id: int, ops: seq<Op>)
    requires Ok(s) && CanAdd(s, conf) && (r, id) == Added(s, conf, call) && id != -1
    requires Ok(r) && 0 <= SlotOf(id) < MAX && Runs(r, ops) && Lasts(History(r, ops, SlotOf(id)))
    ensures var e := Run(r, ops).slots[SlotOf(id)];
            && e.valid && e.id == id && e.call == call && e.bonce == conf.bonce
            && if conf.bonce then e.tstart == conf.curtime
               else && e.dev == conf.tdev && e.mod == conf.tmod
                    && (Fits(conf.tmod, conf.basetime) ==>
                          e.tbase >= 0 && e.tstart >= 0
                          && ShowsClock(conf.tmod, conf.basetime, ClockOf(e.tbase), ClockOf(e.tstart)))
  {
    AddedOk(s, conf, call);
    var i: nat := SlotOf(id);
    var end := Run(r, ops);
    assert EntryOk(end.slots[i], i);
    hide Ok, CanAdd, Added, Run, Runs, History, Lasts, EntryOk, ShowsClock, GetBase, SlotOf, LeastSlot, Origin, Fits;
    RunKeepsTimer(r, ops, i);
    if !conf.bonce && Fits(conf.tmod, conf.basetime) {
      StartShowsClock(end.slots[i], i, conf.basetime);
    }
  }

  /** And in a pass at the end of such a run its handler is called, with its argument and the time of
      the pass, exactly if its start has come. */
  lemma CalledAsAsked(s: State, conf: Conf, call: Callback, r: State, id: int, ops: seq<Op>, now: int32)
    requires Ok(s) && CanAdd(s, conf) && (r, id) == Added(s, conf, call) && id != -1
    requires Ok(r) && 0 <= SlotOf(id) < MAX && Runs(r, ops) && Lasts(History(r, ops, SlotOf(id)))
    ensures var end := Run(r, ops);
            && (forall k :: 0 <= k < |end.order| ==> end.order[k] < |end.slots|)
            && var calls := Calls(end.slots, end.order, now);
               && (Call(id, call, now) in calls <==> now >= end.slots[SlotOf(id)].tstart)
               && (forall c :: c in calls && c.id == id ==> c == Call(id, call, now))
  {
    var end := Run(r, ops);
    KeepsItsTime(s, conf, call, r, id, ops);
    hide Ok, CanAdd, Added, Run, Runs, History, Lasts, Calls, GetBase, SlotOf, ShowsClock, Fits;
    PassCallsDue(end, now);
  }

  // ----- A pass, one timer after the other -----

  /** When the first `k` timers of the list have been dealt with. */
  ghost function PassedTo(s: State, now: int32, k: nat): State
    requires Ok(s) && k <= |s.order| && AllCanFire(s.slots, now)
  {
    State(seq(MAX, i requires 0 <= i < MAX => if i in s.order[..k] then Passed(s.slots[i], now) else s.slots[i]),
          Swept(s.order, Stops(s.slots, now), k), s.addup)
  }

  lemma PassedToEnds(s: State, now: int32)
    requires Ok(s) && AllCanFire(s.slots, now)
    ensures PassedTo(s, now, 0) == s && PassedTo(s, now, |s.order|) == AllPassed(s, now)
    ensures Calls(s.slots, s.order[..0], now) == [] && s.order[..|s.order|] == s.order
    ensures forall k :: 0 <= k < |s.order| ==> s.order[k] < MAX
  {
    hide Passed, CanFire, EntryOk, Kept, Swept, Stops;
    SweptEnds(s.order, Stops(s.slots, now));
    assert s.order[..|s.order|] == s.order;
    forall i | 0 <= i < MAX && !s.slots[i].valid
      ensures Passed(s.slots[i], now) == s.slots[i]
    {
      assert CanFire(s.slots[i], now);
      NotPassed(s.slots[i], now);
    }
  }

  lemma NotPassed(e: Entry, now: int32)
    requires CanFire(e, now) && !e.valid
    ensures Passed(e, now) == e
  {
  }

  lemma OnePassed(s: State, now: int32, k: nat)
    requires Ok(s) && k < |s.order| && AllCanFire(s.slots, now)
    ensures var p, before, after := s.order[k], PassedTo(s, now, k), PassedTo(s, now, k + 1);
            && p < MAX && before.slots[p] == s.slots[p] && s.slots[p].valid
            && after.slots == before.slots[p := Passed(s.slots[p], now)] && after.addup == before.addup
            && before.order == Swept(s.order, Stops(s.slots, now), k)
            && after.order == Swept(s.order, Stops(s.slots, now), k + 1)
            && Calls(s.slots, s.order[..k + 1], now)
               == Calls(s.slots, s.order[..k], now)
                  + if Due(s.slots[p], now) then [Call(s.slots[p].id, s.slots[p].call, now)] else []
  {
    var p := s.order[k];
    assert p in s.order;
    assert s.order[..k + 1] == s.order[..k] + [p] && s.order[..k + 1][..k] == s.order[..k];
    assert forall j :: 0 <= j < k ==> s.order[..k][j] == s.order[j] != s.order[k];
    hide Swept, Due, Passed, CanFire;
    assert p !in s.order[..k];
  }

  /** When the first `k` timers of the list have been recalculated. */
  ghost function RecalledTo(s: State, now: int32, k: nat): State
    requires Ok(s) && k <= |s.order| && AllCanRecal(s.slots, now)
  {
    s.(slots := seq(MAX, i requires 0 <= i < MAX =>
                      if i in s.order[..k] && s.slots[i].valid then Recalled(s.slots[i], now) else s.slots[i]))
  }

  lemma RecalledToEnds(s: State, now: int32)
    requires Ok(s) && AllCanRecal(s.slots, now)
    ensures RecalledTo(s, now, 0) == s && RecalledTo(s, now, |s.order|) == AllRecalled(s, now)
    ensures forall k :: 0 <= k < |s.order| ==> s.order[k] < MAX
  {
    assert s.order[..|s.order|] == s.order;
  }

  lemma OneRecalled(s: State, now: int32, k: nat, next: seq<nat>, prev: seq<nat>)
    requires Ok(s) && k < |s.order| && AllCanRecal(s.slots, now) && Cycle(next, prev, s.order, MAX)
    ensures var p, before, after := s.order[k], RecalledTo(s, now, k), RecalledTo(s, now, k + 1);
            && p < MAX && before.slots[p] == s.slots[p] && s.slots[p].valid && CanRecal(s.slots[p], now)
            && after == before.(slots := before.slots[p := Recalled(s.slots[p], now)])
            && next[p] == At(s.order, MAX, k + 2)
  {
    var p := s.order[k];
    assert p in s.order && next[At(s.order, MAX, k + 1)] == At(s.order, MAX, k + 2);
    assert s.order[..k + 1] == s.order[..k] + [p];
    assert forall j :: 0 <= j < k ==> s.order[..k][j] == s.order[j] != s.order[k];
    hide Recalled, CanRecal, Cycle;
    assert p !in s.order[..k];
  }

  // ----- The program's own state -----

  /** `RTimerBuffer`, the list through it, and `RTimerIdAddup`. */
  class RTimerTable {
    const buffer: array<Entry>
    const list: List
    var addup: nat

    ghost function Now(): State
      reads this, buffer, list
    {
      State(buffer[..], list.order, addup)
    }

    ghost predicate Valid()
      reads this, buffer, list, list.next, list.prev
    {
      buffer.Length == MAX && list.n == MAX && list.Valid() && Ok(Now())
    }

    /** `SysTimerInit`. */
    constructor ()
      ensures Valid() && fresh(buffer) && fresh(list) && fresh(list.next) && fresh(list.prev)
      ensures Now() == Empty()
    {
      buffer := new Entry[MAX](_ => Entry(false, 0, Callback(0, 0), 0, 0, 0, 0, false, 0));
      list := new List(MAX);
      addup := 0;
    }

    /** The search loop of a recalculation: from `tbase` on, base and start of the first slot after
        `now`. */
    method SearchSlot(mod: byte, dev: byte, tbase0: int32, basetime: nat, now: int32, ghost o0: nat)
        returns (tbase: int32, tstart: int32)
      requires mod <= MONTH && dev > 0 && tbase0 == Point(mod, o0)
      requires Point(mod, Next(mod, Stride(mod, dev), o0, basetime, now)) + basetime < 0x8000_0000
      ensures tbase == Point(mod, Next(mod, Stride(mod, dev), o0, basetime, now)) && tstart == tbase + basetime
    {
      hide FirstOf, Stride, Unit, Point, Next;
      ghost var o := o0;
      ghost var stride := Stride(mod, dev);
      ghost var end := Next(mod, stride, o0, basetime, now);
      PointMono(mod, o0, end);
      tbase := tbase0;
      tstart := tbase + basetime;
      while now >= tstart
        invariant tbase == Point(mod, o) && tstart == tbase + basetime
        invariant stride > 0 && stride == Stride(mod, dev) && Next(mod, stride, o, basetime, now) == end
        decreases end - o
      {
        tbase, tstart := OneStep(mod, dev, tbase, basetime, now, o);
        o := o + stride;
      }
      NextHere(mod, stride, o, basetime, now);
    }

    /** One step of the search, from a slot that is not after `now`. */
    method OneStep(mod: byte, dev: byte, tbase0: int32, basetime: nat, now: int32, ghost o: nat)
        returns (tbase: int32, tstart: int32)
      requires mod <= MONTH && dev > 0 && tbase0 == Point(mod, o) && tbase0 + basetime <= now
      requires Point(mod, Next(mod, Stride(mod, dev), o, basetime, now)) + basetime < 0x8000_0000
      ensures tbase == Point(mod, o + Stride(mod, dev)) && tstart == tbase + basetime
      ensures Next(mod, Stride(mod, dev), o + Stride(mod, dev), basetime, now)
              == Next(mod, Stride(mod, dev), o, basetime, now)
    {
      hide FirstOf, AddTime, Stride, Unit, Next;
      ghost var stride := Stride(mod, dev);
      NextSkips(mod, stride, o, basetime, now);
      AddTimeMoves(mod, dev, o);
      PointMono(mod, o + stride, Next(mod, stride, o, basetime, now));
      UnitsFit(mod, dev);
      tbase := UTimeAdd(tbase0, mod, dev);
      tstart := tbase + basetime;
    }

    method RecalRTimerP(i: nat, curtime: int32)
      requires buffer.Length == MAX && i < MAX && CanRecal(buffer[i], curtime)
      modifies buffer
      ensures buffer[..] == old(buffer[..][i := Recalled(buffer[i], curtime)])
    {
      hide Point, Next, Origin, FirstOf, Stride, Unit, ToUTime;
      ghost var was := buffer[i];
      if buffer[i].dev == 0 {
        buffer[i] := buffer[i].(dev := if buffer[i].mod == 0 then 15 else 1);
      }
      if buffer[i].mod > MONTH {
        buffer[i] := buffer[i].(mod := HOUR);
      }
      var e := buffer[i];
      assert e == Normal(was);
      if e.bonce {
        return;
      }
      var tbase := PeriodStart(e.mod, curtime);
      var tstart;
      tbase, tstart := SearchSlot(e.mod, e.dev, tbase, e.basetime, curtime, Origin(e.mod, curtime));
      buffer[i] := e.(tbase := tbase, tstart := tstart);
    }

    /** The clock with the fields below the unit cleared: each case falls through to the next. */
    method PeriodStart(mod: byte, curtime: int32) returns (t: int32)
      requires mod <= MONTH && curtime >= 0
      ensures t == Point(mod, Origin(mod, curtime))
    {
      var clock, _ := UTimeToSysClock(curtime);
      OneClock(clock, ClockOf(curtime));
      TruncatedIsOrigin(mod, clock, curtime);
      hide ToUTime, Origin, Point;
      if mod == MONTH {
        clock := clock.(month := 1);
      }
      if mod >= DAY {
        clock := clock.(day := 1);
      }
      if mod >= HOUR {
        clock := clock.(hour := 0);
      }
      clock := clock.(minute := 0);
      clock := clock.(second := 0);
      t := ToUTime(clock);
    }

    method SysRecalRTimer(id: int, now: int32)
      requires Valid() && (Names(Now(), id) ==> CanRecal(buffer[SlotOf(id)], now))
      modifies buffer
      ensures Valid() && Now() == RecalledOne(old(Now()), id, now)
    {
      RecalledOneOk(Now(), id, now);
      var offset := id / 0x1_0000;
      if offset < 0 || offset >= MAX {
        return;
      }
      if buffer[offset].id == id && buffer[offset].valid {
        RecalRTimerP(offset, now);
      }
    }

    method SysRecalAllRTimer(now: int32)
      requires Valid() && AllCanRecal(buffer[..], now)
      modifies buffer
      ensures Valid() && Now() == AllRecalled(old(Now()), now)
    {
      AllRecalledOk(Now(), now);
      RecalledToEnds(Now(), now);
      hide *;
      RecalSweep(now);
    }

    /** The loop of `SysRecalAllRTimer`. */
    method RecalSweep(now: int32)
      requires buffer.Length == MAX && list.n == MAX && list.Valid() && Ok(Now()) && AllCanRecal(buffer[..], now)
      modifies buffer
      ensures Now() == RecalledTo(old(Now()), now, |old(Now()).order|)
    {
      ghost var s := Now();
      ghost var k := 0;
      RecalledToEnds(s, now);
      list.Starts();
      hide Ok, Cycle, AllRecalled, RecalledTo, AllCanRecal, CanRecal, Recalled, At, Distinct, List.Valid;
      var p := list.next[MAX];
      while p != MAX
        invariant 0 <= k <= |s.order| && p == At(s.order, MAX, k + 1)
        invariant list.Valid() && Now() == RecalledTo(s, now, k)
        decreases |s.order| - k
      {
        p := RecalNext(s, now, k, p);
        k := k + 1;
      }
    }

    /** The loop body of `SysRecalAllRTimer`: timer `p`, and the one after it. */
    method RecalNext(ghost s: State, now: int32, ghost k: nat, p: nat) returns (p1: nat)
      requires Ok(s) && k < |s.order| && p == s.order[k] && AllCanRecal(s.slots, now)
      requires buffer.Length == MAX && list.n == MAX && list.Valid() && list.order == s.order
      requires Now() == RecalledTo(s, now, k)
      modifies buffer
      ensures Now() == RecalledTo(s, now, k + 1) && p1 == At(s.order, MAX, k + 2)
    {
      OneRecalled(s, now, k, list.next[..], list.prev[..]);
      hide Ok, Cycle, AllRecalled, RecalledTo, AllCanRecal, CanRecal, Recalled, Distinct;
      if buffer[p].valid {
        RecalRTimerP(p, now);
      }
      p1 := list.next[p];
    }

    method SysAddRTimer(conf: Conf, call: Callback) returns (id: int)
      requires Valid() && CanAdd(Now(), conf)
      modifies `addup, buffer, list`order, list.next, list.prev
      ensures Valid() && (Now(), id) == Added(old(Now()), conf, call)
    {
      hide NewEntry, CanStart, EntryOk, Origin, LeastSlot, GetBase;
      ghost var s := Now();
      AddedOk(s, conf, call);
      if conf.tdev == 0 || conf.tmod > MONTH {
        return -1;
      }
      var i := 0;
      while i < MAX
        invariant i <= MAX && FirstEmpty(buffer[..], 0) == FirstEmpty(buffer[..], i)
      {
        if !buffer[i].valid {
          id := addup % 0x1_0000 + i * 0x1_0000;
          Fill(i, id, conf, call);
          addup := addup + 1;
          list.Append(i);
          assert Now() == Added(s, conf, call).0;
          return;
        }
        i := i + 1;
      }
      return -1;
    }

    /** The fields of a new timer. */
    method Fill(i: nat, id: int, conf: Conf, call: Callback)
      requires buffer.Length == MAX && i < MAX && CanStart(buffer[i], conf)
      modifies buffer
      ensures buffer[..] == old(buffer[..][i := NewEntry(buffer[i], id, conf, call)])
    {
      ghost var was := buffer[i];
      buffer[i] := buffer[i].(valid := true, call := call, bonce := conf.bonce, id := id);
      if conf.bonce {
        buffer[i] := buffer[i].(dev := 1, mod := 1, tstart := conf.curtime);
      } else {
        buffer[i] := buffer[i].(dev := conf.tdev, mod := conf.tmod, basetime := GetBase(conf.tmod, conf.basetime));
        assert buffer[i] == Asked(was, conf).(valid := true, id := id, call := call);
        RecalRTimerP(i, conf.curtime);
      }
    }

    method SysStopRTimer(id: int)
      requires Valid()
      modifies buffer, list`order, list.next, list.prev
      ensures Valid() && Now() == Stopped(old(Now()), id)
    {
      StoppedOk(Now(), id);
      assert forall i: nat :: i < MAX && buffer[i].valid ==> i in list.order;
      hide Ok, EntryOk, Without, List.Valid;
      var offset := id / 0x1_0000;
      if offset < 0 || offset >= MAX {
        return;
      }
      if buffer[offset].id == id {
        StopRTimerP(offset);
      }
    }

    method StopRTimerP(i: nat)
      requires buffer.Length == MAX && i < MAX && list.n == MAX && list.Valid()
      requires buffer[i].valid ==> i in list.order
      modifies buffer, list`order, list.next, list.prev
      ensures list.Valid()
      ensures buffer[..] == old(buffer[..][i := buffer[i].(valid := false)])
      ensures list.order == if old(buffer[i].valid) then Without(old(list.order), i) else old(list.order)
    {
      if !buffer[i].valid {
        return;
      }
      buffer[i] := buffer[i].(valid := false);
      list.Remove(i);
    }

    /** One pass over the list at the time `timec`. */
    method RTimerProc(timec: int32) returns (called: seq<Call>)
      requires Valid() && AllCanFire(buffer[..], timec)
      modifies buffer, list`order, list.next, list.prev
      ensures Valid() && Now() == AllPassed(old(Now()), timec)
      ensures called == Calls(old(Now()).slots, old(Now()).order, timec)
    {
      AllPassedOk(Now(), timec);
      PassedToEnds(Now(), timec);
      hide *;
      called := Sweep(timec);
    }

    /** The loop of a pass. */
    method Sweep(timec: int32) returns (called: seq<Call>)
      requires buffer.Length == MAX && list.n == MAX && list.Valid() && Ok(Now()) && AllCanFire(buffer[..], timec)
      modifies buffer, list`order, list.next, list.prev
      ensures list.Valid()
      ensures var s := old(Now());
              Now() == PassedTo(s, timec, |s.order|) && called == Calls(s.slots, s.order[..|s.order|], timec)
    {
      hide Ok, Swept, Cycle, Passed, PassedTo, AllPassed, Calls, AllCanFire, CanFire, EntryOk, Stops, At, Distinct, List.Valid;
      ghost var s := Now();
      ghost var k := 0;
      PassedToEnds(s, timec);
      called := [];
      list.Starts();
      var p := list.next[MAX];
      while p != MAX
        invariant list.Valid()
        invariant 0 <= k <= |s.order| && p == At(s.order, MAX, k + 1)
        invariant Now() == PassedTo(s, timec, k)
        invariant called == Calls(s.slots, s.order[..k], timec)
        decreases |s.order| - k
      {
        var calls;
        p, calls := Advance(s, timec, k, p);
        called := called + calls;
        k := k + 1;
      }
    }

    /** The loop body of a pass: timer `p`, and the one after it. */
    method Advance(ghost s: State, timec: int32, ghost k: nat, p: nat) returns (p1: nat, called: seq<Call>)
      requires Ok(s) && k < |s.order| && p == s.order[k] && AllCanFire(s.slots, timec)
      requires buffer.Length == MAX && list.n == MAX && list.Valid() && Now() == PassedTo(s, timec, k)
      modifies buffer, list`order, list.next, list.prev
      ensures list.Valid() && Now() == PassedTo(s, timec, k + 1) && p1 == At(s.order, MAX, k + 2)
      ensures Calls(s.slots, s.order[..k + 1], timec) == Calls(s.slots, s.order[..k], timec) + called
    {
      OnePassed(s, timec, k);
      SweepOn(list.next[..], list.prev[..], s.order, MAX, Stops(s.slots, timec), k);
      assert EntryOk(s.slots[p], p);
      hide Ok, Swept, Cycle, Passed, PassedTo, Calls, EntryOk;
      p1 := list.next[p];
      called := Visit(p, timec);
    }

    /** One timer's part of a pass: put forward first, then its handler called. */
    method Visit(p: nat, timec: int32) returns (called: seq<Call>)
      requires buffer.Length == MAX && list.n == MAX && list.Valid()
      requires p < MAX && buffer[p].valid && p in list.order
      requires EntryOk(buffer[p], p) && CanFire(buffer[p], timec)
      modifies buffer, list`order, list.next, list.prev
      ensures list.Valid()
      ensures buffer[..] == old(buffer[..][p := Passed(buffer[p], timec)])
      ensures list.order == if old(Due(buffer[p], timec) && buffer[p].bonce) then Without(old(list.order), p)
                            else old(list.order)
      ensures called == if old(Due(buffer[p], timec)) then [Call(old(buffer[p].id), old(buffer[p].call), timec)] else []
    {
      called := [];
      if timec >= buffer[p].tstart {
        if !buffer[p].bonce {
          PutForward(p, timec);
        }
        called := [Call(buffer[p].id, buffer[p].call, timec)];
        if buffer[p].bonce {
          StopRTimerP(p);
        }
      }
    }

    /** A due repeating timer's next slot. */
    method PutForward(p: nat, timec: int32)
      requires buffer.Length == MAX && p < MAX && buffer[p].valid && !buffer[p].bonce && Due(buffer[p], timec)
      requires EntryOk(buffer[p], p) && CanFire(buffer[p], timec)
      modifies buffer
      ensures buffer[..] == old(buffer[..][p := Passed(buffer[p], timec)])
      ensures buffer[p].id == old(buffer[p].id) && buffer[p].call == old(buffer[p].call) && !buffer[p].bonce
    {
      var e := buffer[p];
      var comp := timec - e.tstart;
      if comp > 3600 {
        RecalRTimerP(p, timec);
      } else {
        hide Point, Next, ToUTime, FirstOf, Armed;
        CatchUp(p, timec);
      }
    }

    /** Step by step from the last slot to the first one after `timec`. */
    method CatchUp(p: nat, timec: int32)
      requires buffer.Length == MAX && p < MAX && Due(buffer[p], timec)
      requires var e := buffer[p];
               && e.dev > 0 && e.mod <= MONTH && OnGrid(e.mod, e.tbase) && e.tstart == e.tbase + e.basetime
               && Reaches(e, Pos(e.mod, e.tbase), timec)
      modifies buffer
      ensures buffer[..] == old(buffer[..][p := Armed(buffer[p], Pos(buffer[p].mod, buffer[p].tbase), timec)])
    {
      hide Pos, Point, Stride, Next, FirstOf, ToUTime;
      var e := buffer[p];
      ghost var o := Pos(e.mod, e.tbase);
      var tbase, tstart := OneStep(e.mod, e.dev, e.tbase, e.basetime, timec, o);
      tbase, tstart := SearchSlot(e.mod, e.dev, tbase, e.basetime, timec, o + Stride(e.mod, e.dev));
      buffer[p] := e.(tbase := tbase, tstart := tstart);
    }
  }
}
