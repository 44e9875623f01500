/** The relative timers: what adding, stopping, clearing and a timer pass do, as values, and what
    holds over every run of them. */
module CTimers {
  import opened Arithmetic
  import opened SlotList

  const MAX: nat := 63

  datatype Entry = Entry(valid: bool, id: int, call: Callback, dev: nat, cnt: nat)

  /** The slots, the order in which the valid ones are linked, and the counter that makes ids differ. */
  datatype State = State(slots: seq<Entry>, order: seq<nat>, addup: nat)

  /** A handler being called, for the timer with this id. */
  datatype Call = Call(id: int, call: Callback)

  // ----- The operations -----

  /** The first empty slot from `i` on, or `|slots|`. */
  function FirstEmpty(slots: seq<Entry>, i: nat): (r: nat)
    requires i <= |slots|
    ensures i <= r <= |slots| && (r < |slots| ==> !slots[r].valid)
    ensures forall j :: i <= j < r ==> slots[j].valid
    decreases |slots| - i
  {
    if i == |slots| || !slots[i].valid then i else FirstEmpty(slots, i + 1)
  }

  function Added(s: State, dev: int, call: Callback): (State, int) {
    var i := FirstEmpty(s.slots, 0);
    if dev <= 0 || i == |s.slots| then (s, -1)
    else
      var id := Id(s.addup, i);
      (State(s.slots[i := Entry(true, id, call, dev, 0)], s.order + [i], s.addup + 1), id)
  }

  /** Does this id name a running timer? */
  predicate Names(s: State, id: int) {
    0 <= SlotOf(id) < |s.slots| && s.slots[SlotOf(id)].id == id && s.slots[SlotOf(id)].valid
  }

  function Stopped(s: State, id: int): State {
    if Names(s, id) then
      var i := SlotOf(id);
      s.(slots := s.slots[i := s.slots[i].(valid := false)], order := Without(s.order, i))
    else s
  }

  function Cleared(s: State, id: int): State {
    if Names(s, id) then
      var i := SlotOf(id);
      s.(slots := s.slots[i := s.slots[i].(cnt := 0)])
    else s
  }

  predicate Due(e: Entry) {
    e.cnt + 1 >= e.dev
  }

  /** A running timer after a pass; `rc` is what its handler returns, if it is called. */
  function Ticked(e: Entry, rc: int): Entry {
    if !Due(e) then e.(cnt := e.cnt + 1)
    else e.(cnt := 0, valid := rc == 0)
  }

  /** The handlers called in the pass, in order. */
  function Calls(slots: seq<Entry>, order: seq<nat>): seq<Call>
    requires forall k :: 0 <= k < |order| ==> order[k] < |slots|
  {
    if order == [] then []
    else
      var rest, last := order[..|order| - 1], order[|order| - 1];
      Calls(slots, rest) + if Due(slots[last]) then [Call(slots[last].id, slots[last].call)] else []
  }

  /** The timers a pass stops. */
  function Stops(slots: seq<Entry>, rc: nat -> int): nat -> bool {
    (i: nat) => i < |slots| && Due(slots[i]) && rc(i) != 0
  }

  /** One pass; `rc(i)` is what the handler of slot `i` returns. */
  function Passed(s: State, rc: nat -> int): State
    requires forall k :: 0 <= k < |s.order| ==> s.order[k] < |s.slots|
  {
    State(seq(|s.slots|, i requires 0 <= i < |s.slots| => if s.slots[i].valid then Ticked(s.slots[i], rc(i)) else s.slots[i]),
          Kept(s.order, Stops(s.slots, rc)), s.addup)
  }

  // ----- The invariant -----

  predicate EntryOk(e: Entry, i: nat) {
    e.valid ==> e.cnt < e.dev && SlotOf(e.id) == i
  }

  /** The linked slots are exactly the valid ones, and counters are below their limit. */
  ghost predicate Ok(s: State) {
    && |s.slots| == MAX && Distinct(s.order, MAX)
    && (forall i: nat :: i < MAX ==> (i in s.order <==> s.slots[i].valid))
    && (forall i: nat :: i < MAX ==> EntryOk(s.slots[i], i))
  }

  lemma PassedOk(s: State, rc: nat -> int)
    requires Ok(s)
    ensures Ok(Passed(s, rc))
  {
    KeptIs(s.order, MAX, Stops(s.slots, rc));
  }

  lemma StoppedOk(s: State, id: int)
    requires Ok(s)
    ensures Ok(Stopped(s, id)) && !Names(Stopped(s, id), id)
  {
    if Names(s, id) {
      WithoutKeeps(s.order, MAX, SlotOf(id));
    }
  }

  lemma AddedOk(s: State, dev: int, call: Callback)
    requires Ok(s)
    ensures Ok(Added(s, dev, call).0)
    ensures Added(s, dev, call).1 != -1 ==> Names(Added(s, dev, call).0, Added(s, dev, call).1)
    ensures Added(s, dev, call).1 == -1 <==> dev <= 0 || forall i :: 0 <= i < MAX ==> s.slots[i].valid
    ensures var (r, id) := Added(s, dev, call);
            if id == -1 then r == s
            else
              && r.slots[SlotOf(id)] == Entry(true, id, call, dev, 0)
              && r.order == s.order + [SlotOf(id)] && r.addup == s.addup + 1
              && forall j :: 0 <= j < MAX && j != SlotOf(id) ==> r.slots[j] == s.slots[j]
  {
    var i := FirstEmpty(s.slots, 0);
    FarIds(s.addup, s.addup, i);
  }

  // ----- Runs -----

  datatype Op = Add(dev: int, call: Callback) | Stop(id: int) | Clear(id: int) | Pass(rc: nat -> int)

  function Step(s: State, op: Op): State
    requires Ok(s)
  {
    match op
    case Add(dev, call) => Added(s, dev, call).0
    case Stop(id) => Stopped(s, id)
    case Clear(id) => Cleared(s, id)
    case Pass(rc) => Passed(s, rc)
  }

  lemma StepOk(s: State, op: Op)
    requires Ok(s)
    ensures Ok(Step(s, op))
  {
    match op
    case Add(dev, call) => AddedOk(s, dev, call);
    case Stop(id) => StoppedOk(s, id);
    case Clear(id) =>
    case Pass(rc) => PassedOk(s, rc);
  }

  /** The state after a run. */
  ghost function Run(s: State, ops: seq<Op>): (r: State)
    requires Ok(s)
    ensures Ok(r)
  {
    if ops == [] then s
    else
      var before := Run(s, ops[..|ops| - 1]);
      StepOk(before, ops[|ops| - 1]);
      Step(before, ops[|ops| - 1])
  }

  /** How often the timer `id` is called in a list of calls. */
  function Times(calls: seq<Call>, id: int): nat {
    if calls == [] then 0
    else Times(calls[..|calls| - 1], id) + if calls[|calls| - 1].id == id then 1 else 0
  }

  /** All calls made in a run. */
  ghost function Made(s: State, ops: seq<Op>): seq<Call>
    requires Ok(s)
  {
    if ops == [] then []
    else
      var before := Run(s, ops[..|ops| - 1]);
      Made(s, ops[..|ops| - 1]) + if ops[|ops| - 1].Pass? then Calls(before.slots, before.order) else []
  }

  /** How often the timer `id` is called in a run. */
  ghost function Fired(s: State, ops: seq<Op>, id: int): nat
    requires Ok(s)
  {
    Times(Made(s, ops), id)
  }

  function Passes(ops: seq<Op>): nat {
    if ops == [] then 0 else Passes(ops[..|ops| - 1]) + if ops[|ops| - 1].Pass? then 1 else 0
  }

  /** An operation that neither stops nor clears the timer `id` in slot `i`. */
  predicate Leaves(op: Op, id: int, i: nat) {
    match op
    case Add(_, _) => true
    case Stop(x) => x != id
    case Clear(x) => x != id
    case Pass(rc) => rc(i) == 0
  }

  lemma {:induction false} TimesIs(slots: seq<Entry>, order: seq<nat>, i: nat)
    requires |slots| == MAX && Distinct(order, MAX) && i < MAX
    requires forall k :: 0 <= k < |order| ==> SlotOf(slots[order[k]].id) == order[k]
    requires SlotOf(slots[i].id) == i
    ensures Times(Calls(slots, order), slots[i].id) == if i in order && Due(slots[i]) then 1 else 0
  {
    if order != [] {
      var rest, last := order[..|order| - 1], order[|order| - 1];
      assert order == rest + [last];
      TimesIs(slots, rest, i);
      assert last !in rest && (i in order <==> i in rest || i == last);
      assert SlotOf(slots[order[|order| - 1]].id) == last;
      if Due(slots[last]) {
        TimesOfOneMore(Calls(slots, rest), Call(slots[last].id, slots[last].call), slots[i].id);
      } else {
        assert Calls(slots, order) == Calls(slots, rest);
      }
    }
  }

  lemma {:induction false} TimesAppends(a: seq<Call>, b: seq<Call>, id: int)
    ensures Times(a + b, id) == Times(a, id) + Times(b, id)
    decreases |b|
  {
    if b == [] {
      assert a + b == a;
    } else {
      var n := |b| - 1;
      TimesAppends(a, b[..n], id);
      assert (a + b)[..|a + b| - 1] == a + b[..n];
    }
  }

  /** Every call of a list is one of a due timer in it. */
  lemma {:induction false} CallsAre(slots: seq<Entry>, order: seq<nat>)
    requires forall k :: 0 <= k < |order| ==> order[k] < |slots|
    ensures forall c :: c in Calls(slots, order) ==>
              exists k :: 0 <= k < |order| && c == Call(slots[order[k]].id, slots[order[k]].call)
    decreases |order|
  {
    if order != [] {
      var n := |order| - 1;
      var rest := order[..n];
      CallsAre(slots, rest);
      forall c | c in Calls(slots, order)
        ensures exists k :: 0 <= k < |order| && c == Call(slots[order[k]].id, slots[order[k]].call)
      {
        if c in Calls(slots, rest) {
          var k :| 0 <= k < n && c == Call(slots[rest[k]].id, slots[rest[k]].call);
          assert order[k] == rest[k];
        } else {
          assert c == Call(slots[order[n]].id, slots[order[n]].call);
        }
      }
    }
  }

  lemma TimesOfOneMore(calls: seq<Call>, c: Call, id: int)
    ensures Times(calls + [c], id) == Times(calls, id) + if c.id == id then 1 else 0
  {
    assert (calls + [c])[..|calls|] == calls;
  }

  /** What a step that leaves it alone does to a live timer: only passes count. */
  lemma LeftAlone(s: State, op: Op, i: nat)
    requires Ok(s) && i < MAX && s.slots[i].valid && Leaves(op, s.slots[i].id, i)
    ensures var e := s.slots[i];
            && Step(s, op).slots[i] == (if op.Pass? then Ticked(e, 0) else e)
  {
    assert EntryOk(s.slots[i], i);
  }

  /** In a pass a running timer is called once if its counter has reached its interval, with its own
      handler, and not at all otherwise; it ends if its handler says so. */
  lemma CalledInPass(s: State, rc: nat -> int, i: nat)
    requires Ok(s) && i < MAX && s.slots[i].valid
    ensures |Passed(s, rc).slots| == MAX
    ensures var e, calls := s.slots[i], Calls(s.slots, s.order);
            && Times(calls, e.id) == (if e.cnt + 1 >= e.dev then 1 else 0)
            && (forall c :: c in calls && c.id == e.id ==> c == Call(e.id, e.call))
            && Passed(s, rc).slots[i] == if e.cnt + 1 < e.dev then e.(cnt := e.cnt + 1)
                                         else e.(cnt := 0, valid := rc(i) == 0)
  {
    forall k | 0 <= k < |s.order|
      ensures SlotOf(s.slots[s.order[k]].id) == s.order[k]
    {
      assert s.order[k] in s.order && EntryOk(s.slots[s.order[k]], s.order[k]);
    }
    assert EntryOk(s.slots[i], i);
    TimesIs(s.slots, s.order, i);
    CallsAre(s.slots, s.order);
    hide Calls, Times, Distinct, SlotOf;
  }

  /** Calls made and passes counted since, after `n` passes. */
  function Cycles(n: nat, dev: nat): (nat, nat)
  {
    if n == 0 then (0, 0)
    else
      var (fired, cnt) := Cycles(n - 1, dev);
      if cnt + 1 >= dev then (fired + 1, 0) else (fired, cnt + 1)
  }

  lemma {:induction false} CyclesDivide(n: nat, dev: nat)
    requires dev > 0
    ensures Cycles(n, dev) == (n / dev, n % dev)
  {
    if n == 0 {
      Quotient(0, dev, 0, 0);
    } else {
      CyclesDivide(n - 1, dev);
      NextQuotient(n - 1, dev);
    }
  }

  /** A run and its last step. */
  lemma LastStep(s: State, ops: seq<Op>, id: int)
    requires Ok(s) && ops != []
    ensures var rest, op := ops[..|ops| - 1], ops[|ops| - 1];
            var before := Run(s, rest);
            && Run(s, ops) == Step(before, op)
            && Passes(ops) == Passes(rest) + (if op.Pass? then 1 else 0)
            && Fired(s, ops, id) == Fired(s, rest, id) +
                                    (if op.Pass? then Times(Calls(before.slots, before.order), id) else 0)
            && Made(s, ops) == Made(s, rest) + if op.Pass? then Calls(before.slots, before.order) else []
  {
    var before := Run(s, ops[..|ops| - 1]);
    if ops[|ops| - 1].Pass? {
      TimesAppends(Made(s, ops[..|ops| - 1]), Calls(before.slots, before.order), id);
    } else {
      assert Made(s, ops) == Made(s, ops[..|ops| - 1]);
    }
  }

  lemma {:induction false} FiresInCycles(s: State, ops: seq<Op>, i: nat)
    requires Ok(s) && i < MAX && s.slots[i].valid && s.slots[i].cnt == 0
    requires forall k :: 0 <= k < |ops| ==> Leaves(ops[k], s.slots[i].id, i)
    ensures var e, e' := s.slots[i], Run(s, ops).slots[i];
            && Fired(s, ops, e.id) == Cycles(Passes(ops), e.dev).0
            && e' == e.(cnt := Cycles(Passes(ops), e.dev).1)
            && forall c :: c in Made(s, ops) && c.id == e.id ==> c == Call(e.id, e.call)
    decreases |ops|
  {
    if ops != [] {
      var n := |ops| - 1;
      LastStep(s, ops, s.slots[i].id);
      FiresInCycles(s, ops[..n], i);
      LeftAlone(Run(s, ops[..n]), ops[n], i);
      if ops[n].Pass? {
        CalledInPass(Run(s, ops[..n]), ops[n].rc, i);
      }
      hide Run, Fired, Passes, Step, Ok, Times, Calls, Leaves, Made, Passed;
    }
  }

  /** A live timer fires exactly once every `dev` passes: `n` passes after it was added or cleared,
      whatever else has happened to the other timers, it has been called floor(n / dev) times. */
  lemma FiresOnTime(s: State, ops: seq<Op>, i: nat)
    requires Ok(s) && i < MAX && s.slots[i].valid && s.slots[i].cnt == 0
    requires forall k :: 0 <= k < |ops| ==> Leaves(ops[k], s.slots[i].id, i)
    ensures s.slots[i].dev > 0
    ensures var e, e' := s.slots[i], Run(s, ops).slots[i];
            && Fired(s, ops, e.id) == Passes(ops) / e.dev
            && (forall c :: c in Made(s, ops) && c.id == e.id ==> c == Call(e.id, e.call))
            && e' == e.(cnt := Passes(ops) % e.dev)
  {
    assert EntryOk(s.slots[i], i);
    FiresInCycles(s, ops, i);
    CyclesDivide(Passes(ops), s.slots[i].dev);
  }

  /** A timer that has been added, in every run that leaves it alone: it is called at every `dev`-th
      pass, for the interval asked for, and always with the handler and argument asked for. */
  lemma AddedFiresOnTime(s: State, dev: int, call: Callback, r: State, id: int, ops: seq<Op>)
    requires Ok(s) && (r, id) == Added(s, dev, call) && id != -1 && Ok(r) && 0 <= SlotOf(id) < MAX
    requires forall k :: 0 <= k < |ops| ==> Leaves(ops[k], id, SlotOf(id))
    ensures dev > 0
    ensures Fired(r, ops, id) == Passes(ops) / dev
    ensures forall c :: c in Made(r, ops) && c.id == id ==> c.call == call
    ensures Run(r, ops).slots[SlotOf(id)] == Entry(true, id, call, dev, Passes(ops) % dev)
  {
    AddedOk(s, dev, call);
    hide Added, Ok, Run, Fired, Made, Leaves, Passes, SlotOf;
    FiresOnTime(r, ops, SlotOf(id));
  }

  /** After its counter has been cleared the passes count from there. */
  lemma ClearedFiresOnTime(s: State, id: int, ops: seq<Op>)
    requires Ok(s) && Names(s, id) && Ok(Cleared(s, id))
    requires forall k :: 0 <= k < |ops| ==> Leaves(ops[k], id, SlotOf(id))
    ensures var dev := s.slots[SlotOf(id)].dev;
            dev > 0 && Fired(Cleared(s, id), ops, id) == Passes(ops) / dev
  {
    var r := Cleared(s, id);
    assert |s.slots| == MAX;
    hide Ok, Run, Fired, Made, Leaves, Passes, SlotOf;
    FiresOnTime(r, ops, SlotOf(id));
  }

  lemma NextQuotient(n: nat, d: nat)
    requires d > 0
    ensures n % d + 1 >= d ==> (n + 1) % d == 0 && (n + 1) / d == n / d + 1
    ensures n % d + 1 < d ==> (n + 1) % d == n % d + 1 && (n + 1) / d == n / d
  {
    var q, r := n / d, n % d;
    assert n == d * q + r;
    if r + 1 >= d {
      Quotient(n + 1, d, q + 1, 0);
    } else {
      Quotient(n + 1, d, q, r + 1);
    }
  }

  // ----- Stale ids -----

  ghost function MarkOf(s: State, i: nat): Mark
    requires Ok(s) && i < MAX
  {
    Mark(s.slots[i].valid, s.slots[i].id, s.addup)
  }

  /** Slot `i` before the run and after each of its steps. */
  ghost function History(s: State, ops: seq<Op>, i: nat): (h: seq<Mark>)
    requires Ok(s) && i < MAX
    ensures |h| == |ops| + 1 && h[0] == MarkOf(s, i) && h[|ops|] == MarkOf(Run(s, ops), i)
    decreases |ops|
  {
    if ops == [] then [MarkOf(s, i)] else History(s, ops[..|ops| - 1], i) + [MarkOf(Run(s, ops), i)]
  }

  /** The timer in slot `i` lives to the end of the run. */
  ghost predicate Lives(s: State, ops: seq<Op>, i: nat)
    requires Ok(s) && i < MAX
  {
    Lasts(History(s, ops, i))
  }

  /** A step keeps the id of a running timer, and makes the id of a new one from the counter. */
  lemma NewId(s: State, op: Op, i: nat)
    requires Ok(s) && i < MAX
    ensures Ok(Step(s, op)) && Follows(MarkOf(s, i), MarkOf(Step(s, op), i), i)
  {
    StepOk(s, op);
  }

  lemma {:induction false} HistoryOk(s: State, ops: seq<Op>, i: nat)
    requires Ok(s) && i < MAX
    ensures IsHistory(History(s, ops, i), i)
    decreases |ops|
  {
    if ops != [] {
      var n := |ops| - 1;
      HistoryOk(s, ops[..n], i);
      LastStep(s, ops, 0);
      NewId(Run(s, ops[..n]), ops[n], i);
      hide Ok, Follows, Step, Fired, Passes;
      HistoryGrows(History(s, ops[..n], i), MarkOf(Run(s, ops), i), i);
    }
  }

  /** The id of a timer that has stopped names no timer any more, until 65536 more have been added. */
  lemma StaleIdNamesNothing(s: State, ops: seq<Op>, i: nat)
    requires Ok(s) && i < MAX && Newest(MarkOf(s, i), i)
    requires !Lives(s, ops, i) && Run(s, ops).addup - s.addup < 0x1_0000
    ensures var r, id := Run(s, ops), s.slots[i].id;
            !Names(r, id) && Stopped(r, id) == r && Cleared(r, id) == r
  {
    hide Run, Ok, History;
    HistoryOk(s, ops, i);
    StaleId(History(s, ops, i), i);
    FarIds(s.addup - 1, s.addup - 1, i);
  }

  /** A timer made from the last value of the counter runs in slot 0. */
  predicate Fresh(s: State) {
    |s.slots| == MAX && Newest(Mark(s.slots[0].valid, s.slots[0].id, s.addup), 0)
  }

  /** Stopping the timer in slot 0 and adding another one. */
  lemma Exchange(s: State, call: Callback)
    requires Ok(s) && Fresh(s)
    ensures var stopped := Step(s, Stop(s.slots[0].id));
            && Ok(stopped) && |stopped.slots| == MAX && !stopped.slots[0].valid
            && var added := Step(stopped, Add(1, call));
               Fresh(added) && added.addup == s.addup + 1
  {
    FarIds(s.addup - 1, s.addup, 0);
    StoppedOk(s, s.slots[0].id);
  }

  lemma OneStepMore(s: State, ops: seq<Op>, op: Op)
    requires Ok(s)
    ensures Run(s, ops + [op]) == Step(Run(s, ops), op)
    ensures Lives(s, ops + [op], 0) ==> Lives(s, ops, 0)
    ensures |Run(s, ops).slots| == MAX && (Lives(s, ops, 0) ==> Run(s, ops).slots[0].valid)
  {
    hide Step;
    assert (ops + [op])[..|ops|] == ops;
    var h, h' := History(s, ops, 0), History(s, ops + [op], 0);
    assert forall k :: 0 <= k < |h| ==> h'[k] == h[k];
  }

  /** The same, `k` times over. */
  lemma {:induction false} Churn(s: State, k: nat, call: Callback) returns (ops: seq<Op>)
    requires Ok(s) && Fresh(s)
    ensures Fresh(Run(s, ops)) && Run(s, ops).addup == s.addup + k && (k > 0 ==> !Lives(s, ops, 0))
  {
    if k == 0 {
      ops := [];
    } else {
      hide *;
      ops := Churn(s, k - 1, call);
      var before := Run(s, ops);
      OneStepMore(s, ops, Add(1, call));
      Exchange(before, call);
      var stop := Stop(before.slots[0].id);
      OneStepMore(s, ops, stop);
      OneStepMore(s, ops + [stop], Add(1, call));
      ops := ops + [stop] + [Add(1, call)];
    }
  }

  lemma SameNames(s: State, r: State)
    requires Fresh(s) && Fresh(r) && r.addup == s.addup + 0x1_0000
    ensures Names(r, s.slots[0].id)
  {
    hide Id, SlotOf;
    FarIds(s.addup - 1, s.addup - 1, 0);
    SameIds(s.addup - 1, 0);
  }

  /** The bound cannot be raised: the 65536th timer after it may have the same id. */
  lemma StaleIdComesBack(s: State, call: Callback) returns (ops: seq<Op>)
    requires Ok(s) && Fresh(s)
    ensures !Lives(s, ops, 0) && Run(s, ops).addup - s.addup == 0x1_0000 && Names(Run(s, ops), s.slots[0].id)
  {
    hide *;
    ops := Churn(s, 0x1_0000, call);
    SameNames(s, Run(s, ops));
  }

  // ----- A pass, one timer after the other -----

  /** When the first `k` timers of the list have been dealt with. */
  ghost function PassedTo(s: State, rc: nat -> int, k: nat): State
    requires Ok(s) && k <= |s.order|
  {
    State(seq(MAX, i requires 0 <= i < MAX => if i in s.order[..k] then Ticked(s.slots[i], rc(i)) else s.slots[i]),
          Swept(s.order, Stops(s.slots, rc), k), s.addup)
  }

  lemma PassedToStart(s: State, rc: nat -> int)
    requires Ok(s)
    ensures PassedTo(s, rc, 0) == s && Calls(s.slots, s.order[..0]) == []
    ensures |s.slots| == MAX && forall k :: 0 <= k < |s.order| ==> s.order[k] < MAX
  {
    SweptEnds(s.order, Stops(s.slots, rc));
  }

  lemma PassedToEnd(s: State, rc: nat -> int)
    requires Ok(s)
    ensures PassedTo(s, rc, |s.order|) == Passed(s, rc) && s.order[..|s.order|] == s.order
    ensures forall k :: 0 <= k < |s.order| ==> s.order[k] < MAX
  {
    SweptEnds(s.order, Stops(s.slots, rc));
    assert s.order[..|s.order|] == s.order;
  }

  lemma OneTicked(s: State, rc: nat -> int, k: nat)
    requires Ok(s) && k < |s.order|
    ensures var p, before, after := s.order[k], PassedTo(s, rc, k), PassedTo(s, rc, k + 1);
            && p < MAX && before.slots[p] == s.slots[p] && s.slots[p].valid
            && after.slots == before.slots[p := Ticked(s.slots[p], rc(p))] && after.addup == before.addup
            && before.order == Swept(s.order, Stops(s.slots, rc), k)
            && after.order == Swept(s.order, Stops(s.slots, rc), k + 1)
            && Calls(s.slots, s.order[..k + 1])
               == Calls(s.slots, s.order[..k]) + if Due(s.slots[p]) then [Call(s.slots[p].id, s.slots[p].call)] else []
  {
    var p := s.order[k];
    assert p in s.order;
    assert s.order[..k + 1] == s.order[..k] + [p] && s.order[..k + 1][..k] == s.order[..k];
    assert forall j :: 0 <= j < k ==> s.order[..k][j] == s.order[j] != s.order[k];
    hide Swept, Due, Ticked;
    assert p !in s.order[..k];
  }

  // ----- The program's own state -----

  /** CTimerBuffer, the list through it, and CTimerIdAddup. */
  class CTimerTable {
    const buffer: array<Entry>
    const list: List
    var addup: nat

    ghost function Now(): State
      reads this, buffer, list
    {
      State(buffer[..], list.order, addup)
    }

    ghost predicate Valid()
      reads this, buffer, list, list.next, list.prev
    {
      buffer.Length == MAX && list.n == MAX && list.Valid() && Ok(Now())
    }

    /** `SysTimerInit`. */
    constructor ()
      ensures Valid() && fresh(buffer) && fresh(list) && fresh(list.next) && fresh(list.prev)
      ensures Now().order == [] && addup == 0
    {
      buffer := new Entry[MAX](_ => Entry(false, 0, Callback(0, 0), 0, 0));
      list := new List(MAX);
      addup := 0;
    }

    method SysAddCTimer(dev: int, call: Callback) returns (id: int)
      requires Valid()
      modifies `addup, buffer, list`order, list.next, list.prev
      ensures Valid() && (Now(), id) == Added(old(Now()), dev, call)
    {
      ghost var s := Now();
      AddedOk(s, dev, call);
      if dev <= 0 {
        return -1;
      }
      var i := 0;
      while i < MAX
        invariant i <= MAX && FirstEmpty(buffer[..], 0) == FirstEmpty(buffer[..], i)
      {
        if !buffer[i].valid {
          id := addup % 0x1_0000 + i * 0x1_0000;
          buffer[i] := Entry(true, id, call, dev, 0);
          addup := addup + 1;
          list.Append(i);
          assert Now() == Added(s, dev, call).0;
          return;
        }
        i := i + 1;
      }
      return -1;
    }

    method SysStopCTimer(id: int)
      requires Valid()
      modifies buffer, list`order, list.next, list.prev
      ensures Valid() && Now() == Stopped(old(Now()), id)
    {
      StoppedOk(Now(), id);
      var offset := id / 0x1_0000;
      if offset < 0 || offset >= MAX {
        return;
      }
      if buffer[offset].id == id {
        StopCTimerP(offset);
      }
    }

    /** `StopCTimerP`: out of the list, if it is in. */
    method StopCTimerP(i: nat)
      requires buffer.Length == MAX && i < MAX && list.n == MAX && list.Valid()
      requires buffer[i].valid ==> i in list.order
      modifies buffer, list`order, list.next, list.prev
      ensures list.Valid()
      ensures buffer[..] == old(buffer[..][i := buffer[i].(valid := false)])
      ensures list.order == if old(buffer[i].valid) then Without(old(list.order), i) else old(list.order)
    {
      if buffer[i].valid {
        buffer[i] := buffer[i].(valid := false);
        list.Remove(i);
      }
    }

    method SysClearCTimer(id: int)
      requires Valid()
      modifies buffer
      ensures Valid() && Now() == Cleared(old(Now()), id)
    {
      var offset := id / 0x1_0000;
      if offset < 0 || offset >= MAX {
        return;
      }
      if buffer[offset].id == id && buffer[offset].valid {
        buffer[offset] := buffer[offset].(cnt := 0);
      }
    }

    /** One pass over the list; `rc(i)` is what the handler of slot `i` returns if it is called. */
    method CTimerProc(rc: nat -> int) returns (called: seq<Call>)
      requires Valid()
      modifies buffer, list`order, list.next, list.prev
      ensures Valid() && Now() == Passed(old(Now()), rc)
      ensures called == Calls(old(Now()).slots, old(Now()).order)
    {
      hide Ok, Passed, PassedTo, Calls, Swept, List.Valid;
      PassedOk(Now(), rc);
      PassedToEnd(Now(), rc);
      called := Sweep(rc);
    }

    /** The loop of a pass. */
    method Sweep(rc: nat -> int) returns (called: seq<Call>)
      requires buffer.Length == MAX && list.n == MAX && list.Valid() && Ok(Now())
      modifies buffer, list`order, list.next, list.prev
      ensures list.Valid()
      ensures var s := old(Now());
              Now() == PassedTo(s, rc, |s.order|) && called == Calls(s.slots, s.order[..|s.order|])
    {
      hide Ok, Swept, Cycle, Passed, PassedTo, Calls, At, Stops, Distinct, List.Valid;
      ghost var s := Now();
      ghost var k := 0;
      PassedToStart(s, rc);
      called := [];
      list.Starts();
      var p := list.next[MAX];
      while p != MAX
        invariant 0 <= k <= |s.order| && p == At(s.order, MAX, k + 1)
        invariant list.Valid() && Now() == PassedTo(s, rc, k)
        invariant called == Calls(s.slots, s.order[..k])
        decreases |s.order| - k
      {
        var calls;
        p, calls := Advance(s, rc, k, p);
        called := called + calls;
        k := k + 1;
      }
    }

    /** The loop body of a pass: timer `p`, and the one after it. */
    method Advance(ghost s: State, rc: nat -> int, ghost k: nat, p: nat) returns (p1: nat, called: seq<Call>)
      requires Ok(s) && k < |s.order| && p == s.order[k]
      requires buffer.Length == MAX && list.n == MAX && list.Valid() && Now() == PassedTo(s, rc, k)
      modifies buffer, list`order, list.next, list.prev
      ensures list.Valid() && Now() == PassedTo(s, rc, k + 1) && p1 == At(s.order, MAX, k + 2)
      ensures Calls(s.slots, s.order[..k + 1]) == Calls(s.slots, s.order[..k]) + called
    {
      OneTicked(s, rc, k);
      SweepOn(list.next[..], list.prev[..], s.order, MAX, Stops(s.slots, rc), k);
      hide Ok, Swept, Cycle, Passed, PassedTo, Calls;
      p1 := list.next[p];
      called := Visit(p, rc(p));
    }

    /** One timer's part of a pass. */
    method Visit(p: nat, rc: int) returns (called: seq<Call>)
      requires buffer.Length == MAX && list.n == MAX && list.Valid()
      requires p < MAX && buffer[p].valid && p in list.order
      modifies buffer, list`order, list.next, list.prev
      ensures list.Valid()
      ensures buffer[..] == old(buffer[..][p := Ticked(buffer[p], rc)])
      ensures list.order == if old(Due(buffer[p])) && rc != 0 then Without(old(list.order), p) else old(list.order)
      ensures called == if old(Due(buffer[p])) then [Call(old(buffer[p].id), old(buffer[p].call))] else []
    {
      called := [];
      buffer[p] := buffer[p].(cnt := buffer[p].cnt + 1);
      if buffer[p].cnt >= buffer[p].dev {
        buffer[p] := buffer[p].(cnt := 0);
        called := [Call(buffer[p].id, buffer[p].call)];
        if rc != 0 {
          StopCTimerP(p);
        }
      }
    }
  }
}
