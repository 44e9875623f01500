/** Doubly linked lists threaded through a fixed array of slots, with the list head as sentinel. */
module SlotList {

  /** The handler of a timer and its argument. */
  datatype Callback = Callback(proc: nat, arg: nat)

  /** A timer's id: the low 16 bits of the count of timers so far below the slot number. */
  function Id(addup: nat, slot: nat): int {
    addup % 0x1_0000 + slot * 0x1_0000
  }

  function SlotOf(id: int): int {
    id / 0x1_0000
  }

  lemma FarIds(a: nat, b: nat, i: nat)
    ensures a < b < a + 0x1_0000 ==> Id(a, i) != Id(b, i)
    ensures SlotOf(Id(a, i)) == i
  {
  }

  lemma SameIds(a: nat, i: nat)
    ensures Id(a + 0x1_0000, i) == Id(a, i)
  {
  }

  // ----- Ids over time -----

  /** A slot, and the count of timers so far, at one moment. */
  datatype Mark = Mark(valid: bool, id: int, addup: nat)

  /** From one moment to the next a running timer keeps its id, and a new one gets the next id. */
  predicate Follows(m: Mark, m': Mark, i: nat) {
    && m.addup <= m'.addup <= m.addup + 1
    && (m'.valid ==> m'.id == if m.valid then m.id else Id(m.addup, i))
    && (m'.valid && !m.valid ==> m'.addup == m.addup + 1)
  }

  predicate IsHistory(h: seq<Mark>, i: nat) {
    h != [] && forall k :: 0 < k < |h| ==> Follows(h[k - 1], h[k], i)
  }

  /** A running timer that has just got its id. */
  predicate Newest(m: Mark, i: nat) {
    m.valid && m.addup > 0 && m.id == Id(m.addup - 1, i)
  }

  /** The slot is valid all along. */
  predicate Lasts(h: seq<Mark>) {
    forall k :: 0 <= k < |h| ==> h[k].valid
  }

  lemma HistoryGrows(h: seq<Mark>, m: Mark, i: nat)
    requires IsHistory(h, i) && Follows(h[|h| - 1], m, i)
    ensures IsHistory(h + [m], i)
  {
  }

  /** The id in a slot at the end of a history: that of the timer in it at first, as long as that one
      lives, and afterwards one made from a later value of the counter. */
  lemma {:induction false} LaterId(h: seq<Mark>, i: nat) returns (b: nat)
    requires IsHistory(h, i) && Newest(h[0], i)
    ensures var m := h[|h| - 1];
            && h[0].addup <= m.addup && h[0].addup - 1 <= b < m.addup
            && (m.valid ==> m.id == Id(b, i))
            && (m.valid && b == h[0].addup - 1 ==> Lasts(h))
    decreases |h|
  {
    b := h[0].addup - 1;
    if |h| > 1 {
      var rest, before, m := h[..|h| - 1], h[|h| - 2], h[|h| - 1];
      b := LaterId(rest, i);
      hide Id;
      assert Follows(before, m, i) && rest[|rest| - 1] == before;
      assert Lasts(rest) && m.valid ==> Lasts(h);
      if !before.valid && m.valid {
        b := before.addup;
      }
    }
  }

  /** The id of a timer that has ended is not in its slot again, until 65536 more have been made. */
  lemma StaleId(h: seq<Mark>, i: nat)
    requires IsHistory(h, i) && Newest(h[0], i) && !Lasts(h) && h[|h| - 1].addup - h[0].addup < 0x1_0000
    ensures !(h[|h| - 1].valid && h[|h| - 1].id == h[0].id)
  {
    var b := LaterId(h, i);
    FarIds(h[0].addup - 1, b, i);
  }

  // ----- The list -----

  /** The `k`-th stop on the way round: the head `n`, the members in order, the head again. */
  function At(order: seq<nat>, n: nat, k: nat): nat
    requires k <= |order| + 1
  {
    if k == 0 || k == |order| + 1 then n else order[k - 1]
  }

  /** No slot twice, and every slot below `n`. */
  predicate Distinct(order: seq<nat>, n: nat) {
    && (forall i :: 0 <= i < |order| ==> order[i] < n)
    && (forall i, j :: 0 <= i < j < |order| ==> order[i] != order[j])
  }

  /** From head `n` the `next` links lead through `order` and back, the `prev` links the other way. */
  predicate Cycle(next: seq<nat>, prev: seq<nat>, order: seq<nat>, n: nat) {
    && |next| == |prev| == n + 1 && Distinct(order, n)
    && (forall k {:trigger next[At(order, n, k)]} :: 0 <= k <= |order| ==> next[At(order, n, k)] == At(order, n, k + 1))
    && (forall k {:trigger prev[At(order, n, k)]} :: 1 <= k <= |order| + 1 ==> prev[At(order, n, k)] == At(order, n, k - 1))
  }

  /** `order` without slot `x`. */
  function Without(order: seq<nat>, x: nat): seq<nat> {
    if order == [] then []
    else if order[0] == x then order[1..]
    else [order[0]] + Without(order[1..], x)
  }

  lemma {:induction false} WithoutAt(order: seq<nat>, n: nat, k: nat)
    requires Distinct(order, n) && k < |order|
    ensures Without(order, order[k]) == order[..k] + order[k + 1..]
  {
    if k > 0 {
      var rest := order[1..];
      RestDistinct(order, n);
      assert rest[k - 1] == order[k];
      WithoutAt(rest, n, k - 1);
      hide Without, Distinct;
      WithoutRest(order, order[k]);
      assert [order[0]] + rest[..k - 1] == order[..k] && rest[k..] == order[k + 1..];
    }
  }

  lemma RestDistinct(order: seq<nat>, n: nat)
    requires Distinct(order, n) && order != []
    ensures Distinct(order[1..], n) && order[0] !in order[1..]
    ensures forall k :: 0 < k < |order| ==> order[k] != order[0]
  {
  }

  lemma WithoutRest(order: seq<nat>, x: nat)
    requires order != [] && order[0] != x
    ensures Without(order, x) == [order[0]] + Without(order[1..], x)
  {
  }

  lemma DistinctMore(a: nat, rest: seq<nat>, n: nat)
    requires Distinct(rest, n) && a < n && a !in rest
    ensures Distinct([a] + rest, n)
  {
  }

  /** What is left after removal: everything else, still distinct. */
  lemma {:induction false} WithoutKeeps(order: seq<nat>, n: nat, x: nat)
    requires Distinct(order, n) && x in order
    ensures Distinct(Without(order, x), n)
    ensures forall y :: y in Without(order, x) <==> y in order && y != x
  {
    var a, rest := order[0], order[1..];
    assert a < n;
    assert order == [a] + rest;
    RestDistinct(order, n);
    if a == x {
      hide Distinct;
      assert Without(order, x) == rest;
    } else {
      WithoutRest(order, x);
      hide Distinct, Without;
      WithoutKeeps(rest, n, x);
      DistinctMore(a, Without(rest, x), n);
    }
  }

  /** The links once slot `i` is linked in before the head. */
  lemma LinkIn(next: seq<nat>, prev: seq<nat>, order: seq<nat>, n: nat, i: nat)
    requires Cycle(next, prev, order, n) && i < n && i !in order
    ensures prev[n] <= n && prev[n] != i
    ensures Cycle(next[i := n][prev[n] := i], prev[i := prev[n]][n := i], order + [i], n)
  {
    var longer := order + [i];
    var last := At(order, n, |order|);
    assert prev[At(order, n, |order| + 1)] == last;
    var next', prev' := next[i := n][last := i], prev[i := last][n := i];
    forall k | 0 <= k <= |longer|
      ensures next'[At(longer, n, k)] == At(longer, n, k + 1)
    {
      if k < |order| {
        assert next[At(order, n, k)] == At(order, n, k + 1);
      }
    }
    forall k | 1 <= k <= |longer| + 1
      ensures prev'[At(longer, n, k)] == At(longer, n, k - 1)
    {
      if k <= |order| {
        assert prev[At(order, n, k)] == At(order, n, k - 1);
      }
    }
  }

  /** The stops of a list without its `k`-th slot. */
  lemma AtShorter(order: seq<nat>, n: nat, k: nat, j: nat)
    requires Distinct(order, n) && k < |order| && j <= |order|
    ensures At(order[..k] + order[k + 1..], n, j) == At(order, n, if j <= k then j else j + 1)
    ensures At(order, n, if j <= k then j else j + 1) != order[k]
  {
  }

  /** The links once the `k`-th slot is linked out. */
  lemma LinkOut(next: seq<nat>, prev: seq<nat>, order: seq<nat>, n: nat, k: nat)
    requires Cycle(next, prev, order, n) && k < |order|
    ensures var i := order[k];
            && i < n && next[i] <= n && prev[i] <= n && next[i] != i
            && Cycle(next[prev[i] := next[i]], prev[next[i] := prev[i]], order[..k] + order[k + 1..], n)
  {
    var i, shorter := order[k], order[..k] + order[k + 1..];
    assert next[At(order, n, k + 1)] == At(order, n, k + 2);
    assert prev[At(order, n, k + 1)] == At(order, n, k);
    LinkOutNext(next, prev, order, n, k);
    LinkOutPrev(next, prev, order, n, k);
  }

  lemma LinkOutNext(next: seq<nat>, prev: seq<nat>, order: seq<nat>, n: nat, k: nat)
    requires Cycle(next, prev, order, n) && k < |order|
    ensures var shorter, next' := order[..k] + order[k + 1..], next[At(order, n, k) := At(order, n, k + 2)];
            forall j :: 0 <= j <= |shorter| ==> next'[At(shorter, n, j)] == At(shorter, n, j + 1)
  {
    var shorter, next' := order[..k] + order[k + 1..], next[At(order, n, k) := At(order, n, k + 2)];
    forall j | 0 <= j <= |shorter|
      ensures next'[At(shorter, n, j)] == At(shorter, n, j + 1)
    {
      AtShorter(order, n, k, j);
      AtShorter(order, n, k, j + 1);
      assert next[At(order, n, if j <= k then j else j + 1)] == At(order, n, if j <= k then j + 1 else j + 2);
    }
  }

  lemma LinkOutPrev(next: seq<nat>, prev: seq<nat>, order: seq<nat>, n: nat, k: nat)
    requires Cycle(next, prev, order, n) && k < |order|
    ensures var shorter, prev' := order[..k] + order[k + 1..], prev[At(order, n, k + 2) := At(order, n, k)];
            forall j :: 1 <= j <= |shorter| + 1 ==> prev'[At(shorter, n, j)] == At(shorter, n, j - 1)
  {
    var shorter, prev' := order[..k] + order[k + 1..], prev[At(order, n, k + 2) := At(order, n, k)];
    forall j | 1 <= j <= |shorter| + 1
      ensures prev'[At(shorter, n, j)] == At(shorter, n, j - 1)
    {
      AtShorter(order, n, k, j);
      AtShorter(order, n, k, j - 1);
      assert prev[At(order, n, if j <= k then j else j + 1)] == At(order, n, if j <= k then j - 1 else j);
    }
  }

  /** What follows slot `p`, and the list without it. */
  lemma InTheMiddle(next: seq<nat>, prev: seq<nat>, order: seq<nat>, n: nat, done: seq<nat>, p: nat, rest: seq<nat>)
    requires Cycle(next, prev, order, n) && order == done + [p] + rest
    ensures p < n && p in order && p !in done && p !in rest
    ensures next[p] == (if rest == [] then n else rest[0]) && Without(order, p) == done + rest
  {
    var m := |done|;
    assert order[m] == p && order[m + 1..] == rest && order[..m] == done;
    assert next[At(order, n, m + 1)] == At(order, n, m + 2);
    WithoutAt(order, n, m);
    assert forall j :: 0 <= j < |done| ==> done[j] == order[j];
    assert forall j :: 0 <= j < |rest| ==> rest[j] == order[m + 1 + j];
  }

  /** The slots that stay when those in `drop` go. */
  function Kept(order: seq<nat>, drop: nat -> bool): seq<nat> {
    if order == [] then []
    else
      var rest, last := order[..|order| - 1], order[|order| - 1];
      Kept(rest, drop) + if drop(last) then [] else [last]
  }

  lemma {:induction false} KeptIs(order: seq<nat>, n: nat, drop: nat -> bool)
    requires Distinct(order, n)
    ensures Distinct(Kept(order, drop), n)
    ensures forall i :: i in Kept(order, drop) <==> i in order && !drop(i)
  {
    if order != [] {
      var rest, last := order[..|order| - 1], order[|order| - 1];
      assert order == rest + [last];
      KeptIs(rest, n, drop);
    }
  }

  /** The list when the first `k` of its slots have been dealt with. */
  function Swept(order: seq<nat>, drop: nat -> bool, k: nat): seq<nat>
    requires k <= |order|
  {
    Kept(order[..k], drop) + order[k..]
  }

  lemma SweptEnds(order: seq<nat>, drop: nat -> bool)
    ensures Swept(order, drop, 0) == order && Swept(order, drop, |order|) == Kept(order, drop)
  {
    assert order[..|order|] == order && order[|order|..] == [];
  }

  /** The next slot of a sweep, where the list leads from there, and the list without it. */
  lemma SweepOn(next: seq<nat>, prev: seq<nat>, order: seq<nat>, n: nat, drop: nat -> bool, k: nat)
    requires Distinct(order, n) && k < |order| && Cycle(next, prev, Swept(order, drop, k), n)
    ensures var p, before, after := order[k], Swept(order, drop, k), Swept(order, drop, k + 1);
            && p < n && p in before && next[p] == At(order, n, k + 2)
            && after == if drop(p) then Without(before, p) else before
  {
    var p, done := order[k], Kept(order[..k], drop);
    assert order[k..] == [p] + order[k + 1..];
    assert Swept(order, drop, k) == done + [p] + order[k + 1..];
    InTheMiddle(next, prev, Swept(order, drop, k), n, done, p, order[k + 1..]);
    assert order[..k + 1][..k] == order[..k];
  }

  /** Where the list starts, and that only the head stands for its end. */
  lemma AtTheHead(next: seq<nat>, prev: seq<nat>, order: seq<nat>, n: nat)
    requires Cycle(next, prev, order, n)
    ensures next[n] == At(order, n, 1)
    ensures forall k :: 1 <= k <= |order| ==> At(order, n, k) == order[k - 1] < n
    ensures At(order, n, |order| + 1) == n
  {
    assert next[At(order, n, 0)] == At(order, n, 1);
  }

  class List {
    const n: nat
    const next: array<nat>
    const prev: array<nat>
    ghost var order: seq<nat>

    ghost predicate Valid()
      reads this, next, prev
    {
      next != prev && Cycle(next[..], prev[..], order, n)
    }

    /** The empty list: the head linked to itself. */
    constructor (n: nat)
      ensures Valid() && this.n == n && order == [] && fresh(next) && fresh(prev)
    {
      this.n := n;
      next := new nat[n + 1](_ => n);
      prev := new nat[n + 1](_ => n);
      order := [];
    }

    lemma Starts()
      requires Valid()
      ensures next.Length == n + 1 && next[n] == At(order, n, 1)
      ensures forall k :: 1 <= k <= |order| ==> At(order, n, k) == order[k - 1] < n
      ensures At(order, n, |order| + 1) == n
    {
      AtTheHead(next[..], prev[..], order, n);
    }

    /** Link slot `i` in before the head, that is, at the end. */
    method Append(i: nat)
      requires Valid() && i < n && i !in order
      modifies `order, next, prev
      ensures Valid() && order == old(order) + [i]
    {
      LinkIn(next[..], prev[..], order, n, i);
      assert |next[..]| == |prev[..]| == n + 1;
      hide Cycle;
      var last := prev[n];
      next[i], prev[i] := n, last;
      next[last] := i;
      prev[n] := i;
      order := order + [i];
      assert next[..] == old(next[..])[i := n][last := i];
      assert prev[..] == old(prev[..])[i := last][n := i];
    }

    /** Link slot `i` out. */
    method Remove(i: nat)
      requires Valid() && i in order
      modifies `order, next, prev
      ensures Valid() && order == Without(old(order), i)
    {
      ghost var k :| 0 <= k < |order| && order[k] == i;
      WithoutAt(order, n, k);
      LinkOut(next[..], prev[..], order, n, k);
      hide Cycle;
      next[prev[i]] := next[i];
      prev[next[i]] := prev[i];
      order := Without(order, i);
      assert next[..] == old(next[..][prev[i] := next[i]]);
      assert prev[..] == old(prev[..][next[i] := prev[i]]);
    }
  }
}
