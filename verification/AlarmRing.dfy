/** The ring of alarms: saved in a cache of 1024 places, of which 1023 are live, and sent one by one. */
module AlarmRing {
  import opened Bytes
  import opened Wrappers

  const MAX_ALARM: nat := 1024

  datatype Alarm = Alarm(starttime: int32, endtime: int32)

  /** The number of the oldest live record, of `n` so far. */
  function Oldest(n: nat): nat {
    if n < MAX_ALARM then 0 else n - (MAX_ALARM - 1)
  }

  /** How many of `n` records sending still sees, if `sent` have been sent: 1024 at a time go unnoticed. */
  function Unsent(n: nat, sent: nat): nat
    requires sent <= n
  {
    (n - sent) % MAX_ALARM
  }

  /** As long as at most 1023 are unsent, none goes unnoticed; one more, and all seem sent. */
  lemma UnsentIsExact(n: nat, sent: nat)
    requires sent <= n
    ensures Unsent(n, sent) == n - sent <==> n - sent <= MAX_ALARM - 1
    ensures n - sent == MAX_ALARM ==> Unsent(n, sent) == 0
  {
  }

  // ----- Runs of saving and sending -----

  datatype Op = Save | Send

  /** The numbers of the records a run sends, `n` having been saved and `sent` sent before it. */
  function Sends(ops: seq<Op>, n: nat, sent: nat): seq<nat>
    requires sent <= n
  {
    if ops == [] then []
    else
      match ops[0]
      case Save => Sends(ops[1..], n + 1, sent)
      case Send =>
        var u := Unsent(n, sent);
        if u == 0 then Sends(ops[1..], n, sent) else [n - u] + Sends(ops[1..], n, n - u + 1)
  }

  /** Whenever a record is to be sent, at most 1023 are still unsent. */
  predicate Keeps(ops: seq<Op>, n: nat, sent: nat)
    requires sent <= n
  {
    ops == [] ||
    match ops[0]
    case Save => Keeps(ops[1..], n + 1, sent)
    case Send => n - sent < MAX_ALARM && Keeps(ops[1..], n, if sent < n then sent + 1 else sent)
  }

  /** As many more records as there are sends, or all there are. */
  function SentAfter(ops: seq<Op>, n: nat, sent: nat): (r: nat)
    requires sent <= n
    ensures sent <= r
  {
    if ops == [] then sent
    else
      match ops[0]
      case Save => SentAfter(ops[1..], n + 1, sent)
      case Send => SentAfter(ops[1..], n, if sent < n then sent + 1 else sent)
  }

  /** With 1024 or more unsent, the next record to be sent is not the first unsent one. */
  lemma {:induction false} SkipsAhead(ops: seq<Op>, n: nat, sent: nat)
    requires n - sent >= MAX_ALARM
    ensures var s := Sends(ops, n, sent); s != [] ==> s[0] > sent
    decreases |ops|
  {
    if ops != [] {
      match ops[0]
      case Save => SkipsAhead(ops[1..], n + 1, sent);
      case Send =>
        if Unsent(n, sent) == 0 {
          SkipsAhead(ops[1..], n, sent);
        }
    }
  }

  /** A run sends every record once and in order, exactly if it keeps up. */
  lemma {:induction false} EachOnceInOrder(ops: seq<Op>, n: nat, sent: nat)
    requires sent <= n
    ensures Sends(ops, n, sent) == InOrder(sent, SentAfter(ops, n, sent)) <==> Keeps(ops, n, sent)
    decreases |ops|
  {
    if ops != [] {
      match ops[0]
      case Save => EachOnceInOrder(ops[1..], n + 1, sent);
      case Send =>
        if n - sent < MAX_ALARM {
          UnsentIsExact(n, sent);
          EachOnceInOrder(ops[1..], n, if sent < n then sent + 1 else sent);
          if sent < n {
            var rest, next := Sends(ops[1..], n, sent + 1), InOrder(sent + 1, SentAfter(ops, n, sent));
            assert Sends(ops, n, sent) == [sent] + rest && InOrder(sent, SentAfter(ops, n, sent)) == [sent] + next;
            assert rest == ([sent] + rest)[1..] && next == ([sent] + next)[1..];
          }
        } else {
          SkipsAhead(ops, n, sent);
        }
    }
  }

  /** The numbers from `from` on, below `to`. */
  function InOrder(from: nat, to: nat): seq<nat>
    requires from <= to
  {
    seq(to - from, i => from + i)
  }

  /** Falling behind by one record more loses 1024 of them. */
  lemma FallingBehind(sent: nat)
    ensures Sends([Send], sent + MAX_ALARM, sent) == []
    ensures Sends([Save, Send], sent + MAX_ALARM, sent) == [sent + MAX_ALARM]
  {
    assert [Save, Send][1..] == [Send] && [Send][1..] == [];
    assert Unsent(sent + MAX_ALARM + 1, sent) == 1;
    assert Sends([Send], sent + MAX_ALARM + 1, sent) == [sent + MAX_ALARM] + [];
    UnsentIsExact(sent + MAX_ALARM, sent);
  }

  class Ring {
    const cache: array<Alarm>
    var head: nat
    var cur: nat
    var snd: nat
    var playstate: nat
    /** All records since the ring was cleared, and how many of them have been sent. */
    ghost var log: seq<Alarm>
    ghost var sent: nat

    ghost predicate Valid()
      reads this, cache
    {
      && cache.Length == MAX_ALARM && sent <= |log|
      && cur == |log| % MAX_ALARM && head == Oldest(|log|) % MAX_ALARM
      && (snd == sent % MAX_ALARM || (snd == MAX_ALARM && sent % MAX_ALARM == 0))
      && (forall k :: Oldest(|log|) <= k < |log| ==> cache[k % MAX_ALARM] == log[k])
    }

    /** The records between `head` and `cur`, in ring order. */
    ghost function Live(): seq<Alarm>
      requires cache.Length == MAX_ALARM && head < MAX_ALARM && cur < MAX_ALARM
      reads this, cache
    {
      if head <= cur then cache[head..cur] else cache[head..] + cache[..cur]
    }

    constructor ()
      ensures Valid() && log == [] && sent == 0 && fresh(cache)
    {
      cache := new Alarm[MAX_ALARM](_ => Alarm(0, 0));
      head, cur, snd, playstate := 0, 0, 0, 0;
      log, sent := [], 0;
    }

    /** The live records are the last 1023 that were saved, or all of them if there are fewer, oldest
        first. */
    lemma LiveIsLastRecords()
      requires Valid()
      ensures head < MAX_ALARM && cur < MAX_ALARM && Live() == log[Oldest(|log|)..]
    {
      var o, n := Oldest(|log|), |log|;
      Places(o, n);
      assert |Live()| == n - o;
      forall i | 0 <= i < n - o
        ensures Live()[i] == log[o + i]
      {
        Place(o, n, i);
        assert cache[(o + i) % MAX_ALARM] == log[o + i];
      }
    }

    /** `ClearAlarm`. */
    method ClearAlarm()
      requires Valid()
      modifies `head, `cur, `snd, `log, `sent
      ensures Valid() && log == [] && sent == 0
    {
      head, cur, snd := 0, 0, 0;
      log, sent := [], 0;
    }

    /** One place further, the head out of the way: what is in the current place becomes a record. */
    method Advance()
      requires Valid()
      modifies `head, `cur, `log
      ensures Valid() && log == old(log) + [old(cache[cur])]
    {
      ghost var n := |log|;
      NextPlace(n);
      cur := cur + 1;
      if cur >= MAX_ALARM {
        cur := 0;
      }
      if cur == head {
        head := head + 1;
        if head >= MAX_ALARM {
          head := 0;
        }
      }
      log := log + [cache[n % MAX_ALARM]];
    }

    method SaveAlarm(pbuf: Alarm, now: int32)
      requires Valid()
      modifies `head, `cur, `log, `playstate, cache
      ensures Valid() && log == old(log) + [pbuf.(endtime := now)] && playstate == 0
    {
      Store(pbuf.(endtime := now));
      Advance();
      playstate := 0;
    }

    /** A record is written into the current place, which is not a live one. */
    method Store(a: Alarm)
      requires Valid()
      modifies cache
      ensures Valid() && cache[cur] == a
    {
      ghost var n := |log|;
      forall k | Oldest(n) <= k < n
        ensures k % MAX_ALARM != cur
      {
        OtherPlace(n, k);
      }
      cache[cur] := a;
    }

    /** `UpdateAlarm`: the current place is written ahead of its saving. */
    method UpdateAlarm(pbuf: Alarm)
      requires Valid()
      modifies cache
      ensures Valid() && cache[cur] == pbuf
    {
      Store(pbuf);
    }

    /** `MakeAlarmG`: a playing that was cut off has its place made a record, as it is. */
    method MakeAlarmG(pbuf: Alarm, now: int32) returns (pbuf': Alarm)
      requires Valid()
      modifies `head, `cur, `log, `playstate
      ensures Valid() && playstate == 1 && pbuf' == Alarm(now, now)
      ensures log == if old(playstate) == 1 then old(log) + [old(cache[cur])] else old(log)
    {
      if playstate == 1 {
        Advance();
      }
      if head >= MAX_ALARM || cur >= MAX_ALARM {
        assert false; // both stay below 1024
      }
      playstate := 1;
      pbuf' := pbuf.(starttime := now, endtime := now);
    }

    /** `ActiveSendAlarm`: the next record, or -1 if there seems to be none. */
    method ActiveSendAlarm() returns (rtn: int, buffer: Option<Alarm>)
      requires Valid()
      modifies `snd, `sent
      ensures Valid()
      ensures var u := Unsent(|log|, old(sent));
              if u == 0 then rtn == -1 && buffer == None && sent == old(sent)
              else rtn == 0 && buffer == Some(log[|log| - u]) && sent == |log| - u + 1
    {
      hide Unsent, Oldest;
      SendPlaces(|log|, sent);
      if cur == head {
        return -1, None;
      } else if cur > head {
        if snd > cur || snd < head {
          snd := head;
        }
      } else {
        if snd > cur && snd < head {
          assert false; // there is no place between them
        }
      }
      if snd >= MAX_ALARM {
        snd := 0;
      }
      if snd == cur {
        return -1, None;
      }
      ghost var u := Unsent(|log|, sent);
      assert cache[(|log| - u) % MAX_ALARM] == log[|log| - u];
      buffer := Some(cache[snd]);
      snd := snd + 1;
      sent := |log| - u + 1;
      return 0, buffer;
    }
  }

  // ----- Places -----

  lemma Places(o: nat, n: nat)
    requires o == Oldest(n)
    ensures n < MAX_ALARM ==> o % MAX_ALARM == 0 && n % MAX_ALARM == n
    ensures n >= MAX_ALARM ==> o % MAX_ALARM == if n % MAX_ALARM == MAX_ALARM - 1 then 0 else n % MAX_ALARM + 1
  {
  }

  lemma Place(o: nat, n: nat, i: nat)
    requires o == Oldest(n) && i < n - o
    ensures (o + i) % MAX_ALARM == if o % MAX_ALARM + i < MAX_ALARM then o % MAX_ALARM + i else o % MAX_ALARM + i - MAX_ALARM
  {
  }

  lemma OtherPlace(n: nat, k: nat)
    requires Oldest(n) <= k < n
    ensures k % MAX_ALARM != n % MAX_ALARM
  {
  }

  lemma NextPlace(n: nat)
    ensures (n + 1) % MAX_ALARM == if n % MAX_ALARM + 1 >= MAX_ALARM then 0 else n % MAX_ALARM + 1
    ensures var h, c := Oldest(n) % MAX_ALARM, (n + 1) % MAX_ALARM;
            Oldest(n + 1) % MAX_ALARM == if c == h then (if h + 1 >= MAX_ALARM then 0 else h + 1) else h
    ensures Oldest(n) <= Oldest(n + 1)
  {
  }

  lemma UnsentPlace(n: nat, sent: nat)
    requires sent <= n
    ensures var u, s := Unsent(n, sent), sent % MAX_ALARM;
            && (u == 0 <==> s == n % MAX_ALARM) && u <= n && u < MAX_ALARM && (n - u) % MAX_ALARM == s
  {
    var q := (n - sent) / MAX_ALARM;
    assert n - Unsent(n, sent) == sent + MAX_ALARM * q;
  }

  lemma StepPlace(k: nat)
    ensures (k + 1) % MAX_ALARM == if k % MAX_ALARM + 1 == MAX_ALARM then 0 else k % MAX_ALARM + 1
  {
  }

  /** Where the next record to send lies, with respect to the head and the current place. */
  lemma SendPlaces(n: nat, sent: nat)
    requires sent <= n
    ensures var u, s, h, c := Unsent(n, sent), sent % MAX_ALARM, Oldest(n) % MAX_ALARM, n % MAX_ALARM;
            && (c == h <==> n == 0) && (u == 0 <==> s == c) && u <= n && Oldest(n) <= n - u
            && (n - u) % MAX_ALARM == s && (n - u + 1) % MAX_ALARM == (if s + 1 == MAX_ALARM then 0 else s + 1)
            && (c > h ==> h == 0 && (c == MAX_ALARM - 1 || (n < MAX_ALARM && s <= c)))
            && (c > h && s == 0 && n >= MAX_ALARM ==> c == MAX_ALARM - 1)
            && (c < h ==> h == c + 1)
  {
    UnsentPlace(n, sent);
    StepPlace(n - Unsent(n, sent));
    Places(Oldest(n), n);
    hide Unsent;
  }
}
