/** Parameters behind item ids: tables of items in groups, and an id in each group that stands for all
    its members at once. */
module ItemGroups {
  import opened Bytes
  import opened Wrappers

  const OK := 0
  const INVALID := 1
  const PWDERR := 2
  const OPFAIL := 3

  const HIGHLEVEL: byte := 0x11
  const PORTS: nat := 7

  // ----- Tables and parameters -----

  /** How an item is read and written: copied from and to a place of the memory, always the same byte,
      a port's stop bits, or by a handler of its own. */
  datatype Kind = Copy(place: nat) | Set(value: byte) | StopBit | Handler | NoHandler

  datatype Item = Item(id: word, readable: bool, writable: bool, highlevel: bool, group: bool, kind: Kind, datalen: word)

  datatype GroupKind = Term | Special

  datatype Group = Group(id: word, kind: GroupKind, items: seq<Item>)

  datatype Params = Params(mem: seq<byte>, stopbits: seq<byte>)

  /** The items' own handlers. */
  datatype Handlers = Handlers(read: (word, Params) -> Option<seq<byte>>, write: (word, seq<byte>, Params) -> (Params, int))

  /** Parameters as large as the tables say; handlers keep them so. */
  predicate Sized(p: Params, size: nat) {
    |p.mem| == size && |p.stopbits| == PORTS
  }

  ghost predicate HandlersOk(h: Handlers, size: nat) {
    forall id, bytes, p :: Sized(p, size) ==> Sized(h.write(id, bytes, p).0, size)
  }

  predicate ItemOk(it: Item, size: nat) {
    && (it.kind.Copy? ==> it.kind.place + it.datalen <= size)
    && (it.kind.StopBit? ==> it.datalen == 1)
  }

  predicate ItemsOk(items: seq<Item>, size: nat) {
    forall i :: 0 <= i < |items| ==> ItemOk(items[i], size)
  }

  // ----- Stop bits -----

  /** The port of a stop-bit item, as its handler works it out: those of ports 0 and 1 are the same. */
  function StopPort(id: word): int {
    var idx: int := (id as int - 0x8700) / 16;
    if idx != 0 then idx - 1 else idx
  }

  function StopCode(stop: byte): byte {
    if stop == 3 then 1 else if stop == 1 then 0 else 2
  }

  function StopOf(code: byte): byte {
    if code == 1 then 3 else if code == 0 then 1 else 2
  }

  // ----- Plain items -----

  /** What a plain item is read as. */
  function Encoding(h: Handlers, p: Params, it: Item): Option<seq<byte>>
    requires ItemOk(it, |p.mem|) && |p.stopbits| == PORTS
  {
    match it.kind
    case Copy(place) => Some(p.mem[place..place + it.datalen])
    case Set(value) => Some(seq(it.datalen, _ => value))
    case StopBit =>
      var port := StopPort(it.id);
      if 0 <= port < PORTS then Some([StopCode(p.stopbits[port])]) else None
    case Handler => h.read(it.id, p)
    case NoHandler => None
  }

  /** Reading a plain item into a buffer of `maxlen` bytes. */
  function ReadPlain(h: Handlers, p: Params, it: Item, maxlen: nat): (int, seq<byte>)
    requires ItemOk(it, |p.mem|) && |p.stopbits| == PORTS
  {
    if it.datalen > maxlen then (INVALID, [])
    else if !it.readable then (OPFAIL, [])
    else
      match Encoding(h, p, it)
      case None => (INVALID, [])
      case Some(bytes) => if |bytes| > maxlen then (INVALID, []) else (OK, bytes)
  }

  function Patch(mem: seq<byte>, place: nat, bytes: seq<byte>): (r: seq<byte>)
    requires place + |bytes| <= |mem|
    ensures |r| == |mem| && r[place..place + |bytes|] == bytes
    ensures forall i :: 0 <= i < |mem| && !(place <= i < place + |bytes|) ==> r[i] == mem[i]
  {
    mem[..place] + bytes + mem[place + |bytes|..]
  }

  /** Writing a plain item from a buffer of `maxlen` bytes. */
  function WritePlain(h: Handlers, p: Params, it: Item, buf: seq<byte>, maxlen: nat, level: byte): (Params, int)
    requires ItemOk(it, |p.mem|) && |p.stopbits| == PORTS && maxlen <= |buf|
  {
    if it.datalen > maxlen then (p, INVALID)
    else if !it.writable then (p, OPFAIL)
    else if it.highlevel && level != HIGHLEVEL then (p, PWDERR)
    else
      match it.kind
      case Copy(place) => (p.(mem := Patch(p.mem, place, buf[..it.datalen])), OK)
      case Set(_) => (p, OK)
      case StopBit =>
        var port := StopPort(it.id);
        if 0 <= port < PORTS then (p.(stopbits := p.stopbits[port := StopOf(buf[0])]), OK) else (p, INVALID)
      case Handler => h.write(it.id, buf[..it.datalen], p)
      case NoHandler => (p, INVALID)
  }

  // ----- Groups -----

  /** Reading the members of a group one after the other; any failure is one of the whole. */
  function ReadMembers(h: Handlers, p: Params, items: seq<Item>, maxlen: nat): Option<seq<byte>>
    requires ItemsOk(items, |p.mem|) && |p.stopbits| == PORTS
  {
    if items == [] then Some([])
    else
      var (rtn, bytes) := ReadPlain(h, p, items[0], maxlen);
      if rtn != OK then None
      else
        match ReadMembers(h, p, items[1..], maxlen - |bytes|)
        case None => None
        case Some(rest) => Some(bytes + rest)
  }

  /** Writing the members: an invalid one ends it; of other failures the last one is reported. */
  ghost function WriteMembers(h: Handlers, p: Params, items: seq<Item>, buf: seq<byte>, maxlen: nat, level: byte): (Params, int)
    requires ItemsOk(items, |p.mem|) && |p.stopbits| == PORTS && maxlen <= |buf| && HandlersOk(h, |p.mem|)
    decreases |items|
  {
    if items == [] then (p, OK)
    else
      var (p', rtn) := WritePlain(h, p, items[0], buf, maxlen, level);
      if rtn == INVALID then (p', INVALID)
      else
        WriteKeepsSize(h, p, items[0], buf, maxlen, level);
        var n := items[0].datalen;
        var (p'', rest) := WriteMembers(h, p', items[1..], buf[n..], maxlen - n, level);
        (p'', if rest != OK then rest else rtn)
  }

  lemma WriteKeepsSize(h: Handlers, p: Params, it: Item, buf: seq<byte>, maxlen: nat, level: byte)
    requires ItemOk(it, |p.mem|) && |p.stopbits| == PORTS && maxlen <= |buf| && HandlersOk(h, |p.mem|)
    ensures Sized(WritePlain(h, p, it, buf, maxlen, level).0, |p.mem|)
  {
    assert Sized(p, |p.mem|);
  }

  // ----- What writing refuses -----

  /** The item is not for writing, or not with this level. */
  predicate Refused(it: Item, level: byte) {
    !it.writable || (it.highlevel && level != 0x11)
  }

  /** A write that does not fit, to an item that is not for writing, or without the level it asks for
      fails in that order and changes nothing; a copied item is written in all other cases, and then
      only its own bytes change. */
  lemma WriteIsGuarded(h: Handlers, p: Params, it: Item, buf: seq<byte>, maxlen: nat, level: byte)
    requires ItemOk(it, |p.mem|) && |p.stopbits| == PORTS && maxlen <= |buf|
    ensures var (p', rtn) := WritePlain(h, p, it, buf, maxlen, level);
            if it.datalen > maxlen then p' == p && rtn == INVALID
            else if !it.writable then p' == p && rtn == OPFAIL
            else if it.highlevel && level != 0x11 then p' == p && rtn == PWDERR
            else it.kind.Copy? ==>
              && rtn == OK && p'.stopbits == p.stopbits && |p'.mem| == |p.mem|
              && forall k :: 0 <= k < |p.mem| ==>
                   p'.mem[k] == if it.kind.place <= k < it.kind.place + it.datalen then buf[k - it.kind.place] else p.mem[k]
  {
    if it.kind.Copy? && it.datalen <= maxlen {
      var place, n := it.kind.place, it.datalen;
      var mem := Patch(p.mem, place, buf[..n]);
      assert forall k :: place <= k < place + n ==> mem[k] == mem[place..place + n][k - place];
    }
  }

  /** How a plain item without a handler of its own answers a write that fits. */
  function Answer(it: Item, level: byte): int {
    if !it.writable then OPFAIL
    else if it.highlevel && level != 0x11 then PWDERR
    else if it.kind.NoHandler? || (it.kind.StopBit? && !(0 <= StopPort(it.id) < PORTS)) then INVALID
    else OK
  }

  /** The answer of the last item that does not answer OK. */
  function LastFailure(items: seq<Item>, level: byte): int {
    if items == [] then OK
    else
      var last := Answer(items[|items| - 1], level);
      if last != OK then last else LastFailure(items[..|items| - 1], level)
  }

  lemma {:induction false} FailureFromFront(items: seq<Item>, level: byte)
    requires items != []
    ensures LastFailure(items, level) == if LastFailure(items[1..], level) != OK then LastFailure(items[1..], level)
                                         else Answer(items[0], level)
    decreases |items|
  {
    var n := |items| - 1;
    if n > 0 {
      FailureFromFront(items[..n], level);
      assert items[..n][1..] == items[1..][..n - 1];
    } else {
      assert items[1..] == [] && items[..0] == [];
    }
  }

  /** Writing members that fit: an invalid one ends it with that answer; otherwise the answer is that of
      the last member that failed, whatever came before and after it. */
  lemma {:induction false} GroupAnswers(h: Handlers, p: Params, items: seq<Item>, buf: seq<byte>, maxlen: nat, level: byte)
    requires ItemsOk(items, |p.mem|) && |p.stopbits| == PORTS && Total(items) <= maxlen <= |buf| && HandlersOk(h, |p.mem|)
    requires forall i :: 0 <= i < |items| ==> !items[i].kind.Handler?
    ensures WriteMembers(h, p, items, buf, maxlen, level).1 ==
            if exists i :: 0 <= i < |items| && Answer(items[i], level) == INVALID then INVALID else LastFailure(items, level)
    decreases |items|
  {
    assert Sized(p, |p.mem|);
    if items != [] {
      var it, rest := items[0], items[1..];
      WriteKeepsSize(h, p, it, buf, maxlen, level);
      assert WritePlain(h, p, it, buf, maxlen, level).1 == Answer(it, level);
      assert forall i :: 0 <= i < |rest| ==> rest[i] == items[i + 1];
      assert forall i :: 1 <= i < |items| ==> items[i] == rest[i - 1];
      hide WritePlain, Answer, ItemOk;
      FailureFromFront(items, level);
      if Answer(it, level) != INVALID {
        GroupAnswers(h, WritePlain(h, p, it, buf, maxlen, level).0, rest, buf[it.datalen..], maxlen - it.datalen, level);
      }
    }
  }

  /** Reading a plain item: a buffer too short, an item that is not for reading, and one that has
      nothing to read fail in that order, with nothing delivered. */
  lemma ReadIsGuarded(h: Handlers, p: Params, it: Item, maxlen: nat)
    requires ItemOk(it, |p.mem|) && |p.stopbits| == PORTS
    ensures var (rtn, bytes) := ReadPlain(h, p, it, maxlen);
            && (rtn != OK ==> bytes == [])
            && if it.datalen > maxlen then rtn == INVALID
               else if !it.readable then rtn == OPFAIL
               else
                 match it.kind
                 case Copy(place) => rtn == OK && bytes == p.mem[place..place + it.datalen]
                 case Set(value) => rtn == OK && |bytes| == it.datalen && forall k :: 0 <= k < |bytes| ==> bytes[k] == value
                 case StopBit =>
                   var port := StopPort(it.id);
                   if 0 <= port < PORTS then
                     rtn == OK && bytes == [if p.stopbits[port] == 3 then 1 else if p.stopbits[port] == 1 then 0 else 2]
                   else rtn == INVALID
                 case Handler => rtn == OK ==> h.read(it.id, p) == Some(bytes)
                 case NoHandler => rtn == INVALID
  {
  }

  /** The items' own handlers leave what the item reads as alone. */
  ghost predicate HandlersSpare(h: Handlers, size: nat, x: Item)
    requires ItemOk(x, size)
  {
    forall id, bytes, p :: Sized(p, size) && Sized(h.write(id, bytes, p).0, size) ==>
                             Encoding(h, h.write(id, bytes, p).0, x) == Encoding(h, p, x)
  }

  lemma WritePlainKeeps(h: Handlers, p: Params, it: Item, buf: seq<byte>, maxlen: nat, level: byte, x: Item)
    requires ItemOk(it, |p.mem|) && |p.stopbits| == PORTS && maxlen <= |buf| && HandlersOk(h, |p.mem|)
    requires ItemOk(x, |p.mem|) && (x.kind.Copy? || x.kind.StopBit?) && HandlersSpare(h, |p.mem|, x)
    requires Refused(it, level) || Apart(x, it)
    ensures var p' := WritePlain(h, p, it, buf, maxlen, level).0;
            Sized(p', |p.mem|) && Encoding(h, p', x) == Encoding(h, p, x)
  {
    WriteKeepsSize(h, p, it, buf, maxlen, level);
    WriteIsGuarded(h, p, it, buf, maxlen, level);
    if it.kind.Copy? && x.kind.Copy? {
      var p', o, n := WritePlain(h, p, it, buf, maxlen, level).0, x.kind.place, x.datalen;
      assert p'.mem[o..o + n] == p.mem[o..o + n];
    } else if it.kind.Handler? {
      assert Sized(p, |p.mem|);
    }
  }

  lemma {:induction false} MembersKeep(h: Handlers, p: Params, items: seq<Item>, buf: seq<byte>, maxlen: nat, level: byte, x: Item)
    requires ItemsOk(items, |p.mem|) && |p.stopbits| == PORTS && maxlen <= |buf| && HandlersOk(h, |p.mem|)
    requires ItemOk(x, |p.mem|) && (x.kind.Copy? || x.kind.StopBit?) && HandlersSpare(h, |p.mem|, x)
    requires forall i :: 0 <= i < |items| ==> Refused(items[i], level) || Apart(x, items[i])
    ensures var p' := WriteMembers(h, p, items, buf, maxlen, level).0;
            Sized(p', |p.mem|) && Encoding(h, p', x) == Encoding(h, p, x)
    decreases |items|
  {
    assert Sized(p, |p.mem|);
    if items != [] {
      var it := items[0];
      WritePlainKeeps(h, p, it, buf, maxlen, level, x);
      WriteIsGuarded(h, p, it, buf, maxlen, level);
      hide WritePlain, Encoding, Refused, Apart, HandlersSpare, ItemOk;
      var (p1, rtn) := WritePlain(h, p, it, buf, maxlen, level);
      if rtn != INVALID {
        MembersKeep(h, p1, items[1..], buf[it.datalen..], maxlen - it.datalen, level, x);
      }
    }
  }

  // ----- What reading a group gives -----

  /** The item can be read, and fills the length the table gives it. */
  predicate Readable(h: Handlers, p: Params, it: Item)
    requires ItemOk(it, |p.mem|) && |p.stopbits| == PORTS
  {
    it.readable && Encoding(h, p, it).Some?
  }

  /** Handlers that fill the length the table gives them. */
  predicate FixedLength(h: Handlers, p: Params, items: seq<Item>)
    requires ItemsOk(items, |p.mem|) && |p.stopbits| == PORTS
  {
    forall i :: 0 <= i < |items| && Encoding(h, p, items[i]).Some? ==> |Encoding(h, p, items[i]).value| == items[i].datalen
  }

  predicate AllReadable(h: Handlers, p: Params, items: seq<Item>)
    requires ItemsOk(items, |p.mem|) && |p.stopbits| == PORTS
  {
    forall i :: 0 <= i < |items| ==> Readable(h, p, items[i])
  }

  /** The members' encodings in table order. */
  function Joined(h: Handlers, p: Params, items: seq<Item>): seq<byte>
    requires ItemsOk(items, |p.mem|) && |p.stopbits| == PORTS && AllReadable(h, p, items)
  {
    if items == [] then [] else Encoding(h, p, items[0]).value + Joined(h, p, items[1..])
  }

  function Total(items: seq<Item>): nat {
    if items == [] then 0 else items[0].datalen + Total(items[1..])
  }

  /** A group is read exactly if each member can be and all of them fit, and then as the members one
      after the other. */
  lemma {:induction false} GroupIsItsMembers(h: Handlers, p: Params, items: seq<Item>, maxlen: nat)
    requires ItemsOk(items, |p.mem|) && |p.stopbits| == PORTS && FixedLength(h, p, items)
    ensures ReadMembers(h, p, items, maxlen).Some? <==> AllReadable(h, p, items) && Total(items) <= maxlen
    ensures ReadMembers(h, p, items, maxlen).Some? ==>
              ReadMembers(h, p, items, maxlen).value == Joined(h, p, items) && |Joined(h, p, items)| == Total(items)
    decreases |items|
  {
    if items != [] {
      assert Readable(h, p, items[0]) || !AllReadable(h, p, items);
      if Readable(h, p, items[0]) && items[0].datalen <= maxlen {
        GroupIsItsMembers(h, p, items[1..], maxlen - items[0].datalen);
        assert AllReadable(h, p, items[1..]) <==> AllReadable(h, p, items) by {
          assert forall i :: 1 <= i < |items| ==> items[i] == items[1..][i - 1];
        }
      }
    }
  }

  // ----- Writing a group and reading it back -----

  /** An item that is copied, or a stop-bit item of a port that exists, for reading and writing. */
  predicate Stored(it: Item) {
    it.readable && it.writable && (it.kind.Copy? || (it.kind.StopBit? && 0 <= StopPort(it.id) < PORTS))
  }

  /** Items that do not share memory. */
  predicate Apart(a: Item, b: Item) {
    && (a.kind.Copy? && b.kind.Copy? ==>
          a.kind.place + a.datalen <= b.kind.place || b.kind.place + b.datalen <= a.kind.place)
    && (a.kind.StopBit? && b.kind.StopBit? ==> StopPort(a.id) != StopPort(b.id))
  }

  predicate AllStored(items: seq<Item>, level: byte) {
    && (forall i :: 0 <= i < |items| ==> Stored(items[i]) && (items[i].highlevel ==> level == HIGHLEVEL))
    && (forall i, j :: 0 <= i < j < |items| ==> Apart(items[i], items[j]))
  }

  /** What reading gives after writing: copies as they are, and stop bits as 0, 1 or 2. */
  function Normal(it: Item, bytes: seq<byte>): seq<byte> {
    if it.kind.StopBit? && bytes != [] then [if bytes[0] > 2 then 2 else bytes[0]] else bytes
  }

  function Normalised(items: seq<Item>, buf: seq<byte>): seq<byte>
    requires Total(items) <= |buf|
  {
    if items == [] then []
    else
      var n := items[0].datalen;
      Normal(items[0], buf[..n]) + Normalised(items[1..], buf[n..])
  }

  /** Writing one item: it succeeds, reads back, and leaves every item apart from it alone. */
  lemma WriteThenRead(h: Handlers, p: Params, it: Item, buf: seq<byte>, maxlen: nat, level: byte)
    requires ItemOk(it, |p.mem|) && |p.stopbits| == PORTS && it.datalen <= maxlen <= |buf|
    requires Stored(it) && (it.highlevel ==> level == HIGHLEVEL)
    ensures var (p', rtn) := WritePlain(h, p, it, buf, maxlen, level);
            && rtn == OK && Sized(p', |p.mem|) && Encoding(h, p', it) == Some(Normal(it, buf[..it.datalen]))
  {
    var (p', rtn) := WritePlain(h, p, it, buf, maxlen, level);
  }

  lemma WriteElsewhere(h: Handlers, p: Params, it: Item, buf: seq<byte>, maxlen: nat, level: byte, other: Item)
    requires ItemOk(it, |p.mem|) && |p.stopbits| == PORTS && it.datalen <= maxlen <= |buf| && ItemOk(other, |p.mem|)
    requires Stored(it) && (it.highlevel ==> level == HIGHLEVEL) && Stored(other) && Apart(other, it)
    ensures Encoding(h, WritePlain(h, p, it, buf, maxlen, level).0, other) == Encoding(h, p, other)
  {
    if it.kind.Copy? && other.kind.Copy? {
      var o, n := other.kind.place, other.datalen;
      var mem := Patch(p.mem, it.kind.place, buf[..it.datalen]);
      assert mem[o..o + n] == p.mem[o..o + n];
    }
  }

  lemma {:induction false} MembersElsewhere(h: Handlers, p: Params, items: seq<Item>, buf: seq<byte>, maxlen: nat, level: byte, other: Item)
    requires ItemsOk(items, |p.mem|) && |p.stopbits| == PORTS && Total(items) <= maxlen <= |buf| && HandlersOk(h, |p.mem|)
    requires AllStored(items, level) && ItemOk(other, |p.mem|) && Stored(other)
    requires forall i :: 0 <= i < |items| ==> Apart(other, items[i])
    ensures var (p', rtn) := WriteMembers(h, p, items, buf, maxlen, level);
            rtn == OK && Sized(p', |p.mem|) && Encoding(h, p', other) == Encoding(h, p, other)
    decreases |items|
  {
    hide Encoding, WritePlain, Apart, Stored, ItemOk;
    if items != [] {
      var it := items[0];
      WriteThenRead(h, p, it, buf, maxlen, level);
      WriteElsewhere(h, p, it, buf, maxlen, level, other);
      MembersElsewhere(h, WritePlain(h, p, it, buf, maxlen, level).0, items[1..], buf[it.datalen..],
                       maxlen - it.datalen, level, other);
    }
  }

  /** A group of stored items, written and read back: the same bytes, stop bits made 0, 1 or 2. */
  lemma {:induction false} GroupRoundTrip(h: Handlers, p: Params, items: seq<Item>, buf: seq<byte>, maxlen: nat, level: byte)
    requires ItemsOk(items, |p.mem|) && |p.stopbits| == PORTS && Total(items) <= maxlen <= |buf| && HandlersOk(h, |p.mem|)
    requires AllStored(items, level)
    ensures var (p', rtn) := WriteMembers(h, p, items, buf, maxlen, level);
            && rtn == OK && Sized(p', |p.mem|)
            && ReadMembers(h, p', items, maxlen) == Some(Normalised(items, buf))
    decreases |items|
  {
    hide ReadMembers, WriteMembers, ReadPlain, WritePlain, Encoding, Normal, Normalised, Total;
    hide AllStored, ItemsOk, ItemOk, Apart, Stored, HandlersOk;
    if items == [] {
      NoMembers(h, p, buf, maxlen, level);
    } else {
      FirstStored(h, p, items, buf, maxlen, level);
      var it, n, rest := items[0], items[0].datalen, items[1..];
      var p1 := WritePlain(h, p, it, buf, maxlen, level).0;
      GroupRoundTrip(h, p1, rest, buf[n..], maxlen - n, level);
      MembersElsewhere(h, p1, rest, buf[n..], maxlen - n, level, it);
      var p2 := WriteMembers(h, p1, rest, buf[n..], maxlen - n, level).0;
      WriteFirst(h, p, items, buf, maxlen, level);
      ReadsEncoding(h, p2, it, maxlen, Normal(it, buf[..n]));
      ReadFirst(h, p2, items, maxlen);
      NormalisedFirst(items, buf);
    }
  }

  lemma NoMembers(h: Handlers, p: Params, buf: seq<byte>, maxlen: nat, level: byte)
    requires |p.stopbits| == PORTS && maxlen <= |buf| && HandlersOk(h, |p.mem|)
    ensures WriteMembers(h, p, [], buf, maxlen, level) == (p, OK) && Sized(p, |p.mem|)
    ensures ReadMembers(h, p, [], maxlen) == Some([]) && Total([]) == 0 && Normalised([], buf) == []
  {
  }

  /** All that is needed of the first of some stored items. */
  lemma FirstStored(h: Handlers, p: Params, items: seq<Item>, buf: seq<byte>, maxlen: nat, level: byte)
    requires ItemsOk(items, |p.mem|) && |p.stopbits| == PORTS && Total(items) <= maxlen <= |buf| && HandlersOk(h, |p.mem|)
    requires AllStored(items, level) && items != []
    ensures var it, n := items[0], items[0].datalen;
            && ItemOk(it, |p.mem|) && Stored(it) && it.readable && n <= maxlen && |Normal(it, buf[..n])| == n
            && AllStored(items[1..], level) && ItemsOk(items[1..], |p.mem|) && Total(items[1..]) <= maxlen - n
            && (forall i :: 0 <= i < |items[1..]| ==> Apart(it, items[1..][i]))
            && var (p1, rtn) := WritePlain(h, p, it, buf, maxlen, level);
               && rtn == OK && Sized(p1, |p.mem|) && |p1.mem| == |p.mem| && |p1.stopbits| == PORTS
               && Encoding(h, p1, it) == Some(Normal(it, buf[..n]))
  {
    WriteThenRead(h, p, items[0], buf, maxlen, level);
    NormalLength(items[0], buf[..items[0].datalen]);
    hide Apart, Encoding, WritePlain, Normal;
  }

  lemma ReadsEncoding(h: Handlers, p: Params, it: Item, maxlen: nat, bytes: seq<byte>)
    requires ItemOk(it, |p.mem|) && |p.stopbits| == PORTS
    ensures it.readable && Encoding(h, p, it) == Some(bytes) && |bytes| == it.datalen <= maxlen ==>
              ReadPlain(h, p, it, maxlen) == (OK, bytes)
  {
    hide Encoding;
  }

  lemma NormalisedFirst(items: seq<Item>, buf: seq<byte>)
    requires items != [] && Total(items) <= |buf|
    ensures var n := items[0].datalen;
            n <= |buf| && Total(items[1..]) <= |buf| - n
            && Normalised(items, buf) == Normal(items[0], buf[..n]) + Normalised(items[1..], buf[n..])
  {
  }

  lemma ReadFirst(h: Handlers, p: Params, items: seq<Item>, maxlen: nat)
    requires ItemsOk(items, |p.mem|) && |p.stopbits| == PORTS && items != []
    ensures ItemOk(items[0], |p.mem|)
    ensures var (rtn, bytes) := ReadPlain(h, p, items[0], maxlen);
            rtn == OK && |bytes| <= maxlen && ReadMembers(h, p, items[1..], maxlen - |bytes|).Some? ==>
              ReadMembers(h, p, items, maxlen) == Some(bytes + ReadMembers(h, p, items[1..], maxlen - |bytes|).value)
  {
  }

  lemma WriteFirst(h: Handlers, p: Params, items: seq<Item>, buf: seq<byte>, maxlen: nat, level: byte)
    requires ItemsOk(items, |p.mem|) && |p.stopbits| == PORTS && maxlen <= |buf| && HandlersOk(h, |p.mem|) && items != []
    requires items[0].datalen <= maxlen && WritePlain(h, p, items[0], buf, maxlen, level).1 == OK
    ensures var p1, n := WritePlain(h, p, items[0], buf, maxlen, level).0, items[0].datalen;
            && Sized(p1, |p.mem|)
            && WriteMembers(h, p, items, buf, maxlen, level) == WriteMembers(h, p1, items[1..], buf[n..], maxlen - n, level)
  {
    WriteKeepsSize(h, p, items[0], buf, maxlen, level);
    hide WritePlain;
  }

  lemma NormalLength(it: Item, bytes: seq<byte>)
    requires it.kind.StopBit? ==> |bytes| == 1
    ensures |Normal(it, bytes)| == |bytes|
  {
  }

  // ----- The port groups -----

  /** The members of a port's group: baud rate, parity, data bits, stop bits and function. */
  function PortItems(base: word, place: nat): seq<Item>
    requires base + 4 < 0x1_0000
  {
    [Item(base, true, true, false, false, Copy(place), 1),
     Item(base + 1, true, true, false, false, Copy(place + 1), 1),
     Item(base + 2, true, true, false, false, Copy(place + 2), 1),
     Item(base + 3, true, true, false, false, StopBit, 1),
     Item(base + 4, true, true, false, false, Copy(place + 3), 1)]
  }

  /** The groups of ports 0 to 3 keep what is written to them. */
  lemma PortGroupRoundTrip(h: Handlers, p: Params, base: word, place: nat, buf: seq<byte>)
    requires base in [0x8700, 0x8710, 0x8720, 0x8730] && place + 4 <= |p.mem| && |p.stopbits| == PORTS
    requires |buf| == 5 && HandlersOk(h, |p.mem|)
    ensures var items := PortItems(base, place);
            ItemsOk(items, |p.mem|) &&
            var (p', rtn) := WriteMembers(h, p, items, buf, 5, 0);
            && rtn == OK && Sized(p', |p.mem|)
            && ReadMembers(h, p', items, 5) == Some(buf[3 := if buf[3] > 2 then 2 else buf[3]])
  {
    var items := PortItems(base, place);
    assert StopPort(base + 3) in [0, 1, 2];
    PortTotal(base, place);
    PortNormal(base, place, buf);
    GroupRoundTrip(h, p, items, buf, 5, 0);
  }

  lemma PortTotal(base: word, place: nat)
    requires base + 4 < 0x1_0000
    ensures Total(PortItems(base, place)) == 5
  {
    var items := PortItems(base, place);
    assert Total(items[5..]) == 0;
    assert items[4..][1..] == items[5..] && items[3..][1..] == items[4..];
    assert items[2..][1..] == items[3..] && items[1..][1..] == items[2..];
    assert Total(items[4..]) == 1 && Total(items[3..]) == 2 && Total(items[2..]) == 3 && Total(items[1..]) == 4;
  }

  lemma PortNormal(base: word, place: nat, buf: seq<byte>)
    requires base + 4 < 0x1_0000 && |buf| == 5 && Total(PortItems(base, place)) == 5
    ensures Normalised(PortItems(base, place), buf) == buf[3 := if buf[3] > 2 then 2 else buf[3]]
  {
    var items := PortItems(base, place);
    TotalOfRest(items);
    var rest1, rest2, rest3, rest4 := items[1..], items[2..], items[3..], items[4..];
    assert rest1[1..] == rest2 && rest2[1..] == rest3 && rest3[1..] == rest4 && rest4[1..] == [];
    var buf1, buf2, buf3, buf4 := buf[1..], buf[2..], buf[3..], buf[4..];
    assert buf1[1..] == buf2 && buf2[1..] == buf3 && buf3[1..] == buf4 && buf4[1..] == [];
    TotalOfRest(rest1);
    TotalOfRest(rest2);
    TotalOfRest(rest3);
    assert Normalised(rest4, buf4) == [buf[4]];
    assert Normalised(rest3, buf3) == Normal(items[3], [buf[3]]) + Normalised(rest4, buf4);
    assert Normalised(rest2, buf2) == [buf[2]] + Normalised(rest3, buf3);
    assert Normalised(rest1, buf1) == [buf[1]] + Normalised(rest2, buf2);
    assert Normalised(items, buf) == [buf[0]] + Normalised(rest1, buf1);
  }

  lemma TotalOfRest(items: seq<Item>)
    requires items != []
    ensures Total(items) == items[0].datalen + Total(items[1..])
  {
  }

  /** Ports 0 and 1 share their stop bits: writing the one's item changes what the other's reads as. */
  lemma StopBitsOfPort1AreThoseOfPort0(h: Handlers, p: Params, b: byte)
    requires |p.stopbits| == PORTS
    ensures var item0, item1 := PortItems(0x8700, 0)[3], PortItems(0x8710, 4)[3];
            Encoding(h, WritePlain(h, p, item1, [b], 1, 0).0, item0) == Some(Normal(item0, [b]))
  {
    assert StopPort(0x8703) == 0 && StopPort(0x8713) == 0;
  }

  /** The last port group asks for the stop bits of a port that does not exist: it can never be read. */
  lemma LastPortGroupIsUnreadable(h: Handlers, p: Params, place: nat, maxlen: nat)
    requires place + 4 <= |p.mem| && |p.stopbits| == PORTS
    ensures var items := PortItems(0x8780, place);
            ItemsOk(items, |p.mem|) && ReadMembers(h, p, items, maxlen) == None
  {
    var items := PortItems(0x8780, place);
    assert StopPort(0x8783) == 7;
    assert !Readable(h, p, items[3]);
    GroupIsItsMembers(h, p, items, maxlen);
  }
}
