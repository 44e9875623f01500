/** Reading and writing items by id: the tables are searched, and an id for a whole group makes the
    routine call itself for each member, on a saved copy of the operation. */
module ItemStore {
  import opened Bytes
  import opened ItemGroups
  import opened Wrappers

  // ----- Looking up -----

  function GroupId(id: word): word {
    id - id % 16
  }

  /** The first group with this id, or the number of groups. */
  function FindGroup(t: seq<Group>, id: word): (r: nat)
    ensures r <= |t| && (r < |t| ==> t[r].id == id)
  {
    if t == [] || t[0].id == id then 0 else 1 + FindGroup(t[1..], id)
  }

  /** The first item with this id, or the number of items. */
  function FindItem(items: seq<Item>, id: word): (r: nat)
    ensures r <= |items| && (r < |items| ==> items[r].id == id)
    ensures forall i :: 0 <= i < r ==> items[i].id != id
  {
    if items == [] || items[0].id == id then 0 else 1 + FindItem(items[1..], id)
  }

  /** In a group's list: ids of that group, and before an item for the whole group only plain items
      with ids of their own. */
  predicate ListOk(g: Group, size: nat) {
    && ItemsOk(g.items, size)
    && (forall i :: 0 <= i < |g.items| ==> GroupId(g.items[i].id) == g.id)
    && (forall i, j, k :: 0 <= i < j <= k < |g.items| && g.items[k].group ==> g.items[i].id != g.items[j].id && !g.items[i].group)
  }

  predicate TableOk(t: seq<Group>, size: nat) {
    forall i :: 0 <= i < |t| ==> ListOk(t[i], size)
  }

  /** The item an id names, if any, with its group. */
  function Lookup(t: seq<Group>, id: word): Option<(Group, nat)> {
    var g := FindGroup(t, GroupId(id));
    if g == |t| then None
    else
      var i := FindItem(t[g].items, id);
      if i == |t[g].items| then None else Some((t[g], i))
  }

  /** A member is found where the list has it. */
  lemma MemberIsFound(t: seq<Group>, id: word, k: nat, size: nat)
    requires TableOk(t, size) && Lookup(t, id).Some?
    requires var (g, i) := Lookup(t, id).value;
             g.items[i].group && k < i
    ensures var (g, i) := Lookup(t, id).value;
            Lookup(t, g.items[k].id) == Some((g, k)) && !g.items[k].group
  {
    var (g, i) := Lookup(t, id).value;
    assert ListOk(g, size);
    var m := FindItem(g.items, g.items[k].id);
    assert m <= k;
  }

  // ----- What reading and writing do -----

  function Read(t: seq<Group>, h: Handlers, p: Params, mid: word, id: word, maxlen: nat): (int, seq<byte>)
    requires TableOk(t, |p.mem|) && |p.stopbits| == PORTS
  {
    match Lookup(t, id)
    case None => (INVALID, [])
    case Some((g, i)) =>
      assert ListOk(g, |p.mem|);
      var it := g.items[i];
      if mid != 0 then (INVALID, [])
      else if !it.group then ReadPlain(h, p, it, maxlen)
      else if it.datalen > maxlen then (INVALID, [])
      else if !it.readable then (OPFAIL, [])
      else
        match ReadMembers(h, p, g.items[..i], maxlen)
        case None => (INVALID, [])
        case Some(bytes) => (OK, bytes)
  }

  ghost function Write(t: seq<Group>, h: Handlers, p: Params, mid: word, level: byte, id: word, buf: seq<byte>, maxlen: nat): (Params, int)
    requires TableOk(t, |p.mem|) && |p.stopbits| == PORTS && maxlen <= |buf| && HandlersOk(h, |p.mem|)
  {
    match Lookup(t, id)
    case None => (p, INVALID)
    case Some((g, i)) =>
      assert ListOk(g, |p.mem|);
      var it := g.items[i];
      if mid != 0 && !(g.kind == Special && mid == 0xFFFF) then (p, INVALID)
      else if !it.group then WritePlain(h, p, it, buf, maxlen, level)
      else if it.datalen > maxlen then (p, INVALID)
      else if !it.writable then (p, OPFAIL)
      else if it.highlevel && level != HIGHLEVEL then (p, PWDERR)
      else WriteMembers(h, p, g.items[..i], buf, maxlen, level)
  }

  /** Only the terminal itself, number 0, is read; it is written, and groups for special use are also
      written with number 0xFFFF. */
  lemma OtherNumbersFail(t: seq<Group>, h: Handlers, p: Params, mid: word, level: byte, id: word, buf: seq<byte>, maxlen: nat)
    requires TableOk(t, |p.mem|) && |p.stopbits| == PORTS && maxlen <= |buf| && HandlersOk(h, |p.mem|)
    ensures mid != 0 ==> Read(t, h, p, mid, id, maxlen) == (INVALID, [])
    ensures mid != 0 ==> (Write(t, h, p, mid, level, id, buf, maxlen) ==
              if mid == 0xFFFF && Lookup(t, id).Some? && Lookup(t, id).value.0.kind.Special?
              then Write(t, h, p, 0, level, id, buf, maxlen) else (p, INVALID))
  {
  }

  /** Nothing that may be written with this level shares memory with the item. */
  ghost predicate Guarded(t: seq<Group>, h: Handlers, size: nat, level: byte, x: Item)
    requires ItemOk(x, size)
  {
    && (x.kind.Copy? || x.kind.StopBit?)
    && (forall g, i :: 0 <= g < |t| && 0 <= i < |t[g].items| ==> Refused(t[g].items[i], level) || Apart(x, t[g].items[i]))
    && HandlersSpare(h, size, x)
  }

  /** Whatever is written with a level that is too low for it, an item keeps its value: by its own id,
      through its group, or by another item. */
  lemma GuardedIsKept(t: seq<Group>, h: Handlers, p: Params, mid: word, level: byte, id: word, buf: seq<byte>, maxlen: nat, x: Item)
    requires TableOk(t, |p.mem|) && |p.stopbits| == PORTS && maxlen <= |buf| && HandlersOk(h, |p.mem|)
    requires ItemOk(x, |p.mem|) && Guarded(t, h, |p.mem|, level, x)
    ensures var p' := Write(t, h, p, mid, level, id, buf, maxlen).0;
            Sized(p', |p.mem|) && Encoding(h, p', x) == Encoding(h, p, x)
  {
    hide WritePlain, WriteMembers, Encoding, Refused, Apart, HandlersSpare;
    assert Sized(p, |p.mem|);
    var found := Lookup(t, id);
    if found.Some? {
      var (g, i) := found.value;
      assert ListOk(g, |p.mem|);
      forall k | 0 <= k < |g.items|
        ensures Refused(g.items[k], level) || Apart(x, g.items[k])
      {
        assert g == t[FindGroup(t, GroupId(id))];
      }
      WritePlainKeeps(h, p, g.items[i], buf, maxlen, level, x);
      MembersKeep(h, p, g.items[..i], buf, maxlen, level, x);
    }
  }

  /** With the first `k` members read as `done`, the group is read as the rest is. */
  predicate Joins(h: Handlers, p: Params, items: seq<Item>, maxlen: nat, k: nat, done: seq<byte>)
    requires ItemsOk(items, |p.mem|) && |p.stopbits| == PORTS && k <= |items| && |done| <= maxlen
  {
    ReadMembers(h, p, items, maxlen) ==
    match ReadMembers(h, p, items[k..], maxlen - |done|)
    case None => None
    case Some(rest) => Some(done + rest)
  }

  lemma JoinStart(h: Handlers, p: Params, items: seq<Item>, maxlen: nat)
    requires ItemsOk(items, |p.mem|) && |p.stopbits| == PORTS
    ensures Joins(h, p, items, maxlen, 0, [])
  {
    assert items[0..] == items;
    var r := ReadMembers(h, p, items, maxlen);
    assert r.Some? ==> [] + r.value == r.value;
    hide ReadMembers;
  }

  lemma JoinNext(h: Handlers, p: Params, items: seq<Item>, maxlen: nat, k: nat, done: seq<byte>)
    requires ItemsOk(items, |p.mem|) && |p.stopbits| == PORTS && k < |items| && |done| <= maxlen
    requires Joins(h, p, items, maxlen, k, done)
    ensures ItemOk(items[k], |p.mem|)
    ensures var (r, bytes) := ReadPlain(h, p, items[k], maxlen - |done|);
            if r == OK then |bytes| <= maxlen - |done| && Joins(h, p, items, maxlen, k + 1, done + bytes)
            else ReadMembers(h, p, items, maxlen) == None
  {
    var rest := items[k..];
    assert rest[0] == items[k] && rest[1..] == items[k + 1..];
    var (r, bytes) := ReadPlain(h, p, items[k], maxlen - |done|);
    assert ReadMembers(h, p, rest, maxlen - |done|) ==
           if r != OK then None
           else match ReadMembers(h, p, items[k + 1..], maxlen - |done| - |bytes|)
                case None => None
                case Some(tail) => Some(bytes + tail);
    if r == OK {
      var tail := ReadMembers(h, p, items[k + 1..], maxlen - |done| - |bytes|);
      if tail.Some? {
        assert done + (bytes + tail.value) == done + bytes + tail.value;
      }
    }
    hide ReadMembers, ReadPlain;
  }

  lemma JoinEnd(h: Handlers, p: Params, items: seq<Item>, maxlen: nat, done: seq<byte>)
    requires ItemsOk(items, |p.mem|) && |p.stopbits| == PORTS && |done| <= maxlen
    requires Joins(h, p, items, maxlen, |items|, done)
    ensures ReadMembers(h, p, items, maxlen) == Some(done)
  {
    assert items[|items|..] == [] && done + [] == done;
  }

  /** With the first `k` members written, and `fail` to report of them, the group is written as the
      rest is. */
  ghost predicate WriteJoins(h: Handlers, p0: Params, items: seq<Item>, buf: seq<byte>, maxlen: nat, level: byte,
                             k: nat, p: Params, n: nat, fail: int)
  {
    && ItemsOk(items, |p0.mem|) && |p0.stopbits| == PORTS && maxlen <= |buf| && HandlersOk(h, |p0.mem|)
    && k <= |items| && Sized(p, |p0.mem|) && n <= maxlen
    && var (p', rest) := WriteMembers(h, p, items[k..], buf[n..], maxlen - n, level);
       WriteMembers(h, p0, items, buf, maxlen, level) == (p', if rest != OK then rest else fail)
  }

  lemma WriteJoinStart(h: Handlers, p0: Params, items: seq<Item>, buf: seq<byte>, maxlen: nat, level: byte)
    requires ItemsOk(items, |p0.mem|) && |p0.stopbits| == PORTS && maxlen <= |buf| && HandlersOk(h, |p0.mem|)
    ensures Sized(p0, |p0.mem|) && WriteJoins(h, p0, items, buf, maxlen, level, 0, p0, 0, OK)
  {
    assert items[0..] == items && buf[0..] == buf;
    hide WriteMembers;
  }

  lemma WriteJoinNext(h: Handlers, p0: Params, items: seq<Item>, buf: seq<byte>, maxlen: nat, level: byte,
                      k: nat, p: Params, n: nat, fail: int)
    requires k < |items| && WriteJoins(h, p0, items, buf, maxlen, level, k, p, n, fail)
    ensures ItemOk(items[k], |p.mem|) && |p.stopbits| == PORTS && n <= maxlen <= |buf|
    ensures ItemsOk(items, |p0.mem|) && |p0.stopbits| == PORTS && HandlersOk(h, |p0.mem|)
    ensures var (p', rtn) := WritePlain(h, p, items[k], buf[n..], maxlen - n, level);
            && Sized(p', |p0.mem|)
            && if rtn == INVALID then WriteMembers(h, p0, items, buf, maxlen, level) == (p', INVALID)
               else
                 && n + items[k].datalen <= maxlen
                 && WriteJoins(h, p0, items, buf, maxlen, level, k + 1, p', n + items[k].datalen, if rtn != OK then rtn else fail)
  {
    var rest := items[k..];
    assert rest[0] == items[k] && rest[1..] == items[k + 1..];
    WriteKeepsSize(h, p, items[k], buf[n..], maxlen - n, level);
    var (p', rtn) := WritePlain(h, p, items[k], buf[n..], maxlen - n, level);
    if rtn != INVALID {
      assert items[k].datalen <= maxlen - n;
      assert buf[n..][items[k].datalen..] == buf[n + items[k].datalen..];
    }
    hide WritePlain, Sized, ItemOk;
  }

  lemma WriteJoinEnd(h: Handlers, p0: Params, items: seq<Item>, buf: seq<byte>, maxlen: nat, level: byte,
                     p: Params, n: nat, fail: int)
    requires WriteJoins(h, p0, items, buf, maxlen, level, |items|, p, n, fail)
    ensures ItemsOk(items, |p0.mem|) && |p0.stopbits| == PORTS && maxlen <= |buf| && HandlersOk(h, |p0.mem|)
    ensures WriteMembers(h, p0, items, buf, maxlen, level) == (p, fail)
  {
    assert items[|items|..] == [];
  }

  // ----- The program -----

  /** An operation: the item, where its bytes come from or go to, and how many there were. */
  class Op {
    var id: word
    var maxlen: word
    var buf: array<byte>
    var pos: nat
    var actlen: nat
    var mid: word
    var level: byte

    constructor (id: word, maxlen: word, buf: array<byte>, mid: word, level: byte)
      ensures this.id == id && this.maxlen == maxlen && this.buf == buf && pos == 0 && this.mid == mid && this.level == level
    {
      this.id, this.maxlen, this.buf, this.pos, this.actlen, this.mid, this.level := id, maxlen, buf, 0, 0, mid, level;
    }

    ghost predicate Valid()
      reads this
    {
      pos + maxlen <= buf.Length
    }

    /** `*this = *op`. */
    method CopyFrom(op: Op)
      modifies this
      ensures id == old(op.id) && maxlen == old(op.maxlen) && buf == old(op.buf) && pos == old(op.pos)
      ensures actlen == old(op.actlen) && mid == old(op.mid) && level == old(op.level)
    {
      id, maxlen, buf, pos, actlen, mid, level := op.id, op.maxlen, op.buf, op.pos, op.actlen, op.mid, op.level;
    }
  }

  class Store {
    const tables: seq<Group>
    const handlers: Handlers
    /** The one copy that group operations work on. */
    const bak: Op
    var params: Params

    ghost predicate Ok()
      reads this
    {
      TableOk(tables, |params.mem|) && |params.stopbits| == PORTS && HandlersOk(handlers, |params.mem|)
    }

    constructor (tables: seq<Group>, handlers: Handlers, params: Params, bak: Op)
      ensures this.tables == tables && this.handlers == handlers && this.params == params && this.bak == bak
    {
      this.tables, this.handlers, this.params, this.bak := tables, handlers, params, bak;
    }

    /** An id that stands for a whole group. */
    predicate IsGroupId(id: word)
    {
      match Lookup(tables, id)
      case None => false
      case Some((g, i)) => g.items[i].group
    }

    /** Bytes into the operation's buffer. */
    method Emit(op: Op, bytes: seq<byte>)
      requires op.Valid() && |bytes| <= op.maxlen
      modifies op.buf
      ensures op.buf[op.pos..op.pos + |bytes|] == bytes
      ensures forall k :: 0 <= k < op.buf.Length && !(op.pos <= k < op.pos + |bytes|) ==> op.buf[k] == old(op.buf[k])
    {
      forall k | 0 <= k < |bytes| {
        op.buf[op.pos + k] := bytes[k];
      }
    }

    /** The last part of `read_item`, for an item of its own. */
    method ReadPlainItem(op: Op, it: Item) returns (rtn: int)
      requires Ok() && op.Valid() && ItemOk(it, |params.mem|)
      modifies op`actlen, op.buf
      ensures var (r, bytes) := ReadPlain(handlers, params, it, op.maxlen);
              rtn == r && (r == OK ==> op.actlen == |bytes| && op.Valid() && |bytes| <= op.maxlen
                                       && op.buf[op.pos..op.pos + |bytes|] == bytes)
      ensures forall k :: 0 <= k < op.buf.Length && !(op.pos <= k < op.pos + op.maxlen) ==> op.buf[k] == old(op.buf[k])
    {
      if it.datalen > op.maxlen {
        return INVALID;
      }
      if !it.readable {
        return OPFAIL;
      }
      op.actlen := it.datalen;
      var bytes := Encoding(handlers, params, it);
      if bytes == None {
        return INVALID;
      }
      op.actlen := |bytes.value|;
      if op.maxlen < op.actlen {
        return INVALID;
      }
      Emit(op, bytes.value);
      return OK;
    }

    method ReadItem(op: Op) returns (rtn: int)
      requires Ok() && op.Valid() && (IsGroupId(op.id) ==> op != bak)
      modifies op`actlen, bak, op.buf
      ensures op.id == old(op.id) && op.maxlen == old(op.maxlen) && op.buf == old(op.buf) && op.pos == old(op.pos)
              && op.mid == old(op.mid) && op.level == old(op.level)
      ensures var (r, bytes) := Read(tables, handlers, params, op.mid, op.id, op.maxlen);
              rtn == r && (r == OK ==> op.actlen == |bytes| <= op.maxlen && op.buf[op.pos..op.pos + |bytes|] == bytes)
      ensures IsGroupId(op.id) && rtn == INVALID ==> op.actlen == 0
      ensures forall k :: 0 <= k < op.buf.Length && !(op.pos <= k < op.pos + op.maxlen) ==> op.buf[k] == old(op.buf[k])
      decreases if IsGroupId(op.id) then 1 else 0, 0
    {
      op.actlen := 0;
      var found := Lookup(tables, op.id);
      if found == None {
        return INVALID;
      }
      var (g, i) := found.value;
      assert ListOk(g, |params.mem|);
      if op.mid != 0 {
        return INVALID;
      }
      var it := g.items[i];
      if !it.group {
        rtn := ReadPlainItem(op, it);
        return;
      }
      if it.datalen > op.maxlen {
        return INVALID;
      }
      if !it.readable {
        return OPFAIL;
      }
      rtn := ReadGroup(op, g, i);
    }

    /** What a group operation has read so far, and the saved operation standing behind it. */
    ghost predicate Holds(op: Op, done: seq<byte>)
      reads op, op.buf, bak
    {
      Follows(op) && op.Valid() && op.actlen == |done| && op.buf[op.pos..op.pos + |done|] == done
    }

    /** One member: read behind the others, and the saved operation moved on. */
    method ReadMember(op: Op, g: Group, i: nat, k: nat, ghost done: seq<byte>) returns (rtn: int, ghost bytes: seq<byte>)
      requires Ok() && op != bak && op.mid == 0 && k < i && |done| <= op.maxlen && Holds(op, done)
      requires Lookup(tables, op.id) == Some((g, i)) && i < |g.items| && g.items[i].group && ListOk(g, |params.mem|)
      modifies op`actlen, bak, op.buf
      ensures ItemOk(g.items[k], |params.mem|)
      ensures var (r, b) := ReadPlain(handlers, params, g.items[k], op.maxlen - |done|);
              && rtn == r && (r == OK ==> bytes == b && |b| <= op.maxlen - |done|)
      ensures rtn == OK ==> Holds(op, done + bytes)
      ensures forall j :: 0 <= j < op.buf.Length && !(op.pos <= j < op.pos + op.maxlen) ==> op.buf[j] == old(op.buf[j])
      decreases 0, 2
    {
      hide ReadPlain, ListOk, TableOk, Lookup;
      rtn, bytes := CallMember(op.id, g, i, k);
      if rtn == OK {
        op.actlen := op.actlen + bak.actlen;
        bak.pos := bak.pos + bak.actlen;
        bak.maxlen := bak.maxlen - bak.actlen;
        assert op.buf[op.pos..bak.pos] == done + bytes;
      }
    }

    /** The saved operation, carried out for a member. */
    method CallMember(ghost id: word, g: Group, ghost i: nat, k: nat) returns (rtn: int, ghost bytes: seq<byte>)
      requires Ok() && bak.Valid() && bak.mid == 0 && k < i
      requires Lookup(tables, id) == Some((g, i)) && i < |g.items| && g.items[i].group && ListOk(g, |params.mem|)
      modifies bak, bak.buf
      ensures ItemOk(g.items[k], |params.mem|)
      ensures bak.maxlen == old(bak.maxlen) && bak.buf == old(bak.buf) && bak.pos == old(bak.pos) && bak.mid == 0
              && bak.level == old(bak.level)
      ensures var (r, b) := ReadPlain(handlers, params, g.items[k], bak.maxlen);
              && rtn == r
              && (r == OK ==> bytes == b && bak.actlen == |b| <= bak.maxlen && bak.buf[bak.pos..bak.pos + |b|] == b)
      ensures forall j :: 0 <= j < bak.buf.Length && !(bak.pos <= j < bak.pos + bak.maxlen) ==> bak.buf[j] == old(bak.buf[j])
      decreases 0, 1
    {
      MemberIsFound(tables, id, k, |params.mem|);
      bytes := ReadPlain(handlers, params, g.items[k], bak.maxlen).1;
      hide ReadPlain, ListOk, TableOk;
      bak.id := g.items[k].id;
      bak.actlen := 0;
      rtn := ReadItem(bak);
    }

    /** The loop body of `read_item`. */
    method ReadNext(op: Op, g: Group, i: nat, k: nat, ghost done: seq<byte>) returns (rtn: int, ghost done': seq<byte>)
      requires Ok() && op != bak && op.mid == 0 && k < i && |done| <= op.maxlen && Holds(op, done)
      requires Lookup(tables, op.id) == Some((g, i)) && i < |g.items| && g.items[i].group && ListOk(g, |params.mem|)
      requires ItemsOk(g.items[..i], |params.mem|) && Joins(handlers, params, g.items[..i], op.maxlen, k, done)
      modifies op`actlen, bak, op.buf
      ensures rtn == OK ==> |done'| <= op.maxlen && Holds(op, done')
                            && Joins(handlers, params, g.items[..i], op.maxlen, k + 1, done')
      ensures rtn != OK ==> ReadMembers(handlers, params, g.items[..i], op.maxlen) == None
      ensures forall j :: 0 <= j < op.buf.Length && !(op.pos <= j < op.pos + op.maxlen) ==> op.buf[j] == old(op.buf[j])
      decreases 0, 3
    {
      hide ReadMembers, ReadPlain, Joins, Lookup, ListOk, TableOk, Store.Holds, ItemsOk, ItemOk, Sized;
      JoinNext(handlers, params, g.items[..i], op.maxlen, k, done);
      ghost var bytes;
      rtn, bytes := ReadMember(op, g, i, k, done);
      done' := done + bytes;
    }

    /** The member loop of `read_item`. */
    method ReadGroup(op: Op, g: Group, i: nat) returns (rtn: int)
      requires Ok() && op.Valid() && op != bak && op.mid == 0
      requires Lookup(tables, op.id) == Some((g, i)) && i < |g.items| && g.items[i].group && ListOk(g, |params.mem|)
      modifies op`actlen, bak, op.buf
      ensures var r := ReadMembers(handlers, params, g.items[..i], op.maxlen);
              match r
              case None => rtn == INVALID && op.actlen == 0
              case Some(bytes) =>
                rtn == OK && op.actlen == |bytes| <= op.maxlen && op.buf[op.pos..op.pos + |bytes|] == bytes
      ensures forall k :: 0 <= k < op.buf.Length && !(op.pos <= k < op.pos + op.maxlen) ==> op.buf[k] == old(op.buf[k])
      decreases 0, 4
    {
      bak.CopyFrom(op);
      bak.actlen := 0;
      op.actlen := 0;
      var k := 0;
      ghost var done: seq<byte> := [];
      ghost var items := g.items[..i];
      JoinStart(handlers, params, items, op.maxlen);
      assert Holds(op, done);
      hide ReadMembers, ReadPlain, Joins, Lookup, ListOk, TableOk, Store.Holds, Store.Ok, ItemsOk, ItemOk, Sized;
      while k < i
        invariant 0 <= k <= i && |done| <= op.maxlen && Holds(op, done)
        invariant Joins(handlers, params, items, op.maxlen, k, done)
        invariant forall j :: 0 <= j < op.buf.Length && !(op.pos <= j < op.pos + op.maxlen) ==> op.buf[j] == old(op.buf[j])
      {
        rtn, done := ReadNext(op, g, i, k, done);
        if rtn != OK {
          op.actlen := 0;
          return INVALID;
        }
        k := k + 1;
      }
      JoinEnd(handlers, params, items, op.maxlen, done);
      GiveBack(op, done);
      rtn := OK;
    }

    lemma GiveBack(op: Op, done: seq<byte>)
      requires Holds(op, done)
      ensures op.actlen == |done| <= op.maxlen && op.Valid() && op.buf[op.pos..op.pos + |done|] == done
    {
    }

    /** The last part of `write_item`, for an item of its own. */
    method WritePlainItem(op: Op, it: Item) returns (rtn: int)
      requires Ok() && op.Valid() && ItemOk(it, |params.mem|)
      modifies op`actlen, `params
      ensures Ok() && |params.mem| == old(|params.mem|)
      ensures (params, rtn) == WritePlain(handlers, old(params), it, op.buf[op.pos..], op.maxlen, op.level)
      ensures rtn != INVALID ==> op.actlen == it.datalen <= op.maxlen
    {
      WriteKeepsSize(handlers, params, it, op.buf[op.pos..], op.maxlen, op.level);
      if it.datalen > op.maxlen {
        return INVALID;
      }
      op.actlen := it.datalen;
      if !it.writable {
        return OPFAIL;
      }
      if it.highlevel && op.level != HIGHLEVEL {
        return PWDERR;
      }
      var bytes := op.buf[op.pos..op.pos + it.datalen];
      assert bytes == op.buf[op.pos..][..it.datalen];
      match it.kind {
        case Copy(place) =>
          params := params.(mem := Patch(params.mem, place, bytes));
          return OK;
        case Set(_) =>
          return OK;
        case StopBit =>
          rtn := WriteStopBit(it.id, bytes[0]);
        case Handler =>
          var result := handlers.write(it.id, bytes, params);
          params := result.0;
          return result.1;
        case NoHandler =>
          return INVALID;
      }
    }

    /** The handler of the ports' stop bits, writing. */
    method WriteStopBit(id: word, code: byte) returns (rtn: int)
      requires |params.stopbits| == PORTS
      modifies `params
      ensures var port := StopPort(id);
              if 0 <= port < PORTS then
                rtn == OK
                && params == old(params).(stopbits :=
                     old(params).stopbits[port := if code == 1 then 3 else if code == 0 then 1 else 2])
              else rtn == INVALID && params == old(params)
    {
      var idx: int := (id as int - 0x8700) / 16;
      if idx != 0 {
        idx := idx - 1;
      }
      if idx < 0 || idx >= PORTS {
        return INVALID;
      }
      params := params.(stopbits := params.stopbits[idx := if code == 1 then 3 else if code == 0 then 1 else 2]);
      return OK;
    }

    method WriteItem(op: Op) returns (rtn: int)
      requires Ok() && op.Valid() && (IsGroupId(op.id) ==> op != bak)
      modifies op`actlen, bak, `params
      ensures Ok() && |params.mem| == old(|params.mem|)
      ensures op.id == old(op.id) && op.maxlen == old(op.maxlen) && op.buf == old(op.buf) && op.pos == old(op.pos)
              && op.mid == old(op.mid) && op.level == old(op.level)
      ensures (params, rtn) == Write(tables, handlers, old(params), op.mid, op.level, op.id, op.buf[op.pos..], op.maxlen)
      ensures !IsGroupId(op.id) && rtn != INVALID ==>
                match Lookup(tables, op.id)
                case None => false
                case Some((g, i)) => op.actlen == g.items[i].datalen <= op.maxlen
      decreases if IsGroupId(op.id) then 1 else 0, 0
    {
      op.actlen := 0;
      var found := Lookup(tables, op.id);
      if found == None {
        return INVALID;
      }
      var (g, i) := found.value;
      assert ListOk(g, |params.mem|);
      if op.mid != 0 && !(g.kind == Special && op.mid == 0xFFFF) {
        return INVALID;
      }
      var it := g.items[i];
      if !it.group {
        rtn := WritePlainItem(op, it);
        return;
      }
      if it.datalen > op.maxlen {
        return INVALID;
      }
      op.actlen := it.datalen;
      if !it.writable {
        return OPFAIL;
      }
      if it.highlevel && op.level != HIGHLEVEL {
        return PWDERR;
      }
      rtn := WriteGroup(op, g, i);
    }

    /** The saved operation, carried out for a member. */
    method CallWrite(ghost id: word, g: Group, ghost i: nat, k: nat) returns (rtn: int)
      requires Ok() && bak.Valid() && k < i
      requires Lookup(tables, id) == Some((g, i)) && i < |g.items| && g.items[i].group && ListOk(g, |params.mem|)
      requires bak.mid == 0 || (g.kind == Special && bak.mid == 0xFFFF)
      modifies bak, `params
      ensures Ok() && |params.mem| == old(|params.mem|) && ItemOk(g.items[k], |params.mem|)
      ensures bak.maxlen == old(bak.maxlen) && bak.buf == old(bak.buf) && bak.pos == old(bak.pos)
              && bak.mid == old(bak.mid) && bak.level == old(bak.level)
      ensures (params, rtn) == WritePlain(handlers, old(params), g.items[k], bak.buf[bak.pos..], bak.maxlen, bak.level)
      ensures rtn != INVALID ==> bak.actlen == g.items[k].datalen <= bak.maxlen
      decreases 0, 1
    {
      MemberIsFound(tables, id, k, |params.mem|);
      hide WritePlain, ListOk, TableOk, HandlersOk, WriteMembers;
      bak.id := g.items[k].id;
      rtn := WriteItem(bak);
    }

    /** One member, and the saved operation moved on. */
    method WriteMember(op: Op, g: Group, ghost i: nat, k: nat) returns (rtn: int)
      requires Ok() && op.Valid() && op != bak && k < i
      requires Lookup(tables, op.id) == Some((g, i)) && i < |g.items| && g.items[i].group && ListOk(g, |params.mem|)
      requires op.mid == 0 || (g.kind == Special && op.mid == 0xFFFF)
      requires Follows(op)
      modifies op`actlen, bak, `params
      ensures Ok() && |params.mem| == old(|params.mem|) && ItemOk(g.items[k], |params.mem|)
      ensures (params, rtn) == WritePlain(handlers, old(params), g.items[k], op.buf[op.pos + old(op.actlen)..],
                                          op.maxlen - old(op.actlen), op.level)
      ensures rtn != INVALID ==> Follows(op) && op.actlen == old(op.actlen) + g.items[k].datalen <= op.maxlen
      decreases 0, 2
    {
      hide WritePlain, Lookup, ListOk, TableOk, HandlersOk, WriteMembers;
      rtn := CallWrite(op.id, g, i, k);
      if rtn != INVALID {
        op.actlen := op.actlen + bak.actlen;
        bak.pos := bak.pos + bak.actlen;
        bak.maxlen := bak.maxlen - bak.actlen;
      }
    }

    /** The saved operation stands behind what the operation has done so far. */
    ghost predicate Follows(op: Op)
      reads op, bak
    {
      && op.actlen <= op.maxlen && bak.buf == op.buf && bak.mid == op.mid && bak.level == op.level
      && bak.pos == op.pos + op.actlen && bak.maxlen == op.maxlen - op.actlen
    }

    /** The loop body of `write_item`. */
    method WriteNext(op: Op, g: Group, ghost i: nat, k: nat, ghost p0: Params, ghost fail: int) returns (rtn: int)
      requires Ok() && op.Valid() && op != bak && k < i && (op.mid == 0 || (g.kind == Special && op.mid == 0xFFFF))
      requires Lookup(tables, op.id) == Some((g, i)) && i < |g.items| && g.items[i].group && ListOk(g, |params.mem|)
      requires Follows(op) && |params.mem| == |p0.mem|
      requires WriteJoins(handlers, p0, g.items[..i], op.buf[op.pos..], op.maxlen, op.level, k, params, op.actlen, fail)
      modifies op`actlen, bak, `params
      ensures Ok() && |params.mem| == |p0.mem|
      ensures var items, buf := g.items[..i], op.buf[op.pos..];
              if rtn == INVALID then
                && ItemsOk(items, |p0.mem|) && |p0.stopbits| == PORTS && op.maxlen <= |buf| && HandlersOk(handlers, |p0.mem|)
                && WriteMembers(handlers, p0, items, buf, op.maxlen, op.level) == (params, INVALID)
              else
                && Follows(op)
                && WriteJoins(handlers, p0, items, buf, op.maxlen, op.level, k + 1, params, op.actlen, if rtn != OK then rtn else fail)
      decreases 0, 3
    {
      hide WriteMembers, WritePlain, WriteJoins, Lookup, ListOk, TableOk, HandlersOk, ItemOk, ItemsOk, Store.Follows, Sized;
      ghost var buf := op.buf[op.pos..];
      WriteJoinNext(handlers, p0, g.items[..i], buf, op.maxlen, op.level, k, params, op.actlen, fail);
      assert buf[op.actlen..] == op.buf[op.pos + op.actlen..];
      rtn := WriteMember(op, g, i, k);
    }

    /** The member loop of `write_item`. */
    method WriteGroup(op: Op, g: Group, i: nat) returns (rtn: int)
      requires Ok() && op.Valid() && op != bak && (op.mid == 0 || (g.kind == Special && op.mid == 0xFFFF))
      requires Lookup(tables, op.id) == Some((g, i)) && i < |g.items| && g.items[i].group && ListOk(g, |params.mem|)
      modifies op`actlen, bak, `params
      ensures Ok() && |params.mem| == old(|params.mem|)
      ensures (params, rtn) == WriteMembers(handlers, old(params), g.items[..i], op.buf[op.pos..], op.maxlen, op.level)
      decreases 0, 4
    {
      bak.CopyFrom(op);
      bak.actlen := 0;
      op.actlen := 0;
      var fail := OK;
      var k := 0;
      ghost var p0, items, buf := params, g.items[..i], op.buf[op.pos..];
      WriteJoinStart(handlers, p0, items, buf, op.maxlen, op.level);
      assert Follows(op);
      hide WriteMembers, WritePlain, WriteJoins, Lookup, ListOk, TableOk, HandlersOk, ItemOk, ItemsOk, Store.Follows,
        Store.Ok, Sized;
      while k < i
        invariant 0 <= k <= i && Ok() && |params.mem| == |p0.mem| && Follows(op)
        invariant WriteJoins(handlers, p0, items, buf, op.maxlen, op.level, k, params, op.actlen, fail)
      {
        rtn := WriteNext(op, g, i, k, p0, fail);
        if rtn == INVALID {
          return INVALID;
        } else if rtn != OK {
          fail := rtn;
        }
        k := k + 1;
      }
      WriteJoinEnd(handlers, p0, items, buf, op.maxlen, op.level, params, op.actlen, fail);
      return fail;
    }
  }
}
