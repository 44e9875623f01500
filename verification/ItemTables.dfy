/** The tables of the serial ports, and groups written to the store and read back from it. */
module ItemTables {
  import opened Bytes
  import opened ItemGroups
  import opened ItemStore
  import opened Wrappers

  // ----- Any table -----

  /** The id names a group of stored members that may be written and read with this level and fits
      into `maxlen` bytes. */
  predicate StoredGroup(t: seq<Group>, id: word, level: byte, maxlen: nat) {
    match Lookup(t, id)
    case None => false
    case Some((g, i)) =>
      i < |g.items|
      && var it := g.items[i];
         && it.group && it.readable && it.writable && (it.highlevel ==> level == HIGHLEVEL) && it.datalen <= maxlen
         && AllStored(g.items[..i], level) && Total(g.items[..i]) <= maxlen
  }

  /** Its members. */
  function Members(t: seq<Group>, id: word): seq<Item>
    requires Lookup(t, id).Some?
  {
    var (g, i) := Lookup(t, id).value;
    if i <= |g.items| then g.items[..i] else []
  }

  lemma LookupIsInTable(t: seq<Group>, id: word, size: nat)
    requires TableOk(t, size) && Lookup(t, id).Some?
    ensures var (g, i) := Lookup(t, id).value; i < |g.items| && ListOk(g, size)
  {
  }

  /** Writing a group by its id and reading it by its id gives the same bytes, stop bits made 0, 1 or 2. */
  lemma WriteThenReadGroup(t: seq<Group>, h: Handlers, p: Params, level: byte, id: word, buf: seq<byte>, maxlen: nat)
    requires TableOk(t, |p.mem|) && |p.stopbits| == PORTS && maxlen <= |buf| && HandlersOk(h, |p.mem|)
    requires StoredGroup(t, id, level, maxlen)
    ensures Total(Members(t, id)) <= maxlen
    ensures var (p', rtn) := Write(t, h, p, 0, level, id, buf, maxlen);
            && rtn == OK && Sized(p', |p.mem|)
            && Read(t, h, p', 0, id, maxlen) == (OK, Normalised(Members(t, id), buf))
  {
    LookupIsInTable(t, id, |p.mem|);
    var (g, i) := Lookup(t, id).value;
    hide WriteMembers, ReadMembers, Normalised, AllStored, Lookup, HandlersOk, ItemOk;
    GroupRoundTrip(h, p, g.items[..i], buf, maxlen, level);
  }

  lemma {:induction false} NormalisedLength(items: seq<Item>, buf: seq<byte>)
    requires Total(items) <= |buf| && forall i :: 0 <= i < |items| ==> (items[i].kind.StopBit? ==> items[i].datalen == 1)
    ensures |Normalised(items, buf)| == Total(items)
  {
    if items != [] {
      NormalLength(items[0], buf[..items[0].datalen]);
      NormalisedLength(items[1..], buf[items[0].datalen..]);
    }
  }

  /** `write_item` and then `read_item` on the same operation. */
  method WriteAndReadBack(st: Store, op: Op) returns (rtn: int)
    requires st.Ok() && op.Valid() && op != st.bak && op.mid == 0
    requires StoredGroup(st.tables, op.id, op.level, op.maxlen)
    modifies op`actlen, st.bak, st`params, op.buf
    ensures op.buf == old(op.buf) && op.pos == old(op.pos) && op.id == old(op.id)
    ensures var items := Members(st.tables, op.id);
            && rtn == OK && op.actlen == Total(items) <= old(op.buf.Length - op.pos)
            && op.buf[op.pos..op.pos + op.actlen] == Normalised(items, old(op.buf[op.pos..]))
  {
    ghost var t, h, p, buf, items := st.tables, st.handlers, st.params, op.buf[op.pos..], Members(st.tables, op.id);
    WriteThenReadGroup(t, h, p, op.level, op.id, buf, op.maxlen);
    LookupIsInTable(t, op.id, |p.mem|);
    NormalisedLength(items, buf);
    hide Write, Read, Lookup, Normalised, Total, StoredGroup, Members, TableOk, ListOk, HandlersOk;
    var written := st.WriteItem(op);
    rtn := st.ReadItem(op);
  }

  // ----- The ports -----

  function PortGroup(base: word, place: nat): Group
    requires base + 15 < 0x1_0000
  {
    Group(base, Term, PortItems(base, place) + [Item(base + 15, true, true, false, true, NoHandler, 0)])
  }

  /** The tables of ports 0 to 3 and of the last one. */
  function PortTable(): seq<Group> {
    [PortGroup(0x8700, 0), PortGroup(0x8710, 4), PortGroup(0x8720, 8), PortGroup(0x8730, 12), PortGroup(0x8780, 16)]
  }

  lemma PortGroupOk(base: word, place: nat, size: nat)
    requires base + 15 < 0x1_0000 && base % 16 == 0 && place + 4 <= size
    ensures ListOk(PortGroup(base, place), size)
  {
  }

  lemma PortTableOk(size: nat)
    requires size >= 20
    ensures TableOk(PortTable(), size)
  {
    PortGroupOk(0x8700, 0, size);
    PortGroupOk(0x8710, 4, size);
    PortGroupOk(0x8720, 8, size);
    PortGroupOk(0x8730, 12, size);
    PortGroupOk(0x8780, 16, size);
  }

  lemma PortLookup(k: nat)
    requires k < 5
    ensures var g := PortTable()[k]; Lookup(PortTable(), g.id + 15) == Some((g, 5)) && Members(PortTable(), g.id + 15) == g.items[..5]
  {
    var t, g := PortTable(), PortTable()[k];
    assert GroupId(g.id + 15) == g.id;
    PortFound(k);
    ItemFound(g.id, 4 * k);
  }

  lemma PortFound(k: nat)
    requires k < 5
    ensures FindGroup(PortTable(), PortTable()[k].id) == k
  {
    var t := PortTable();
    assert t[1..][1..] == t[2..] && t[2..][1..] == t[3..] && t[3..][1..] == t[4..];
  }

  lemma ItemFound(base: word, place: nat)
    requires base + 15 < 0x1_0000
    ensures FindItem(PortGroup(base, place).items, base + 15) == 5
  {
    var items := PortGroup(base, place).items;
    assert items[1..][1..] == items[2..] && items[2..][1..] == items[3..] && items[3..][1..] == items[4..];
    assert items[4..][1..] == items[5..];
    assert FindItem(items[5..], base + 15) == 0;
    assert FindItem(items[3..], base + 15) == 2;
  }

  /** Writing and reading a port's group is writing and reading its members. */
  lemma PortMembers(h: Handlers, p: Params, k: nat, buf: seq<byte>)
    requires |p.mem| >= 20 && |p.stopbits| == PORTS && |buf| == 5 && HandlersOk(h, |p.mem|) && k < 5
    requires TableOk(PortTable(), |p.mem|)
    ensures var base := PortTable()[k].id;
            && base + 15 < 0x1_0000 && ItemsOk(PortItems(base, 4 * k), |p.mem|)
            && Write(PortTable(), h, p, 0, 0, base + 15, buf, 5) == WriteMembers(h, p, PortItems(base, 4 * k), buf, 5, 0)
            && Read(PortTable(), h, p, 0, base + 15, 5) == match ReadMembers(h, p, PortItems(base, 4 * k), 5)
                                                           case None => (INVALID, [])
                                                           case Some(bytes) => (OK, bytes)
  {
    PortShape(k);
    PortLookup(k);
    hide PortTable, PortItems, Lookup, WriteMembers, ReadMembers, HandlersOk, TableOk, Members;
    GroupAccess(PortTable(), h, p, PortTable()[k].id + 15, PortTable()[k], 5, buf, 5);
  }

  lemma PortShape(k: nat)
    requires k < 5
    ensures var g := PortTable()[k];
            && g.id + 15 < 0x1_0000 && |g.items| == 6 && g.items[..5] == PortItems(g.id, 4 * k)
            && g.items[5] == Item(g.id + 15, true, true, false, true, NoHandler, 0)
  {
  }

  lemma GroupAccess(t: seq<Group>, h: Handlers, p: Params, id: word, g: Group, i: nat, buf: seq<byte>, maxlen: nat)
    requires TableOk(t, |p.mem|) && |p.stopbits| == PORTS && maxlen <= |buf| && HandlersOk(h, |p.mem|)
    requires Lookup(t, id) == Some((g, i)) && i < |g.items| && g.items[i] == Item(id, true, true, false, true, NoHandler, 0)
    ensures ItemsOk(g.items[..i], |p.mem|)
    ensures Write(t, h, p, 0, 0, id, buf, maxlen) == WriteMembers(h, p, g.items[..i], buf, maxlen, 0)
    ensures Read(t, h, p, 0, id, maxlen) == match ReadMembers(h, p, g.items[..i], maxlen)
                                            case None => (INVALID, [])
                                            case Some(bytes) => (OK, bytes)
  {
    LookupIsInTable(t, id, |p.mem|);
    hide Lookup, WriteMembers, ReadMembers, HandlersOk, TableOk, ItemOk;
  }

  /** With the program's tables: what is written to the group of a port 0 to 3 is read from it, and the
      last group cannot be read whatever is written. */
  lemma PortsRoundTrip(h: Handlers, p: Params, k: nat, buf: seq<byte>)
    requires |p.mem| >= 20 && |p.stopbits| == PORTS && |buf| == 5 && HandlersOk(h, |p.mem|) && k < 5
    ensures TableOk(PortTable(), |p.mem|)
    ensures var id := PortTable()[k].id + 15;
            var (p', rtn) := Write(PortTable(), h, p, 0, 0, id, buf, 5);
            && Sized(p', |p.mem|)
            && if k < 4 then rtn == OK && Read(PortTable(), h, p', 0, id, 5) == (OK, buf[3 := if buf[3] > 2 then 2 else buf[3]])
               else Read(PortTable(), h, p', 0, id, 5) == (INVALID, [])
  {
    var base := PortTable()[k].id;
    assert base in [0x8700, 0x8710, 0x8720, 0x8730] <==> k < 4;
    assert k == 4 ==> base == 0x8780;
    PortTableOk(|p.mem|);
    PortMembers(h, p, k, buf);
    hide Write, Read, WriteMembers, ReadMembers, HandlersOk, TableOk, PortTable, PortItems, ItemsOk;
    MembersKeepSize(h, p, PortItems(base, 4 * k), buf, 5, 0);
    var p' := WriteMembers(h, p, PortItems(base, 4 * k), buf, 5, 0).0;
    PortMembers(h, p', k, buf);
    if k < 4 {
      PortGroupRoundTrip(h, p, base, 4 * k, buf);
    } else {
      LastPortGroupIsUnreadable(h, p', 16, 5);
    }
  }

  lemma {:induction false} MembersKeepSize(h: Handlers, p: Params, items: seq<Item>, buf: seq<byte>, maxlen: nat, level: byte)
    requires ItemsOk(items, |p.mem|) && |p.stopbits| == PORTS && maxlen <= |buf| && HandlersOk(h, |p.mem|)
    ensures Sized(WriteMembers(h, p, items, buf, maxlen, level).0, |p.mem|)
    decreases |items|
  {
    if items != [] {
      WriteKeepsSize(h, p, items[0], buf, maxlen, level);
      var (p1, rtn) := WritePlain(h, p, items[0], buf, maxlen, level);
      if rtn != INVALID && items[0].datalen <= maxlen {
        MembersKeepSize(h, p1, items[1..], buf[items[0].datalen..], maxlen - items[0].datalen, level);
      }
    }
  }
}
