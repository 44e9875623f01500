/** Settings of all three kinds through the configuration store: written, closed, opened and read. */
module ConfigSettings {
  import opened Bytes
  import opened ConfigStore
  import opened ConfigText
  import opened StoredFile
  import opened Wrappers

  datatype Value = Text(s: text) | Number(v: int32, hex: bool) | Octets(bytes: seq<byte>)

  datatype Setting = Setting(name: text, value: Value)

  function Shown(v: Value): text {
    match v
    case Text(s) => s
    case Number(v, hex) => if hex then Hexadecimal(v) else Decimal(v)
    case Octets(bytes) => HexString(bytes)
  }

  function EntryOf(s: Setting): Entry {
    Entry(s.name, Shown(s.value))
  }

  function Entries(ss: seq<Setting>): (es: seq<Entry>)
    ensures |es| == |ss|
  {
    seq(|ss|, i requires 0 <= i < |ss| => EntryOf(ss[i]))
  }

  /** Any name without an equals sign; of the values only texts that begin with one are excluded. */
  predicate Storable(s: Setting) {
    IsName(s.name) && (s.value.Text? ==> NoNul(s.value.s) && (s.value.s != [] ==> s.value.s[0] != EQUALS))
  }

  predicate AllStorable(ss: seq<Setting>) {
    forall i :: 0 <= i < |ss| ==> Storable(ss[i])
  }

  lemma StorableIsProper(s: Setting)
    requires Storable(s)
    ensures Proper(EntryOf(s))
  {
    match s.value
    case Text(_) =>
    case Number(v, _) => NumbersAreProper(s.name, v);
    case Octets(bytes) => HexStringIsText(bytes);
  }

  lemma AllStorableAreProper(ss: seq<Setting>)
    requires AllStorable(ss)
    ensures AllProper(Entries(ss)) && AllRecords(Records(Entries(ss)))
  {
    forall i | 0 <= i < |ss|
      ensures Proper(EntryOf(ss[i])) && IsRecord(Record(EntryOf(ss[i])))
    {
      StorableIsProper(ss[i]);
      RecordOf(ss[i].name, Shown(ss[i].value));
    }
  }

  /** The records of the first settings, and the room that the next one needs. */
  lemma NextRecord(ss: seq<Setting>, i: nat)
    requires i < |ss|
    ensures var recs, rec := Records(Entries(ss[..i])), Record(EntryOf(ss[i]));
            && Records(Entries(ss[..i + 1])) == recs + [rec]
            && |Image(recs)| + |rec| + 1 <= |Image(Records(Entries(ss)))|
  {
    var all, recs, rec := Records(Entries(ss)), Records(Entries(ss[..i])), Record(EntryOf(ss[i]));
    assert all[..i] == recs && all[..i + 1] == recs + [rec] == Records(Entries(ss[..i + 1]));
    assert (recs + [rec])[..i] == recs;
    ImagePrefix(all, i + 1);
  }

  method Write(x: Xin, s: Setting) returns (rtn: int)
    requires x.Writing() && Storable(s) && x.len + |Record(EntryOf(s))| < XIN_MAXSIZE
    modifies x, x.buffer
    ensures x.Writing() && x.recs == old(x.recs) + [Record(EntryOf(s))]
  {
    match s.value
    case Text(str) => rtn := x.XinWriteString(s.name, str);
    case Number(v, hex) => rtn := x.XinWriteInt(s.name, v, hex);
    case Octets(bytes) => rtn := x.XinWriteHex(s.name, bytes);
  }

  method WriteAll(x: Xin, ss: seq<Setting>)
    requires x.Writing() && x.recs == [] && AllStorable(ss) && |Image(Records(Entries(ss)))| <= XIN_MAXSIZE
    modifies x, x.buffer
    ensures x.Writing() && x.recs == Records(Entries(ss))
  {
    hide Record, EntryOf, Entries, Records, Image;
    Nothing();
    var i := 0;
    assert ss[..0] == [];
    while i < |ss|
      invariant i <= |ss| && x.Writing() && x.recs == Records(Entries(ss[..i]))
    {
      NextRecord(ss, i);
      var _ := Write(x, ss[i]);
      i := i + 1;
    }
    assert ss[..i] == ss;
  }

  lemma Nothing()
    ensures Records(Entries([])) == []
  {
  }

  /** Reading a setting of its kind: a text as far as it fits, a number, or bytes that fit. */
  method Read(y: Xin, s: Setting, out: array<byte>, size: nat) returns (r: int)
    requires y.Reading() && IsName(s.name) && 1 <= size <= out.Length && out != y.buffer
    modifies y`pscan, y`cursor, out
    ensures y.Reading() && y.recs == old(y.recs) && y.cursor == After(y.recs, old(y.cursor), s.name)
    ensures match Find(y.recs, old(y.cursor), s.name)
            case None => true
            case Some(i) => y.recs[i][|s.name| + 1..] == Shown(s.value) ==> Returned(s.value, r, out[..], size)
  {
    hide Xin.Reading, Find, Decimal, Hexadecimal, StrToInt, StrToHex, HexString, Proper, After, IsName;
    match s.value
    case Text(str) => r := y.XinReadString(s.name, out, size);
    case Number(v, hex) =>
      NumbersAreProper(s.name, v);
      r := y.XinReadInt(s.name, 0);
    case Octets(bytes) =>
      HexStringRoundTrip(bytes, size);
      r := y.XinReadHex(s.name, out, size);
  }

  /** The result and the caller's buffer show the value. */
  predicate Returned(v: Value, r: int, out: seq<byte>, size: nat)
    requires 1 <= size <= |out|
  {
    match v
    case Text(s) => 0 <= r == Least(|s|, size - 1) <= |out| && out[..r] == s[..r]
    case Number(v, _) => r == v
    case Octets(bytes) => 0 <= r == Least(|bytes|, size) <= |out| && out[..r] == bytes[..r]
  }

  /** Whatever settings are written, closed and opened again, and whichever names are read before, a
      setting reads back, if no setting with a similar name shows another value. */
  method StoreAndRead(ss: seq<Setting>, before: seq<text>, j: nat, out: array<byte>, size: nat) returns (r: int)
    requires AllStorable(ss) && j < |ss| && |Image(Records(Entries(ss)))| <= XIN_MAXSIZE
    requires NoRival(Entries(ss), j) && (forall i :: 0 <= i < |before| ==> IsName(before[i])) && 1 <= size <= out.Length
    modifies out
    ensures Returned(ss[j].value, r, out[..], size)
  {
    hide Entries, Records, Image, AllStorable, Find, ReadsOwn, NoRival, Xin.Reading, Returned, IsName;
    AllStorableAreProper(ss);
    var file := new File([]);
    Save(file, ss);
    var y := new Xin();
    Load(file, y, ss);
    ReadNames(y, before);
    r := ReadOne(y, ss, j, out, size);
  }

  method ReadNames(y: Xin, names: seq<text>)
    requires y.Reading() && forall i :: 0 <= i < |names| ==> IsName(names[i])
    modifies y`pscan, y`cursor
    ensures y.Reading() && y.recs == old(y.recs)
  {
    hide Xin.Reading, Find, StrToInt, After, IsName;
    var i := 0;
    while i < |names|
      invariant i <= |names| && y.Reading()
    {
      var _ := y.XinReadInt(names[i], 0);
      i := i + 1;
    }
  }

  method ReadOne(y: Xin, ss: seq<Setting>, j: nat, out: array<byte>, size: nat) returns (r: int)
    requires y.Reading() && y.recs == Records(Entries(ss)) && AllProper(Entries(ss)) && j < |ss|
    requires NoRival(Entries(ss), j) && 1 <= size <= out.Length && out != y.buffer
    modifies y`pscan, y`cursor, out
    ensures Returned(ss[j].value, r, out[..], size)
  {
    ghost var es := Entries(ss);
    assert Proper(es[j]) && y.cursor <= |es|;
    FindsOwn(es, y.cursor, j);
    hide *;
    r := Read(y, ss[j], out, size);
  }

  /** All settings, written, closed, opened again and read in the order written, come back, however
      similar their names are. */
  method StoreAndReadAll(ss: seq<Setting>, out: array<byte>, size: nat) returns (rs: seq<int>, outs: seq<seq<byte>>)
    requires AllStorable(ss) && ss != [] && |Image(Records(Entries(ss)))| <= XIN_MAXSIZE && 1 <= size <= out.Length
    modifies out
    ensures |rs| == |outs| == |ss|
    ensures forall j :: 0 <= j < |ss| ==> |outs[j]| == out.Length && Returned(ss[j].value, rs[j], outs[j], size)
  {
    hide Entries, Records, Image, AllStorable, Find, Xin.Reading, Returned, IsName, After;
    AllStorableAreProper(ss);
    var file := new File([]);
    Save(file, ss);
    var y := new Xin();
    Load(file, y, ss);
    rs, outs := [], [];
    while |rs| < |ss|
      invariant |rs| == |outs| <= |ss| && y.Reading() && y.recs == Records(Entries(ss)) && y.cursor == |rs|
      invariant forall j :: 0 <= j < |rs| ==> |outs[j]| == out.Length && Returned(ss[j].value, rs[j], outs[j], size)
    {
      var r := ReadNext(y, ss, |rs|, out, size);
      rs, outs := rs + [r], outs + [out[..]];
    }
  }

  method ReadNext(y: Xin, ss: seq<Setting>, j: nat, out: array<byte>, size: nat) returns (r: int)
    requires y.Reading() && y.recs == Records(Entries(ss)) && AllProper(Entries(ss)) && j < |ss| && y.cursor == j
    requires 1 <= size <= out.Length && out != y.buffer
    modifies y`pscan, y`cursor, out
    ensures y.Reading() && y.recs == old(y.recs) && y.cursor == j + 1
    ensures Returned(ss[j].value, r, out[..], size)
  {
    ghost var es := Entries(ss);
    assert Proper(es[j]);
    FindsItself(es, j, j);
    HitIsSimilar(es[j], es[j].name);
    assert Records(es)[j] == Record(es[j]);
    AfterHit(Records(es), j, es[j].name, j);
    hide *;
    r := Read(y, ss[j], out, size);
  }

  /** Behind a hit the scan stands at the next record. */
  lemma AfterHit(recs: seq<text>, c: nat, name: text, i: nat)
    requires c <= |recs| && Find(recs, c, name) == Some(i)
    ensures After(recs, c, name) == i + 1
  {
  }

  lemma FindsOwn(es: seq<Entry>, c: nat, j: nat)
    requires AllProper(es) && c <= |es| && j < |es| && NoRival(es, j)
    ensures match Find(Records(es), c, es[j].name)
            case Some(i) => i < |es| && Records(es)[i][|es[j].name| + 1..] == es[j].value
            case None => false
  {
    ReadsBack(es, j);
    FindIsFirstInCycle(Records(es), c, es[j].name);
    hide Find, NoRival, AllProper;
    assert ReadsOwn(es, c, j);
  }

  method Save(file: File, ss: seq<Setting>)
    requires file.data == [] && file.pos == 0
    requires AllStorable(ss) && ss != [] && |Image(Records(Entries(ss)))| <= XIN_MAXSIZE
    modifies file
    ensures file.data == FileOf(Image(Records(Entries(ss))))
  {
    var x := new Xin();
    x.OpenForWrite();
    WriteAll(x, ss);
    NextRecord(ss, 0);
    x.XinClose(file);
  }

  method Load(file: File, y: Xin, ghost ss: seq<Setting>)
    requires AllStorable(ss) && ss != [] && |Image(Records(Entries(ss)))| <= XIN_MAXSIZE
    requires file.data == FileOf(Image(Records(Entries(ss)))) && y.buffer.Length == XIN_MAXSIZE + 128
    modifies y, y.buffer
    ensures y.Reading() && y.recs == Records(Entries(ss)) && y.cursor == 0
  {
    var again := new File(file.data);
    NextRecord(ss, 0);
    AllStorableAreProper(ss);
    ghost var recs := Records(Entries(ss));
    FileRoundTrip(Image(recs));
    var ok := y.OpenForRead(again, recs);
  }
}
