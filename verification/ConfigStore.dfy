/** The configuration store: NUL-terminated records name=value in one buffer, written one after the
    other and found again by a scan that goes on where the last one stopped. */
module ConfigStore {
  import opened Arithmetic
  import opened Bytes
  import opened ConfigText
  import opened Crc16
  import opened StoredFile
  import opened Wrappers

  const EQUALS: byte := 61
  const XIN_MAXSIZE: nat := 0x7000
  const XIN_MAGIC: uint32 := 0xaf7c32d1

  // ----- Records -----

  predicate NoNul(s: text) {
    0 !in s
  }

  /** A record in the buffer: a name, an equals sign, a value. */
  predicate IsRecord(r: text) {
    NoNul(r) && EQUALS in r
  }

  predicate IsName(name: text) {
    NoNul(name) && EQUALS !in name
  }

  predicate AllRecords(recs: seq<text>) {
    forall i :: 0 <= i < |recs| ==> IsRecord(recs[i])
  }

  /** The buffer's contents. */
  function Image(recs: seq<text>): text {
    if recs == [] then [] else Image(recs[..|recs| - 1]) + recs[|recs| - 1] + [0]
  }

  /** Where record `i` begins. */
  function Start(recs: seq<text>, i: nat): nat
    requires i <= |recs|
  {
    |Image(recs[..i])|
  }

  // ----- The scan -----

  /** The name without its last character, which the comparison does not look at. */
  function Core(name: text): text {
    if name == [] then [] else name[..|name| - 1]
  }

  /** Does the scan take this record for the name? */
  predicate Hit(rec: text, name: text) {
    |name| < |rec| && rec[|name|] == EQUALS && rec[..|Core(name)|] == Core(name)
  }

  /** The first record from `i` on, up to `end`, that is taken for the name; or `end`. */
  function First(recs: seq<text>, i: nat, end: nat, name: text): (r: nat)
    requires i <= end <= |recs|
    ensures i <= r <= end && (r < end ==> Hit(recs[r], name))
    ensures forall j :: i <= j < r ==> !Hit(recs[j], name)
    decreases end - i
  {
    if i == end || Hit(recs[i], name) then i else First(recs, i + 1, end, name)
  }

  /** What the scan finds from record `c` on, once round the buffer. */
  function Find(recs: seq<text>, c: nat, name: text): Option<nat>
    requires c <= |recs|
  {
    var i := First(recs, c, |recs|, name);
    if i < |recs| then Some(i)
    else
      var j := First(recs, 0, c, name);
      if j < c then Some(j) else None
  }

  /** Where it stands afterwards: behind the record found; if none was, where it began - but not at
      the very beginning, as the first record is looked at twice. */
  function After(recs: seq<text>, c: nat, name: text): (r: nat)
    requires c <= |recs|
    ensures |recs| > 0 ==> r <= |recs|
  {
    match Find(recs, c, name)
    case Some(i) => i + 1
    case None => if c == 0 then 1 else c
  }

  /** The first hit in cyclic order, or none if there is none at all. */
  lemma FindIsFirstInCycle(recs: seq<text>, c: nat, name: text)
    requires c <= |recs|
    ensures match Find(recs, c, name)
            case Some(i) =>
              && i < |recs| && Hit(recs[i], name)
              && (forall j :: 0 <= j < |recs| && (if i >= c then c <= j < i else c <= j || j < i) ==> !Hit(recs[j], name))
            case None => forall j :: 0 <= j < |recs| ==> !Hit(recs[j], name)
  {
  }

  // ----- Names and values -----

  datatype Entry = Entry(name: text, value: text)

  function Record(e: Entry): text {
    e.name + [EQUALS] + e.value
  }

  /** An entry that can be stored: a name, and a value that does not begin with an equals sign. */
  predicate Proper(e: Entry) {
    IsName(e.name) && NoNul(e.value) && (e.value != [] ==> e.value[0] != EQUALS)
  }

  /** Two names of the same length that agree in all but the last character. */
  predicate Similar(a: text, b: text) {
    |a| == |b| && Core(a) == Core(b)
  }

  function Records(es: seq<Entry>): (r: seq<text>)
    ensures |r| == |es|
  {
    seq(|es|, i requires 0 <= i < |es| => Record(es[i]))
  }

  predicate AllProper(es: seq<Entry>) {
    forall i :: 0 <= i < |es| ==> Proper(es[i])
  }

  /** A proper entry is taken for a name exactly if the names are similar; what follows is its value. */
  lemma HitIsSimilar(e: Entry, name: text)
    requires Proper(e) && IsName(name)
    ensures Hit(Record(e), name) <==> Similar(e.name, name)
    ensures Similar(e.name, name) ==> Record(e)[|name| + 1..] == e.value
  {
    var r, m, k := Record(e), |e.name|, |name|;
    assert r[m] == EQUALS && r[..m] == e.name && r[m + 1..] == e.value;
    assert k < m ==> r[k] == e.name[k] && e.name[k] in e.name;
    assert m + 1 == k < |r| ==> r[k] == e.value[0];
    assert m + 1 < k ==> Core(name)[m] == name[m] && name[m] in name;
    assert k < |r| && m + 1 < k ==> r[..|Core(name)|][m] == r[m];
    assert k == m > 0 ==> r[..k - 1] == e.name[..k - 1];
  }

  /** The value read for name `j` when the scan begins at record `c` is its own. */
  predicate ReadsOwn(es: seq<Entry>, c: nat, j: nat)
    requires c <= |es| && j < |es|
  {
    match Find(Records(es), c, es[j].name)
    case Some(i) => Record(es[i])[|es[j].name| + 1..] == es[j].value
    case None => false
  }

  lemma HitsAreSimilar(es: seq<Entry>, name: text)
    requires AllProper(es) && IsName(name)
    ensures forall i :: 0 <= i < |es| ==> (Hit(Records(es)[i], name) <==> Similar(es[i].name, name))
  {
    hide Hit, Similar, Record;
    forall i | 0 <= i < |es|
      ensures Hit(Records(es)[i], name) <==> Similar(es[i].name, name)
    {
      HitIsSimilar(es[i], name);
    }
  }

  /** Wherever the scan begins, it finds a similar name. */
  lemma FindsSimilar(es: seq<Entry>, c: nat, j: nat)
    requires AllProper(es) && c <= |es| && j < |es|
    ensures match Find(Records(es), c, es[j].name)
            case Some(i) => i < |es| && Similar(es[i].name, es[j].name) && (ReadsOwn(es, c, j) <==> es[i].value == es[j].value)
            case None => false
  {
    var name := es[j].name;
    assert Similar(name, name);
    HitsAreSimilar(es, name);
    FindIsFirstInCycle(Records(es), c, name);
    hide Hit, Similar, Record;
    assert Hit(Records(es)[j], name);
    var f := Find(Records(es), c, name);
    if f.Some? {
      HitIsSimilar(es[f.value], name);
    }
  }

  /** Beginning right at a similar name, it finds that one. */
  lemma FindsItself(es: seq<Entry>, i: nat, j: nat)
    requires AllProper(es) && i < |es| && j < |es| && (i == j || Similar(es[i].name, es[j].name))
    ensures Find(Records(es), i, es[j].name) == Some(i)
  {
    HitsAreSimilar(es, es[j].name);
  }

  /** No stored name similar to name `j` has another value. */
  predicate NoRival(es: seq<Entry>, j: nat)
    requires j < |es|
  {
    forall i :: 0 <= i < |es| && Similar(es[i].name, es[j].name) ==> es[i].value == es[j].value
  }

  /** Reading a stored name gives its own value, wherever the scan begins, exactly if no stored name
      that is similar to it has another value. */
  lemma ReadsBack(es: seq<Entry>, j: nat)
    requires AllProper(es) && j < |es|
    ensures NoRival(es, j) <==> forall c: nat :: c <= |es| ==> ReadsOwn(es, c, j)
  {
    hide Similar, Find, Records, Proper;
    forall c: nat | c <= |es| && NoRival(es, j)
      ensures ReadsOwn(es, c, j)
    {
      FindsSimilar(es, c, j);
    }
    forall i | 0 <= i < |es| && Similar(es[i].name, es[j].name) && ReadsOwn(es, i, j)
      ensures es[i].value == es[j].value
    {
      FindsSimilar(es, i, j);
      FindsItself(es, i, j);
    }
  }

  /** Two names that differ in their last character only: reading the second one from the beginning
      gives the value of the first. */
  lemma LastCharacterIsIgnored()
    ensures var es := [Entry([112, 49], [97]), Entry([112, 50], [98])];
            AllProper(es) && ReadsOwn(es, 0, 0) && !ReadsOwn(es, 0, 1) && ReadsOwn(es, 1, 1) && !ReadsOwn(es, 1, 0)
  {
    var es := [Entry([112, 49], [97]), Entry([112, 50], [98])];
    assert Record(es[0]) == [112, 49, 61, 97] && Record(es[1]) == [112, 50, 61, 98];
    FindsSimilar(es, 0, 0);
    FindsItself(es, 0, 0);
    FindsSimilar(es, 0, 1);
    FindsItself(es, 0, 1);
    FindsSimilar(es, 1, 1);
    FindsItself(es, 1, 1);
  }

  // ----- Names read one after the other -----

  /** What is found for each name when they are read one after the other. */
  function Finds(recs: seq<text>, c: nat, names: seq<text>): (r: seq<Option<nat>>)
    requires recs != [] && c <= |recs|
    ensures |r| == |names|
    decreases |names|
  {
    if names == [] then []
    else [Find(recs, c, names[0])] + Finds(recs, After(recs, c, names[0]), names[1..])
  }

  /** Entries one behind the other, from the scan's place on; some may be left out. */
  predicate Onward(es: seq<Entry>, c: nat, picks: seq<nat>)
    decreases |picks|
  {
    picks == [] || (c <= picks[0] < |es| && Onward(es, picks[0] + 1, picks[1..]))
  }

  /** No entry left out has a name similar to that of the next one picked. */
  predicate SkipsNoSimilar(es: seq<Entry>, c: nat, picks: seq<nat>)
    requires Onward(es, c, picks)
    decreases |picks|
  {
    picks != [] ==> NoneSimilar(es, c, picks[0]) && SkipsNoSimilar(es, picks[0] + 1, picks[1..])
  }

  predicate NoneSimilar(es: seq<Entry>, c: nat, j: nat)
    requires c <= j < |es|
  {
    forall i :: c <= i < j ==> !Similar(es[i].name, es[j].name)
  }

  function NamesOf(es: seq<Entry>, picks: seq<nat>): (r: seq<text>)
    requires forall k :: 0 <= k < |picks| ==> picks[k] < |es|
    ensures |r| == |picks|
  {
    seq(|picks|, k requires 0 <= k < |picks| => es[picks[k]].name)
  }

  function Each(picks: seq<nat>): (r: seq<Option<nat>>)
    ensures |r| == |picks|
  {
    seq(|picks|, k requires 0 <= k < |picks| => Some(picks[k]))
  }

  /** The names of the entries picked, read one after the other, each find their own entry. */
  predicate ReadsEach(es: seq<Entry>, c: nat, picks: seq<nat>)
    requires es != [] && c <= |es| && forall k :: 0 <= k < |picks| ==> picks[k] < |es|
  {
    Finds(Records(es), c, NamesOf(es, picks)) == Each(picks)
  }

  lemma {:induction false} OnwardRange(es: seq<Entry>, c: nat, picks: seq<nat>)
    requires Onward(es, c, picks)
    ensures forall k :: 0 <= k < |picks| ==> picks[k] < |es|
    decreases |picks|
  {
    if picks != [] {
      OnwardRange(es, picks[0] + 1, picks[1..]);
      forall k | 0 <= k < |picks|
        ensures picks[k] < |es|
      {
        assert k > 0 ==> picks[k] == picks[1..][k - 1];
      }
    }
  }

  /** From a place before it an entry is found if no similar one comes first. */
  lemma FindsAhead(es: seq<Entry>, c: nat, j: nat)
    requires AllProper(es) && c <= j < |es|
    ensures Find(Records(es), c, es[j].name) == Some(j) <==> NoneSimilar(es, c, j)
  {
    var recs, name := Records(es), es[j].name;
    assert Similar(name, name);
    HitsAreSimilar(es, name);
    FindIsFirstInCycle(recs, c, name);
    hide Similar, Hit, Records, Proper, IsName;
    assert Hit(recs[j], name);
  }

  /** Stored names read in the order written, from wherever the scan stands and some left out: each
      read finds its own entry exactly if no similar name is passed over. */
  lemma {:induction false} ReadsOnward(es: seq<Entry>, c: nat, picks: seq<nat>)
    requires AllProper(es) && es != [] && c <= |es| && Onward(es, c, picks)
    ensures forall k :: 0 <= k < |picks| ==> picks[k] < |es|
    ensures ReadsEach(es, c, picks) <==> SkipsNoSimilar(es, c, picks)
    decreases |picks|
  {
    hide *;
    OnwardRange(es, c, picks);
    if picks == [] {
      NothingRead(es, c, picks);
    } else {
      OnwardFirst(es, c, picks);
      FindsAhead(es, c, picks[0]);
      ReadsOnward(es, picks[0] + 1, picks[1..]);
      OneMoreRead(es, c, picks, picks[0], picks[1..]);
    }
  }

  lemma NothingRead(es: seq<Entry>, c: nat, picks: seq<nat>)
    requires es != [] && c <= |es| && Onward(es, c, picks) && picks == []
    ensures ReadsEach(es, c, picks) && SkipsNoSimilar(es, c, picks)
  {
  }

  lemma OnwardFirst(es: seq<Entry>, c: nat, picks: seq<nat>)
    requires Onward(es, c, picks) && picks != []
    ensures c <= picks[0] < |es| && Onward(es, picks[0] + 1, picks[1..])
    ensures SkipsNoSimilar(es, c, picks) <==> NoneSimilar(es, c, picks[0]) && SkipsNoSimilar(es, picks[0] + 1, picks[1..])
  {
    hide NoneSimilar;
  }

  /** One name read, and then the rest. */
  lemma OneMoreRead(es: seq<Entry>, c: nat, picks: seq<nat>, j: nat, rest: seq<nat>)
    requires es != [] && c <= |es| && picks == [j] + rest && j < |es|
    requires forall k :: 0 <= k < |picks| ==> picks[k] < |es|
    requires forall k :: 0 <= k < |rest| ==> rest[k] < |es|
    ensures ReadsEach(es, c, picks) <==> Find(Records(es), c, es[j].name) == Some(j) && ReadsEach(es, j + 1, rest)
  {
    PicksStep(es, picks);
    assert picks[0] == j && picks[1..] == rest;
    hide Find, Finds, Records, NamesOf, Each, After;
    FindsStep(Records(es), c, NamesOf(es, picks), j);
    HeadAndTail(Finds(Records(es), c, NamesOf(es, picks)), Each(picks));
  }

  lemma FindsStep(recs: seq<text>, c: nat, names: seq<text>, j: nat)
    requires recs != [] && c <= |recs| && names != [] && j < |recs|
    ensures Finds(recs, c, names)[0] == Find(recs, c, names[0])
    ensures Find(recs, c, names[0]) == Some(j) ==> Finds(recs, c, names)[1..] == Finds(recs, j + 1, names[1..])
  {
    hide Find;
  }

  lemma PicksStep(es: seq<Entry>, picks: seq<nat>)
    requires picks != [] && forall k :: 0 <= k < |picks| ==> picks[k] < |es|
    ensures NamesOf(es, picks)[0] == es[picks[0]].name && NamesOf(es, picks)[1..] == NamesOf(es, picks[1..])
    ensures Each(picks)[0] == Some(picks[0]) && Each(picks)[1..] == Each(picks[1..])
  {
  }

  lemma HeadAndTail<T>(a: seq<T>, b: seq<T>)
    requires a != [] && b != []
    ensures a == b <==> a[0] == b[0] && a[1..] == b[1..]
  {
    assert a == [a[0]] + a[1..] && b == [b[0]] + b[1..];
  }

  /** `m` numbers below `n`, counted round and round from `c` on. */
  function Around(n: nat, c: nat, m: nat): (r: seq<nat>)
    requires 0 < n && c <= n
    ensures |r| == m && forall k :: 0 <= k < m ==> r[k] < n
    decreases m
  {
    if m == 0 then []
    else
      var j := if c == n then 0 else c;
      [j] + Around(n, j + 1, m - 1)
  }

  lemma {:induction false} AroundIsModulo(n: nat, c: nat, m: nat, k: nat)
    requires 0 < n && c <= n && k < m
    ensures Around(n, c, m)[k] == (c + k) % n
    decreases m
  {
    var j := if c == n then 0 else c;
    if k == 0 {
      Quotient(c, n, if c == n then 1 else 0, j);
    } else {
      AroundIsModulo(n, j + 1, m - 1, k - 1);
      if c == n {
        RoundOnce(n, k);
      }
    }
  }

  lemma RoundOnce(n: nat, x: nat)
    requires 0 < n
    ensures (n + x) % n == x % n
  {
    assert x == n * (x / n) + x % n;
    Quotient(n + x, n, x / n + 1, x % n);
  }

  lemma AroundStep(n: nat, c: nat, m: nat)
    requires 0 < n && c <= n && 0 < m
    ensures var j := if c == n then 0 else c;
            Around(n, c, m) == [j] + Around(n, j + 1, m - 1)
  {
  }

  /** All names in the order written, any number of times over: every read finds its own entry,
      however similar the names are. */
  lemma {:induction false} ReadsAround(es: seq<Entry>, c: nat, m: nat)
    requires AllProper(es) && es != [] && c <= |es|
    ensures ReadsEach(es, c, Around(|es|, c, m))
    decreases m
  {
    hide *;
    if m == 0 {
      NothingAround(es, c);
    } else if c == |es| {
      ReadsAround(es, 1, m - 1);
      FindsFromEnd(es);
      OneMoreAround(es, c, m, 0);
    } else {
      ReadsAround(es, c + 1, m - 1);
      FindsItself(es, c, c);
      OneMoreAround(es, c, m, c);
    }
  }

  lemma OneMoreAround(es: seq<Entry>, c: nat, m: nat, j: nat)
    requires es != [] && c <= |es| && m > 0 && j == if c == |es| then 0 else c
    requires Find(Records(es), c, es[j].name) == Some(j) && ReadsEach(es, j + 1, Around(|es|, j + 1, m - 1))
    ensures ReadsEach(es, c, Around(|es|, c, m))
  {
    hide *;
    AroundStep(|es|, c, m);
    OneMoreRead(es, c, Around(|es|, c, m), j, Around(|es|, j + 1, m - 1));
  }

  lemma NothingAround(es: seq<Entry>, c: nat)
    requires es != [] && c <= |es|
    ensures ReadsEach(es, c, Around(|es|, c, 0))
  {
    assert NamesOf(es, Around(|es|, c, 0)) == [];
  }

  /** Behind the last record the scan begins again at the first. */
  lemma FindsFromEnd(es: seq<Entry>)
    requires AllProper(es) && es != []
    ensures Find(Records(es), |es|, es[0].name) == Some(0)
  {
    var name := es[0].name;
    assert Similar(name, name);
    HitsAreSimilar(es, name);
    FindIsFirstInCycle(Records(es), |es|, name);
    hide Similar, Hit, Records, Proper, IsName;
    assert Hit(Records(es)[0], name);
  }

  /** A name that nothing stored is similar to leaves the scan where it is - except at the very
      beginning: read first, it makes the scan pass over the first entry, which is then found next
      exactly if no other name is similar to its own. */
  lemma MissingNamePasses(es: seq<Entry>, name: text)
    requires AllProper(es) && es != [] && IsName(name) && forall i :: 0 <= i < |es| ==> !Similar(es[i].name, name)
    ensures forall c: nat, names :: 0 < c <= |es| ==>
              Finds(Records(es), c, [name] + names) == [None] + Finds(Records(es), c, names)
    ensures Finds(Records(es), 0, [name, es[0].name]) == [None, Some(0)]
            <==> forall i :: 1 <= i < |es| ==> !Similar(es[i].name, es[0].name)
  {
    var recs := Records(es);
    forall c: nat | c <= |es|
      ensures Find(recs, c, name) == None
    {
      HitsAreSimilar(es, name);
      FindIsFirstInCycle(recs, c, name);
    }
    forall c: nat, names: seq<text> | 0 < c <= |es|
      ensures Finds(recs, c, [name] + names) == [None] + Finds(recs, c, names)
    {
      hide Find;
      assert ([name] + names)[1..] == names;
    }
    FindsFirstAgain(es);
    hide Find, Similar, Records, Proper;
    assert [name, es[0].name][1..] == [es[0].name];
    assert Finds(recs, 0, [name, es[0].name])[1] == Finds(recs, 1, [es[0].name])[0] == Find(recs, 1, es[0].name);
  }

  lemma FindsFirstAgain(es: seq<Entry>)
    requires AllProper(es) && es != []
    ensures Find(Records(es), 1, es[0].name) == Some(0) <==> forall i :: 1 <= i < |es| ==> !Similar(es[i].name, es[0].name)
  {
    var recs, name := Records(es), es[0].name;
    assert Similar(name, name);
    HitsAreSimilar(es, name);
    FindIsFirstInCycle(recs, 1, name);
    hide Similar, Hit, Records, Proper, IsName;
    assert Hit(recs[0], name);
  }

  // ----- Records in the buffer -----

  lemma {:induction false} ImagePrefix(recs: seq<text>, i: nat)
    requires i <= |recs|
    ensures Image(recs[..i]) <= Image(recs)
    decreases |recs|
  {
    if i == |recs| {
      assert recs[..i] == recs;
    } else {
      var rest := recs[..|recs| - 1];
      ImagePrefix(rest, i);
      assert rest[..i] == recs[..i];
    }
  }

  /** Where a record lies. */
  lemma RecordAt(recs: seq<text>, i: nat)
    requires i < |recs|
    ensures var p, r := Start(recs, i), recs[i];
            && Start(recs, i + 1) == p + |r| + 1 <= |Image(recs)|
            && Image(recs)[p..p + |r|] == r && Image(recs)[p + |r|] == 0
  {
    ImagePrefix(recs, i + 1);
    assert recs[..i + 1][..i] == recs[..i] && recs[..i + 1][i] == recs[i];
    assert Image(recs[..i + 1]) == Image(recs[..i]) + recs[i] + [0];
    hide Image;
    PieceAndZero(Image(recs[..i]), recs[i], Image(recs));
  }

  lemma PieceAndZero(a: text, r: text, whole: text)
    requires a + r + [0] <= whole
    ensures |a| + |r| < |whole| && whole[|a|..|a| + |r|] == r && whole[|a| + |r|] == 0
  {
  }

  lemma {:induction false} StartMono(recs: seq<text>, i: nat, j: nat)
    requires i < j <= |recs|
    ensures Start(recs, i) < Start(recs, j)
    decreases j
  {
    RecordAt(recs, j - 1);
    if i < j - 1 {
      StartMono(recs, i, j - 1);
    }
  }

  lemma OrderOfStarts(recs: seq<text>, i: nat, j: nat)
    requires i <= |recs| && j <= |recs|
    ensures Start(recs, i) >= Start(recs, j) <==> i >= j
  {
    hide Start;
    if i < j {
      StartMono(recs, i, j);
    } else if j < i {
      StartMono(recs, j, i);
    }
  }

  lemma PieceOfPrefix(s: text, n: nat, i: nat, j: nat)
    requires i <= j <= n <= |s|
    ensures s[..n][i..j] == s[i..j]
  {
  }

  lemma StartEnds(recs: seq<text>)
    ensures Start(recs, 0) == 0 && Start(recs, |recs|) == |Image(recs)|
  {
    assert recs[..0] == [] && recs[..|recs|] == recs;
  }

  // ----- The program -----

  class Xin {
    const buffer: array<byte>
    var len: nat
    var pscan: nat
    var openflag: char
    ghost var recs: seq<text>
    ghost var cursor: nat

    /** The buffer holds the records, and the zero bytes that opening a file puts behind them; the
        scan stands at one of them or behind the last. */
    ghost predicate Reading()
      reads this, buffer
    {
      && openflag == 'r' && len + 2 <= buffer.Length && recs != [] && AllRecords(recs)
      && buffer[..len] == Image(recs) && buffer[len] == 0 && buffer[len + 1] == 0
      && cursor <= |recs| && pscan == Start(recs, cursor)
    }

    /** The buffer holds the records written so far. */
    ghost predicate Writing()
      reads this, buffer
    {
      && openflag == 'w' && buffer.Length == XIN_MAXSIZE + 128 && len <= XIN_MAXSIZE && pscan == len
      && AllRecords(recs) && buffer[..len] == Image(recs)
    }

    constructor ()
      ensures buffer.Length == XIN_MAXSIZE + 128 && fresh(buffer)
    {
      buffer := new byte[XIN_MAXSIZE + 128];
      len, pscan, openflag := 0, 0, '?';
    }

    /** `strlen`. */
    method StrLen(p: nat, ghost s: text) returns (n: nat)
      requires p + |s| < buffer.Length && NoNul(s) && buffer[p..p + |s|] == s && buffer[p + |s|] == 0
      ensures n == |s|
    {
      n := 0;
      AtText(p, p, s);
      while buffer[p + n] != 0
        invariant n <= |s| && (buffer[p + n] == 0 <==> n == |s|)
        decreases |s| - n
      {
        n := n + 1;
        AtText(p, p + n, s);
      }
    }

    /** The comparison of the record at `p` with a name: both pointers go one further before a
        difference ends it. */
    method Compare(p: nat, name: text, ghost rec: text) returns (pstr: nat, pname: nat)
      requires p + |rec| < buffer.Length && buffer[p..p + |rec|] == rec && buffer[p + |rec|] == 0
      requires IsRecord(rec) && IsName(name)
      ensures p <= pstr <= p + |rec|
      ensures pname == |name| && buffer[pstr] == EQUALS <==> Hit(rec, name)
      ensures Hit(rec, name) ==> pstr == p + |name|
      ensures buffer[pstr] == 0 ==> pstr == p + |rec|
    {
      ghost var e :| 0 <= e < |rec| && rec[e] == EQUALS;
      pstr, pname := p, 0;
      while pname < |name|
        invariant pname <= |name| && pstr == p + pname && pname <= e && rec[..pname] == name[..pname]
      {
        assert buffer[pstr] == rec[pname] && name[pname] in name;
        pstr, pname := pstr + 1, pname + 1;
        if buffer[pstr - 1] != name[pname - 1] {
          break;
        }
      }
      assert pname == 0 || rec[..pname - 1] == name[..pname - 1];
      AtText(p, pstr, rec);
      HitWhen(rec, name, pname, e);
    }

    /** The record at place `i` of the buffer. */
    lemma HoldsRecord(i: nat)
      requires Reading() && i < |recs|
      ensures var p, r := Start(recs, i), recs[i];
              && p + |r| < len && buffer[p..p + |r|] == r && buffer[p + |r|] == 0 && IsRecord(r)
              && Start(recs, i + 1) == p + |r| + 1
    {
      RecordAt(recs, i);
      var p, r := Start(recs, i), recs[i];
      PieceOfPrefix(buffer[..], len, p, p + |r|);
      assert buffer[..len] == buffer[..][..len] && buffer[p..p + |r|] == buffer[..][p..p + |r|];
      assert buffer[p + |r|] == buffer[..len][p + |r|];
    }

    lemma EndsWithZero()
      requires Reading()
      ensures pscan <= len && (buffer[pscan] == 0 <==> cursor == |recs|)
    {
      StartEnds(recs);
      if cursor < |recs| {
        HoldsRecord(cursor);
        AtText(pscan, pscan, recs[cursor]);
      }
    }

    /** The record the scan stands at: where its value begins if it is taken for the name, or -1. The
        scan goes on to the next one. */
    method TryRecord(name: text) returns (pvalue: int)
      requires Reading() && IsName(name) && cursor < |recs|
      modifies `pscan, `cursor
      ensures Reading() && cursor == old(cursor) + 1
      ensures pvalue == if Hit(recs[old(cursor)], name) then Start(recs, old(cursor)) + |name| + 1 else -1
    {
      HoldsRecord(cursor);
      hide Hit, Image, IsRecord;
      ghost var rec := recs[cursor];
      var pstr, pname := Compare(pscan, name, rec);
      var found := pname == |name| && buffer[pstr] == EQUALS;
      if !found && buffer[pstr] == 0 {
        pscan := pstr + 1;
      } else {
        var add := StrLen(pscan, rec);
        pscan := pscan + add + 1;
      }
      cursor := cursor + 1;
      pvalue := if found then pstr + 1 else -1;
    }

    /** The scan for a name: where its value begins, or -1. */
    method FindVariable(name: text) returns (pvalue: int)
      requires Reading() && IsName(name)
      modifies `pscan, `cursor
      ensures Reading() && cursor == After(recs, old(cursor), name)
      ensures pvalue == match Find(recs, old(cursor), name)
                        case Some(i) => Start(recs, i) + |name| + 1
                        case None => -1
    {
      hide Hit, Start, IsName;
      ghost var c, n := cursor, |recs|;
      var pbak := pscan;
      var brescan := false;
      while true
        invariant Reading() && c <= n && pbak == Start(recs, c)
        invariant !brescan ==> c <= cursor && First(recs, c, n, name) == First(recs, cursor, n, name)
        invariant brescan ==> First(recs, c, n, name) == n && 1 <= cursor && (cursor <= c || (c == 0 && cursor == 1))
        invariant brescan && cursor <= c ==> First(recs, 0, c, name) == First(recs, cursor, c, name)
        decreases if brescan then 0 else 1, n - cursor
      {
        if !brescan {
          EndsWithZero();
          if buffer[pscan] == 0 {
            brescan := true;
            Rewind();
          }
        } else {
          OrderOfStarts(recs, cursor, c);
          if pscan >= pbak {
            return -1;
          }
        }
        pvalue := TryRecord(name);
        if pvalue != -1 {
          return;
        }
      }
    }

    method Rewind()
      requires Reading()
      modifies `pscan, `cursor
      ensures Reading() && cursor == 0
    {
      StartEnds(recs);
      pscan, cursor := 0, 0;
    }

    lemma AtText(p: nat, q: nat, rec: text)
      requires p + |rec| < buffer.Length && buffer[p..p + |rec|] == rec && buffer[p + |rec|] == 0 && NoNul(rec)
      requires p <= q <= p + |rec|
      ensures buffer[q] == (if q < p + |rec| then rec[q - p] else 0)
      ensures buffer[q] == 0 <==> q == p + |rec|
    {
      if q < p + |rec| {
        assert rec[q - p] in rec;
      }
    }

    // ----- Reading values -----

    /** What the value of a record found is: the text behind the pointer, up to the NUL. */
    lemma ValueAt(i: nat, name: text)
      requires Reading() && i < |recs| && Hit(recs[i], name)
      ensures var p, v := Start(recs, i) + |name| + 1, recs[i][|name| + 1..];
              p + |v| < len && buffer[p..p + |v|] == v && buffer[p + |v|] == 0 && NoNul(v)
    {
      HoldsRecord(i);
      var q, r := Start(recs, i), recs[i];
      assert buffer[q..q + |r|][|name| + 1..] == buffer[q + |name| + 1..q + |r|];
    }

    /** The scan for a name, and the text its pointer leads to. */
    method FindText(name: text) returns (p: int, ghost v: text)
      requires Reading() && IsName(name)
      modifies `pscan, `cursor
      ensures Reading() && cursor == After(recs, old(cursor), name)
      ensures match Find(recs, old(cursor), name)
              case Some(i) =>
                && v == recs[i][|name| + 1..] && p >= 0 && p + |v| < buffer.Length
                && buffer[p..p + |v|] == v && buffer[p + |v|] == 0 && NoNul(v)
              case None => p == -1
    {
      ghost var f := Find(recs, cursor, name);
      FindIsFirstInCycle(recs, cursor, name);
      hide Hit, Image, Find, First, Start;
      v := [];
      p := FindVariable(name);
      if p != -1 {
        ValueAt(f.value, name);
        v := recs[f.value][|name| + 1..];
      }
    }

    method XinReadInt(name: text, defvalue: int) returns (r: int)
      requires Reading() && IsName(name)
      modifies `pscan, `cursor
      ensures Reading() && cursor == After(recs, old(cursor), name)
      ensures r == match Find(recs, old(cursor), name)
                   case Some(i) => StrToInt(recs[i][|name| + 1..])
                   case None => defvalue
    {
      hide *;
      var p, v := FindText(name);
      if p == -1 {
        return defvalue;
      }
      var n := StrLen(p, v);
      r := XinStrToInt(buffer[p..p + n]);
    }

    /** The value is copied as far as it and a NUL behind it fit. */
    method XinReadString(name: text, out: array<byte>, size: nat) returns (copylen: int)
      requires Reading() && IsName(name) && 1 <= size <= out.Length && out != buffer
      modifies `pscan, `cursor, out
      ensures Reading() && cursor == After(recs, old(cursor), name)
      ensures match Find(recs, old(cursor), name)
              case Some(i) =>
                var v := recs[i][|name| + 1..];
                && copylen == Least(|v|, size - 1) && out[..copylen] == v[..copylen] && out[copylen] == 0
                && out[copylen + 1..] == old(out[copylen + 1..])
              case None => copylen == -1 && out[..] == old(out[..])
    {
      hide *;
      var p, v := FindText(name);
      if p == -1 {
        return -1;
      }
      copylen := CopyText(p, v, out, size);
    }

    /** The copy loop. */
    method CopyText(p: nat, ghost v: text, out: array<byte>, size: nat) returns (copylen: nat)
      requires p + |v| < buffer.Length && buffer[p..p + |v|] == v && buffer[p + |v|] == 0 && NoNul(v)
      requires 1 <= size <= out.Length && out != buffer
      modifies out
      ensures copylen == Least(|v|, size - 1) && out[..copylen] == v[..copylen] && out[copylen] == 0
      ensures out[copylen + 1..] == old(out[copylen + 1..])
    {
      copylen := 0;
      AtText(p, p, v);
      while copylen < size - 1
        invariant copylen <= |v| && copylen <= size - 1 && out[..copylen] == v[..copylen]
        invariant out[copylen..] == old(out[copylen..])
        invariant buffer[p + copylen] == 0 <==> copylen == |v|
      {
        if buffer[p + copylen] == 0 {
          break;
        }
        assert buffer[p + copylen] == v[copylen];
        out[copylen] := buffer[p + copylen];
        copylen := copylen + 1;
        AtText(p, p + copylen, v);
      }
      out[copylen] := 0;
    }

    method XinReadHex(name: text, out: array<byte>, size: nat) returns (copylen: int)
      requires Reading() && IsName(name) && 1 <= size <= out.Length && out != buffer
      modifies `pscan, `cursor, out
      ensures Reading() && cursor == After(recs, old(cursor), name)
      ensures match Find(recs, old(cursor), name)
              case Some(i) =>
                var bytes := StrToHex(recs[i][|name| + 1..], size);
                copylen == |bytes| && out[..copylen] == bytes
              case None => copylen == -1 && out[..] == old(out[..])
    {
      hide *;
      var p, v := FindText(name);
      if p == -1 {
        return -1;
      }
      var n := StrLen(p, v);
      copylen := XinStrToHex(buffer[p..p + n], out, size);
    }

    // ----- Writing values -----

    /** `sprintf` at the end of the buffer, and `ADD_POINTER`: 0 and one more record, or 1 if there is
        no room for it. */
    method Append(rec: text) returns (rtn: int)
      requires Writing() && IsRecord(rec) && len + |rec| + 1 <= buffer.Length
      modifies this, buffer
      ensures Writing()
      ensures rtn == if old(len) + |rec| < XIN_MAXSIZE then 0 else 1
      ensures recs == if rtn == 0 then old(recs) + [rec] else old(recs)
    {
      hide IsRecord;
      ghost var was := buffer[..len];
      Print(pscan, rec);
      if len + |rec| >= XIN_MAXSIZE {
        assert buffer[..len] == was;
        return 1;
      }
      assert buffer[..len + |rec| + 1] == was + rec + [0];
      len := len + |rec| + 1;
      pscan := pscan + |rec| + 1;
      assert (recs + [rec])[..|recs|] == recs;
      recs := recs + [rec];
      return 0;
    }

    /** Text and a NUL at a place of the buffer. */
    method Print(p: nat, s: text)
      requires p + |s| + 1 <= buffer.Length
      modifies buffer
      ensures buffer[..p] == old(buffer[..p]) && buffer[p..p + |s|] == s && buffer[p + |s|] == 0
    {
      forall k | 0 <= k < |s| {
        buffer[p + k] := s[k];
      }
      buffer[p + |s|] := 0;
    }

    method XinWriteInt(name: text, value: int32, hex: bool) returns (rtn: int)
      requires Writing() && IsName(name) && len + |Printed(name, value, hex)| + 1 <= buffer.Length
      modifies this, buffer
      ensures Writing()
      ensures rtn == if old(len) + |Printed(name, value, hex)| < XIN_MAXSIZE then 0 else 1
      ensures recs == if rtn == 0 then old(recs) + [Printed(name, value, hex)] else old(recs)
    {
      PrintedIsRecord(name, value, hex);
      hide Printed;
      rtn := Append(Printed(name, value, hex));
    }

    method XinWriteString(name: text, str: text) returns (rtn: int)
      requires Writing() && IsName(name) && NoNul(str) && len + |name| + |str| + 2 <= buffer.Length
      modifies this, buffer
      ensures Writing()
      ensures rtn == if old(len) + |name| + 1 + |str| < XIN_MAXSIZE then 0 else 1
      ensures recs == if rtn == 0 then old(recs) + [Record(Entry(name, str))] else old(recs)
    {
      RecordOf(name, str);
      rtn := Append(name + [EQUALS] + str);
    }

    /** The digits go into the buffer two by two, as long as there is room. */
    method XinWriteHex(name: text, bytes: seq<byte>) returns (rtn: int)
      requires Writing() && IsName(name) && len + |name| + 2 <= buffer.Length
      modifies this, buffer
      ensures Writing()
      ensures rtn == if old(len) + |name| + 1 + 2 * |bytes| < XIN_MAXSIZE then 0 else 1
      ensures recs == if rtn == 0 then old(recs) + [Record(Entry(name, HexString(bytes)))] else old(recs)
    {
      ghost var was := buffer[..len];
      var head := name + [EQUALS];
      Print(pscan, head);
      var scanlen := len + |head|;
      if scanlen >= XIN_MAXSIZE {
        assert buffer[..len] == was;
        return 1;
      }
      var i := 0;
      assert bytes[..0] == [] && buffer[len..scanlen] == head + HexString(bytes[..0]);
      while i < |bytes|
        invariant i <= |bytes| && scanlen == len + |head| + 2 * i < XIN_MAXSIZE
        invariant Writing() && len == old(len) && recs == old(recs)
        invariant buffer[..len] == was && buffer[len..scanlen] == head + HexString(bytes[..i]) && buffer[scanlen] == 0
      {
        scanlen := PrintByte(scanlen, bytes, i, head);
        if scanlen >= XIN_MAXSIZE {
          return 1;
        }
        i := i + 1;
      }
      assert bytes[..i] == bytes;
      FinishHex(name, bytes, scanlen);
      return 0;
    }

    /** One more byte as two digits. */
    method PrintByte(scanlen: nat, bytes: seq<byte>, i: nat, ghost head: text) returns (scanlen': nat)
      requires buffer.Length == XIN_MAXSIZE + 128 && len <= scanlen < XIN_MAXSIZE && i < |bytes|
      requires buffer[len..scanlen] == head + HexString(bytes[..i])
      modifies buffer
      ensures scanlen' == scanlen + 2 && buffer[..len] == old(buffer[..len])
      ensures buffer[len..scanlen'] == head + HexString(bytes[..i + 1]) && buffer[scanlen'] == 0
    {
      var b: nat := bytes[i];
      ghost var was := buffer[..scanlen];
      Print(scanlen, [HexDigit(b / 16), HexDigit(b % 16)]);
      scanlen' := scanlen + 2;
      assert bytes[..i + 1][..i] == bytes[..i];
      assert buffer[..len] == was[..len] && buffer[len..scanlen] == was[len..];
      assert buffer[len..scanlen'] == buffer[len..scanlen] + [HexDigit(b / 16), HexDigit(b % 16)];
    }

    method FinishHex(name: text, bytes: seq<byte>, scanlen: nat)
      requires Writing() && IsName(name) && len <= scanlen < XIN_MAXSIZE && buffer[scanlen] == 0
      requires buffer[len..scanlen] == name + [EQUALS] + HexString(bytes)
      modifies this
      ensures Writing() && recs == old(recs) + [Record(Entry(name, HexString(bytes)))]
    {
      HexStringIsText(bytes);
      RecordOf(name, HexString(bytes));
      ghost var rec := Record(Entry(name, HexString(bytes)));
      hide IsRecord, HexString;
      assert buffer[..scanlen + 1] == buffer[..len] + buffer[len..scanlen] + [0];
      len := scanlen + 1;
      pscan := scanlen + 1;
      assert (recs + [rec])[..|recs|] == recs;
      recs := recs + [rec];
    }

    // ----- Files -----

    /** `XinOpen` for writing. */
    method OpenForWrite()
      requires buffer.Length == XIN_MAXSIZE + 128
      modifies this
      ensures Writing() && recs == []
    {
      openflag, len, pscan := 'w', 0, 0;
      recs := [];
    }

    /** `XinClose`: what has been written goes to the file, unless it is nothing. */
    method XinClose(file: File)
      requires file.data == [] && file.pos == 0 && len <= buffer.Length
      modifies file
      ensures file.data == if openflag != 'r' && 0 < len <= XIN_MAXSIZE then FileOf(buffer[..len]) else []
    {
      if openflag == 'r' {
        return;
      }
      if len <= 0 || len > XIN_MAXSIZE {
        return;
      }
      hide Sum, Bytes2, Bytes4;
      var crc := CalculateCRC(buffer, len);
      file.Write(Bytes4(XIN_MAGIC) + Bytes2(len) + Bytes2(crc));
      file.Write(buffer[..len]);
    }

    /** `XinOpen` for reading: succeeds exactly on a good file, and then reads its records from the
        first one on. */
    method OpenForRead(file: File, ghost rs: seq<text>) returns (ok: bool)
      requires buffer.Length == XIN_MAXSIZE + 128 && file.Valid() && file.pos == 0
      modifies this, buffer, file`pos
      ensures ok <==> GoodFile(file.data)
      ensures ok ==> len == |BodyOf(file.data)| && buffer[..len] == BodyOf(file.data) && pscan == 0
                     && buffer[len] == 0 && buffer[len + 1] == 0 && openflag == 'r'
      ensures ok && BodyOf(file.data) == Image(rs) && AllRecords(rs) && rs != [] ==> Reading() && recs == rs && cursor == 0
    {
      hide Sum, Word2, Word4, Image, IsRecord;
      var head := file.Read(8);
      openflag := 'r';
      if |head| < 8 {
        return false;
      }
      assert head == file.data[..8] && file.Rest() == file.data[8..];
      PieceOfPrefix(file.data, 8, 0, 4);
      PieceOfPrefix(file.data, 8, 4, 6);
      PieceOfPrefix(file.data, 8, 6, 8);
      if Word4(head[0..4]) != XIN_MAGIC {
        return false;
      }
      var n := Word2(head[4..6]);
      if n <= 0 || n > XIN_MAXSIZE {
        return false;
      }
      var body := file.Read(n);
      if |body| < n {
        return false;
      }
      assert body == file.data[8..8 + n];
      Print(0, body);
      var crc := CalculateCRC(buffer, n);
      assert buffer[..n] == buffer[0..n] == body;
      if Word2(head[6..8]) != crc {
        return false;
      }
      buffer[n], buffer[n + 1] := 0, 0;
      assert buffer[..n] == body;
      pscan, len := 0, n;
      recs, cursor := rs, 0;
      StartEnds(rs);
      return true;
    }
  }

  // ----- The file format -----

  function FileOf(body: text): text
    requires |body| <= XIN_MAXSIZE
  {
    Bytes4(XIN_MAGIC) + Bytes2(|body|) + Bytes2(Sum(body)) + body
  }

  predicate GoodFile(d: text) {
    && |d| >= 8 && Word4(d[0..4]) == XIN_MAGIC
    && var n := Word2(d[4..6]);
       0 < n <= XIN_MAXSIZE && |d| >= 8 + n && Word2(d[6..8]) == Sum(d[8..8 + n])
  }

  function BodyOf(d: text): text
    requires |d| >= 8 && |d| >= 8 + Word2(d[4..6])
  {
    d[8..8 + Word2(d[4..6])]
  }

  /** What has been written to a file is read from it. */
  lemma FileRoundTrip(body: text)
    requires 0 < |body| <= XIN_MAXSIZE
    ensures GoodFile(FileOf(body)) && BodyOf(FileOf(body)) == body
  {
    hide Sum, Bytes2, Bytes4, Word2, Word4;
    var d := FileOf(body);
    assert d[0..4] == Bytes4(XIN_MAGIC) && d[4..6] == Bytes2(|body|) && d[6..8] == Bytes2(Sum(body));
    Word4OfBytes4(XIN_MAGIC);
    Word2OfBytes2(|body|);
    Word2OfBytes2(Sum(body));
    assert d[8..8 + |body|] == body;
  }

  /** What `XinWriteInt` prints. */
  function Printed(name: text, value: int32, hex: bool): text {
    Record(Entry(name, if hex then Hexadecimal(value) else Decimal(value)))
  }

  lemma RecordOf(name: text, value: text)
    requires IsName(name) && NoNul(value)
    ensures IsRecord(Record(Entry(name, value)))
  {
    var r := name + [EQUALS] + value;
    assert r[|name|] == EQUALS;
  }

  lemma {:induction false} DigitsAreText(n: nat, base: nat)
    requires 2 <= base <= 16
    ensures forall i :: 0 <= i < |Digits(n, base)| ==> Digits(n, base)[i] !in [0, EQUALS]
    decreases n
  {
    DivideBy(n, base);
    if n >= base {
      DigitsAreText(n / base, base);
    }
  }

  lemma {:induction false} HexStringIsText(bytes: seq<byte>)
    ensures NoNul(HexString(bytes))
    ensures forall i :: 0 <= i < |HexString(bytes)| ==> HexString(bytes)[i] != EQUALS
  {
    if bytes != [] {
      HexStringIsText(bytes[..|bytes| - 1]);
    }
  }

  lemma DecimalIsText(value: int)
    ensures forall i :: 0 <= i < |Decimal(value)| ==> Decimal(value)[i] !in [0, EQUALS]
  {
    DigitsAreText(if value < 0 then -value else value, 10);
    hide Digits;
  }

  lemma HexadecimalIsText(value: int32)
    ensures forall i :: 0 <= i < |Hexadecimal(value)| ==> Hexadecimal(value)[i] !in [0, EQUALS]
  {
    DigitsAreText(if value < 0 then value + 0x1_0000_0000 else value, 16);
    hide Digits;
  }

  /** Printed numbers can be stored, and reading them gives the number back. */
  lemma NumbersAreProper(name: text, value: int32)
    requires IsName(name)
    ensures Proper(Entry(name, Decimal(value))) && Proper(Entry(name, Hexadecimal(value)))
    ensures StrToInt(Decimal(value)) == value && StrToInt(Hexadecimal(value)) == value
  {
    hide Decimal, Hexadecimal, StrToInt;
    DecimalRoundTrip(value);
    HexadecimalRoundTrip(value);
    DecimalIsText(value);
    HexadecimalIsText(value);
  }

  lemma PrintedIsRecord(name: text, value: int32, hex: bool)
    requires IsName(name)
    ensures IsRecord(Printed(name, value, hex))
  {
    NumbersAreProper(name, value);
    RecordOf(name, if hex then Hexadecimal(value) else Decimal(value));
  }

  lemma HitWhen(rec: text, name: text, n: nat, e: nat)
    requires e < |rec| && rec[e] == EQUALS && IsName(name) && NoNul(rec)
    requires n <= |name| && n <= e + 1 && (n == 0 || rec[..n - 1] == name[..n - 1])
    requires n < |name| ==> n > 0 && rec[n - 1] != name[n - 1]
    ensures n == |name| < |rec| && rec[n] == EQUALS <==> Hit(rec, name)
  {
    if n < |name| {
      assert |name| < |rec| ==> rec[..|name| - 1][n - 1] == rec[n - 1];
    }
  }
}
