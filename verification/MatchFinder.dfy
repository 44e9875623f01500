/** The match finder: 256 search trees, one per first byte, threaded through three arrays. */
module MatchFinder {
  import opened Bytes
  import opened BitIo
  import opened AdaptiveModel
  import opened SearchTree
  import opened LinkedTrees

  // ----- The forest as a value -----

  type Forest = seq<Tree>

  predicate TreeOk(t: Tree, c: nat, buf: seq<byte>, s: Links)
    requires |buf| == BUFFER && LinkedTrees.Shape(s) && c < 256
  {
    Ordered(t, buf) && Rep(t, s.r[Root(c)], Root(c), s) && forall k :: k in Nodes(t) ==> k < N && buf[k] == c
  }

  /** Ring position `p` is a node of the forest. */
  predicate In(f: Forest, buf: seq<byte>, p: nat)
    requires |f| == 256 && |buf| == BUFFER && p < N
  {
    p in Nodes(f[buf[p]])
  }

  /** Every tree is ordered, lies in the arrays below its root and holds windows with its first
      byte only; `dad` tells exactly which positions are nodes. */
  predicate ForestOk(f: Forest, buf: seq<byte>, s: Links) {
    && |f| == 256 && |buf| == BUFFER && LinkedTrees.Shape(s)
    && (forall c :: 0 <= c < 256 ==> TreeOk(f[c], c, buf, s))
    && (forall p :: 0 <= p < N ==> (s.d[p] == NIL <==> !In(f, buf, p)))
  }

  lemma TreeHangs(f: Forest, buf: seq<byte>, s: Links, c: nat)
    requires ForestOk(f, buf, s) && c < 256
    ensures TreeOk(f[c], c, buf, s) && Hangs(f[c], c, s)
  {
    OrderedDistinct(f[c], buf);
  }

  /** Replacing one tree leaves the others in place. */
  lemma ForestRehung(f: Forest, buf: seq<byte>, s: Links, s': Links, c: nat, t': Tree)
    requires ForestOk(f, buf, s) && LinkedTrees.Shape(s') && c < 256
    requires Rehung(f[c], t', c, s, s') && Ordered(t', buf)
    requires forall k :: k in Nodes(t') ==> k < N && buf[k] == c
    requires forall k :: k in Nodes(f[c]) && k !in Nodes(t') && k < N ==> s'.d[k] == NIL
    ensures ForestOk(f[c := t'], buf, s')
  {
    var g := f[c := t'];
    forall c' | 0 <= c' < 256
      ensures TreeOk(g[c'], c', buf, s')
    {
      assert TreeOk(f[c'], c', buf, s);
      if c' != c {
        RehungOther(f, buf, s, s', c, t', c');
      }
    }
    forall p | 0 <= p < N
      ensures s'.d[p] == NIL <==> !In(g, buf, p)
    {
      RehungDad(f, buf, s, s', c, t', p);
    }
  }

  lemma RehungOther(f: Forest, buf: seq<byte>, s: Links, s': Links, c: nat, t': Tree, c': nat)
    requires ForestOk(f, buf, s) && LinkedTrees.Shape(s') && c < 256 && Rehung(f[c], t', c, s, s')
    requires forall k :: k in Nodes(t') ==> k < N && buf[k] == c
    requires c' < 256 && c' != c
    ensures Rep(f[c'], s'.r[Root(c')], Root(c'), s')
  {
    assert TreeOk(f[c'], c', buf, s) && TreeOk(f[c], c, buf, s);
    forall k | k in Nodes(f[c'])
      ensures SameAt(s, s', k)
    {
      assert k < N && buf[k] == c';
      assert k !in Nodes(f[c]) && k !in Nodes(t');
    }
    RepFrame(f[c'], s.r[Root(c')], Root(c'), s, s');
  }

  lemma RehungDad(f: Forest, buf: seq<byte>, s: Links, s': Links, c: nat, t': Tree, p: nat)
    requires ForestOk(f, buf, s) && LinkedTrees.Shape(s') && c < 256 && Rehung(f[c], t', c, s, s')
    requires forall k :: k in Nodes(t') ==> k < N && buf[k] == c
    requires forall k :: k in Nodes(f[c]) && k !in Nodes(t') && k < N ==> s'.d[k] == NIL
    requires p < N
    ensures s'.d[p] == NIL <==> !In(f[c := t'], buf, p)
  {
    assert TreeOk(f[c], c, buf, s);
    if p in Nodes(t') {
      RepNode(t', s'.r[Root(c)], Root(c), s', p);
    } else if p !in Nodes(f[c]) {
      assert SameAt(s, s', p);
    }
  }

  /** Links of a position that is no node may change freely, except its `dad`. */
  lemma ForestSpare(f: Forest, buf: seq<byte>, s: Links, s': Links, r: nat)
    requires ForestOk(f, buf, s) && LinkedTrees.Shape(s') && r < N && !In(f, buf, r)
    requires forall k :: 0 <= k < N && k != r ==> SameAt(s, s', k)
    requires s'.d == s.d && forall c :: 0 <= c < 256 ==> s'.r[Root(c)] == s.r[Root(c)]
    ensures ForestOk(f, buf, s')
  {
    forall c | 0 <= c < 256
      ensures TreeOk(f[c], c, buf, s')
    {
      assert TreeOk(f[c], c, buf, s);
      RepFrame(f[c], s.r[Root(c)], Root(c), s, s');
    }
  }

  /** Writing to the buffer outside all windows of nodes. */
  lemma ForestText(f: Forest, buf: seq<byte>, buf': seq<byte>, s: Links)
    requires ForestOk(f, buf, s) && |buf'| == BUFFER
    requires forall p :: 0 <= p < N && In(f, buf, p) ==> Win(buf', p) == Win(buf, p)
    ensures ForestOk(f, buf', s)
    ensures forall p :: 0 <= p < N ==> (In(f, buf', p) <==> In(f, buf, p))
  {
    forall c, k | 0 <= c < 256 && k in Nodes(f[c])
      ensures k < N && buf[k] == c && Win(buf', k) == Win(buf, k) && buf'[k] == buf[k]
    {
      assert TreeOk(f[c], c, buf, s);
      assert In(f, buf, k);
      assert buf'[k] == Win(buf', k)[0] && buf[k] == Win(buf, k)[0];
    }
    forall c | 0 <= c < 256
      ensures TreeOk(f[c], c, buf', s)
    {
      assert TreeOk(f[c], c, buf, s);
      OrderedFrame(f[c], buf, buf');
    }
  }

  // ----- Insertion and deletion on forests -----

  lemma InsertForest(f: Forest, buf: seq<byte>, s: Links, s': Links, r: nat)
    requires ForestOk(f, buf, s) && LinkedTrees.Shape(s') && r < N && !In(f, buf, r)
    requires var c := buf[r];
             && Ordered(f[c], buf)
             && Rehung(f[c], Insert(f[c], buf, r), c, s, s')
             && forall k :: k in Nodes(f[c]) && k !in Nodes(Insert(f[c], buf, r)) && k < N ==> s'.d[k] == NIL
    ensures Inserted(f, buf, s', r)
  {
    var c := buf[r];
    assert TreeOk(f[c], c, buf, s);
    InsertOrdered(f[c], buf, r);
    InsertNodes(f[c], buf, r);
    ForestRehung(f, buf, s, s', c, Insert(f[c], buf, r));
    forall x | 0 <= x < N && buf[x] != c
      ensures Win(buf, x) != Win(buf, r)
    {
      assert Win(buf, x)[0] == buf[x] && Win(buf, r)[0] == c;
    }
  }

  lemma DeleteForest(f: Forest, buf: seq<byte>, s: Links, s': Links, p: nat, path: Path)
    requires ForestOk(f, buf, s) && LinkedTrees.Shape(s') && p < N
    requires var t := f[buf[p]];
             && IsPath(t, path) && At(t, path).Node? && At(t, path).key == p
             && Rehung(t, Subst(t, path, DeleteRoot(At(t, path))), buf[p], s, s')
             && s'.d[p] == NIL
    ensures Deleted(f, buf, s', p, path)
  {
    var c := buf[p];
    var t := f[c];
    assert TreeOk(t, c, buf, s);
    AtOrdered(t, path, buf);
    AtNodes(t, path);
    DeleteRootOrdered(At(t, path), buf);
    SubstOrdered(t, path, DeleteRoot(At(t, path)), buf);
    assert p in Nodes(At(t, path));
    ForestRehung(f, buf, s, s', c, Subst(t, path, DeleteRoot(At(t, path))));
  }

  /** Node `x`, at distance `d`, shares exactly `n` bytes with `r`, more than the threshold. */
  predicate IsMatch(buf: seq<byte>, r: nat, x: nat, n: nat, d: int)
    requires |buf| == BUFFER && r < N && x < N
  {
    n > THRESHOLD && d == Distance(r, x) && n == Common(Win(buf, r), Win(buf, x))
  }

  /** Of the nodes met on the search path that share `n` bytes with `r`, none is nearer than `d`. */
  ghost predicate Nearest(f: Forest, buf: seq<byte>, r: nat, n: nat, d: int) {
    && |buf| == BUFFER && r < N && |f| == 256 && Ordered(f[buf[r]], buf)
    && forall x, e :: x in Met(f[buf[r]], buf, r) && Attains(buf, r, x, n, e) ==> d <= e
  }

  lemma NearestInForest(f: Forest, buf: seq<byte>, r: nat, b0: Best)
    requires |f| == 256 && |buf| == BUFFER && r < N && Ordered(f[buf[r]], buf)
    ensures var b := Search(f[buf[r]], buf, r, b0);
            Nearest(f, buf, r, b.length, b.position)
  {
    hide Ordered, Met, Attains, Search;
    SearchNearest(f[buf[r]], buf, r, b0);
  }

  lemma LongestInForest(f: Forest, buf: seq<byte>, s: Links, r: nat, b0: Best)
    requires ForestOk(f, buf, s) && r < N && b0.length == 0
    requires TreeOk(f[buf[r]], buf[r], buf, s)
    ensures var b := Search(f[buf[r]], buf, r, b0);
            && (forall x :: 0 <= x < N && In(f, buf, x) ==> AtMost(buf, r, x, b.length))
            && (b.length > 0 ==> exists x :: 0 <= x < N && In(f, buf, x) && IsMatch(buf, r, x, b.length, b.position))
  {
    var t := f[buf[r]];
    var b := Search(t, buf, r, b0);
    SearchLongest(t, buf, r, b0);
    SearchGenuine(t, buf, r, b0);
    forall x | 0 <= x < N && In(f, buf, x)
      ensures AtMost(buf, r, x, b.length)
    {
      if buf[x] != buf[r] {
        assert Win(buf, x)[0] == buf[x] && Win(buf, r)[0] == buf[r];
        CommonIs(Win(buf, r), Win(buf, x), 0);
      }
    }
    if b.length > 0 {
      var x :| x in Nodes(t) && x < N && b.position == Distance(r, x) && b.length == Common(Win(buf, r), Win(buf, x));
      assert buf[x] == buf[r] && In(f, buf, x) && IsMatch(buf, r, x, b.length, b.position);
    }
  }

  // ----- One step down the search path -----

  /** `path` is the beginning of the search path of `r` in `t`. */
  predicate Descends(t: Tree, path: Path, buf: seq<byte>, s: Links, r: nat, c: nat) {
    && |buf| == BUFFER && LinkedTrees.Shape(s) && c < 256 && r < N && buf[r] == c
    && TreeOk(t, c, buf, s) && Hangs(t, c, s)
    && IsPath(t, path) && Ordered(At(t, path), buf)
    && Insert(t, buf, r) == Subst(t, path, Insert(At(t, path), buf, r))
  }

  lemma DescendsHere(t: Tree, path: Path, buf: seq<byte>, s: Links, r: nat, c: nat)
    requires Descends(t, path, buf, s, r, c)
    ensures var q, e, sub := HoleParent(t, path, Root(c)), HoleDir(path, true), At(t, path);
            && Place(q, e)
            && (sub == Leaf <==> Child(s, q, e) == NIL)
            && (sub.Node? ==> Child(s, q, e) == sub.key && sub.key < N && buf[sub.key] == c)
  {
    RepAt(t, path, Root(c), true, s);
    AtNodes(t, path);
    if At(t, path).Node? {
      assert At(t, path).key in Nodes(At(t, path));
    }
  }

  lemma DescendsFurther(t: Tree, path: Path, buf: seq<byte>, s: Links, r: nat, c: nat, dir: bool)
    requires Descends(t, path, buf, s, r, c) && At(t, path).Node?
    requires var k := At(t, path).key; Win(buf, k) != Win(buf, r) && (dir <==> Less(Win(buf, k), Win(buf, r)))
    ensures Descends(t, path + [dir], buf, s, r, c)
    ensures HoleParent(t, path + [dir], Root(c)) == At(t, path).key && HoleDir(path + [dir], true) == dir
    ensures At(t, path + [dir]) == if dir then At(t, path).right else At(t, path).left
  {
    AtSnoc(t, path, dir);
    SubstSnoc(t, path, dir, Insert(At(t, path + [dir]), buf, r));
    HoleSnoc(t, path, dir, Root(c));
  }

  lemma AttachInsert(f: Forest, buf: seq<byte>, s: Links, r: nat, path: Path)
    requires ForestOk(f, buf, s) && r < N && !In(f, buf, r) && s.l[r] == NIL && s.r[r] == NIL
    requires var t := f[buf[r]];
             && TreeOk(t, buf[r], buf, s) && Hangs(t, buf[r], s) && IsPath(t, path) && At(t, path) == Leaf
             && Insert(t, buf, r) == Subst(t, path, Node(Leaf, r, Leaf))
    ensures var q, e := HoleParent(f[buf[r]], path, Root(buf[r])), HoleDir(path, true);
            Place(q, e) && Inserted(f, buf, SetDad(SetChild(s, q, e, r), r, q), r)
  {
    var t := f[buf[r]];
    var q, e := HoleParent(t, path, Root(buf[r])), HoleDir(path, true);
    Attach(t, path, r, buf[r], s);
    SubstNodes(t, path, Node(Leaf, r, Leaf));
    InsertForest(f, buf, s, SetDad(SetChild(s, q, e, r), r, q), r);
  }

  /** The forest after inserting `r`, and its effect on the set of nodes. */
  predicate Inserted(f: Forest, buf: seq<byte>, s': Links, r: nat)
    requires |f| == 256 && |buf| == BUFFER && r < N && Ordered(f[buf[r]], buf)
  {
    var f' := f[buf[r] := Insert(f[buf[r]], buf, r)];
    && ForestOk(f', buf, s')
    && forall x :: 0 <= x < N ==> (In(f', buf, x) <==> x == r || (In(f, buf, x) && Win(buf, x) != Win(buf, r)))
  }

  lemma CopyInsert(f: Forest, buf: seq<byte>, s: Links, r: nat, path: Path)
    requires ForestOk(f, buf, s) && r < N && !In(f, buf, r)
    requires var t := f[buf[r]];
             && TreeOk(t, buf[r], buf, s) && Hangs(t, buf[r], s) && IsPath(t, path) && At(t, path).Node?
             && Insert(t, buf, r) == Subst(t, path, At(t, path).(key := r))
    ensures var p := At(f[buf[r]], path).key;
            && p < N && p != r && s.l[p] <= N && s.r[p] <= N
            && var s1 := CopyNode(s, p, r);
            && s1.d[p] < N + 257 && (s1.r[s1.d[p]] != p ==> s1.d[p] < N)
            && Inserted(f, buf, TakePlace(s1, p, r), r)
  {
    var t := f[buf[r]];
    var sub := At(t, path);
    var p, c := sub.key, buf[r];
    CopyRebuilds(t, path, c, s, r);
    var s1 := CopyNode(s, p, r);
    TakesPlace(t, path, c, s, s1, r, Node(sub.left, r, sub.right));
    SubstNodes(t, path, Node(sub.left, r, sub.right));
    InsertForest(f, buf, s, TakePlace(s1, p, r), r);
  }

  /** The sons of a node as the arrays show them. */
  lemma SonsOf(t: Tree, path: Path, c: nat, s: Links)
    requires LinkedTrees.Shape(s) && c < 256 && Hangs(t, c, s) && IsPath(t, path) && At(t, path).Node?
    ensures var sub := At(t, path);
            sub.key < N && (sub.left == Leaf <==> s.l[sub.key] == NIL) && (sub.right == Leaf <==> s.r[sub.key] == NIL)
  {
    SubtreeAt(t, path, c, s);
    var sub := At(t, path);
    RepPointer(sub.left, s.l[sub.key], sub.key, s);
    RepPointer(sub.right, s.r[sub.key], sub.key, s);
  }

  /** The forest after deleting `p`, and its effect on the set of nodes. */
  predicate Deleted(f: Forest, buf: seq<byte>, s': Links, p: nat, path: Path)
    requires |f| == 256 && |buf| == BUFFER && p < N && IsPath(f[buf[p]], path) && At(f[buf[p]], path).Node?
  {
    var f' := f[buf[p] := Subst(f[buf[p]], path, DeleteRoot(At(f[buf[p]], path)))];
    && ForestOk(f', buf, s')
    && forall x :: 0 <= x < N ==> (In(f', buf, x) <==> In(f, buf, x) && x != p)
  }

  lemma DeleteTakes(f: Forest, buf: seq<byte>, s: Links, s1: Links, p: nat, path: Path, q: nat)
    requires ForestOk(f, buf, s) && p < N && LinkedTrees.Shape(s1)
    requires var t := f[buf[p]];
             && IsPath(t, path) && At(t, path).Node? && At(t, path).key == p
             && Rebuilt(t, path, buf[p], s, s1, q, DeleteRoot(At(t, path)))
    ensures p != q && q <= N && s1.d[p] < N + 257 && (s1.r[s1.d[p]] != p ==> s1.d[p] < N)
    ensures Deleted(f, buf, TakePlace(s1, p, q), p, path)
  {
    var t := f[buf[p]];
    TakesPlace(t, path, buf[p], s, s1, q, DeleteRoot(At(t, path)));
    DeleteForest(f, buf, s, TakePlace(s1, p, q), p, path);
  }

  // ----- The arrays -----

  class Dictionary {
    const text_buf: array<byte>
    const lson: array<nat>
    const rson: array<nat>
    const dad: array<nat>
    var match_position: int
    var match_length: nat
    ghost var forest: Forest

    constructor ()
      ensures Shape() && fresh(text_buf) && fresh(lson) && fresh(rson) && fresh(dad)
    {
      text_buf := new byte[BUFFER](_ => 0);
      lson := new nat[N + 1](_ => 0);
      rson := new nat[N + 257](_ => 0);
      dad := new nat[N + 1](_ => 0);
      match_position, match_length := 0, 0;
    }

    ghost predicate Shape() {
      && text_buf.Length == BUFFER && lson.Length == N + 1 && rson.Length == N + 257 && dad.Length == N + 1
      && lson != dad
    }

    ghost function Arrays(): Links
      reads lson, rson, dad
    {
      Links(lson[..], rson[..], dad[..])
    }

    ghost predicate Valid()
      reads `forest, text_buf, lson, rson, dad
    {
      Shape() && ForestOk(forest, text_buf[..], Arrays())
    }

    /** Ring position `p` is in the trees. */
    ghost predicate Has(p: nat)
      requires Valid() && p < N
      reads `forest, text_buf, lson, rson, dad
    {
      In(forest, text_buf[..], p)
    }

    ghost function Nodes(): (nodes: set<nat>)
      requires Valid()
      reads `forest, text_buf, lson, rson, dad
    {
      set p: nat | p < N && Has(p)
    }

    method InitTree()
      requires Shape()
      modifies this`forest, rson, dad
      ensures Valid() && Nodes() == {}
    {
      for i := N + 1 to N + 257
        invariant forall k :: N + 1 <= k < i ==> rson[k] == NIL
      {
        rson[i] := NIL;
      }
      for i := 0 to N
        invariant forall k :: 0 <= k < i ==> dad[k] == NIL
        modifies dad
      {
        dad[i] := NIL;
      }
      forest := seq(256, _ => Leaf);
      forall c | 0 <= c < 256
        ensures TreeOk(forest[c], c, text_buf[..], Arrays())
      {
        assert Arrays().r[Root(c)] == NIL;
      }
    }

    /** Compare the strings at two positions with the same first byte. */
    method Compare(r: nat, p: nat) returns (i: nat, cmp: int)
      requires Shape() && r < N && p < N && text_buf[r] == text_buf[p]
      ensures i == Common(Win(text_buf[..], r), Win(text_buf[..], p))
      ensures cmp == 0 <==> Win(text_buf[..], p) == Win(text_buf[..], r)
      ensures cmp > 0 <==> Less(Win(text_buf[..], p), Win(text_buf[..], r))
    {
      ghost var u, v := Win(text_buf[..], r), Win(text_buf[..], p);
      i, cmp := 1, 0;
      while i < F
        invariant 1 <= i <= F && cmp == 0
        invariant forall k :: 0 <= k < i ==> u[k] == v[k]
      {
        cmp := text_buf[r + i] as int - text_buf[p + i] as int;
        if cmp != 0 {
          break;
        }
        i := i + 1;
      }
      CommonIs(u, v, i);
      CommonIs(v, u, i);
      Trichotomy(u, v);
    }

    /** Make `r` the son of `q` on side `e`. */
    method Link(q: nat, e: bool, r: nat)
      requires Shape() && Place(q, e) && r < N
      modifies lson, rson, dad
      ensures Arrays() == SetDad(SetChild(old(Arrays()), q, e, r), r, q)
    {
      if e {
        rson[q] := r;
      } else {
        lson[q] := r;
      }
      dad[r] := q;
    }

    /** Let `q` take the place of `p`, which leaves the trees. */
    method Replace(p: nat, q: nat)
      requires Shape() && p < N && q <= N && p != q
      requires dad[p] < N + 257 && (rson[dad[p]] != p ==> dad[p] < N)
      modifies lson, rson, dad
      ensures Arrays() == TakePlace(old(Arrays()), p, q)
    {
      dad[q] := dad[p];
      if rson[dad[p]] == p {
        rson[dad[p]] := q;
      } else {
        lson[dad[p]] := q;
      }
      dad[p] := NIL;
    }

    /** Take node `p`, which shares `i` bytes with `r`, into account for the longest match. */
    method Note(r: nat, p: nat, i: nat)
      modifies this`match_position, this`match_length
      ensures Best(match_length, match_position) ==
              Visit(Best(old(match_length), old(match_position)), i, Distance(r, p))
    {
      if i > THRESHOLD {
        if i > match_length {
          match_position := Distance(r, p);
          match_length := i;
        } else if i == match_length {
          var temp := Distance(r, p);
          if temp < match_position {
            match_position := temp;
          }
        }
      }
    }

    /** Follow the search path of `r`, noting matches, to an empty place or a node with an equal window. */
    method Descend(r: nat, ghost t: Tree) returns (p: nat, right: bool, equal: bool, ghost path: Path)
      requires Shape() && r < N
      requires TreeOk(t, text_buf[r], text_buf[..], Arrays()) && Hangs(t, text_buf[r], Arrays())
      modifies this`match_position, this`match_length
      ensures IsPath(t, path) && right == HoleDir(path, true)
      ensures !equal ==> At(t, path) == Leaf && p == HoleParent(t, path, Root(text_buf[r]))
      ensures equal ==> At(t, path).Node? && At(t, path).key == p
      ensures Insert(t, text_buf[..], r) == Subst(t, path, if equal then At(t, path).(key := r) else Node(Leaf, r, Leaf))
      ensures Best(match_length, match_position) == Search(t, text_buf[..], r, Best(0, old(match_position)))
    {
      ghost var buf, s, c := text_buf[..], Arrays(), text_buf[r];
      var cmp := 1;
      p := N + 1 + text_buf[r];
      match_length := 0;
      ghost var best := Search(t, buf, r, Best(0, match_position));
      path := [];
      while true
        invariant Descends(t, path, buf, s, r, c) && p == HoleParent(t, path, Root(c)) && (cmp >= 0) == HoleDir(path, true)
        invariant Search(At(t, path), buf, r, Best(match_length, match_position)) == best
        decreases At(t, path)
      {
        DescendsHere(t, path, buf, s, r, c);
        var q;
        if cmp >= 0 {
          q := rson[p];
        } else {
          q := lson[p];
        }
        if q == NIL {
          return p, cmp >= 0, false, path;
        }
        right := cmp >= 0;
        p := q;
        var i;
        i, cmp := Compare(r, p);
        Note(r, p, i);
        if i >= F {
          return p, right, true, path;
        }
        DescendsFurther(t, path, buf, s, r, c, cmp >= 0);
        path := path + [cmp >= 0];
      }
    }

    /** `r` takes the place and the subtrees of `p`. */
    method TakeOver(r: nat, p: nat)
      requires Shape() && p < N && r < N && p != r && lson[p] <= N && rson[p] <= N
      requires var s1 := CopyNode(Arrays(), p, r); s1.d[p] < N + 257 && (s1.r[s1.d[p]] != p ==> s1.d[p] < N)
      modifies lson, rson, dad
      ensures Arrays() == TakePlace(CopyNode(old(Arrays()), p, r), p, r)
    {
      lson[r] := lson[p];
      rson[r] := rson[p];
      dad[lson[p]] := r;
      dad[rson[p]] := r;
      assert Arrays() == CopyNode(old(Arrays()), p, r);
      Replace(p, r);
    }

    /** Search for `r`, which has no sons yet, and enter it into its tree. */
    method Enter(r: nat)
      requires Valid() && r < N && !Has(r) && lson[r] == NIL && rson[r] == NIL
      requires TreeOk(forest[text_buf[r]], text_buf[r], text_buf[..], Arrays())
      modifies this, lson, rson, dad
      ensures Inserted(old(forest), text_buf[..], Arrays(), r)
      ensures forest == old(forest)[text_buf[r] := Insert(old(forest)[text_buf[r]], text_buf[..], r)]
      ensures Best(match_length, match_position) ==
              Search(old(forest)[text_buf[r]], text_buf[..], r, Best(0, old(match_position)))
    {
      ghost var buf, f, s := text_buf[..], forest, Arrays();
      ghost var c, t := buf[r], f[buf[r]];
      hide Ordered, Rep, Distinct, Insert, Search, At, Subst, IsPath, Inserted;
      TreeHangs(f, buf, s, c);
      var p, right, equal;
      ghost var path;
      p, right, equal, path := Descend(r, t);
      if equal {
        CopyInsert(f, buf, s, r, path);
        TakeOver(r, p);
      } else {
        AttachInsert(f, buf, s, r, path);
        Link(p, right, r);
      }
      forest := f[c := Insert(t, buf, r)];
    }

    method InsertNode(r: nat)
      requires Valid() && r < N && !Has(r)
      modifies this, lson, rson, dad
      ensures Valid()
      ensures forall x :: 0 <= x < N ==>
                (Has(x) <==> x == r || (old(Has(x)) && Win(text_buf[..], x) != Win(text_buf[..], r)))
      ensures forall x :: 0 <= x < N && old(Has(x)) ==> AtMost(text_buf[..], r, x, match_length)
      ensures match_length > 0 ==> exists x :: 0 <= x < N && old(Has(x)) && IsMatch(text_buf[..], r, x, match_length, match_position)
      ensures Nearest(old(forest), text_buf[..], r, match_length, match_position)
    {
      ghost var buf, f, s := text_buf[..], forest, Arrays();
      rson[r] := NIL;
      lson[r] := NIL;
      ForestSpare(f, buf, s, Arrays(), r);
      TreeHangs(f, buf, Arrays(), buf[r]);
      LongestInForest(f, buf, Arrays(), r, Best(0, match_position));
      NearestInForest(f, buf, r, Best(0, match_position));
      Enter(r);
      assert text_buf[..] == buf;
    }

    method DeleteNode(p: nat)
      requires Valid() && p < N
      modifies this`forest, lson, rson, dad
      ensures Valid()
      ensures forall x :: 0 <= x < N ==> (Has(x) <==> old(Has(x)) && x != p)
    {
      if dad[p] == NIL {
        return;
      }
      ghost var buf, f, s := text_buf[..], forest, Arrays();
      ghost var c, t := buf[p], f[buf[p]];
      TreeHangs(f, buf, s, c);
      ghost var path := PathTo(t, p);
      SubtreeAt(t, path, c, s);
      var q := Heir(p, t, path, c);
      DeleteTakes(f, buf, s, Arrays(), p, path, q);
      Replace(p, q);
      forest := f[c := Subst(t, path, DeleteRoot(At(t, path)))];
    }

    /** Choose the node that will take the place of `p` and prepare it. */
    method Heir(p: nat, ghost t: Tree, ghost path: Path, ghost c: nat) returns (q: nat)
      requires Shape() && p < N && c < 256 && Hangs(t, c, Arrays())
      requires IsPath(t, path) && At(t, path).Node? && At(t, path).key == p
      modifies lson, rson, dad
      ensures Rebuilt(t, path, c, old(Arrays()), Arrays(), q, DeleteRoot(At(t, path)))
    {
      SonsOf(t, path, c, Arrays());
      if rson[p] == NIL {
        OnlySonRebuilds(t, path, c, Arrays());
        q := lson[p];
      } else if lson[p] == NIL {
        OnlySonRebuilds(t, path, c, Arrays());
        q := rson[p];
      } else {
        q := Predecessor(p, t, path, c);
      }
    }

    /** Detach the predecessor of `p` and let it adopt both subtrees of `p`. */
    method Predecessor(p: nat, ghost t: Tree, ghost path: Path, ghost c: nat) returns (q: nat)
      requires Shape() && c < 256 && Hangs(t, c, Arrays()) && IsPath(t, path) && At(t, path).Node? && At(t, path).key == p
      requires At(t, path).left.Node? && At(t, path).right.Node?
      modifies lson, rson, dad
      ensures Rebuilt(t, path, c, old(Arrays()), Arrays(), q, DeleteRoot(At(t, path)))
    {
      ghost var s, sub := Arrays(), At(t, path);
      SonsOf(t, path, c, s);
      SubtreeAt(t, path, c, s);
      q := lson[p];
      if rson[q] != NIL {
        ghost var path2;
        q, path2 := Rightmost(p, sub.left);
        DeepRebuilds(t, path, c, s, path2);
        MoveUp(p, q);
      } else {
        RepPointer(sub.left.right, s.r[q], q, s);
        LeftSonRebuilds(t, path, c, s);
      }
      AdoptRightSon(p, q);
    }

    /** Unhook `q` and give it the left subtree of `p`. */
    method MoveUp(p: nat, q: nat)
      requires Shape() && p < N && q < N && dad[q] < N && lson[q] <= N && lson[p] <= N
      modifies lson, rson, dad
      ensures Arrays() == AdoptLeft(Unhook(old(Arrays()), q), p, q)
    {
      rson[dad[q]] := lson[q];
      dad[lson[q]] := dad[q];
      lson[q] := lson[p];
      dad[lson[p]] := q;
    }

    method AdoptRightSon(p: nat, q: nat)
      requires Shape() && p < N && q < N && rson[p] <= N
      modifies lson, rson, dad
      ensures Arrays() == AdoptRight(old(Arrays()), p, q)
    {
      rson[q] := rson[p];
      dad[rson[p]] := q;
    }

    /** Walk down the right spine of the left subtree of `p`, which has more than one node. */
    method Rightmost(p: nat, ghost left: Tree) returns (q: nat, ghost path: Path)
      requires Shape() && p < N && left.Node? && Rep(left, lson[p], p, Arrays()) && rson[lson[p]] != NIL
      ensures path != [] && Spine(left, path) && At(left, path).right == Leaf && At(left, path).key == q
    {
      q := lson[p];
      path := [];
      while rson[q] != NIL
        invariant q < N && Spine(left, path) && At(left, path).key == q
        invariant Rep(At(left, path).right, rson[q], q, Arrays())
        invariant path == [] ==> rson[q] != NIL
        decreases At(left, path)
      {
        AtSnoc(left, path, true);
        RepPointer(At(left, path).right, rson[q], q, Arrays());
        path := path + [true];
        q := rson[q];
      }
      RepPointer(At(left, path).right, rson[q], q, Arrays());
    }
  }
}
