/** How search trees lie in the arrays of left sons, right sons and parents. */
module LinkedTrees {
  import opened Bytes
  import opened BitIo
  import opened AdaptiveModel
  import opened SearchTree

  const NIL := N

  /** The contents of the arrays lson, rson and dad. Indices above NIL of rson hold the roots. */
  datatype Links = Links(l: seq<nat>, r: seq<nat>, d: seq<nat>)

  predicate Shape(s: Links) {
    |s.l| == N + 1 && |s.r| == N + 257 && |s.d| == N + 1
  }

  function Root(c: nat): nat {
    N + 1 + c
  }

  /** The tree `t` hangs at pointer `p`, below `parent`. */
  predicate Rep(t: Tree, p: nat, parent: nat, s: Links)
    requires Shape(s)
  {
    match t
    case Leaf => p == NIL
    case Node(left, k, right) =>
      p == k && k < N && s.d[k] == parent && Rep(left, s.l[k], k, s) && Rep(right, s.r[k], k, s)
  }

  /** No node occurs twice. */
  predicate Distinct(t: Tree) {
    match t
    case Leaf => true
    case Node(left, k, right) =>
      && k !in Nodes(left) && k !in Nodes(right) && Nodes(left) !! Nodes(right)
      && Distinct(left) && Distinct(right)
  }

  lemma {:induction false} OrderedDistinct(t: Tree, buf: seq<byte>)
    requires |buf| == BUFFER && Ordered(t, buf)
    ensures Distinct(t)
  {
    if t.Node? {
      DisjointSubtrees(t, buf);
      OrderedDistinct(t.left, buf);
      OrderedDistinct(t.right, buf);
    }
  }

  lemma {:induction false} RepNode(t: Tree, p: nat, parent: nat, s: Links, k: nat)
    requires Shape(s) && Rep(t, p, parent, s) && parent != NIL && k in Nodes(t)
    ensures k < N && s.d[k] != NIL && (s.d[k] == parent || s.d[k] in Nodes(t))
  {
    if k in Nodes(t.left) {
      RepNode(t.left, s.l[t.key], t.key, s, k);
    } else if k in Nodes(t.right) {
      RepNode(t.right, s.r[t.key], t.key, s, k);
    }
  }

  /** The three links of node `k` agree. */
  predicate SameAt(s: Links, s': Links, k: nat)
    requires Shape(s) && Shape(s')
  {
    k < N ==> s'.l[k] == s.l[k] && s'.r[k] == s.r[k] && s'.d[k] == s.d[k]
  }

  lemma {:induction false} RepFrame(t: Tree, p: nat, parent: nat, s: Links, s': Links)
    requires Shape(s) && Shape(s') && Rep(t, p, parent, s)
    requires forall k :: k in Nodes(t) ==> SameAt(s, s', k)
    ensures Rep(t, p, parent, s')
  {
    if t.Node? {
      assert SameAt(s, s', t.key);
      RepFrame(t.left, s.l[p], p, s, s');
      RepFrame(t.right, s.r[p], p, s, s');
    }
  }

  /** Hang the same tree below another parent. */
  lemma RepReparent(t: Tree, p: nat, parent: nat, parent': nat, s: Links, s': Links)
    requires Shape(s) && Shape(s') && Rep(t, p, parent, s) && Distinct(t)
    requires forall k :: k in Nodes(t) && k != p ==> SameAt(s, s', k)
    requires p < N ==> s'.l[p] == s.l[p] && s'.r[p] == s.r[p] && s'.d[p] == parent'
    ensures Rep(t, p, parent', s')
  {
    if t.Node? {
      RepFrame(t.left, s.l[p], p, s, s');
      RepFrame(t.right, s.r[p], p, s, s');
    }
  }

  // ----- Holes -----

  /** The son of `q` on the right (true) or left; roots only have a right one. */
  function Child(s: Links, q: nat, dir: bool): nat
    requires Shape(s) && q < N + 257 && (!dir ==> q < N)
  {
    if dir then s.r[q] else s.l[q]
  }

  /** Parent and side of the subtree at a path, for a tree hanging at (`parent`, `dir`). */
  function HoleParent(t: Tree, path: Path, parent: nat): nat
    requires IsPath(t, path)
  {
    if path == [] then parent else HoleParent(if path[0] then t.right else t.left, path[1..], t.key)
  }

  function HoleDir(path: Path, dir: bool): bool {
    if path == [] then dir else path[|path| - 1]
  }

  predicate Place(q: nat, dir: bool) {
    q < N + 257 && q != NIL && (!dir ==> q < N)
  }

  lemma {:induction false} RepAt(t: Tree, path: Path, parent: nat, dir: bool, s: Links)
    requires Shape(s) && Place(parent, dir) && Rep(t, Child(s, parent, dir), parent, s) && IsPath(t, path)
    ensures var q, e := HoleParent(t, path, parent), HoleDir(path, dir);
            && Place(q, e) && Rep(At(t, path), Child(s, q, e), q, s)
            && (if path == [] then q == parent else q in Nodes(t))
  {
    if path != [] {
      assert t.key in Nodes(t);
      RepAt(if path[0] then t.right else t.left, path[1..], t.key, path[0], s);
      assert HoleDir(path, dir) == HoleDir(path[1..], path[0]);
    }
  }

  lemma {:induction false} HoleSnoc(t: Tree, path: Path, dir: bool, parent: nat)
    requires IsPath(t, path) && At(t, path).Node? && IsPath(t, path + [dir])
    ensures HoleParent(t, path + [dir], parent) == At(t, path).key
  {
    if path == [] {
      assert (path + [dir])[1..] == [];
    } else {
      assert (path + [dir])[1..] == path[1..] + [dir];
      HoleSnoc(if path[0] then t.right else t.left, path[1..], dir, t.key);
    }
  }

  /** Outside the subtree at the path nothing changes but the one pointer to it. */
  predicate OnlyHole(t: Tree, path: Path, parent: nat, dir: bool, s: Links, s': Links)
    requires Shape(s) && Shape(s') && IsPath(t, path)
  {
    var q, e := HoleParent(t, path, parent), HoleDir(path, dir);
    forall k :: k in Nodes(t) && k !in Nodes(At(t, path)) && k < N ==>
      && s'.d[k] == s.d[k]
      && (s'.l[k] == s.l[k] || (k == q && !e))
      && (s'.r[k] == s.r[k] || (k == q && e))
  }

  /** Putting another tree into the hole at a path. */
  lemma {:induction false} RepSubst(t: Tree, path: Path, sub: Tree, parent: nat, dir: bool, s: Links, s': Links)
    requires Shape(s) && Shape(s') && Place(parent, dir) && IsPath(t, path) && Distinct(t) && parent !in Nodes(t)
    requires Rep(t, Child(s, parent, dir), parent, s)
    requires OnlyHole(t, path, parent, dir, s, s')
    requires path != [] ==> Child(s', parent, dir) == Child(s, parent, dir)
    requires var q, e := HoleParent(t, path, parent), HoleDir(path, dir);
             Place(q, e) && Rep(sub, Child(s', q, e), q, s')
    ensures Rep(Subst(t, path, sub), Child(s', parent, dir), parent, s')
    decreases |path|
  {
    if path != [] {
      var child, other := if path[0] then t.right else t.left, if path[0] then t.left else t.right;
      var q := HoleParent(t, path, parent);
      assert HoleDir(path, dir) == HoleDir(path[1..], path[0]);
      AtNodes(child, path[1..]);
      RepAt(child, path[1..], t.key, path[0], s);
      assert t.key !in Nodes(At(t, path)) && t.key in Nodes(t);
      forall k | k in Nodes(other)
        ensures SameAt(s, s', k)
      {
        assert k !in Nodes(child) && k != t.key;
      }
      RepFrame(other, Child(s, t.key, !path[0]), t.key, s, s');
      RepSubst(child, path[1..], sub, t.key, path[0], s, s');
    }
  }

  // ----- What the three kinds of surgery do -----

  /** The link from (`q`, `e`) set to `v`. */
  function SetChild(s: Links, q: nat, e: bool, v: nat): (s': Links)
    requires Shape(s) && Place(q, e)
    ensures Shape(s') && Child(s', q, e) == v && s'.d == s.d
  {
    if e then s.(r := s.r[q := v]) else s.(l := s.l[q := v])
  }

  function SetDad(s: Links, k: nat, v: nat): (s': Links)
    requires Shape(s) && k <= N
    ensures Shape(s') && s'.d[k] == v && s'.l == s.l && s'.r == s.r
  {
    s.(d := s.d[k := v])
  }

  /** A tree hanging at a root. */
  predicate Hangs(t: Tree, c: nat, s: Links)
    requires Shape(s) && c < 256
  {
    Rep(t, s.r[Root(c)], Root(c), s) && Distinct(t) && forall k :: k in Nodes(t) ==> k < N
  }

  /** `t'` hangs at root `c` instead of `t`; all links that belong to neither are kept. */
  predicate Rehung(t: Tree, t': Tree, c: nat, s: Links, s': Links)
    requires Shape(s) && Shape(s') && c < 256
  {
    && Rep(t', s'.r[Root(c)], Root(c), s')
    && (forall k :: 0 <= k < N && k !in Nodes(t) && k !in Nodes(t') ==> SameAt(s, s', k))
    && (forall c' :: 0 <= c' < 256 && c' != c ==> s'.r[Root(c')] == s.r[Root(c')])
  }

  /** Attaching a new leaf at an empty place. */
  lemma Attach(t: Tree, path: Path, r: nat, c: nat, s: Links)
    requires Shape(s) && c < 256 && Hangs(t, c, s) && IsPath(t, path) && At(t, path) == Leaf
    requires r < N && r !in Nodes(t) && s.l[r] == NIL && s.r[r] == NIL
    ensures var q, e := HoleParent(t, path, Root(c)), HoleDir(path, true);
            && Place(q, e)
            && Rehung(t, Subst(t, path, Node(Leaf, r, Leaf)), c, s, SetDad(SetChild(s, q, e, r), r, q))
  {
    RepAt(t, path, Root(c), true, s);
    var q, e := HoleParent(t, path, Root(c)), HoleDir(path, true);
    var s' := SetDad(SetChild(s, q, e, r), r, q);
    assert Rep(Node(Leaf, r, Leaf), r, q, s');
    RootHole(t, path, c, s);
    RepSubst(t, path, Node(Leaf, r, Leaf), Root(c), true, s, s');
    SubstNodes(t, path, Node(Leaf, r, Leaf));
  }

  /** Only the empty path leads to a place at the root itself. */
  lemma RootHole(t: Tree, path: Path, c: nat, s: Links)
    requires Shape(s) && c < 256 && Hangs(t, c, s) && IsPath(t, path)
    ensures HoleParent(t, path, Root(c)) == Root(c) <==> path == []
  {
    RepAt(t, path, Root(c), true, s);
  }

  /** The place of a subtree lies outside it, and holds it on one side only. */
  lemma {:induction false} HoleOutside(t: Tree, path: Path, parent: nat, dir: bool, s: Links)
    requires Shape(s) && Place(parent, dir) && IsPath(t, path) && Distinct(t) && parent !in Nodes(t)
    requires Rep(t, Child(s, parent, dir), parent, s)
    requires At(t, path).Node?
    ensures var q, e := HoleParent(t, path, parent), HoleDir(path, dir);
            && Place(q, e) && q !in Nodes(At(t, path))
            && (path != [] && !e ==> s.r[q] != At(t, path).key)
    decreases |path|
  {
    if path != [] {
      var child := if path[0] then t.right else t.left;
      assert HoleDir(path, dir) == HoleDir(path[1..], path[0]);
      HoleOutside(child, path[1..], t.key, path[0], s);
      AtNodes(child, path[1..]);
      assert At(t, path).key in Nodes(child);
      assert t.right.Node? ==> t.right.key in Nodes(t.right);
    }
  }

  function SetLeft(s: Links, k: nat, v: nat): (s': Links)
    requires Shape(s) && k <= N
    ensures Shape(s') && s'.d == s.d && s'.r == s.r
  {
    s.(l := s.l[k := v])
  }

  function SetRight(s: Links, k: nat, v: nat): (s': Links)
    requires Shape(s) && k < N + 257
    ensures Shape(s') && s'.d == s.d && s'.l == s.l
  {
    s.(r := s.r[k := v])
  }

  /** Let the parent of `p` point to `v` instead. */
  function Redirect(s: Links, p: nat, v: nat): (s': Links)
    requires Shape(s) && p < N && s.d[p] < N + 257 && (s.r[s.d[p]] != p ==> s.d[p] < N)
    ensures Shape(s')
  {
    if s.r[s.d[p]] == p then SetRight(s, s.d[p], v) else SetLeft(s, s.d[p], v)
  }

  /** The last steps of removing `p`: `q` takes its place. */
  function TakePlace(s: Links, p: nat, q: nat): (s': Links)
    requires Shape(s) && p < N && q <= N && p != q && s.d[p] < N + 257 && (s.r[s.d[p]] != p ==> s.d[p] < N)
    ensures Shape(s')
  {
    SetDad(Redirect(SetDad(s, q, s.d[p]), p, q), p, NIL)
  }

  /** A tree is represented, whatever the parent of its root says. */
  predicate RepBelow(t: Tree, p: nat, s: Links)
    requires Shape(s)
  {
    match t
    case Leaf => p == NIL
    case Node(left, k, right) => p == k && k < N && Rep(left, s.l[k], k, s) && Rep(right, s.r[k], k, s)
  }

  /** Outside the old and the new subtree the links are unchanged, and so is the parent of the old root. */
  predicate Inside(sub: Tree, sub': Tree, s: Links, s1: Links)
    requires Shape(s) && Shape(s1) && sub.Node? && sub.key < N
  {
    && (forall k :: 0 <= k < N && k !in Nodes(sub) && k !in Nodes(sub') ==> SameAt(s, s1, k))
    && (forall c :: 0 <= c < 256 ==> s1.r[Root(c)] == s.r[Root(c)])
    && s1.d[sub.key] == s.d[sub.key]
  }

  /** The subtree at `path` has been rebuilt as `sub'` around a new root `q`; only the old root `p`
      has still to give up its place. */
  predicate Rebuilt(t: Tree, path: Path, c: nat, s: Links, s1: Links, q: nat, sub': Tree)
    requires Shape(s) && Shape(s1) && c < 256
  {
    && Hangs(t, c, s) && IsPath(t, path) && At(t, path).Node? && At(t, path).key < N
    && Inside(At(t, path), sub', s, s1)
    && RepBelow(sub', q, s1) && Distinct(sub') && At(t, path).key !in Nodes(sub')
    && (forall k :: k in Nodes(sub') ==> k < N && (k in Nodes(At(t, path)) || k !in Nodes(t)))
  }

  /** Where the old root hangs, before and after the rebuilding. */
  lemma OldPlace(t: Tree, path: Path, c: nat, s: Links, s1: Links, q: nat, sub': Tree)
    requires Shape(s) && Shape(s1) && c < 256 && Rebuilt(t, path, c, s, s1, q, sub')
    ensures var p, hp, e := At(t, path).key, HoleParent(t, path, Root(c)), HoleDir(path, true);
            && p in Nodes(t) && p != q && q <= N && (q < N ==> q in Nodes(sub'))
            && s1.d[p] == hp && Place(hp, e) && (s1.r[hp] == p <==> e)
            && hp !in Nodes(At(t, path)) && hp !in Nodes(sub')
            && (if path == [] then hp == Root(c) else hp in Nodes(t))
  {
    RepAt(t, path, Root(c), true, s);
    HoleOutside(t, path, Root(c), true, s);
    AtNodes(t, path);
    var hp := HoleParent(t, path, Root(c));
    assert hp < N ==> SameAt(s, s1, hp);
  }

  /** Letting `q` take the place of the old root puts `sub'` into the whole tree. */
  lemma TakesPlace(t: Tree, path: Path, c: nat, s: Links, s1: Links, q: nat, sub': Tree)
    requires Shape(s) && Shape(s1) && c < 256 && Rebuilt(t, path, c, s, s1, q, sub')
    ensures var p := At(t, path).key;
            && p != q && q <= N && s1.d[p] < N + 257 && (s1.r[s1.d[p]] != p ==> s1.d[p] < N)
            && TakePlace(s1, p, q).d[p] == NIL
            && Rehung(t, Subst(t, path, sub'), c, s, TakePlace(s1, p, q))
  {
    OldPlace(t, path, c, s, s1, q, sub');
    var p, hp, e := At(t, path).key, HoleParent(t, path, Root(c)), HoleDir(path, true);
    var s' := TakePlace(s1, p, q);
    assert Child(s', hp, e) == q;
    TakesPlaceBelow(t, path, c, s, s1, q, sub');
    TakesPlaceHole(t, path, c, s, s1, q, sub');
    RepSubst(t, path, sub', Root(c), true, s, s');
    TakesPlaceElsewhere(t, path, c, s, s1, q, sub');
  }

  lemma TakesPlaceElsewhere(t: Tree, path: Path, c: nat, s: Links, s1: Links, q: nat, sub': Tree)
    requires Shape(s) && Shape(s1) && c < 256 && Rebuilt(t, path, c, s, s1, q, sub')
    requires var p := At(t, path).key;
             p != q && q <= N && s1.d[p] < N + 257 && (s1.r[s1.d[p]] != p ==> s1.d[p] < N)
    ensures var s' := TakePlace(s1, At(t, path).key, q);
            && (forall k :: 0 <= k < N && k !in Nodes(t) && k !in Nodes(Subst(t, path, sub')) ==> SameAt(s, s', k))
            && (forall c' :: 0 <= c' < 256 && c' != c ==> s'.r[Root(c')] == s.r[Root(c')])
  {
    OldPlace(t, path, c, s, s1, q, sub');
    AtNodes(t, path);
    SubstNodes(t, path, sub');
    var s' := TakePlace(s1, At(t, path).key, q);
    forall k | 0 <= k < N && k !in Nodes(t) && k !in Nodes(Subst(t, path, sub'))
      ensures SameAt(s, s', k)
    {
      assert SameAt(s, s1, k);
    }
  }

  lemma TakesPlaceHole(t: Tree, path: Path, c: nat, s: Links, s1: Links, q: nat, sub': Tree)
    requires Shape(s) && Shape(s1) && c < 256 && Rebuilt(t, path, c, s, s1, q, sub')
    requires var p := At(t, path).key;
             p != q && q <= N && s1.d[p] < N + 257 && (s1.r[s1.d[p]] != p ==> s1.d[p] < N)
    ensures OnlyHole(t, path, Root(c), true, s, TakePlace(s1, At(t, path).key, q))
  {
    OldPlace(t, path, c, s, s1, q, sub');
    var p, hp, e := At(t, path).key, HoleParent(t, path, Root(c)), HoleDir(path, true);
    var s' := TakePlace(s1, p, q);
    forall k | k in Nodes(t) && k !in Nodes(At(t, path)) && k < N
      ensures s'.d[k] == s.d[k] && (s'.l[k] == s.l[k] || (k == hp && !e)) && (s'.r[k] == s.r[k] || (k == hp && e))
    {
      assert SameAt(s, s1, k);
      assert p in Nodes(At(t, path));
    }
  }

  lemma TakesPlaceBelow(t: Tree, path: Path, c: nat, s: Links, s1: Links, q: nat, sub': Tree)
    requires Shape(s) && Shape(s1) && c < 256 && Rebuilt(t, path, c, s, s1, q, sub')
    requires var p := At(t, path).key;
             p != q && q <= N && s1.d[p] < N + 257 && (s1.r[s1.d[p]] != p ==> s1.d[p] < N)
    ensures Rep(sub', q, HoleParent(t, path, Root(c)), TakePlace(s1, At(t, path).key, q))
  {
    OldPlace(t, path, c, s, s1, q, sub');
    if sub'.Node? {
      var s' := TakePlace(s1, At(t, path).key, q);
      forall k | k in Nodes(sub') && k != q
        ensures SameAt(s1, s', k)
      {
      }
      RepFrame(sub'.left, s1.l[q], q, s1, s');
      RepFrame(sub'.right, s1.r[q], q, s1, s');
    }
  }

  lemma {:induction false} SubstNodes(t: Tree, path: Path, sub: Tree)
    requires IsPath(t, path)
    ensures forall x :: x in Nodes(sub) ==> x in Nodes(Subst(t, path, sub))
    ensures forall x :: x in Nodes(t) ==> x in Nodes(Subst(t, path, sub)) || x in Nodes(At(t, path))
  {
    if path != [] {
      SubstNodes(if path[0] then t.right else t.left, path[1..], sub);
    }
  }

  // ----- The inner steps -----

  /** `r` takes over both subtrees of `p`. */
  function CopyNode(s: Links, p: nat, r: nat): (s': Links)
    requires Shape(s) && p < N && r < N && p != r && s.l[p] <= N && s.r[p] <= N
    ensures Shape(s')
  {
    var s1 := SetRight(SetLeft(s, r, s.l[p]), r, s.r[p]);
    SetDad(SetDad(s1, s.l[p], r), s.r[p], r)
  }

  lemma {:induction false} RepPointer(t: Tree, p: nat, parent: nat, s: Links)
    requires Shape(s) && Rep(t, p, parent, s)
    ensures p <= N && (t.Node? <==> p != NIL) && (t.Node? ==> p in Nodes(t))
  {
  }

  lemma {:induction false} AtDistinct(t: Tree, path: Path)
    requires IsPath(t, path) && Distinct(t)
    ensures Distinct(At(t, path))
  {
    if path != [] {
      AtDistinct(if path[0] then t.right else t.left, path[1..]);
    }
  }

  /** The subtree at a path as it lies in the arrays. */
  lemma SubtreeAt(t: Tree, path: Path, c: nat, s: Links)
    requires Shape(s) && c < 256 && Hangs(t, c, s) && IsPath(t, path) && At(t, path).Node?
    ensures var sub := At(t, path);
            && sub.key < N && Distinct(sub) && Nodes(sub) <= Nodes(t)
            && Rep(sub.left, s.l[sub.key], sub.key, s) && Rep(sub.right, s.r[sub.key], sub.key, s)
            && s.l[sub.key] <= N && s.r[sub.key] <= N
  {
    RepAt(t, path, Root(c), true, s);
    AtNodes(t, path);
    AtDistinct(t, path);
    var sub := At(t, path);
    RepPointer(sub.left, s.l[sub.key], sub.key, s);
    RepPointer(sub.right, s.r[sub.key], sub.key, s);
  }

  lemma CopyLeft(left: Tree, right: Tree, p: nat, s: Links, r: nat)
    requires Shape(s) && p < N && Distinct(left) && Nodes(left) !! Nodes(right)
    requires r < N && p != r && r !in Nodes(left) && s.l[p] <= N && s.r[p] <= N
    requires Rep(left, s.l[p], p, s) && Rep(right, s.r[p], p, s)
    ensures Rep(left, s.l[p], r, CopyNode(s, p, r))
  {
    RepPointer(left, s.l[p], p, s);
    RepPointer(right, s.r[p], p, s);
    RepReparent(left, s.l[p], p, r, s, CopyNode(s, p, r));
  }

  lemma CopyRight(left: Tree, right: Tree, p: nat, s: Links, r: nat)
    requires Shape(s) && p < N && Distinct(right) && Nodes(left) !! Nodes(right)
    requires r < N && p != r && r !in Nodes(right) && s.l[p] <= N && s.r[p] <= N
    requires Rep(left, s.l[p], p, s) && Rep(right, s.r[p], p, s)
    ensures Rep(right, s.r[p], r, CopyNode(s, p, r))
  {
    RepPointer(left, s.l[p], p, s);
    RepPointer(right, s.r[p], p, s);
    RepReparent(right, s.r[p], p, r, s, CopyNode(s, p, r));
  }

  /** Preparing the replacement of the node at `path` by `r`. */
  lemma CopyRebuilds(t: Tree, path: Path, c: nat, s: Links, r: nat)
    requires Shape(s) && c < 256 && Hangs(t, c, s) && IsPath(t, path) && At(t, path).Node?
    requires r < N && r !in Nodes(t)
    ensures var sub := At(t, path); var p := sub.key;
            && p < N && p != r && s.l[p] <= N && s.r[p] <= N
            && Rebuilt(t, path, c, s, CopyNode(s, p, r), r, Node(sub.left, r, sub.right))
  {
    hide Rep, IsPath, At;
    SubtreeAt(t, path, c, s);
    var sub := At(t, path);
    var p, s1 := sub.key, CopyNode(s, sub.key, r);
    assert p in Nodes(sub);
    CopyLeft(sub.left, sub.right, p, s, r);
    CopyRight(sub.left, sub.right, p, s, r);
    RepPointer(sub.left, s.l[p], p, s);
    RepPointer(sub.right, s.r[p], p, s);
    assert Inside(sub, Node(sub.left, r, sub.right), s, s1);
  }

  /** An only subtree can move up as it is. */
  lemma OnlySonRebuilds(t: Tree, path: Path, c: nat, s: Links)
    requires Shape(s) && c < 256 && Hangs(t, c, s) && IsPath(t, path) && At(t, path).Node?
    requires At(t, path).left == Leaf || At(t, path).right == Leaf
    ensures var sub := At(t, path);
            && sub.key < N
            && Rebuilt(t, path, c, s, s, if sub.right == Leaf then s.l[sub.key] else s.r[sub.key], DeleteRoot(sub))
  {
    SubtreeAt(t, path, c, s);
  }

  /** The node `q` gives its place to its left son. */
  function Unhook(s: Links, q: nat): (s': Links)
    requires Shape(s) && q < N && s.d[q] < N && s.l[q] <= N
    ensures Shape(s')
  {
    SetDad(SetRight(s, s.d[q], s.l[q]), s.l[q], s.d[q])
  }

  /** `q` takes over the left, and then the right, subtree of `p`. */
  function AdoptLeft(s: Links, p: nat, q: nat): (s': Links)
    requires Shape(s) && p < N && q < N && s.l[p] <= N
    ensures Shape(s')
  {
    SetDad(SetLeft(s, q, s.l[p]), s.l[p], q)
  }

  function AdoptRight(s: Links, p: nat, q: nat): (s': Links)
    requires Shape(s) && p < N && q < N && s.r[p] <= N
    ensures Shape(s')
  {
    SetDad(SetRight(s, q, s.r[p]), s.r[p], q)
  }

  /** The left son has no right son of its own: it adopts the right subtree. */
  lemma LeftSonRebuilds(t: Tree, path: Path, c: nat, s: Links)
    requires Shape(s) && c < 256 && Hangs(t, c, s) && IsPath(t, path) && At(t, path).Node?
    requires At(t, path).left.Node? && At(t, path).left.right == Leaf && At(t, path).right.Node?
    ensures var sub := At(t, path); var p := sub.key;
            && p < N && s.l[p] < N && s.r[p] < N && s.r[s.l[p]] == NIL
            && Rebuilt(t, path, c, s, AdoptRight(s, p, s.l[p]), s.l[p], DeleteRoot(sub))
  {
    hide At, IsPath;
    SubtreeAt(t, path, c, s);
    var sub := At(t, path);
    var p, q := sub.key, s.l[sub.key];
    var s1 := AdoptRight(s, p, q);
    RepPointer(sub.right, s.r[p], p, s);
    assert q in Nodes(sub.left);
    RepFrame(sub.left.left, s.l[q], q, s, s1);
    RepReparent(sub.right, s.r[p], p, q, s, s1);
  }

  /** The right spine of a tree, down to a node without a right son. */
  predicate Spine(t: Tree, path: Path) {
    IsPath(t, path) && At(t, path).Node? && forall i :: 0 <= i < |path| ==> path[i]
  }

  lemma {:induction false} SpineEnd(t: Tree, path: Path)
    requires Spine(t, path) && At(t, path).right == Leaf
    ensures RemoveMax(t) == Subst(t, path, At(t, path).left) && Max(t) == At(t, path).key
  {
    if path != [] {
      SpineEnd(t.right, path[1..]);
    }
  }

  lemma {:induction false} RemoveMaxNodes(t: Tree)
    requires t.Node? && Distinct(t)
    ensures Max(t) in Nodes(t) && Distinct(RemoveMax(t))
    ensures forall x :: x in Nodes(RemoveMax(t)) <==> x in Nodes(t) && x != Max(t)
  {
    if t.right != Leaf {
      RemoveMaxNodes(t.right);
    }
  }

  /** Taking the maximum out of a left subtree below `p`. */
  lemma UnhookMax(t: Tree, path: Path, p: nat, s: Links)
    requires Shape(s) && p < N && p !in Nodes(t) && Distinct(t) && Rep(t, s.l[p], p, s)
    requires path != [] && Spine(t, path) && At(t, path).right == Leaf
    ensures var q := At(t, path).key;
            && q < N && s.d[q] < N && s.l[q] <= N && q == Max(t) && q in Nodes(t) && s.d[q] in Nodes(t) && s.d[q] != q
            && (s.l[q] < N ==> s.l[q] in Nodes(t)) && s.l[q] != q && s.l[p] != q
            && Rep(RemoveMax(t), Unhook(s, q).l[p], p, Unhook(s, q))
  {
    RepAt(t, path, p, false, s);
    AtNodes(t, path);
    AtDistinct(t, path);
    HoleOutside(t, path, p, false, s);
    SpineEnd(t, path);
    var sub := At(t, path);
    var q, hp := sub.key, HoleParent(t, path, p);
    assert q in Nodes(sub) && HoleDir(path, false);
    RepPointer(sub.left, s.l[q], q, s);
    RepNode(t, s.l[p], p, s, hp);
    assert s.d[q] == hp;
    var s1 := Unhook(s, q);
    RepReparent(sub.left, s.l[q], q, hp, s, s1);
    RepSubst(t, path, sub.left, p, false, s, s1);
    RootPointer(t, path, p, s);
  }

  /** A node below the root is not what the root's place points to. */
  lemma RootPointer(t: Tree, path: Path, p: nat, s: Links)
    requires Shape(s) && p < N && Distinct(t) && Rep(t, s.l[p], p, s)
    requires path != [] && IsPath(t, path) && At(t, path).Node?
    ensures s.l[p] != At(t, path).key
  {
    AtNodes(if path[0] then t.right else t.left, path[1..]);
    assert At(t, path).key in Nodes(At(t, path));
  }

  lemma AdoptsBoth(sub: Tree, left: Tree, q: nat, s: Links)
    requires Shape(s) && sub.Node? && sub.key < N && q < N && Distinct(sub) && Distinct(left)
    requires q in Nodes(sub.left) && q !in Nodes(left) && Nodes(left) <= Nodes(sub.left)
    requires Rep(left, s.l[sub.key], sub.key, s) && Rep(sub.right, s.r[sub.key], sub.key, s)
    ensures s.l[sub.key] <= N && s.r[sub.key] <= N
    ensures AdoptLeft(s, sub.key, q).r[sub.key] == s.r[sub.key]
    ensures RepBelow(Node(left, q, sub.right), q, AdoptRight(AdoptLeft(s, sub.key, q), sub.key, q))
  {
    var p := sub.key;
    RepPointer(left, s.l[p], p, s);
    RepPointer(sub.right, s.r[p], p, s);
    var s3 := AdoptRight(AdoptLeft(s, p, q), p, q);
    forall k | k in Nodes(left) && k != s.l[p]
      ensures SameAt(s, s3, k)
    {
      assert k !in Nodes(sub.right);
    }
    RepReparent(left, s.l[p], p, q, s, s3);
    forall k | k in Nodes(sub.right) && k != s.r[p]
      ensures SameAt(s, s3, k)
    {
      assert k !in Nodes(left) && k != q;
    }
    RepReparent(sub.right, s.r[p], p, q, s, s3);
  }

  lemma DeepInside(sub: Tree, q: nat, s: Links, s3: Links)
    requires Shape(s) && sub.Node? && sub.key < N && q < N && Distinct(sub) && q in Nodes(sub.left)
    requires s.d[q] < N && s.d[q] in Nodes(sub.left) && s.l[q] <= N && (s.l[q] < N ==> s.l[q] in Nodes(sub.left))
    requires s.l[sub.key] < N && s.l[sub.key] in Nodes(sub.left) && s.r[sub.key] < N && s.r[sub.key] in Nodes(sub.right)
    requires Shape(s3) && s3 == AdoptRight(AdoptLeft(Unhook(s, q), sub.key, q), sub.key, q)
    ensures Inside(sub, DeleteRoot(sub), s, s3)
  {
  }

  /** The maximum of the left subtree, found further down, adopts both subtrees. */
  lemma DeepRebuilds(t: Tree, path: Path, c: nat, s: Links, path2: Path)
    requires Shape(s) && c < 256 && Hangs(t, c, s) && IsPath(t, path) && At(t, path).Node?
    requires At(t, path).right.Node? && path2 != [] && Spine(At(t, path).left, path2)
    requires At(At(t, path).left, path2).right == Leaf
    ensures var sub := At(t, path); var p, q := sub.key, At(sub.left, path2).key;
            && p < N && q < N && s.d[q] < N && s.l[q] <= N
            && var s1 := Unhook(s, q);
            && s1.l[p] == s.l[p] < N && s1.r[p] == s.r[p] < N
            && var s2 := AdoptLeft(s1, p, q);
            && s2.r[p] == s.r[p]
            && Rebuilt(t, path, c, s, AdoptRight(s2, p, q), q, DeleteRoot(sub))
  {
    hide At, IsPath, Rep, RepBelow, Inside, RemoveMax, Max;
    SubtreeAt(t, path, c, s);
    var sub := At(t, path);
    var p := sub.key;
    UnhookMax(sub.left, path2, p, s);
    RemoveMaxNodes(sub.left);
    var q := At(sub.left, path2).key;
    var s1 := Unhook(s, q);
    assert s1.l == s.l && s1.r[p] == s.r[p];
    RepPointer(sub.left, s.l[p], p, s);
    RepPointer(sub.right, s.r[p], p, s);
    forall k | k in Nodes(sub.right)
      ensures SameAt(s, s1, k)
    {
      assert k !in Nodes(sub.left);
    }
    RepFrame(sub.right, s.r[p], p, s, s1);
    AdoptsBoth(sub, RemoveMax(sub.left), q, s1);
    var s3 := AdoptRight(AdoptLeft(s1, p, q), p, q);
    DeepInside(sub, q, s, s3);
  }
}
