/** Binary search trees over the windows of the ring buffer, as values. */
module SearchTree {
  import opened Bytes
  import opened BitIo
  import opened AdaptiveModel

  // ----- Windows and their order -----

  const BUFFER := N + F - 1

  /** The `F` bytes from position `p` of the ring buffer and its mirrored head. */
  function Win(buf: seq<byte>, p: nat): (w: seq<byte>)
    requires |buf| == BUFFER && p < N
    ensures |w| == F
  {
    buf[p..p + F]
  }

  /** `c` is where two strings part: equal before it and different at it, if it is not the end. */
  predicate PartAt(u: seq<byte>, v: seq<byte>, c: nat)
    requires |u| == |v|
  {
    c <= |u| && (forall i :: 0 <= i < c ==> u[i] == v[i]) && (c < |u| ==> u[c] != v[c])
  }

  /** Length of the longest common prefix. */
  function Common(u: seq<byte>, v: seq<byte>): (c: nat)
    requires |u| == |v|
    ensures PartAt(u, v, c)
  {
    CommonFrom(u, v, 0)
  }

  function CommonFrom(u: seq<byte>, v: seq<byte>, i: nat): (c: nat)
    requires |u| == |v| && i <= |u| && forall k :: 0 <= k < i ==> u[k] == v[k]
    ensures i <= c && PartAt(u, v, c)
    decreases |u| - i
  {
    if i == |u| || u[i] != v[i] then i else CommonFrom(u, v, i + 1)
  }

  lemma CommonIs(u: seq<byte>, v: seq<byte>, c: nat)
    requires |u| == |v| && PartAt(u, v, c)
    ensures Common(u, v) == c
  {
    var d := Common(u, v);
    assert PartAt(u, v, d);
  }

  lemma CommonSymmetric(u: seq<byte>, v: seq<byte>)
    requires |u| == |v|
    ensures Common(u, v) == Common(v, u)
  {
    CommonIs(v, u, Common(u, v));
  }

  /** Lexicographic order. */
  predicate Less(u: seq<byte>, v: seq<byte>)
    requires |u| == |v|
  {
    var c := Common(u, v);
    c < |u| && u[c] < v[c]
  }

  lemma Trichotomy(u: seq<byte>, v: seq<byte>)
    requires |u| == |v|
    ensures Common(u, v) == |u| <==> u == v
    ensures u != v ==> (Less(u, v) <==> !Less(v, u))
    ensures !Less(u, u)
  {
    CommonSymmetric(u, v);
    var c := Common(u, v);
    if u == v {
      CommonIs(u, v, |u|);
    }
    CommonIs(u, u, |u|);
  }

  /** The order is transitive, and the prefix shared by the outer two strings is the shorter of
      the prefixes they share with the middle one. */
  lemma Between(u: seq<byte>, v: seq<byte>, w: seq<byte>)
    requires |u| == |v| == |w| && Less(u, v) && Less(v, w)
    ensures Less(u, w) && Common(u, w) == if Common(u, v) < Common(v, w) then Common(u, v) else Common(v, w)
  {
    var a, b := Common(u, v), Common(v, w);
    CommonIs(u, w, if a < b then a else b);
  }

  // ----- Trees -----

  datatype Tree = Leaf | Node(left: Tree, key: nat, right: Tree)

  function Nodes(t: Tree): set<nat> {
    match t
    case Leaf => {}
    case Node(l, k, r) => Nodes(l) + {k} + Nodes(r)
  }

  predicate Ordered(t: Tree, buf: seq<byte>)
    requires |buf| == BUFFER
  {
    match t
    case Leaf => true
    case Node(l, k, r) =>
      && k < N && Ordered(l, buf) && Ordered(r, buf)
      && (forall x :: x in Nodes(l) ==> x < N && Less(Win(buf, x), Win(buf, k)))
      && (forall x :: x in Nodes(r) ==> x < N && Less(Win(buf, k), Win(buf, x)))
  }

  /** Ordering looks only at the windows of the tree's own nodes. */
  lemma {:induction false} OrderedFrame(t: Tree, buf: seq<byte>, buf': seq<byte>)
    requires |buf| == BUFFER && |buf'| == BUFFER && Ordered(t, buf)
    requires forall x :: x in Nodes(t) && x < N ==> Win(buf', x) == Win(buf, x)
    ensures Ordered(t, buf')
  {
    if t.Node? {
      OrderedFrame(t.left, buf, buf');
      OrderedFrame(t.right, buf, buf');
    }
  }

  // ----- Insertion and search -----

  /** A node with the same window is replaced, otherwise the new node becomes a leaf. */
  function Insert(t: Tree, buf: seq<byte>, r: nat): Tree
    requires |buf| == BUFFER && r < N && Ordered(t, buf)
  {
    match t
    case Leaf => Node(Leaf, r, Leaf)
    case Node(left, k, right) =>
      if Win(buf, k) == Win(buf, r) then Node(left, r, right)
      else if Less(Win(buf, k), Win(buf, r)) then Node(left, k, Insert(right, buf, r))
      else Node(Insert(left, buf, r), k, right)
  }

  lemma {:induction false} InsertNodes(t: Tree, buf: seq<byte>, r: nat)
    requires |buf| == BUFFER && r < N && Ordered(t, buf)
    ensures forall x :: x in Nodes(Insert(t, buf, r)) <==>
                        x == r || (x in Nodes(t) && x < N && Win(buf, x) != Win(buf, r))
  {
    if t.Node? {
      Trichotomy(Win(buf, t.key), Win(buf, r));
      forall x | x in Nodes(t.left)
        ensures Less(Win(buf, r), Win(buf, t.key)) || Win(buf, x) != Win(buf, r)
      {
        Trichotomy(Win(buf, x), Win(buf, t.key));
        Trichotomy(Win(buf, r), Win(buf, t.key));
      }
      forall x | x in Nodes(t.right)
        ensures Less(Win(buf, t.key), Win(buf, r)) || Win(buf, x) != Win(buf, r)
      {
        Trichotomy(Win(buf, x), Win(buf, t.key));
      }
      if Win(buf, t.key) == Win(buf, r) {
      } else if Less(Win(buf, t.key), Win(buf, r)) {
        InsertNodes(t.right, buf, r);
      } else {
        InsertNodes(t.left, buf, r);
      }
    }
  }

  lemma {:induction false} InsertOrdered(t: Tree, buf: seq<byte>, r: nat)
    requires |buf| == BUFFER && r < N && Ordered(t, buf)
    ensures Ordered(Insert(t, buf, r), buf)
  {
    if t.Node? {
      Trichotomy(Win(buf, t.key), Win(buf, r));
      if Win(buf, t.key) == Win(buf, r) {
      } else if Less(Win(buf, t.key), Win(buf, r)) {
        InsertOrdered(t.right, buf, r);
        InsertNodes(t.right, buf, r);
      } else {
        InsertOrdered(t.left, buf, r);
        InsertNodes(t.left, buf, r);
      }
    }
  }

  /** A match found so far: its length (0 for none) and the distance back to it. */
  datatype Best = Best(length: nat, position: int)

  /** Distance in the ring from node `p` back from `r`, the program's `(r - p) & (N - 1)`. */
  function Distance(r: nat, p: nat): nat {
    (r - p) % N
  }

  /** What a node sharing `c` bytes at distance `d` does to the best match: longer wins, then nearer. */
  function Visit(b: Best, c: nat, d: int): Best {
    if c > THRESHOLD && (c > b.length || (c == b.length && d < b.position)) then Best(c, d) else b
  }

  /** The best match along the search path of `r`. */
  function Search(t: Tree, buf: seq<byte>, r: nat, b: Best): Best
    requires |buf| == BUFFER && r < N && Ordered(t, buf)
  {
    match t
    case Leaf => b
    case Node(left, k, right) =>
      var b' := Visit(b, Common(Win(buf, r), Win(buf, k)), Distance(r, k));
      if Win(buf, k) == Win(buf, r) then b'
      else if Less(Win(buf, k), Win(buf, r)) then Search(right, buf, r, b')
      else Search(left, buf, r, b')
  }

  /** `n` bounds what `x` shares with `r`, short matches aside. */
  predicate AtMost(buf: seq<byte>, r: nat, x: nat, n: nat)
    requires |buf| == BUFFER && r < N && x < N
  {
    var c := Common(Win(buf, r), Win(buf, x));
    c <= n || c <= THRESHOLD
  }

  /** The search path misses no longer match: what lies off the path is separated from `r` by a
      visited node, with which it shares less. */
  lemma {:induction false} SearchLongest(t: Tree, buf: seq<byte>, r: nat, b: Best)
    requires |buf| == BUFFER && r < N && Ordered(t, buf)
    ensures Search(t, buf, r, b).length >= b.length
    ensures forall x :: x in Nodes(t) ==> x < N && AtMost(buf, r, x, Search(t, buf, r, b).length)
  {
    if t.Node? {
      var b' := Visit(b, Common(Win(buf, r), Win(buf, t.key)), Distance(r, t.key));
      Trichotomy(Win(buf, t.key), Win(buf, r));
      if Win(buf, t.key) == Win(buf, r) {
      } else if Less(Win(buf, t.key), Win(buf, r)) {
        SearchLongest(t.right, buf, r, b');
        forall x | x in Nodes(t.left)
          ensures AtMost(buf, r, x, b'.length)
        {
          Between(Win(buf, x), Win(buf, t.key), Win(buf, r));
          CommonSymmetric(Win(buf, x), Win(buf, r));
          CommonSymmetric(Win(buf, t.key), Win(buf, r));
        }
      } else {
        Trichotomy(Win(buf, r), Win(buf, t.key));
        SearchLongest(t.left, buf, r, b');
        forall x | x in Nodes(t.right)
          ensures AtMost(buf, r, x, b'.length)
        {
          Between(Win(buf, r), Win(buf, t.key), Win(buf, x));
        }
      }
    }
  }

  /** A reported match is a genuine one. */
  lemma {:induction false} SearchGenuine(t: Tree, buf: seq<byte>, r: nat, b: Best)
    requires |buf| == BUFFER && r < N && Ordered(t, buf)
    ensures var s := Search(t, buf, r, b);
            s == b || (s.length > THRESHOLD && exists x :: x in Nodes(t) && x < N && s.position == Distance(r, x)
                                                           && s.length == Common(Win(buf, r), Win(buf, x)))
  {
    if t.Node? {
      var b' := Visit(b, Common(Win(buf, r), Win(buf, t.key)), Distance(r, t.key));
      assert t.key in Nodes(t);
      if Win(buf, t.key) == Win(buf, r) {
      } else if Less(Win(buf, t.key), Win(buf, r)) {
        SearchGenuine(t.right, buf, r, b');
      } else {
        SearchGenuine(t.left, buf, r, b');
      }
    }
  }

  /** The nodes that a search for `r` meets: it ends at a node with an equal window. */
  function Met(t: Tree, buf: seq<byte>, r: nat): set<nat>
    requires |buf| == BUFFER && r < N && Ordered(t, buf)
  {
    match t
    case Leaf => {}
    case Node(left, k, right) =>
      {k} + if Win(buf, k) == Win(buf, r) then {}
            else if Less(Win(buf, k), Win(buf, r)) then Met(right, buf, r) else Met(left, buf, r)
  }

  /** `r` has as long a match with `x`, which is at distance `d`. */
  predicate Attains(buf: seq<byte>, r: nat, x: nat, n: nat, d: int)
    requires |buf| == BUFFER && r < N
  {
    x < N && n > THRESHOLD && n == Common(Win(buf, r), Win(buf, x)) && d == Distance(r, x)
  }

  /** Of the nodes met with the longest match, the nearest is reported. */
  lemma {:induction false} SearchNearest(t: Tree, buf: seq<byte>, r: nat, b: Best)
    requires |buf| == BUFFER && r < N && Ordered(t, buf)
    ensures var s := Search(t, buf, r, b);
            && b.length <= s.length && (s.length == b.length ==> s.position <= b.position)
            && (forall x :: x in Met(t, buf, r) ==> x < N && AtMost(buf, r, x, s.length))
            && (forall x, d :: x in Met(t, buf, r) && Attains(buf, r, x, s.length, d) ==> s.position <= d)
            && (s == b || exists x :: x in Met(t, buf, r) && Attains(buf, r, x, s.length, s.position))
  {
    if t.Node? {
      var b' := Visit(b, Common(Win(buf, r), Win(buf, t.key)), Distance(r, t.key));
      assert t.key in Met(t, buf, r);
      hide Win, Less, Common, Distance;
      if Win(buf, t.key) == Win(buf, r) {
      } else if Less(Win(buf, t.key), Win(buf, r)) {
        SearchNearest(t.right, buf, r, b');
      } else {
        SearchNearest(t.left, buf, r, b');
      }
      assert Attains(buf, r, t.key, b'.length, b'.position) || b' == b;
    }
  }

  // ----- Deletion -----

  function Max(t: Tree): nat
    requires t.Node?
  {
    if t.right == Leaf then t.key else Max(t.right)
  }

  function RemoveMax(t: Tree): Tree
    requires t.Node?
  {
    if t.right == Leaf then t.left else Node(t.left, t.key, RemoveMax(t.right))
  }

  /** The tree without its root: an only subtree moves up, otherwise the predecessor does. */
  function DeleteRoot(t: Tree): Tree
    requires t.Node?
  {
    if t.right == Leaf then t.left
    else if t.left == Leaf then t.right
    else Node(RemoveMax(t.left), Max(t.left), t.right)
  }

  lemma {:induction false} RemoveMaxOrdered(t: Tree, buf: seq<byte>)
    requires |buf| == BUFFER && t.Node? && Ordered(t, buf)
    ensures Ordered(RemoveMax(t), buf)
    ensures Max(t) in Nodes(t) && Max(t) < N
    ensures forall x :: x in Nodes(RemoveMax(t)) <==> x in Nodes(t) && x != Max(t)
    ensures forall x :: x in Nodes(RemoveMax(t)) ==> x < N && Less(Win(buf, x), Win(buf, Max(t)))
  {
    Trichotomy(Win(buf, t.key), Win(buf, t.key));
    if t.right != Leaf {
      RemoveMaxOrdered(t.right, buf);
      var m := Max(t.right);
      forall x | x in Nodes(t.left)
        ensures x != m && Less(Win(buf, x), Win(buf, m))
      {
        Between(Win(buf, x), Win(buf, t.key), Win(buf, m));
        Trichotomy(Win(buf, m), Win(buf, m));
      }
    } else {
      assert t.key !in Nodes(t.left);
    }
  }

  lemma DeleteRootOrdered(t: Tree, buf: seq<byte>)
    requires |buf| == BUFFER && t.Node? && Ordered(t, buf)
    ensures Ordered(DeleteRoot(t), buf)
    ensures forall x :: x in Nodes(DeleteRoot(t)) <==> x in Nodes(t) && x != t.key
  {
    DisjointSubtrees(t, buf);
    if t.left != Leaf && t.right != Leaf {
      RemoveMaxOrdered(t.left, buf);
      JoinOrdered(RemoveMax(t.left), Max(t.left), t, buf);
    }
  }

  lemma JoinOrdered(left: Tree, m: nat, t: Tree, buf: seq<byte>)
    requires |buf| == BUFFER && t.Node? && Ordered(t, buf) && Ordered(left, buf) && m in Nodes(t.left) && m < N
    requires forall x :: x in Nodes(left) ==> x < N && Less(Win(buf, x), Win(buf, m))
    ensures Ordered(Node(left, m, t.right), buf)
  {
    forall x | x in Nodes(t.right)
      ensures x < N && Less(Win(buf, m), Win(buf, x))
    {
      Between(Win(buf, m), Win(buf, t.key), Win(buf, x));
    }
  }

  // ----- Subtrees at a path -----

  /** Directions from the root; true is right. */
  type Path = seq<bool>

  predicate IsPath(t: Tree, path: Path) {
    path == [] || (t.Node? && IsPath(if path[0] then t.right else t.left, path[1..]))
  }

  function At(t: Tree, path: Path): Tree
    requires IsPath(t, path)
  {
    if path == [] then t else At(if path[0] then t.right else t.left, path[1..])
  }

  function Subst(t: Tree, path: Path, sub: Tree): Tree
    requires IsPath(t, path)
  {
    if path == [] then sub
    else if path[0] then Node(t.left, t.key, Subst(t.right, path[1..], sub))
    else Node(Subst(t.left, path[1..], sub), t.key, t.right)
  }

  lemma {:induction false} AtSnoc(t: Tree, path: Path, dir: bool)
    requires IsPath(t, path) && At(t, path).Node?
    ensures IsPath(t, path + [dir])
    ensures At(t, path + [dir]) == if dir then At(t, path).right else At(t, path).left
  {
    if path == [] {
      assert (path + [dir])[1..] == [];
    } else {
      AtSnoc(if path[0] then t.right else t.left, path[1..], dir);
      assert (path + [dir])[1..] == path[1..] + [dir];
    }
  }

  lemma {:induction false} SubstSnoc(t: Tree, path: Path, dir: bool, sub: Tree)
    requires IsPath(t, path) && At(t, path).Node? && IsPath(t, path + [dir])
    ensures var s := At(t, path);
            Subst(t, path + [dir], sub) ==
            Subst(t, path, if dir then Node(s.left, s.key, sub) else Node(sub, s.key, s.right))
  {
    if path == [] {
      assert (path + [dir])[1..] == [];
    } else {
      assert (path + [dir])[1..] == path[1..] + [dir];
      SubstSnoc(if path[0] then t.right else t.left, path[1..], dir, sub);
    }
  }

  lemma {:induction false} AtNodes(t: Tree, path: Path)
    requires IsPath(t, path)
    ensures Nodes(At(t, path)) <= Nodes(t)
  {
    if path != [] {
      AtNodes(if path[0] then t.right else t.left, path[1..]);
    }
  }

  lemma {:induction false} AtOrdered(t: Tree, path: Path, buf: seq<byte>)
    requires |buf| == BUFFER && Ordered(t, buf) && IsPath(t, path)
    ensures Ordered(At(t, path), buf)
  {
    if path != [] {
      AtOrdered(if path[0] then t.right else t.left, path[1..], buf);
    }
  }

  /** Every node of a tree is the root of the subtree at some path. */
  lemma {:induction false} PathTo(t: Tree, k: nat) returns (path: Path)
    requires k in Nodes(t)
    ensures IsPath(t, path) && At(t, path).Node? && At(t, path).key == k
  {
    if k == t.key {
      path := [];
    } else if k in Nodes(t.right) {
      var p := PathTo(t.right, k);
      path := [true] + p;
      assert path[1..] == p;
    } else {
      var p := PathTo(t.left, k);
      path := [false] + p;
      assert path[1..] == p;
    }
  }

  /** Replacing a subtree by an ordered tree over some of its nodes. */
  lemma {:induction false} SubstOrdered(t: Tree, path: Path, sub: Tree, buf: seq<byte>)
    requires |buf| == BUFFER && Ordered(t, buf) && IsPath(t, path)
    requires Ordered(sub, buf) && Nodes(sub) <= Nodes(At(t, path))
    ensures Ordered(Subst(t, path, sub), buf)
    ensures forall x :: x in Nodes(Subst(t, path, sub)) <==>
                        x in Nodes(sub) || (x in Nodes(t) && x !in Nodes(At(t, path)))
  {
    if path != [] {
      var child := if path[0] then t.right else t.left;
      AtNodes(child, path[1..]);
      SubstOrdered(child, path[1..], sub, buf);
      assert Nodes(Subst(child, path[1..], sub)) <= Nodes(child);
      DisjointSubtrees(t, buf);
    }
  }

  lemma DisjointSubtrees(t: Tree, buf: seq<byte>)
    requires |buf| == BUFFER && t.Node? && Ordered(t, buf)
    ensures t.key !in Nodes(t.left) && t.key !in Nodes(t.right) && Nodes(t.left) !! Nodes(t.right)
  {
    Trichotomy(Win(buf, t.key), Win(buf, t.key));
    forall x | x in Nodes(t.left)
      ensures x !in Nodes(t.right)
    {
      Trichotomy(Win(buf, x), Win(buf, t.key));
    }
  }
}
