/** The text seen through the ring buffer: where each byte of the text lies, which matches are
    genuine and which are longest. */
module SlidingWindow {
  import opened Bytes
  import opened BitIo
  import opened AdaptiveModel
  import opened SearchTree
  import opened TokenCoder
  import opened MatchFinder

  const SPACE: byte := 32

  /** The text both sides start from: one ring of it, blanks up to the first position to be coded. */
  function Preset(): (text: seq<byte>)
    ensures |text| == N && forall x :: F <= x < N ==> text[x] == SPACE
  {
    seq(F, i => 0) + seq(N - F, i => SPACE)
  }

  /** Ring position of text index `x`; index N lies at N - F, where coding starts. */
  function Ring(x: nat): (p: nat)
    ensures p < N
  {
    (x - F) % N
  }

  lemma RingNext(x: nat)
    ensures Ring(x + 1) == (Ring(x) + 1) % N
  {
  }

  lemma RingFar(h: nat)
    ensures Ring(h + F) == (Ring(h) + F) % N && Distance(Ring(h), Ring(h + F)) == N - F
  {
  }

  lemma RingBack(h: nat, x: nat)
    requires x <= h < x + N
    ensures Distance(Ring(h), Ring(x)) == h - x
  {
  }

  lemma RingAt(h: nat, p: nat)
    requires p < N && h >= Distance(Ring(h), p)
    ensures Ring(h - Distance(Ring(h), p)) == p
  {
  }

  lemma RingOffset(h: nat, d: nat, k: nat)
    requires 1 <= d <= h
    ensures ((Ring(h) - d) % N + k) % N == Ring(h + k - d)
  {
  }

  lemma DistanceNext(r: nat, p: nat)
    requires r < N && p < N && Distance(r, p) < N - 1
    ensures Distance((r + 1) % N, p) == Distance(r, p) + 1
  {
  }

  lemma DistanceZero(r: nat, p: nat)
    requires r < N && p < N
    ensures Distance(r, p) == 0 <==> r == p
  {
  }

  /** The buffer shows the text from one window of history before `h` to the end of the look-ahead,
      and mirrors what has been written over the head of the ring. */
  predicate Buffered(buf: seq<byte>, text: seq<byte>, h: nat, end: nat) {
    && |buf| == BUFFER && N <= h && end <= |text|
    && (forall x :: h - (N - F) <= x < end ==> buf[Ring(x)] == text[x])
    && (forall x :: h - (N - F) <= x < end && N + F <= x && Ring(x) < F - 1 ==> buf[Ring(x) + N] == text[x])
  }

  /** Inside the text, a window is the text. */
  lemma WindowIsText(buf: seq<byte>, text: seq<byte>, h: nat, end: nat, x: nat, k: nat)
    requires Buffered(buf, text, h, end) && h - (N - F) <= x && k < F && x + k < end
    ensures Win(buf, Ring(x))[k] == text[x + k]
  {
    if Ring(x) + k < N {
      assert Ring(x + k) == Ring(x) + k;
    } else {
      assert Ring(x + k) == Ring(x) + k - N;
      assert x + k >= N + F;
    }
  }

  // ----- The set of nodes -----

  /** All nodes lie within one window behind `r`. */
  predicate Near(nodes: set<nat>, r: nat) {
    forall p :: p in nodes ==> p < N && Distance(r, p) <= N - F
  }

  /** `p` stands for text index `x`: it is no farther away and has the same window. */
  predicate StandsFor(buf: seq<byte>, h: nat, x: nat, p: nat)
    requires |buf| == BUFFER
  {
    p < N && Distance(Ring(h), p) <= h - x && Win(buf, p) == Win(buf, Ring(x))
  }

  predicate Represented(nodes: set<nat>, buf: seq<byte>, h: nat, x: nat)
    requires |buf| == BUFFER
  {
    exists p :: p in nodes && StandsFor(buf, h, x, p)
  }

  /** Every index of the real text in reach has a node standing for it. */
  predicate Covered(nodes: set<nat>, buf: seq<byte>, h: nat)
    requires |buf| == BUFFER
  {
    forall x :: N <= x <= h && h - x <= N - F ==> Represented(nodes, buf, h, x)
  }

  /** Replacing ring position `s` by `c`, with its mirror image. */
  function Write(buf: seq<byte>, s: nat, c: byte): (buf': seq<byte>)
    requires |buf| == BUFFER && s < N
    ensures |buf'| == BUFFER
  {
    if s < F - 1 then buf[s := c][s + N := c] else buf[s := c]
  }

  /** Windows of positions close enough to `h` do not reach the position written next. */
  lemma WriteKeepsWindow(buf: seq<byte>, h: nat, c: byte, p: nat)
    requires |buf| == BUFFER && p < N && Distance(Ring(h), p) < N - F
    ensures Win(Write(buf, Ring(h + F), c), p) == Win(buf, p)
  {
    var s, buf' := Ring(h + F), Write(buf, Ring(h + F), c);
    forall j | p <= j < p + F
      ensures buf'[j] == buf[j]
    {
      NotReached(h, p, j - p);
    }
  }

  /** `F` places beyond `r`, the distance to `p` has grown by `F`. */
  lemma FarFrom(r: nat, p: nat, d: nat)
    requires r < N && p < N && d == Distance(r, p) < N - F
    ensures ((r + F) % N - p) % N == d + F
  {
  }

  lemma NotReached(h: nat, p: nat, k: nat)
    requires p < N && Distance(Ring(h), p) < N - F && k < F
    ensures p + k != Ring(h + F) && p + k != Ring(h + F) + N
  {
    var d := Distance(Ring(h), p);
    RingFar(h);
    FarFrom(Ring(h), p, d);
    hide Ring, Distance;
  }

  lemma WriteBuffers(buf: seq<byte>, text: seq<byte>, h: nat)
    requires Buffered(buf, text, h, h + F) && h + F < |text|
    ensures Buffered(Write(buf, Ring(h + F), text[h + F]), text, h + 1, h + F + 1)
  {
    var s := Ring(h + F);
    var buf' := Write(buf, s, text[h + F]);
    forall x | h + 1 - (N - F) <= x < h + F + 1
      ensures buf'[Ring(x)] == text[x]
      ensures N + F <= x && Ring(x) < F - 1 ==> buf'[Ring(x) + N] == text[x]
    {
      if x < h + F {
        RingBack(h + F, x);
        DistanceZero(s, Ring(x));
      }
    }
  }

  // ----- Moving on by one byte -----

  /** What holds between deleting the oldest node and entering the next one. */
  predicate Vacated(nodes: set<nat>, buf: seq<byte>, h: nat)
    requires |buf| == BUFFER
  {
    && (forall p :: p in nodes ==> p < N && Distance(Ring(h), p) < N - F)
    && (forall x :: N <= x <= h && h - x < N - F ==> Represented(nodes, buf, h, x))
  }

  lemma DeleteOldest(nodes: set<nat>, buf: seq<byte>, h: nat)
    requires |buf| == BUFFER && Near(nodes, Ring(h)) && Covered(nodes, buf, h)
    ensures Vacated(nodes - {Ring(h + F)}, buf, h)
  {
    RingFar(h);
    var s := Ring(h + F);
    forall p | p in nodes - {s}
      ensures Distance(Ring(h), p) < N - F
    {
      if Distance(Ring(h), p) == N - F {
        SameDistance(Ring(h), p, s);
      }
    }
    forall x | N <= x <= h && h - x < N - F
      ensures Represented(nodes - {s}, buf, h, x)
    {
      assert Represented(nodes, buf, h, x);
      var p :| p in nodes && StandsFor(buf, h, x, p);
      assert p in nodes - {s};
    }
  }

  lemma SameDistance(r: nat, p: nat, q: nat)
    requires r < N && p < N && q < N && Distance(r, p) == Distance(r, q)
    ensures p == q
  {
  }

  lemma WriteBetween(nodes: set<nat>, buf: seq<byte>, h: nat, c: byte)
    requires |buf| == BUFFER && Vacated(nodes, buf, h)
    ensures Vacated(nodes, Write(buf, Ring(h + F), c), h)
  {
    var buf' := Write(buf, Ring(h + F), c);
    forall x | N <= x <= h && h - x < N - F
      ensures Represented(nodes, buf', h, x)
    {
      assert Represented(nodes, buf, h, x);
      var p :| p in nodes && StandsFor(buf, h, x, p);
      RingBack(h, x);
      WriteKeepsWindow(buf, h, c, p);
      WriteKeepsWindow(buf, h, c, Ring(x));
      assert StandsFor(buf', h, x, p);
    }
  }

  /** The node set just before `h` is entered. */
  predicate Ahead(nodes: set<nat>, buf: seq<byte>, h: nat)
    requires |buf| == BUFFER
  {
    && Near(nodes, Ring(h)) && Ring(h) !in nodes
    && (forall x :: N <= x < h && h - x <= N - F ==> Represented(nodes, buf, h, x))
  }

  lemma StepAhead(nodes: set<nat>, buf: seq<byte>, h: nat)
    requires |buf| == BUFFER && Vacated(nodes, buf, h)
    ensures Ahead(nodes, buf, h + 1)
  {
    RingNext(h);
    forall p | p in nodes
      ensures Distance(Ring(h + 1), p) == Distance(Ring(h), p) + 1
    {
      DistanceNext(Ring(h), p);
    }
    DistanceZero(Ring(h + 1), Ring(h + 1));
    var next := h + 1;
    forall x | N <= x < next && next - x <= N - F
      ensures Represented(nodes, buf, next, x)
    {
      assert Represented(nodes, buf, h, x);
      var p :| p in nodes && StandsFor(buf, h, x, p);
      assert StandsFor(buf, next, x, p);
    }
  }

  /** Entering the window at `h`: nodes with the same window give way to it. */
  lemma EnterCovers(nodes: set<nat>, nodes': set<nat>, buf: seq<byte>, h: nat)
    requires |buf| == BUFFER && Ahead(nodes, buf, h)
    requires forall x :: x in nodes' <==> x == Ring(h) || (x in nodes && x < N && Win(buf, x) != Win(buf, Ring(h)))
    ensures Near(nodes', Ring(h)) && Covered(nodes', buf, h)
  {
    DistanceZero(Ring(h), Ring(h));
    assert Ring(h) in nodes';
    forall x | N <= x <= h && h - x <= N - F
      ensures Represented(nodes', buf, h, x)
    {
      if x == h {
        assert StandsFor(buf, h, x, Ring(h));
      } else {
        assert Represented(nodes, buf, h, x);
        var p :| p in nodes && StandsFor(buf, h, x, p);
        if Win(buf, p) == Win(buf, Ring(h)) {
          assert StandsFor(buf, h, x, Ring(h));
        } else {
          assert p in nodes';
        }
      }
    }
  }

  // ----- Matches -----

  /** `d` bytes back the text repeats for `n` bytes. */
  predicate Repeats(text: seq<byte>, h: nat, d: nat, n: nat) {
    d <= h && h + n <= |text| && forall y :: h <= y < h + n ==> text[y - d] == text[y]
  }

  /** No position of the real text within reach repeats for more than `n` bytes, and a repetition
      of up to the threshold counts for nothing. */
  predicate Longest(text: seq<byte>, h: nat, end: nat, n: nat) {
    forall d: nat, m: nat :: 1 <= d <= N - F && N + d <= h && m <= F && h + m <= end <= |text| && Repeats(text, h, d, m)
                             ==> m <= n || m <= THRESHOLD
  }

  /** What the match finder reports for the string at `h`, as far as the look-ahead goes. */
  predicate Found(text: seq<byte>, h: nat, end: nat, length: nat, position: int) {
    && h <= end <= |text|
    && (length > 0 ==> length > THRESHOLD && 1 <= position <= N - F && length <= F
                       && Repeats(text, h, position, if h + length <= end then length else end - h))
    && Longest(text, h, end, length)
  }

  lemma MatchRepeats(buf: seq<byte>, text: seq<byte>, h: nat, end: nat, p: nat, n: nat, d: int)
    requires Buffered(buf, text, h, end) && h <= end && p < N && p != Ring(h) && Distance(Ring(h), p) <= N - F
    requires IsMatch(buf, Ring(h), p, n, d)
    ensures 1 <= d <= N - F && n <= F && Repeats(text, h, d, if h + n <= end then n else end - h)
  {
    hide Ring, Distance, Common, Buffered, IsMatch, Win;
    MatchPlace(buf, text, h, end, p, n, d);
    var m := if h + n <= end then n else end - h;
    forall y | h <= y < h + m
      ensures text[y - d] == text[y]
    {
      WindowIsText(buf, text, h, end, h, y - h);
      WindowIsText(buf, text, h, end, h - d, y - h);
      assert Win(buf, Ring(h))[y - h] == Win(buf, p)[y - h];
    }
  }

  lemma MatchPlace(buf: seq<byte>, text: seq<byte>, h: nat, end: nat, p: nat, n: nat, d: int)
    requires Buffered(buf, text, h, end) && h <= end && p < N && p != Ring(h) && Distance(Ring(h), p) <= N - F
    requires IsMatch(buf, Ring(h), p, n, d)
    ensures |buf| == BUFFER && Ring(h) < N <= h && end <= |text| && 1 <= d <= N - F && n <= F && Ring(h - d) == p
    ensures forall k :: 0 <= k < n ==> Win(buf, Ring(h))[k] == Win(buf, p)[k]
  {
    DistanceZero(Ring(h), p);
    RingAt(h, p);
    hide Ring, Distance, Win, Common;
    assert PartAt(Win(buf, Ring(h)), Win(buf, p), n);
  }

  lemma RepeatIsCommon(buf: seq<byte>, text: seq<byte>, h: nat, end: nat, p: nat, d: nat, m: nat)
    requires Buffered(buf, text, h, end) && 1 <= d <= N - F && N + d <= h && m <= F && h + m <= end
    requires Repeats(text, h, d, m) && StandsFor(buf, h, h - d, p)
    ensures m <= Common(Win(buf, Ring(h)), Win(buf, p))
  {
    var c := Common(Win(buf, Ring(h)), Win(buf, p));
    if c < m {
      WindowIsText(buf, text, h, end, h, c);
      WindowIsText(buf, text, h, end, h - d, c);
    }
  }

  /** The match finder's report, read in terms of the text. */
  lemma SearchFinds(nodes: set<nat>, buf: seq<byte>, text: seq<byte>, h: nat, end: nat, n: nat, d: int)
    requires Buffered(buf, text, h, end) && h <= end && Ahead(nodes, buf, h)
    requires forall x :: x in nodes && x < N ==> AtMost(buf, Ring(h), x, n)
    requires n > 0 ==> exists x :: x in nodes && x < N && IsMatch(buf, Ring(h), x, n, d)
    ensures Found(text, h, end, n, d)
  {
    if n > 0 {
      var x :| x in nodes && x < N && IsMatch(buf, Ring(h), x, n, d);
      MatchRepeats(buf, text, h, end, x, n, d);
    }
    forall e: nat, m: nat | 1 <= e <= N - F && N + e <= h && m <= F && h + m <= end <= |text| && Repeats(text, h, e, m)
      ensures m <= n || m <= THRESHOLD
    {
      assert Represented(nodes, buf, h, h - e);
      var p :| p in nodes && StandsFor(buf, h, h - e, p);
      RepeatIsCommon(buf, text, h, end, p, e, m);
      assert AtMost(buf, Ring(h), p, n);
    }
  }

  /** The token the encoder makes of the report, the match cut to the look-ahead. */
  function Choose(text: seq<byte>, h: nat, end: nat, length: nat, position: int): Token
    requires h < end <= |text| && (length > 0 ==> position >= 1)
  {
    var n := if h + length <= end then length else end - h;
    if n <= THRESHOLD then Literal(text[h]) else Match(n, position)
  }

  lemma ChoiceIsGreedy(text: seq<byte>, h: nat, end: nat, length: nat, position: int)
    requires N <= h < end <= |text| && (end == |text| || end == h + F) && Found(text, h, end, length, position)
    ensures Greedy(text, h, Choose(text, h, end, length, position))
  {
    var n := if h + length <= end then length else end - h;
    forall d: nat, m: nat | 1 <= d <= N - F && N + d <= h && m <= F && h + m <= |text| && Repeats(text, h, d, m)
      ensures m <= n || m <= THRESHOLD
    {
      assert h + m <= end;
    }
  }

  /** The greedy rule: a match is genuine and no longer one is in reach; a literal is chosen only
      if nothing in reach repeats beyond the threshold. */
  predicate Greedy(text: seq<byte>, h: nat, t: Token) {
    match t
    case Literal(c) => h < |text| && c == text[h] && Longest(text, h, |text|, THRESHOLD)
    case Match(length, distance) =>
      && THRESHOLD < length <= F && 1 <= distance <= N - F
      && Repeats(text, h, distance, length) && Longest(text, h, |text|, length)
  }

  function TokenLength(t: Token): nat {
    match t
    case Literal(_) => 1
    case Match(length, _) => length
  }

  /** A greedy token reproduces the next bytes of the text. */
  lemma GreedyApplies(text: seq<byte>, h: nat, t: Token)
    requires N <= h < |text| && Greedy(text, h, t)
    ensures ValidToken(t) && h + TokenLength(t) <= |text| && Apply(text[..h], t) == text[..h + TokenLength(t)]
  {
    if t.Match? {
      CopyRepeats(text, h, t.length, t.distance);
    } else {
      assert text[..h] + [text[h]] == text[..h + 1];
    }
  }

  lemma {:induction false} CopyRepeats(text: seq<byte>, h: nat, n: nat, d: nat)
    requires 1 <= d <= h && Repeats(text, h, d, n)
    ensures CopyBack(text[..h], n, d) == text[..h + n]
    decreases n
  {
    if n > 0 {
      assert text[..h] + [text[h]] == text[..h + 1];
      assert text[h - d] == text[h];
      CopyRepeats(text, h + 1, n - 1, d);
    }
  }
}
