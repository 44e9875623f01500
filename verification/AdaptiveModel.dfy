/** The adaptive symbol model and the fixed position model that feed the arithmetic coder. */
module AdaptiveModel {
  import opened Arithmetic
  import opened IntervalCoder

  const N := 4096
  const F := 60
  const THRESHOLD := 2
  const N_CHAR := 256 - THRESHOLD + F
  const MAX_CUM := Q1 - 1

  // ----- The model as a value -----

  /** `freq[s]` is the frequency of symbol `s` (1 .. N_CHAR, index 0 is a zero sentinel),
      `toChar[s]` the character it stands for and `toSym` the inverse table. */
  datatype Model = Model(freq: seq<nat>, toChar: seq<nat>, toSym: seq<nat>)

  /** The sum of the frequencies above index `i`. */
  function Above(freq: seq<nat>, i: nat): nat
    decreases |freq| - i
  {
    if i + 1 >= |freq| then 0 else freq[i + 1] + Above(freq, i + 1)
  }

  lemma AboveStep(freq: seq<nat>, i: nat)
    requires i < |freq|
    ensures Above(freq, i) == if i + 1 < |freq| then freq[i + 1] + Above(freq, i + 1) else 0
  {
  }

  predicate Positive(freq: seq<nat>) {
    forall i :: 1 <= i < |freq| ==> freq[i] >= 1
  }

  predicate Ranked(freq: seq<nat>) {
    && |freq| == N_CHAR + 1 && freq[0] == 0 && Positive(freq)
    && (forall i, j :: 1 <= i <= j < |freq| ==> freq[i] >= freq[j])
  }

  predicate Inverse(toChar: seq<nat>, toSym: seq<nat>) {
    && |toChar| == N_CHAR + 1 && |toSym| == N_CHAR
    && (forall c :: 0 <= c < N_CHAR ==> 1 <= toSym[c] <= N_CHAR && toChar[toSym[c]] == c)
    && (forall s :: 1 <= s <= N_CHAR ==> toChar[s] < N_CHAR && toSym[toChar[s]] == s)
  }

  predicate ValidModel(m: Model) {
    Ranked(m.freq) && Inverse(m.toChar, m.toSym) && Above(m.freq, 0) <= MAX_CUM
  }

  /** All frequencies one, symbol `c + 1` for character `c`. */
  function InitialModel(): Model {
    Model(seq(N_CHAR + 1, i => if i == 0 then 0 else 1), seq(N_CHAR + 1, i => if i == 0 then 0 else i - 1), seq(N_CHAR, (i: nat) => i + 1))
  }

  function Halve(freq: seq<nat>): seq<nat> {
    seq(|freq|, i requires 0 <= i < |freq| => (freq[i] + 1) / 2)
  }

  /** The frequencies an update starts from: halved once their total has reached the limit. */
  function Scale(freq: seq<nat>): seq<nat> {
    if Above(freq, 0) >= MAX_CUM then Halve(freq) else freq
  }

  /** The first index of the run of equal frequencies that `i` belongs to. */
  function Leader(freq: seq<nat>, i: nat): (k: nat)
    requires 1 <= i < |freq| && freq[0] == 0 && freq[1] != 0
    ensures 1 <= k <= i && freq[k] == freq[i] && freq[k] != freq[k - 1]
  {
    if freq[i] == freq[i - 1] then Leader(freq, i - 1) else i
  }

  function Update(m: Model, sym: nat): Model
    requires Ranked(m.freq) && Inverse(m.toChar, m.toSym) && 1 <= sym <= N_CHAR
  {
    ScaleRanked(m.freq);
    Promoted(m.(freq := Scale(m.freq)), sym)
  }

  /** The symbol changes places with the first of its run and gains one. */
  function Promoted(m: Model, sym: nat): Model
    requires Ranked(m.freq) && Inverse(m.toChar, m.toSym) && 1 <= sym <= N_CHAR
  {
    var i := Leader(m.freq, sym);
    var a, b := m.toChar[i], m.toChar[sym];
    Model(m.freq[i := m.freq[i] + 1], m.toChar[i := b][sym := a], m.toSym[a := sym][b := i])
  }

  // ----- What an update keeps -----

  lemma ScaleRanked(freq: seq<nat>)
    requires Ranked(freq)
    ensures Ranked(Scale(freq))
  {
  }

  lemma {:induction false} AboveHalved(freq: seq<nat>, i: nat)
    requires i < |freq|
    ensures 2 * Above(Halve(freq), i) <= Above(freq, i) + (|freq| - 1 - i)
    decreases |freq| - i
  {
    if i + 1 < |freq| {
      AboveHalved(freq, i + 1);
    }
  }

  lemma {:induction false} AboveBumped(freq: seq<nat>, i: nat, j: nat)
    requires i < |freq|
    ensures Above(freq[i := freq[i] + 1], j) == Above(freq, j) + if j < i then 1 else 0
    decreases |freq| - j
  {
    if j + 1 < |freq| {
      AboveBumped(freq, i, j + 1);
    }
  }

  lemma {:induction false} AboveDecreases(freq: seq<nat>, i: nat, j: nat)
    requires Positive(freq) && i <= j < |freq|
    ensures Above(freq, j) <= Above(freq, i) && (i < j ==> Above(freq, j) < Above(freq, i))
    decreases j - i
  {
    if i < j {
      AboveDecreases(freq, i + 1, j);
    }
  }

  lemma {:induction false} AboveOnes(n: nat, i: nat)
    requires i < n
    ensures Above(seq(n, k => if k == 0 then 0 else 1), i) == n - 1 - i
    decreases n - i
  {
    if i + 1 < n {
      AboveOnes(n, i + 1);
    }
  }

  lemma InitialModelValid()
    ensures ValidModel(InitialModel())
  {
    AboveOnes(N_CHAR + 1, 0);
  }

  lemma BumpRanked(freq: seq<nat>, sym: nat)
    requires Ranked(freq) && 1 <= sym <= N_CHAR
    ensures Ranked(freq[Leader(freq, sym) := freq[Leader(freq, sym)] + 1])
  {
    var i := Leader(freq, sym);
    assert forall k :: 1 <= k < i ==> freq[k] >= freq[i - 1] > freq[i];
  }

  lemma ScaleTotal(freq: seq<nat>)
    requires Ranked(freq) && Above(freq, 0) <= MAX_CUM
    ensures Above(Scale(freq), 0) < MAX_CUM
  {
    AboveHalved(freq, 0);
  }

  lemma SwapInverse(toChar: seq<nat>, toSym: seq<nat>, i: nat, j: nat)
    requires Inverse(toChar, toSym) && 1 <= i <= N_CHAR && 1 <= j <= N_CHAR
    ensures var a, b := toChar[i], toChar[j];
            Inverse(toChar[i := b][j := a], toSym[a := j][b := i])
  {
  }

  /** Updating keeps the frequencies ranked and positive, the two tables inverse and the total bounded. */
  lemma UpdateValid(m: Model, sym: nat)
    requires ValidModel(m) && 1 <= sym <= N_CHAR
    ensures ValidModel(Update(m, sym))
  {
    ScaleRanked(m.freq);
    ScaleTotal(m.freq);
    var freq := Scale(m.freq);
    BumpRanked(freq, sym);
    AboveBumped(freq, Leader(freq, sym), 0);
    SwapInverse(m.toChar, m.toSym, Leader(freq, sym), sym);
  }

  /** The model state after coding a sequence of characters. */
  function After(chars: seq<int>): (m: Model)
    requires forall i :: 0 <= i < |chars| ==> 0 <= chars[i] < N_CHAR
    ensures ValidModel(m)
  {
    if chars == [] then
      InitialModelValid();
      InitialModel()
    else
      var m := After(chars[..|chars| - 1]);
      var sym := m.toSym[chars[|chars| - 1]];
      UpdateValid(m, sym);
      Update(m, sym)
  }

  /** The frequency of a character, wherever the ranking has put it. */
  function CharFreq(m: Model, c: int): nat
    requires ValidModel(m) && 0 <= c < N_CHAR
  {
    m.freq[m.toSym[c]]
  }

  /** Seen by character, an update counts: the coded character gains one, every other keeps its
      (possibly halved) frequency, although symbols change places. */
  lemma UpdateCounts(m: Model, c: int, d: int)
    requires ValidModel(m) && 0 <= c < N_CHAR && 0 <= d < N_CHAR
    ensures ValidModel(Update(m, m.toSym[c]))
    ensures var before := if Above(m.freq, 0) >= MAX_CUM then (CharFreq(m, d) + 1) / 2 else CharFreq(m, d);
            CharFreq(Update(m, m.toSym[c]), d) == before + if d == c then 1 else 0
  {
    UpdateValid(m, m.toSym[c]);
  }

  // ----- Slots -----

  /** The share of the `k`-th entry of a frequency table. */
  function SlotAt(freq: seq<nat>, k: nat): (s: Slot)
    requires Positive(freq) && 1 <= k < |freq| && Above(freq, 0) < Q1
    ensures ValidSlot(s)
  {
    AboveDecreases(freq, k - 1, k);
    AboveDecreases(freq, 0, k - 1);
    Slot(Above(freq, k), Above(freq, k - 1), Above(freq, 0))
  }

  /** The entry, from the `i`-th on, whose share contains `x`. */
  function Find(freq: seq<nat>, x: nat, i: nat): (k: nat)
    requires 1 <= i < |freq| && x < Above(freq, i - 1)
    ensures i <= k < |freq| && Above(freq, k) <= x < Above(freq, k - 1)
    decreases |freq| - i
  {
    if Above(freq, i) <= x then i else Find(freq, x, i + 1)
  }

  lemma FindIsUnique(freq: seq<nat>, x: nat, k: nat)
    requires Positive(freq) && 1 <= k < |freq| && Above(freq, k) <= x < Above(freq, k - 1)
    ensures x < Above(freq, 0) && Find(freq, x, 1) == k
  {
    AboveDecreases(freq, 0, k - 1);
    var f := Find(freq, x, 1);
    if f < k {
      AboveDecreases(freq, f, k - 1);
    } else if k < f {
      AboveDecreases(freq, k, f - 1);
    }
  }

  // ----- The fixed position model -----

  /** The frequency of position `i - 1`. */
  function Share(i: nat): (q: nat)
    requires i <= N
    ensures q >= 2
  {
    DivLower(10000, i + 200, 2);
    10000 / (i + 200)
  }

  function PositionFreq(): (freq: seq<nat>)
    ensures |freq| == N + 1 && Positive(freq)
  {
    seq(N + 1, i requires 0 <= i < N + 1 => Share(i))
  }

  lemma ShareAtMost(i: nat, q: nat)
    requires i <= N && 10000 < (q + 1) * (i + 200)
    ensures Share(i) <= q
  {
    DivStrict(10000, i + 200, q + 1);
  }

  /** A piecewise linear upper bound of the cumulative distribution. */
  function PositionBound(i: nat): int {
    if i >= 3485 then 0 + (4096 - i) * 2 else
    if i >= 2871 then 1222 + (3485 - i) * 3 else
    if i >= 2359 then 3064 + (2871 - i) * 3 else
    if i >= 1933 then 4600 + (2359 - i) * 4 else
    if i >= 1578 then 6304 + (1933 - i) * 5 else
    if i >= 1282 then 8079 + (1578 - i) * 6 else
    if i >= 1035 then 9855 + (1282 - i) * 8 else
    if i >= 829 then 11831 + (1035 - i) * 9 else
    if i >= 658 then 13685 + (829 - i) * 11 else
    if i >= 515 then 15566 + (658 - i) * 13 else
    if i >= 396 then 17425 + (515 - i) * 16 else
    if i >= 297 then 19329 + (396 - i) * 20 else
    if i >= 214 then 21309 + (297 - i) * 24 else
    if i >= 145 then 23301 + (214 - i) * 28 else
    if i >= 88 then 25233 + (145 - i) * 34 else
    if i >= 40 then 27171 + (88 - i) * 41 else
    29139 + (40 - i) * 49
  }

  lemma BoundStepHigh(i: nat)
    requires 1282 <= i < N
    ensures Share(i + 1) <= PositionBound(i) - PositionBound(i + 1)
  {
    if i >= 3485 {
      ShareAtMost(i + 1, 2);
    } else if i >= 2871 {
      ShareAtMost(i + 1, 3);
    } else if i >= 2359 {
      ShareAtMost(i + 1, 3);
    } else if i >= 1933 {
      ShareAtMost(i + 1, 4);
    } else if i >= 1578 {
      ShareAtMost(i + 1, 5);
    } else {
      ShareAtMost(i + 1, 6);
    }
  }

  lemma BoundStepMiddle(i: nat)
    requires 297 <= i < 1282
    ensures Share(i + 1) <= PositionBound(i) - PositionBound(i + 1)
  {
    if i >= 1035 {
      ShareAtMost(i + 1, 8);
    } else if i >= 829 {
      ShareAtMost(i + 1, 9);
    } else if i >= 658 {
      ShareAtMost(i + 1, 11);
    } else if i >= 515 {
      ShareAtMost(i + 1, 13);
    } else if i >= 396 {
      ShareAtMost(i + 1, 16);
    } else {
      ShareAtMost(i + 1, 20);
    }
  }

  lemma BoundStepLow(i: nat)
    requires i < 297
    ensures Share(i + 1) <= PositionBound(i) - PositionBound(i + 1)
  {
    if i >= 214 {
      ShareAtMost(i + 1, 24);
    } else if i >= 145 {
      ShareAtMost(i + 1, 28);
    } else if i >= 88 {
      ShareAtMost(i + 1, 34);
    } else if i >= 40 {
      ShareAtMost(i + 1, 41);
    } else {
      ShareAtMost(i + 1, 49);
    }
  }

  lemma {:induction false} PositionBounded(i: nat)
    requires i <= N
    ensures Above(PositionFreq(), i) <= PositionBound(i)
    decreases N - i
  {
    if i < N {
      PositionBounded(i + 1);
      if i >= 1282 {
        BoundStepHigh(i);
      } else if i >= 297 {
        BoundStepMiddle(i);
      } else {
        BoundStepLow(i);
      }
    }
  }

  lemma PositionTotal()
    ensures Above(PositionFreq(), 0) < Q1
  {
    PositionBounded(0);
  }

  // ----- The tables in memory -----

  class Tables {
    const char_to_sym: array<nat>
    const sym_to_char: array<nat>
    const sym_freq: array<nat>
    const sym_cum: array<nat>
    const position_cum: array<nat>

    constructor ()
      ensures Shape() && fresh(Cells()) && sym_to_char[0] == 0
    {
      char_to_sym := new nat[N_CHAR](_ => 0);
      sym_to_char := new nat[N_CHAR + 1](_ => 0);
      sym_freq := new nat[N_CHAR + 1](_ => 0);
      sym_cum := new nat[N_CHAR + 1](_ => 0);
      position_cum := new nat[N + 1](_ => 0);
    }

    ghost function Cells(): set<object> {
      {char_to_sym, sym_to_char, sym_freq, sym_cum, position_cum}
    }

    ghost predicate Shape() {
      && char_to_sym.Length == N_CHAR && sym_to_char.Length == N_CHAR + 1 && sym_freq.Length == N_CHAR + 1
      && sym_cum.Length == N_CHAR + 1 && position_cum.Length == N + 1
      && char_to_sym != sym_to_char && char_to_sym != sym_freq && char_to_sym != sym_cum && sym_to_char != sym_freq
      && sym_to_char != sym_cum && sym_freq != sym_cum && position_cum !in {char_to_sym, sym_to_char, sym_freq, sym_cum}
    }

    ghost function View(): Model
      requires Shape()
      reads char_to_sym, sym_to_char, sym_freq
    {
      Model(sym_freq[..], sym_to_char[..], char_to_sym[..])
    }

    /** `sym_cum` holds the cumulative sums of `sym_freq`. */
    ghost predicate SymSums()
      requires Shape()
      reads sym_freq, sym_cum
    {
      forall i :: 0 <= i <= N_CHAR ==> sym_cum[i] == Above(sym_freq[..], i)
    }

    ghost predicate PositionSums()
      requires Shape()
      reads position_cum
    {
      forall i :: 0 <= i <= N ==> position_cum[i] == Above(PositionFreq(), i)
    }

    /** The tables hold a valid model and its cumulative sums. */
    ghost predicate Valid()
      reads Cells()
    {
      Shape() && ValidModel(View()) && SymSums() && PositionSums()
    }

    method StartModel()
      requires Shape()
      modifies Cells()
      requires sym_to_char[0] == 0
      ensures Valid() && View() == InitialModel()
    {
      StartSymbols();
      InitialModelValid();
      StartPositions();
    }

    /** Started so, every symbol has frequency 1 and stands for the character before its number, and
        position `i - 1` has the share 10000 / (i + 200). */
    lemma StartIsEven()
      requires Shape() && View() == InitialModel() && SymSums() && PositionSums()
      ensures forall s :: 1 <= s <= N_CHAR ==> sym_freq[s] == 1 && sym_to_char[s] == s - 1 && char_to_sym[s - 1] == s
      ensures forall s :: 1 <= s <= N_CHAR ==> sym_cum[s - 1] == sym_cum[s] + 1
      ensures forall i :: 1 <= i <= N ==> position_cum[i - 1] == position_cum[i] + 10000 / (i + 200)
    {
      var m := InitialModel();
      assert sym_freq[..] == m.freq && sym_to_char[..] == m.toChar && char_to_sym[..] == m.toSym;
      assert forall s :: 1 <= s <= N_CHAR ==> m.freq[s] == 1 && m.toChar[s] == s - 1 && m.toSym[s - 1] == s;
      forall s | 1 <= s <= N_CHAR
        ensures sym_cum[s - 1] == sym_cum[s] + 1
      {
        AboveStep(m.freq, s - 1);
      }
      forall i | 1 <= i <= N
        ensures position_cum[i - 1] == position_cum[i] + 10000 / (i + 200)
      {
        AboveStep(PositionFreq(), i - 1);
      }
    }

    method StartPositions()
      requires Shape()
      modifies position_cum
      ensures PositionSums()
    {
      position_cum[N] := 0;
      var i := N;
      while i >= 1
        invariant 0 <= i <= N
        invariant forall k :: i <= k <= N ==> position_cum[k] == Above(PositionFreq(), k)
      {
        position_cum[i - 1] := position_cum[i] + Share(i);
        i := i - 1;
      }
    }

    method StartSymbols()
      requires Shape() && sym_to_char[0] == 0
      modifies char_to_sym, sym_to_char, sym_freq, sym_cum
      ensures View() == InitialModel() && SymSums()
    {
      hide Above;
      ghost var m := InitialModel();
      AboveStep(m.freq, N_CHAR);
      sym_cum[N_CHAR] := 0;
      var sym := N_CHAR;
      while sym >= 1
        invariant 0 <= sym <= N_CHAR
        invariant forall i :: sym < i <= N_CHAR ==> sym_freq[i] == m.freq[i]
        invariant sym_to_char[0] == 0 && forall i :: sym < i <= N_CHAR ==> sym_to_char[i] == i - 1
        invariant forall c :: sym <= c < N_CHAR ==> char_to_sym[c] == c + 1
        invariant forall i :: sym <= i <= N_CHAR ==> sym_cum[i] == Above(m.freq, i)
      {
        var ch := sym - 1;
        char_to_sym[ch] := sym;
        sym_to_char[sym] := ch;
        sym_freq[sym] := 1;
        AboveStep(m.freq, sym - 1);
        sym_cum[sym - 1] := sym_cum[sym] + sym_freq[sym];
        sym := sym - 1;
      }
      sym_freq[0] := 0;
      assert sym_freq[..] == m.freq;
      assert sym_to_char[..] == m.toChar;
      assert char_to_sym[..] == m.toSym;
    }

    /** The periodic halving, with the cumulative sums rebuilt on the way. */
    method HalveAll(ghost halved: seq<nat>)
      requires Shape() && |halved| == N_CHAR + 1
      requires halved[0] == sym_freq[0] && forall i :: 1 <= i <= N_CHAR ==> halved[i] == (sym_freq[i] + 1) / 2
      modifies sym_freq, sym_cum
      ensures sym_freq[..] == halved && SymSums()
    {
      hide Above;
      AboveStep(halved, N_CHAR);
      ghost var freq := sym_freq[..];
      var c := 0;
      var i := N_CHAR;
      while i > 0
        invariant 0 <= i <= N_CHAR && c == Above(halved, i)
        invariant forall k :: 0 <= k <= N_CHAR ==> sym_freq[k] == if i < k then halved[k] else freq[k]
        invariant forall k :: i < k <= N_CHAR ==> sym_cum[k] == Above(halved, k)
      {
        AboveStep(halved, i - 1);
        sym_cum[i] := c;
        sym_freq[i] := (sym_freq[i] + 1) / 2;
        c := c + sym_freq[i];
        i := i - 1;
      }
      sym_cum[0] := c;
      assert sym_freq[..] == halved;
    }

    method Rescale()
      requires Shape() && SymSums() && sym_freq[0] == 0
      modifies sym_freq, sym_cum
      ensures sym_freq[..] == Scale(old(sym_freq[..])) && SymSums()
    {
      if sym_cum[0] >= MAX_CUM {
        HalveAll(Halve(sym_freq[..]));
      }
    }

    /** Exchange the characters of two symbols. */
    method SwapSymbols(i: nat, sym: nat)
      requires Shape() && Inverse(sym_to_char[..], char_to_sym[..]) && 1 <= i < sym <= N_CHAR
      modifies char_to_sym, sym_to_char
      ensures var toChar, toSym := old(sym_to_char[..]), old(char_to_sym[..]);
              var a, b := toChar[i], toChar[sym];
              && sym_to_char[..] == toChar[i := b][sym := a]
              && char_to_sym[..] == toSym[a := sym][b := i]
    {
      var ch_i, ch_sym := sym_to_char[i], sym_to_char[sym];
      sym_to_char[i] := ch_sym;
      sym_to_char[sym] := ch_i;
      char_to_sym[ch_i] := sym;
      char_to_sym[ch_sym] := i;
    }

    /** Add one to the frequency of symbol `i` and to the sums below it. */
    method Bump(leader: nat)
      requires Shape() && SymSums() && 1 <= leader <= N_CHAR
      modifies sym_freq, sym_cum
      ensures SymSums()
      ensures var freq := old(sym_freq[..]); sym_freq[..] == freq[leader := freq[leader] + 1]
    {
      ghost var freq := sym_freq[..];
      sym_freq[leader] := sym_freq[leader] + 1;
      var i := leader - 1;
      while i >= 0
        invariant -1 <= i < leader
        invariant forall k :: 0 <= k <= N_CHAR ==> sym_cum[k] == Above(freq, k) + if i < k < leader then 1 else 0
        modifies sym_cum
      {
        sym_cum[i] := sym_cum[i] + 1;
        i := i - 1;
      }
      assert sym_freq[..] == freq[leader := freq[leader] + 1];
      forall k | 0 <= k <= N_CHAR
        ensures sym_cum[k] == Above(sym_freq[..], k)
      {
        AboveBumped(freq, leader, k);
      }
    }

    method UpdateModel(sym: nat)
      requires Valid() && 1 <= sym <= N_CHAR
      modifies char_to_sym, sym_to_char, sym_freq, sym_cum
      ensures Valid() && View() == Update(old(View()), sym)
    {
      UpdateValid(View(), sym);
      Rescale();
      assert Ranked(sym_freq[..]) by { ScaleRanked(old(sym_freq[..])); }
      Promote(sym);
    }

    /** Move the symbol to the front of its run of equal frequencies and count it there. */
    method Promote(sym: nat)
      requires Shape() && Ranked(sym_freq[..]) && Inverse(sym_to_char[..], char_to_sym[..]) && SymSums()
      requires 1 <= sym <= N_CHAR
      modifies char_to_sym, sym_to_char, sym_freq, sym_cum
      ensures SymSums() && View() == Promoted(old(View()), sym)
    {
      ghost var m := View();
      var i := FindLeader(sym);
      if i < sym {
        SwapSymbols(i, sym);
      }
      assert sym_to_char[..] == Promoted(m, sym).toChar;
      assert char_to_sym[..] == Promoted(m, sym).toSym;
      Bump(i);
    }

    method FindLeader(sym: nat) returns (i: nat)
      requires Shape() && Ranked(sym_freq[..]) && 1 <= sym <= N_CHAR
      ensures i == Leader(sym_freq[..], sym)
    {
      i := sym;
      while sym_freq[i] == sym_freq[i - 1]
        invariant 1 <= i <= sym && Leader(sym_freq[..], i) == Leader(sym_freq[..], sym)
        decreases i
      {
        i := i - 1;
      }
    }

    method BinarySearchSym(x: nat) returns (sym: nat)
      requires Shape() && Ranked(sym_freq[..]) && SymSums() && x < sym_cum[0]
      ensures 1 <= sym <= N_CHAR && sym == Find(sym_freq[..], x, 1)
    {
      var i, j := 1, N_CHAR;
      while i < j
        invariant 1 <= i <= j <= N_CHAR
        invariant sym_cum[j] <= x < sym_cum[i - 1]
      {
        var k := (i + j) / 2;
        if sym_cum[k] > x {
          i := k + 1;
        } else {
          j := k;
        }
      }
      FindIsUnique(sym_freq[..], x, i);
      sym := i;
    }

    method BinarySearchPos(x: nat) returns (position: nat)
      requires Shape() && PositionSums() && x < position_cum[0]
      ensures position < N && position + 1 == Find(PositionFreq(), x, 1)
    {
      var i, j := 1, N;
      while i < j
        invariant 1 <= i <= j <= N
        invariant position_cum[j] <= x < position_cum[i - 1]
      {
        var k := (i + j) / 2;
        if position_cum[k] > x {
          i := k + 1;
        } else {
          j := k;
        }
      }
      FindIsUnique(PositionFreq(), x, i);
      position := i - 1;
    }
  }
}
