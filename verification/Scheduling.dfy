/** Round-robin choice of a path for each outbound frame. */
module Scheduling {
  import opened Octets
  import opened Wrappers

  type PathId = u32

  /** The counter's modulus. */
  const WRAP := 0x1_0000_0000_0000_0000

  /** A choice made: how many paths there were, and which position was taken. */
  datatype Choice = Choice(paths: nat, position: nat)

  /** The `i`-th choice takes position `i` modulo the number of paths, up to the wrap of the counter. */
  ghost predicate TakesTurns(choices: seq<Choice>) {
    forall i | 0 <= i < |choices| ::
      choices[i].paths > 0 && choices[i].position == i % WRAP % choices[i].paths
  }

  class RoundRobinScheduler {
    var nextIndex: u64
    /** Every choice made, oldest first. */
    ghost var choices: seq<Choice>

    ghost predicate Valid()
      reads this
    {
      nextIndex == |choices| % WRAP && TakesTurns(choices)
    }

    constructor ()
      ensures Valid() && choices == []
    {
      nextIndex := 0;
      choices := [];
    }

    /** The path at the position whose turn it is; an empty list takes no turn. */
    method ChoosePath(available: seq<PathId>) returns (r: Option<PathId>)
      requires Valid()
      modifies this
      ensures Valid()
      ensures available == [] ==> r == None && choices == old(choices)
      ensures available != [] ==>
                && |choices| == |old(choices)| + 1 && choices[..|old(choices)|] == old(choices)
                && var c := choices[|old(choices)|]; c.paths == |available| && c.position < |available| && r == Some(available[c.position])
    {
      if available == [] {
        return None;
      }
      var idx := nextIndex % |available|;
      CountsOn(|choices|);
      nextIndex := WrappingSucc(nextIndex);
      choices := choices + [Choice(|available|, idx)];
      r := Some(available[idx]);
    }
  }

  // ---- Fairness -------------------------------------------------------------

  ghost function Count(window: seq<Choice>, pos: nat): (r: nat) {
    if window == [] then 0
    else Count(window[..|window| - 1], pos) + if window[|window| - 1].position == pos then 1 else 0
  }

  ghost predicate FairWindow(choices: seq<Choice>, s: nat, k: nat, a: nat, b: nat)
    requires s + k <= |choices|
  {
    -1 <= Count(choices[s..s + k], a) - Count(choices[s..s + k], b) <= 1
  }

  /**
   Any stretch of choices among the same `n` paths that stays below the wrap of the counter, or any at all if `n`
   divides 2^64: two positions are taken equally often, give or take one, and `n` in a row take each position once.
   */
  lemma EveryWindowIsFair(choices: seq<Choice>, s: nat, k: nat, n: nat, a: nat, b: nat)
    requires TakesTurns(choices) && s + k <= |choices| && a < n && b < n
    requires s + k <= WRAP || WRAP % n == 0
    requires forall i | s <= i < s + k :: choices[i].paths == n
    ensures FairWindow(choices, s, k, a, b)
    ensures k == n ==> Count(choices[s..s + k], a) == 1
  {
    var window := choices[s..s + k];
    forall i | 0 <= i < |window| ensures window[i].position == (s + i) % n {
      PositionInTurn(choices, s + i, n);
    }
    WindowCounts(window, s, n, a);
    WindowCounts(window, s, n, b);
    FairShare(n, s, k, a, b);
    FullCycle(n, s, a);
  }

  lemma PositionInTurn(choices: seq<Choice>, i: nat, n: nat)
    requires TakesTurns(choices) && i < |choices| && choices[i].paths == n > 0 && (i < WRAP || WRAP % n == 0)
    ensures choices[i].position == i % n
  {
    if WRAP % n == 0 {
      var q, c, p := i / WRAP, WRAP / n, i % WRAP;
      assert i == (q * c + p / n) * n + p % n by {
        assert WRAP == c * n && i == q * WRAP + p && p == p / n * n + p % n;
        assert q * (c * n) == q * c * n && (q * c + p / n) * n == q * c * n + p / n * n;
      }
      ModuloIs(n, q * c + p / n, p % n);
    }
  }

  /** A history that runs past the wrap among the same `n` paths is fair throughout exactly when `n` divides 2^64. */
  lemma FairPastTheWrapIff(choices: seq<Choice>, n: nat)
    requires TakesTurns(choices) && n > 0 && |choices| >= WRAP + n && forall i | 0 <= i < |choices| :: choices[i].paths == n
    ensures (forall s: nat, k: nat, a: nat, b: nat | s + k <= |choices| && a < n && b < n :: FairWindow(choices, s, k, a, b))
            <==> WRAP % n == 0
  {
    if WRAP % n == 0 {
      forall s: nat, k: nat, a: nat, b: nat | s + k <= |choices| && a < n && b < n ensures FairWindow(choices, s, k, a, b) {
        EveryWindowIsFair(choices, s, k, n, a, b);
      }
    } else {
      var r := WRAP % n;
      LastMultiple(n, r);
      ZeroComesTwice(choices, n, r);
      assert !FairWindow(choices, WRAP - r, 2 * r, 0, r);
    }
  }

  /** Around the wrap the positions below `r` come twice before `r` comes once. */
  lemma ZeroComesTwice(choices: seq<Choice>, n: nat, r: nat)
    requires TakesTurns(choices) && |choices| >= WRAP + r && forall i | 0 <= i < |choices| :: choices[i].paths == n
    requires 0 < r < n && r <= WRAP && (WRAP - r) % n == 0
    ensures Count(choices[WRAP - r..WRAP - r + 2 * r], 0) == 2 && Count(choices[WRAP - r..WRAP - r + 2 * r], r) == 0
  {
    RunUpCounts(choices, n, r);
    RestartCounts(choices, n, r);
    TwoHalves(choices, r, 0);
    TwoHalves(choices, r, r);
  }

  lemma TwoHalves(choices: seq<Choice>, r: nat, pos: nat)
    requires r <= WRAP && |choices| >= WRAP + r
    ensures Count(choices[WRAP - r..WRAP - r + 2 * r], pos)
            == Count(choices[WRAP - r..WRAP], pos) + Count(choices[WRAP..WRAP + r], pos)
  {
    assert choices[WRAP - r..WRAP - r + 2 * r] == choices[WRAP - r..WRAP] + choices[WRAP..WRAP + r];
    CountConcat(choices[WRAP - r..WRAP], choices[WRAP..WRAP + r], pos);
  }

  lemma RunUpCounts(choices: seq<Choice>, n: nat, r: nat)
    requires TakesTurns(choices) && |choices| >= WRAP && forall i | 0 <= i < |choices| :: choices[i].paths == n
    requires 0 < r < n && r <= WRAP && (WRAP - r) % n == 0
    ensures Count(choices[WRAP - r..WRAP], 0) == 1 && Count(choices[WRAP - r..WRAP], r) == 0
  {
    RunUp(choices, n, r);
    FromZero(choices[WRAP - r..WRAP], WRAP - r, n);
  }

  lemma RestartCounts(choices: seq<Choice>, n: nat, r: nat)
    requires TakesTurns(choices) && |choices| >= WRAP + r && forall i | 0 <= i < |choices| :: choices[i].paths == n
    requires 0 < r < n && r <= WRAP
    ensures Count(choices[WRAP..WRAP + r], 0) == 1 && Count(choices[WRAP..WRAP + r], r) == 0
  {
    Restart(choices, n, r);
    ModuloIs(n, 0, 0);
    FromZero(choices[WRAP..WRAP + r], 0, n);
  }

  lemma LastMultiple(n: nat, r: nat)
    requires n > 0 && r == WRAP % n
    ensures r <= WRAP && (WRAP - r) % n == 0
  {
    var q := WRAP / n;
    assert WRAP == q * n + r;
    assert WRAP - r == q * n + 0;
    ModuloIs(n, q, 0);
  }

  ghost predicate InTurn(window: seq<Choice>, s: nat, n: nat)
    requires n > 0
  {
    forall i | 0 <= i < |window| :: window[i].position == (s + i) % n
  }

  lemma RunUp(choices: seq<Choice>, n: nat, r: nat)
    requires TakesTurns(choices) && |choices| >= WRAP && forall i | 0 <= i < |choices| :: choices[i].paths == n
    requires 0 < r < n && r <= WRAP
    ensures InTurn(choices[WRAP - r..WRAP], WRAP - r, n)
  {
    var window := choices[WRAP - r..WRAP];
    forall i | 0 <= i < |window| ensures window[i].position == (WRAP - r + i) % n {
      PositionInTurn(choices, WRAP - r + i, n);
    }
  }

  lemma Restart(choices: seq<Choice>, n: nat, r: nat)
    requires TakesTurns(choices) && |choices| >= WRAP + r && forall i | 0 <= i < |choices| :: choices[i].paths == n
    requires 0 < r < n && r <= WRAP
    ensures InTurn(choices[WRAP..WRAP + r], 0, n)
  {
    var window := choices[WRAP..WRAP + r];
    forall i | 0 <= i < |window| ensures window[i].position == (0 + i) % n {
      assert window[i] == choices[WRAP + i] && (WRAP + i) % WRAP == i;
    }
  }

  /** A short stretch that starts at position 0 takes that once, and the position it ends before not at all. */
  lemma FromZero(window: seq<Choice>, s: nat, n: nat)
    requires 0 < |window| < n && s % n == 0 && InTurn(window, s, n)
    ensures Count(window, 0) == 1 && Count(window, |window|) == 0
  {
    WindowCounts(window, s, n, 0);
    WindowCounts(window, s, n, |window|);
    ChosenWithinCycle(n, s, |window|, 0);
    ChosenWithinCycle(n, s, |window|, |window|);
  }

  lemma {:induction false} CountConcat(a: seq<Choice>, b: seq<Choice>, pos: nat)
    ensures Count(a + b, pos) == Count(a, pos) + Count(b, pos)
  {
    if b == [] {
      assert a + b == a;
    } else {
      CountConcat(a, b[..|b| - 1], pos);
      assert (a + b)[..|a + b| - 1] == a + b[..|b| - 1];
    }
  }

  lemma {:induction false} WindowCounts(window: seq<Choice>, s: nat, n: nat, pos: nat)
    requires pos < n && InTurn(window, s, n)
    ensures Count(window, pos) == Chosen(n, s, |window|, pos)
  {
    if window != [] {
      WindowCounts(window[..|window| - 1], s, n, pos);
      assert window[|window| - 1].position == (s + (|window| - 1)) % n;
    }
  }

  /** How often position `pos` of `n` is chosen by `k` calls in a row from counter value `s`. */
  ghost function Chosen(n: nat, s: nat, k: nat, pos: nat): (r: nat)
    requires n > 0
  {
    if k == 0 then 0 else Chosen(n, s, k - 1, pos) + if (s + k - 1) % n == pos then 1 else 0
  }

  lemma ModuloIs(n: nat, q: int, r: nat)
    requires r < n
    ensures (q * n + r) % n == r
  {
    var x := q * n + r;
    var d := x / n - q;
    assert x == x / n * n + x % n;
    assert d * n == r - x % n;
    assert d == 0;
  }

  /** Counting on from `s`, the position goes round once every `n`. */
  lemma PositionAfter(n: nat, s: nat, i: nat)
    requires i < n
    ensures (s + i) % n == if s % n + i < n then s % n + i else s % n + i - n
  {
    var q, p := s / n, s % n;
    assert s == q * n + p;
    if p + i < n {
      assert s + i == q * n + (p + i);
      ModuloIs(n, q, p + i);
    } else {
      assert s + i == (q + 1) * n + (p + i - n);
      ModuloIs(n, q + 1, p + i - n);
    }
  }

  /** Within one cycle a position comes up once it has been reached, and once only. */
  lemma {:induction false} ChosenWithinCycle(n: nat, s: nat, k: nat, pos: nat)
    requires k <= n && pos < n
    ensures var wait := if pos >= s % n then pos - s % n else pos - s % n + n;
            Chosen(n, s, k, pos) == if wait < k then 1 else 0
  {
    if k > 0 {
      ChosenWithinCycle(n, s, k - 1, pos);
      PositionAfter(n, s, k - 1);
    }
  }

  lemma {:induction false} ChosenConcat(n: nat, s: nat, j: nat, k: nat, pos: nat)
    requires n > 0
    ensures Chosen(n, s, j + k, pos) == Chosen(n, s, j, pos) + Chosen(n, s + j, k, pos)
  {
    if k > 0 {
      ChosenConcat(n, s, j, k - 1, pos);
    }
  }

  /** Every full cycle chooses each position once, wherever it starts. */
  lemma FullCycle(n: nat, s: nat, pos: nat)
    requires pos < n
    ensures Chosen(n, s, n, pos) == 1
  {
    ChosenWithinCycle(n, s, n, pos);
  }

  /** In any window of consecutive calls, any two positions are chosen equally often, give or take one. */
  lemma {:induction false} FairShare(n: nat, s: nat, k: nat, a: nat, b: nat)
    requires a < n && b < n
    ensures -1 <= Chosen(n, s, k, a) - Chosen(n, s, k, b) <= 1
    decreases k
  {
    if k <= n {
      ChosenWithinCycle(n, s, k, a);
      ChosenWithinCycle(n, s, k, b);
    } else {
      ChosenConcat(n, s, n, k - n, a);
      ChosenConcat(n, s, n, k - n, b);
      FullCycle(n, s, a);
      FullCycle(n, s, b);
      FairShare(n, s + n, k - n, a, b);
    }
  }
}
