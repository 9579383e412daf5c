/**
 * Index arithmetic behind the Next and Previous buttons: a step of one
 * position around a ring of n > 0 cards.
 */
module Wrap {

  /** The index after i, as `(i + 1) % n` computes it: wraps from the last card to the first. */
  function NextIndex(i: nat, n: nat): (r: nat)
    requires i < n
    ensures r < n
    ensures r == if i == n - 1 then 0 else i + 1
  {
    (i + 1) % n
  }

  /**
   * The index before i, as `(i - 1 + n) % n` computes it: wraps from the first
   * card to the last.  The dividend is never negative here, so the truncating
   * remainder of the source and Dafny's Euclidean one agree.
   */
  function PrevIndex(i: nat, n: nat): (r: nat)
    requires i < n
    ensures r < n
    ensures r == if i == 0 then n - 1 else i - 1
  {
    (i - 1 + n) % n
  }

  /** Previous undoes Next. */
  lemma PrevAfterNext(i: nat, n: nat)
    requires i < n
    ensures PrevIndex(NextIndex(i, n), n) == i
  {
  }

  /** Next undoes Previous. */
  lemma NextAfterPrev(i: nat, n: nat)
    requires i < n
    ensures NextIndex(PrevIndex(i, n), n) == i
  {
  }

  /** The index reached from i after k presses of Next. */
  function NextTimes(i: nat, n: nat, k: nat): (r: nat)
    requires i < n
    ensures r < n
    decreases k
  {
    if k == 0 then i else NextIndex(NextTimes(i, n, k - 1), n)
  }

  /** Fewer than n - i presses of Next from i never wrap. */
  lemma {:induction false} NextTimesBeforeWrap(i: nat, n: nat, k: nat)
    requires i + k < n
    ensures NextTimes(i, n, k) == i + k
  {
    if k > 0 {
      NextTimesBeforeWrap(i, n, k - 1);
    }
  }

  /** a presses of Next followed by b more are a + b presses. */
  lemma {:induction false} NextTimesCompose(i: nat, n: nat, a: nat, b: nat)
    requires i < n
    ensures NextTimes(NextTimes(i, n, a), n, b) == NextTimes(i, n, a + b)
    decreases b
  {
    if b > 0 {
      NextTimesCompose(i, n, a, b - 1);
    }
  }

  /** Pressing Next as many times as the deck has cards comes back to the starting card. */
  lemma {:induction false} NextDeckLengthTimesReturns(i: nat, n: nat)
    requires i < n
    ensures NextTimes(i, n, n) == i
  {
    NextTimesBeforeWrap(i, n, n - i - 1);
    assert NextTimes(i, n, n - i) == 0;
    NextTimesCompose(i, n, n - i, i);
    NextTimesBeforeWrap(0, n, i);
  }

  /** Presses of Next are periodic with period n: k + n presses land where k presses do. */
  lemma {:induction false} NextTimesPeriodic(i: nat, n: nat, k: nat)
    requires i < n
    ensures NextTimes(i, n, k + n) == NextTimes(i, n, k)
  {
    NextTimesCompose(i, n, n, k);
    NextDeckLengthTimesReturns(i, n);
    assert n + k == k + n;
  }
}
