/**
 * Cards, and the Fisher-Yates shuffle that the Shuffle button runs over the
 * current deck, stated as a function of the deck and of the random draws.
 */
module Deck {

  /** One vocabulary entry of a deck, with the three fields the card faces show. */
  datatype Card = Card(latin: string, pron: string, english: string)

  /** No card occurs twice in the deck. */
  ghost predicate Distinct(s: seq<Card>) {
    forall a, b :: 0 <= a < b < |s| ==> s[a] != s[b]
  }

  /** The deck with the cards at positions i and j exchanged (the destructuring swap of the loop body). */
  function Swap(s: seq<Card>, i: nat, j: nat): (r: seq<Card>)
    requires i < |s| && j < |s|
    ensures |r| == |s| && r[i] == s[j] && r[j] == s[i]
  {
    s[i := s[j]][j := s[i]]
  }

  /** A swap leaves every position other than i and j alone. */
  lemma SwapElsewhere(s: seq<Card>, i: nat, j: nat, k: nat)
    requires i < |s| && j < |s| && k < |s| && k != i && k != j
    ensures Swap(s, i, j)[k] == s[k]
  {
  }

  /** A swap holds the same cards as before. */
  lemma SwapPermutes(s: seq<Card>, i: nat, j: nat)
    requires i < |s| && j < |s|
    ensures multiset(Swap(s, i, j)) == multiset(s)
  {
  }

  /**
   * The random index the loop swaps with at step i: the draw for step i,
   * capped at i, so that it ranges over exactly 0..i as the scaled and
   * floored random number does.
   */
  function Pick(draw: nat -> nat, i: nat): (j: nat)
    ensures j <= i
    ensures draw(i) <= i ==> j == draw(i)
  {
    if draw(i) <= i then draw(i) else i
  }

  /**
   * The deck after the loop has run its steps i, i - 1, ..., 1 on s, step k
   * swapping the cards at positions k and Pick(draw, k).
   */
  function Shuffled(s: seq<Card>, draw: nat -> nat, i: nat): (r: seq<Card>)
    requires i < |s|
    ensures |r| == |s|
    decreases i
  {
    if i == 0 then s else Shuffled(Swap(s, i, Pick(draw, i)), draw, i - 1)
  }

  /** Step i followed by steps i - 1, ..., 1. */
  lemma ShuffledStep(s: seq<Card>, draw: nat -> nat, i: nat)
    requires 0 < i < |s|
    ensures Shuffled(s, draw, i) == Shuffled(Swap(s, i, Pick(draw, i)), draw, i - 1)
  {
  }

  /** Steps i, ..., 1 only rearrange the deck: the same cards, each as often as before. */
  lemma {:induction false} ShuffledPermutes(s: seq<Card>, draw: nat -> nat, i: nat)
    requires i < |s|
    ensures multiset(Shuffled(s, draw, i)) == multiset(s)
    decreases i
  {
    if i > 0 {
      var u := Swap(s, i, Pick(draw, i));
      SwapPermutes(s, i, Pick(draw, i));
      ShuffledPermutes(u, draw, i - 1);
    }
  }

  /** The deck after the whole shuffle loop, which starts at the last position. */
  function Shuffle(s: seq<Card>, draw: nat -> nat): (r: seq<Card>)
    ensures |r| == |s|
  {
    if |s| == 0 then s else Shuffled(s, draw, |s| - 1)
  }

  /** The shuffle is a permutation of the deck, whatever the draws. */
  lemma ShufflePermutes(s: seq<Card>, draw: nat -> nat)
    ensures multiset(Shuffle(s, draw)) == multiset(s)
  {
    if |s| > 0 {
      ShuffledPermutes(s, draw, |s| - 1);
    }
  }

  /** With zero or one card the loop body never runs, so the deck is left as it was. */
  lemma ShuffleShortDeckUnchanged(s: seq<Card>, draw: nat -> nat)
    requires |s| <= 1
    ensures Shuffle(s, draw) == s
  {
  }

  /** Steps i, ..., 1 never touch the positions above i. */
  lemma {:induction false} ShuffledKeepsAbove(s: seq<Card>, draw: nat -> nat, i: nat, k: nat)
    requires i < k < |s|
    ensures Shuffled(s, draw, i)[k] == s[k]
    decreases i
  {
    if i > 0 {
      var p := Pick(draw, i);
      var u := Swap(s, i, p);
      ShuffledStep(s, draw, i);
      ShuffledKeepsAbove(u, draw, i - 1, k);
      SwapElsewhere(s, i, p, k);
    }
  }

  /** Step i settles position i once and for all: it ends up holding the card drawn from 0..i. */
  lemma ShuffledSettles(s: seq<Card>, draw: nat -> nat, i: nat)
    requires 0 < i < |s|
    ensures Shuffled(s, draw, i)[i] == s[Pick(draw, i)]
  {
    ShuffledKeepsAbove(Swap(s, i, Pick(draw, i)), draw, i - 1, i);
  }

  /** Shuffled looks at the draws of the steps 1..i only. */
  lemma {:induction false} ShuffledUsesOnlyItsDraws(s: seq<Card>, d1: nat -> nat, d2: nat -> nat, i: nat)
    requires i < |s|
    requires forall k :: 1 <= k <= i ==> d1(k) == d2(k)
    ensures Shuffled(s, d1, i) == Shuffled(s, d2, i)
    decreases i
  {
    if i > 0 {
      var u := Swap(s, i, Pick(d1, i));
      assert Pick(d1, i) == Pick(d2, i);
      ShuffledStep(s, d1, i);
      ShuffledStep(s, d2, i);
      ShuffledUsesOnlyItsDraws(u, d1, d2, i - 1);
    }
  }

  /** Two decks that become equal as multisets after one card is appended to each were equal as multisets. */
  lemma AppendCancels(a: seq<Card>, b: seq<Card>, x: Card)
    requires multiset(a + [x]) == multiset(b + [x])
    ensures multiset(a) == multiset(b)
  {
    var m := multiset{x};
    assert multiset(a) + m == multiset(b) + m;
    assert multiset(a) + m - m == multiset(a);
    assert multiset(b) + m - m == multiset(b);
  }

  /**
   * With the cards of positions 0..i matching, some j in 0..i holds the card t
   * wants at i; swapping it there leaves 0..i - 1 matching and fixes i.
   */
  lemma StepToward(u: seq<Card>, t: seq<Card>, i: nat) returns (j: nat)
    requires 0 < i < |u| == |t|
    requires multiset(u[..i + 1]) == multiset(t[..i + 1])
    requires u[i + 1..] == t[i + 1..]
    ensures j <= i
    ensures multiset(Swap(u, i, j)[..i - 1 + 1]) == multiset(t[..i - 1 + 1])
    ensures Swap(u, i, j)[i - 1 + 1..] == t[i - 1 + 1..]
  {
    assert t[i] in multiset(u[..i + 1]) by {
      assert t[..i + 1][i] == t[i];
    }
    assert t[i] in u[..i + 1];
    j :| 0 <= j <= i && u[..i + 1][j] == t[i];
    SwapInPrefix(u, t, i, j);
    SwapKeepsSuffix(u, t, i, j);
  }

  /** Swapping within 0..i the card t wants at i leaves the rest of 0..i matching t's. */
  lemma SwapInPrefix(u: seq<Card>, t: seq<Card>, i: nat, j: nat)
    requires j <= i < |u| == |t|
    requires multiset(u[..i + 1]) == multiset(t[..i + 1])
    requires u[j] == t[i]
    ensures multiset(Swap(u, i, j)[..i]) == multiset(t[..i])
  {
    var v := Swap(u, i, j);
    assert v[..i + 1] == Swap(u[..i + 1], i, j);
    SwapPermutes(u[..i + 1], i, j);
    assert v[..i + 1] == v[..i] + [t[i]];
    assert t[..i + 1] == t[..i] + [t[i]];
    AppendCancels(v[..i], t[..i], t[i]);
  }

  /** Swapping into i the card t wants there extends the agreement with t from above i to i itself. */
  lemma SwapKeepsSuffix(u: seq<Card>, t: seq<Card>, i: nat, j: nat)
    requires j <= i < |u| == |t|
    requires u[i + 1..] == t[i + 1..]
    requires u[j] == t[i]
    ensures Swap(u, i, j)[i..] == t[i..]
  {
    var v := Swap(u, i, j);
    forall k | i <= k < |v| ensures v[k] == t[k] {
      if k > i {
        assert v[k] == u[k] == u[i + 1..][k - i - 1] == t[i + 1..][k - i - 1];
      }
    }
  }

  /**
   * Steps i, ..., 1 can turn u into any t that agrees with u above i and holds
   * the same cards in positions 0..i; each draw of the witness is already in range.
   */
  lemma {:induction false} ShuffledReaches(u: seq<Card>, t: seq<Card>, i: nat) returns (draw: nat -> nat)
    requires i < |u| == |t|
    requires multiset(u[..i + 1]) == multiset(t[..i + 1])
    requires u[i + 1..] == t[i + 1..]
    ensures forall k :: draw(k) <= k
    ensures Shuffled(u, draw, i) == t
    decreases i
  {
    if i == 0 {
      FirstCardMatches(u, t);
      draw := (k: nat) => 0;
    } else {
      var j := StepToward(u, t, i);
      var v := Swap(u, i, j);
      var d := ShuffledReaches(v, t, i - 1);
      var r := Shuffled(v, d, i - 1);
      assert r == t;
      draw := WithPick(u, d, i, j);
      assert Shuffled(u, draw, i) == r;
    }
  }

  /** With one position left to match, the decks already agree. */
  lemma FirstCardMatches(u: seq<Card>, t: seq<Card>)
    requires 0 < |u| == |t|
    requires multiset(u[..1]) == multiset(t[..1])
    requires u[1..] == t[1..]
    ensures u == t
  {
    assert u[..1] == [u[0]] && t[..1] == [t[0]];
    assert u[0] in multiset(t[..1]);
    assert u == u[..1] + u[1..] && t == t[..1] + t[1..];
  }

  /** The draws d, changed at step i to pick j: step i swaps i and j, and steps i - 1, ..., 1 then run as under d. */
  lemma WithPick(u: seq<Card>, d: nat -> nat, i: nat, j: nat) returns (draw: nat -> nat)
    requires 0 < i < |u| && j <= i
    requires forall k :: d(k) <= k
    ensures forall k :: draw(k) <= k
    ensures Shuffled(u, draw, i) == Shuffled(Swap(u, i, j), d, i - 1)
  {
    draw := (k: nat) => if k == i then j else d(k);
    assert Pick(draw, i) == j;
    ShuffledStep(u, draw, i);
    ShuffledUsesOnlyItsDraws(Swap(u, i, j), draw, d, i - 1);
  }

  /**
   * Every order of the deck's cards is an outcome of the shuffle for some
   * sequence of random draws, each of them within the range 0..i the loop asks for.
   */
  lemma ShuffleReachesEveryOrder(s: seq<Card>, t: seq<Card>) returns (draw: nat -> nat)
    requires multiset(s) == multiset(t)
    ensures forall k :: draw(k) <= k
    ensures Shuffle(s, draw) == t
  {
    assert |s| == |multiset(s)| == |t|;
    if |s| == 0 {
      draw := (k: nat) => 0;
    } else {
      assert s[..|s|] == s && t[..|t|] == t;
      draw := ShuffledReaches(s, t, |s| - 1);
    }
  }

  /** Swapping two positions keeps the cards distinct. */
  lemma SwapKeepsDistinct(s: seq<Card>, i: nat, j: nat)
    requires i < |s| && j < |s| && Distinct(s)
    ensures Distinct(Swap(s, i, j))
  {
    var r := Swap(s, i, j);
    forall a, b | 0 <= a < b < |r| ensures r[a] != r[b] {
      var a' := if a == i then j else if a == j then i else a;
      var b' := if b == i then j else if b == j then i else b;
      assert r[a] == s[a'] && r[b] == s[b'] && a' != b';
    }
  }

  /**
   * On a deck of distinct cards, two runs of steps i, ..., 1 that end in the
   * same order picked the same index at every step.  Together with
   * ShuffleReachesEveryOrder this makes the picks and the orders of the deck
   * correspond one to one.
   */
  lemma {:induction false} ShuffledDeterminesPicks(s: seq<Card>, d1: nat -> nat, d2: nat -> nat, i: nat)
    requires i < |s| && Distinct(s)
    requires Shuffled(s, d1, i) == Shuffled(s, d2, i)
    ensures forall k :: 1 <= k <= i ==> Pick(d1, k) == Pick(d2, k)
    decreases i
  {
    if i > 0 {
      var u := SameLastPick(s, d1, d2, i);
      ShuffledDeterminesPicks(u, d1, d2, i - 1);
    }
  }

  /**
   * On distinct cards, two runs of steps i, ..., 1 that end in the same order
   * made the same pick at step i, and then ran steps i - 1, ..., 1 on the same
   * distinct deck to the same order.
   */
  lemma SameLastPick(s: seq<Card>, d1: nat -> nat, d2: nat -> nat, i: nat) returns (u: seq<Card>)
    requires 0 < i < |s| && Distinct(s)
    requires Shuffled(s, d1, i) == Shuffled(s, d2, i)
    ensures Pick(d1, i) == Pick(d2, i)
    ensures i - 1 < |u| && Distinct(u)
    ensures Shuffled(u, d1, i - 1) == Shuffled(u, d2, i - 1)
  {
    ShuffledSettles(s, d1, i);
    ShuffledSettles(s, d2, i);
    var j := Pick(d1, i);
    assert s[j] == s[Pick(d2, i)];
    u := Swap(s, i, j);
    ShuffledStep(s, d1, i);
    ShuffledStep(s, d2, i);
    SwapKeepsDistinct(s, i, j);
  }

  /** The same, for the whole shuffle. */
  lemma ShuffleDeterminesPicks(s: seq<Card>, d1: nat -> nat, d2: nat -> nat)
    requires Distinct(s)
    requires Shuffle(s, d1) == Shuffle(s, d2)
    ensures forall k :: 1 <= k < |s| ==> Pick(d1, k) == Pick(d2, k)
  {
    if |s| > 0 {
      ShuffledDeterminesPicks(s, d1, d2, |s| - 1);
    }
  }

  /**
   * The loop of the Shuffle button: from the last position down to 1, swap the
   * card at i with the card at the random index Pick(draw, i), some value in 0..i.
   */
  method ShuffleInPlace(a: array<Card>, draw: nat -> nat)
    modifies a
    ensures a[..] == Shuffle(old(a[..]), draw)
  {
    if a.Length == 0 {
      return;
    }
    var i := a.Length - 1;
    while i > 0
      invariant 0 <= i < a.Length
      invariant Shuffled(a[..], draw, i) == Shuffle(old(a[..]), draw)
    {
      ghost var before := a[..];
      var j := Pick(draw, i);
      a[i], a[j] := a[j], a[i];
      assert a[..] == Swap(before, i, j);
      ShuffledStep(before, draw, i);
      i := i - 1;
    }
  }
}
