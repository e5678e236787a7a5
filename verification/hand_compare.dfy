/** `compareHands` (src/utils/handEvaluator.js): category first, then the tiebreakers
    position by position. */
module HandCompare {
  import opened Deck
  import opened HandEvaluator

  /** The tiebreaker loop from position `i` on. It runs over the first list only; where
      the second list has no entry the JavaScript comparison with `undefined` reports a
      difference that is never "greater", so the result is -1. */
  function CompareFrom(a: seq<int>, b: seq<int>, i: nat): (r: int)
    requires i <= |a|
    decreases |a| - i
  {
    if i == |a| then 0
    else if i >= |b| then -1
    else if a[i] != b[i] then (if a[i] > b[i] then 1 else -1)
    else CompareFrom(a, b, i + 1)
  }

  /** 1 if the first hand wins, -1 if the second wins, 0 for a tie. */
  function Compare(e1: Evaluation, e2: Evaluation): (r: int)
    ensures r in {-1, 0, 1}
    ensures e1.rank > e2.rank ==> r == 1
    ensures e1.rank < e2.rank ==> r == -1
  {
    if e1.rank != e2.rank then (if e1.rank > e2.rank then 1 else -1)
    else
      CompareFromRange(e1.tiebreakers, e2.tiebreakers, 0);
      CompareFrom(e1.tiebreakers, e2.tiebreakers, 0)
  }

  lemma {:induction false} CompareFromRange(a: seq<int>, b: seq<int>, i: nat)
    requires i <= |a|
    ensures CompareFrom(a, b, i) in {-1, 0, 1}
    decreases |a| - i
  {
    if i < |a| && i < |b| && a[i] == b[i] {
      CompareFromRange(a, b, i + 1);
    }
  }

  /** `a` and `b` agree before position `k`. */
  predicate AgreeBefore(a: seq<int>, b: seq<int>, k: nat)
    requires k <= |a| && k <= |b|
  {
    forall j :: 0 <= j < k ==> a[j] == b[j]
  }

  /** `a` is lexicographically above `b`: at the first position where they differ,
      `a` holds the larger value. */
  predicate LexAbove(a: seq<int>, b: seq<int>) {
    exists k :: 0 <= k < |a| && k < |b| && AgreeBefore(a, b, k) && a[k] > b[k]
  }

  /** The loop from `i` on, on lists of equal length: 0 exactly when the rest is equal,
      1 exactly when the rest of `a` is lexicographically above the rest of `b`. */
  lemma {:induction false} CompareFromMeaning(a: seq<int>, b: seq<int>, i: nat)
    requires |a| == |b| && i <= |a|
    requires AgreeBefore(a, b, i)
    ensures CompareFrom(a, b, i) == 0 <==> a == b
    ensures CompareFrom(a, b, i) == 1 <==> LexAbove(a, b)
    decreases |a| - i
  {
    if i == |a| {
      assert a == b;
    } else if a[i] != b[i] {
      assert a[i] != b[i] ==> a != b;
      if a[i] > b[i] {
        assert LexAbove(a, b);
      }
    } else {
      CompareFromMeaning(a, b, i + 1);
    }
  }

  /** The loop on equal-length lists is antisymmetric. */
  lemma {:induction false} CompareFromAntisymmetric(a: seq<int>, b: seq<int>, i: nat)
    requires |a| == |b| && i <= |a|
    ensures CompareFrom(a, b, i) == -CompareFrom(b, a, i)
    decreases |a| - i
  {
    if i < |a| && a[i] == b[i] {
      CompareFromAntisymmetric(a, b, i + 1);
    }
  }

  /** The loop on equal-length lists is transitive. */
  lemma {:induction false} CompareFromTransitive(a: seq<int>, b: seq<int>, c: seq<int>, i: nat)
    requires |a| == |b| == |c| && i <= |a|
    requires CompareFrom(a, b, i) >= 0 && CompareFrom(b, c, i) >= 0
    ensures CompareFrom(a, c, i) >= 0
    ensures CompareFrom(a, b, i) > 0 || CompareFrom(b, c, i) > 0 ==> CompareFrom(a, c, i) > 0
    decreases |a| - i
  {
    if i < |a| && a[i] == b[i] && b[i] == c[i] {
      CompareFromTransitive(a, b, c, i + 1);
    }
  }

  /** Every hand ties with itself. */
  lemma {:induction false} CompareReflexive(e: Evaluation)
    ensures Compare(e, e) == 0
  {
    CompareFromMeaning(e.tiebreakers, e.tiebreakers, 0);
  }

  /** Between evaluations of five cards: a tie exactly when category and tiebreakers
      agree; a win exactly for the higher category, or the same category and
      lexicographically higher tiebreakers. */
  lemma CompareMeaning(e1: Evaluation, e2: Evaluation)
    requires WellFormed(e1) && WellFormed(e2)
    ensures Compare(e1, e2) == 0 <==> e1.rank == e2.rank && e1.tiebreakers == e2.tiebreakers
    ensures Compare(e1, e2) == 1 <==>
      e1.rank > e2.rank || (e1.rank == e2.rank && LexAbove(e1.tiebreakers, e2.tiebreakers))
  {
    if e1.rank == e2.rank {
      CompareFromMeaning(e1.tiebreakers, e2.tiebreakers, 0);
    }
  }

  /** Swapping the hands negates the verdict. */
  lemma CompareAntisymmetric(e1: Evaluation, e2: Evaluation)
    requires WellFormed(e1) && WellFormed(e2)
    ensures Compare(e1, e2) == -Compare(e2, e1)
  {
    if e1.rank == e2.rank {
      CompareFromAntisymmetric(e1.tiebreakers, e2.tiebreakers, 0);
    }
  }

  /** "At least as good as" is transitive, and strictly so when either step is strict. */
  lemma CompareTransitive(e1: Evaluation, e2: Evaluation, e3: Evaluation)
    requires WellFormed(e1) && WellFormed(e2) && WellFormed(e3)
    requires Compare(e1, e2) >= 0 && Compare(e2, e3) >= 0
    ensures Compare(e1, e3) >= 0
    ensures Compare(e1, e2) > 0 || Compare(e2, e3) > 0 ==> Compare(e1, e3) > 0
  {
    if e1.rank == e2.rank == e3.rank {
      CompareFromTransitive(e1.tiebreakers, e2.tiebreakers, e3.tiebreakers, 0);
    }
  }

  /** The order the comparison puts on five-card hands does not depend on the order of
      the cards within a hand. */
  lemma CompareOrderIndependent(p1: seq<Card>, q1: seq<Card>, p2: seq<Card>, q2: seq<Card>)
    requires |p1| == 5 && |p2| == 5 && |q1| == 5 && |q2| == 5
    requires multiset(p1) == multiset(q1) && multiset(p2) == multiset(q2)
    ensures Compare(EvaluateHand(p1).value, EvaluateHand(p2).value) ==
            Compare(EvaluateHand(q1).value, EvaluateHand(q2).value)
  {
    EvaluateHandOrderIndependent(p1, q1);
    EvaluateHandOrderIndependent(p2, q2);
  }
}
