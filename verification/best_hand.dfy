/** `findBestHand` (src/utils/handEvaluator.js): the best five-card hand among all
    five-card choices of the cards. */
module BestHand {
  import opened Wrappers
  import opened Deck
  import opened HandEvaluator
  import opened HandCompare
  import opened Combinations

  /** The object `findBestHand` returns. */
  datatype BestHand = BestHand(cards: seq<Card>, evaluation: Evaluation)

  /** The evaluations of five-card hands, in order. */
  function Evaluations(hands: seq<seq<Card>>): (es: seq<Evaluation>)
    requires forall j :: 0 <= j < |hands| ==> |hands[j]| == 5
    ensures |es| == |hands|
    ensures forall j :: 0 <= j < |es| ==> es[j] == EvaluateHand(hands[j]).value && WellFormed(es[j])
  {
    seq(|hands|, j requires 0 <= j < |hands| => EvaluateHand(hands[j]).value)
  }

  /** A strictly better evaluation at `i` beats everything before `i` strictly. */
  lemma StepUp(es: seq<Evaluation>, i: nat, best: nat)
    requires forall j :: 0 <= j < |es| ==> WellFormed(es[j])
    requires best < i < |es|
    requires forall j :: 0 <= j < i ==> Compare(es[best], es[j]) >= 0
    requires Compare(es[i], es[best]) > 0
    ensures forall j :: 0 <= j < i ==> Compare(es[i], es[j]) > 0
    ensures Compare(es[i], es[i]) >= 0
  {
    forall j | 0 <= j < i ensures Compare(es[i], es[j]) > 0 {
      CompareTransitive(es[i], es[best], es[j]);
    }
    CompareReflexive(es[i]);
  }

  /** The loop of `findBestHand` from combination `i` on, with `best` the winner so far:
      a later combination replaces it only when strictly better. The result beats or
      ties every combination and strictly beats every earlier one. */
  function ScanBest(es: seq<Evaluation>, i: nat, best: nat): (b: nat)
    requires forall j :: 0 <= j < |es| ==> WellFormed(es[j])
    requires best < i <= |es|
    requires forall j :: 0 <= j < i ==> Compare(es[best], es[j]) >= 0
    requires forall j :: 0 <= j < best ==> Compare(es[best], es[j]) > 0
    ensures b < |es|
    ensures forall j :: 0 <= j < |es| ==> Compare(es[b], es[j]) >= 0
    ensures forall j :: 0 <= j < b ==> Compare(es[b], es[j]) > 0
    decreases |es| - i
  {
    if i == |es| then best
    else if Compare(es[i], es[best]) > 0 then
      StepUp(es, i, best);
      ScanBest(es, i + 1, i)
    else
      CompareAntisymmetric(es[i], es[best]);
      ScanBest(es, i + 1, best)
  }

  /** The index of the first evaluation that beats or ties all others. */
  function BestIndex(es: seq<Evaluation>): (b: nat)
    requires |es| >= 1 && forall j :: 0 <= j < |es| ==> WellFormed(es[j])
    ensures b < |es|
    ensures forall j :: 0 <= j < |es| ==> Compare(es[b], es[j]) >= 0
    ensures forall j :: 0 <= j < b ==> Compare(es[b], es[j]) > 0
  {
    CompareReflexive(es[0]);
    ScanBest(es, 1, 0)
  }

  /** The index of the first five-card hand whose evaluation beats or ties all others. */
  function BestOf(hands: seq<seq<Card>>): (b: nat)
    requires |hands| >= 1 && forall j :: 0 <= j < |hands| ==> |hands[j]| == 5
    ensures b < |hands|
    ensures forall j :: 0 <= j < |hands| ==>
      Compare(EvaluateHand(hands[b]).value, EvaluateHand(hands[j]).value) >= 0
    ensures forall j :: 0 <= j < b ==>
      Compare(EvaluateHand(hands[b]).value, EvaluateHand(hands[j]).value) > 0
  {
    BestIndex(Evaluations(hands))
  }

  /** `findBestHand`: throws for fewer than five cards, returns five cards unchanged,
      and otherwise the first best of the five-card combinations. */
  function FindBestHand(cards: seq<Card>): (r: Result<BestHand>)
    ensures r.Ok? <==> |cards| >= 5
    ensures r.Err? ==> r.error == NeedAtLeastFiveCards
    ensures r.Ok? ==> |r.value.cards| == 5 && r.value.evaluation == EvaluateHand(r.value.cards).value
    ensures |cards| == 5 ==> r.value.cards == cards
  {
    if |cards| < 5 then Err(NeedAtLeastFiveCards)
    else if |cards| == 5 then Ok(BestHand(cards, EvaluateHand(cards).value))
    else
      var hands := GetCombinations(cards, 5);
      FirstCombination(|cards|);
      var b := BestOf(hands);
      Ok(BestHand(hands[b], EvaluateHand(hands[b]).value))
  }

  /** The first combination is the first five positions. */
  lemma FirstCombination(n: nat)
    requires n >= 5
    ensures |Combos(0, n, 5)| >= 1
  {
    assert IndexSet(Range(5), 0, n);
    CombosComplete(0, n, 5, Range(5));
  }

  /** `findBestHand` for more than five cards picks the first combination, in the order
      `getCombinations` emits them, whose evaluation beats or ties all the others. */
  lemma FindBestHandFirstBest(cards: seq<Card>)
    requires |cards| > 5
    ensures var hands := GetCombinations(cards, 5);
      exists b :: 0 <= b < |hands| && FindBestHand(cards).value.cards == hands[b] &&
        (forall j :: 0 <= j < |hands| ==>
           Compare(FindBestHand(cards).value.evaluation, EvaluateHand(hands[j]).value) >= 0) &&
        (forall j :: 0 <= j < b ==>
           Compare(FindBestHand(cards).value.evaluation, EvaluateHand(hands[j]).value) > 0)
  {
    FirstCombination(|cards|);
    var hands := GetCombinations(cards, 5);
    var b := BestOf(hands);
    assert FindBestHand(cards).value.cards == hands[b];
  }

  /** The chosen cards are five of the given cards, taken in their original order. */
  lemma FindBestHandIsSelection(cards: seq<Card>)
    requires |cards| >= 5
    ensures exists idx ::
      && |idx| == 5 && IndexSet(idx, 0, |cards|)
      && FindBestHand(cards).value.cards == Pick(cards, idx)
  {
    if |cards| == 5 {
      PickRange(cards);
      assert IndexSet(Range(5), 0, |cards|);
    } else {
      FindBestHandFirstBest(cards);
      var hands := GetCombinations(cards, 5);
      var b :| 0 <= b < |hands| && FindBestHand(cards).value.cards == hands[b];
      var idx := Combos(0, |cards|, 5)[b];
      assert FindBestHand(cards).value.cards == Pick(cards, idx);
    }
  }

  /** No choice of five of the cards beats the chosen hand. */
  lemma FindBestHandOptimal(cards: seq<Card>, idx: seq<nat>)
    requires |cards| >= 5 && |idx| == 5 && IndexSet(idx, 0, |cards|)
    ensures Compare(FindBestHand(cards).value.evaluation, EvaluateHand(Pick(cards, idx)).value) >= 0
  {
    if |cards| == 5 {
      IndexSetFull(idx, 5);
      PickRange(cards);
      CompareReflexive(EvaluateHand(cards).value);
    } else {
      FindBestHandFirstBest(cards);
      CombosComplete(0, |cards|, 5, idx);
      var cs := Combos(0, |cards|, 5);
      var j :| 0 <= j < |cs| && cs[j] == idx;
      assert GetCombinations(cards, 5)[j] == Pick(cards, idx);
    }
  }
}
