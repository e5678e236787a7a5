/** `evaluatePartialHand` and `rankName` (src/utils/handEvaluator.js): a short label for
    the best made hand among fewer than five cards, and the category name otherwise. */
module PartialHand {
  import opened Wrappers
  import opened Deck
  import opened HandEvaluator
  import opened BestHand

  /** `VALUE_NAMES`. */
  const ValueNames: map<int, string> :=
    map[14 := "A", 13 := "K", 12 := "Q", 11 := "J", 10 := "10", 9 := "9", 8 := "8",
        7 := "7", 6 := "6", 5 := "5", 4 := "4", 3 := "3", 2 := "2"]

  function DigitChar(d: nat): (ch: char)
    requires d < 10
    ensures '0' <= ch <= '9' && (ch - '0') as int == d
  {
    "0123456789"[d]
  }

  /** The decimal digits of a natural number, as template interpolation writes them. */
  function NatString(n: nat): (s: string)
    ensures |s| >= 1
    ensures forall i :: 0 <= i < |s| ==> '0' <= s[i] <= '9'
    decreases n
  {
    if n < 10 then [DigitChar(n)] else NatString(n / 10) + [DigitChar(n % 10)]
  }

  predicate IsDigits(s: string) {
    forall i :: 0 <= i < |s| ==> '0' <= s[i] <= '9'
  }

  /** Reads the digits back. */
  function ParseNat(s: string): nat
    requires IsDigits(s)
  {
    if s == [] then 0 else 10 * ParseNat(s[..|s| - 1]) + (s[|s| - 1] - '0') as nat
  }

  lemma {:induction false} NatStringRoundTrip(n: nat)
    ensures ParseNat(NatString(n)) == n
    decreases n
  {
    if n >= 10 {
      NatStringRoundTrip(n / 10);
      var s := NatString(n);
      assert s[..|s| - 1] == NatString(n / 10);
      assert s[|s| - 1] == DigitChar(n % 10);
    }
  }

  /** `rankName`: the entry of `VALUE_NAMES`, or the number itself when there is none. */
  function RankName(v: int): (s: string)
    ensures 2 <= v <= 14 ==> s == ValueNames[v]
  {
    if v in ValueNames then ValueNames[v]
    else if v >= 0 then NatString(v)
    else "-" + NatString(-v)
  }

  /** A number without an entry is written out in decimal. */
  lemma RankNameFallback(v: nat)
    requires v !in ValueNames
    ensures IsDigits(RankName(v)) && ParseNat(RankName(v)) == v
  {
    NatStringRoundTrip(v);
  }

  /** Reads a card value back from its name: the inverse of `VALUE_NAMES`. */
  function NameValue(name: string): int {
    if |name| == 1 then
      var ch := name[0];
      if ch == 'A' then 14 else if ch == 'K' then 13 else if ch == 'Q' then 12
      else if ch == 'J' then 11 else if '2' <= ch <= '9' then (ch - '0') as int
      else 0
    else if name == "10" then 10
    else 0
  }

  /** The name of every card value reads back as that value. */
  lemma RankNameRoundTrip(v: int)
    requires 2 <= v <= 14
    ensures NameValue(RankName(v)) == v
  {
    if v == 14 {
      assert RankName(14) == "A";
    } else if v == 13 {
      assert RankName(13) == "K";
    } else if v == 12 {
      assert RankName(12) == "Q";
    } else if v == 11 {
      assert RankName(11) == "J";
    } else if v == 10 {
      assert RankName(10) == "10";
    } else if v == 9 {
      assert RankName(9) == "9";
    } else if v == 8 {
      assert RankName(8) == "8";
    } else if v == 7 {
      assert RankName(7) == "7";
    } else if v == 6 {
      assert RankName(6) == "6";
    } else if v == 5 {
      assert RankName(5) == "5";
    } else if v == 4 {
      assert RankName(4) == "4";
    } else if v == 3 {
      assert RankName(3) == "3";
    } else if v == 2 {
      assert RankName(2) == "2";
    }
  }

  /** Different card values have different names. */
  lemma RankNameInjective(v: int, w: int)
    requires 2 <= v <= 14 && 2 <= w <= 14 && v != w
    ensures RankName(v) != RankName(w)
  {
    RankNameRoundTrip(v);
    RankNameRoundTrip(w);
  }

  /** `evaluatePartialHand`: nothing for no cards, the category name of the best five
      for five or more, and otherwise a label read off the value groups. */
  function EvaluatePartialHand(cards: seq<Card>): (r: Option<string>)
    ensures r.None? <==> |cards| == 0
    ensures |cards| >= 5 ==>
      r == Some(FindBestHand(cards).value.evaluation.name)
      && exists rank | HighCard <= rank <= RoyalFlush :: r.value == HandName(rank)
  {
    if |cards| == 0 then None
    else if |cards| >= 5 then Some(FindBestHand(cards).value.evaluation.name)
    else Some(PartialLabel(SortedValues(cards)))
  }

  /** The values of the cards, highest first. */
  function SortedValues(cards: seq<Card>): (values: seq<int>)
    ensures SortedDesc(values) && |values| == |cards|
    ensures forall v :: multiset(values)[v] == Occurrences(cards, v)
  {
    SortDesc(CardValues(cards))
  }

  /** The label for one to four values, highest first, read off their groups. */
  function PartialLabel(values: seq<int>): string
    requires SortedDesc(values) && values != []
  {
    CountsFacts(values);
    var c := Counts(values);
    if c[0].count == 4 then "Four " + RankName(c[0].value) + "s"
    else if c[0].count == 3 then "Three " + RankName(c[0].value) + "s"
    else if |c| >= 2 && c[0].count == 2 && c[1].count == 2 then
      RankName(c[0].value) + "s and " + RankName(c[1].value) + "s"
    else if c[0].count == 2 then "Pair of " + RankName(c[0].value) + "s"
    else RankName(values[0]) + " High"
  }

  // ---------------------------------------------------------------------------
  // The labels, stated by how often each value occurs

  /** Two different values together occur at most as often as there are elements. */
  lemma {:induction false} TwoValuesBound(s: seq<int>, a: int, b: int)
    requires a != b
    ensures multiset(s)[a] + multiset(s)[b] <= |s|
  {
    if s != [] {
      TwoValuesBound(s[1..], a, b);
      assert s == [s[0]] + s[1..];
    }
  }

  /** Three different values together occur at most as often as there are elements. */
  lemma {:induction false} ThreeValuesBound(s: seq<int>, a: int, b: int, x: int)
    requires a != b && a != x && b != x
    ensures multiset(s)[a] + multiset(s)[b] + multiset(s)[x] <= |s|
  {
    if s != [] {
      ThreeValuesBound(s[1..], a, b, x);
      assert s == [s[0]] + s[1..];
    }
  }

  /** The facts about the groups of few values the label proofs use: the first group
      has the largest count, and groups of equal count are ordered by value. */
  lemma GroupBasics(values: seq<int>)
    requires SortedDesc(values) && values != []
    ensures var c := Counts(values);
      && |c| >= 1
      && (forall i :: 0 <= i < |c| ==> c[i].count == multiset(values)[c[i].value] >= 1)
      && (forall v :: multiset(values)[v] <= c[0].count)
      && (|c| >= 2 ==> Above(c[0], c[1]))
  {
    CountsFacts(values);
    var c := Counts(values);
    forall v ensures multiset(values)[v] <= c[0].count {
      if v in multiset(values) {
        var i := GroupOf(values, v);
        CountsNonIncreasing(c, 0, i);
      }
    }
  }

  /** A value `v` occurring twice among at most four, and no other value occurring
      twice or more, makes `v` the first group, with count 2. */
  lemma PairGroup(values: seq<int>, v: int)
    requires SortedDesc(values) && 1 <= |values| <= 4 && multiset(values)[v] == 2
    requires forall w :: w != v ==> multiset(values)[w] < 2
    ensures |Counts(values)| >= 1 && Counts(values)[0] == Group(v, 2)
    ensures |Counts(values)| >= 2 ==> Counts(values)[1].count != 2
  {
    GroupBasics(values);
    var c := Counts(values);
    assert c[0].value == v;
  }

  /** A value `v` occurring `n >= 3` times among at most four makes `v` the first
      group. */
  lemma BigGroup(values: seq<int>, v: int, n: nat)
    requires SortedDesc(values) && 1 <= |values| <= 4 && n >= 3 && multiset(values)[v] == n
    ensures |Counts(values)| >= 1 && Counts(values)[0] == Group(v, n)
  {
    GroupBasics(values);
    var c := Counts(values);
    if c[0].value != v {
      TwoValuesBound(values, c[0].value, v);
    }
  }

  /** With no value twice, the first group has count 1. */
  lemma SingleGroups(values: seq<int>)
    requires SortedDesc(values) && 1 <= |values| <= 4
    requires forall w :: multiset(values)[w] < 2
    ensures |Counts(values)| >= 1 && Counts(values)[0].count == 1
  {
    GroupBasics(values);
  }

  /** Four cards of value `v`: "Four Vs". */
  lemma PartialFour(cards: seq<Card>, v: int)
    requires 1 <= |cards| <= 4 && Occurrences(cards, v) == 4
    ensures EvaluatePartialHand(cards) == Some("Four " + RankName(v) + "s")
  {
    BigGroup(SortedValues(cards), v, 4);
  }

  /** Three cards of value `v`: "Three Vs". */
  lemma PartialThree(cards: seq<Card>, v: int)
    requires 1 <= |cards| <= 4 && Occurrences(cards, v) == 3
    ensures EvaluatePartialHand(cards) == Some("Three " + RankName(v) + "s")
  {
    BigGroup(SortedValues(cards), v, 3);
  }

  /** The groups of two pairs among at most four values: the higher pair first. */
  lemma TwoPairGroups(values: seq<int>, hi: int, lo: int)
    requires SortedDesc(values) && |values| <= 4 && hi > lo
    requires multiset(values)[hi] == 2 && multiset(values)[lo] == 2
    ensures |Counts(values)| >= 2
    ensures Counts(values)[0] == Group(hi, 2) && Counts(values)[1] == Group(lo, 2)
  {
    assert hi in multiset(values);
    GroupBasics(values);
    var c := Counts(values);
    if c[0].value != hi && c[0].value != lo {
      ThreeValuesBound(values, hi, lo, c[0].value);
    }
    var i := GroupOf(values, hi);
    var k := GroupOf(values, lo);
    assert i != k;
    assert |c| >= 2;
    if c[1].value != hi && c[1].value != lo {
      ThreeValuesBound(values, hi, lo, c[1].value);
    }
  }

  lemma TwoPairLabel(values: seq<int>, hi: int, lo: int)
    requires SortedDesc(values) && 1 <= |values| <= 4 && hi > lo
    requires multiset(values)[hi] == 2 && multiset(values)[lo] == 2
    ensures PartialLabel(values) == RankName(hi) + "s and " + RankName(lo) + "s"
  {
    TwoPairGroups(values, hi, lo);
  }

  /** Two cards each of `hi` and of a lower `lo`: "His and Los". */
  lemma PartialTwoPair(cards: seq<Card>, hi: int, lo: int)
    requires 1 <= |cards| <= 4 && hi > lo
    requires Occurrences(cards, hi) == 2 && Occurrences(cards, lo) == 2
    ensures EvaluatePartialHand(cards) == Some(RankName(hi) + "s and " + RankName(lo) + "s")
  {
    TwoPairLabel(SortedValues(cards), hi, lo);
  }

  lemma PairLabel(values: seq<int>, v: int)
    requires SortedDesc(values) && 1 <= |values| <= 4 && multiset(values)[v] == 2
    requires forall w :: w != v ==> multiset(values)[w] < 2
    ensures PartialLabel(values) == "Pair of " + RankName(v) + "s"
  {
    PairGroup(values, v);
  }

  /** Exactly one value `v` occurs twice and none more often: "Pair of Vs". */
  lemma PartialPair(cards: seq<Card>, v: int)
    requires 1 <= |cards| <= 4 && Occurrences(cards, v) == 2
    requires forall w :: w != v ==> Occurrences(cards, w) < 2
    ensures EvaluatePartialHand(cards) == Some("Pair of " + RankName(v) + "s")
  {
    PairLabel(SortedValues(cards), v);
  }
  /** No value occurs twice: the highest value, "M High". */
  lemma PartialHigh(cards: seq<Card>, m: int)
    requires 1 <= |cards| <= 4
    requires forall w :: Occurrences(cards, w) < 2
    requires Occurrences(cards, m) >= 1 && forall w :: Occurrences(cards, w) >= 1 ==> w <= m
    ensures EvaluatePartialHand(cards) == Some(RankName(m) + " High")
  {
    var values := SortedValues(cards);
    SingleGroups(values);
    assert values[0] in multiset(values);
    SortedHeadIsMax(values, m);
  }
}
