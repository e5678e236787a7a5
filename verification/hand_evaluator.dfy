/** `evaluateHand` and its helpers (src/utils/handEvaluator.js): classification of exactly
    five cards into one of ten categories with an ordered tiebreaker list. */
module HandEvaluator {
  import opened Wrappers
  import opened Deck

  /** `HAND_RANKS` (higher is better). */
  const HighCard: int := 1
  const OnePair: int := 2
  const TwoPair: int := 3
  const ThreeOfAKind: int := 4
  const Straight: int := 5
  const Flush: int := 6
  const FullHouse: int := 7
  const FourOfAKind: int := 8
  const StraightFlush: int := 9
  const RoyalFlush: int := 10

  /** `HAND_NAMES`, as a function on the ten ranks. */
  function HandName(rank: int): string
    requires HighCard <= rank <= RoyalFlush
  {
    if rank == HighCard then "High Card"
    else if rank == OnePair then "One Pair"
    else if rank == TwoPair then "Two Pair"
    else if rank == ThreeOfAKind then "Three of a Kind"
    else if rank == Straight then "Straight"
    else if rank == Flush then "Flush"
    else if rank == FullHouse then "Full House"
    else if rank == FourOfAKind then "Four of a Kind"
    else if rank == StraightFlush then "Straight Flush"
    else "Royal Flush"
  }

  /** Each of the ten categories has a name of its own. */
  lemma HandNameInjective(a: int, b: int)
    requires HighCard <= a <= RoyalFlush && HighCard <= b <= RoyalFlush
    ensures HandName(a) == HandName(b) <==> a == b
  {
  }

  /** The object `evaluateHand` returns. */
  datatype Evaluation = Evaluation(rank: int, tiebreakers: seq<int>, name: string)

  /** The fixed tiebreaker length of each category. */
  function TiebreakerLength(rank: int): nat {
    if rank == RoyalFlush || rank == Flush || rank == HighCard then 5
    else if rank == StraightFlush || rank == Straight then 1
    else if rank == FourOfAKind || rank == FullHouse then 2
    else if rank == ThreeOfAKind || rank == TwoPair then 3
    else 4
  }

  /** What every evaluation of five cards looks like: a rank in 1..10, the matching
      name from `HAND_NAMES`, and the category's tiebreaker length. */
  predicate WellFormed(e: Evaluation) {
    && HighCard <= e.rank <= RoyalFlush
    && e.name == HandName(e.rank)
    && |e.tiebreakers| == TiebreakerLength(e.rank)
  }

  // ---------------------------------------------------------------------------
  // Values, sorted descending

  /** `cards.map(c => rankValue(c.rank))`. */
  function CardValues(cards: seq<Card>): seq<int> {
    seq(|cards|, i requires 0 <= i < |cards| => Value(cards[i].rank))
  }

  /** How many of the cards have rank value `v`. */
  function Occurrences(cards: seq<Card>, v: int): nat {
    multiset(CardValues(cards))[v]
  }

  predicate SortedDesc(s: seq<int>) {
    forall i, j :: 0 <= i < j < |s| ==> s[i] >= s[j]
  }

  function InsertDesc(x: int, s: seq<int>): (r: seq<int>)
    requires SortedDesc(s)
    ensures SortedDesc(r)
    ensures multiset(r) == multiset(s) + multiset{x}
    ensures |r| == |s| + 1
  {
    if s == [] || x >= s[0] then
      ConsSorted(x, s);
      [x] + s
    else
      SortedTailBelowHead(s);
      HeadTailMultiset(s);
      var rest := InsertDesc(x, s[1..]);
      assert rest[0] in multiset(rest);
      ConsSorted(s[0], rest);
      [s[0]] + rest
  }

  /** A value at least the head of a descending sequence can be put in front. */
  lemma ConsSorted(x: int, s: seq<int>)
    requires SortedDesc(s) && (s != [] ==> x >= s[0])
    ensures SortedDesc([x] + s)
  {
    var r := [x] + s;
    forall i, j | 0 <= i < j < |r| ensures r[i] >= r[j] {
      assert r[j] == s[j - 1];
      if i > 0 {
        assert r[i] == s[i - 1];
      }
    }
  }

  /** `.sort((a, b) => b - a)`: numeric, descending. */
  function SortDesc(s: seq<int>): (r: seq<int>)
    ensures SortedDesc(r)
    ensures multiset(r) == multiset(s)
    ensures |r| == |s|
  {
    if s == [] then []
    else
      HeadTailMultiset(s);
      InsertDesc(s[0], SortDesc(s[1..]))
  }

  /** The head of a descending sequence bounds all of its elements. */
  lemma SortedHeadIsMax(s: seq<int>, x: int)
    requires SortedDesc(s) && x in multiset(s)
    ensures s[0] >= x
  {
    var i :| 0 <= i < |s| && s[i] == x;
  }

  /** There is only one descending arrangement of a multiset of numbers: the sorted
      values of a hand depend on its cards and not on their order. */
  lemma {:induction false} SortedUnique(a: seq<int>, b: seq<int>)
    requires SortedDesc(a) && SortedDesc(b)
    requires multiset(a) == multiset(b)
    ensures a == b
  {
    if a != [] {
      assert a[0] in multiset(b) && b[0] in multiset(a);
      SortedHeadIsMax(a, b[0]);
      SortedHeadIsMax(b, a[0]);
      assert a[0] == b[0];
      HeadTailMultiset(a);
      HeadTailMultiset(b);
      assert multiset(a[1..]) == multiset(a) - multiset{a[0]};
      assert multiset(b[1..]) == multiset(b) - multiset{b[0]};
      SortedTailBelowHead(a);
      SortedTailBelowHead(b);
      SortedUnique(a[1..], b[1..]);
      HeadTailEqual(a, b);
    } else {
      assert |b| == |multiset(b)| == 0;
    }
  }

  // ---------------------------------------------------------------------------
  // Rank groups: the `counts` array

  /** One entry of `counts`: a rank value and how many cards carry it. */
  datatype Group = Group(value: int, count: nat)

  /** The order `counts` is sorted in: count descending, then value descending. */
  predicate Above(a: Group, b: Group) {
    a.count > b.count || (a.count == b.count && a.value > b.value)
  }

  function GroupValues(gs: seq<Group>): (vs: seq<int>)
    ensures |vs| == |gs|
    ensures forall i :: 0 <= i < |gs| ==> vs[i] == gs[i].value
  {
    if gs == [] then [] else [gs[0].value] + GroupValues(gs[1..])
  }

  function SumCounts(gs: seq<Group>): int {
    if gs == [] then 0 else gs[0].count + SumCounts(gs[1..])
  }

  /** Run-length encoding of descending values: the tally `rankCounts`, one group per
      distinct value, in descending value order. */
  function RunLength(s: seq<int>): (gs: seq<Group>)
    ensures |gs| <= |s|
    ensures s != [] ==> gs != [] && gs[0].value == s[0]
  {
    if s == [] then []
    else
      var rest := RunLength(s[1..]);
      if rest != [] && rest[0].value == s[0] then [Group(s[0], rest[0].count + 1)] + rest[1..]
      else [Group(s[0], 1)] + rest
  }

  /** Every member of a descending sequence is at most its head. */
  lemma SortedTailBelowHead(s: seq<int>)
    requires SortedDesc(s) && s != []
    ensures forall v :: v in multiset(s[1..]) ==> v <= s[0]
    ensures SortedDesc(s[1..])
  {
    forall v | v in multiset(s[1..]) ensures v <= s[0] {
      var k :| 0 <= k < |s[1..]| && s[1..][k] == v;
      assert s[1..][k] == s[k + 1];
    }
  }

  /** The run-length groups carry values of the sequence. */
  lemma {:induction false} RunLengthMembers(s: seq<int>)
    ensures forall i :: 0 <= i < |RunLength(s)| ==> RunLength(s)[i].value in multiset(s)
  {
    if s != [] {
      var t := s[1..];
      assert s == [s[0]] + t;
      assert multiset(s) == multiset{s[0]} + multiset(t);
      RunLengthMembers(t);
      var rest := RunLength(t);
      var gs := RunLength(s);
      forall i | 0 <= i < |gs| ensures gs[i].value in multiset(s) {
        if i > 0 && rest != [] && rest[0].value == s[0] {
          assert gs[i] == rest[i];
        } else if i > 0 {
          assert gs[i] == rest[i - 1];
        }
      }
    }
  }

  /** Groups listed with strictly descending values. */
  predicate StrictlyDescending(gs: seq<Group>) {
    forall i, j :: 0 <= i < j < |gs| ==> gs[i].value > gs[j].value
  }

  lemma StrictlyDescendingCons(g: Group, gs: seq<Group>)
    requires StrictlyDescending(gs)
    requires gs != [] ==> g.value > gs[0].value
    ensures StrictlyDescending([g] + gs)
  {
    var r := [g] + gs;
    forall i, j | 0 <= i < j < |r| ensures r[i].value > r[j].value {
      assert r[j] == gs[j - 1];
      if i > 0 {
        assert r[i] == gs[i - 1];
      }
    }
  }

  lemma StrictlyDescendingTail(gs: seq<Group>)
    requires StrictlyDescending(gs) && gs != []
    ensures StrictlyDescending(gs[1..])
    ensures forall x :: x in multiset(gs[1..]) ==> x.value < gs[0].value
  {
    var t := gs[1..];
    forall i, j | 0 <= i < j < |t| ensures t[i].value > t[j].value {
      assert t[i] == gs[i + 1] && t[j] == gs[j + 1];
    }
    forall x | x in multiset(t) ensures x.value < gs[0].value {
      var k :| 0 <= k < |t| && t[k] == x;
      assert t[k] == gs[k + 1];
    }
  }

  /** The run-length groups of descending values are in strictly descending order. */
  lemma {:induction false} RunLengthValues(s: seq<int>)
    requires SortedDesc(s)
    ensures StrictlyDescending(RunLength(s))
  {
    if s != [] {
      var t := s[1..];
      assert s == [s[0]] + t;
      SortedTailBelowHead(s);
      RunLengthValues(t);
      var rest := RunLength(t);
      if rest != [] && rest[0].value == s[0] {
        StrictlyDescendingCons(Group(s[0], rest[0].count + 1), rest[1..]);
      } else {
        if rest != [] {
          assert rest[0].value == t[0] && t[0] in multiset(t);
        }
        StrictlyDescendingCons(Group(s[0], 1), rest);
      }
    }
  }

  /** Each group's count is the multiplicity of its value. */
  lemma {:induction false} RunLengthCounts(s: seq<int>)
    requires SortedDesc(s)
    ensures forall i :: 0 <= i < |RunLength(s)| ==>
              RunLength(s)[i].count == multiset(s)[RunLength(s)[i].value] >= 1
  {
    if s != [] {
      var t := s[1..];
      HeadTailMultiset(s);
      SortedTailBelowHead(s);
      RunLengthMembers(t);
      RunLengthValues(t);
      RunLengthValues(s);
      RunLengthCounts(t);
      var rest := RunLength(t);
      var gs := RunLength(s);
      if rest != [] && rest[0].value == s[0] {
        assert gs == [Group(s[0], rest[0].count + 1)] + rest[1..];
        forall i | 0 <= i < |gs| ensures gs[i].count == multiset(s)[gs[i].value] >= 1 {
          if i > 0 {
            assert gs[i] == rest[i];
            assert gs[i].value != s[0] by {
              assert gs[i].value < gs[0].value;
            }
          }
        }
      } else {
        assert gs == [Group(s[0], 1)] + rest;
        assert s[0] !in multiset(t);
        forall i | 0 <= i < |gs| ensures gs[i].count == multiset(s)[gs[i].value] >= 1 {
          if i > 0 {
            assert gs[i] == rest[i - 1];
            assert gs[i].value != s[0] by {
              assert gs[i].value < gs[0].value;
            }
          }
        }
      }
    }
  }

  /** Every value of the sequence has a group. */
  lemma {:induction false} RunLengthCovers(s: seq<int>)
    requires SortedDesc(s)
    ensures forall v :: v in multiset(s) ==> v in GroupValues(RunLength(s))
  {
    if s != [] {
      var t := s[1..];
      assert s == [s[0]] + t;
      SortedTailBelowHead(s);
      RunLengthCovers(t);
      var rest := RunLength(t);
      var gs := RunLength(s);
      forall v | v in multiset(s) ensures v in GroupValues(gs) {
        if v == s[0] {
          assert GroupValues(gs)[0] == v;
        } else {
          assert v in multiset(t);
          var k :| 0 <= k < |rest| && GroupValues(rest)[k] == v;
          if rest != [] && rest[0].value == s[0] {
            assert gs == [Group(s[0], rest[0].count + 1)] + rest[1..];
            assert GroupValues(gs)[k] == v;
          } else {
            assert gs == [Group(s[0], 1)] + rest;
            assert GroupValues(gs)[k + 1] == v;
          }
        }
      }
    }
  }

  /** The groups' counts add up to the number of values. */
  lemma {:induction false} RunLengthSum(s: seq<int>)
    ensures SumCounts(RunLength(s)) == |s|
  {
    if s != [] {
      RunLengthSum(s[1..]);
      var rest := RunLength(s[1..]);
      if rest != [] && rest[0].value == s[0] {
        assert SumCounts(rest) == rest[0].count + SumCounts(rest[1..]);
      }
    }
  }

  /** Sorted by the `counts` order, each group strictly before the next. */
  predicate SortedByCount(gs: seq<Group>) {
    forall i, j :: 0 <= i < j < |gs| ==> Above(gs[i], gs[j])
  }

  function InsertGroup(g: Group, gs: seq<Group>): (r: seq<Group>)
    requires SortedByCount(gs)
    requires forall i :: 0 <= i < |gs| ==> gs[i].value != g.value
    ensures SortedByCount(r)
    ensures multiset(r) == multiset(gs) + multiset{g}
    ensures |r| == |gs| + 1
    ensures SumCounts(r) == g.count + SumCounts(gs)
  {
    if gs == [] || Above(g, gs[0]) then
      ConsByCount(g, gs);
      [g] + gs
    else
      SortedByCountTail(gs);
      HeadTailMultiset(gs);
      var rest := InsertGroup(g, gs[1..]);
      assert rest[0] in multiset(rest);
      ConsByCount(gs[0], rest);
      [gs[0]] + rest
  }

  /** A group above the head of a sorted tally can be put in front. */
  lemma ConsByCount(g: Group, gs: seq<Group>)
    requires SortedByCount(gs) && (gs != [] ==> Above(g, gs[0]))
    ensures SortedByCount([g] + gs)
  {
    var r := [g] + gs;
    forall i, j | 0 <= i < j < |r| ensures Above(r[i], r[j]) {
      assert r[j] == gs[j - 1];
      if i > 0 {
        assert r[i] == gs[i - 1];
      } else if j > 1 {
        assert Above(gs[0], gs[j - 1]);
      }
    }
  }

  /** The tail of a sorted tally is sorted and below its head. */
  lemma SortedByCountTail(gs: seq<Group>)
    requires SortedByCount(gs) && gs != []
    ensures SortedByCount(gs[1..])
    ensures forall x :: x in multiset(gs[1..]) ==> Above(gs[0], x)
  {
    var t := gs[1..];
    forall i, j | 0 <= i < j < |t| ensures Above(t[i], t[j]) {
      assert t[i] == gs[i + 1] && t[j] == gs[j + 1];
    }
    forall x | x in multiset(t) ensures Above(gs[0], x) {
      var k :| 0 <= k < |t| && t[k] == x;
      assert t[k] == gs[k + 1];
    }
  }

  lemma ValuesBelow(gs: seq<Group>, hs: seq<Group>, bound: int)
    requires multiset(gs) == multiset(hs)
    requires forall x :: x in multiset(hs) ==> x.value < bound
    ensures forall i :: 0 <= i < |gs| ==> gs[i].value != bound
  {
    forall i | 0 <= i < |gs| ensures gs[i].value != bound {
      assert gs[i] in multiset(hs);
    }
  }

  /** The `.sort((a, b) => b.count - a.count || b.value - a.value)` of the tally. */
  function SortGroups(gs: seq<Group>): (r: seq<Group>)
    requires StrictlyDescending(gs)
    ensures SortedByCount(r)
    ensures multiset(r) == multiset(gs)
    ensures |r| == |gs|
    ensures SumCounts(r) == SumCounts(gs)
  {
    if gs == [] then []
    else
      StrictlyDescendingTail(gs);
      var sorted := SortGroups(gs[1..]);
      ValuesBelow(sorted, gs[1..], gs[0].value);
      HeadTailMultiset(gs);
      InsertGroup(gs[0], sorted)
  }

  /** Sequences with the same head and the same tail are equal. */
  lemma HeadTailEqual<T>(a: seq<T>, b: seq<T>)
    requires a != [] && b != [] && a[0] == b[0] && a[1..] == b[1..]
    ensures a == b
  {
    assert a == [a[0]] + a[1..] && b == [b[0]] + b[1..];
  }

  lemma HeadTailMultiset<T>(s: seq<T>)
    requires s != []
    ensures multiset(s) == multiset(s[1..]) + multiset{s[0]}
  {
    assert s == [s[0]] + s[1..];
  }

  /** The `counts` array of `evaluateHand` and `evaluatePartialHand`, built from the
      descending values. */
  function Counts(values: seq<int>): (c: seq<Group>)
    requires SortedDesc(values)
  {
    RunLengthValues(values);
    SortGroups(RunLength(values))
  }

  /** What `counts` is: one group per distinct value, each with that value's
      multiplicity, ordered by count and then value, with counts adding up to the
      number of values. */
  lemma CountsFacts(values: seq<int>)
    requires SortedDesc(values)
    ensures var c := Counts(values);
      && SortedByCount(c)
      && (forall i :: 0 <= i < |c| ==> c[i].count == multiset(values)[c[i].value] >= 1)
      && (forall v :: v in multiset(values) ==> v in GroupValues(c))
      && SumCounts(c) == |values|
      && (values != [] ==> c != [])
  {
    RunLengthCounts(values);
    RunLengthCovers(values);
    RunLengthSum(values);
    PermutedCounts(RunLength(values), Counts(values), values);
    PermutedCover(RunLength(values), Counts(values), values);
  }

  lemma PermutedCounts(rl: seq<Group>, c: seq<Group>, values: seq<int>)
    requires multiset(c) == multiset(rl)
    requires forall k :: 0 <= k < |rl| ==> rl[k].count == multiset(values)[rl[k].value] >= 1
    ensures forall i :: 0 <= i < |c| ==> c[i].count == multiset(values)[c[i].value] >= 1
  {
    forall i | 0 <= i < |c| ensures c[i].count == multiset(values)[c[i].value] >= 1 {
      assert c[i] in multiset(rl);
      var k :| 0 <= k < |rl| && rl[k] == c[i];
    }
  }

  lemma PermutedCover(rl: seq<Group>, c: seq<Group>, values: seq<int>)
    requires multiset(c) == multiset(rl)
    requires forall v :: v in multiset(values) ==> v in GroupValues(rl)
    ensures forall v :: v in multiset(values) ==> v in GroupValues(c)
  {
    forall v | v in multiset(values) ensures v in GroupValues(c) {
      var k :| 0 <= k < |rl| && GroupValues(rl)[k] == v;
      assert rl[k] in multiset(c);
      var i :| 0 <= i < |c| && c[i] == rl[k];
      assert GroupValues(c)[i] == v;
    }
  }

  // ---------------------------------------------------------------------------
  // The shape of `counts` for five values

  lemma {:induction false} SumCountsBounds(gs: seq<Group>, most: nat)
    requires forall i :: 0 <= i < |gs| ==> 1 <= gs[i].count <= most
    ensures |gs| <= SumCounts(gs) <= most * |gs|
  {
    if gs != [] {
      SumCountsBounds(gs[1..], most);
    }
  }

  /** Counts never increase along `counts`. */
  lemma CountsNonIncreasing(c: seq<Group>, i: int, j: int)
    requires SortedByCount(c) && 0 <= i <= j < |c|
    ensures c[i].count >= c[j].count
  {
    if i < j {
      assert Above(c[i], c[j]);
    }
  }

  /** Groups of at least one card each, in `counts` order, holding five cards. */
  predicate FiveCounts(c: seq<Group>) {
    && c != []
    && SortedByCount(c)
    && (forall i :: 0 <= i < |c| ==> c[i].count >= 1)
    && SumCounts(c) == 5
  }

  /** The groups from position `k` on hold at least one and at most `c[k].count`
      cards each, and their total is the count at `k` plus the rest. */
  lemma SuffixSum(c: seq<Group>, k: nat)
    requires FiveCounts(c) && k < |c|
    ensures |c[k..]| <= SumCounts(c[k..]) <= c[k].count * |c[k..]|
    ensures SumCounts(c[k..]) == c[k].count + SumCounts(c[k + 1..])
  {
    forall i | 0 <= i < |c[k..]| ensures 1 <= c[k..][i].count <= c[k].count {
      CountsNonIncreasing(c, k, k + i);
    }
    SumCountsBounds(c[k..], c[k].count);
    assert c[k..][1..] == c[k + 1..];
  }

  lemma SumCountsEmpty(c: seq<Group>, k: nat)
    requires k == |c|
    ensures SumCounts(c[k..]) == 0
  {
    assert c[k..] == [];
  }

  lemma ShapeFourOrFive(c: seq<Group>)
    requires FiveCounts(c) && c[0].count >= 4
    ensures c[0].count == 5 ==> |c| == 1
    ensures c[0].count == 4 ==> |c| == 2 && c[1].count == 1
  {
    SuffixSum(c, 0);
    assert c[0..] == c;
    if |c| > 1 {
      SuffixSum(c, 1);
      if |c| == 2 {
        SumCountsEmpty(c, 2);
      }
    }
  }

  lemma ShapeThree(c: seq<Group>)
    requires FiveCounts(c) && c[0].count == 3
    ensures |c| >= 2 && c[1].count <= 2
    ensures c[1].count == 2 ==> |c| == 2
    ensures c[1].count != 2 ==> |c| == 3 && c[1].count == 1 && c[2].count == 1
  {
    SuffixSum(c, 0);
    assert c[0..] == c;
    SuffixSum(c, 1);
    if |c| > 2 {
      SuffixSum(c, 2);
      if |c| == 3 {
        SumCountsEmpty(c, 3);
      }
    } else {
      SumCountsEmpty(c, 2);
    }
  }

  lemma ShapeTwo(c: seq<Group>)
    requires FiveCounts(c) && c[0].count == 2
    ensures |c| >= 3 && c[1].count <= 2
    ensures c[1].count == 2 ==> |c| == 3 && c[2].count == 1
    ensures c[1].count != 2 ==> |c| == 4 && c[1].count == 1 && c[2].count == 1 && c[3].count == 1
  {
    SuffixSum(c, 0);
    assert c[0..] == c;
    SuffixSum(c, 1);
    SuffixSum(c, 2);
    if |c| > 3 {
      SuffixSum(c, 3);
      if |c| == 4 {
        SumCountsEmpty(c, 4);
      }
    } else {
      SumCountsEmpty(c, 3);
    }
  }

  lemma ShapeOne(c: seq<Group>)
    requires FiveCounts(c) && c[0].count == 1
    ensures |c| == 5
  {
    SuffixSum(c, 0);
    assert c[0..] == c;
  }

  /** With five values, the first count decides how many groups follow and their counts. */
  lemma CountsShape(values: seq<int>)
    requires SortedDesc(values) && |values| == 5
    ensures var c := Counts(values);
      && 1 <= |c| <= 5 && 1 <= c[0].count <= 5
      && (c[0].count == 5 ==> |c| == 1)
      && (c[0].count == 4 ==> |c| == 2 && c[1].count == 1)
      && (c[0].count == 3 ==> |c| >= 2 && c[1].count <= 2 && (c[1].count == 2 ==> |c| == 2))
      && (c[0].count == 3 && c[1].count != 2 ==> |c| == 3 && c[1].count == 1 && c[2].count == 1)
      && (c[0].count == 2 ==> |c| >= 3 && c[1].count <= 2)
      && (c[0].count == 2 && c[1].count == 2 ==> |c| == 3 && c[2].count == 1)
      && (c[0].count == 2 && c[1].count != 2 ==>
            |c| == 4 && c[1].count == 1 && c[2].count == 1 && c[3].count == 1)
      && (c[0].count == 1 ==> |c| == 5)
  {
    CountsFacts(values);
    var c := Counts(values);
    assert FiveCounts(c);
    SuffixSum(c, 0);
    assert c[0..] == c;
    assert |c| <= 5 && c[0].count <= 5;
    if c[0].count >= 4 {
      ShapeFourOrFive(c);
    } else if c[0].count == 3 {
      ShapeThree(c);
    } else if c[0].count == 2 {
      ShapeTwo(c);
    } else {
      ShapeOne(c);
    }
  }

  // ---------------------------------------------------------------------------
  // Flush, straight and classification

  /** `suits.every(s => s === suits[0])`. */
  predicate IsFlush(cards: seq<Card>) {
    forall i :: 0 <= i < |cards| ==> cards[i].suit == cards[0].suit
  }

  /** The three results of `checkStraight`: `false`, `true` and `'wheel'`. */
  datatype StraightKind = NoStraight | NormalStraight | Wheel

  /** The A-5-4-3-2 values. */
  const WheelValues: seq<int> := [14, 5, 4, 3, 2]

  /** `checkStraight` on descending values; pairwise distinctness stands for
      `new Set(sortedValues).size === 5`. */
  function CheckStraight(values: seq<int>): StraightKind
    requires |values| == 5
  {
    if values[0] - values[4] == 4 && NoDuplicates(values) then NormalStraight
    else if values == WheelValues then Wheel
    else NoStraight
  }

  /** Five consecutive descending values. */
  predicate IsRun(values: seq<int>) {
    |values| == 5 && forall i :: 0 <= i < 4 ==> values[i] == values[i + 1] + 1
  }

  /** On descending values, `checkStraight` finds exactly the runs of five consecutive
      values and the wheel, and tells the wheel apart. */
  lemma CheckStraightMeaning(values: seq<int>)
    requires SortedDesc(values) && |values| == 5
    ensures CheckStraight(values) == NormalStraight <==> IsRun(values)
    ensures CheckStraight(values) == Wheel <==> values == WheelValues
  {
    if IsRun(values) {
      assert NoDuplicates(values);
    }
    if values[0] - values[4] == 4 && NoDuplicates(values) {
      assert values[0] > values[1] > values[2] > values[3] > values[4];
    }
  }

  /** The straight's high card: 5 for the wheel, otherwise the top value. */
  function HighCardOf(kind: StraightKind, values: seq<int>): int
    requires |values| == 5
  {
    if kind == Wheel then 5 else values[0]
  }

  /** `[a, b].sort((x, y) => y - x)`. */
  function SortPair(a: int, b: int): (r: seq<int>)
    ensures |r| == 2 && r[0] >= r[1] && multiset(r) == multiset{a, b}
  {
    if a >= b then [a, b] else [b, a]
  }

  function Eval(rank: int, tiebreakers: seq<int>): Evaluation
    requires HighCard <= rank <= RoyalFlush
  {
    Evaluation(rank, tiebreakers, HandName(rank))
  }

  /** The body of `evaluateHand` once the values are sorted and the flush is known:
      the first matching category, from Royal Flush down to High Card. */
  function Classify(values: seq<int>, flush: bool): (e: Evaluation)
    requires SortedDesc(values) && |values| == 5
    ensures WellFormed(e)
    ensures e.rank in {RoyalFlush, Flush, HighCard} ==> e.tiebreakers == values
    ensures e.rank in {Straight, StraightFlush} ==>
      e.tiebreakers == [HighCardOf(CheckStraight(values), values)]
  {
    var straight := CheckStraight(values);
    var isStraight := straight != NoStraight;
    var c := Counts(values);
    CountsIndexable(values);
    if flush && isStraight && values[0] == 14 && values[4] == 10 then
      Eval(RoyalFlush, values)
    else if flush && isStraight then
      Eval(StraightFlush, [HighCardOf(straight, values)])
    else if c[0].count == 4 then
      Eval(FourOfAKind, [c[0].value, c[1].value])
    else if c[0].count == 3 && c[1].count == 2 then
      Eval(FullHouse, [c[0].value, c[1].value])
    else if flush then
      Eval(Flush, values)
    else if isStraight then
      Eval(Straight, [HighCardOf(straight, values)])
    else
      ClassifyLower(values)
  }

  /** The first two groups of five values exist unless all five are equal. */
  lemma CountsIndexable(values: seq<int>)
    requires SortedDesc(values) && |values| == 5
    ensures |Counts(values)| >= 1 && (Counts(values)[0].count < 5 ==> |Counts(values)| >= 2)
  {
    CountsShape(values);
  }

  /** How many groups there are below a full house. */
  lemma LowerShape(values: seq<int>)
    requires SortedDesc(values) && |values| == 5
    ensures var c := Counts(values);
      && |c| >= 1
      && (c[0].count == 3 ==> |c| >= 2 && (c[1].count != 2 ==> |c| == 3))
      && (c[0].count == 2 ==> |c| >= 3 && (if c[1].count == 2 then |c| == 3 else |c| == 4))
  {
    CountsShape(values);
  }

  /** The last four rungs of `Classify`, below Straight: Three of a Kind, Two Pair, One
      Pair and High Card, read off the value groups of a hand that has neither four of
      a kind nor a full house. */
  function ClassifyLower(values: seq<int>): (e: Evaluation)
    requires SortedDesc(values) && |values| == 5
    requires var c := Counts(values); |c| >= 1 && c[0].count != 4 && (c[0].count == 3 && |c| >= 2 ==> c[1].count != 2)
    ensures WellFormed(e) && e.rank <= ThreeOfAKind
    ensures e.rank == HighCard ==> e.tiebreakers == values
  {
    var c := Counts(values);
    LowerShape(values);
    if c[0].count == 3 then
      Eval(ThreeOfAKind, [c[0].value] + GroupValues(c[1..]))
    else if c[0].count == 2 && c[1].count == 2 then
      Eval(TwoPair, SortPair(c[0].value, c[1].value) + [c[2].value])
    else if c[0].count == 2 then
      Eval(OnePair, [c[0].value] + GroupValues(c[1..]))
    else
      Eval(HighCard, values)
  }

  /** `evaluateHand`: throws unless given exactly five cards; otherwise classifies the
      descending values and the flush test. */
  function EvaluateHand(cards: seq<Card>): (r: Result<Evaluation>)
    ensures r.Ok? <==> |cards| == 5
    ensures r.Err? ==> r.error == HandMustHaveExactlyFiveCards
    ensures r.Ok? ==> WellFormed(r.value)
  {
    if |cards| != 5 then Err(HandMustHaveExactlyFiveCards)
    else Ok(Classify(SortDesc(CardValues(cards)), IsFlush(cards)))
  }

  // ---------------------------------------------------------------------------
  // Order independence

  lemma CardValuesConcat(a: seq<Card>, b: seq<Card>)
    ensures CardValues(a + b) == CardValues(a) + CardValues(b)
  {
  }

  /** Removing position `j` removes one occurrence of its element. */
  lemma RemoveAt<T>(q: seq<T>, j: nat)
    requires j < |q|
    ensures multiset(q[..j] + q[j + 1..]) == multiset(q) - multiset{q[j]}
  {
    assert q == q[..j] + [q[j]] + q[j + 1..];
  }

  /** The multiset of values is a function of the multiset of cards. */
  lemma {:induction false} ValuesMultiset(p: seq<Card>, q: seq<Card>)
    requires multiset(p) == multiset(q)
    ensures multiset(CardValues(p)) == multiset(CardValues(q))
  {
    if p != [] {
      var x := p[0];
      assert x in multiset(q);
      var j :| 0 <= j < |q| && q[j] == x;
      var q' := q[..j] + q[j + 1..];
      RemoveAt(q, j);
      HeadTailMultiset(p);
      ValuesMultiset(p[1..], q');
      ValuesStep(p, q, j);
    } else {
      assert |q| == |multiset(q)| == 0;
    }
  }

  /** Matching the first card of `p` with card `j` of `q` extends equal value
      multisets of the rest to the whole hands. */
  lemma ValuesStep(p: seq<Card>, q: seq<Card>, j: nat)
    requires p != [] && j < |q| && q[j] == p[0]
    requires multiset(CardValues(p[1..])) == multiset(CardValues(q[..j] + q[j + 1..]))
    ensures multiset(CardValues(p)) == multiset(CardValues(q))
  {
    CardValuesSplit(q, j);
    CardValuesConcat(q[..j], q[j + 1..]);
    assert CardValues(p) == [Value(p[0].rank)] + CardValues(p[1..]);
  }

  /** The values of a hand split around position `j`. */
  lemma CardValuesSplit(q: seq<Card>, j: nat)
    requires j < |q|
    ensures multiset(CardValues(q)) ==
            multiset(CardValues(q[..j])) + multiset{Value(q[j].rank)} + multiset(CardValues(q[j + 1..]))
  {
    assert CardValues(q) == CardValues(q[..j]) + [Value(q[j].rank)] + CardValues(q[j + 1..]);
  }

  /** A flush is a property of the set of cards. */
  lemma FlushMultiset(p: seq<Card>, q: seq<Card>)
    requires multiset(p) == multiset(q)
    ensures IsFlush(p) == IsFlush(q)
  {
    if IsFlush(p) && q != [] {
      forall i | 0 <= i < |q| ensures q[i].suit == q[0].suit {
        assert q[i] in multiset(p) && q[0] in multiset(p);
      }
    }
    if IsFlush(q) && p != [] {
      forall i | 0 <= i < |p| ensures p[i].suit == p[0].suit {
        assert p[i] in multiset(q) && p[0] in multiset(q);
      }
    }
  }

  /** `evaluateHand` depends only on which cards it is given, not on their order. */
  lemma EvaluateHandOrderIndependent(p: seq<Card>, q: seq<Card>)
    requires multiset(p) == multiset(q)
    ensures EvaluateHand(p) == EvaluateHand(q)
  {
    assert |p| == |multiset(p)| == |multiset(q)| == |q|;
    ValuesMultiset(p, q);
    SortedUnique(SortDesc(CardValues(p)), SortDesc(CardValues(q)));
    FlushMultiset(p, q);
  }

  // ---------------------------------------------------------------------------
  // Category precedence, restated by rank multiplicities

  /** Some rank value occurs exactly `n` times among the cards. */
  ghost predicate HasMultiplicity(cards: seq<Card>, n: nat) {
    exists v :: Occurrences(cards, v) == n
  }

  /** Two different rank values each occur exactly twice. */
  ghost predicate HasTwoPairs(cards: seq<Card>) {
    exists a, b :: a != b && Occurrences(cards, a) == 2 && Occurrences(cards, b) == 2
  }

  /** The category ladder from best to worst: the first condition that holds wins. */
  function Category(flush: bool, straight: bool, aceHigh: bool, four: bool, fullHouse: bool,
                    three: bool, twoPair: bool, pair: bool): (rank: int)
    ensures HighCard <= rank <= RoyalFlush
    ensures rank == RoyalFlush <==> flush && straight && aceHigh
    ensures rank == HighCard <==>
      !(flush && straight) && !four && !fullHouse && !flush && !straight && !three && !twoPair && !pair
  {
    if flush && straight && aceHigh then RoyalFlush
    else if flush && straight then StraightFlush
    else if four then FourOfAKind
    else if fullHouse then FullHouse
    else if flush then Flush
    else if straight then Straight
    else if three then ThreeOfAKind
    else if twoPair then TwoPair
    else if pair then OnePair
    else HighCard
  }

  /** The standard category of five cards, stated by flush, five consecutive values
      (or the wheel), and how often each value occurs. */
  ghost function ReferenceRank(cards: seq<Card>): int
    requires |cards| == 5
  {
    var values := SortDesc(CardValues(cards));
    Category(IsFlush(cards), IsRun(values) || values == WheelValues,
             values[0] == 14 && values[4] == 10,
             HasMultiplicity(cards, 4),
             HasMultiplicity(cards, 3) && HasMultiplicity(cards, 2),
             HasMultiplicity(cards, 3), HasTwoPairs(cards), HasMultiplicity(cards, 2))
  }

  /** `Classify` follows the ladder with conditions read off the groups. */
  lemma ClassifyCategory(values: seq<int>, flush: bool)
    requires SortedDesc(values) && |values| == 5
    ensures var c := Counts(values);
      |c| >= 1 &&
      Classify(values, flush).rank ==
        Category(flush, CheckStraight(values) != NoStraight,
                 values[0] == 14 && values[4] == 10,
                 c[0].count == 4,
                 c[0].count == 3 && |c| >= 2 && c[1].count == 2,
                 c[0].count == 3,
                 c[0].count == 2 && |c| >= 2 && c[1].count == 2,
                 c[0].count == 2)
  {
    CountsShape(values);
  }

  /** The group that holds a value of the hand. */
  lemma GroupOf(values: seq<int>, v: int) returns (i: nat)
    requires SortedDesc(values) && v in multiset(values)
    ensures i < |Counts(values)| && Counts(values)[i].value == v
    ensures Counts(values)[i].count == multiset(values)[v]
  {
    CountsFacts(values);
    var c := Counts(values);
    i :| 0 <= i < |c| && GroupValues(c)[i] == v;
  }

  /** A value occurs `n >= 1` times exactly when some group has count `n`. */
  lemma GroupCountWitness(values: seq<int>, n: nat)
    requires SortedDesc(values) && n >= 1
    ensures (exists v :: multiset(values)[v] == n) <==>
            (exists i :: 0 <= i < |Counts(values)| && Counts(values)[i].count == n)
  {
    CountsFacts(values);
    var c := Counts(values);
    if v :| multiset(values)[v] == n {
      var i := GroupOf(values, v);
      assert c[i].count == n;
    }
    if i :| 0 <= i < |c| && c[i].count == n {
      assert multiset(values)[c[i].value] == n;
    }
  }

  /** Two values occur twice exactly when two groups have count 2. */
  lemma TwoPairWitness(values: seq<int>)
    requires SortedDesc(values)
    ensures (exists a, b :: a != b && multiset(values)[a] == 2 && multiset(values)[b] == 2) <==>
            (exists i, j :: 0 <= i < j < |Counts(values)| &&
               Counts(values)[i].count == 2 && Counts(values)[j].count == 2)
  {
    var c := Counts(values);
    if a, b :| a != b && multiset(values)[a] == 2 && multiset(values)[b] == 2 {
      var i := GroupOf(values, a);
      var j := GroupOf(values, b);
      assert i != j;
      if i < j {
        assert c[i].count == 2 && c[j].count == 2;
      } else {
        assert c[j].count == 2 && c[i].count == 2;
      }
    }
    if i, j :| 0 <= i < j < |c| && c[i].count == 2 && c[j].count == 2 {
      CountsFacts(values);
      assert Above(c[i], c[j]);
      assert multiset(values)[c[i].value] == 2 && multiset(values)[c[j].value] == 2;
    }
  }

  /** Which counts occur among the groups of five values. */
  lemma CountsSignature(values: seq<int>)
    requires SortedDesc(values) && |values| == 5
    ensures var c := Counts(values);
      && |c| >= 1
      && ((exists i :: 0 <= i < |c| && c[i].count == 4) <==> c[0].count == 4)
      && ((exists i :: 0 <= i < |c| && c[i].count == 3) <==> c[0].count == 3)
      && ((exists i :: 0 <= i < |c| && c[i].count == 2) <==>
            c[0].count == 2 || (c[0].count == 3 && |c| >= 2 && c[1].count == 2))
      && ((exists i, j :: 0 <= i < j < |c| && c[i].count == 2 && c[j].count == 2) <==>
            c[0].count == 2 && |c| >= 2 && c[1].count == 2)
  {
    CountsFacts(values);
    CountsShape(values);
    var c := Counts(values);
    forall i | 0 <= i < |c| ensures c[i].count <= c[0].count {
      CountsNonIncreasing(c, 0, i);
    }
  }

  /** The multiplicity conditions of the reference, read off the first two groups. */
  lemma MultiplicityConditions(cards: seq<Card>)
    requires |cards| == 5
    ensures var c := Counts(SortDesc(CardValues(cards)));
      && |c| >= 1
      && (HasMultiplicity(cards, 4) <==> c[0].count == 4)
      && (HasMultiplicity(cards, 3) <==> c[0].count == 3)
      && (HasMultiplicity(cards, 2) <==>
            c[0].count == 2 || (c[0].count == 3 && |c| >= 2 && c[1].count == 2))
      && (HasTwoPairs(cards) <==> c[0].count == 2 && |c| >= 2 && c[1].count == 2)
  {
    var values := SortDesc(CardValues(cards));
    assert forall v :: Occurrences(cards, v) == multiset(values)[v];
    CountsSignature(values);
    GroupCountWitness(values, 4);
    GroupCountWitness(values, 3);
    GroupCountWitness(values, 2);
    TwoPairWitness(values);
  }

  /** `evaluateHand` picks the category the standard definition gives. */
  lemma EvaluateHandRank(cards: seq<Card>)
    requires |cards| == 5
    ensures EvaluateHand(cards).value.rank == ReferenceRank(cards)
  {
    var values := SortDesc(CardValues(cards));
    CheckStraightMeaning(values);
    MultiplicityConditions(cards);
    ClassifyCategory(values, IsFlush(cards));
  }

  // ---------------------------------------------------------------------------
  // What the tiebreakers are

  /** Value `a` outranks value `b` among the group categories: it occurs more often,
      or as often and is higher. */
  predicate Outranks(values: seq<int>, a: int, b: int) {
    multiset(values)[a] > multiset(values)[b] ||
    (multiset(values)[a] == multiset(values)[b] && a > b)
  }

  /** The group values list every distinct value once, most frequent first and then
      highest first. */
  lemma GroupOrder(values: seq<int>)
    requires SortedDesc(values)
    ensures var vs := GroupValues(Counts(values));
      && (forall v :: v in vs <==> v in multiset(values))
      && (forall i, j :: 0 <= i < j < |vs| ==> Outranks(values, vs[i], vs[j]))
  {
    CountsFacts(values);
    TallyOrder(Counts(values), values);
  }

  /** `GroupOrder` for any tally with the properties of `counts`. */
  lemma TallyOrder(c: seq<Group>, values: seq<int>)
    requires SortedByCount(c)
    requires forall i :: 0 <= i < |c| ==> c[i].count == multiset(values)[c[i].value] >= 1
    requires forall v :: v in multiset(values) ==> v in GroupValues(c)
    ensures var vs := GroupValues(c);
      && (forall v :: v in vs <==> v in multiset(values))
      && (forall i, j :: 0 <= i < j < |vs| ==> Outranks(values, vs[i], vs[j]))
  {
    var vs := GroupValues(c);
    forall v | v in vs ensures v in multiset(values) {
      var i :| 0 <= i < |vs| && vs[i] == v;
      assert c[i].count == multiset(values)[c[i].value] >= 1;
    }
    forall i, j | 0 <= i < j < |vs| ensures Outranks(values, vs[i], vs[j]) {
      assert Above(c[i], c[j]);
    }
  }

  /** In the group categories the tiebreakers are exactly the group values. */
  lemma GroupTiebreakers(values: seq<int>, flush: bool)
    requires SortedDesc(values) && |values| == 5
    requires Classify(values, flush).rank in {FourOfAKind, FullHouse, ThreeOfAKind, TwoPair, OnePair}
    ensures Classify(values, flush).tiebreakers == GroupValues(Counts(values))
  {
    var c := Counts(values);
    CountsIndexable(values);
    if c[0].count == 4 || (c[0].count == 3 && c[1].count == 2) {
      CountsShape(values);
      GroupValuesShape(c);
    } else {
      LowerGroups(values);
    }
  }

  /** The same for the three grouped categories below a straight. */
  lemma LowerGroups(values: seq<int>)
    requires SortedDesc(values) && |values| == 5
    requires var c := Counts(values); |c| >= 1 && c[0].count != 4 && (c[0].count == 3 && |c| >= 2 ==> c[1].count != 2)
    requires ClassifyLower(values).rank in {ThreeOfAKind, TwoPair, OnePair}
    ensures ClassifyLower(values).tiebreakers == GroupValues(Counts(values))
  {
    var c := Counts(values);
    LowerShape(values);
    GroupValuesShape(c);
    if c[0].count == 2 && c[1].count == 2 {
      assert Above(c[0], c[1]);
    }
  }

  /** The group values of two, three or four groups, written out. */
  lemma GroupValuesShape(c: seq<Group>)
    ensures |c| == 2 ==> GroupValues(c) == [c[0].value, c[1].value]
    ensures |c| == 3 ==> GroupValues(c) == [c[0].value, c[1].value, c[2].value]
    ensures |c| >= 1 ==> GroupValues(c) == [c[0].value] + GroupValues(c[1..])
  {
  }

  /** The tiebreakers of every category: the group values (by occurrences, then value)
      for Four of a Kind, Full House, Three of a Kind, Two Pair and One Pair; the high
      card (5 for the wheel) for straights; all five values, highest first, otherwise. */
  lemma ClassifyTiebreakers(values: seq<int>, flush: bool)
    requires SortedDesc(values) && |values| == 5
    ensures var e := Classify(values, flush);
      && (e.rank in {FourOfAKind, FullHouse, ThreeOfAKind, TwoPair, OnePair} ==>
            && (forall v :: v in e.tiebreakers <==> v in multiset(values))
            && (forall i, j :: 0 <= i < j < |e.tiebreakers| ==>
                  Outranks(values, e.tiebreakers[i], e.tiebreakers[j])))
      && (e.rank in {Straight, StraightFlush} ==>
            e.tiebreakers == [if values == WheelValues then 5 else values[0]])
      && (e.rank in {RoyalFlush, Flush, HighCard} ==> e.tiebreakers == values)
  {
    var e := Classify(values, flush);
    if e.rank in {FourOfAKind, FullHouse, ThreeOfAKind, TwoPair, OnePair} {
      GroupTiebreakers(values, flush);
      GroupOrder(values);
    } else if e.rank in {Straight, StraightFlush} {
      CheckStraightMeaning(values);
    }
  }
}
