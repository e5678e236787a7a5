/** Cards, the 52-card deck, the Fisher-Yates shuffle and the rank lookup (src/utils/deck.js). */
module Deck {
  import opened Wrappers

  datatype Suit = Hearts | Diamonds | Clubs | Spades

  datatype Rank = Two | Three | Four | Five | Six | Seven | Eight | Nine | Ten
                | Jack | Queen | King | Ace

  /** A card is its rank and suit; two cards are equal exactly when both agree. */
  datatype Card = Card(rank: Rank, suit: Suit)

  /** `SUITS` and `RANKS`, in the order the deck is built from. */
  const Suits: seq<Suit> := [Hearts, Diamonds, Clubs, Spades]
  const Ranks: seq<Rank> := [Two, Three, Four, Five, Six, Seven, Eight, Nine, Ten,
                             Jack, Queen, King, Ace]

  const DeckSize: nat := 52

  /** The suit's identifier string, as used in `SUITS` and in card keys. */
  function SuitName(s: Suit): string {
    match s
    case Hearts => "hearts"
    case Diamonds => "diamonds"
    case Clubs => "clubs"
    case Spades => "spades"
  }

  /** `SUIT_SYMBOLS`: the display glyph of a suit. */
  function SuitSymbol(s: Suit): char {
    match s
    case Hearts => '\U{2665}'
    case Diamonds => '\U{2666}'
    case Clubs => '\U{2663}'
    case Spades => '\U{2660}'
  }

  /** The rank's string in `RANKS`. */
  function RankText(r: Rank): string {
    match r
    case Two => "2"
    case Three => "3"
    case Four => "4"
    case Five => "5"
    case Six => "6"
    case Seven => "7"
    case Eight => "8"
    case Nine => "9"
    case Ten => "10"
    case Jack => "J"
    case Queen => "Q"
    case King => "K"
    case Ace => "A"
  }

  /** The lookup table inside `rankValue`. */
  const RankValues: map<string, int> :=
    map["2" := 2, "3" := 3, "4" := 4, "5" := 5, "6" := 6, "7" := 7, "8" := 8,
        "9" := 9, "10" := 10, "J" := 11, "Q" := 12, "K" := 13, "A" := 14]

  /** `rankValue`: a table lookup that yields no value (JavaScript `undefined`,
      not an exception) for a string outside `RANKS`. The JavaScript table is a plain
      object, so names inherited from `Object.prototype` (`"constructor"`,
      `"toString"`, `"__proto__"` and the like) find a prototype member instead; the
      model reads those as no value too. */
  function RankValue(rank: string): (v: Option<int>)
    ensures v.Some? ==> 2 <= v.value <= 14
  {
    if rank in RankValues then Some(RankValues[rank]) else None
  }

  /** The numeric value of a rank: Ace is high (14). */
  function Value(r: Rank): (v: int)
    ensures 2 <= v <= 14
  {
    match r
    case Two => 2
    case Three => 3
    case Four => 4
    case Five => 5
    case Six => 6
    case Seven => 7
    case Eight => 8
    case Nine => 9
    case Ten => 10
    case Jack => 11
    case Queen => 12
    case King => 13
    case Ace => 14
  }

  /** Looking up a rank's own text yields its value: the evaluator may use `Value`
      wherever the source calls `rankValue(card.rank)`. */
  lemma RankValueOfText(r: Rank)
    ensures RankValue(RankText(r)) == Some(Value(r))
  {
  }

  /** Every string that is not the text of a rank has no value (in JavaScript, every
      such string that is not also an `Object.prototype` member name). */
  lemma RankValueUndefined(s: string)
    requires forall r: Rank :: RankText(r) != s
    ensures RankValue(s) == None
  {
    assert RankText(Two) != s && RankText(Three) != s && RankText(Four) != s;
    assert RankText(Five) != s && RankText(Six) != s && RankText(Seven) != s;
    assert RankText(Eight) != s && RankText(Nine) != s && RankText(Ten) != s;
    assert RankText(Jack) != s && RankText(Queen) != s && RankText(King) != s;
    assert RankText(Ace) != s;
  }

  /** `rankValue` is strictly increasing along `RANKS`, hence injective on ranks. */
  lemma ValueIncreasing(i: int, j: int)
    requires 0 <= i < j < |Ranks|
    ensures Value(Ranks[i]) < Value(Ranks[j])
  {
  }

  lemma ValueInjective(a: Rank, b: Rank)
    requires Value(a) == Value(b)
    ensures a == b
  {
  }

  /** Position of a rank in `RANKS` and of a suit in `SUITS`. */
  function RankIndex(r: Rank): (i: nat)
    ensures i < |Ranks| && Ranks[i] == r
  {
    Value(r) - 2
  }

  function SuitIndex(s: Suit): (i: nat)
    ensures i < |Suits| && Suits[i] == s
  {
    match s
    case Hearts => 0
    case Diamonds => 1
    case Clubs => 2
    case Spades => 3
  }

  /** `cardToString`: the rank text followed by the suit symbol. */
  function CardToString(c: Card): (s: string)
    ensures |s| >= 2 && s[|s| - 1] == SuitSymbol(c.suit)
    ensures s[..|s| - 1] == RankText(c.rank)
  {
    RankText(c.rank) + [SuitSymbol(c.suit)]
  }

  /** Distinct cards print differently. */
  lemma CardToStringInjective(a: Card, b: Card)
    requires CardToString(a) == CardToString(b)
    ensures a == b
  {
    var s := CardToString(a);
    assert SuitSymbol(a.suit) == s[|s| - 1] == SuitSymbol(b.suit);
    assert RankText(a.rank) == s[..|s| - 1] == RankText(b.rank);
  }

  /** One suit's row of the unshuffled deck, in `RANKS` order. */
  function SuitRow(s: Suit): seq<Card> {
    seq(|Ranks|, j requires 0 <= j < |Ranks| => Card(Ranks[j], s))
  }

  /** The nested loop of `createDeck`: for each suit, for each rank, push. */
  function Rows(suits: seq<Suit>): (d: seq<Card>)
    ensures |d| == |Ranks| * |suits|
  {
    if suits == [] then [] else SuitRow(suits[0]) + Rows(suits[1..])
  }

  /** Card `j` of row `i` is the `j`-th rank of the `i`-th suit. */
  lemma {:induction false} RowsOrder(suits: seq<Suit>, i: nat, j: nat)
    requires i < |suits| && j < |Ranks|
    ensures Rows(suits)[|Ranks| * i + j] == Card(Ranks[j], suits[i])
  {
    if i > 0 {
      var n := |Ranks|;
      RowsOrder(suits[1..], i - 1, j);
      MulStep(n, i);
    }
  }

  lemma MulStep(n: nat, i: nat)
    requires i > 0
    ensures n * i == n + n * (i - 1)
  {
  }

  /** The deck before shuffling: 52 cards. */
  function UnshuffledDeck(): (d: seq<Card>)
    ensures |d| == DeckSize
  {
    Rows(Suits)
  }

  /** The unshuffled deck is in suit-major, then rank order. */
  lemma UnshuffledDeckOrder(i: nat, j: nat)
    requires i < |Suits| && j < |Ranks|
    ensures UnshuffledDeck()[|Ranks| * i + j] == Card(Ranks[j], Suits[i])
  {
    RowsOrder(Suits, i, j);
  }

  /** No element occurs twice in a sequence. */
  predicate NoDuplicates<T(==)>(s: seq<T>) {
    forall p, q :: 0 <= p < q < |s| ==> s[p] != s[q]
  }

  /** A full deck holds each of the 52 cards exactly once. */
  ghost predicate IsFullDeck(d: seq<Card>) {
    |d| == DeckSize && forall c: Card :: multiset(d)[c] == 1
  }

  lemma NoDuplicatesConcat<T>(a: seq<T>, b: seq<T>)
    requires NoDuplicates(a) && NoDuplicates(b)
    requires forall x :: x in a ==> x !in b
    ensures NoDuplicates(a + b)
  {
    var s := a + b;
    forall p, q | 0 <= p < q < |s| ensures s[p] != s[q] {
      if q >= |a| && p < |a| {
        assert s[p] in a && s[q] == b[q - |a|];
      } else if p >= |a| {
        assert s[p] == b[p - |a|] && s[q] == b[q - |a|];
      }
    }
  }

  /** A row holds exactly the cards of its suit, each once. */
  lemma SuitRowFacts(s: Suit)
    ensures NoDuplicates(SuitRow(s))
    ensures forall c :: c in SuitRow(s) <==> c.suit == s
  {
    var row := SuitRow(s);
    forall p, q | 0 <= p < q < |row| ensures row[p] != row[q] {
      ValueIncreasing(p, q);
    }
    forall c: Card | c.suit == s ensures c in row {
      assert row[RankIndex(c.rank)] == c;
    }
  }

  /** The rows of distinct suits hold each card of those suits exactly once. */
  lemma {:induction false} RowsFacts(suits: seq<Suit>)
    requires NoDuplicates(suits)
    ensures NoDuplicates(Rows(suits))
    ensures forall c :: c in Rows(suits) <==> c.suit in suits
  {
    if suits != [] {
      SuitRowFacts(suits[0]);
      assert NoDuplicates(suits[1..]) by {
        forall p, q | 0 <= p < q < |suits[1..]| ensures suits[1..][p] != suits[1..][q] {
          assert suits[1..][p] == suits[p + 1] && suits[1..][q] == suits[q + 1];
        }
      }
      RowsFacts(suits[1..]);
      assert suits[0] !in suits[1..] by {
        forall q | 0 <= q < |suits[1..]| ensures suits[1..][q] != suits[0] {
          assert suits[1..][q] == suits[q + 1];
        }
      }
      forall c ensures c in Rows(suits) <==> c.suit in suits {
        assert c.suit in suits <==> c.suit == suits[0] || c.suit in suits[1..];
      }
      NoDuplicatesConcat(SuitRow(suits[0]), Rows(suits[1..]));
    }
  }

  /** The unshuffled deck has no duplicates and holds every card. */
  lemma UnshuffledDeckComplete()
    ensures NoDuplicates(UnshuffledDeck())
    ensures forall c: Card :: c in UnshuffledDeck()
  {
    RowsFacts(Suits);
    forall c: Card ensures c.suit in Suits {
      assert Suits[SuitIndex(c.suit)] == c.suit;
    }
  }

  /** In a sequence without duplicates every member occurs exactly once. */
  lemma {:induction false} OccursOnce<T>(s: seq<T>, x: T)
    requires NoDuplicates(s)
    requires x in s
    ensures multiset(s)[x] == 1
  {
    if s[0] == x {
      assert s == [s[0]] + s[1..];
      assert x !in s[1..] by {
        forall q | 0 <= q < |s[1..]| ensures s[1..][q] != x {
          assert s[1..][q] == s[q + 1];
        }
      }
    } else {
      assert s == [s[0]] + s[1..];
      assert NoDuplicates(s[1..]) by {
        forall p, q | 0 <= p < q < |s[1..]| ensures s[1..][p] != s[1..][q] {
          assert s[1..][p] == s[p + 1] && s[1..][q] == s[q + 1];
        }
      }
      OccursOnce(s[1..], x);
    }
  }

  lemma UnshuffledDeckIsFull()
    ensures IsFullDeck(UnshuffledDeck())
  {
    UnshuffledDeckComplete();
    forall c: Card ensures multiset(UnshuffledDeck())[c] == 1 {
      OccursOnce(UnshuffledDeck(), c);
    }
  }

  /** `shuffle`: Fisher-Yates over a copy of the input, from the last index down to 1.
      `picks[i]` is the swap index `Math.floor(Math.random() * (i + 1))` drawn at step
      `i`, so `0 <= picks[i] <= i`; `picks[0]` is never used. */
  method Shuffle<T>(a: seq<T>, picks: seq<nat>) returns (r: seq<T>)
    requires |picks| == |a|
    requires forall i :: 0 < i < |a| ==> picks[i] <= i
    ensures |r| == |a|
    ensures multiset(r) == multiset(a)
  {
    r := a;
    var i := |r| - 1;
    while i > 0
      invariant i < |a|
      invariant |r| == |a|
      invariant multiset(r) == multiset(a)
    {
      var j := picks[i];
      r := r[i := r[j]][j := r[i]];
      i := i - 1;
    }
  }

  /** `createDeck`: the unshuffled deck, shuffled with the given swap indices. */
  method CreateDeck(picks: seq<nat>) returns (d: seq<Card>)
    requires |picks| == DeckSize
    requires forall i :: 0 < i < DeckSize ==> picks[i] <= i
    ensures IsFullDeck(d)
  {
    UnshuffledDeckIsFull();
    d := Shuffle(UnshuffledDeck(), picks);
  }
}
