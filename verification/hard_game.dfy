/** Hard mode (src/components/HardGame.jsx): the player selects a range of cards not yet
    dealt; a deal turns cards over from the deck until one is in the range, which the
    player gets, while every card turned before it goes to the dealer. Once the player
    holds five, the showdown deals the dealer up to eight cards and compares. The
    animation timers are collapsed: each handler and the effect it starts is one step. */
module HardGame {
  import opened Wrappers
  import opened Deck
  import opened GameShared

  // ---------------------------------------------------------------------------
  // Card keys and the range selector

  /** `cardKey`: the string the selection and the used-card set store. */
  function CardKey(c: Card): string {
    RankText(c.rank) + "-" + SuitName(c.suit)
  }

  lemma SplitAtDash(r1: string, s1: string, r2: string, s2: string)
    requires '-' !in r1 && '-' !in r2
    requires r1 + "-" + s1 == r2 + "-" + s2
    ensures r1 == r2 && s1 == s2
  {
    var k1 := r1 + "-" + s1;
    DashAt(r1, s1);
    DashAt(r2, s2);
    assert |r1| == |r2|;
    assert r1 == k1[..|r1|] == r2;
    assert s1 == k1[|r1| + 1..] == s2;
  }

  /** In a key the first dash is the one after the rank. */
  lemma DashAt(r: string, s: string)
    requires '-' !in r
    ensures (r + "-" + s)[|r|] == '-'
    ensures forall i :: 0 <= i < |r| ==> (r + "-" + s)[i] != '-'
  {
    forall i | 0 <= i < |r| ensures (r + "-" + s)[i] != '-' {
      assert (r + "-" + s)[i] == r[i];
    }
  }

  lemma RankTextInjective(a: Rank, b: Rank)
    requires RankText(a) == RankText(b)
    ensures a == b
  {
    RankValueOfText(a);
    RankValueOfText(b);
    if a != b {
      ValueInjective(a, b);
    }
  }

  /** Different cards have different keys, so a set of keys is a set of cards. */
  lemma CardKeyInjective(a: Card, b: Card)
    requires CardKey(a) == CardKey(b)
    ensures a == b
  {
    SplitAtDash(RankText(a.rank), SuitName(a.suit), RankText(b.rank), SuitName(b.suit));
    RankTextInjective(a.rank, b.rank);
  }

  /** `usedCards`: the cards dealt so far. */
  function UsedCards(deck: seq<Card>, deckIndex: nat): (used: set<Card>)
    ensures forall c :: c in used <==> exists i :: 0 <= i < deckIndex && i < |deck| && deck[i] == c
  {
    set i | 0 <= i < deckIndex && i < |deck| :: deck[i]
  }

  /** `toggleCard`: a used card cannot be toggled; any other card enters or leaves the
      selection. */
  function ToggleCard(selection: set<Card>, used: set<Card>, c: Card): (r: set<Card>)
    ensures c in used ==> r == selection
    ensures c !in used ==> (c in r <==> c !in selection)
    ensures forall d :: d != c ==> (d in r <==> d in selection)
  {
    if c in used then selection
    else if c in selection then selection - {c}
    else selection + {c}
  }

  /** Adds every unused card of `cards` to the selection, or removes every one. */
  function SetAll(selection: set<Card>, used: set<Card>, cards: seq<Card>, select: bool): (r: set<Card>)
    ensures forall d :: d in r <==> if d in cards && d !in used then select else d in selection
    decreases |cards|
  {
    if cards == [] then selection
    else
      var c := cards[0];
      var next := if c in used then selection else if select then selection + {c} else selection - {c};
      SetAll(next, used, cards[1..], select)
  }

  /** The four cards of one rank, in `SUITS` order. */
  function RankColumn(r: Rank): seq<Card> {
    seq(|Suits|, i requires 0 <= i < |Suits| => Card(r, Suits[i]))
  }

  lemma RankColumnFacts(r: Rank)
    ensures forall c :: c in RankColumn(r) <==> c.rank == r
  {
    forall c: Card | c.rank == r ensures c in RankColumn(r) {
      assert RankColumn(r)[SuitIndex(c.suit)] == c;
    }
  }

  /** The thirteen cards of one suit, in `RANKS` order. */
  function SuitColumn(s: Suit): (row: seq<Card>)
    ensures forall c :: c in row <==> c.suit == s
  {
    SuitRowFacts(s);
    SuitRow(s)
  }

  /** `every(... isUsed || isSelected)` over some cards. */
  predicate AllUsedOrSelected(selection: set<Card>, used: set<Card>, cards: seq<Card>) {
    forall i :: 0 <= i < |cards| ==> cards[i] in used || cards[i] in selection
  }

  /** `toggleRank`: when every card of the rank is used or selected, its unused cards
      leave the selection; otherwise they all join it. */
  function ToggleRank(selection: set<Card>, used: set<Card>, r: Rank): (res: set<Card>)
    ensures forall d :: d in res <==>
      if d.rank == r && d !in used then !AllUsedOrSelected(selection, used, RankColumn(r))
      else d in selection
  {
    RankColumnFacts(r);
    SetAll(selection, used, RankColumn(r), !AllUsedOrSelected(selection, used, RankColumn(r)))
  }

  /** `toggleSuit`: the same over the thirteen cards of a suit. */
  function ToggleSuit(selection: set<Card>, used: set<Card>, s: Suit): (res: set<Card>)
    ensures forall d :: d in res <==>
      if d.suit == s && d !in used then !AllUsedOrSelected(selection, used, SuitColumn(s))
      else d in selection
  {
    SetAll(selection, used, SuitColumn(s), !AllUsedOrSelected(selection, used, SuitColumn(s)))
  }

  /** Toggling a whole rank twice in a row restores a selection that avoids the used
      cards, when the rank was not fully selected at first. */
  lemma ToggleRankTwice(selection: set<Card>, used: set<Card>, r: Rank)
    requires selection !! used
    requires !AllUsedOrSelected(selection, used, RankColumn(r))
    requires forall d: Card :: d.rank == r && d !in used ==> d !in selection
    ensures ToggleRank(ToggleRank(selection, used, r), used, r) == selection
  {
    var once := ToggleRank(selection, used, r);
    assert AllUsedOrSelected(once, used, RankColumn(r));
  }

  // ---------------------------------------------------------------------------
  // Dealing to the first card in the range

  /** What `handleDeal` finds: the cards turned over before a match, the match if the
      deck had one, and the deck position after the last card turned. */
  datatype DealOutcome = DealOutcome(revealed: seq<Card>, matched: Option<Card>, finalIndex: nat)

  /** The search loop of `handleDeal` from position `idx`. */
  function Reveal(deck: seq<Card>, idx: nat, selection: set<Card>): (o: DealOutcome)
    requires idx <= |deck|
    ensures idx <= o.finalIndex <= |deck|
    ensures forall i :: 0 <= i < |o.revealed| ==> o.revealed[i] !in selection
    ensures o.matched.None? ==>
      o.finalIndex == |deck| && o.revealed == deck[idx..]
    ensures o.matched.Some? ==>
      && o.finalIndex > idx
      && o.matched.value == deck[o.finalIndex - 1]
      && o.matched.value in selection
      && o.revealed == deck[idx..o.finalIndex - 1]
    decreases |deck| - idx
  {
    if idx == |deck| then DealOutcome([], None, idx)
    else if deck[idx] in selection then DealOutcome([], Some(deck[idx]), idx + 1)
    else
      var rest := Reveal(deck, idx + 1, selection);
      assert deck[idx..] == [deck[idx]] + deck[idx + 1..];
      assert rest.matched.Some? ==> deck[idx..rest.finalIndex - 1] == [deck[idx]] + deck[idx + 1..rest.finalIndex - 1];
      rest.(revealed := [deck[idx]] + rest.revealed)
  }

  /** The match is the first card of the range at or after the deck position. */
  lemma RevealFindsFirst(deck: seq<Card>, idx: nat, selection: set<Card>)
    requires idx <= |deck|
    ensures var o := Reveal(deck, idx, selection);
      && (o.matched.Some? <==> exists k :: idx <= k < |deck| && deck[k] in selection)
      && forall k :: idx <= k < o.finalIndex - 1 ==> deck[k] !in selection
  {
    var o := Reveal(deck, idx, selection);
    forall k | idx <= k < o.finalIndex - 1 ensures deck[k] !in selection {
      assert deck[k] == o.revealed[k - idx];
    }
    if o.matched.None? {
      forall k | idx <= k < |deck| ensures deck[k] !in selection {
        assert deck[k] == o.revealed[k - idx];
      }
    }
  }

  // ---------------------------------------------------------------------------
  // The game

  /** `GAME_PHASES`, with `DEALING` folded into the deal and `DEALING_SHOWDOWN` into
      the showdown. */
  datatype Phase = Selecting | Showdown

  datatype HardState = HardState(
    deck: seq<Card>,
    deckIndex: nat,
    player: seq<Card>,
    dealer: seq<Card>,
    phase: Phase,
    selection: set<Card>,
    result: Option<ShowdownResult>)

  /** A fresh game on `deck`: the initial state, and what Play Again installs. */
  function NewGame(deck: seq<Card>): (s: HardState)
    ensures s.deckIndex == 0 && s.player == [] && s.dealer == [] && s.selection == {}
    ensures s.phase == Selecting && s.result.None?
  {
    HardState(deck, 0, [], [], Selecting, {}, None)
  }

  function Used(s: HardState): set<Card> {
    UsedCards(s.deck, s.deckIndex)
  }

  /** The selector's handlers, each replacing the selection and nothing else. */
  function SelectCard(s: HardState, c: Card): (t: HardState)
    ensures t == s.(selection := t.selection)
    ensures c in Used(s) ==> t.selection == s.selection
    ensures c !in Used(s) ==> (c in t.selection <==> c !in s.selection)
    ensures forall d :: d != c ==> (d in t.selection <==> d in s.selection)
  {
    s.(selection := ToggleCard(s.selection, Used(s), c))
  }

  function SelectRank(s: HardState, r: Rank): (t: HardState)
    ensures t == s.(selection := t.selection)
    ensures forall d: Card :: d.rank != r || d in Used(s) ==> (d in t.selection <==> d in s.selection)
    ensures forall d: Card, e: Card :: d.rank == r && e.rank == r && d !in Used(s) && e !in Used(s) ==>
      (d in t.selection <==> e in t.selection)
  {
    s.(selection := ToggleRank(s.selection, Used(s), r))
  }

  function SelectSuit(s: HardState, su: Suit): (t: HardState)
    ensures t == s.(selection := t.selection)
    ensures forall d: Card :: d.suit != su || d in Used(s) ==> (d in t.selection <==> d in s.selection)
    ensures forall d: Card, e: Card :: d.suit == su && e.suit == su && d !in Used(s) && e !in Used(s) ==>
      (d in t.selection <==> e in t.selection)
  {
    s.(selection := ToggleSuit(s.selection, Used(s), su))
  }

  /** `clearAll`: the range is emptied, so the Deal button is disabled. */
  function ClearAll(s: HardState): (t: HardState)
    ensures t == s.(selection := t.selection) && t.selection == {}
    ensures !CanDeal(t)
  {
    s.(selection := {})
  }

  /** `canDeal`: a non-empty range, room in the player's hand, and cards left. */
  predicate CanDeal(s: HardState) {
    s.selection != {} && |s.player| < PlayerHandSize && s.deckIndex < |s.deck|
  }

  /** `draftingComplete`. */
  predicate DraftingComplete(s: HardState) {
    |s.player| == PlayerHandSize
  }

  /** The range selector and the Deal button are shown while selecting with the hand
      incomplete; the Showdown button once it is complete. */
  predicate OffersSelector(s: HardState) {
    s.phase == Selecting && !DraftingComplete(s)
  }

  predicate OffersShowdown(s: HardState) {
    s.phase == Selecting && DraftingComplete(s)
  }

  /** `handleDeal` and its dealing effect: nothing for an empty range; otherwise the
      player gets the first card in the range, the dealer every card turned before it,
      the deck position moves past them and the range is cleared. */
  function HandleDeal(s: HardState): (t: HardState)
    requires s.deckIndex <= |s.deck|
    ensures s.selection == {} ==> t == s
    ensures t.deck == s.deck && t.phase == s.phase
  {
    if s.selection == {} then s
    else
      var o := Reveal(s.deck, s.deckIndex, s.selection);
      var got := if o.matched.Some? then [o.matched.value] else [];
      s.(player := s.player + got, dealer := s.dealer + o.revealed,
         deckIndex := o.finalIndex, selection := {})
  }

  /** `handleShowdown` and its dealing effect, as in Easy mode. */
  function HandleShowdown(s: HardState): (r: Result<HardState>)
    ensures r.Ok? ==> r.value.phase == Showdown && r.value.result.Some? && r.value.player == s.player
    ensures r.Ok? <==> ComputeShowdown(s.player, DealShowdown(s.deck, s.deckIndex, s.dealer).dealer).Ok?
    ensures r.Ok? ==> var d := DealShowdown(s.deck, s.deckIndex, s.dealer);
      && r.value.dealer == d.dealer && r.value.deckIndex == d.deckIndex
      && r.value.result == Some(ComputeShowdown(s.player, d.dealer).value)
  {
    var d := DealShowdown(s.deck, s.deckIndex, s.dealer);
    match ComputeShowdown(s.player, d.dealer)
    case Err(e) => Err(e)
    case Ok(res) => Ok(s.(dealer := d.dealer, deckIndex := d.deckIndex, phase := Showdown, result := Some(res)))
  }

  /** What the showdown records: the dealer's hand is the old one followed by the next
      cards of the deck, and the verdict says the player wins exactly when some five of
      the player's cards beat every five of the dealer's final hand, and the dealer wins
      exactly when the reverse holds. */
  lemma ShowdownWinner(s: HardState)
    requires s.deckIndex <= |s.deck| && HandleShowdown(s).Ok?
    ensures var t := HandleShowdown(s).value;
      && s.deckIndex <= t.deckIndex <= |s.deck|
      && t.dealer == s.dealer + s.deck[s.deckIndex..t.deckIndex]
      && (t.result.value.winner == PlayerWins <==> SomeFiveBeatsAll(s.player, t.dealer))
      && (t.result.value.winner == DealerWins <==> SomeFiveBeatsAll(t.dealer, s.player))
  {
    var d := DealShowdown(s.deck, s.deckIndex, s.dealer);
    ShowdownDealerSize(s.deck, s.deckIndex, s.dealer);
    ShowdownVerdict(s.player, d.dealer);
  }

  /** `handlePlayAgain`, with the new deck from `createDeck` as a parameter. */
  function PlayAgain(s: HardState, newDeck: seq<Card>): (t: HardState)
    ensures t.deck == newDeck && t.deckIndex == 0 && t.player == [] && t.dealer == [] && t.selection == {}
    ensures t.result.None?
  {
    NewGame(newDeck)
  }

  // ---------------------------------------------------------------------------
  // The invariant of a game

  /** The hands hold exactly the dealt cards, the player has at most five, a verdict
      exists exactly at the showdown, the range never contains a dealt card, and it is
      empty once the player's hand is complete. */
  ghost predicate Valid(s: HardState) {
    && HandsHoldDealt(s.deck, s.deckIndex, s.player, s.dealer)
    && |s.player| <= PlayerHandSize
    && (s.phase == Showdown <==> s.result.Some?)
    && s.selection !! Used(s)
    && (DraftingComplete(s) ==> s.selection == {})
  }

  lemma NewGameValid(deck: seq<Card>)
    ensures Valid(NewGame(deck))
  {
    assert deck[..0] == [];
  }

  /** The selector never puts a dealt card into the range. */
  lemma SelectValid(s: HardState, c: Card, r: Rank, su: Suit)
    requires Valid(s) && OffersSelector(s)
    ensures Valid(SelectCard(s, c)) && Valid(SelectRank(s, r)) && Valid(SelectSuit(s, su))
    ensures Valid(ClearAll(s))
  {
  }

  /** A deal that the Deal button allows keeps the game valid, and the player gains at
      most one card. */
  lemma DealValid(s: HardState)
    requires Valid(s) && CanDeal(s)
    ensures Valid(HandleDeal(s))
    ensures |HandleDeal(s).player| <= |s.player| + 1
  {
    RevealKeepsCards(s.deck, s.deckIndex, s.player, s.dealer, s.selection);
  }

  /** A deal hands out exactly the cards from the deck position to the new one. */
  lemma RevealKeepsCards(deck: seq<Card>, deckIndex: nat, player: seq<Card>, dealer: seq<Card>, selection: set<Card>)
    requires HandsHoldDealt(deck, deckIndex, player, dealer)
    ensures var o := Reveal(deck, deckIndex, selection);
      o.matched.Some? ==> HandsHoldDealt(deck, o.finalIndex, player + [o.matched.value], dealer + o.revealed)
    ensures var o := Reveal(deck, deckIndex, selection);
      o.matched.None? ==> HandsHoldDealt(deck, o.finalIndex, player, dealer + o.revealed)
  {
    OutcomeKeepsCards(deck, deckIndex, player, dealer, Reveal(deck, deckIndex, selection));
  }

  /** The same for any outcome shaped like one of `Reveal`. */
  lemma OutcomeKeepsCards(deck: seq<Card>, deckIndex: nat, player: seq<Card>, dealer: seq<Card>, o: DealOutcome)
    requires HandsHoldDealt(deck, deckIndex, player, dealer)
    requires deckIndex <= o.finalIndex <= |deck|
    requires o.matched.None? ==> o.revealed == deck[deckIndex..o.finalIndex]
    requires o.matched.Some? ==>
      o.finalIndex > deckIndex && o.matched.value == deck[o.finalIndex - 1] &&
      o.revealed == deck[deckIndex..o.finalIndex - 1]
    ensures o.matched.Some? ==> HandsHoldDealt(deck, o.finalIndex, player + [o.matched.value], dealer + o.revealed)
    ensures o.matched.None? ==> HandsHoldDealt(deck, o.finalIndex, player, dealer + o.revealed)
  {
    if o.matched.Some? {
      var m := o.finalIndex - 1;
      MatchKeepsCards(deck, deckIndex, m, player, dealer);
      assert player + [o.matched.value] == player + [deck[m]];
    } else {
      DealRun(deck, deckIndex, o.finalIndex, player, dealer);
    }
  }

  /** Cards from the deck position up to `m` go to the dealer and the card at `m` to the
      player. */
  lemma MatchKeepsCards(deck: seq<Card>, deckIndex: nat, m: nat, player: seq<Card>, dealer: seq<Card>)
    requires HandsHoldDealt(deck, deckIndex, player, dealer) && deckIndex <= m < |deck|
    ensures HandsHoldDealt(deck, m + 1, player + [deck[m]], dealer + deck[deckIndex..m])
  {
    DealRun(deck, deckIndex, m, player, dealer);
    DealNext(deck, m, player, dealer + deck[deckIndex..m]);
  }

  /** A deal stated without the search loop: when the first card of the range at or
      after the deck position is at `k`, the player gets it, the dealer gets the cards
      before it, and the deck position moves just past it. */
  lemma DealTakesFirstMatch(s: HardState, k: nat)
    requires s.deckIndex <= k < |s.deck| && s.deck[k] in s.selection
    requires forall j :: s.deckIndex <= j < k ==> s.deck[j] !in s.selection
    ensures HandleDeal(s).player == s.player + [s.deck[k]]
    ensures HandleDeal(s).dealer == s.dealer + s.deck[s.deckIndex..k]
    ensures HandleDeal(s).deckIndex == k + 1 && HandleDeal(s).selection == {}
  {
    var o := Reveal(s.deck, s.deckIndex, s.selection);
    RevealFindsFirst(s.deck, s.deckIndex, s.selection);
    assert o.matched.Some?;
  }

  /** From a full deck a non-empty range always matches: every card not yet dealt is
      still in the deck past the deck position, so the deck never runs out in a deal
      and the no-match branch of the dealing effect is never taken. */
  lemma DealAlwaysMatches(s: HardState)
    requires Valid(s) && IsFullDeck(s.deck) && s.selection != {}
    ensures Reveal(s.deck, s.deckIndex, s.selection).matched.Some?
    ensures |HandleDeal(s).player| == |s.player| + 1 && HandleDeal(s).deckIndex > s.deckIndex
  {
    var c :| c in s.selection;
    assert multiset(s.deck)[c] == 1;
    assert c in s.deck;
    var k :| 0 <= k < |s.deck| && s.deck[k] == c;
    assert c !in Used(s);
    assert k >= s.deckIndex;
    RevealFindsFirst(s.deck, s.deckIndex, s.selection);
  }

  /** The showdown offered on a valid game keeps it valid. */
  lemma ShowdownValid(s: HardState)
    requires Valid(s) && OffersShowdown(s)
    ensures HandleShowdown(s).Ok? ==> Valid(HandleShowdown(s).value)
  {
    ShowdownKeepsCards(s.deck, s.deckIndex, s.player, s.dealer);
  }

  /** From a full deck, the Showdown button always leads to a verdict, with the dealer
      holding at least eight cards. */
  lemma ShowdownFromFullDeck(s: HardState)
    requires Valid(s) && IsFullDeck(s.deck) && OffersShowdown(s)
    ensures HandleShowdown(s).Ok?
    ensures |HandleShowdown(s).value.dealer| >= DealerHandSize
  {
    ShowdownSucceeds(s.deck, s.deckIndex, s.player, s.dealer);
  }

  /** Play Again starts a valid game with an empty range. */
  lemma PlayAgainValid(s: HardState, newDeck: seq<Card>)
    ensures Valid(PlayAgain(s, newDeck)) && PlayAgain(s, newDeck).selection == {}
  {
    NewGameValid(newDeck);
  }

  // ---------------------------------------------------------------------------
  // The dealing effect as written

  /** The dealing effect as the timers run it. Every append to a hand changes that
      hand's length, which the effect depends on, so the effect runs again while the
      deal record is still in place.

      After a match, the matched branch marks the deal processed, moves the cards and
      clears the record 400 ms later. The rerun that the move causes finds the deal
      processed and takes the deck-exhausted branch, which appends the turned cards to
      the dealer again after 150 ms; that append causes one more run, which appends
      them a third time at 300 ms; the run after that is cancelled when the record is
      cleared.

      Without a match, the deck-exhausted branch appends the turned cards after 150 ms
      and clears the record 500 ms after that; its own appends rerun it at 300, 450 and
      600 ms, and the run scheduled for 750 ms is cancelled, so the dealer receives the
      turned cards four times. From a full deck this branch is never taken
      (`DealAlwaysMatches`).

      With no card turned over the hand lengths do not change and the deal is as
      intended. */
  function HandleDealAsWritten(s: HardState): (t: HardState)
    requires s.deckIndex <= |s.deck|
    ensures t == HandleDeal(s).(dealer := t.dealer)
    ensures HandleDeal(s).dealer <= t.dealer
  {
    var t := HandleDeal(s);
    var o := Reveal(s.deck, s.deckIndex, s.selection);
    if s.selection == {} then t
    else if o.matched.Some? then t.(dealer := t.dealer + o.revealed + o.revealed)
    else t.(dealer := t.dealer + o.revealed + o.revealed + o.revealed)
  }

  /** As written, a deal that turns over any card gives the dealer those cards three
      times after a match and four times without one, so the hands no longer hold
      exactly the dealt cards. `HandleDeal` is the intended step, which `DealValid`
      shows keeps them. */
  lemma DealAsWrittenDuplicates(s: HardState)
    requires Valid(s) && CanDeal(s)
    requires Reveal(s.deck, s.deckIndex, s.selection).revealed != []
    ensures var o := Reveal(s.deck, s.deckIndex, s.selection);
      && (o.matched.Some? ==>
            HandleDealAsWritten(s).dealer == s.dealer + o.revealed + o.revealed + o.revealed)
      && (o.matched.None? ==>
            HandleDealAsWritten(s).dealer == s.dealer + o.revealed + o.revealed + o.revealed + o.revealed)
    ensures !HandsHoldDealt(s.deck, HandleDealAsWritten(s).deckIndex,
      HandleDealAsWritten(s).player, HandleDealAsWritten(s).dealer)
  {
    var o := Reveal(s.deck, s.deckIndex, s.selection);
    var t := HandleDealAsWritten(s);
    assert |s.player| + |s.dealer| == s.deckIndex by {
      assert |multiset(s.player) + multiset(s.dealer)| == |multiset(s.deck[..s.deckIndex])|;
    }
    if o.matched.Some? {
      assert t.player == s.player + [o.matched.value];
      assert t.dealer == s.dealer + o.revealed + o.revealed + o.revealed;
      assert t.deckIndex == s.deckIndex + |o.revealed| + 1;
    } else {
      assert t.player == s.player;
      assert t.dealer == s.dealer + o.revealed + o.revealed + o.revealed + o.revealed;
      assert t.deckIndex == s.deckIndex + |o.revealed|;
    }
    assert |multiset(t.player) + multiset(t.dealer)| != |multiset(s.deck[..t.deckIndex])|;
  }
}
