/** The pieces both game modes share (src/components/GameShared.jsx, and the showdown
    dealing that src/components/EasyGame.jsx and src/components/HardGame.jsx each
    repeat): the hand-strength label, the showdown verdict, and topping the dealer's
    hand up from the deck before it. */
module GameShared {
  import opened Wrappers
  import opened Deck
  import opened HandEvaluator
  import opened HandCompare
  import opened Combinations
  import opened BestHand
  import opened PartialHand

  /** `PLAYER_HAND_SIZE` and `DEALER_HAND_SIZE`. */
  const PlayerHandSize: nat := 5
  const DealerHandSize: nat := 8

  /** `getHandStrength`: no label for an empty hand, otherwise the partial-hand label. */
  function GetHandStrength(cards: seq<Card>): (r: Option<string>)
    ensures r.None? <==> cards == []
    ensures cards != [] ==> r == EvaluatePartialHand(cards)
    ensures |cards| >= 5 ==> r == Some(FindBestHand(cards).value.evaluation.name)
  {
    if |cards| == 0 then None else EvaluatePartialHand(cards)
  }

  datatype Winner = PlayerWins | DealerWins | Tie

  /** The object `computeShowdownResult` returns. */
  datatype ShowdownResult = ShowdownResult(
    playerEval: Evaluation,
    dealerEval: Evaluation,
    playerBestCards: seq<Card>,
    dealerBestCards: seq<Card>,
    winner: Winner)

  /** `computeShowdownResult`: the best five of each hand and the verdict of comparing
      them. `findBestHand` throws for a hand of fewer than five cards, the player's
      first. */
  function ComputeShowdown(player: seq<Card>, dealer: seq<Card>): (r: Result<ShowdownResult>)
    ensures r.Ok? <==> |player| >= 5 && |dealer| >= 5
    ensures r.Err? ==> r.error == NeedAtLeastFiveCards
    ensures r.Ok? ==>
      && r.value.playerEval == FindBestHand(player).value.evaluation
      && r.value.dealerEval == FindBestHand(dealer).value.evaluation
      && r.value.playerBestCards == FindBestHand(player).value.cards
      && r.value.dealerBestCards == FindBestHand(dealer).value.cards
      && (r.value.winner == PlayerWins <==> Compare(r.value.playerEval, r.value.dealerEval) > 0)
      && (r.value.winner == DealerWins <==> Compare(r.value.playerEval, r.value.dealerEval) < 0)
      && (r.value.winner == Tie <==> Compare(r.value.playerEval, r.value.dealerEval) == 0)
  {
    match FindBestHand(player)
    case Err(e) => Err(e)
    case Ok(pb) =>
      match FindBestHand(dealer)
      case Err(e) => Err(e)
      case Ok(db) =>
        var comparison := Compare(pb.evaluation, db.evaluation);
        var winner := if comparison > 0 then PlayerWins else if comparison < 0 then DealerWins else Tie;
        Ok(ShowdownResult(pb.evaluation, db.evaluation, pb.cards, db.cards, winner))
  }

  /** The verdict with the hands exchanged. */
  function Swap(w: Winner): Winner {
    match w
    case PlayerWins => DealerWins
    case DealerWins => PlayerWins
    case Tie => Tie
  }

  /** Exchanging the two hands exchanges the verdict. */
  lemma ShowdownSwap(player: seq<Card>, dealer: seq<Card>)
    requires |player| >= 5 && |dealer| >= 5
    ensures ComputeShowdown(dealer, player).value.winner == Swap(ComputeShowdown(player, dealer).value.winner)
  {
    CompareAntisymmetric(FindBestHand(player).value.evaluation, FindBestHand(dealer).value.evaluation);
  }

  /** The evaluation of five of the cards, chosen by increasing positions. */
  function SelectionEval(cards: seq<Card>, idx: seq<nat>): Evaluation
    requires |idx| == 5 && IndexSet(idx, 0, |cards|)
  {
    EvaluateHand(Pick(cards, idx)).value
  }

  /** Five of the player's cards, at positions `idx`, beat every five of the dealer's. */
  ghost predicate BeatsEveryFive(player: seq<Card>, idx: seq<nat>, dealer: seq<Card>)
    requires |idx| == 5 && IndexSet(idx, 0, |player|)
  {
    forall jdx :: |jdx| == 5 && IndexSet(jdx, 0, |dealer|) ==>
      Compare(SelectionEval(player, idx), SelectionEval(dealer, jdx)) > 0
  }

  /** Some five of the player's cards beat every five of the dealer's. */
  ghost predicate SomeFiveBeatsAll(player: seq<Card>, dealer: seq<Card>) {
    exists idx :: |idx| == 5 && IndexSet(idx, 0, |player|) && BeatsEveryFive(player, idx, dealer)
  }

  /** A winning best five beats every five of the dealer's. */
  lemma WinnerBeatsAll(player: seq<Card>, dealer: seq<Card>)
    requires |player| >= 5 && |dealer| >= 5
    requires Compare(FindBestHand(player).value.evaluation, FindBestHand(dealer).value.evaluation) > 0
    ensures SomeFiveBeatsAll(player, dealer)
  {
    var pe := FindBestHand(player).value.evaluation;
    var de := FindBestHand(dealer).value.evaluation;
    FindBestHandIsSelection(player);
    var idx :| |idx| == 5 && IndexSet(idx, 0, |player|) && FindBestHand(player).value.cards == Pick(player, idx);
    assert SelectionEval(player, idx) == pe;
    forall jdx | |jdx| == 5 && IndexSet(jdx, 0, |dealer|)
      ensures Compare(SelectionEval(player, idx), SelectionEval(dealer, jdx)) > 0
    {
      FindBestHandOptimal(dealer, jdx);
      CompareTransitive(pe, de, SelectionEval(dealer, jdx));
    }
    assert BeatsEveryFive(player, idx, dealer);
  }

  /** Five cards that beat every five of the dealer's make the player's best five win. */
  lemma BeatsAllWins(player: seq<Card>, dealer: seq<Card>, idx: seq<nat>)
    requires |player| >= 5 && |dealer| >= 5
    requires |idx| == 5 && IndexSet(idx, 0, |player|) && BeatsEveryFive(player, idx, dealer)
    ensures Compare(FindBestHand(player).value.evaluation, FindBestHand(dealer).value.evaluation) > 0
  {
    var pe := FindBestHand(player).value.evaluation;
    var de := FindBestHand(dealer).value.evaluation;
    FindBestHandIsSelection(dealer);
    var jdx :| |jdx| == 5 && IndexSet(jdx, 0, |dealer|) && FindBestHand(dealer).value.cards == Pick(dealer, jdx);
    assert SelectionEval(dealer, jdx) == de;
    assert Compare(SelectionEval(player, idx), de) > 0;
    FindBestHandOptimal(player, idx);
    CompareTransitive(pe, SelectionEval(player, idx), de);
  }

  /** The player wins exactly when some five of the player's cards beat every five of
      the dealer's. */
  lemma ShowdownPlayerWins(player: seq<Card>, dealer: seq<Card>)
    requires |player| >= 5 && |dealer| >= 5
    ensures ComputeShowdown(player, dealer).value.winner == PlayerWins <==> SomeFiveBeatsAll(player, dealer)
  {
    if Compare(FindBestHand(player).value.evaluation, FindBestHand(dealer).value.evaluation) > 0 {
      WinnerBeatsAll(player, dealer);
    }
    if SomeFiveBeatsAll(player, dealer) {
      var idx :| |idx| == 5 && IndexSet(idx, 0, |player|) && BeatsEveryFive(player, idx, dealer);
      BeatsAllWins(player, dealer, idx);
    }
  }

  /** The verdict read off the hands alone: the player wins exactly when some five of
      the player's cards beat every five of the dealer's, and the dealer wins exactly
      when some five of the dealer's cards beat every five of the player's. */
  lemma ShowdownVerdict(player: seq<Card>, dealer: seq<Card>)
    requires |player| >= 5 && |dealer| >= 5
    ensures ComputeShowdown(player, dealer).value.winner == PlayerWins <==> SomeFiveBeatsAll(player, dealer)
    ensures ComputeShowdown(player, dealer).value.winner == DealerWins <==> SomeFiveBeatsAll(dealer, player)
  {
    ShowdownPlayerWins(player, dealer);
    ShowdownPlayerWins(dealer, player);
    ShowdownSwap(player, dealer);
  }

  /** The dealing loop of `handleShowdown`: up to `needed` cards from position `idx`
      on, stopping at the end of the deck. */
  function TopUp(deck: seq<Card>, idx: nat, needed: int): (added: seq<Card>)
    ensures |added| == (if needed <= 0 || idx >= |deck| then 0
                        else if needed <= |deck| - idx then needed else |deck| - idx)
    ensures idx + |added| <= |deck| || added == []
    ensures forall i :: 0 <= i < |added| ==> added[i] == deck[idx + i]
    decreases |deck| - idx
  {
    if needed <= 0 || idx >= |deck| then [] else [deck[idx]] + TopUp(deck, idx + 1, needed - 1)
  }

  /** The cards added are the next cards of the deck, in order. */
  lemma TopUpIsSlice(deck: seq<Card>, idx: nat, needed: int)
    requires idx <= |deck|
    ensures TopUp(deck, idx, needed) == deck[idx..idx + |TopUp(deck, idx, needed)|]
  {
  }

  /** Where the showdown's dealing leaves the dealer's hand and the deck position. */
  datatype ShowdownDeal = ShowdownDeal(dealer: seq<Card>, deckIndex: nat)

  /** The dealing effect of `handleShowdown`: deal the dealer up to eight cards from the
      deck and move the deck position past them. */
  function DealShowdown(deck: seq<Card>, deckIndex: nat, dealer: seq<Card>): ShowdownDeal {
    var added := TopUp(deck, deckIndex, DealerHandSize - |dealer|);
    ShowdownDeal(dealer + added, deckIndex + |added|)
  }

  /** The dealer ends with eight cards unless the hand already had more or the deck ran
      out; the cards already held are kept and the cards added are the next ones of
      the deck. */
  lemma ShowdownDealerSize(deck: seq<Card>, deckIndex: nat, dealer: seq<Card>)
    requires deckIndex <= |deck|
    ensures var d := DealShowdown(deck, deckIndex, dealer);
      && |d.dealer| == (if |dealer| >= DealerHandSize then |dealer|
                        else if DealerHandSize - |dealer| <= |deck| - deckIndex then DealerHandSize
                        else |dealer| + |deck| - deckIndex)
      && deckIndex <= d.deckIndex <= |deck|
      && d.dealer == dealer + deck[deckIndex..d.deckIndex]
  {
    TopUpIsSlice(deck, deckIndex, DealerHandSize - |dealer|);
  }

  // ---------------------------------------------------------------------------
  // Where the dealt cards are

  /** Every card dealt so far is in exactly one of the two hands: together the hands
      hold the first `deckIndex` cards of the deck. */
  ghost predicate HandsHoldDealt(deck: seq<Card>, deckIndex: nat, player: seq<Card>, dealer: seq<Card>) {
    deckIndex <= |deck| && multiset(player) + multiset(dealer) == multiset(deck[..deckIndex])
  }

  /** Dealing the next card to either hand keeps the hands holding the dealt cards. */
  lemma DealNext(deck: seq<Card>, deckIndex: nat, player: seq<Card>, dealer: seq<Card>)
    requires HandsHoldDealt(deck, deckIndex, player, dealer) && deckIndex < |deck|
    ensures HandsHoldDealt(deck, deckIndex + 1, player + [deck[deckIndex]], dealer)
    ensures HandsHoldDealt(deck, deckIndex + 1, player, dealer + [deck[deckIndex]])
  {
    assert deck[..deckIndex + 1] == deck[..deckIndex] + [deck[deckIndex]];
  }

  /** Dealing the cards from `deckIndex` to `final` to the dealer keeps the hands
      holding the dealt cards. */
  lemma DealRun(deck: seq<Card>, deckIndex: nat, final: nat, player: seq<Card>, dealer: seq<Card>)
    requires HandsHoldDealt(deck, deckIndex, player, dealer) && deckIndex <= final <= |deck|
    ensures HandsHoldDealt(deck, final, player, dealer + deck[deckIndex..final])
  {
    assert deck[..final] == deck[..deckIndex] + deck[deckIndex..final];
  }

  /** The showdown deals the dealer's extra cards from the deck position on, so the
      hands still hold exactly the dealt cards. */
  lemma ShowdownKeepsCards(deck: seq<Card>, deckIndex: nat, player: seq<Card>, dealer: seq<Card>)
    requires HandsHoldDealt(deck, deckIndex, player, dealer)
    ensures var d := DealShowdown(deck, deckIndex, dealer);
      HandsHoldDealt(deck, d.deckIndex, player, d.dealer)
  {
    var d := DealShowdown(deck, deckIndex, dealer);
    ShowdownDealerSize(deck, deckIndex, dealer);
    DealRun(deck, deckIndex, d.deckIndex, player, dealer);
  }

  /** From a full deck no card is dealt twice: no card is in both hands or twice in
      one. */
  lemma DealtAtMostOnce(deck: seq<Card>, deckIndex: nat, player: seq<Card>, dealer: seq<Card>, c: Card)
    requires IsFullDeck(deck) && HandsHoldDealt(deck, deckIndex, player, dealer)
    ensures multiset(player)[c] + multiset(dealer)[c] <= 1
  {
    assert deck == deck[..deckIndex] + deck[deckIndex..];
    assert multiset(deck) == multiset(deck[..deckIndex]) + multiset(deck[deckIndex..]);
    assert multiset(deck)[c] == 1;
    assert multiset(deck[..deckIndex])[c] <= 1;
    assert (multiset(player) + multiset(dealer))[c] == multiset(player)[c] + multiset(dealer)[c];
  }

  /** With a full deck and five player cards the showdown cannot fail: the dealer is
      dealt up to eight cards (keeping any more already held), which the deck always
      has. */
  lemma ShowdownSucceeds(deck: seq<Card>, deckIndex: nat, player: seq<Card>, dealer: seq<Card>)
    requires IsFullDeck(deck) && HandsHoldDealt(deck, deckIndex, player, dealer)
    requires |player| == PlayerHandSize
    ensures var d := DealShowdown(deck, deckIndex, dealer);
      && ComputeShowdown(player, d.dealer).Ok?
      && |d.dealer| == (if |dealer| >= DealerHandSize then |dealer| else DealerHandSize)
  {
    var dealt := deck[..deckIndex];
    assert |multiset(dealt)| == |player| + |dealer| by {
      assert |multiset(player) + multiset(dealer)| == |multiset(player)| + |multiset(dealer)|;
    }
    ShowdownDealerSize(deck, deckIndex, dealer);
  }
}
