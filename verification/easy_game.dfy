/** Easy mode (src/components/EasyGame.jsx): the cards of the deck are shown one at a
    time and each is taken by the player or passed to the dealer until the player holds
    five; the showdown then deals the dealer up to eight cards and compares the best
    five of each hand. The animation timers are collapsed: each handler and the effect
    it starts is one step. */
module EasyGame {
  import opened Wrappers
  import opened Deck
  import opened GameShared

  /** `GAME_PHASES`, with `DEALING_SHOWDOWN` folded into the showdown step. */
  datatype Phase = Drafting | Showdown

  datatype EasyState = EasyState(
    deck: seq<Card>,
    deckIndex: nat,
    player: seq<Card>,
    dealer: seq<Card>,
    phase: Phase,
    result: Option<ShowdownResult>)

  /** A fresh game on `deck`: the initial state, and what Play Again installs with a
      newly created deck. */
  function NewGame(deck: seq<Card>): (s: EasyState)
    ensures s.deckIndex == 0 && s.player == [] && s.dealer == [] && s.phase == Drafting && s.result.None?
  {
    EasyState(deck, 0, [], [], Drafting, None)
  }

  /** `currentCard`: the card at the deck position while drafting, if any is left. */
  function CurrentCard(s: EasyState): (c: Option<Card>)
    ensures c.Some? <==> s.phase == Drafting && s.deckIndex < |s.deck|
  {
    if s.phase == Drafting && s.deckIndex < |s.deck| then Some(s.deck[s.deckIndex]) else None
  }

  /** `handleTake`: the current card joins the player's hand, unless there is none or
      the hand is full. */
  function Take(s: EasyState): (t: EasyState)
    ensures t.deck == s.deck && t.dealer == s.dealer && t.phase == s.phase
  {
    if CurrentCard(s).None? || |s.player| >= PlayerHandSize then s
    else s.(player := s.player + [CurrentCard(s).value], deckIndex := s.deckIndex + 1)
  }

  /** `handlePass`: the current card joins the dealer's hand, unless there is none. */
  function Pass(s: EasyState): (t: EasyState)
    ensures t.deck == s.deck && t.player == s.player && t.phase == s.phase
  {
    if CurrentCard(s).None? then s
    else s.(dealer := s.dealer + [CurrentCard(s).value], deckIndex := s.deckIndex + 1)
  }

  /** `draftingComplete`. */
  predicate DraftingComplete(s: EasyState) {
    |s.player| == PlayerHandSize
  }

  /** The Take and Pass buttons are offered while drafting with a card to show and
      room in the player's hand; the Showdown button once the hand is complete. */
  predicate OffersTakeOrPass(s: EasyState) {
    s.phase == Drafting && CurrentCard(s).Some? && |s.player| < PlayerHandSize
  }

  predicate OffersShowdown(s: EasyState) {
    s.phase == Drafting && DraftingComplete(s)
  }

  /** `handleShowdown` and its dealing effect: the dealer is dealt up to eight cards,
      the deck position moves past them, and the verdict is recorded. It fails where
      `findBestHand` would throw. */
  function HandleShowdown(s: EasyState): (r: Result<EasyState>)
    ensures r.Ok? ==> r.value.phase == Showdown && r.value.result.Some? && r.value.player == s.player
    ensures r.Ok? <==> ComputeShowdown(s.player, DealShowdown(s.deck, s.deckIndex, s.dealer).dealer).Ok?
    ensures r.Ok? ==> var d := DealShowdown(s.deck, s.deckIndex, s.dealer);
      && r.value.dealer == d.dealer && r.value.deckIndex == d.deckIndex
      && r.value.result == Some(ComputeShowdown(s.player, d.dealer).value)
  {
    var d := DealShowdown(s.deck, s.deckIndex, s.dealer);
    match ComputeShowdown(s.player, d.dealer)
    case Err(e) => Err(e)
    case Ok(res) => Ok(s.(dealer := d.dealer, deckIndex := d.deckIndex, phase := Showdown, result := Some(res)))
  }

  /** What the showdown records: the dealer's hand is the old one followed by the next
      cards of the deck, and the verdict says the player wins exactly when some five of
      the player's cards beat every five of the dealer's final hand, and the dealer wins
      exactly when the reverse holds. */
  lemma ShowdownWinner(s: EasyState)
    requires s.deckIndex <= |s.deck| && HandleShowdown(s).Ok?
    ensures var t := HandleShowdown(s).value;
      && s.deckIndex <= t.deckIndex <= |s.deck|
      && t.dealer == s.dealer + s.deck[s.deckIndex..t.deckIndex]
      && (t.result.value.winner == PlayerWins <==> SomeFiveBeatsAll(s.player, t.dealer))
      && (t.result.value.winner == DealerWins <==> SomeFiveBeatsAll(t.dealer, s.player))
  {
    var d := DealShowdown(s.deck, s.deckIndex, s.dealer);
    ShowdownDealerSize(s.deck, s.deckIndex, s.dealer);
    ShowdownVerdict(s.player, d.dealer);
  }

  /** `handlePlayAgain`, with the new deck from `createDeck` as a parameter. */
  function PlayAgain(s: EasyState, newDeck: seq<Card>): (t: EasyState)
    ensures t.deck == newDeck && t.deckIndex == 0 && t.player == [] && t.dealer == []
    ensures t.result.None?
  {
    NewGame(newDeck)
  }

  // ---------------------------------------------------------------------------
  // The invariant of a game

  /** The deck position is within the deck, the two hands hold exactly the cards dealt,
      the player never has more than five, and a verdict exists exactly at the
      showdown. */
  ghost predicate Valid(s: EasyState) {
    && HandsHoldDealt(s.deck, s.deckIndex, s.player, s.dealer)
    && |s.player| <= PlayerHandSize
    && (s.phase == Showdown <==> s.result.Some?)
  }

  lemma NewGameValid(deck: seq<Card>)
    ensures Valid(NewGame(deck))
  {
    assert deck[..0] == [];
  }

  /** A take with a card to show moves exactly that card into the player's hand and
      keeps the game valid; otherwise nothing changes. */
  lemma TakeValid(s: EasyState)
    requires Valid(s)
    ensures Valid(Take(s))
    ensures OffersTakeOrPass(s) ==>
      Take(s).player == s.player + [s.deck[s.deckIndex]] && Take(s).deckIndex == s.deckIndex + 1
    ensures !OffersTakeOrPass(s) ==> Take(s) == s
  {
    if OffersTakeOrPass(s) {
      DealNext(s.deck, s.deckIndex, s.player, s.dealer);
    }
  }

  /** A pass with a card to show moves exactly that card into the dealer's hand and
      keeps the game valid; with no card to show nothing changes. */
  lemma PassValid(s: EasyState)
    requires Valid(s)
    ensures Valid(Pass(s))
    ensures CurrentCard(s).Some? ==>
      Pass(s).dealer == s.dealer + [s.deck[s.deckIndex]] && Pass(s).deckIndex == s.deckIndex + 1
    ensures CurrentCard(s).None? ==> Pass(s) == s
  {
    if CurrentCard(s).Some? {
      DealNext(s.deck, s.deckIndex, s.player, s.dealer);
    }
  }

  /** The showdown keeps the game valid. */
  lemma ShowdownValid(s: EasyState)
    requires Valid(s)
    ensures HandleShowdown(s).Ok? ==> Valid(HandleShowdown(s).value)
  {
    ShowdownKeepsCards(s.deck, s.deckIndex, s.player, s.dealer);
  }

  /** From a full deck, the Showdown button always leads to a verdict, with the dealer
      holding at least eight cards. */
  lemma ShowdownFromFullDeck(s: EasyState)
    requires Valid(s) && IsFullDeck(s.deck) && OffersShowdown(s)
    ensures HandleShowdown(s).Ok?
    ensures |HandleShowdown(s).value.dealer| >= DealerHandSize
  {
    ShowdownSucceeds(s.deck, s.deckIndex, s.player, s.dealer);
  }

  /** Play Again starts a valid game. */
  lemma PlayAgainValid(s: EasyState, newDeck: seq<Card>)
    ensures Valid(PlayAgain(s, newDeck))
  {
    NewGameValid(newDeck);
  }

  /** Every offered Take or Pass deals one card, so drafting ends after at most as many
      steps as there are cards. */
  lemma DraftingProgress(s: EasyState)
    requires OffersTakeOrPass(s)
    ensures Take(s).deckIndex == s.deckIndex + 1 && Pass(s).deckIndex == s.deckIndex + 1
    ensures Take(s).deckIndex <= |s.deck| && Pass(s).deckIndex <= |s.deck|
  {
  }

  /** Once the deck is used up with the player short of five cards, no button changes
      the game: Take and Pass are no-ops and the Showdown button is never offered. */
  lemma ExhaustedDraftIsStuck(s: EasyState)
    requires s.phase == Drafting && s.deckIndex >= |s.deck| && |s.player| < PlayerHandSize
    ensures Take(s) == s && Pass(s) == s
    ensures !OffersTakeOrPass(s) && !OffersShowdown(s)
  {
  }
}
