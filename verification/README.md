# Range Poker in Dafny

A model of the core of Range Poker, a single-player poker drafting game. The player
builds a five-card hand against a dealer who collects every card the player declines;
at the showdown the dealer is topped up to eight cards and each side plays its best
five.

The model covers these parts:

- **Deck** (`deck.dfy`): ranks, suits, `rankValue`, `cardToString`, and `createDeck`.
  The deck is built suit by suit in `RANKS` order, then shuffled with Fisher–Yates.
- **Hand evaluator** (`hand_evaluator.dfy`): `evaluateHand` and `checkStraight`, with
  the value groups (`counts`) that drive the categories and the tiebreakers.
- **Comparison** (`hand_compare.dfy`): `compareHands`.
- **Combinations and best hand** (`combinations.dfy`, `best_hand.dfy`):
  `getCombinations`, in its backtracking order, and `findBestHand`, which keeps the
  first best combination.
- **Partial labels** (`partial_hand.dfy`): `rankName` and `evaluatePartialHand`.
- **Shared game logic** (`game_shared.dfy`): `getHandStrength`, `computeShowdownResult`,
  and the showdown step both modes share. That step deals the dealer up to eight cards
  and then compares the hands.
- **Easy mode** (`easy_game.dfy`): a take/pass draft over the deck.
- **Hard mode** (`hard_game.dfy`): the range selector and its toggles, and the deal.
  The deal turns cards over until one lies in the selected range. The player gets that
  card and the dealer gets the cards turned before it.

Each handler, together with the animation effect it starts, is one atomic step.

The game invariant is that the two hands hold exactly the cards dealt so far. Every
step is proved to keep it. From a full deck, Hard mode's deal always finds a match and
the showdown always reaches a verdict.

`Math.random` is replaced by a `picks` parameter: the sequence of swap indices the
shuffle draws. `createDeck` gives a full deck for every admissible `picks`.

The code is followed where the documented design differs from it:

- `rankValue` returns `undefined` for an unknown rank and does not raise an error. It
  is modelled as `Option` (`Deck.RankValue`). The exception is a name that the lookup
  object inherits, such as `"toString"`; see `Deck.RankValue` under "Left out".
- Hard mode has no automatic fallback when the deck runs out during a deal. As
  written, the exhausted-deck branch of the dealing effect appends the turned cards to
  the dealer four times (at 150, 300, 450 and 600 ms, because each append changes the
  dealer's length and restarts the effect). From a full deck with a non-empty range
  that branch is never taken (`HardGame.DealAlwaysMatches`). `HardGame.HandleDeal`
  gives the turned cards to the dealer once, and `HardGame.HandleDealAsWritten`
  models the repeated appends (see "Findings").
- `compareHands` walks the first evaluation's tiebreakers only. When the second list is
  shorter it compares against `undefined` and returns -1. This is modelled literally;
  evaluations of five cards with equal rank always have equal-length tiebreakers.

## Model

| member | source | states |
|---|---|---|
| Deck.RankValue | src/utils/deck.js:41-47 | a defined value always lies between 2 and 14 |
| Deck.RankValueOfText | src/utils/deck.js:41-47 | the text of every rank has a value, and it is that rank's value |
| Deck.RankValueUndefined | src/utils/deck.js:41-47 | any string that is not one of the thirteen rank texts has no value (inherited object member names excepted, see "Left out") |
| Deck.ValueIncreasing | src/utils/deck.js:41-47 | values strictly increase along `RANKS` |
| Deck.ValueInjective | src/utils/deck.js:41-47 | different ranks have different values |
| Deck.CardToString | src/utils/deck.js:50-52 | the text ends in the suit symbol, and the rest is the rank text |
| Deck.CardToStringInjective | src/utils/deck.js:50-52 | different cards print differently |
| Deck.UnshuffledDeckOrder | src/utils/deck.js:20-26 | position 13·i + j holds rank j of suit i |
| Deck.UnshuffledDeckComplete | src/utils/deck.js:20-26 | the unshuffled deck holds every card, none twice |
| Deck.UnshuffledDeckIsFull | src/utils/deck.js:20-26 | the unshuffled deck has 52 cards, each exactly once |
| Deck.Shuffle | src/utils/deck.js:31-38 | the shuffle returns a permutation of its input for any admissible random draws |
| Deck.CreateDeck | src/utils/deck.js:20-28 | a created deck has 52 cards, each card exactly once |
| HandEvaluator.HandName | src/utils/handEvaluator.js:4-28 | the name of each category in 1..10 (`HAND_NAMES[rank]`); its meaning is stated by `HandNameInjective` and by every `WellFormed` evaluation |
| HandEvaluator.HandNameInjective | src/utils/handEvaluator.js:17-28 | each of the ten categories has a name of its own; `HandEvaluator.HandName` is the table these names come from |
| HandEvaluator.SortDesc | src/utils/handEvaluator.js:38 | the values come out in descending order with the same multiset |
| HandEvaluator.SortedUnique | src/utils/handEvaluator.js:38 | two descending lists with the same multiset are equal, so the sorted values do not depend on card order |
| HandEvaluator.Counts | src/utils/handEvaluator.js:43-50 | the value groups; what they mean is stated by `CountsFacts`, `GroupOrder` and `CountsShape` below |
| HandEvaluator.CountsFacts | src/utils/handEvaluator.js:43-50 | the groups are ordered by count then value; each count is its value's multiplicity; every value has a group; the counts sum to the number of values |
| HandEvaluator.GroupOrder | src/utils/handEvaluator.js:43-50 | group values are exactly the values present, and each outranks the next by count, then by value |
| HandEvaluator.CountsShape | src/utils/handEvaluator.js:43-50 | the only group shapes five values allow: 5, 4+1, 3+2, 3+1+1, 2+2+1, 2+1+1+1 and 1+1+1+1+1 |
| HandEvaluator.MultiplicityConditions | src/utils/handEvaluator.js:43-50 | the count tests used on `counts[0]` and `counts[1]` hold exactly when some value occurs 4, 3 or 2 times, or two values occur twice |
| HandEvaluator.CheckStraight | src/utils/handEvaluator.js:127-139 | the straight test; `CheckStraightMeaning` states what it decides |
| HandEvaluator.CheckStraightMeaning | src/utils/handEvaluator.js:127-139 | a normal straight is exactly five consecutive distinct values; the wheel is exactly A-5-4-3-2 |
| HandEvaluator.Category | src/utils/handEvaluator.js:52-123 | the category ladder: Royal Flush exactly for an ace-high straight flush, and High Card exactly when no other condition holds |
| HandEvaluator.Classify | src/utils/handEvaluator.js:52-123 | every result has a rank in 1..10, its `HAND_NAMES` name and the category's tiebreaker length; Royal Flush, Flush and High Card carry all five values, and straights the high card `checkStraight` implies |
| HandEvaluator.ClassifyLower | src/utils/handEvaluator.js:97-123 | without four of a kind or a full house, and below a straight, the category is at most Three of a Kind, and High Card carries all five values |
| HandEvaluator.ClassifyCategory | src/utils/handEvaluator.js:52-123 | the evaluator's branches follow the category ladder, with conditions read off the value groups |
| HandEvaluator.EvaluateHandRank | src/utils/handEvaluator.js:32-124 | the category equals the standard one, defined independently from flush, run and value multiplicities |
| HandEvaluator.GroupTiebreakers | src/utils/handEvaluator.js:63-121 | for four of a kind, full house, trips, two pair and one pair, the tiebreakers are the group values in group order |
| HandEvaluator.LowerGroups | src/utils/handEvaluator.js:97-121 | below a straight, three of a kind, two pair and one pair carry the group values in group order |
| HandEvaluator.ClassifyTiebreakers | src/utils/handEvaluator.js:52-123 | grouped categories rank values by multiplicity, then value; straights carry the high card (5 for the wheel); other categories carry all values in descending order |
| HandEvaluator.EvaluateHand | src/utils/handEvaluator.js:32-35 | an error exactly when the hand is not five cards; otherwise the rank is 1..10, the name is `HAND_NAMES[rank]`, and the tiebreaker length fits the category |
| HandEvaluator.EvaluateHandOrderIndependent | src/utils/handEvaluator.js:32-124 | the evaluation depends only on which cards are in the hand, not their order |
| HandCompare.Compare | src/utils/handEvaluator.js:142-155 | the result is -1, 0 or 1, and a higher category always wins |
| HandCompare.CompareFromRange | src/utils/handEvaluator.js:147-154 | the tiebreaker loop returns -1, 0 or 1 |
| HandCompare.CompareFromMeaning | src/utils/handEvaluator.js:147-154 | on equal-length lists: 0 exactly for equal lists, 1 exactly when the first list is lexicographically above |
| HandCompare.CompareFromAntisymmetric | src/utils/handEvaluator.js:147-154 | swapping equal-length lists negates the result |
| HandCompare.CompareFromTransitive | src/utils/handEvaluator.js:147-154 | "at least as good" is transitive on equal-length lists, and strict when either step is strict |
| HandCompare.CompareReflexive | src/utils/handEvaluator.js:142-155 | every evaluation ties with itself |
| HandCompare.CompareMeaning | src/utils/handEvaluator.js:142-155 | on evaluations of five cards: a tie exactly for equal rank and tiebreakers; a win exactly for a higher rank, or the same rank with lexicographically higher tiebreakers |
| HandCompare.CompareAntisymmetric | src/utils/handEvaluator.js:142-155 | swapping the evaluations of five cards negates the result |
| HandCompare.CompareTransitive | src/utils/handEvaluator.js:142-155 | "at least as good" is transitive on evaluations of five cards, and strict when either step is strict |
| HandCompare.CompareOrderIndependent | src/utils/handEvaluator.js:142-155 | reordering either hand does not change the comparison |
| Combinations.Combos | src/utils/handEvaluator.js:228-245 | every index list emitted is strictly increasing, within range, and of the requested length |
| Combinations.CombosCount | src/utils/handEvaluator.js:228-245 | the backtracking emits exactly C(n, k) lists |
| Combinations.CombosComplete | src/utils/handEvaluator.js:228-245 | every strictly increasing index list of length k is emitted |
| Combinations.GetCombinations | src/utils/handEvaluator.js:228-245 | C(n, k) combinations; combination j holds the elements at the j-th increasing choice of k positions, in backtracking order; every increasing choice of k positions appears |
| Combinations.IndexSetFull | src/utils/handEvaluator.js:228-245 | the only way to choose n positions out of n is all of them in order |
| BestHand.ScanBest | src/utils/handEvaluator.js:214-222 | the loop ends on a combination that beats or ties every combination and strictly beats every earlier one |
| BestHand.BestIndex | src/utils/handEvaluator.js:214-222 | the first evaluation that beats or ties all the others |
| BestHand.FindBestHand | src/utils/handEvaluator.js:204-225 | an error exactly for fewer than five cards; the result is five cards and their evaluation; five cards come back unchanged |
| BestHand.FindBestHandFirstBest | src/utils/handEvaluator.js:211-224 | with more than five cards the result is the first combination, in backtracking order, that beats or ties all the others |
| BestHand.FindBestHandIsSelection | src/utils/handEvaluator.js:204-225 | the chosen cards are five of the given cards in their original order |
| BestHand.FindBestHandOptimal | src/utils/handEvaluator.js:204-225 | no choice of five of the cards beats the chosen hand |
| PartialHand.NatStringRoundTrip | src/utils/handEvaluator.js:159-161 | the decimal text of a number reads back as that number |
| PartialHand.RankName | src/utils/handEvaluator.js:157-161 | every card value gets its `VALUE_NAMES` entry |
| PartialHand.RankNameFallback | src/utils/handEvaluator.js:159-161 | a number without an entry is written as its decimal digits |
| PartialHand.RankNameInjective | src/utils/handEvaluator.js:157-161 | different card values get different names |
| PartialHand.RankNameRoundTrip | src/utils/handEvaluator.js:157-161 | the name of every card value from 2 to 14 reads back as that value |
| PartialHand.EvaluatePartialHand | src/utils/handEvaluator.js:164-166 | no label exactly for no cards; with five or more, the category name of the best five, which is one of `HAND_NAMES` |
| PartialHand.SortedValues | src/utils/handEvaluator.js:168 | the values are in descending order, one per card, each as often as it occurs among the cards |
| PartialHand.PartialLabel | src/utils/handEvaluator.js:168-200 | the label of one to four cards; each of its five branches is characterised by one of the `Partial…` lemmas below |
| PartialHand.PartialFour | src/utils/handEvaluator.js:179-182 | four cards of one value are labelled "Four Vs" |
| PartialHand.PartialThree | src/utils/handEvaluator.js:184-187 | three cards of one value are labelled "Three Vs" |
| PartialHand.PartialTwoPair | src/utils/handEvaluator.js:189-192 | two pairs are labelled by the higher pair, then the lower |
| PartialHand.PartialPair | src/utils/handEvaluator.js:194-197 | exactly one value twice and none more often is labelled "Pair of Vs" |
| PartialHand.PartialHigh | src/utils/handEvaluator.js:199-200 | with no value repeated, the label is the highest value, then "High" |
| GameShared.GetHandStrength | src/components/GameShared.jsx:7-10 | no strength exactly for an empty hand; otherwise the partial-hand label: for one to four cards the made-hand description, with five or more the name of the best five |
| GameShared.ComputeShowdown | src/components/GameShared.jsx:12-24 | a verdict exactly when both hands have five cards; it carries both best evaluations and both best five-card selections; player, dealer or tie by the sign of the comparison |
| GameShared.ShowdownSwap | src/components/GameShared.jsx:12-24 | exchanging the hands exchanges player and dealer wins and keeps ties |
| GameShared.WinnerBeatsAll | src/components/GameShared.jsx:12-24 | a player win means some five of the player's cards beat every five of the dealer's |
| GameShared.BeatsAllWins | src/components/GameShared.jsx:12-24 | five player cards that beat every five of the dealer's give a player win |
| GameShared.ShowdownPlayerWins | src/components/GameShared.jsx:12-24 | the player wins exactly when some five of their cards beat every five of the dealer's |
| GameShared.ShowdownVerdict | src/components/GameShared.jsx:12-24 | the verdict is a player win exactly when some five player cards beat every five dealer cards, and a dealer win exactly when the reverse holds |
| GameShared.TopUp | src/components/EasyGame.jsx:230-237 | the dealer is dealt the next `8 - size` cards of the deck, or as many as remain |
| GameShared.TopUpIsSlice | src/components/EasyGame.jsx:230-237 | the cards dealt are a contiguous run of the deck starting at the deck position |
| GameShared.DealShowdown | src/components/EasyGame.jsx:229-284 | the dealer top-up before the verdict; `ShowdownDealerSize` states the resulting size and that the added cards are the next ones of the deck |
| GameShared.ShowdownDealerSize | src/components/EasyGame.jsx:229-284 | the dealer ends with 8 cards, or with more if already held, or with fewer when the deck runs out; the cards added are the next ones of the deck |
| GameShared.DealNext | src/components/EasyGame.jsx:193-225 | giving the next card to either hand keeps the hands holding exactly the dealt cards |
| GameShared.DealRun | src/components/HardGame.jsx:389-395 | giving a run of the next cards to the dealer keeps the hands holding exactly the dealt cards |
| GameShared.ShowdownKeepsCards | src/components/EasyGame.jsx:229-284 | the showdown keeps the hands holding exactly the dealt cards |
| GameShared.DealtAtMostOnce | src/components/EasyGame.jsx:193-225 | from a full deck no card is held twice across the two hands |
| GameShared.ShowdownSucceeds | src/components/EasyGame.jsx:229-284 | from a full deck with five player cards the showdown always reaches a verdict, and the dealer holds at least eight cards |
| EasyGame.CurrentCard | src/components/EasyGame.jsx:186 | a current card exists exactly while drafting with cards left |
| EasyGame.NewGame | src/components/EasyGame.jsx:155-160 | a new game starts at the first card of the deck, with both hands empty, in the drafting phase, with no verdict |
| EasyGame.Take | src/components/EasyGame.jsx:193-208 | a take never changes the deck, the dealer's hand or the phase |
| EasyGame.Pass | src/components/EasyGame.jsx:210-225 | a pass never changes the deck, the player's hand or the phase |
| EasyGame.HandleShowdown | src/components/EasyGame.jsx:229-284 | success exactly when both the player's hand and the topped-up dealer's hand hold at least five cards for `computeShowdownResult`; the state records the topped-up dealer hand, the deck position after it, the showdown phase and the verdict on those hands, with the player's hand unchanged |
| EasyGame.NewGameValid | src/components/EasyGame.jsx:155-160 | a new game satisfies the invariant |
| EasyGame.TakeValid | src/components/EasyGame.jsx:193-208 | an offered take moves exactly the current card to the player and keeps the invariant; otherwise nothing changes |
| EasyGame.PassValid | src/components/EasyGame.jsx:210-225 | a pass moves exactly the current card to the dealer and keeps the invariant; with no current card nothing changes |
| EasyGame.ShowdownValid | src/components/EasyGame.jsx:229-284 | a successful showdown keeps the invariant |
| EasyGame.ShowdownWinner | src/components/EasyGame.jsx:229-284 | the recorded dealer hand is the old one plus the next cards of the deck, and the recorded winner is the player exactly when some five of the player's cards beat every five of that hand (the dealer symmetrically) |
| EasyGame.ShowdownFromFullDeck | src/components/EasyGame.jsx:338-345 | from a full deck the offered Showdown button always reaches a verdict, with at least eight dealer cards |
| EasyGame.PlayAgain | src/components/EasyGame.jsx:287-298 | Play Again discards the old game: the new deck from its first card, both hands empty, no verdict |
| EasyGame.PlayAgainValid | src/components/EasyGame.jsx:287-298 | Play Again starts a game satisfying the invariant |
| EasyGame.DraftingProgress | src/components/EasyGame.jsx:193-225 | each offered take or pass advances the deck position by one, staying within the deck |
| EasyGame.ExhaustedDraftIsStuck | src/components/EasyGame.jsx:371-380 | with the deck used up and the hand short, take and pass change nothing and neither button is offered |
| HardGame.RankTextInjective | src/utils/deck.js:3 | different ranks have different texts |
| HardGame.CardKeyInjective | src/components/HardGame.jsx:51 | different cards have different keys, so a set of keys is a set of cards |
| HardGame.NewGame | src/components/HardGame.jsx:274-282 | a new game starts at the first card of the deck, with both hands and the range empty, selecting, and no verdict |
| HardGame.UsedCards | src/components/HardGame.jsx:309-316 | a card is used exactly when it sits before the deck position |
| HardGame.ToggleCard | src/components/HardGame.jsx:55-65 | a used card leaves the range unchanged; another card switches membership; no other card changes |
| HardGame.SetAll | src/components/HardGame.jsx:70-78 | the unused cards of the row are all added or all removed; nothing else changes |
| HardGame.ToggleRank | src/components/HardGame.jsx:67-80 | the unused cards of the rank are all removed when every card of the rank is used or selected, and all added otherwise; other cards keep their membership |
| HardGame.ToggleSuit | src/components/HardGame.jsx:82-95 | the same for the thirteen cards of a suit |
| HardGame.ToggleRankTwice | src/components/HardGame.jsx:67-80 | toggling a rank that had none of its cards selected, twice, restores the range |
| HardGame.SelectCard | src/components/HardGame.jsx:55-65 | clicking a card changes only the range: a dealt card leaves it unchanged, another card switches membership, no other card changes |
| HardGame.SelectRank | src/components/HardGame.jsx:67-80 | clicking a rank changes only the range: cards of other ranks and dealt cards keep their membership, and the undealt cards of the rank all end up in or all out |
| HardGame.SelectSuit | src/components/HardGame.jsx:82-95 | the same for a suit |
| HardGame.ClearAll | src/components/HardGame.jsx:97 | clearing empties the range and nothing else, after which dealing is not allowed |
| HardGame.Reveal | src/components/HardGame.jsx:329-345 | the turned cards are the deck from the position on, up to the match; none is in the range; the match is in the range; with no match the deck is used up |
| HardGame.RevealFindsFirst | src/components/HardGame.jsx:329-345 | a match exists exactly when some card at or after the position is in the range, and no card before the match is |
| HardGame.CanDeal | src/components/HardGame.jsx:424-426 | the Deal button's condition; `DealValid` states that a deal it allows keeps the invariant |
| HardGame.HandleDeal | src/components/HardGame.jsx:325-406 | an empty range changes nothing; a deal never changes the deck or the phase; `DealTakesFirstMatch` states which cards go where |
| HardGame.DealTakesFirstMatch | src/components/HardGame.jsx:325-404 | the player gets the first card of the range at or after the position, the dealer the cards before it, and the position moves just past it |
| HardGame.NewGameValid | src/components/HardGame.jsx:274-281 | a new game satisfies the invariant |
| HardGame.SelectValid | src/components/HardGame.jsx:513-531 | the offered selector keeps the invariant; in particular the range never holds a dealt card |
| HardGame.RevealKeepsCards | src/components/HardGame.jsx:325-418 | a deal hands out exactly the cards from the old position to the new one |
| HardGame.DealValid | src/components/HardGame.jsx:325-425 | a deal the Deal button allows keeps the invariant and gives the player at most one card |
| HardGame.DealAlwaysMatches | src/components/HardGame.jsx:408-420 | from a full deck a non-empty range always matches: the exhausted-deck branch is never taken, and the player gains one card |
| HardGame.HandleShowdown | src/components/HardGame.jsx:428-483 | success exactly when both the player's hand and the topped-up dealer's hand hold at least five cards for `computeShowdownResult`; the state records the topped-up dealer hand, the deck position after it, the showdown phase and the verdict on those hands, with the player's hand unchanged |
| HardGame.ShowdownValid | src/components/HardGame.jsx:428-483 | the offered showdown keeps the invariant |
| HardGame.ShowdownWinner | src/components/HardGame.jsx:428-483 | the recorded dealer hand is the old one plus the next cards of the deck, and the recorded winner is the player exactly when some five of the player's cards beat every five of that hand (the dealer symmetrically) |
| HardGame.ShowdownFromFullDeck | src/components/HardGame.jsx:577-582 | from a full deck the offered Showdown button always reaches a verdict, with at least eight dealer cards |
| HardGame.PlayAgain | src/components/HardGame.jsx:485-499 | Play Again discards the old game: the new deck from its first card, both hands empty, an empty range, no verdict |
| HardGame.PlayAgainValid | src/components/HardGame.jsx:485-499 | Play Again starts a game satisfying the invariant, with an empty range |
| HardGame.HandleDealAsWritten | src/components/HardGame.jsx:359-422 | the dealing effect as the timers run it differs from the intended deal only by extra cards appended to the dealer's hand |
| HardGame.DealAsWrittenDuplicates | src/components/HardGame.jsx:359-422 | as written, turned cards reach the dealer three times after a match and four times without one, so the hands hold more cards than were dealt |

## Left out

- Rendering is not modelled: the React components, `Card.jsx`, `Hint.jsx` and
  `App.jsx` are view code. Navigation and the tutorial steps stored in
  `localStorage` are left out for the same reason.
- `sound.js` is audio output only.
- The animation timers and the intermediate phases `DEALING` and `DEALING_SHOWDOWN`
  are left out. Each handler and the effect it starts is one step; the dealing effect
  as written is modelled only for the finding below.
- `Math.random` is not modelled. `Deck.Shuffle` and `Deck.CreateDeck` take the
  sequence of swap indices as a parameter.
- Deck.Shuffle: states only that the result is a permutation. It does not state which
  permutation a given sequence of draws produces, because no caller depends on it.
- `SUIT_COLORS` and the layout of the hand-strength display are presentation only.
- Deck.RankValue: the table in `rankValue` is a plain JavaScript object, so
  `values[rank]` also finds members inherited from `Object.prototype`.
  `rankValue("constructor")`, `rankValue("toString")`, `rankValue("__proto__")` and the
  other inherited names return a function or object, not `undefined`. The model gives
  no value for them, and `Deck.RankValueUndefined` holds in JavaScript only for strings
  that are not such names. Every caller passes the rank of a card, which is always one
  of `RANKS` (`Deck.RankValueOfText`).
- The estimate "cards/match" shown by the selector is floating-point display text and is
  not modelled.
- Easy mode keeps the drafting phase with no buttons when the deck runs out before the
  player has five cards. `EasyGame.ExhaustedDraftIsStuck` states this, and it cannot
  happen from a full deck.

## Findings

| source | as written | input that shows it | evidently intended | confidence | as-written member | corrected member |
|---|---|---|---|---|---|---|
| src/components/HardGame.jsx:359-422 | Every append to a hand changes a length the dealing effect depends on, so the effect runs again while the deal record is still in place. After a match the rerun finds the deal processed and takes the deck-exhausted branch, which appends the turned cards to the dealer again at 150 and 300 ms. Without a match, that branch reruns itself and appends the turned cards at 150, 300, 450 and 600 ms. | A deal whose first card is outside the range and whose second card is in it: the dealer ends with the first card three times. | The dealer receives each turned card once, and the hands hold exactly the dealt cards. | medium; not executed | HardGame.DealAsWrittenDuplicates | HardGame.DealValid |
