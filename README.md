# Briscola rules engine in Dafny

This project models the rules engine of a Briscola card game for 1 to 13 players (the most a 40-card pack can deal three cards to, with the briscola card drawn). The engine's three parts are:

- `briscola/deck.py`: the 40-card Neapolitan pack (`Card`, `Deck`);
- `briscola/player.py`: a player with a hand, a score and an optional team;
- `briscola/briscola.py`: the game object `BriscolaGame`. It deals, takes one card per turn, resolves full tricks, replenishes hands and answers queries.

Modules:

- `Wrappers` (wrappers.dfy): `Option`, and the `Result`/`Outcome` types that stand for a raised error.
- `Lists` (lists.dfy): Python's `list.index` and `list.remove`.
- `CardDeck` (deck.dfy): cards, the RANKS/SUITS/VALUES tables and the fresh pack. Also the shuffle as a function of a random source, and the class `Deck`, whose list of cards is shuffled and popped in place.
- `Players` (player.py → player.dfy): the class `Player`, whose hand and score are updated in place.
- `BriscolaRules` (rules.dfy): the rules on values. This covers:
  - the winning card;
  - crediting a trick's points;
  - `players.index`;
  - dealing and clockwise replenishing as functions on a `Table` (the hands plus the deck);
  - the seat that played each trick position.
- `BriscolaState` (state.dfy): the whole game as a value `Game`. It also carries the invariant `Consistent` and the effect of each step (`NewGame`, `Played`, `Resolved`, `AfterTurn`), with lemmas proving that every step keeps the invariant. The invariant covers:
  - every card of the pack is in exactly one place;
  - hands hold at most 3 cards;
  - scores are non-negative;
  - the acting seat follows the leader clockwise;
  - without teams, the scores add up to the points won.
- `Briscola` (game.dfy): the class `BriscolaGame`. Its fields are the players (objects updated in place), the deck object, the briscola card, the acting seat, the trick and the trick count. `State()` reads the object as a `Game`. Every method is proved to turn `old(State())` into the value the rules compute, and `PlayTurn` keeps `Valid()`. `Valid()` says the players are distinct objects and the state is `Consistent`.

Four ghost fields of the class (`won`, `setAside`, `leader`, `playedBy`) keep bookkeeping the program does not keep, so that card conservation and "who played what" can be stated:

- the cards of the tricks already won;
- the cards set aside;
- the seat that led the trick and the seat that played each of its cards.

The model follows the code where its documentation promises more:

- A tie in card value goes to the first such card in trick order (Python's `max`). Ranks are never compared.
- The winning player is `players[current_trick.index(winning_card)]`, and the next leader is `players.index(winning_player)`, using field-wise equality.
- `get_winner` returns the first player with the greatest score, with no special case for a tie.
- `play_turn` checks neither whose turn it is nor whether the game is over.
- The briscola card is drawn at set-up and never returns to the deck.

## Model

| member | source | states |
|---|---|---|
| `Lists.IndexOf` | briscola/briscola.py:101 | `list.index`: the position holds the element and no earlier position does |
| `Lists.RemoveFirst` | briscola/player.py:16 | `list.remove` of a present element: one copy fewer, length one less; the absent case, where Python raises, is never reached because `play_card` checks membership first (player.py:15) and is given the list unchanged |
| `Lists.RemoveFirstAt` | briscola/player.py:16 | removing keeps exactly the elements before and after the first occurrence, in order |
| `CardDeck.RankIndex` | briscola/deck.py:17 | every rank has its place in the RANKS table |
| `CardDeck.SuitIndex` | briscola/deck.py:18 | every suit has its place in the SUITS table |
| `CardDeck.FullDeck` | briscola/deck.py:25-29 | the comprehension builds 40 cards |
| `CardDeck.FullDeckDistinct` | briscola/deck.py:25-29 | the fresh pack has 40 cards and no card twice |
| `CardDeck.FullDeckMember` | briscola/deck.py:19-29 | a card is in the fresh pack exactly when its value is VALUES of its rank: one card per (rank, suit) pair |
| `CardDeck.FullDeckOnce` | briscola/deck.py:25-29 | the pack holds each well-valued card exactly once and no other card |
| `CardDeck.FullDeckValues` | briscola/deck.py:19-22 | every card of the pack is valued by VALUES and is worth at least 0 |
| `CardDeck.SuitRowPoints` | briscola/deck.py:19-22 | the ten cards of one suit are worth 30 points |
| `CardDeck.FullDeckPoints` | briscola/deck.py:19-29 | the pack's values add up to 120 |
| `CardDeck.PointsAppend` | briscola/briscola.py:102 | the point sum of two card lists joined is the sum of their point sums |
| `CardDeck.PointsNonNegative` | briscola/briscola.py:102 | cards worth at least 0 add up to at least 0 |
| `CardDeck.Swap` | briscola/deck.py:34 | exchanging two positions moves exactly those two cards |
| `CardDeck.SwapPermutes` | briscola/deck.py:34 | one exchange keeps the multiset of cards |
| `CardDeck.ShuffleDownPermutes` | briscola/deck.py:34 | every exchange of the Fisher-Yates pass keeps the multiset of cards |
| `CardDeck.ShuffledPermutes` | briscola/deck.py:32-34 | a shuffle is a permutation: same cards, same multiplicities, same length |
| `CardDeck.Deck.constructor` | briscola/deck.py:24-30 | the new deck is the fresh pack shuffled: 40 cards, the pack's multiset |
| `CardDeck.Deck.Shuffle` | briscola/deck.py:32-34 | the loop leaves the Fisher-Yates result of the old cards, a permutation of them |
| `CardDeck.Deck.Draw` | briscola/deck.py:36-40 | a non-empty deck yields its last card and keeps the rest in order; an empty one fails and is unchanged |
| `CardDeck.Deck.Len` | briscola/deck.py:42-44 | the number of cards left, zero exactly when the deck is empty |
| `Players.AnyOfSuit` | briscola/player.py:34 | `any(...)`: true exactly when some card has the suit |
| `Players.Player.constructor` | briscola/player.py:6-11 | a new player has the given name and team, an empty hand and score 0 |
| `Players.Player.PlayCard` | briscola/player.py:13-18 | a held card is returned and its first occurrence removed; otherwise the call fails and the hand is unchanged |
| `Players.PlayRemovesFirstOccurrence` | briscola/player.py:15-17 | playing a held card shortens the hand by one, drops exactly its first occurrence and keeps the rest in order |
| `Players.Player.AddCard` | briscola/player.py:20-22 | the card is appended at the end of the hand |
| `Players.Player.AddToScore` | briscola/player.py:24-26 | the score becomes old score plus points, nothing else changes |
| `Players.Player.GetHandSize` | briscola/player.py:28-30 | the hand's length, read-only |
| `Players.Player.HasBriscola` | briscola/player.py:32-34 | true exactly when some card in the hand has the given suit |
| `Players.Player.GetPlayableCards` | briscola/player.py:36-41 | a sequence equal to the hand, whatever the lead suit |
| `BriscolaRules.OfSuit` | briscola/briscola.py:130-132 | the filter keeps only cards of the trick with that suit, and is empty exactly when none has it |
| `BriscolaRules.FirstMax` | briscola/briscola.py:135 | `max` by value returns a member worth at least every other, and the first such member: every earlier card is worth strictly less |
| `BriscolaRules.WinningCard` | briscola/briscola.py:129-138 | the winning card is a card of the trick |
| `BriscolaRules.FirstMaxOfSuit` | briscola/briscola.py:130-135 | filtering a suit played in the trick and taking `max` gives the first position of greatest value of that suit |
| `BriscolaRules.WinningCardPosition` | briscola/briscola.py:129-138 | the winner is the first card of greatest value in the briscola suit if one was played, else in the lead suit; it has that suit |
| `BriscolaRules.WinsAtUnique` | briscola/briscola.py:129-138 | at most one position wins a trick in a given suit |
| `BriscolaRules.HigherLeadCardWins` | briscola/briscola.py:136-138 | example: with Coppe as briscola, the Tre of Denari (10) beats the Re of Denari (4) led before it |
| `BriscolaRules.TieGoesToFirst` | briscola/briscola.py:138 | example: the Due and the Quattro of Denari, both worth 0, tie and the first played wins; ranks are not compared |
| `BriscolaRules.OffSuitLoses` | briscola/briscola.py:137-138 | example: the Re of Spade, neither lead suit nor briscola, loses to the Asso of Coppe led |
| `BriscolaRules.BriscolaBeatsLead` | briscola/briscola.py:134-135 | example: the Due of Denari, worth 0 but briscola, beats the Asso of Coppe led |
| `BriscolaRules.SumZeros` | briscola/player.py:9 | players who have not scored have scores adding up to 0 |
| `BriscolaRules.CreditSolo` | briscola/briscola.py:109-111 | a winner without a team gains the trick's points alone, so the total grows by exactly those points |
| `BriscolaRules.CreditTeam` | briscola/briscola.py:104-108 | with a team, every member of the winner's team gains the full points and nobody else gains any |
| `BriscolaRules.SeatLookup` | briscola/briscola.py:113 | `players.index(players[k])` is at most `k`, and is `k` when names are distinct |
| `BriscolaRules.DrawTo` | briscola/briscola.py:59 | one draw keeps the seat count and takes one card off the deck |
| `BriscolaRules.DrawToConserves` | briscola/briscola.py:59 | a draw neither creates nor loses a card |
| `BriscolaRules.DealSeatsOrder` | briscola/briscola.py:58-59 | in one round of the deal, seat `i` receives the card `i` places from the deck's end |
| `BriscolaRules.DealSeatsConserves` | briscola/briscola.py:58-59 | one round of the deal loses no card |
| `BriscolaRules.DealRoundsSizes` | briscola/briscola.py:57-59 | after `rounds` rounds every hand has grown by `rounds` cards |
| `BriscolaRules.DealRoundsDeck` | briscola/briscola.py:57-59 | the deal only removes cards from the deck's end |
| `BriscolaRules.DealRoundsConserves` | briscola/briscola.py:57-59 | the deal neither creates nor loses a card |
| `BriscolaRules.DealRoundsShape` | briscola/briscola.py:57-59 | the deal gives each seat one card per round, taken from the deck's end, and loses none |
| `BriscolaRules.TopUpOthers` | briscola/briscola.py:160-162 | topping up one seat changes no other hand |
| `BriscolaRules.TopUpConserves` | briscola/briscola.py:161-162 | topping up loses no card and only takes cards from the deck's end |
| `BriscolaRules.TopUpHands` | briscola/briscola.py:161-162 | the hand only grows, to 3 cards or until the deck is empty |
| `BriscolaRules.ReplenishFromConserves` | briscola/briscola.py:158-162 | the clockwise top-ups lose no card and draw only from the deck's end |
| `BriscolaRules.ReplenishFromGrows` | briscola/briscola.py:158-162 | clockwise top-ups only add cards and never take a hand past 3 |
| `BriscolaRules.ReplenishFromFills` | briscola/briscola.py:158-162 | every seat visited holds 3 cards unless the deck ran out |
| `BriscolaRules.ClockwiseCovers` | briscola/briscola.py:158-159 | one round of `(start + i) % n` visits every seat |
| `BriscolaRules.ClockwiseAvoidsStart` | briscola/briscola.py:158-159 | within one round the start seat is visited only first |
| `BriscolaRules.ReplenishShape` | briscola/briscola.py:157-162 | replenishing loses no card, keeps deck plus hand sizes, keeps hands within 3, and fills every hand to 3 unless the deck ran out |
| `BriscolaRules.StartDrawsFirst` | briscola/briscola.py:157-162 | the starting seat tops up from the whole deck before anyone else draws |
| `BriscolaRules.Score` | briscola/briscola.py:100-113 | the next leader is a seat and every seat keeps a score |
| `BriscolaRules.Resolve` | briscola/briscola.py:100-114 | resolution keeps one score and one hand per seat and names a seat to lead |
| `BriscolaRules.ResolveShape` | briscola/briscola.py:100-114 | resolving loses no card, keeps hands within 3 and full unless the deck ran out, never lowers a score, adds exactly the trick's points without teams, picks the winning position as leader when names are distinct, and lets that leader draw first |
| `BriscolaRules.SeatOfPosition` | briscola/briscola.py:75-80 | the seat that played a trick position is a seat |
| `BriscolaRules.SeatOfPositionIs` | briscola/briscola.py:78-80 | within one round, position `k` was played by seat `(leader + k) % n` |
| `BriscolaRules.LeaderAfterLast` | briscola/briscola.py:75-80 | the seat after the one that completed a trick is the seat that led it |
| `BriscolaRules.SeatFromLast` | briscola/briscola.py:75-80 | counting `k` seats on from the seat after the last player finds the seat of position `k` |
| `BriscolaRules.PositionIsSeatOnlyFromSeatZero` | briscola/briscola.py:101 | trick position equals the playing seat for every position exactly when seat 0 led |
| `BriscolaRules.SeatZeroCounts` | briscola/briscola.py:101 | when seat 0 leads, position `k` is seat `k` |
| `BriscolaRules.CreditGoesByPosition` | briscola/briscola.py:101 | a concrete trick led by seat 1 whose 11 points are credited to seat 0 |
| `BriscolaRules.ScoreBySeat` | briscola/briscola.py:101-113 | the corrected scoring names a seat and keeps a score per seat |
| `BriscolaRules.ScoreBySeatCredits` | briscola/briscola.py:101-111 | without teams, the corrected scoring adds the points to the winning card's player alone, who leads next |
| `BriscolaRules.FirstMaxSeat` | briscola/briscola.py:189 | `max(players, key=score)`: the first seat whose score no other seat exceeds |
| `BriscolaState.NoHands` | briscola/player.py:8 | every player starts with an empty hand |
| `BriscolaState.NewGameDealt` | briscola/briscola.py:41-44 | after set-up each hand holds 3 cards and the deck 40 − 3N − 1; the briscola card is a card of the pack; every card is in one place |
| `BriscolaState.NewGameConsistent` | briscola/briscola.py:31-45 | a new game is consistent: 3 cards and 0 points each, 40 − 3N − 1 cards in the deck, and the briscola card out of the deck; consistent too with the briscola card put back under the deck |
| `BriscolaState.CardValues` | briscola/deck.py:19-22 | every card in play in a consistent game is valued by VALUES and worth at least 0 |
| `BriscolaState.PlayedShape` | briscola/briscola.py:71-73 | the played card leaves the hand and joins the trick; its seat is recorded; no card appears or disappears |
| `BriscolaState.ResolvedMoves` | briscola/briscola.py:100-116 | resolution empties the trick into the won cards without losing a card, keeps hands within 3, never lowers a score, and without teams adds exactly the trick's points |
| `BriscolaState.FullTrickResolves` | briscola/briscola.py:82-116 | resolving a full trick gives a consistent game and never lowers a score |
| `BriscolaState.ResolvedConsistent` | briscola/briscola.py:75-76 | completing a trick and resolving it keeps the game consistent |
| `BriscolaState.PassedConsistent` | briscola/briscola.py:77-80 | playing without completing the trick and passing the turn keeps the game consistent |
| `BriscolaState.TurnKeepsConsistent` | briscola/briscola.py:61-80 | any turn keeps the game consistent, never lowers a score, and keeps names, teams, briscola card and set-aside cards |
| `BriscolaState.TurnsKeepConsistent` | briscola/briscola.py:61-80 | any sequence of turns keeps the game consistent |
| `BriscolaState.CardsInPlay` | briscola/briscola.py:21-26 | hands, deck, trick, won tricks and set-aside cards add up to 40 cards |
| `BriscolaState.NoCardTwice` | briscola/briscola.py:21-26 | no card is in two places, or twice in one place |
| `BriscolaState.NeverOverAsWritten` | briscola/briscola.py:175 | with the briscola card set aside and N dividing 40, `is_game_over` never holds |
| `BriscolaState.AllPlayedAsWritten` | briscola/briscola.py:44 | as written, once every card is played, N times the tricks played is 39 |
| `BriscolaState.AllPlayedIsOver` | briscola/briscola.py:175 | with the briscola card back in play, all cards played means N times tricks is 40, so the game is over when N divides 40 |
| `BriscolaState.ResolvedBySeatMoves` | briscola/briscola.py:100-116 | the corrected resolution loses no card, keeps hands within 3, never lowers a score, and without teams adds exactly the trick's points |
| `BriscolaState.FullTrickResolvesBySeat` | briscola/briscola.py:82-116 | the corrected resolution of a full trick gives a consistent game |
| `BriscolaState.AfterPlayBySeat` | briscola/briscola.py:71-80 | in a consistent game, a completed trick's last card came from the acting seat; otherwise the turn passes clockwise |
| `BriscolaState.ResolvedBySeatConsistent` | briscola/briscola.py:75-76 | completing a trick and resolving it the corrected way keeps the game consistent |
| `BriscolaState.TurnBySeatKeepsConsistent` | briscola/briscola.py:61-80 | the corrected turn keeps the game consistent and never lowers a score |
| `BriscolaState.ResolvedBySeatCreditsPlayer` | briscola/briscola.py:101 | the corrected resolution credits and hands the lead to the seat that played the winning card; as written, the credit goes by position, and position and seat agree exactly when seat 0 led |
| `BriscolaState.WinningPosition` | briscola/briscola.py:100-101 | a position of the trick that holds the winning card |
| `BriscolaState.FullTrickCredits` | briscola/briscola.py:101 | for any full trick whose cards were played clockwise from its leader, the corrected resolution credits and hands the lead to the seat at the winning position, the code as written credits the seat numbered by that position, and the two agree for every trick only when seat 0 led |
| `Briscola.HandsOf` | briscola/briscola.py:21 | the hands of the players, seat by seat |
| `Briscola.ScoresOf` | briscola/briscola.py:21 | the scores of the players, seat by seat |
| `Briscola.NamesOf` | briscola/briscola.py:21 | the names of the players, seat by seat |
| `Briscola.TeamsOf` | briscola/briscola.py:21 | the teams of the players, seat by seat |
| `Briscola.DistinctSeated` | briscola/briscola.py:42 | distinct player objects each sit at their own position |
| `Briscola.NewPlayers` | briscola/briscola.py:42 | one fresh player per name, in order, on no team, with no cards and no points |
| `Briscola.HeldCardsAreHands` | briscola/briscola.py:222-229 | the summary's hand sizes add up to the cards held |
| `Briscola.BriscolaGame.constructor` | briscola/briscola.py:31-45 | the new game is `NewGame` of the shuffled pack, and it is valid |
| `Briscola.BriscolaGame.WithBriscolaAtBottom` | briscola/briscola.py:44 | the corrected set-up: the new game with the briscola card under the deck, valid |
| `Briscola.BriscolaGame.PutBriscolaBack` | briscola/briscola.py:44 | the briscola card goes to the bottom of the deck and nothing is set aside |
| `Briscola.BriscolaGame.SetUp` | briscola/briscola.py:43-45 | dealing and drawing the briscola card produce `NewGame` |
| `Briscola.BriscolaGame.DrawBriscola` | briscola/briscola.py:44 | the deck's last card becomes the briscola card and leaves the deck |
| `Briscola.BriscolaGame.DealInitialCards` | briscola/briscola.py:47-59 | three rounds of the deal, as `DealRounds(…, 3)` |
| `Briscola.BriscolaGame.DealRound` | briscola/briscola.py:58-59 | one card to each seat in order |
| `Briscola.BriscolaGame.DealCard` | briscola/briscola.py:59 | the deck's last card goes to one player; nothing else changes |
| `Briscola.BriscolaGame.PlayTurn` | briscola/briscola.py:61-80 | a valid game stays valid; the outcome fails exactly when the acting player lacks the card; the new state is `AfterTurn` |
| `Briscola.BriscolaGame.Turn` | briscola/briscola.py:71-80 | the body of `play_turn` yields `AfterTurn` and its outcome |
| `Briscola.BriscolaGame.Placed` | briscola/briscola.py:75-80 | with the card on the table, the trick is resolved or the turn passes, as `AfterTurn` |
| `Briscola.BriscolaGame.FinishTurn` | briscola/briscola.py:75-80 | a full trick is resolved, otherwise the turn passes to the next seat |
| `Briscola.BriscolaGame.NextPlayer` | briscola/briscola.py:78-80 | the acting seat becomes `(i + 1) % N`, and nothing else changes |
| `Briscola.BriscolaGame.TakeCard` | briscola/briscola.py:71-73 | a held card leaves the hand and joins the trick; otherwise the call fails and nothing changes |
| `Briscola.BriscolaGame.GiveUp` | briscola/briscola.py:71-72 | `play_card` on the acting player; other players keep their hands and all scores stay |
| `Briscola.BriscolaGame.ResolveTrick` | briscola/briscola.py:82-116 | the new state is `Resolved` of the old |
| `Briscola.BriscolaGame.ScoreTrick` | briscola/briscola.py:100-113 | the scores are credited by winning position and the acting seat is `players.index` of the winner |
| `Briscola.BriscolaGame.CreditWinner` | briscola/briscola.py:100-113 | the players' scores become `Score(…)` and their hands stay |
| `Briscola.BriscolaGame.CreditTrick` | briscola/briscola.py:104-111 | the scores become `Credit`: the winner alone, or every teammate, gains the points; hands stay |
| `Briscola.BriscolaGame.CloseTrick` | briscola/briscola.py:115-116 | the trick is emptied and the trick count grows by one |
| `Briscola.BriscolaGame.ReplenishHands` | briscola/briscola.py:140-162 | hands and deck become `Replenish` from the acting seat |
| `Briscola.BriscolaGame.TopUpClockwise` | briscola/briscola.py:157-162 | the `for` loop's hands and deck are `Replenish(…, start)`; scores stay |
| `Briscola.BriscolaGame.TopUpPlayer` | briscola/briscola.py:160-162 | the `while` loop leaves that hand and the deck as `TopUp` computes them |
| `Briscola.BriscolaGame.PlayTurnBySeat` | briscola/briscola.py:61-80 | the corrected turn keeps the game valid and yields `AfterTurnBySeat` |
| `Briscola.BriscolaGame.TurnBySeat` | briscola/briscola.py:71-80 | the body of the corrected turn yields `AfterTurnBySeat` and the same outcome |
| `Briscola.BriscolaGame.PlacedBySeat` | briscola/briscola.py:75-80 | with the card on the table, the corrected resolution or the pass to the next seat |
| `Briscola.BriscolaGame.FinishTurnBySeat` | briscola/briscola.py:75-80 | a full trick is resolved the corrected way, otherwise the turn passes |
| `Briscola.BriscolaGame.ResolveTrickBySeat` | briscola/briscola.py:82-116 | the new state is `ResolvedBySeat` of the old |
| `Briscola.BriscolaGame.ScoreTrickBySeat` | briscola/briscola.py:100-113 | the scores are credited to the seat that played the winning card, and that seat acts next |
| `Briscola.BriscolaGame.CreditWinningSeat` | briscola/briscola.py:100-113 | the players' scores become `ScoreBySeat(…)` and hands stay |
| `Briscola.BriscolaGame.WinningSeat` | briscola/briscola.py:101 | the seat after the acting one, plus the winning position, is the seat that played the winning card |
| `Briscola.BriscolaGame.IsGameOver` | briscola/briscola.py:175 | true exactly when `tricks_played == 40 // N` |
| `Briscola.BriscolaGame.GetWinner` | briscola/briscola.py:187-189 | None exactly before the game is over; then the first player with the greatest score |
| `Briscola.BriscolaGame.GetCurrentPlayer` | briscola/briscola.py:201 | `players[current_player_index]`, and it is the player a turn plays from: a card passes exactly when it is in that player's hand |
| `Briscola.BriscolaGame.GetGameState` | briscola/briscola.py:214-230 | each field of the summary matches the game, including the rank and suit of every trick card and each player's name, score and hand size; the cards counted, with the tricks won and the card set aside, add up to 40 |

## Left out

- The user interfaces (Tkinter), the HTTP layers (Flask, FastAPI), the scripts, and the `add_player` call of the join-game path are not part of this model.
- `random.shuffle` is modelled as CPython's Fisher-Yates pass over a random source passed as the parameter `rand`. The draw at position `i` is `rand(i) % (i + 1)`. The shuffle is proved to be a permutation for every source.
- Raised exceptions are modelled as values:
  - `ValueError` from `draw` on an empty deck is `Failure(EmptyDeck)`;
  - `ValueError` from `play_card` is `Failure(CardNotInHand)`;
  - `play_turn` returns `Fail(CardNotInHand)`, having changed nothing, since the exception propagates before the append.
- Pydantic machinery (`BaseModel`, `Config`, validation, `frozen`) is not modelled. Cards are Dafny values. Players are objects compared by reference for seating, and by name, hand, score and team for `players.index`.
- `Player.is_ai` is not modelled. It is never read by the engine.
- Ranks and suits are enumerations rather than strings. `has_briscola` and `get_playable_cards` take a `Suit`.
- `Briscola.BriscolaGame.constructor` requires 1 to 13 names. With no names, every later `% len(players)` divides by zero. With 14 or more, the deal raises on an empty deck.
- `Briscola.BriscolaGame.PlayTurn` requires `Valid()`, which holds for every game the constructors produce and is kept by every turn.
- `Briscola.BriscolaGame.ResolveTrick` and the other helper methods require the seat count and trick size that `play_turn` guarantees when it calls them.
- Teams are never set by the constructor (briscola.py:42), so every game this model builds has no teams. Team scoring is still modelled (`CreditTeam`, `CreditTrick`). The invariant that scores add up to the points won is stated only without teams, because a team credit counts the points once per member.
- `Briscola.BriscolaGame.GetGameState` returns a datatype, not a dictionary. Ranks and suits stand for their string names.
- `BriscolaRules.WinningCard` states only that the winner is in the trick. Which card it picks is stated by `WinningCardPosition`.
- `BriscolaRules.Score`, `BriscolaRules.Resolve` and `BriscolaRules.ScoreBySeat` state only shape facts about their results. What they compute is stated by `ResolveShape`, `ScoreBySeatCredits` and the class methods built on them.
- `BriscolaRules.SeatOfPosition` states only that its result is a seat. Its closed form is `SeatOfPositionIs`.
- Integer widths do not arise: scores are Python integers, modelled as unbounded `int`.

## Findings

| source | as written | input that shows it | evidently intended | confidence | as-written member | corrected member |
|---|---|---|---|---|---|---|
| briscola/briscola.py:44 | the briscola card is drawn at set-up and never returned to the deck, so only 39 cards are ever played | 2 players: 19 tricks use 38 cards, one card remains and cannot make a trick, and `is_game_over` waits for 40 // 2 = 20 tricks, so it never holds (likewise 1, 4, 5, 8 and 10 players) | the briscola card goes under the deck and is drawn last, so all 40 cards are played and the game ends | not executed | `BriscolaState.NeverOverAsWritten` | `BriscolaState.AllPlayedIsOver` |
| briscola/briscola.py:101 | the winner is `players[current_trick.index(winning_card)]`: the seat numbered by the card's position in the trick | 2 players, seat 1 leads the Asso of Coppe, seat 0 follows with the Due of Coppe, Denari is briscola: the Asso wins at position 0, so its 11 points go to seat 0 | the player who played the winning card is credited and leads next | not executed | `BriscolaRules.CreditGoesByPosition` | `Briscola.BriscolaGame.PlayTurnBySeat` |

For the first finding, `Briscola.BriscolaGame.constructor` builds the game as written. `Briscola.BriscolaGame.WithBriscolaAtBottom` builds it with the briscola card put back under the deck. `BriscolaState.AllPlayedAsWritten` shows that, as written, all cards played means 39 card-tricks.

For the second finding, the game as written resolves tricks with `Briscola.BriscolaGame.PlayTurn` (`BriscolaState.Resolved`). The corrected game uses `Briscola.BriscolaGame.PlayTurnBySeat` (`BriscolaState.ResolvedBySeat`). That path finds the winning seat as the seat after the acting one plus the winning position, and it keeps the same invariant (`BriscolaState.TurnBySeatKeepsConsistent`). `BriscolaState.ResolvedBySeatCreditsPlayer` proves two things:
- the corrected path credits the seat recorded as having played the winning card;
- position and seat agree for every trick exactly when seat 0 led.
