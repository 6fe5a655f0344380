/**
 * A game of Briscola as a value (briscola/briscola.py, class BriscolaGame):
 * the players' names, teams, hands and scores seat by seat, the deck, the
 * briscola card, the acting seat, the trick on the table and the number of
 * tricks played, together with three pieces of bookkeeping the program
 * does not keep: the cards of the tricks already won, the cards kept out
 * of play, and which seat led and played each card of the current trick.
 *
 * The game class changes its players and deck in place; each of its methods
 * is proved to turn its state into the value a function here computes, and
 * the rules of play are proved about these values.
 */
module BriscolaState {
  import opened Wrappers
  import opened Lists
  import opened CardDeck
  import opened Players
  import opened BriscolaRules

  datatype Game = Game(
    names: seq<string>, teams: seq<Option<int>>,
    hands: seq<seq<Card>>, scores: seq<int>,
    deck: seq<Card>, briscola: Card,
    current: int, trick: seq<Card>, tricks: int,
    won: seq<Card>, setAside: multiset<Card>, leader: int, playedBy: seq<int>)

  /** At least one seat, one name, team, hand and score per seat, and an acting seat among them. */
  predicate Seats(g: Game)
  {
    && 1 <= |g.names| && |g.teams| == |g.names| && |g.hands| == |g.names| && |g.scores| == |g.names|
    && 0 <= g.current < |g.names|
  }

  /** The cards in every place: deck, hands, trick, won tricks and set aside. */
  function AllCards(g: Game): multiset<Card>
  {
    multiset(g.deck) + HandsBag(g.hands) + multiset(g.trick) + multiset(g.won) + g.setAside
  }

  /**
   * What holds between turns: the seats are well formed, the trick has room
   * for another card, the acting seat follows the leader clockwise by one
   * seat per card played, hands hold at most 3 cards and scores are at
   * least 0, one trick's worth of cards has been won per trick played,
   * every card of the pack is in exactly one place, and, without teams, the
   * scores add up to the points won.
   */
  ghost predicate Consistent(g: Game)
  {
    && Seats(g)
    && 0 <= g.leader < |g.names|
    && |g.trick| < |g.names| && |g.playedBy| == |g.trick|
    && (forall j :: 0 <= j < |g.playedBy| ==> g.playedBy[j] == SeatOfPosition(g.leader, j, |g.names|))
    && g.current == SeatOfPosition(g.leader, |g.trick|, |g.names|)
    && (forall i :: 0 <= i < |g.names| ==> |g.hands[i]| <= 3 && g.scores[i] >= 0)
    && g.tricks >= 0 && |g.won| == |g.names| * g.tricks
    && (g.setAside == multiset{g.briscola} || g.setAside == multiset{})
    && AllCards(g) == multiset(FullDeck())
    && (NoTeams(g.teams) ==> Sum(g.scores) == Points(g.won))
  }

  // ---------------------------------------------------------------------
  // Setting up
  // ---------------------------------------------------------------------

  /** `n` empty hands. */
  function NoHands(n: nat): (hs: seq<seq<Card>>)
    ensures |hs| == n && forall i :: 0 <= i < n ==> hs[i] == []
  {
    seq(n, _ => [])
  }

  /**
   * `BriscolaGame.__init__` from the shuffled deck `deck`: one player per
   * name, on no team and with no points; three rounds dealt in seat order
   * from the end of the deck; the next card drawn as the briscola card and
   * kept out of the deck; seat 0 to lead.
   */
  function NewGame(names: seq<string>, deck: seq<Card>): (g: Game)
    requires 1 <= |names| && 3 * |names| < |deck|
  {
    var dealt := DealRounds(Table(NoHands(|names|), deck), 3);
    var briscola := dealt.deck[|dealt.deck| - 1];
    Game(names, seq(|names|, _ => None), dealt.hands, seq(|names|, _ => 0),
         dealt.deck[..|dealt.deck| - 1], briscola, 0, [], 0, [], multiset{briscola}, 0, [])
  }

  /** The fix for the lost card: the briscola card goes under the deck, to be drawn last. */
  function BriscolaAtBottom(g: Game): (r: Game)
  {
    g.(deck := [g.briscola] + g.deck, setAside := multiset{})
  }

  /**
   * A new game from a full pack is consistent: each player holds 3 cards
   * and no points, 3 cards per player and the briscola card have left the
   * deck, and the briscola card is a card of the pack that is no longer in
   * the deck.  Putting the briscola card back under the deck keeps it
   * consistent.
   */
  lemma NewGameConsistent(names: seq<string>, deck: seq<Card>)
    requires 1 <= |names| <= 13 && multiset(deck) == multiset(FullDeck())
    ensures |deck| == 40
    ensures var g := NewGame(names, deck);
      && Consistent(g)
      && (forall i :: 0 <= i < |names| ==> |g.hands[i]| == 3 && g.scores[i] == 0)
      && |g.deck| == 40 - 3 * |names| - 1
      && g.briscola in FullDeck() && g.briscola !in g.deck
      && Consistent(BriscolaAtBottom(g))
  {
    NewGameDealt(names, deck);
    var g := NewGame(names, deck);
    SumZeros(g.scores);
    assert NoTeams(g.teams);
    FullDeckOnce(g.briscola);
    assert g.briscola !in g.deck by {
      assert AllCards(g)[g.briscola] == 1;
    }
    var b := BriscolaAtBottom(g);
    assert multiset(b.deck) == multiset(g.deck) + multiset{g.briscola};
    BagPutBack(multiset(g.deck), HandsBag(g.hands), multiset(g.trick), multiset(g.won), multiset{g.briscola});
  }

  /**
   * Dealing three rounds from a full pack and drawing the briscola card:
   * three cards in every hand, the briscola card drawn from the pack, and
   * every card of the pack in a hand, in the deck or set aside.
   */
  lemma NewGameDealt(names: seq<string>, deck: seq<Card>)
    requires 1 <= |names| <= 13 && multiset(deck) == multiset(FullDeck())
    ensures |deck| == 40
    ensures var g := NewGame(names, deck);
      && (forall i :: 0 <= i < |names| ==> |g.hands[i]| == 3)
      && |g.hands| == |names| && |g.deck| == 40 - 3 * |names| - 1
      && AllCards(g) == multiset(FullDeck())
      && g.briscola in FullDeck()
  {
    var n := |names|;
    assert |deck| == |multiset(deck)| == |multiset(FullDeck())| == 40 by {
      FullDeckDistinct();
    }
    var t := Table(NoHands(n), deck);
    var dealt := DealRounds(t, 3);
    DealRoundsShape(t, 3);
    EmptyHands(t.hands);
    var g := NewGame(names, deck);
    var rest := dealt.deck[..|dealt.deck| - 1];
    assert dealt.deck == rest + [g.briscola];
    assert HandsBag(dealt.hands) + multiset(dealt.deck) == multiset(FullDeck());
    assert multiset(dealt.deck) == multiset(rest) + multiset{g.briscola};
    BagSwap(multiset(rest), HandsBag(dealt.hands), multiset{g.briscola});
    assert AllCards(g) == multiset(FullDeck());
  }

  // ---------------------------------------------------------------------
  // Playing a turn
  // ---------------------------------------------------------------------

  /** `play_card` then `current_trick.append`: the acting player's first copy of `card` joins the trick. */
  function Played(g: Game, card: Card): (p: Game)
    requires Seats(g)
  {
    g.(hands := g.hands[g.current := RemoveFirst(g.hands[g.current], card)],
       trick := g.trick + [card], playedBy := g.playedBy + [g.current])
  }

  /**
   * `resolve_trick`: scores credited, the next leader chosen, hands
   * replenished clockwise from that leader, the trick emptied into the won
   * cards and one more trick counted.
   */
  function Resolved(g: Game): (r: Game)
    requires Seats(g) && g.trick != [] && |g.trick| <= |g.names|
  {
    var res := Resolve(g.trick, g.briscola.suit, g.names, g.teams, g.hands, g.scores, g.deck);
    g.(scores := res.scores, hands := res.table.hands, deck := res.table.deck, current := res.leader,
       trick := [], tricks := g.tricks + 1, won := g.won + g.trick, leader := res.leader, playedBy := [])
  }

  /** The scoring step of `resolve_trick`: the trick's points credited and the next leader acting. */
  function ScoreStep(g: Game): Game
    requires Seats(g) && g.trick != [] && |g.trick| <= |g.names|
  {
    var sc := Score(g.trick, g.briscola.suit, g.names, g.teams, g.hands, g.scores);
    g.(scores := sc.scores, current := sc.leader)
  }

  /** The replenishing step of `resolve_trick`: hands topped up clockwise from the acting seat. */
  function ReplenishStep(g: Game): Game
    requires Seats(g)
  {
    var t := Replenish(Table(g.hands, g.deck), g.current);
    g.(hands := t.hands, deck := t.deck)
  }

  /** The closing step of `resolve_trick`: the trick emptied into the won cards, one more trick counted, and the acting seat leading. */
  function CloseStep(g: Game): Game
  {
    g.(trick := [], tricks := g.tricks + 1, won := g.won + g.trick, leader := g.current, playedBy := [])
  }

  /** Proof step: `Resolved` regrouped into the three steps the class performs one by one. */
  lemma ResolvedInSteps(g: Game)
    requires Seats(g) && g.trick != [] && |g.trick| <= |g.names|
    ensures Resolved(g) == CloseStep(ReplenishStep(ScoreStep(g)))
  {
  }

  /** What `play_turn(card)` reports: it fails when the acting player does not hold the card. */
  function TurnOutcome(g: Game, card: Card): Outcome<PlayError>
    requires Seats(g)
  {
    if card in g.hands[g.current] then Pass else Fail(CardNotInHand)
  }

  /**
   * The game after `play_turn(card)`: unchanged if the acting player does not
   * hold the card; otherwise the card joins the trick, which is resolved
   * once every player has played, and else the next seat clockwise acts.
   */
  function AfterTurn(g: Game, card: Card): Game
    requires Seats(g) && |g.trick| < |g.names|
  {
    if card !in g.hands[g.current] then g
    else
      var p := Played(g, card);
      if |p.trick| == |g.names| then Resolved(p) else p.(current := (g.current + 1) % |g.names|)
  }

  /** Proof step: `AfterTurn` unfolded for a held card, with the shape facts the class needs (TurnKeepsConsistent states the invariant). */
  lemma AfterPlay(g: Game, card: Card)
    requires Seats(g) && |g.trick| < |g.names| && card in g.hands[g.current]
    ensures var p := Played(g, card);
      && Seats(p) && 1 <= |p.trick| <= |p.names|
      && AfterTurn(g, card) == if |p.trick| == |p.names| then Resolved(p) else p.(current := (p.current + 1) % |p.names|)
  {
  }

  /** Every card in a consistent game's trick, hands or deck is a card of the pack, worth at least nothing. */
  lemma CardValues(g: Game, c: Card)
    requires Consistent(g)
    requires c in g.trick || c in g.deck || (exists i :: 0 <= i < |g.hands| && c in g.hands[i])
    ensures c.value == Value(c.rank) && c.value >= 0
  {
    if c !in g.trick && c !in g.deck {
      var i :| 0 <= i < |g.hands| && c in g.hands[i];
      HandsHold(g.hands, i, c);
    }
    assert AllCards(g)[c] >= 1;
    FullDeckValues(c);
  }

  /**
   * Playing a held card with room left in the trick: the card leaves the
   * hand and joins the trick, the seat that played it is recorded, and no
   * card appears or disappears.
   */
  lemma PlayedShape(g: Game, card: Card)
    requires Consistent(g) && card in g.hands[g.current]
    ensures var p := Played(g, card);
      && Seats(p) && |p.trick| == |g.trick| + 1 <= |g.names|
      && p.playedBy[|g.trick|] == SeatOfPosition(g.leader, |g.trick|, |g.names|)
      && (forall j :: 0 <= j < |p.playedBy| ==> p.playedBy[j] == SeatOfPosition(g.leader, j, |g.names|))
      && (forall i :: 0 <= i < |g.names| ==> |p.hands[i]| <= 3)
      && AllCards(p) == AllCards(g)
      && (forall i :: 0 <= i < |p.trick| ==> p.trick[i].value >= 0)
  {
    var p := Played(g, card);
    HandsPlay(g.hands, g.current, card);
    BagRegroup(multiset(g.deck), HandsBag(p.hands), HandsBag(g.hands), multiset(g.trick), multiset{card},
               multiset(g.won), g.setAside);
    CardValues(g, card);
    forall i | 0 <= i < |p.trick| ensures p.trick[i].value >= 0 {
      if i < |g.trick| {
        CardValues(g, p.trick[i]);
      }
    }
  }

  /**
   * Resolving a full trick, its cards worth at least nothing and every hand
   * within 3 cards: the cards in deck, hands, trick and won tricks stay the
   * same cards, hands stay within 3, scores only grow and, without teams, by
   * exactly the trick's points in total.
   */
  lemma ResolvedMoves(p: Game)
    requires Seats(p) && p.trick != [] && |p.trick| <= |p.names|
    requires forall i :: 0 <= i < |p.names| ==> |p.hands[i]| <= 3
    requires forall i :: 0 <= i < |p.trick| ==> p.trick[i].value >= 0
    ensures var r := Resolved(p);
      && Seats(r) && r.leader == r.current && r.trick == [] && r.playedBy == []
      && AllCards(r) == AllCards(p)
      && (forall i :: 0 <= i < |p.names| ==> |r.hands[i]| <= 3 && p.scores[i] <= r.scores[i])
      && (NoTeams(p.teams) ==> Sum(r.scores) == Sum(p.scores) + Points(p.trick))
  {
    ResolveShape(p.trick, p.briscola.suit, p.names, p.teams, p.hands, p.scores, p.deck);
    var res := Resolve(p.trick, p.briscola.suit, p.names, p.teams, p.hands, p.scores, p.deck);
    var r := Resolved(p);
    assert r.hands == res.table.hands && r.deck == res.table.deck;
    BagRegroup2(multiset(r.deck), HandsBag(r.hands), multiset(p.deck), HandsBag(p.hands), multiset(p.trick),
                multiset(p.won), p.setAside);
  }

  /**
   * A full trick on the table of an otherwise consistent game: resolving it
   * gives a consistent game and never lowers a score.
   */
  lemma FullTrickResolves(p: Game)
    requires Seats(p) && |p.trick| == |p.names|
    requires forall i :: 0 <= i < |p.names| ==> |p.hands[i]| <= 3 && p.scores[i] >= 0
    requires forall i :: 0 <= i < |p.trick| ==> p.trick[i].value >= 0
    requires p.tricks >= 0 && |p.won| == |p.names| * p.tricks
    requires p.setAside == multiset{p.briscola} || p.setAside == multiset{}
    requires AllCards(p) == multiset(FullDeck())
    requires NoTeams(p.teams) ==> Sum(p.scores) == Points(p.won)
    ensures var r := Resolved(p);
      && Consistent(r)
      && (forall i :: 0 <= i < |p.names| ==> p.scores[i] <= r.scores[i])
  {
    ResolvedMoves(p);
    var r := Resolved(p);
    PointsAppend(p.won, p.trick);
    var n := |p.names|;
    MulSucc(n, p.tricks);
  }

  lemma MulSucc(n: int, t: int)
    ensures n * (t + 1) == n * t + n
  {
  }

  /** Resolving a full trick played from a consistent game gives a consistent game. */
  lemma ResolvedConsistent(g: Game, card: Card)
    requires Consistent(g) && card in g.hands[g.current] && |g.trick| + 1 == |g.names|
    ensures var r := Resolved(Played(g, card));
      && Consistent(r)
      && (forall i :: 0 <= i < |g.names| ==> g.scores[i] <= r.scores[i])
  {
    PlayedShape(g, card);
    FullTrickResolves(Played(g, card));
  }

  /**
   * `play_turn` keeps a consistent game consistent, whichever card is
   * offered, and never lowers a score; names, teams, the briscola card and
   * the cards set aside stay as they were.
   */
  lemma TurnKeepsConsistent(g: Game, card: Card)
    requires Consistent(g)
    ensures var r := AfterTurn(g, card);
      && Consistent(r)
      && r.names == g.names && r.teams == g.teams && r.briscola == g.briscola && r.setAside == g.setAside
      && (forall i :: 0 <= i < |g.names| ==> g.scores[i] <= r.scores[i])
  {
    if card in g.hands[g.current] {
      if |g.trick| + 1 == |g.names| {
        ResolvedConsistent(g, card);
      } else {
        PassedConsistent(g, card);
      }
    }
  }

  /** Playing a held card that does not complete the trick, then passing the turn clockwise, keeps a game consistent. */
  lemma PassedConsistent(g: Game, card: Card)
    requires Consistent(g) && card in g.hands[g.current] && |g.trick| + 1 < |g.names|
    ensures Consistent(Played(g, card).(current := (g.current + 1) % |g.names|))
  {
    PlayedShape(g, card);
    var p := Played(g, card);
    var q := p.(current := (g.current + 1) % |g.names|);
    SeatOfNextPosition(g.leader, |g.trick|, |g.names|);
    assert AllCards(q) == AllCards(g);
    assert q.scores == g.scores && q.won == g.won && q.teams == g.teams;
  }

  /** The game after offering the cards of `cards` one turn at a time. */
  function AfterTurns(g: Game, cards: seq<Card>): Game
    requires Consistent(g)
    decreases |cards|
  {
    if cards == [] then g
    else
      TurnKeepsConsistent(g, cards[0]);
      AfterTurns(AfterTurn(g, cards[0]), cards[1..])
  }

  /** Any number of turns keeps a consistent game consistent. */
  lemma {:induction false} TurnsKeepConsistent(g: Game, cards: seq<Card>)
    requires Consistent(g)
    ensures Consistent(AfterTurns(g, cards))
    decreases |cards|
  {
    if cards != [] {
      TurnKeepsConsistent(g, cards[0]);
      TurnsKeepConsistent(AfterTurn(g, cards[0]), cards[1..]);
    }
  }

  // ---------------------------------------------------------------------
  // Counting the cards
  // ---------------------------------------------------------------------

  /**
   * In a consistent game the cards in hands, in the deck, on the table, in
   * the tricks won and set aside add up to the 40 cards of the pack.
   */
  lemma CardsInPlay(g: Game)
    requires Consistent(g)
    ensures HandsSize(g.hands) + |g.deck| + |g.trick| + |g.names| * g.tricks + |g.setAside| == 40
  {
    FullDeckDistinct();
    HandsBagSize(g.hands);
    assert |AllCards(g)| == 40;
  }

  /** No card is in two places, or twice in one place, in a consistent game. */
  lemma NoCardTwice(g: Game, c: Card)
    requires Consistent(g)
    ensures AllCards(g)[c] <= 1
  {
    FullDeckOnce(c);
  }

  /** `is_game_over`: as many tricks played as `40 // len(players)`. */
  predicate IsOver(g: Game)
    requires 1 <= |g.names|
  {
    g.tricks == 40 / |g.names|
  }

  /**
   * As written, the briscola card stays out of play, so at most 39 cards are
   * ever won; with 1, 2, 4, 5, 8 or 10 players the number of tricks that
   * ends the game needs all 40 and is never reached.
   */
  lemma NeverOverAsWritten(g: Game)
    requires Consistent(g) && g.setAside == multiset{g.briscola} && 40 % |g.names| == 0
    ensures !IsOver(g)
  {
    CardsInPlay(g);
    DivExact(|g.names|);
  }

  lemma DivExact(n: int)
    requires n > 0 && 40 % n == 0
    ensures n * (40 / n) == 40
  {
  }

  /**
   * As written, once every card has been played and no trick is on the
   * table, `len(players)` times the tricks played is 39, one card short of
   * the pack.
   */
  lemma AllPlayedAsWritten(g: Game)
    requires Consistent(g) && g.setAside == multiset{g.briscola}
    requires g.deck == [] && g.trick == [] && HandsSize(g.hands) == 0
    ensures |g.names| * g.tricks == 39
  {
    CardsInPlay(g);
  }

  /**
   * With the briscola card put back under the deck, once every card has
   * been played `len(players)` times the tricks played is 40, so the game
   * is over when the number of players divides 40.
   */
  lemma AllPlayedIsOver(g: Game)
    requires Consistent(g) && g.setAside == multiset{}
    requires g.deck == [] && g.trick == [] && HandsSize(g.hands) == 0
    ensures |g.names| * g.tricks == 40
    ensures 40 % |g.names| == 0 ==> IsOver(g)
  {
    CardsInPlay(g);
    var n := |g.names|;
    assert g.tricks == 40 / n by {
      assert n * g.tricks == 40;
    }
  }

  // ---------------------------------------------------------------------
  // Whose points
  // ---------------------------------------------------------------------

  /**
   * The intended resolution: as Resolved, but the points go to, and the next
   * trick is led by, the seat that played the winning card.
   */
  function ResolvedBySeat(g: Game): (r: Game)
    requires Seats(g) && g.trick != [] && |g.trick| <= |g.names| && 0 <= g.leader < |g.names|
  {
    var sc := ScoreBySeat(g.trick, g.briscola.suit, g.teams, g.scores, g.leader);
    var table := Replenish(Table(g.hands, g.deck), sc.leader);
    g.(scores := sc.scores, hands := table.hands, deck := table.deck, current := sc.leader,
       trick := [], tricks := g.tricks + 1, won := g.won + g.trick, leader := sc.leader, playedBy := [])
  }

  /** The intended scoring step: the seat that played the winning card is credited and acts next. */
  function ScoreBySeatStep(g: Game): Game
    requires Seats(g) && g.trick != [] && |g.trick| <= |g.names| && 0 <= g.leader < |g.names|
  {
    var sc := ScoreBySeat(g.trick, g.briscola.suit, g.teams, g.scores, g.leader);
    g.(scores := sc.scores, current := sc.leader)
  }

  /** Proof step: `ResolvedBySeat` regrouped into the steps the class performs one by one. */
  lemma ResolvedBySeatInSteps(g: Game)
    requires Seats(g) && g.trick != [] && |g.trick| <= |g.names| && 0 <= g.leader < |g.names|
    ensures ResolvedBySeat(g) == CloseStep(ReplenishStep(ScoreBySeatStep(g)))
  {
  }

  /**
   * Resolving a trick the intended way moves the cards exactly as
   * `resolve_trick` does: none is lost, hands stay within 3, scores only
   * grow and, without teams, by exactly the trick's points in total.
   */
  lemma ResolvedBySeatMoves(p: Game)
    requires Seats(p) && p.trick != [] && |p.trick| <= |p.names| && 0 <= p.leader < |p.names|
    requires forall i :: 0 <= i < |p.names| ==> |p.hands[i]| <= 3
    requires forall i :: 0 <= i < |p.trick| ==> p.trick[i].value >= 0
    ensures var r := ResolvedBySeat(p);
      && Seats(r) && r.leader == r.current && r.trick == [] && r.playedBy == []
      && AllCards(r) == AllCards(p)
      && (forall i :: 0 <= i < |p.names| ==> |r.hands[i]| <= 3 && p.scores[i] <= r.scores[i])
      && (NoTeams(p.teams) ==> Sum(r.scores) == Sum(p.scores) + Points(p.trick))
  {
    var seat := SeatOfPosition(p.leader, IndexOf(p.trick, WinningCard(p.trick, p.briscola.suit)), |p.names|);
    PointsNonNegative(p.trick);
    ReplenishShape(Table(p.hands, p.deck), seat);
    if NoTeams(p.teams) {
      CreditSolo(p.scores, p.teams, seat, Points(p.trick));
    }
    var r := ResolvedBySeat(p);
    BagRegroup2(multiset(r.deck), HandsBag(r.hands), multiset(p.deck), HandsBag(p.hands), multiset(p.trick),
                multiset(p.won), p.setAside);
  }

  /** A full trick on the table of an otherwise consistent game: resolving it the intended way gives a consistent game. */
  lemma FullTrickResolvesBySeat(p: Game)
    requires Seats(p) && |p.trick| == |p.names| && 0 <= p.leader < |p.names|
    requires forall i :: 0 <= i < |p.names| ==> |p.hands[i]| <= 3 && p.scores[i] >= 0
    requires forall i :: 0 <= i < |p.trick| ==> p.trick[i].value >= 0
    requires p.tricks >= 0 && |p.won| == |p.names| * p.tricks
    requires p.setAside == multiset{p.briscola} || p.setAside == multiset{}
    requires AllCards(p) == multiset(FullDeck())
    requires NoTeams(p.teams) ==> Sum(p.scores) == Points(p.won)
    ensures var r := ResolvedBySeat(p);
      && Consistent(r)
      && (forall i :: 0 <= i < |p.names| ==> p.scores[i] <= r.scores[i])
  {
    ResolvedBySeatMoves(p);
    PointsAppend(p.won, p.trick);
    MulSucc(|p.names|, p.tricks);
  }

  /** `play_turn(card)` with the intended resolution of a full trick. */
  function AfterTurnBySeat(g: Game, card: Card): Game
    requires Seats(g) && |g.trick| < |g.names| && 0 <= g.leader < |g.names|
  {
    if card !in g.hands[g.current] then g
    else
      var p := Played(g, card);
      if |p.trick| == |g.names| then ResolvedBySeat(p) else p.(current := (g.current + 1) % |g.names|)
  }

  /**
   * In a consistent game a played card either completes the trick, whose
   * last card then came from the acting seat, or passes the turn clockwise.
   */
  lemma AfterPlayBySeat(g: Game, card: Card)
    requires Consistent(g) && card in g.hands[g.current]
    ensures var p := Played(g, card);
      && Seats(p) && 1 <= |p.trick| <= |p.names| && 0 <= p.leader < |p.names|
      && (|p.trick| == |p.names| ==> p.current == SeatOfPosition(p.leader, |p.names| - 1, |p.names|))
      && AfterTurnBySeat(g, card) ==
         if |p.trick| == |p.names| then ResolvedBySeat(p) else p.(current := (p.current + 1) % |p.names|)
  {
  }

  /** Resolving the intended way a full trick played from a consistent game gives a consistent game. */
  lemma ResolvedBySeatConsistent(g: Game, card: Card)
    requires Consistent(g) && card in g.hands[g.current] && |g.trick| + 1 == |g.names|
    ensures var r := ResolvedBySeat(Played(g, card));
      && Consistent(r)
      && (forall i :: 0 <= i < |g.names| ==> g.scores[i] <= r.scores[i])
  {
    PlayedShape(g, card);
    FullTrickResolvesBySeat(Played(g, card));
  }

  /** The corrected `play_turn` keeps a consistent game consistent and never lowers a score. */
  lemma TurnBySeatKeepsConsistent(g: Game, card: Card)
    requires Consistent(g)
    ensures var r := AfterTurnBySeat(g, card);
      && Consistent(r)
      && r.names == g.names && r.teams == g.teams && r.briscola == g.briscola && r.setAside == g.setAside
      && (forall i :: 0 <= i < |g.names| ==> g.scores[i] <= r.scores[i])
  {
    if card in g.hands[g.current] {
      if |g.trick| + 1 == |g.names| {
        ResolvedBySeatConsistent(g, card);
      } else {
        PassedConsistent(g, card);
      }
    }
  }

  /**
   * When the last card of a trick is played, the intended resolution credits
   * the seat recorded as having played the winning card, and that seat
   * leads next; the resolution as written credits the seat numbered by the
   * winning card's position instead, which is the same seat for every trick
   * exactly when seat 0 led.
   */
  lemma ResolvedBySeatCreditsPlayer(g: Game, card: Card)
    requires Consistent(g) && card in g.hands[g.current] && |g.trick| + 1 == |g.names|
    requires NoTeams(g.teams)
    ensures var p := Played(g, card);
      var k := IndexOf(p.trick, WinningCard(p.trick, g.briscola.suit));
      var r := ResolvedBySeat(p);
      && r.leader == p.playedBy[k]
      && r.scores[p.playedBy[k]] == g.scores[p.playedBy[k]] + Points(p.trick)
      && (forall i :: 0 <= i < |g.names| && i != p.playedBy[k] ==> r.scores[i] == g.scores[i])
      && (Resolved(p).scores == Credit(g.scores, g.teams, k, Points(p.trick)))
      && ((forall j :: 0 <= j < |g.names| ==> p.playedBy[j] == j) <==> g.leader == 0)
  {
    PlayedShape(g, card);
    FullTrickCredits(Played(g, card));
  }

  /** The position of the winning card in the trick. */
  function WinningPosition(trick: seq<Card>, trump: Suit): (k: nat)
    requires trick != []
    ensures k < |trick| && trick[k] == WinningCard(trick, trump)
  {
    IndexOf(trick, WinningCard(trick, trump))
  }

  /** The same, for any full trick whose cards were played clockwise from `leader`. */
  lemma FullTrickCredits(p: Game)
    requires Seats(p) && 0 <= p.leader < |p.names| && |p.trick| == |p.names| && |p.playedBy| == |p.trick|
    requires forall j :: 0 <= j < |p.playedBy| ==> p.playedBy[j] == SeatOfPosition(p.leader, j, |p.names|)
    requires NoTeams(p.teams)
    ensures ResolvedBySeat(p).leader == p.playedBy[WinningPosition(p.trick, p.briscola.suit)]
    ensures ResolvedBySeat(p).scores[p.playedBy[WinningPosition(p.trick, p.briscola.suit)]]
      == p.scores[p.playedBy[WinningPosition(p.trick, p.briscola.suit)]] + Points(p.trick)
    ensures forall i :: 0 <= i < |p.names| && i != p.playedBy[WinningPosition(p.trick, p.briscola.suit)] ==>
      ResolvedBySeat(p).scores[i] == p.scores[i]
    ensures Resolved(p).scores == Credit(p.scores, p.teams, WinningPosition(p.trick, p.briscola.suit), Points(p.trick))
    ensures (forall j :: 0 <= j < |p.names| ==> p.playedBy[j] == j) <==> p.leader == 0
  {
    ScoreBySeatCredits(p.trick, p.briscola.suit, p.teams, p.scores, p.leader);
    if p.leader == 0 {
      forall j | 0 <= j < |p.names| ensures p.playedBy[j] == j {
        SeatZeroCounts(j, |p.names|);
      }
    } else {
      assert p.playedBy[0] != 0;
    }
  }
}
