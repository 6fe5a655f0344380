/**
 * The game object (briscola/briscola.py, class BriscolaGame): the players in
 * seat order, the deck, the briscola card, the acting seat, the trick on the
 * table and the count of tricks resolved.  Playing, resolving and
 * replenishing update the players and the deck in place.  `State()` reads
 * the whole game as a BriscolaState.Game value; every method is proved to
 * turn that value into the one the rules compute, and the rules' lemmas
 * carry the invariants over to the object.
 */
module Briscola {
  import opened Wrappers
  import opened Lists
  import opened CardDeck
  import opened Players
  import opened BriscolaRules
  import opened BriscolaState

  /** One player's line of the game-state summary. */
  datatype PlayerInfo = PlayerInfo(name: string, score: int, handSize: nat)

  /** The game-state summary: acting player, briscola suit, tricks, deck size, trick cards and players. */
  datatype GameState = GameState(currentPlayer: string, briscolaSuit: Suit, tricksPlayed: int,
                                 cardsLeftInDeck: nat, currentTrick: seq<(Rank, Suit)>, players: seq<PlayerInfo>)

  /** The number of cards held by the players of a summary. */
  function HeldCards(ps: seq<PlayerInfo>): nat
  {
    if ps == [] then 0 else ps[0].handSize + HeldCards(ps[1..])
  }

  /** Every player's hand, in seat order. */
  function HandsOf(ps: seq<Player>): (hs: seq<seq<Card>>)
    reads ps
    ensures |hs| == |ps| && forall i :: 0 <= i < |ps| ==> hs[i] == ps[i].hand
  {
    seq(|ps|, i requires 0 <= i < |ps| reads ps => ps[i].hand)
  }

  /** Every player's score, in seat order. */
  function ScoresOf(ps: seq<Player>): (ss: seq<int>)
    reads ps
    ensures |ss| == |ps| && forall i :: 0 <= i < |ps| ==> ss[i] == ps[i].score
  {
    seq(|ps|, i requires 0 <= i < |ps| reads ps => ps[i].score)
  }

  /** Every player's name, in seat order. */
  function NamesOf(ps: seq<Player>): (ns: seq<string>)
    ensures |ns| == |ps| && forall i :: 0 <= i < |ps| ==> ns[i] == ps[i].name
  {
    seq(|ps|, i requires 0 <= i < |ps| => ps[i].name)
  }

  /** Every player's team, in seat order. */
  function TeamsOf(ps: seq<Player>): (ts: seq<Option<int>>)
    ensures |ts| == |ps| && forall i :: 0 <= i < |ps| ==> ts[i] == ps[i].team
  {
    seq(|ps|, i requires 0 <= i < |ps| => ps[i].team)
  }

  /** The first seat of player `p` among `ps`, or `|ps|` when it has none. */
  ghost function SeatOf(ps: seq<Player>, p: Player): nat
  {
    if ps == [] || ps[0] == p then 0 else 1 + SeatOf(ps[1..], p)
  }

  /** No player object sits at two seats. */
  ghost predicate Seated(ps: seq<Player>)
  {
    forall i :: 0 <= i < |ps| ==> SeatOf(ps, ps[i]) == i
  }

  /** In a sequence of distinct players each one's seat is its position. */
  lemma {:induction false} DistinctSeated(ps: seq<Player>, i: nat)
    requires Distinct(ps) && i < |ps|
    ensures SeatOf(ps, ps[i]) == i
  {
    if i > 0 {
      assert ps[0] != ps[i];
      assert Distinct(ps[1..]) by {
        forall a, b | 0 <= a < b < |ps| - 1 ensures ps[1..][a] != ps[1..][b] {
          assert ps[1..][a] == ps[a + 1] && ps[1..][b] == ps[b + 1];
        }
      }
      DistinctSeated(ps[1..], i - 1);
    }
  }

  /** `[Player(name=name) for name in player_names]`: one fresh player per name, on no team, with no cards and no points. */
  method NewPlayers(names: seq<string>) returns (ps: seq<Player>)
    ensures |ps| == |names| && Seated(ps)
    ensures forall i :: 0 <= i < |ps| ==>
      fresh(ps[i]) && ps[i].name == names[i] && ps[i].team == None && ps[i].hand == [] && ps[i].score == 0
  {
    ps := [];
    var i := 0;
    while i < |names|
      invariant 0 <= i <= |names| && |ps| == i && Distinct(ps)
      invariant forall j :: 0 <= j < i ==>
        fresh(ps[j]) && ps[j].name == names[j] && ps[j].team == None && ps[j].hand == [] && ps[j].score == 0
    {
      var p := new Player(names[i], None);
      ps := ps + [p];
      i := i + 1;
    }
    forall i | 0 <= i < |ps| ensures SeatOf(ps, ps[i]) == i {
      DistinctSeated(ps, i);
    }
  }

  class BriscolaGame {
    const players: seq<Player>
    const deck: Deck
    var briscolaCard: Card
    var currentPlayerIndex: int
    var currentTrick: seq<Card>
    var tricksPlayed: int
    /** The cards of the tricks resolved so far. */
    ghost var won: seq<Card>
    /** The cards out of play: the briscola card while it is kept out of the deck, else none. */
    ghost var setAside: multiset<Card>
    /** The seat that led the current trick. */
    ghost var leader: int
    /** The seat that played each card of the current trick. */
    ghost var playedBy: seq<int>

    /** The game as a value, seat by seat. */
    ghost function State(): Game
      reads this, players, deck
    {
      Game(NamesOf(players), TeamsOf(players), HandsOf(players), ScoresOf(players), deck.cards, briscolaCard,
           currentPlayerIndex, currentTrick, tricksPlayed, won, setAside, leader, playedBy)
    }

    /** Between turns: distinct players, and a consistent game (BriscolaState.Consistent). */
    ghost predicate Valid()
      reads this, players, deck
    {
      Seated(players) && Consistent(State())
    }

    /**
     * `BriscolaGame(player_names)`: the deck is built and shuffled with the
     * random source `rand`, the players are seated in order, three rounds
     * are dealt and the next card is drawn as the briscola card, which is
     * not put back.
     */
    constructor(names: seq<string>, rand: nat -> nat)
      requires 1 <= |names| <= 13
      ensures Valid()
      ensures State() == NewGame(names, Shuffled(FullDeck(), rand))
    {
      deck := new Deck(rand);
      var ps := NewPlayers(names);
      players := ps;
      currentPlayerIndex := 0;
      currentTrick := [];
      tricksPlayed := 0;
      won := [];
      setAside := multiset{};
      leader := 0;
      playedBy := [];
      new;
      SetUp(names, Shuffled(FullDeck(), rand));
      NewGameConsistent(names, Shuffled(FullDeck(), rand));
    }

    /**
     * The corrected set-up: as above, but the briscola card goes back under
     * the deck, so that it is the last card drawn and all 40 cards are played.
     */
    constructor WithBriscolaAtBottom(names: seq<string>, rand: nat -> nat)
      requires 1 <= |names| <= 13
      ensures Valid()
      ensures State() == BriscolaAtBottom(NewGame(names, Shuffled(FullDeck(), rand)))
    {
      deck := new Deck(rand);
      var ps := NewPlayers(names);
      players := ps;
      currentPlayerIndex := 0;
      currentTrick := [];
      tricksPlayed := 0;
      won := [];
      setAside := multiset{};
      leader := 0;
      playedBy := [];
      new;
      SetUp(names, Shuffled(FullDeck(), rand));
      PutBriscolaBack();
      NewGameConsistent(names, Shuffled(FullDeck(), rand));
    }

    /** The correction: the briscola card goes under the deck, to be drawn last. */
    method PutBriscolaBack()
      modifies deck, this`setAside
      ensures State() == BriscolaAtBottom(old(State()))
    {
      deck.cards := [briscolaCard] + deck.cards;
      setAside := multiset{};
    }

    /** The players hold the hands of `t`, seat by seat, and the deck holds the deck of `t`. */
    ghost predicate Holds(t: Table)
      reads players, deck
    {
      && |t.hands| == |players| && deck.cards == t.deck
      && forall j :: 0 <= j < |players| ==> players[j].hand == t.hands[j]
    }

    /** The players' scores are `ss`, seat by seat. */
    ghost predicate Scored(ss: seq<int>)
      reads players
    {
      |ss| == |players| && forall j :: 0 <= j < |players| ==> players[j].score == ss[j]
    }

    lemma HoldsHands(t: Table)
      requires Holds(t)
      ensures HandsOf(players) == t.hands && deck.cards == t.deck
    {
    }

    lemma ScoredScores(ss: seq<int>)
      requires Scored(ss)
      ensures ScoresOf(players) == ss
    {
    }

    /** The object reads as the game `g` when each of its parts does. */
    lemma IsState(g: Game)
      requires g.names == NamesOf(players) && g.teams == TeamsOf(players)
      requires Holds(Table(g.hands, g.deck)) && Scored(g.scores)
      requires g.briscola == briscolaCard && g.current == currentPlayerIndex && g.trick == currentTrick
      requires g.tricks == tricksPlayed && g.won == won && g.setAside == setAside
      requires g.leader == leader && g.playedBy == playedBy
      ensures State() == g
    {
      HoldsHands(Table(g.hands, g.deck));
      ScoredScores(g.scores);
    }

    /** The body of `__init__` once the players are seated: the deal, then the briscola draw. */
    method SetUp(names: seq<string>, shuffled: seq<Card>)
      requires 1 <= |names| <= 13 && Seated(players) && |players| == |names|
      requires forall i :: 0 <= i < |players| ==>
        players[i].name == names[i] && players[i].team == None && players[i].hand == [] && players[i].score == 0
      requires deck.cards == shuffled && |shuffled| == 40 && multiset(shuffled) == multiset(FullDeck())
      requires currentPlayerIndex == 0 && currentTrick == [] && tricksPlayed == 0
      requires won == [] && leader == 0 && playedBy == []
      modifies this, deck, players
      ensures Seated(players) && State() == NewGame(names, shuffled)
    {
      NewGameConsistent(names, shuffled);
      ghost var g := NewGame(names, shuffled);
      DealInitialCards(Table(NoHands(|names|), shuffled), g.scores);
      DrawBriscola();
      assert NamesOf(players) == names;
      IsState(g);
    }

    /** The last step of `__init__`: the next card of the deck becomes the briscola card and stays out of the deck. */
    method DrawBriscola()
      requires deck.cards != []
      modifies deck, this`briscolaCard, this`setAside
      ensures deck.cards == old(deck.cards[..|deck.cards| - 1])
      ensures briscolaCard == old(deck.cards[|deck.cards| - 1]) && setAside == multiset{briscolaCard}
    {
      var drawn := deck.Draw();
      briscolaCard := drawn.value;
      setAside := multiset{briscolaCard};
    }

    /** `deal_initial_cards`: three rounds of one card to each player in seat order, each card drawn from the end of the deck. */
    method DealInitialCards(ghost t0: Table, ghost s0: seq<int>)
      requires Seated(players) && Holds(t0) && Scored(s0) && 3 * |players| <= |t0.deck|
      modifies deck, players
      ensures Holds(DealRounds(t0, 3)) && Scored(s0)
    {
      var n := |players|;
      for r := 0 to 3
        invariant r * n <= 3 * n
        invariant Holds(DealRounds(t0, r)) && Scored(s0)
      {
        NextRound(r, n);
        DealRound(DealRounds(t0, r), s0);
      }
    }

    /** One round of the deal: one card to each player in seat order. */
    method DealRound(ghost t0: Table, ghost s0: seq<int>)
      requires Seated(players) && Holds(t0) && Scored(s0) && |players| <= |t0.deck|
      modifies deck, players
      ensures Holds(DealSeats(t0, |players|)) && Scored(s0)
    {
      var n := |players|;
      ghost var t := t0;
      for i := 0 to n
        invariant t == DealSeats(t0, i) && Holds(t) && Scored(s0)
      {
        DealCard(i, t, s0);
        t := DrawTo(t, i);
      }
    }

    /** `player.add_card(deck.draw())` for the player at seat `i`. */
    method DealCard(i: nat, ghost t: Table, ghost s0: seq<int>)
      requires Seated(players) && i < |players| && Holds(t) && Scored(s0) && t.deck != []
      modifies deck, players[i]
      ensures Holds(DrawTo(t, i)) && Scored(s0)
    {
      var c := deck.Draw();
      players[i].AddCard(c.value);
      forall j | 0 <= j < |players| && j != i ensures players[j].hand == t.hands[j] && players[j].score == s0[j] {
        assert SeatOf(players, players[j]) == j;
      }
    }

    /**
     * `play_turn(card)`: the acting player plays `card`.  A card not in that
     * player's hand fails with CardNotInHand and changes nothing.  Otherwise
     * the card leaves the hand (its first occurrence) and joins the trick;
     * then either the next seat clockwise acts, or, when every player has
     * played, the trick is resolved.
     */
    method PlayTurn(card: Card) returns (r: Outcome<PlayError>)
      requires Valid()
      modifies this, deck, players
      ensures Valid()
      ensures r == old(TurnOutcome(State(), card))
      ensures State() == old(AfterTurn(State(), card))
    {
      TurnKeepsConsistent(State(), card);
      r := Turn(card);
    }

    /** The body of `play_turn`, for any well-seated game. */
    method Turn(card: Card) returns (r: Outcome<PlayError>)
      requires Seated(players) && Seats(State()) && |currentTrick| < |players|
      modifies this, deck, players
      ensures r == old(TurnOutcome(State(), card))
      ensures State() == old(AfterTurn(State(), card))
    {
      ghost var g := State();
      var played := TakeCard(card);
      if played.Failure? {
        r := Fail(played.error);
        return;
      }
      Placed(g, card);
      r := Pass;
    }

    /** The rest of `play_turn` once `card`, held in the game `g`, is on the table. */
    method Placed(ghost g: Game, card: Card)
      requires Seated(players) && Seats(g) && |g.trick| < |g.names| && card in g.hands[g.current]
      requires State() == Played(g, card)
      modifies this, deck, players
      ensures State() == AfterTurn(g, card)
    {
      AfterPlay(g, card);
      FinishTurn();
    }

    /** `play_turn(card)` with the intended resolution of a full trick, which credits the seat that played the winning card. */
    method PlayTurnBySeat(card: Card) returns (r: Outcome<PlayError>)
      requires Valid()
      modifies this, deck, players
      ensures Valid()
      ensures r == old(TurnOutcome(State(), card))
      ensures State() == old(AfterTurnBySeat(State(), card))
    {
      TurnBySeatKeepsConsistent(State(), card);
      r := TurnBySeat(card);
    }

    /** The body of the corrected `play_turn`, for any consistent game. */
    method TurnBySeat(card: Card) returns (r: Outcome<PlayError>)
      requires Seated(players) && Consistent(State())
      modifies this, deck, players
      ensures r == old(TurnOutcome(State(), card))
      ensures State() == old(AfterTurnBySeat(State(), card))
    {
      ghost var g := State();
      var played := TakeCard(card);
      if played.Failure? {
        r := Fail(played.error);
        return;
      }
      PlacedBySeat(g, card);
      r := Pass;
    }

    /** The rest of the corrected `play_turn` once `card`, held in the consistent game `g`, is on the table. */
    method PlacedBySeat(ghost g: Game, card: Card)
      requires Seated(players) && Consistent(g) && card in g.hands[g.current] && State() == Played(g, card)
      modifies this, deck, players
      ensures State() == AfterTurnBySeat(g, card)
    {
      AfterPlayBySeat(g, card);
      FinishTurnBySeat();
    }

    /** The end of the corrected `play_turn`: resolve a full trick the intended way, or pass to the next seat. */
    method FinishTurnBySeat()
      requires Seated(players)
      requires var g := State();
        && Seats(g) && 1 <= |g.trick| <= |g.names| && 0 <= g.leader < |g.names|
        && (|g.trick| == |g.names| ==> g.current == SeatOfPosition(g.leader, |g.names| - 1, |g.names|))
      modifies this, deck, players
      ensures var g := old(State());
        State() == if |g.trick| == |g.names| then ResolvedBySeat(g) else g.(current := (g.current + 1) % |g.names|)
    {
      if |currentTrick| == |players| {
        ResolveTrickBySeat();
      } else {
        NextPlayer();
      }
    }

    /** The end of `play_turn` once the card is on the table: resolve a full trick, or pass to the next seat. */
    method FinishTurn()
      requires Seated(players)
      requires var g := State(); Seats(g) && 1 <= |g.trick| <= |g.names|
      modifies this, deck, players
      ensures var g := old(State());
        State() == if |g.trick| == |g.names| then Resolved(g) else g.(current := (g.current + 1) % |g.names|)
    {
      if |currentTrick| == |players| {
        ResolveTrick();
      } else {
        NextPlayer();
      }
    }

    /** The last step of `play_turn` when the trick is not yet full: the next seat clockwise acts. */
    method NextPlayer()
      requires Seats(State())
      modifies this`currentPlayerIndex
      ensures State() == old(State()).(current := (old(currentPlayerIndex) + 1) % |players|)
    {
      currentPlayerIndex := (currentPlayerIndex + 1) % |players|;
    }

    /** The first half of `play_turn`: the acting player gives up `card`, which joins the trick. */
    method TakeCard(card: Card) returns (r: Result<Card, PlayError>)
      requires Seated(players) && Seats(State())
      modifies this`currentTrick, this`playedBy, players[currentPlayerIndex]
      ensures card in old(State()).hands[currentPlayerIndex] ==> r == Success(card) && State() == Played(old(State()), card)
      ensures card !in old(State()).hands[currentPlayerIndex] ==> r == Failure(CardNotInHand) && State() == old(State())
    {
      ghost var g := State();
      r := GiveUp(card, Table(g.hands, g.deck), g.scores);
      if r.Failure? {
        IsState(g);
        return;
      }
      currentTrick := currentTrick + [r.value];
      playedBy := playedBy + [currentPlayerIndex];
      IsState(Played(g, card));
    }

    /** `play_card` on the acting player, whose hands and scores were `t` and `s0`. */
    method GiveUp(card: Card, ghost t: Table, ghost s0: seq<int>) returns (r: Result<Card, PlayError>)
      requires Seated(players) && 0 <= currentPlayerIndex < |players| && Holds(t) && Scored(s0)
      modifies players[currentPlayerIndex]
      ensures Scored(s0)
      ensures card in t.hands[currentPlayerIndex] ==>
        r == Success(card) && Holds(t.(hands := t.hands[currentPlayerIndex := RemoveFirst(t.hands[currentPlayerIndex], card)]))
      ensures card !in t.hands[currentPlayerIndex] ==> r == Failure(CardNotInHand) && Holds(t)
    {
      var currentPlayer := players[currentPlayerIndex];
      r := currentPlayer.PlayCard(card);
      forall j | 0 <= j < |players| && j != currentPlayerIndex
        ensures players[j].hand == t.hands[j] && players[j].score == s0[j]
      {
        assert SeatOf(players, players[j]) == j;
      }
    }

    /**
     * `resolve_trick`: the winning card's position in the trick names the
     * player credited with the trick's points (with every teammate when that
     * player has a team); the first player equal to that one, field by
     * field, leads next; hands are replenished clockwise from there; the
     * trick is emptied into the won cards and one more trick counts as
     * played.
     */
    method ResolveTrick()
      requires Seated(players) && Seats(State()) && |currentTrick| == |players|
      modifies this, deck, players
      ensures State() == Resolved(old(State()))
    {
      ResolvedInSteps(State());
      ScoreTrick();
      ReplenishHands();
      CloseTrick();
    }

    /**
     * The scoring half of `resolve_trick`: the trick's points go to the
     * player (and team) at the seat numbered by the winning card's position,
     * and the first player equal to that one acts next.
     */
    method ScoreTrick()
      requires Seated(players) && Seats(State()) && |currentTrick| == |players|
      modifies this`currentPlayerIndex, players
      ensures State() == ScoreStep(old(State()))
    {
      ghost var g := State();
      CreditWinner(Table(g.hands, g.deck), g.scores);
      IsState(ScoreStep(g));
    }

    /** The body of ScoreTrick, on the hands `t` and scores `s0` the players start from. */
    method CreditWinner(ghost t: Table, ghost s0: seq<int>)
      requires Seated(players) && 1 <= |currentTrick| == |players| && Holds(t) && Scored(s0)
      modifies this`currentPlayerIndex, players
      ensures Holds(t)
      ensures var sc := Score(currentTrick, briscolaCard.suit, NamesOf(players), TeamsOf(players), t.hands, s0);
        Scored(sc.scores) && currentPlayerIndex == sc.leader
    {
      var winningCard := WinningCard(currentTrick, briscolaCard.suit);
      var k := IndexOf(currentTrick, winningCard);
      var trickPoints := Points(currentTrick);
      CreditTrick(k, trickPoints, s0);
      ghost var credited := Credit(s0, TeamsOf(players), k, trickPoints);
      ScoredScores(credited);
      HoldsHands(t);
      var views := Views(NamesOf(players), HandsOf(players), ScoresOf(players), TeamsOf(players));
      currentPlayerIndex := IndexOf(views, views[k]);
    }

    /**
     * `resolve_trick` as intended: the seat that played the winning card is
     * credited and leads next. The last card of a full trick comes from the
     * acting seat, so the seat after it led the trick and the winning card
     * at position `k` came from `k` seats further on.
     */
    method ResolveTrickBySeat()
      requires Seated(players) && Seats(State()) && |currentTrick| == |players| && 0 <= leader < |players|
      requires currentPlayerIndex == SeatOfPosition(leader, |players| - 1, |players|)
      modifies this, deck, players
      ensures State() == ResolvedBySeat(old(State()))
    {
      ResolvedBySeatInSteps(State());
      ScoreTrickBySeat();
      ReplenishHands();
      CloseTrick();
    }

    /** The intended scoring half of `resolve_trick`. */
    method ScoreTrickBySeat()
      requires Seated(players) && Seats(State()) && |currentTrick| == |players| && 0 <= leader < |players|
      requires currentPlayerIndex == SeatOfPosition(leader, |players| - 1, |players|)
      modifies this`currentPlayerIndex, players
      ensures State() == ScoreBySeatStep(old(State()))
    {
      ghost var g := State();
      CreditWinningSeat(Table(g.hands, g.deck), g.scores);
      IsState(ScoreBySeatStep(g));
    }

    /** The body of ScoreTrickBySeat, on the hands `t` and scores `s0` the players start from. */
    method CreditWinningSeat(ghost t: Table, ghost s0: seq<int>)
      requires Seated(players) && 1 <= |currentTrick| == |players| && Holds(t) && Scored(s0)
      requires 0 <= leader < |players| && currentPlayerIndex == SeatOfPosition(leader, |players| - 1, |players|)
      modifies this`currentPlayerIndex, players
      ensures Holds(t)
      ensures var sc := ScoreBySeat(currentTrick, briscolaCard.suit, TeamsOf(players), s0, leader);
        Scored(sc.scores) && currentPlayerIndex == sc.leader
    {
      var winningIndex := WinningSeat();
      ScoreBySeatAt(currentTrick, briscolaCard.suit, TeamsOf(players), s0, leader, winningIndex);
      CreditTrick(winningIndex, Points(currentTrick), s0);
      currentPlayerIndex := winningIndex;
    }

    /**
     * The seat that played the winning card of a full trick: the seat after
     * the acting one led, and the winning card at position `k` came `k`
     * seats further on.
     */
    method WinningSeat() returns (seat: nat)
      requires 1 <= |currentTrick| == |players| && 0 <= leader < |players|
      requires currentPlayerIndex == SeatOfPosition(leader, |players| - 1, |players|)
      ensures seat == SeatOfPosition(leader, IndexOf(currentTrick, WinningCard(currentTrick, briscolaCard.suit)), |players|)
    {
      var n := |players|;
      var winningCard := WinningCard(currentTrick, briscolaCard.suit);
      var k := IndexOf(currentTrick, winningCard);
      var leadIndex := (currentPlayerIndex + 1) % n;
      seat := (leadIndex + k) % n;
      SeatFromLast(leader, k, n);
    }

    /** The end of `resolve_trick`: the trick is emptied and one more trick counts as played. */
    method CloseTrick()
      modifies this`currentTrick, this`tricksPlayed, this`won, this`leader, this`playedBy
      ensures State() == CloseStep(old(State()))
    {
      won, leader, playedBy := won + currentTrick, currentPlayerIndex, [];
      currentTrick := [];
      tricksPlayed := tricksPlayed + 1;
    }

    /**
     * The scoring step of `resolve_trick`: the player at seat `k`, whose
     * scores were `s0`, gains `points`, or, when that player has a team,
     * every player of that team does, in seat order.
     */
    method CreditTrick(k: nat, points: int, ghost s0: seq<int>)
      requires k < |players| && Seated(players) && Scored(s0)
      modifies players
      ensures Scored(Credit(s0, TeamsOf(players), k, points))
      ensures forall j :: 0 <= j < |players| ==> players[j].hand == old(players[j].hand)
    {
      var winningPlayer := players[k];
      if winningPlayer.team.Some? {
        for i := 0 to |players|
          invariant forall j :: 0 <= j < |players| ==> players[j].hand == old(players[j].hand)
          invariant forall j :: 0 <= j < |players| ==>
            players[j].score == if j < i && Credited(TeamsOf(players), k, j) then s0[j] + points else s0[j]
        {
          if players[i].team == winningPlayer.team {
            ghost var before := ScoresOf(players);
            players[i].AddToScore(points);
            forall j | 0 <= j < |players| && j != i ensures players[j].score == before[j] {
              assert SeatOf(players, players[j]) == j;
            }
          }
        }
      } else {
        winningPlayer.AddToScore(points);
        forall j | 0 <= j < |players| && j != k ensures players[j].score == s0[j] {
          assert SeatOf(players, players[j]) == j;
        }
      }
    }

    /**
     * `replenish_hands`: going clockwise from the acting seat, each player
     * draws from the end of the deck until holding 3 cards or the deck is
     * empty; `t0` is the hands and deck it starts from.
     */
    method ReplenishHands()
      requires Seated(players) && Seats(State())
      modifies deck, players
      ensures State() == ReplenishStep(old(State()))
    {
      ghost var g := State();
      TopUpClockwise(Table(g.hands, g.deck), g.scores);
      IsState(ReplenishStep(g));
    }

    /** The loop of `replenish_hands`, from the hands and deck `t0` and the scores `s0`. */
    method TopUpClockwise(ghost t0: Table, ghost s0: seq<int>)
      requires Seated(players) && 0 <= currentPlayerIndex < |players| && Holds(t0) && Scored(s0)
      modifies deck, players
      ensures Holds(Replenish(t0, currentPlayerIndex)) && Scored(s0)
    {
      ghost var t := t0;
      var startIndex := currentPlayerIndex;
      var n := |players|;
      for i := 0 to n
        invariant t == ReplenishFrom(t0, startIndex, i) && Holds(t) && Scored(s0)
      {
        var playerIndex := (startIndex + i) % n;
        TopUpPlayer(playerIndex, t);
        forall j | 0 <= j < n && j != playerIndex
          ensures players[j].hand == TopUp(t, playerIndex).hands[j] && players[j].score == s0[j]
        {
          TopUpOthers(t, playerIndex, j);
          assert SeatOf(players, players[j]) == j;
        }
        t := TopUp(t, playerIndex);
      }
    }

    /**
     * The inner loop of `replenish_hands`: the player at `playerIndex` draws
     * from the end of the deck until holding 3 cards or the deck is empty.
     */
    method TopUpPlayer(playerIndex: nat, ghost t0: Table)
      requires playerIndex < |players| && Holds(t0)
      modifies deck, players[playerIndex]
      ensures players[playerIndex].hand == TopUp(t0, playerIndex).hands[playerIndex]
      ensures deck.cards == TopUp(t0, playerIndex).deck
      ensures players[playerIndex].score == old(players[playerIndex].score)
    {
      var player := players[playerIndex];
      ghost var t := t0;
      while |player.hand| < 3 && |deck.cards| > 0
        invariant |t.hands| == |t0.hands| && t.hands[playerIndex] == player.hand && t.deck == deck.cards
        invariant TopUp(t, playerIndex) == TopUp(t0, playerIndex)
        invariant player.score == old(player.score)
        decreases |deck.cards|
      {
        TopUpStep(t, playerIndex);
        var c := deck.Draw();
        player.AddCard(c.value);
        t := DrawTo(t, playerIndex);
      }
    }

    /** `is_game_over`: whether `40 // len(players)` tricks have been played. */
    function IsGameOver(): (b: bool)
      reads this
      requires players != []
      ensures b <==> tricksPlayed == 40 / |players|
    {
      tricksPlayed == 40 / |players|
    }

    /** `get_winner`: no winner until the game is over; then the first player with the highest score. */
    function GetWinner(): (w: Option<Player>)
      reads this, players
      requires players != []
      ensures w.None? <==> !IsGameOver()
      ensures w.Some? ==> exists k :: (
        && 0 <= k < |players| && w.value == players[k]
        && (forall i :: 0 <= i < |players| ==> players[i].score <= players[k].score)
        && (forall i :: 0 <= i < k ==> players[i].score < players[k].score))
    {
      if !IsGameOver() then None else Some(players[FirstMaxSeat(ScoresOf(players))])
    }

    /** `get_current_player`: the player whose hand `play_turn` takes the card from. */
    function GetCurrentPlayer(): (p: Player)
      reads this, players, deck
      requires Seats(State())
      ensures p in players && p == players[currentPlayerIndex]
      ensures forall c :: TurnOutcome(State(), c) == Pass <==> c in p.hand
    {
      players[currentPlayerIndex]
    }

    /** `get_game_state`: the summary of the game for display. */
    function GetGameState(): (s: GameState)
      reads this, players, deck
      requires Valid()
      ensures s.currentPlayer == players[currentPlayerIndex].name && s.briscolaSuit == briscolaCard.suit
      ensures s.tricksPlayed == tricksPlayed && s.cardsLeftInDeck == |deck.cards|
      ensures |s.currentTrick| == |currentTrick| && |s.players| == |players|
      ensures forall i :: 0 <= i < |currentTrick| ==> s.currentTrick[i] == (currentTrick[i].rank, currentTrick[i].suit)
      ensures forall i :: 0 <= i < |players| ==>
        s.players[i] == PlayerInfo(players[i].name, players[i].score, |players[i].hand|)
      ensures HeldCards(s.players) + s.cardsLeftInDeck + |s.currentTrick| + |players| * s.tricksPlayed + |setAside| == 40
    {
      var s := GameState(GetCurrentPlayer().name, briscolaCard.suit, tricksPlayed, deck.Len(),
        seq(|currentTrick|, i requires 0 <= i < |currentTrick| reads this => (currentTrick[i].rank, currentTrick[i].suit)),
        seq(|players|, i requires 0 <= i < |players| reads this, players =>
          PlayerInfo(players[i].name, players[i].score, players[i].GetHandSize())));
      CardsInPlay(State());
      HeldCardsAreHands(s.players, HandsOf(players));
      s
    }
  }

  /** A summary counts the cards held as the hands do. */
  lemma {:induction false} HeldCardsAreHands(ps: seq<PlayerInfo>, hs: seq<seq<Card>>)
    requires |ps| == |hs| && forall i :: 0 <= i < |ps| ==> ps[i].handSize == |hs[i]|
    ensures HeldCards(ps) == HandsSize(hs)
  {
    if ps != [] {
      HeldCardsAreHands(ps[1..], hs[1..]);
    }
  }

  lemma NextRound(r: int, n: int)
    requires 0 <= r < 3 && n >= 0
    ensures (r + 1) * n == r * n + n && (r + 1) * n <= 3 * n
  {
  }
}
