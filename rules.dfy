/**
 * The value-level rules of BriscolaGame (briscola/briscola.py): which card
 * wins a trick, how the trick's points are credited, how `players.index`
 * resolves the winner's seat, and what dealing and replenishing do to the
 * hands and the deck.  The game class runs these rules in place; its methods
 * are proved against the functions here.
 */
module BriscolaRules {
  import opened Wrappers
  import opened Lists
  import opened CardDeck

  // ---------------------------------------------------------------------
  // The winning card (determine_winning_card)
  // ---------------------------------------------------------------------

  /** `[card for card in cards if card.suit == s]`. */
  function OfSuit(cards: seq<Card>, s: Suit): (r: seq<Card>)
    ensures forall c :: c in r ==> c in cards && c.suit == s
    ensures r == [] <==> forall i :: 0 <= i < |cards| ==> cards[i].suit != s
  {
    if cards == [] then []
    else
      var rest := OfSuit(cards[1..], s);
      assert rest == [] <==> forall i :: 1 <= i < |cards| ==> cards[i].suit != s by {
        assert forall i :: 1 <= i < |cards| ==> cards[i] == cards[1..][i - 1];
      }
      if cards[0].suit == s then [cards[0]] + rest else rest
  }

  /**
   * `max(cards, key=lambda card: card.value)`: a card of greatest value;
   * Python's `max` keeps the first one it meets, which is what a later card
   * must strictly beat.
   */
  function FirstMax(cards: seq<Card>): (m: Card)
    requires cards != []
    ensures m in cards
    ensures forall c :: c in cards ==> c.value <= m.value
    ensures exists k :: 0 <= k < |cards| && cards[k] == m && forall j :: 0 <= j < k ==> cards[j].value < m.value
  {
    if |cards| == 1 then cards[0]
    else
      var best := FirstMax(cards[1..]);
      assert forall c :: c in cards ==> c == cards[0] || c in cards[1..];
      if best.value > cards[0].value then best else cards[0]
  }

  /**
   * `determine_winning_card`: the first card of greatest value among the
   * briscola-suit cards of the trick if there are any, else among the cards
   * of the lead suit.
   */
  function WinningCard(trick: seq<Card>, trump: Suit): (w: Card)
    requires trick != []
    ensures w in trick
  {
    var trumps := OfSuit(trick, trump);
    if trumps != [] then FirstMax(trumps)
    else FirstMax(OfSuit(trick, trick[0].suit))
  }

  /** Whether some card of the trick has suit `s`. */
  ghost predicate SuitPlayed(trick: seq<Card>, s: Suit)
  {
    exists i :: 0 <= i < |trick| && trick[i].suit == s
  }

  /** The suit that takes the trick: the briscola suit if any was played, else the lead suit. */
  ghost function TakingSuit(trick: seq<Card>, trump: Suit): Suit
    requires trick != []
  {
    if SuitPlayed(trick, trump) then trump else trick[0].suit
  }

  /**
   * Position `k` of the trick holds the winner among the cards of suit `s`:
   * it has suit `s`, no card of suit `s` is worth more, and every card of
   * suit `s` before it is worth strictly less.
   */
  ghost predicate WinsAt(trick: seq<Card>, s: Suit, k: nat)
  {
    && k < |trick|
    && trick[k].suit == s
    && (forall j :: 0 <= j < |trick| && trick[j].suit == s ==> trick[j].value <= trick[k].value)
    && (forall j :: 0 <= j < k && trick[j].suit == s ==> trick[j].value < trick[k].value)
  }

  /** Filtering a suit and taking the first maximum picks the first card of greatest value of that suit. */
  lemma {:induction false} FirstMaxOfSuit(trick: seq<Card>, s: Suit)
    requires SuitPlayed(trick, s)
    ensures OfSuit(trick, s) != []
    ensures FirstMax(OfSuit(trick, s)) in trick
    ensures WinsAt(trick, s, IndexOf(trick, FirstMax(OfSuit(trick, s))))
  {
    var c, rest := trick[0], trick[1..];
    var w := FirstMax(OfSuit(trick, s));
    if c.suit != s {
      assert SuitPlayed(rest, s) by {
        var i :| 0 <= i < |trick| && trick[i].suit == s;
        assert rest[i - 1].suit == s;
      }
      FirstMaxOfSuit(rest, s);
      assert OfSuit(trick, s) == OfSuit(rest, s);
      WinsAtShift(trick, s, w);
    } else if !SuitPlayed(rest, s) {
      assert OfSuit(rest, s) == [];
      assert OfSuit(trick, s) == [c];
      assert w == c && IndexOf(trick, w) == 0;
      assert forall j :: 1 <= j < |trick| ==> trick[j] == rest[j - 1];
    } else {
      FirstMaxOfSuit(rest, s);
      var m := FirstMax(OfSuit(rest, s));
      assert OfSuit(trick, s) == [c] + OfSuit(rest, s);
      assert ([c] + OfSuit(rest, s))[1..] == OfSuit(rest, s);
      if m.value > c.value {
        assert w == m;
        WinsAtShift(trick, s, w);
      } else {
        assert w == c && IndexOf(trick, w) == 0;
        assert forall j :: 1 <= j < |trick| ==> trick[j] == rest[j - 1];
      }
    }
  }

  /** A winner of the trick after its first card is the winner of the whole trick when the first card does not beat it. */
  lemma WinsAtShift(trick: seq<Card>, s: Suit, w: Card)
    requires trick != [] && w in trick[1..] && WinsAt(trick[1..], s, IndexOf(trick[1..], w))
    requires trick[0].suit == s ==> trick[0].value < w.value
    ensures WinsAt(trick, s, IndexOf(trick, w))
  {
    var rest := trick[1..];
    assert trick[0] != w;
    assert IndexOf(trick, w) == 1 + IndexOf(rest, w);
    assert forall j :: 1 <= j < |trick| ==> trick[j] == rest[j - 1];
  }

  /**
   * The winning card is at the first position of greatest value among the
   * cards of the taking suit: the briscola suit when one was played, the lead
   * suit otherwise.  The lead card always qualifies in the second case.
   */
  lemma WinningCardPosition(trick: seq<Card>, trump: Suit)
    requires trick != []
    ensures WinsAt(trick, TakingSuit(trick, trump), IndexOf(trick, WinningCard(trick, trump)))
    ensures WinningCard(trick, trump).suit == TakingSuit(trick, trump)
  {
    if SuitPlayed(trick, trump) {
      FirstMaxOfSuit(trick, trump);
    } else {
      assert OfSuit(trick, trump) == [];
      FirstMaxOfSuit(trick, trick[0].suit);
    }
  }

  /** At most one position of a trick wins it in a given suit. */
  lemma WinsAtUnique(trick: seq<Card>, s: Suit, k1: nat, k2: nat)
    requires WinsAt(trick, s, k1) && WinsAt(trick, s, k2)
    ensures k1 == k2
  {
  }

  // ---------------------------------------------------------------------
  // Trick points and who is credited with them (resolve_trick)
  // ---------------------------------------------------------------------

  function Sum(xs: seq<int>): int
  {
    if xs == [] then 0 else xs[0] + Sum(xs[1..])
  }

  /** Nobody has scored yet: the scores add up to nothing. */
  lemma {:induction false} SumZeros(xs: seq<int>)
    requires forall i :: 0 <= i < |xs| ==> xs[i] == 0
    ensures Sum(xs) == 0
  {
    if xs != [] {
      SumZeros(xs[1..]);
    }
  }

  /** Whether seat `i` is credited when the card at trick position `k` wins: `k` itself, or any teammate of the player at seat `k`. */
  function Credited(teams: seq<Option<int>>, k: nat, i: nat): bool
    requires k < |teams| && i < |teams|
  {
    if teams[k].Some? then teams[i] == teams[k] else i == k
  }

  /** The scores after `points` go to the player at seat `k` or, if that player has a team, to every member of it. */
  function Credit(scores: seq<int>, teams: seq<Option<int>>, k: nat, points: int): seq<int>
    requires |scores| == |teams| && k < |teams|
  {
    seq(|scores|, i requires 0 <= i < |scores| =>
      if Credited(teams, k, i) then scores[i] + points else scores[i])
  }

  /** No player belongs to a team. */
  predicate NoTeams(teams: seq<Option<int>>)
  {
    forall i :: 0 <= i < |teams| ==> teams[i].None?
  }

  lemma {:induction false} SumUpdate(xs: seq<int>, k: nat, x: int)
    requires k < |xs|
    ensures Sum(xs[k := x]) == Sum(xs) - xs[k] + x
  {
    if k > 0 {
      assert xs[k := x][1..] == xs[1..][k - 1 := x];
      SumUpdate(xs[1..], k - 1, x);
    }
  }

  /**
   * Crediting a player without a team adds the points to that seat alone, so
   * the scores grow in total by exactly the trick's points.
   */
  lemma CreditSolo(scores: seq<int>, teams: seq<Option<int>>, k: nat, points: int)
    requires |scores| == |teams| && k < |teams| && teams[k].None?
    ensures Credit(scores, teams, k, points) == scores[k := scores[k] + points]
    ensures Sum(Credit(scores, teams, k, points)) == Sum(scores) + points
  {
    CreditSoloAt(scores, teams, k, points);
    SumBump(scores, k, points);
  }

  /** Adding `points` to one score adds them to the total. */
  lemma SumBump(xs: seq<int>, k: nat, points: int)
    requires k < |xs|
    ensures Sum(xs[k := xs[k] + points]) == Sum(xs) + points
  {
    SumUpdate(xs, k, xs[k] + points);
  }

  lemma CreditSoloAt(scores: seq<int>, teams: seq<Option<int>>, k: nat, points: int)
    requires |scores| == |teams| && k < |teams| && teams[k].None?
    ensures Credit(scores, teams, k, points) == scores[k := scores[k] + points]
  {
    var r := Credit(scores, teams, k, points);
    var u := scores[k := scores[k] + points];
    forall i | 0 <= i < |scores| ensures r[i] == u[i] {
      if i == k {
        assert Credited(teams, k, i);
      } else {
        assert !Credited(teams, k, i);
      }
    }
  }

  /** With a team, every member of the winner's team gains the full points and nobody else gains anything. */
  lemma CreditTeam(scores: seq<int>, teams: seq<Option<int>>, k: nat, points: int, i: nat)
    requires |scores| == |teams| && k < |teams| && i < |teams| && teams[k].Some?
    ensures Credit(scores, teams, k, points)[i] == if teams[i] == teams[k] then scores[i] + points else scores[i]
  {
  }

  // ---------------------------------------------------------------------
  // players.index(winning_player)
  // ---------------------------------------------------------------------

  /** The fields a player is compared on by `==` (field-wise model equality). */
  datatype PlayerView = PlayerView(name: string, hand: seq<Card>, score: int, team: Option<int>)

  function Views(names: seq<string>, hands: seq<seq<Card>>, scores: seq<int>, teams: seq<Option<int>>): seq<PlayerView>
    requires |hands| == |names| && |scores| == |names| && |teams| == |names|
  {
    seq(|names|, i requires 0 <= i < |names| => PlayerView(names[i], hands[i], scores[i], teams[i]))
  }

  /** `players.index(players[k])` is at most `k`, and it is `k` itself when no two players share a name. */
  lemma SeatLookup(names: seq<string>, hands: seq<seq<Card>>, scores: seq<int>, teams: seq<Option<int>>, k: nat)
    requires |hands| == |names| && |scores| == |names| && |teams| == |names| && k < |names|
    ensures var vs := Views(names, hands, scores, teams); IndexOf(vs, vs[k]) <= k
    ensures Distinct(names) ==> var vs := Views(names, hands, scores, teams); IndexOf(vs, vs[k]) == k
  {
  }

  // ---------------------------------------------------------------------
  // Hands and deck: dealing and replenishing
  // ---------------------------------------------------------------------

  /** Every player's hand, seat by seat, and the deck. */
  datatype Table = Table(hands: seq<seq<Card>>, deck: seq<Card>)

  /** All the cards held in hands. */
  function HandsBag(hs: seq<seq<Card>>): multiset<Card>
  {
    if hs == [] then multiset{} else multiset(hs[0]) + HandsBag(hs[1..])
  }

  /** The total number of cards held in hands. */
  function HandsSize(hs: seq<seq<Card>>): nat
  {
    if hs == [] then 0 else |hs[0]| + HandsSize(hs[1..])
  }

  /** All the cards on the table: in hands or in the deck. */
  function Bag(t: Table): multiset<Card>
  {
    HandsBag(t.hands) + multiset(t.deck)
  }

  /** Replacing one hand changes the cards held by exactly the difference of the two hands. */
  lemma {:induction false} HandsUpdate(hs: seq<seq<Card>>, k: nat, h: seq<Card>)
    requires k < |hs|
    ensures HandsBag(hs[k := h]) + multiset(hs[k]) == HandsBag(hs) + multiset(h)
    ensures HandsSize(hs[k := h]) + |hs[k]| == HandsSize(hs) + |h|
  {
    var hs' := hs[k := h];
    assert hs' != [] && hs != [];
    if k > 0 {
      assert hs'[0] == hs[0];
      assert hs'[1..] == hs[1..][k - 1 := h];
      assert hs[1..][k - 1] == hs[k];
      HandsUpdate(hs[1..], k - 1, h);
      BagShift(multiset(hs[0]), HandsBag(hs[1..][k - 1 := h]), HandsBag(hs[1..]), multiset(hs[k]), multiset(h));
    } else {
      assert hs'[0] == h;
      assert hs'[1..] == hs[1..];
    }
  }

  lemma BagShift(a: multiset<Card>, x: multiset<Card>, y: multiset<Card>, b: multiset<Card>, c: multiset<Card>)
    requires x + b == y + c
    ensures a + x + b == a + y + c
  {
    assert a + x + b == a + (x + b);
    assert a + y + c == a + (y + c);
  }

  lemma BagMove(x: multiset<Card>, y: multiset<Card>, m: multiset<Card>, c: multiset<Card>, rest: multiset<Card>)
    requires x + m == y + (m + c)
    ensures x + rest == y + (rest + c)
  {
    forall e ensures x[e] == (y + c)[e] {
      assert (x + m)[e] == (y + (m + c))[e];
    }
    assert x == y + c;
  }

  lemma BagCancel(x: multiset<Card>, y: multiset<Card>, m: multiset<Card>)
    requires x + m == y + m
    ensures x == y
  {
    forall e ensures x[e] == y[e] {
      assert (x + m)[e] == (y + m)[e];
    }
  }

  /** Moving a card from a hand to the trick keeps the five places' total. */
  lemma BagRegroup(d: multiset<Card>, h': multiset<Card>, h: multiset<Card>, t: multiset<Card>, c: multiset<Card>,
                   w: multiset<Card>, a: multiset<Card>)
    requires h' + c == h
    ensures d + h' + (t + c) + w + a == d + h + t + w + a
  {
  }

  /** Replacing hands and deck by ones with the same cards, and moving the trick to the won cards, keeps the total. */
  lemma BagRegroup2(d': multiset<Card>, h': multiset<Card>, d: multiset<Card>, h: multiset<Card>, t: multiset<Card>,
                    w: multiset<Card>, a: multiset<Card>)
    requires h' + d' == h + d
    ensures d' + h' + multiset{} + (w + t) + a == d + h + t + w + a
  {
    forall e ensures (d' + h' + multiset{} + (w + t) + a)[e] == (d + h + t + w + a)[e] {
      assert (h' + d')[e] == (h + d)[e];
    }
  }

  lemma BagPutBack(d: multiset<Card>, h: multiset<Card>, t: multiset<Card>, w: multiset<Card>, b: multiset<Card>)
    ensures (d + b) + h + t + w + multiset{} == d + h + t + w + b
  {
    forall e ensures ((d + b) + h + t + w + multiset{})[e] == (d + h + t + w + b)[e] {
    }
  }

  lemma BagSwap(x: multiset<Card>, y: multiset<Card>, c: multiset<Card>)
    ensures x + y + c == y + (x + c)
  {
    forall e ensures (x + y + c)[e] == (y + (x + c))[e] {
    }
  }

  /** The number of cards held is the size of the multiset of cards held. */
  lemma {:induction false} HandsBagSize(hs: seq<seq<Card>>)
    ensures |HandsBag(hs)| == HandsSize(hs)
  {
    if hs != [] {
      HandsBagSize(hs[1..]);
    }
  }

  /** Hands that are all empty hold no card. */
  lemma {:induction false} EmptyHands(hs: seq<seq<Card>>)
    requires forall i :: 0 <= i < |hs| ==> hs[i] == []
    ensures HandsBag(hs) == multiset{} && HandsSize(hs) == 0
  {
    if hs != [] {
      EmptyHands(hs[1..]);
    }
  }

  /** A card in one hand is among the cards held. */
  lemma {:induction false} HandsHold(hs: seq<seq<Card>>, i: nat, c: Card)
    requires i < |hs| && c in hs[i]
    ensures HandsBag(hs)[c] >= 1
  {
    if i > 0 {
      assert hs[1..][i - 1] == hs[i];
      HandsHold(hs[1..], i - 1, c);
    }
  }

  /** Playing a held card takes exactly that card out of the cards held. */
  lemma HandsPlay(hs: seq<seq<Card>>, k: nat, c: Card)
    requires k < |hs| && c in hs[k]
    ensures HandsBag(hs[k := RemoveFirst(hs[k], c)]) + multiset{c} == HandsBag(hs)
    ensures HandsSize(hs[k := RemoveFirst(hs[k], c)]) + 1 == HandsSize(hs)
  {
    var h := RemoveFirst(hs[k], c);
    HandsUpdate(hs, k, h);
    assert multiset(hs[k]) == multiset(h) + multiset{c};
    var x := HandsBag(hs[k := h]);
    assert (x + multiset{c}) + multiset(h) == x + multiset(hs[k]);
    BagCancel(x + multiset{c}, HandsBag(hs), multiset(h));
  }

  /** `player.add_card(deck.draw())`: the last card of the deck goes to the end of one hand. */
  function DrawTo(t: Table, seat: nat): (r: Table)
    requires seat < |t.hands| && t.deck != []
    ensures |r.hands| == |t.hands| && |r.deck| == |t.deck| - 1
  {
    Table(t.hands[seat := t.hands[seat] + [t.deck[|t.deck| - 1]]], t.deck[..|t.deck| - 1])
  }

  /** A draw moves one card from the deck to a hand: no card appears or disappears. */
  lemma DrawToConserves(t: Table, seat: nat)
    requires seat < |t.hands| && t.deck != []
    ensures Bag(DrawTo(t, seat)) == Bag(t)
    ensures HandsSize(DrawTo(t, seat).hands) + |DrawTo(t, seat).deck| == HandsSize(t.hands) + |t.deck|
  {
    var c := t.deck[|t.deck| - 1];
    var rest := t.deck[..|t.deck| - 1];
    var h := t.hands[seat] + [c];
    HandsUpdate(t.hands, seat, h);
    assert multiset(h) == multiset(t.hands[seat]) + multiset{c};
    assert t.deck == rest + [c];
    assert multiset(t.deck) == multiset(rest) + multiset{c};
    var r := DrawTo(t, seat);
    assert r == Table(t.hands[seat := h], rest);
    BagMove(HandsBag(t.hands[seat := h]), HandsBag(t.hands), multiset(t.hands[seat]), multiset{c}, multiset(rest));
  }

  /** One round of `for player in players: player.add_card(deck.draw())`, over the first `n` seats. */
  function DealSeats(t: Table, n: nat): (r: Table)
    requires n <= |t.hands| && n <= |t.deck|
    ensures |r.hands| == |t.hands| && |r.deck| == |t.deck| - n
  {
    if n == 0 then t else DrawTo(DealSeats(t, n - 1), n - 1)
  }

  /** `rounds` rounds of dealing one card to each seat in seat order. */
  function DealRounds(t: Table, rounds: nat): (r: Table)
    requires rounds * |t.hands| <= |t.deck|
    ensures |r.hands| == |t.hands| && |r.deck| == |t.deck| - rounds * |t.hands|
  {
    if rounds == 0 then t
    else
      assert (rounds - 1) * |t.hands| == rounds * |t.hands| - |t.hands|;
      DealSeats(DealRounds(t, rounds - 1), |t.hands|)
  }

  /**
   * In one round seat `i` gets the card `i` places from the end of the deck:
   * the deck's last card to seat 0, the one before it to seat 1, and so on.
   */
  lemma {:induction false} DealSeatsOrder(t: Table, n: nat)
    requires n <= |t.hands| && n <= |t.deck|
    ensures DealSeats(t, n).deck == t.deck[..|t.deck| - n]
    ensures forall i :: 0 <= i < |t.hands| ==>
      DealSeats(t, n).hands[i] == if i < n then t.hands[i] + [t.deck[|t.deck| - 1 - i]] else t.hands[i]
  {
    if n > 0 {
      var p := DealSeats(t, n - 1);
      DealSeatsOrder(t, n - 1);
      var r := DrawTo(p, n - 1);
      assert r == DealSeats(t, n);
      var c := p.deck[|p.deck| - 1];
      assert c == t.deck[|t.deck| - 1 - (n - 1)];
      assert r.deck == t.deck[..|t.deck| - n];
      forall i | 0 <= i < |t.hands|
        ensures r.hands[i] == if i < n then t.hands[i] + [t.deck[|t.deck| - 1 - i]] else t.hands[i]
      {
        if i == n - 1 {
          assert r.hands[i] == p.hands[i] + [c];
        } else {
          assert r.hands[i] == p.hands[i];
        }
      }
    }
  }

  /** One round of the deal loses no card. */
  lemma {:induction false} DealSeatsConserves(t: Table, n: nat)
    requires n <= |t.hands| && n <= |t.deck|
    ensures Bag(DealSeats(t, n)) == Bag(t)
  {
    if n > 0 {
      DealSeatsConserves(t, n - 1);
      DrawToConserves(DealSeats(t, n - 1), n - 1);
    }
  }

  /** Dealing `rounds` rounds gives every seat `rounds` more cards, takes them from the deck's end and loses none. */
  lemma DealRoundsShape(t: Table, rounds: nat)
    requires rounds * |t.hands| <= |t.deck|
    ensures forall i :: 0 <= i < |t.hands| ==> |DealRounds(t, rounds).hands[i]| == |t.hands[i]| + rounds
    ensures DealRounds(t, rounds).deck == t.deck[..|t.deck| - rounds * |t.hands|]
    ensures Bag(DealRounds(t, rounds)) == Bag(t)
  {
    DealRoundsSizes(t, rounds);
    DealRoundsDeck(t, rounds);
    DealRoundsConserves(t, rounds);
  }

  lemma {:induction false} DealRoundsSizes(t: Table, rounds: nat)
    requires rounds * |t.hands| <= |t.deck|
    ensures forall i :: 0 <= i < |t.hands| ==> |DealRounds(t, rounds).hands[i]| == |t.hands[i]| + rounds
  {
    if rounds > 0 {
      assert (rounds - 1) * |t.hands| == rounds * |t.hands| - |t.hands|;
      var before := DealRounds(t, rounds - 1);
      DealRoundsSizes(t, rounds - 1);
      DealSeatsOrder(before, |t.hands|);
    }
  }

  lemma {:induction false} DealRoundsDeck(t: Table, rounds: nat)
    requires rounds * |t.hands| <= |t.deck|
    ensures DealRounds(t, rounds).deck == t.deck[..|t.deck| - rounds * |t.hands|]
  {
    if rounds > 0 {
      assert (rounds - 1) * |t.hands| == rounds * |t.hands| - |t.hands|;
      var before := DealRounds(t, rounds - 1);
      DealRoundsDeck(t, rounds - 1);
      DealSeatsOrder(before, |t.hands|);
    }
  }

  lemma {:induction false} DealRoundsConserves(t: Table, rounds: nat)
    requires rounds * |t.hands| <= |t.deck|
    ensures Bag(DealRounds(t, rounds)) == Bag(t)
  {
    if rounds > 0 {
      assert (rounds - 1) * |t.hands| == rounds * |t.hands| - |t.hands|;
      DealRoundsConserves(t, rounds - 1);
      DealSeatsConserves(DealRounds(t, rounds - 1), |t.hands|);
    }
  }

  /** `while len(player.hand) < 3 and len(deck.cards) > 0: player.add_card(deck.draw())` for one seat. */
  function TopUp(t: Table, seat: nat): (r: Table)
    requires seat < |t.hands|
    ensures |r.hands| == |t.hands|
    decreases |t.deck|
  {
    if |t.hands[seat]| < 3 && |t.deck| > 0 then TopUp(DrawTo(t, seat), seat) else t
  }

  /** Proof step: one unfolding of the top-up loop, used by the class's loop (TopUpHands states what it achieves). */
  lemma TopUpStep(t: Table, seat: nat)
    requires seat < |t.hands| && |t.hands[seat]| < 3 && t.deck != []
    ensures TopUp(t, seat) == TopUp(DrawTo(t, seat), seat)
  {
  }

  /** Topping up one seat leaves every other hand as it was. */
  lemma {:induction false} TopUpOthers(t: Table, seat: nat, j: nat)
    requires seat < |t.hands| && j < |t.hands| && j != seat
    ensures TopUp(t, seat).hands[j] == t.hands[j]
    decreases |t.deck|
  {
    if |t.hands[seat]| < 3 && |t.deck| > 0 {
      TopUpOthers(DrawTo(t, seat), seat, j);
    }
  }

  /** Topping up draws from the deck's end only: no card appears or disappears and the deck keeps its order. */
  lemma {:induction false} TopUpConserves(t: Table, seat: nat)
    requires seat < |t.hands|
    ensures Bag(TopUp(t, seat)) == Bag(t)
    ensures |TopUp(t, seat).deck| <= |t.deck| && TopUp(t, seat).deck == t.deck[..|TopUp(t, seat).deck|]
    decreases |t.deck|
  {
    if |t.hands[seat]| < 3 && |t.deck| > 0 {
      var d := DrawTo(t, seat);
      DrawToConserves(t, seat);
      TopUpConserves(d, seat);
      var r := TopUp(d, seat);
      assert r.deck == d.deck[..|r.deck|];
      assert d.deck == t.deck[..|t.deck| - 1];
    }
  }

  /**
   * Topping up one seat only adds cards to the end of that seat's hand, until
   * it holds 3 cards or the deck is empty; no other hand changes.
   */
  lemma {:induction false} TopUpHands(t: Table, seat: nat)
    requires seat < |t.hands|
    ensures forall i :: 0 <= i < |t.hands| && i != seat ==> TopUp(t, seat).hands[i] == t.hands[i]
    ensures t.hands[seat] <= TopUp(t, seat).hands[seat]
    ensures |TopUp(t, seat).hands[seat]| ==
      if |t.hands[seat]| >= 3 then |t.hands[seat]| else Min(3, |t.hands[seat]| + |t.deck|)
    ensures TopUp(t, seat).deck == [] || |TopUp(t, seat).hands[seat]| >= 3
    decreases |t.deck|
  {
    if |t.hands[seat]| < 3 && |t.deck| > 0 {
      var d := DrawTo(t, seat);
      TopUpHands(d, seat);
      assert t.hands[seat] <= d.hands[seat];
    }
  }

  function Min(a: int, b: int): int
  {
    if a <= b then a else b
  }

  /** The `i`-th seat visited when going clockwise from `start`. */
  function Clockwise(start: nat, i: nat, n: nat): nat
    requires n > 0
  {
    (start + i) % n
  }

  /** The first `i` seats, going clockwise from `start`, topped up in turn. */
  function ReplenishFrom(t: Table, start: nat, i: nat): (r: Table)
    requires |t.hands| > 0
    ensures |r.hands| == |t.hands|
  {
    if i == 0 then t else TopUp(ReplenishFrom(t, start, i - 1), Clockwise(start, i - 1, |t.hands|))
  }

  /** `replenish_hands`: every seat topped up in turn, starting at `start` and going clockwise. */
  function Replenish(t: Table, start: nat): (r: Table)
    requires |t.hands| > 0
    ensures |r.hands| == |t.hands|
  {
    ReplenishFrom(t, start, |t.hands|)
  }

  /** Clockwise top-ups lose no card and draw from the deck's end only. */
  lemma {:induction false} ReplenishFromConserves(t: Table, start: nat, i: nat)
    requires |t.hands| > 0
    ensures Bag(ReplenishFrom(t, start, i)) == Bag(t)
    ensures |ReplenishFrom(t, start, i).deck| <= |t.deck|
    ensures ReplenishFrom(t, start, i).deck == t.deck[..|ReplenishFrom(t, start, i).deck|]
  {
    if i > 0 {
      var p := ReplenishFrom(t, start, i - 1);
      ReplenishFromConserves(t, start, i - 1);
      TopUpConserves(p, Clockwise(start, i - 1, |t.hands|));
      var r := ReplenishFrom(t, start, i);
      assert r.deck == p.deck[..|r.deck|];
    }
  }

  /** Clockwise top-ups only add cards to hands, and never take a hand of at most 3 cards past 3. */
  lemma {:induction false} ReplenishFromGrows(t: Table, start: nat, i: nat)
    requires |t.hands| > 0
    ensures forall q :: 0 <= q < |t.hands| ==> t.hands[q] <= ReplenishFrom(t, start, i).hands[q]
    ensures forall q :: 0 <= q < |t.hands| && |t.hands[q]| <= 3 ==> |ReplenishFrom(t, start, i).hands[q]| <= 3
  {
    if i > 0 {
      var p := ReplenishFrom(t, start, i - 1);
      var seat := Clockwise(start, i - 1, |t.hands|);
      ReplenishFromGrows(t, start, i - 1);
      TopUpHands(p, seat);
      var r := ReplenishFrom(t, start, i);
      forall q | 0 <= q < |t.hands|
        ensures t.hands[q] <= r.hands[q]
        ensures |t.hands[q]| <= 3 ==> |r.hands[q]| <= 3
      {
        assert t.hands[q] <= p.hands[q] && p.hands[q] <= r.hands[q];
      }
    }
  }

  /** After `i` clockwise top-ups, every seat visited holds at least 3 cards unless the deck has run out. */
  lemma {:induction false} ReplenishFromFills(t: Table, start: nat, i: nat)
    requires |t.hands| > 0
    ensures forall j :: 0 <= j < i ==>
      ReplenishFrom(t, start, i).deck == [] || |ReplenishFrom(t, start, i).hands[Clockwise(start, j, |t.hands|)]| >= 3
  {
    if i > 0 {
      var n := |t.hands|;
      var p := ReplenishFrom(t, start, i - 1);
      ReplenishFromFills(t, start, i - 1);
      TopUpHands(p, Clockwise(start, i - 1, n));
      TopUpConserves(p, Clockwise(start, i - 1, n));
      var r := ReplenishFrom(t, start, i);
      forall j | 0 <= j < i ensures r.deck == [] || |r.hands[Clockwise(start, j, n)]| >= 3 {
        var q := Clockwise(start, j, n);
        if j < i - 1 && r.deck != [] {
          assert p.deck != [];
          assert p.hands[q] <= r.hands[q];
        }
      }
    }
  }

  /** Every seat is visited once the clockwise walk has gone all the way round. */
  lemma ClockwiseCovers(start: nat, q: nat, n: nat)
    requires start < n && q < n
    ensures exists j :: 0 <= j < n && Clockwise(start, j, n) == q
  {
    if q >= start {
      SmallMod(q, n);
      assert Clockwise(start, q - start, n) == q;
    } else {
      ModWrap(q + n, n);
      assert Clockwise(start, q + n - start, n) == q;
    }
  }

  /**
   * `replenish_hands` loses no card, keeps every hand within 3 cards, and
   * leaves every hand with 3 cards unless the deck has run out.
   */
  lemma ReplenishShape(t: Table, start: nat)
    requires |t.hands| > 0 && start < |t.hands|
    requires forall q :: 0 <= q < |t.hands| ==> |t.hands[q]| <= 3
    ensures Bag(Replenish(t, start)) == Bag(t)
    ensures HandsSize(Replenish(t, start).hands) + |Replenish(t, start).deck| == HandsSize(t.hands) + |t.deck|
    ensures |Replenish(t, start).deck| <= |t.deck|
    ensures Replenish(t, start).deck == t.deck[..|Replenish(t, start).deck|]
    ensures forall q :: 0 <= q < |t.hands| ==> t.hands[q] <= Replenish(t, start).hands[q] && |Replenish(t, start).hands[q]| <= 3
    ensures Replenish(t, start).deck == [] || forall q :: 0 <= q < |t.hands| ==> |Replenish(t, start).hands[q]| == 3
  {
    var n := |t.hands|;
    var r := Replenish(t, start);
    ReplenishFromConserves(t, start, n);
    ReplenishFromGrows(t, start, n);
    ReplenishFromFills(t, start, n);
    HandsBagSize(t.hands);
    HandsBagSize(r.hands);
    assert |Bag(r)| == |Bag(t)|;
    if r.deck != [] {
      forall q | 0 <= q < n ensures |r.hands[q]| == 3 {
        ClockwiseCovers(start, q, n);
        var j :| 0 <= j < n && Clockwise(start, j, n) == q;
      }
    }
  }

  /** Seats visited after the first are never the first seat again within one walk round. */
  lemma ClockwiseAvoidsStart(start: nat, i: nat, n: nat)
    requires start < n && 0 < i < n
    ensures Clockwise(start, i, n) != start
  {
    if start + i >= n {
      ModWrap(start + i, n);
    } else {
      SmallMod(start + i, n);
    }
  }

  /**
   * The trick winner draws first: the hand the starting seat ends with is the
   * one it gets by topping up from the whole deck before anybody else draws.
   */
  lemma {:induction false} StartDrawsFirst(t: Table, start: nat, i: nat)
    requires |t.hands| > 0 && start < |t.hands| && 1 <= i <= |t.hands|
    ensures ReplenishFrom(t, start, i).hands[start] == TopUp(t, start).hands[start]
  {
    if i > 1 {
      StartDrawsFirst(t, start, i - 1);
      ClockwiseAvoidsStart(start, i - 1, |t.hands|);
      TopUpOthers(ReplenishFrom(t, start, i - 1), Clockwise(start, i - 1, |t.hands|), start);
    } else {
      SmallMod(start, |t.hands|);
    }
  }

  // ---------------------------------------------------------------------
  // One whole resolve_trick
  // ---------------------------------------------------------------------

  /** The scoring half of resolve_trick: the credited scores and the seat that leads next. */
  datatype Scoring = Scoring(scores: seq<int>, leader: nat)

  /**
   * The scoring half of resolve_trick on values: the trick's points go to
   * the player at the seat numbered by the winning card's POSITION in the
   * trick (and to that player's team), and the next leader is
   * `players.index` of that player after scoring.
   */
  function Score(trick: seq<Card>, trump: Suit, names: seq<string>, teams: seq<Option<int>>,
                 hands: seq<seq<Card>>, scores: seq<int>): (r: Scoring)
    requires trick != [] && |trick| <= |names|
    requires |teams| == |names| && |hands| == |names| && |scores| == |names|
    ensures r.leader < |names| && |r.scores| == |names|
  {
    var k := IndexOf(trick, WinningCard(trick, trump));
    var credited := Credit(scores, teams, k, Points(trick));
    var vs := Views(names, hands, credited, teams);
    Scoring(credited, IndexOf(vs, vs[k]))
  }

  /** What resolve_trick leaves behind: the credited scores, the seat that leads next and the replenished hands and deck. */
  datatype Resolution = Resolution(scores: seq<int>, leader: nat, table: Table)

  /** resolve_trick on values: scoring, then hands replenished clockwise from the next leader. */
  function Resolve(trick: seq<Card>, trump: Suit, names: seq<string>, teams: seq<Option<int>>,
                   hands: seq<seq<Card>>, scores: seq<int>, deck: seq<Card>): (r: Resolution)
    requires trick != [] && |trick| <= |names|
    requires |teams| == |names| && |hands| == |names| && |scores| == |names|
    ensures r.leader < |names| && |r.scores| == |names| && |r.table.hands| == |names|
  {
    var sc := Score(trick, trump, names, teams, hands, scores);
    Resolution(sc.scores, sc.leader, Replenish(Table(hands, deck), sc.leader))
  }

  /**
   * Resolving a trick of cards worth at least nothing: no card in hands or
   * deck is lost, hands stay within 3 and are full unless the deck ran out,
   * scores only grow, a player without a team gains exactly the trick's
   * points, the next leader is the winning card's position when names are
   * distinct, and that leader draws first.
   */
  lemma ResolveShape(trick: seq<Card>, trump: Suit, names: seq<string>, teams: seq<Option<int>>,
                     hands: seq<seq<Card>>, scores: seq<int>, deck: seq<Card>)
    requires trick != [] && |trick| <= |names|
    requires |teams| == |names| && |hands| == |names| && |scores| == |names|
    requires forall q :: 0 <= q < |hands| ==> |hands[q]| <= 3
    requires forall i :: 0 <= i < |trick| ==> trick[i].value >= 0
    ensures var r := Resolve(trick, trump, names, teams, hands, scores, deck);
      && Bag(r.table) == Bag(Table(hands, deck))
      && HandsSize(r.table.hands) + |r.table.deck| == HandsSize(hands) + |deck|
      && (forall q :: 0 <= q < |hands| ==> |r.table.hands[q]| <= 3)
      && (r.table.deck == [] || forall q :: 0 <= q < |hands| ==> |r.table.hands[q]| == 3)
      && (forall i :: 0 <= i < |scores| ==> scores[i] <= r.scores[i])
      && (NoTeams(teams) ==> Sum(r.scores) == Sum(scores) + Points(trick))
      && (Distinct(names) ==> r.leader == IndexOf(trick, WinningCard(trick, trump)))
      && r.table.hands[r.leader] == TopUp(Table(hands, deck), r.leader).hands[r.leader]
  {
    var k := IndexOf(trick, WinningCard(trick, trump));
    var credited := Credit(scores, teams, k, Points(trick));
    var vs := Views(names, hands, credited, teams);
    var seat := IndexOf(vs, vs[k]);
    PointsNonNegative(trick);
    ReplenishShape(Table(hands, deck), seat);
    StartDrawsFirst(Table(hands, deck), seat, |names|);
    SeatLookup(names, hands, credited, teams, k);
    if NoTeams(teams) {
      CreditSolo(scores, teams, k, Points(trick));
    }
  }

  // ---------------------------------------------------------------------
  // Whose card won
  // ---------------------------------------------------------------------

  /**
   * The seat that played trick position `k` when seat `leader` led and each
   * play passed the turn to `(seat + 1) % n`, as play_turn does: the seat a
   * trick's points are meant for.
   */
  function SeatOfPosition(leader: nat, k: nat, n: nat): (s: nat)
    requires leader < n
    ensures s < n
  {
    if k == 0 then leader else (SeatOfPosition(leader, k - 1, n) + 1) % n
  }

  /**
   * Taking the trick position for the seat, as resolve_trick does, names the
   * player who played the card in every position exactly when seat 0 led the
   * trick.
   */
  lemma {:induction false} PositionIsSeatOnlyFromSeatZero(leader: nat, n: nat)
    requires leader < n
    ensures (forall k :: 0 <= k < n ==> SeatOfPosition(leader, k, n) == k) <==> leader == 0
  {
    if leader == 0 {
      forall k | 0 <= k < n ensures SeatOfPosition(0, k, n) == k {
        SeatZeroCounts(k, n);
      }
    } else {
      assert 0 < n && SeatOfPosition(leader, 0, n) != 0;
    }
  }

  lemma {:induction false} SeatZeroCounts(k: nat, n: nat)
    requires k < n
    ensures SeatOfPosition(0, k, n) == k
  {
    if k > 0 {
      SeatZeroCounts(k - 1, n);
      SmallMod(k, n);
    }
  }

  /** Proof step: one unfolding of `SeatOfPosition` (SeatOfPositionIs gives its closed form). */
  lemma SeatOfNextPosition(leader: nat, k: nat, n: nat)
    requires leader < n
    ensures SeatOfPosition(leader, k + 1, n) == (SeatOfPosition(leader, k, n) + 1) % n
  {
  }

  /** Within one round of the table, the seat at trick position `k` is `(leader + k) % n`. */
  lemma {:induction false} SeatOfPositionIs(leader: nat, k: nat, n: nat)
    requires leader < n && k < n
    ensures SeatOfPosition(leader, k, n) == (leader + k) % n
  {
    if k == 0 {
      SmallMod(leader, n);
    } else {
      SeatOfPositionIs(leader, k - 1, n);
      if leader + k - 1 < n {
        SmallMod(leader + k - 1, n);
        if leader + k < n {
          SmallMod(leader + k, n);
        } else {
          ModWrap(leader + k, n);
        }
      } else {
        ModWrap(leader + k - 1, n);
        SmallMod(leader + k - n, n);
        ModWrap(leader + k, n);
      }
    }
  }

  /** The seat after the one that played the last card of a full trick is the seat that led it. */
  lemma LeaderAfterLast(leader: nat, n: nat)
    requires leader < n
    ensures (SeatOfPosition(leader, n - 1, n) + 1) % n == leader
  {
    SeatOfPositionIs(leader, n - 1, n);
    if leader == 0 {
      SmallMod(n - 1, n);
      ModWrap(n, n);
    } else {
      ModWrap(leader + n - 1, n);
      SmallMod(leader, n);
    }
  }

  /** Counting on from the seat after the one that played the last card of a full trick finds every card's seat. */
  lemma SeatFromLast(leader: nat, k: nat, n: nat)
    requires leader < n && k < n
    ensures ((SeatOfPosition(leader, n - 1, n) + 1) % n + k) % n == SeatOfPosition(leader, k, n)
  {
    LeaderAfterLast(leader, n);
    SeatOfPositionIs(leader, k, n);
  }

  lemma SmallMod(k: int, n: int)
    requires 0 <= k < n
    ensures k % n == k
  {
  }

  lemma ModWrap(k: int, n: int)
    requires 0 < n <= k < 2 * n
    ensures k % n == k - n
  {
    assert k == n + (k - n);
  }

  /**
   * The intended scoring: the trick's points go to the seat that played the
   * winning card, `leader` being the seat that played the first card (and to
   * that seat's team), and that seat leads next.
   */
  function ScoreBySeat(trick: seq<Card>, trump: Suit, teams: seq<Option<int>>, scores: seq<int>, leader: nat): (r: Scoring)
    requires trick != [] && |trick| <= |scores| && |teams| == |scores| && leader < |scores|
    ensures r.leader < |scores| && |r.scores| == |scores|
  {
    var seat := SeatOfPosition(leader, IndexOf(trick, WinningCard(trick, trump)), |scores|);
    Scoring(Credit(scores, teams, seat, Points(trick)), seat)
  }

  /** Proof step: the intended scoring unfolded at a known seat (ScoreBySeatCredits states whom it credits). */
  lemma ScoreBySeatAt(trick: seq<Card>, trump: Suit, teams: seq<Option<int>>, scores: seq<int>, leader: nat, seat: nat)
    requires trick != [] && |trick| <= |scores| && |teams| == |scores| && leader < |scores|
    requires seat == SeatOfPosition(leader, IndexOf(trick, WinningCard(trick, trump)), |scores|)
    ensures ScoreBySeat(trick, trump, teams, scores, leader) == Scoring(Credit(scores, teams, seat, Points(trick)), seat)
  {
  }

  /** Without teams, the intended scoring adds the trick's points to the winning card's player alone, who leads next. */
  lemma ScoreBySeatCredits(trick: seq<Card>, trump: Suit, teams: seq<Option<int>>, scores: seq<int>, leader: nat)
    requires trick != [] && |trick| <= |scores| && |teams| == |scores| && leader < |scores|
    requires NoTeams(teams)
    ensures var seat := SeatOfPosition(leader, IndexOf(trick, WinningCard(trick, trump)), |scores|);
      var r := ScoreBySeat(trick, trump, teams, scores, leader);
      && r.leader == seat
      && r.scores[seat] == scores[seat] + Points(trick)
      && (forall i :: 0 <= i < |scores| && i != seat ==> r.scores[i] == scores[i])
  {
    var seat := SeatOfPosition(leader, IndexOf(trick, WinningCard(trick, trump)), |scores|);
    CreditSolo(scores, teams, seat, Points(trick));
  }

  /**
   * Two players, the second trick led by seat 1 (which took the first): seat
   * 1's Asso of the lead suit beats seat 0's Due, but its 11 points go to
   * players[0], the holder of position 0 in the player list.
   */
  lemma CreditGoesByPosition()
    ensures var trick := [Card(Asso, Coppe, 11), Card(Due, Coppe, 0)];
      && WinningCard(trick, Denari) == trick[0]
      && IndexOf(trick, WinningCard(trick, Denari)) == 0
      && SeatOfPosition(1, 0, 2) == 1
      && Credit([0, 0], [None, None], IndexOf(trick, WinningCard(trick, Denari)), Points(trick)) == [11, 0]
  {
    var trick := [Card(Asso, Coppe, 11), Card(Due, Coppe, 0)];
    assert OfSuit(trick, Denari) == [];
    assert OfSuit(trick, Coppe) == trick;
  }

  // ---------------------------------------------------------------------
  // Worked tricks
  // ---------------------------------------------------------------------

  /** With no briscola played, the higher-valued card of the lead suit wins: Tre beats Re. */
  lemma HigherLeadCardWins()
    ensures WinningCard([Card(Re, Denari, 4), Card(Tre, Denari, 10)], Coppe) == Card(Tre, Denari, 10)
  {
    assert OfSuit([Card(Re, Denari, 4), Card(Tre, Denari, 10)], Coppe) == [];
  }

  /** Equal values are not ranked: of two 0-point cards of the lead suit the first played wins, even a Due over a Quattro. */
  lemma TieGoesToFirst()
    ensures WinningCard([Card(Due, Denari, 0), Card(Quattro, Denari, 0)], Spade) == Card(Due, Denari, 0)
  {
    assert OfSuit([Card(Due, Denari, 0), Card(Quattro, Denari, 0)], Spade) == [];
  }

  /** A card of neither the lead nor the briscola suit never wins: the led Asso of Coppe beats a Re of Spade when Denari is briscola. */
  lemma OffSuitLoses()
    ensures WinningCard([Card(Asso, Coppe, 11), Card(Re, Spade, 4)], Denari) == Card(Asso, Coppe, 11)
  {
    assert OfSuit([Card(Asso, Coppe, 11), Card(Re, Spade, 4)], Denari) == [];
  }

  /** Any briscola beats the lead suit: a Due of Denari takes an Asso of Coppe when Denari is briscola. */
  lemma BriscolaBeatsLead()
    ensures WinningCard([Card(Asso, Coppe, 11), Card(Due, Denari, 0)], Denari) == Card(Due, Denari, 0)
  {
  }

  // ---------------------------------------------------------------------
  // get_winner
  // ---------------------------------------------------------------------

  /** `max(range(len(scores)), key=scores)`: the first seat with the greatest score. */
  function FirstMaxSeat(scores: seq<int>): (k: nat)
    requires scores != []
    ensures k < |scores|
    ensures forall i :: 0 <= i < |scores| ==> scores[i] <= scores[k]
    ensures forall i :: 0 <= i < k ==> scores[i] < scores[k]
  {
    if |scores| == 1 then 0
    else
      var k' := FirstMaxSeat(scores[1..]);
      assert forall i :: 1 <= i < |scores| ==> scores[i] == scores[1..][i - 1];
      if scores[1..][k'] > scores[0] then k' + 1 else 0
  }
}
