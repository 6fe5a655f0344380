/**
 * A player (briscola/player.py): a hand of cards, a score and an optional
 * team.  The name and the team are fixed when the player is created; the hand
 * and the score are updated in place.
 */
module Players {
  import opened Wrappers
  import opened Lists
  import opened CardDeck

  datatype PlayError = CardNotInHand

  /** `any(card.suit == s for card in cards)`. */
  function AnyOfSuit(cards: seq<Card>, s: Suit): (b: bool)
    ensures b <==> exists i :: 0 <= i < |cards| && cards[i].suit == s
  {
    if cards == [] then false
    else if cards[0].suit == s then true
    else
      var rest := AnyOfSuit(cards[1..], s);
      assert rest ==> exists i :: 0 < i < |cards| && cards[i].suit == s by {
        if rest {
          var i :| 0 <= i < |cards[1..]| && cards[1..][i].suit == s;
          assert cards[i + 1].suit == s;
        }
      }
      assert (exists i :: 0 <= i < |cards| && cards[i].suit == s) ==> rest by {
        if exists i :: 0 <= i < |cards| && cards[i].suit == s {
          var i :| 0 <= i < |cards| && cards[i].suit == s;
          assert cards[1..][i - 1].suit == s;
        }
      }
      rest
  }

  class Player {
    const name: string
    const team: Option<int>
    var hand: seq<Card>
    var score: int

    /** A new player with an empty hand and no points. */
    constructor(name: string, team: Option<int>)
      ensures this.name == name && this.team == team
      ensures hand == [] && score == 0
    {
      this.name := name;
      this.team := team;
      hand := [];
      score := 0;
    }

    /**
     * Removes the first occurrence of `card` from the hand and returns it;
     * raises (here: fails with CardNotInHand) and leaves the hand as it was
     * when the card is not in the hand.
     */
    method PlayCard(card: Card) returns (r: Result<Card, PlayError>)
      modifies this`hand
      ensures card in old(hand) ==> r == Success(card) && hand == RemoveFirst(old(hand), card)
      ensures card !in old(hand) ==> r == Failure(CardNotInHand) && hand == old(hand)
    {
      if card in hand {
        hand := RemoveFirst(hand, card);
        r := Success(card);
      } else {
        r := Failure(CardNotInHand);
      }
    }

    /** Appends `card` to the hand. */
    method AddCard(card: Card)
      modifies this`hand
      ensures hand == old(hand) + [card]
    {
      hand := hand + [card];
    }

    /** Adds `points` to the score. */
    method AddToScore(points: int)
      modifies this`score
      ensures score == old(score) + points
    {
      score := score + points;
    }

    /** The number of cards in the hand. */
    function GetHandSize(): (n: nat)
      reads this
      ensures n == |hand|
    {
      |hand|
    }

    /** Whether some card in the hand has the briscola suit `s`. */
    function HasBriscola(s: Suit): (b: bool)
      reads this
      ensures b <==> exists c :: c in hand && c.suit == s
    {
      AnyOfSuit(hand, s)
    }

    /** Every card in the hand is playable: a copy of the hand, whatever the lead suit. */
    function GetPlayableCards(leadSuit: Option<Suit>): (r: seq<Card>)
      reads this
      ensures r == hand
    {
      hand
    }
  }

  /** Playing a held card takes exactly its first occurrence out of the hand, keeping the rest in order. */
  lemma PlayRemovesFirstOccurrence(hand: seq<Card>, card: Card)
    requires card in hand
    ensures |RemoveFirst(hand, card)| == |hand| - 1
    ensures RemoveFirst(hand, card) == hand[..IndexOf(hand, card)] + hand[IndexOf(hand, card) + 1..]
    ensures multiset(RemoveFirst(hand, card)) + multiset{card} == multiset(hand)
  {
    RemoveFirstAt(hand, card);
  }
}
