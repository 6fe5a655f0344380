/**
 * Cards and the deck of the Neapolitan Briscola pack (briscola/deck.py).
 *
 * A card is an immutable value.  The deck is a list of cards built once in
 * suit-major order, permuted in place by `Shuffle` and drawn from the END of
 * the list by `Draw`.
 */
module CardDeck {
  import opened Wrappers
  import opened Lists

  datatype Rank = Due | Quattro | Cinque | Sei | Sette | Fante | Cavallo | Re | Tre | Asso

  datatype Suit = Denari | Spade | Coppe | Bastoni

  /** A frozen card: its point value is stored with it. */
  datatype Card = Card(rank: Rank, suit: Suit, value: int)

  /** The RANKS table, in the order the deck is built. */
  const Ranks: seq<Rank> := [Due, Quattro, Cinque, Sei, Sette, Fante, Cavallo, Re, Tre, Asso]

  /** The SUITS table, in the order the deck is built. */
  const Suits: seq<Suit> := [Denari, Spade, Coppe, Bastoni]

  /** The VALUES table: the point value of each rank. */
  function Value(r: Rank): nat
  {
    match r
    case Due => 0
    case Quattro => 0
    case Cinque => 0
    case Sei => 0
    case Sette => 0
    case Fante => 2
    case Cavallo => 3
    case Re => 4
    case Tre => 10
    case Asso => 11
  }

  /** The position of a rank in RANKS. */
  function RankIndex(r: Rank): (i: nat)
    ensures i < |Ranks| && Ranks[i] == r
  {
    match r
    case Due => 0
    case Quattro => 1
    case Cinque => 2
    case Sei => 3
    case Sette => 4
    case Fante => 5
    case Cavallo => 6
    case Re => 7
    case Tre => 8
    case Asso => 9
  }

  /** The position of a suit in SUITS. */
  function SuitIndex(s: Suit): (i: nat)
    ensures i < |Suits| && Suits[i] == s
  {
    match s
    case Denari => 0
    case Spade => 1
    case Coppe => 2
    case Bastoni => 3
  }

  /**
   * The deck as `Deck.__init__` builds it, before shuffling: the comprehension
   * `[Card(r, s, VALUES[r]) for s in SUITS for r in RANKS]`, whose card `i` is
   * rank `i % 10` of suit `i / 10`.
   */
  function FullDeck(): (d: seq<Card>)
    ensures |d| == 40
  {
    seq(|Suits| * |Ranks|, i requires 0 <= i < |Suits| * |Ranks| =>
      Card(Ranks[i % |Ranks|], Suits[i / |Ranks|], Value(Ranks[i % |Ranks|])))
  }

  /** `sum(card.value for card in cards)`. */
  function Points(cards: seq<Card>): int
  {
    if cards == [] then 0 else cards[0].value + Points(cards[1..])
  }

  /** Points distribute over concatenation. */
  lemma {:induction false} PointsAppend(a: seq<Card>, b: seq<Card>)
    ensures Points(a + b) == Points(a) + Points(b)
  {
    if a == [] {
      assert a + b == b;
    } else {
      assert (a + b)[0] == a[0];
      assert (a + b)[1..] == a[1..] + b;
      PointsAppend(a[1..], b);
    }
  }

  /** Cards of non-negative value add up to a non-negative number of points. */
  lemma {:induction false} PointsNonNegative(cards: seq<Card>)
    requires forall i :: 0 <= i < |cards| ==> cards[i].value >= 0
    ensures Points(cards) >= 0
  {
    if cards != [] {
      PointsNonNegative(cards[1..]);
    }
  }

  /** Proof step: card `i` of the fresh deck, unfolded (FullDeckMember and FullDeckOnce state what the pack holds). */
  lemma FullDeckAt(i: nat)
    requires i < 40
    ensures |FullDeck()| == 40
    ensures FullDeck()[i] == Card(Ranks[i % 10], Suits[i / 10], Value(Ranks[i % 10]))
  {
  }

  /** A fresh deck holds 40 cards and no card twice. */
  lemma FullDeckDistinct()
    ensures |FullDeck()| == 40
    ensures Distinct(FullDeck())
  {
    forall i, j | 0 <= i < j < 40 ensures FullDeck()[i] != FullDeck()[j] {
      FullDeckAt(i);
      FullDeckAt(j);
    }
  }

  /** A card is in a fresh deck exactly when its value is the one VALUES gives its rank. */
  lemma FullDeckMember(c: Card)
    ensures c in FullDeck() <==> c.value == Value(c.rank)
  {
    if c in FullDeck() {
      var i :| 0 <= i < |FullDeck()| && FullDeck()[i] == c;
      FullDeckAt(i);
    } else {
      var i := 10 * SuitIndex(c.suit) + RankIndex(c.rank);
      FullDeckAt(i);
      assert i % 10 == RankIndex(c.rank) && i / 10 == SuitIndex(c.suit);
      assert FullDeck()[i] == Card(c.rank, c.suit, Value(c.rank));
    }
  }

  /** A fresh deck holds exactly one card of each (rank, suit) pair, each with its VALUES value. */
  lemma FullDeckOnce(c: Card)
    ensures multiset(FullDeck())[c] == if c.value == Value(c.rank) then 1 else 0
  {
    FullDeckDistinct();
    DistinctOnce(FullDeck(), c);
    FullDeckMember(c);
  }

  /** Every card in a fresh deck is worth at least nothing. */
  lemma FullDeckValues(c: Card)
    requires c in FullDeck()
    ensures c.value == Value(c.rank) && c.value >= 0
  {
    FullDeckMember(c);
  }

  /** The ten cards of suit `s` in a fresh deck, one per rank in RANKS order. */
  lemma SuitRow(s: Suit)
    ensures var row := FullDeck()[10 * SuitIndex(s)..10 * SuitIndex(s) + 10];
      |row| == 10 && forall i | 0 <= i < 10 :: row[i] == Card(Ranks[i], s, Value(Ranks[i]))
  {
    var row := FullDeck()[10 * SuitIndex(s)..10 * SuitIndex(s) + 10];
    forall i | 0 <= i < 10 ensures row[i] == Card(Ranks[i], s, Value(Ranks[i])) {
      FullDeckAt(10 * SuitIndex(s) + i);
      assert (10 * SuitIndex(s) + i) % 10 == i && (10 * SuitIndex(s) + i) / 10 == SuitIndex(s);
    }
  }

  /** Ten cards valued as the ten ranks of RANKS, in that order, are worth 30 points. */
  lemma RowPoints(row: seq<Card>)
    requires |row| == 10
    requires row[0].value == 0 && row[1].value == 0 && row[2].value == 0 && row[3].value == 0
    requires row[4].value == 0 && row[5].value == 2 && row[6].value == 3 && row[7].value == 4
    requires row[8].value == 10 && row[9].value == 11
    ensures Points(row) == 30
  {
    assert Points(row[9..]) == 11;
    assert Points(row[8..]) == 21;
    assert Points(row[7..]) == 25;
    assert Points(row[6..]) == 28;
    assert Points(row[5..]) == 30;
    assert Points(row[4..]) == 30;
    assert Points(row[3..]) == 30;
    assert Points(row[2..]) == 30;
    assert Points(row[1..]) == 30;
    assert row[0..] == row;
  }

  lemma SuitRowPoints(s: Suit)
    ensures Points(FullDeck()[10 * SuitIndex(s)..10 * SuitIndex(s) + 10]) == 30
  {
    SuitRow(s);
    RowPoints(FullDeck()[10 * SuitIndex(s)..10 * SuitIndex(s) + 10]);
  }

  /** The point values of a full deck add up to 120. */
  lemma FullDeckPoints()
    ensures Points(FullDeck()) == 120
  {
    SuitRowPoints(Denari);
    SuitRowPoints(Spade);
    SuitRowPoints(Coppe);
    SuitRowPoints(Bastoni);
    PointsByTens(FullDeck());
  }

  /** The points of 40 cards are the points of its four runs of ten. */
  lemma PointsByTens(d: seq<Card>)
    requires |d| == 40
    ensures Points(d) == Points(d[0..10]) + Points(d[10..20]) + Points(d[20..30]) + Points(d[30..40])
  {
    assert d == d[0..10] + d[10..20] + d[20..30] + d[30..40];
    PointsAppend(d[0..10] + d[10..20] + d[20..30], d[30..40]);
    PointsAppend(d[0..10] + d[10..20], d[20..30]);
    PointsAppend(d[0..10], d[10..20]);
  }

  /** The list `s` with positions `i` and `j` exchanged. */
  function Swap(s: seq<Card>, i: nat, j: nat): (r: seq<Card>)
    requires i < |s| && j < |s|
    ensures |r| == |s| && r[i] == s[j] && r[j] == s[i]
    ensures forall k :: 0 <= k < |s| && k != i && k != j ==> r[k] == s[k]
  {
    s[i := s[j]][j := s[i]]
  }

  /**
   * Python's `random.shuffle` from position `i` down to position 1: position
   * `i` is exchanged with position `rand(i) % (i + 1)`, then the same is done
   * from position `i - 1`.
   */
  function ShuffleDown(s: seq<Card>, rand: nat -> nat, i: int): (r: seq<Card>)
    requires i < |s|
    ensures |r| == |s|
    decreases i
  {
    if i <= 0 then s else ShuffleDown(Swap(s, i, rand(i) % (i + 1)), rand, i - 1)
  }

  /** `random.shuffle(s)`, with `rand(i)` standing for the random draw made at position `i`. */
  function Shuffled(s: seq<Card>, rand: nat -> nat): (r: seq<Card>)
    ensures |r| == |s|
  {
    ShuffleDown(s, rand, |s| - 1)
  }

  /** Exchanging two positions keeps the same cards, as many times each. */
  lemma SwapPermutes(s: seq<Card>, i: nat, j: nat)
    requires i < |s| && j < |s|
    ensures multiset(Swap(s, i, j)) == multiset(s)
  {
  }

  /** Each exchange of the pass keeps the same cards. */
  lemma {:induction false} ShuffleDownPermutes(s: seq<Card>, rand: nat -> nat, i: int)
    requires i < |s|
    ensures multiset(ShuffleDown(s, rand, i)) == multiset(s)
    decreases i
  {
    if i > 0 {
      SwapPermutes(s, i, rand(i) % (i + 1));
      ShuffleDownPermutes(Swap(s, i, rand(i) % (i + 1)), rand, i - 1);
    }
  }

  /** A shuffle is a permutation: the same cards, as many times each, in some order. */
  lemma ShuffledPermutes(s: seq<Card>, rand: nat -> nat)
    ensures multiset(Shuffled(s, rand)) == multiset(s)
  {
    ShuffleDownPermutes(s, rand, |s| - 1);
  }

  datatype DeckError = EmptyDeck

  /** The deck: a list of cards, drawn from its end. */
  class Deck {
    var cards: seq<Card>

    /** Builds the 40 cards and shuffles them with the random source `rand`. */
    constructor(rand: nat -> nat)
      ensures cards == Shuffled(FullDeck(), rand)
      ensures |cards| == 40
      ensures multiset(cards) == multiset(FullDeck())
    {
      cards := FullDeck();
      new;
      Shuffle(rand);
    }

    /**
     * The Fisher-Yates pass of Python's `random.shuffle`: for i from the last
     * position down to 1, swap position i with position j, where j is the
     * random source's draw reduced below i + 1.
     */
    method Shuffle(rand: nat -> nat)
      modifies this
      ensures cards == Shuffled(old(cards), rand)
      ensures multiset(cards) == multiset(old(cards))
    {
      var i := |cards| - 1;
      while i > 0
        invariant i < |cards|
        invariant ShuffleDown(cards, rand, i) == Shuffled(old(cards), rand)
      {
        var j := rand(i) % (i + 1);
        cards := cards[i := cards[j]][j := cards[i]];
        i := i - 1;
      }
      ShuffledPermutes(old(cards), rand);
    }

    /** Pops the last card; raises (here: fails with EmptyDeck) when no card is left. */
    method Draw() returns (r: Result<Card, DeckError>)
      modifies this
      ensures old(cards) == [] ==> r == Failure(EmptyDeck) && cards == old(cards)
      ensures old(cards) != [] ==>
        r == Success(old(cards)[|old(cards)| - 1]) && cards == old(cards)[..|old(cards)| - 1]
      ensures old(cards) != [] ==> old(cards) == cards + [r.value]
    {
      if cards == [] {
        r := Failure(EmptyDeck);
      } else {
        r := Success(cards[|cards| - 1]);
        cards := cards[..|cards| - 1];
      }
    }

    /** `len(deck)`: the number of cards left. */
    function Len(): (n: nat)
      reads this
      ensures n == |cards|
      ensures n == 0 <==> cards == []
    {
      |cards|
    }
  }
}
