/** Cards, hands and the single-player game state of five-card draw poker. */
module Models {

  /** A value that may be missing. */
  datatype Option<T> = None | Some(value: T)

  /** The four suits, in declaration order. */
  datatype Suit = Hearts | Diamonds | Clubs | Spades

  /** The thirteen ranks, in declaration order (lowest first). */
  datatype Rank = Two | Three | Four | Five | Six | Seven | Eight | Nine | Ten
                | Jack | Queen | King | Ace

  /** The text value of a suit. */
  function SuitText(s: Suit): string
  {
    match s
    case Hearts => "Hearts"
    case Diamonds => "Diamonds"
    case Clubs => "Clubs"
    case Spades => "Spades"
  }

  /** The text value of a rank. */
  function RankText(r: Rank): string
  {
    match r
    case Two => "2"
    case Three => "3"
    case Four => "4"
    case Five => "5"
    case Six => "6"
    case Seven => "7"
    case Eight => "8"
    case Nine => "9"
    case Ten => "10"
    case Jack => "J"
    case Queen => "Q"
    case King => "K"
    case Ace => "A"
  }

  /** Iterating over the suit enumeration: every suit once, in declaration order. */
  function AllSuits(): (r: seq<Suit>)
    ensures |r| == 4
    ensures forall s: Suit :: r[SuitIndex(s)] == s
    ensures forall i :: 0 <= i < |r| ==> SuitIndex(r[i]) == i
    ensures forall i :: 0 <= i < |r| ==> SuitText(r[i]) == ["Hearts", "Diamonds", "Clubs", "Spades"][i]
  {
    [Hearts, Diamonds, Clubs, Spades]
  }

  /** Iterating over the rank enumeration: every rank once, in declaration order. */
  function AllRanks(): (r: seq<Rank>)
    ensures |r| == 13
    ensures forall k: Rank :: r[RankIndex(k)] == k
    ensures forall i :: 0 <= i < |r| ==> RankIndex(r[i]) == i
    ensures forall i :: 0 <= i < |r| ==>
      RankText(r[i]) == ["2", "3", "4", "5", "6", "7", "8", "9", "10", "J", "Q", "K", "A"][i]
  {
    [Two, Three, Four, Five, Six, Seven, Eight, Nine, Ten, Jack, Queen, King, Ace]
  }

  /** The position of a suit in declaration order. */
  function SuitIndex(s: Suit): (i: nat)
    ensures i < 4
  {
    match s
    case Hearts => 0
    case Diamonds => 1
    case Clubs => 2
    case Spades => 3
  }

  /** The position of a rank in declaration order. */
  function RankIndex(k: Rank): (i: nat)
    ensures i < 13
  {
    match k
    case Two => 0
    case Three => 1
    case Four => 2
    case Five => 3
    case Six => 4
    case Seven => 5
    case Eight => 6
    case Nine => 7
    case Ten => 8
    case Jack => 9
    case Queen => 10
    case King => 11
    case Ace => 12
  }

  /** A playing card; equality is structural, by suit and rank. */
  datatype Card = Card(suit: Suit, rank: Rank)

  /** The printed form of a card, such as "A of Hearts". */
  function CardText(c: Card): (r: string)
    ensures var n := |RankText(c.rank)|;
      |r| == n + 4 + |SuitText(c.suit)| && r[..n] == RankText(c.rank) &&
      r[n..n + 4] == " of " && r[n + 4..] == SuitText(c.suit)
  {
    RankText(c.rank) + " of " + SuitText(c.suit)
  }

  /** Two cards print alike exactly when they are the same card. */
  lemma CardTextInjective(c: Card, d: Card)
    ensures CardText(c) == CardText(d) <==> c == d
  {
    if CardText(c) == CardText(d) {
      var s := CardText(c);
      // a rank text is "10" or a single character, and never contains a space
      SecondChar(c);
      SecondChar(d);
      assert |RankText(c.rank)| == |RankText(d.rank)|;
      var n := |RankText(c.rank)|;
      assert RankText(c.rank) == s[..n] == RankText(d.rank);
      assert SuitText(c.suit) == s[n + 4..] == SuitText(d.suit);
    }
  }

  /** The second character of a printed card tells "10" apart from the one-character ranks. */
  lemma SecondChar(c: Card)
    ensures |CardText(c)| > 1
    ensures CardText(c)[1] == (if c.rank == Ten then '0' else ' ')
  {
  }

  /** A dealt hand: its cards, the name of its category and its comparison score. */
  datatype Hand = Hand(cards: seq<Card>, rank: string, score: int)

  /** The state of the single-player game shown to a client. */
  datatype GameState = GameState(playerHand: Hand, deckCount: int, balance: int,
                                 currentBet: int, phase: string, message: string)

  /** A game state built with every optional field left at its default. */
  function DefaultGameState(playerHand: Hand, deckCount: int): (g: GameState)
    ensures g.playerHand == playerHand && g.deckCount == deckCount
    ensures g.balance == 100 && g.currentBet == 0 && g.phase == "betting" && g.message == ""
  {
    GameState(playerHand, deckCount, 100, 0, "betting", "")
  }
}
