/**
 * The single-player game logic: building the 52-card deck, shuffling it and dealing a hand
 * off its end, scored by the hand evaluator.
 */
module Logic {
  import opened Models
  import opened Evaluator
  import opened Builtins

  // ---------------------------------------------------------------------------
  // The deck
  // ---------------------------------------------------------------------------

  /** A fresh deck in suit-major order: every rank of the first suit, then of the next. */
  function CreateDeck(): (d: seq<Card>)
    ensures |d| == 52
  {
    seq(52, i requires 0 <= i < 52 => Card(AllSuits()[i / 13], AllRanks()[i % 13]))
  }

  /** Position `i` of a fresh deck holds the suit numbered `i / 13` and the rank numbered
      `i % 13`. */
  lemma DeckAt(i: int)
    requires 0 <= i < 52
    ensures SuitIndex(CreateDeck()[i].suit) == i / 13 && RankIndex(CreateDeck()[i].rank) == i % 13
  {
    assert i / 13 < 4;
    assert CreateDeck()[i] == Card(AllSuits()[i / 13], AllRanks()[i % 13]);
  }

  /** Position `13 * a + b` of a fresh deck is in row `a`, column `b`. */
  lemma RowColumn(a: int, b: int)
    requires 0 <= a < 4 && 0 <= b < 13
    ensures (13 * a + b) / 13 == a && (13 * a + b) % 13 == b
  {
  }

  /** The card of suit `s` and rank `k` lies at position `13 * SuitIndex(s) + RankIndex(k)`. */
  lemma DeckPosition(s: Suit, k: Rank)
    ensures CreateDeck()[13 * SuitIndex(s) + RankIndex(k)] == Card(s, k)
  {
    var i := 13 * SuitIndex(s) + RankIndex(k);
    RowColumn(SuitIndex(s), RankIndex(k));
    var c := CreateDeck()[i];
    DeckAt(i);
    assert SuitIndex(c.suit) == SuitIndex(s) && RankIndex(c.rank) == RankIndex(k);
    assert AllSuits()[SuitIndex(c.suit)] == c.suit && AllSuits()[SuitIndex(s)] == s;
    assert AllRanks()[RankIndex(c.rank)] == c.rank && AllRanks()[RankIndex(k)] == k;
  }

  /** Every card is in a fresh deck. */
  lemma DeckHasEveryCard()
    ensures forall c: Card :: c in CreateDeck()
  {
    forall c: Card
      ensures c in CreateDeck()
    {
      DeckPosition(c.suit, c.rank);
    }
  }

  /** No card is in a fresh deck twice. */
  lemma DeckDistinct()
    ensures forall i, j :: 0 <= i < j < 52 ==> CreateDeck()[i] != CreateDeck()[j]
  {
    var d := CreateDeck();
    forall i, j | 0 <= i < j < 52
      ensures d[i] != d[j]
    {
      DeckAt(i);
      DeckAt(j);
      assert i == 13 * (i / 13) + i % 13 && j == 13 * (j / 13) + j % 13;
    }
  }

  /** A list without repeated elements holds each value at most once. */
  lemma {:induction false} DistinctCounts(s: seq<Card>, c: Card)
    requires forall i, j :: 0 <= i < j < |s| ==> s[i] != s[j]
    ensures multiset(s)[c] <= 1
  {
    if s != [] {
      var t := s[..|s| - 1];
      assert s == t + [s[|s| - 1]];
      DistinctCounts(t, c);
      assert s[|s| - 1] !in t;
    }
  }

  /** A list holding each value at most once has no repeated elements. */
  lemma CountsDistinct(s: seq<Card>)
    requires forall x :: multiset(s)[x] <= 1
    ensures forall i, j :: 0 <= i < j < |s| ==> s[i] != s[j]
  {
    forall i, j | 0 <= i < j < |s|
      ensures s[i] != s[j]
    {
      RemoveOne(s, j);
      var rest := s[..j] + s[j + 1..];
      assert rest[i] == s[i];
      assert multiset(s)[s[j]] == multiset(rest)[s[j]] + 1;
    }
  }

  /** In a fresh deck every card occurs exactly once. */
  lemma FullDeckCounts()
    ensures forall c: Card :: multiset(CreateDeck())[c] == 1
  {
    var d := CreateDeck();
    forall c: Card
      ensures multiset(d)[c] == 1
    {
      assert c in d by {
        DeckHasEveryCard();
      }
      assert multiset(d)[c] <= 1 by {
        DeckDistinct();
        DistinctCounts(d, c);
      }
    }
  }

  /** Cards drawn from one deck: no card more often than a fresh deck holds it. */
  ghost predicate FromOneDeck(d: seq<Card>)
  {
    multiset(d) <= multiset(CreateDeck())
  }

  /** Cards drawn from one deck number at most 52 and never repeat. */
  lemma FromOneDeckBounds(d: seq<Card>)
    requires FromOneDeck(d)
    ensures |d| <= 52
    ensures forall i, j :: 0 <= i < j < |d| ==> d[i] != d[j]
  {
    var full := multiset(CreateDeck());
    assert full == multiset(d) + (full - multiset(d));
    assert |full| == |multiset(d)| + |full - multiset(d)| && |full| == 52;
    assert forall x :: multiset(d)[x] <= 1 by {
      FullDeckCounts();
    }
    CountsDistinct(d);
  }

  // ---------------------------------------------------------------------------
  // random.shuffle
  // ---------------------------------------------------------------------------

  /**
   * The random draws of one shuffle of a list of length `n`: CPython's `random.shuffle`
   * walks the positions from `n - 1` down to 1 and swaps position `i` with a position drawn
   * uniformly from 0 to `i`; `picks[i]` is that draw.
   */
  predicate ValidPicks(picks: seq<nat>, n: nat)
  {
    |picks| == n && forall i :: 0 <= i < n ==> picks[i] <= i
  }

  /** Exchanges the elements at two positions. */
  function Swap<T>(s: seq<T>, i: nat, j: nat): (r: seq<T>)
    requires i < |s| && j < |s|
    ensures |r| == |s|
  {
    seq(|s|, x requires 0 <= x < |s| => if x == i then s[j] else if x == j then s[i] else s[x])
  }

  /** Swapping is the double assignment `x[i], x[j] = x[j], x[i]`, and it only rearranges. */
  lemma SwapFacts<T>(s: seq<T>, i: nat, j: nat)
    requires i < |s| && j < |s|
    ensures Swap(s, i, j) == s[i := s[j]][j := s[i]]
    ensures multiset(Swap(s, i, j)) == multiset(s)
  {
    assert Swap(s, i, j) == s[i := s[j]][j := s[i]];
  }

  /** The list after the shuffle has handled every position from the last down to `k`. */
  function Shuffled<T>(s: seq<T>, picks: seq<nat>, k: nat): (r: seq<T>)
    requires ValidPicks(picks, |s|)
    ensures |r| == |s|
    decreases |s| - k
  {
    if k >= |s| then s
    else Swap(Shuffled(s, picks, k + 1), k, picks[k])
  }

  /** Shuffling only rearranges: the same cards, as often as before. */
  lemma {:induction false} ShuffledPermutes<T>(s: seq<T>, picks: seq<nat>, k: nat)
    requires ValidPicks(picks, |s|)
    ensures multiset(Shuffled(s, picks, k)) == multiset(s)
    decreases |s| - k
  {
    if k < |s| {
      ShuffledPermutes(s, picks, k + 1);
      ShuffleStep(s, picks, k);
    }
  }

  /** One swap of the shuffle keeps the multiset. */
  lemma ShuffleStep<T>(s: seq<T>, picks: seq<nat>, k: nat)
    requires ValidPicks(picks, |s|) && k < |s|
    ensures multiset(Shuffled(s, picks, k)) == multiset(Shuffled(s, picks, k + 1))
  {
    SwapFacts(Shuffled(s, picks, k + 1), k, picks[k]);
  }

  /** The position-`k` step of the shuffle comes after the steps for the later positions. */
  lemma ShuffleUnfold<T>(s: seq<T>, picks: seq<nat>, k: nat)
    requires ValidPicks(picks, |s|) && k < |s|
    ensures Shuffled(s, picks, k) == Swap(Shuffled(s, picks, k + 1), k, picks[k])
  {
  }

  // ---------------------------------------------------------------------------
  // [deck.pop() for _ in range(n)]
  // ---------------------------------------------------------------------------

  /** The number of rounds of `range(n)`. */
  function RangeLength(n: int): (k: nat)
    ensures n >= 0 ==> k == n
    ensures n < 0 ==> k == 0
  {
    if n < 0 then 0 else n
  }

  /** The last `k` elements, the last one first: what `k` pops from the end return. */
  function LastReversed<T>(s: seq<T>, k: nat): (r: seq<T>)
    requires k <= |s|
    ensures |r| == k
    ensures forall j :: 0 <= j < k ==> r[j] == s[|s| - 1 - j]
  {
    seq(k, j requires 0 <= j < k => s[|s| - 1 - j])
  }

  /** One more pop appends the next card from the end. */
  lemma LastReversedStep<T>(s: seq<T>, k: nat)
    requires k < |s|
    ensures LastReversed(s, k + 1) == LastReversed(s, k) + [s[|s| - 1 - k]]
  {
  }

  /** Popping `k` cards loses none: the popped cards and what is left make up the list. */
  lemma {:induction false} PopsConserve<T>(s: seq<T>, k: nat)
    requires k <= |s|
    ensures multiset(LastReversed(s, k)) + multiset(s[..|s| - k]) == multiset(s)
  {
    if k > 0 {
      PopsConserve(s, k - 1);
      var n := |s| - k;
      assert |s| - (k - 1) == n + 1;
      LastReversedStep(s, k - 1);
      assert s[..n + 1] == s[..n] + [s[n]];
      calc {
        multiset(LastReversed(s, k)) + multiset(s[..n]);
        multiset(LastReversed(s, k - 1)) + multiset{s[n]} + multiset(s[..n]);
        multiset(LastReversed(s, k - 1)) + multiset(s[..n + 1]);
        multiset(s);
      }
    } else {
      assert s[..|s|] == s;
    }
  }

  /** The deck dealt from: a full, freshly shuffled deck when too few cards remain. */
  function DealSource(deck: seq<Card>, n: int, picks: seq<nat>): (src: seq<Card>)
    requires |deck| < n ==> ValidPicks(picks, 52)
    ensures |deck| < n ==> |src| == 52
    ensures |deck| >= n ==> src == deck
  {
    if |deck| < n then Shuffled(CreateDeck(), picks, 1) else deck
  }

  /** A rebuilt deck holds every card once; a kept one is unchanged. */
  lemma DealSourceCards(deck: seq<Card>, n: int, picks: seq<nat>)
    requires |deck| < n ==> ValidPicks(picks, 52)
    ensures |deck| < n ==> multiset(DealSource(deck, n, picks)) == multiset(CreateDeck())
    ensures FromOneDeck(deck) ==> FromOneDeck(DealSource(deck, n, picks))
  {
    if |deck| < n {
      ShuffledPermutes(CreateDeck(), picks, 1);
    }
  }

  // ---------------------------------------------------------------------------
  // GameLogic
  // ---------------------------------------------------------------------------

  /** The single-player game: the remaining deck, dealt from the end. */
  class GameLogic {
    var deck: seq<Card>

    /** A fresh deck, shuffled with the given draws. */
    constructor(picks: seq<nat>)
      requires ValidPicks(picks, 52)
      ensures deck == Shuffled(CreateDeck(), picks, 1)
      ensures multiset(deck) == multiset(CreateDeck())
    {
      deck := CreateDeck();
      new;
      Shuffle(picks);
    }

    /** `random.shuffle(self.deck)`, with the random draws given. */
    method Shuffle(picks: seq<nat>)
      requires ValidPicks(picks, |deck|)
      modifies this
      ensures deck == Shuffled(old(deck), picks, 1)
      ensures multiset(deck) == multiset(old(deck))
    {
      ghost var d0 := deck;
      var d := deck;
      var k := |d|;
      while k > 1
        invariant 0 <= k <= |d0| && (|d0| > 0 ==> k >= 1)
        invariant d == Shuffled(d0, picks, k)
        decreases k
      {
        k := k - 1;
        var j := picks[k];
        ShuffleUnfold(d0, picks, k);
        SwapFacts(d, k, j);
        d := d[k := d[j]][j := d[k]];
      }
      if k == 0 {
        assert Shuffled(d0, picks, 0) == d0 == Shuffled(d0, picks, 1);
      }
      deck := d;
      ShuffledPermutes(d0, picks, 1);
    }

    /**
     * `deal(n)`: rebuilds and reshuffles the deck (with the given draws) when fewer than `n`
     * cards remain, then pops `n` cards off its end and scores them. Popping from an empty
     * deck raises an error, with the deck left empty: the result is then `None`.
     */
    method Deal(picks: seq<nat>, n: int := 5) returns (r: Option<Hand>)
      requires |deck| < n ==> ValidPicks(picks, 52)
      modifies this
      ensures var src := DealSource(old(deck), n, picks);
        RangeLength(n) <= |src| ==>
          r.Some? && r.value.cards == LastReversed(src, RangeLength(n)) &&
          deck == src[..|src| - RangeLength(n)]
      ensures RangeLength(n) > |DealSource(old(deck), n, picks)| ==> r.None? && deck == []
      ensures |old(deck)| < n <= 52 ==> |deck| == 52 - n
      ensures r.Some? ==> (r.value.score == EvaluateHand(r.value.cards).0 &&
                           r.value.rank == EvaluateHand(r.value.cards).1)
      ensures r.Some? ==>
        multiset(r.value.cards) + multiset(deck) == multiset(DealSource(old(deck), n, picks))
    {
      ghost var src := DealSource(deck, n, picks);
      if |deck| < n {
        deck := CreateDeck();
        Shuffle(picks);
      }
      assert deck == src;
      var cards: seq<Card> := [];
      var i := 0;
      while i < n
        invariant 0 <= i <= |src| && i <= RangeLength(n)
        invariant deck == src[..|src| - i]
        invariant cards == LastReversed(src, i)
        decreases n - i
      {
        if deck == [] {
          assert i == |src| < RangeLength(n);
          return None;
        }
        LastReversedStep(src, i);
        cards := cards + [deck[|deck| - 1]];
        deck := deck[..|deck| - 1];
        i := i + 1;
      }
      assert i == RangeLength(n);
      PopsConserve(src, i);
      var e := EvaluateHand(cards);
      r := Some(Hand(cards, e.1, e.0));
    }
  }

  /** Dealing from a deck drawn from one deck: the hand and what remains together are still
      drawn from one deck, so no card is dealt twice and the hand and deck share no card. */
  lemma DealKeepsOneDeck(src: seq<Card>, k: nat)
    requires k <= |src| && FromOneDeck(src)
    ensures FromOneDeck(LastReversed(src, k) + src[..|src| - k])
    ensures forall c :: c in LastReversed(src, k) ==> c !in src[..|src| - k]
  {
    var popped, rest := LastReversed(src, k), src[..|src| - k];
    var both := popped + rest;
    PopsConserve(src, k);
    assert multiset(both) == multiset(src);
    FromOneDeckBounds(both);
    forall a, b | 0 <= a < k && 0 <= b < |rest|
      ensures popped[a] != rest[b]
    {
      assert both[a] == popped[a] && both[k + b] == rest[b];
    }
  }
}
