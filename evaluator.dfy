/**
 * The five-card hand evaluator: rank values, the scoring function itself, and an
 * independent reference classification (by scanning rank counts from the ace down)
 * that the evaluator is proved to agree with on every five-card input.
 */
module Evaluator {
  import opened Models
  import opened Builtins

  // ---------------------------------------------------------------------------
  // Rank values
  // ---------------------------------------------------------------------------

  /** The numeric value of a rank: 2 for a two up to 14 for an ace. */
  function RankValue(r: Rank): (v: int)
    ensures v == RankIndex(r) + 2
  {
    match r
    case Two => 2
    case Three => 3
    case Four => 4
    case Five => 5
    case Six => 6
    case Seven => 7
    case Eight => 8
    case Nine => 9
    case Ten => 10
    case Jack => 11
    case Queen => 12
    case King => 13
    case Ace => 14
  }

  /** Rank values grow strictly along the declaration order, from 2 to 14. */
  lemma RankValueIncreasing(i: nat, j: nat)
    requires i < j < 13
    ensures 2 <= RankValue(AllRanks()[i]) < RankValue(AllRanks()[j]) <= 14
  {
  }

  /** Different ranks have different values. */
  lemma RankValueInjective(a: Rank, b: Rank)
    ensures RankValue(a) == RankValue(b) <==> a == b
  {
    assert AllRanks()[RankIndex(a)] == a && AllRanks()[RankIndex(b)] == b;
  }

  /** The rank values of a list of cards, position by position. */
  function RankValues(cards: seq<Card>): (r: seq<int>)
    ensures |r| == |cards|
    ensures forall i :: 0 <= i < |r| ==> 2 <= r[i] <= 14
  {
    seq(|cards|, i requires 0 <= i < |cards| => RankValue(cards[i].rank))
  }

  /** The suits of a list of cards, position by position. */
  function Suits(cards: seq<Card>): (r: seq<Suit>)
    ensures |r| == |cards|
  {
    seq(|cards|, i requires 0 <= i < |cards| => cards[i].suit)
  }

  function Max(a: int, b: int): int
  {
    if a >= b then a else b
  }

  // ---------------------------------------------------------------------------
  // The evaluator
  // ---------------------------------------------------------------------------

  /** At most one value occurs five times; any lower top count leaves a second pair. */
  lemma MostCommonOfFive(s: seq<int>)
    requires |s| == 5
    ensures |MostCommon(s)| > 0
    ensures MostCommon(s)[0].1 < 5 ==> |MostCommon(s)| > 1
  {
    MostCommonFacts(s);
    var mc := MostCommon(s);
    if |mc| == 1 {
      forall i | 0 <= i < 5 ensures s[i] == mc[0].0 {
        assert s[i] in s;
        assert (s[i], multiset(s)[s[i]]) in mc;
      }
      assert s == [mc[0].0, mc[0].0, mc[0].0, mc[0].0, mc[0].0];
    }
  }

  /** The score and category name of a hand; anything but five cards is an invalid hand. */
  function EvaluateHand(cards: seq<Card>): (r: (int, string))
    ensures |cards| != 5 ==> r == (0, "Invalid Hand")
    ensures |cards| == 5 ==> r.1 in CategoryNames() && r.1 != "Invalid Hand"
  {
    if |cards| != 5 then (0, "Invalid Hand")
    else
      var sortedValues := SortDesc(RankValues(cards));
      var suits := Suits(cards);
      var counts := MostCommon(sortedValues);
      MostCommonOfFive(sortedValues);
      var isFlush := |Elems(suits)| == 1;
      var values := PlayedValues(sortedValues);
      Decide(isFlush, IsStraight(sortedValues), Elems(values) == {14, 13, 12, 11, 10}, values[0], counts)
  }

  /** Five values, largest first, are the ace-low run A-5-4-3-2. */
  function IsWheel(sortedValues: seq<int>): (r: bool)
    ensures r <==> Elems(sortedValues) == {14, 5, 4, 3, 2}
  {
    |Elems(sortedValues)| == 5 && Elems(sortedValues) == {14, 5, 4, 3, 2}
  }

  /** Five distinct values, largest first, that span four, or the wheel. */
  function IsStraight(sortedValues: seq<int>): bool
    requires |sortedValues| == 5
  {
    |Elems(sortedValues)| == 5 && (sortedValues[0] - sortedValues[4] == 4 || IsWheel(sortedValues))
  }

  /** The values as the hand plays them: the wheel plays its ace low. */
  function PlayedValues(sortedValues: seq<int>): (r: seq<int>)
    ensures |r| == |sortedValues|
  {
    if |sortedValues| == 5 && IsWheel(sortedValues) then [5, 4, 3, 2, 1] else sortedValues
  }

  /** The evaluator's chain of category tests, strongest first, on the facts it has computed
      about a hand: flush, straight, ten to ace, the value its straight or high card plays,
      and the rank counts, most common first. */
  function Decide(isFlush: bool, isStraight: bool, isTopRun: bool, top: int,
                  counts: seq<(int, nat)>): (r: (int, string))
    requires |counts| > 0 && (counts[0].1 < 5 ==> |counts| > 1)
    ensures r.1 in CategoryNames() && r.1 != "Invalid Hand"
  {
    if isFlush && isStraight && isTopRun then (900, "Royal Flush")
    else if isFlush && isStraight then (800 + top, "Straight Flush")
    else if counts[0].1 == 4 then (700 + counts[0].0, "Four of a Kind")
    else if counts[0].1 == 3 && counts[1].1 == 2 then (600 + counts[0].0, "Full House")
    else if isFlush then (500 + top, "Flush")
    else if isStraight then (400 + top, "Straight")
    else if counts[0].1 == 3 then (300 + counts[0].0, "Three of a Kind")
    else if counts[0].1 == 2 && counts[1].1 == 2 then (200 + Max(counts[0].0, counts[1].0), "Two Pair")
    else if counts[0].1 == 2 then (100 + counts[0].0, "One Pair")
    else (top, "High Card")
  }

  // ---------------------------------------------------------------------------
  // The reference classification
  // ---------------------------------------------------------------------------

  /** The ten hand categories, weakest first. */
  datatype Category = HighCard | OnePair | TwoPair | ThreeOfAKind | Straight | Flush
                    | FullHouse | FourOfAKind | StraightFlush | RoyalFlush

  /** The position of a category in the strength order, 0 for a high card up to 9. */
  function Strength(c: Category): (n: nat)
    ensures n <= 9
  {
    match c
    case HighCard => 0
    case OnePair => 1
    case TwoPair => 2
    case ThreeOfAKind => 3
    case Straight => 4
    case Flush => 5
    case FullHouse => 6
    case FourOfAKind => 7
    case StraightFlush => 8
    case RoyalFlush => 9
  }

  /** The name under which a category is reported. */
  function Label(c: Category): string
  {
    match c
    case HighCard => "High Card"
    case OnePair => "One Pair"
    case TwoPair => "Two Pair"
    case ThreeOfAKind => "Three of a Kind"
    case Straight => "Straight"
    case Flush => "Flush"
    case FullHouse => "Full House"
    case FourOfAKind => "Four of a Kind"
    case StraightFlush => "Straight Flush"
    case RoyalFlush => "Royal Flush"
  }

  /** A category with the rank value that breaks ties inside it. */
  datatype Ranking = Ranking(category: Category, tiebreak: int)

  /** A ranking's score: the category's band base (a multiple of 100) plus the tiebreak. */
  function Score(r: Ranking): int
  {
    100 * Strength(r.category) + r.tiebreak
  }

  /** Five consecutive rank values from `hi` down. */
  function RunDown(hi: int): seq<int>
  {
    [hi, hi - 1, hi - 2, hi - 3, hi - 4]
  }

  /** Five rank values in a run topped by `hi`. */
  function Run(hi: int): multiset<int>
  {
    multiset(RunDown(hi))
  }

  /** The ace-low run A-2-3-4-5. */
  function Wheel(): multiset<int>
  {
    multiset{14, 5, 4, 3, 2}
  }

  /** The highest value at or below `from` (and at least 2) that occurs exactly `k` times. */
  function HighestWithCount(m: multiset<int>, k: nat, from: int): (r: Option<int>)
    ensures r.Some? ==> 2 <= r.value <= from && m[r.value] == k
    ensures r.Some? ==> forall w :: r.value < w <= from ==> m[w] != k
    ensures r.None? ==> forall w :: 2 <= w <= from ==> m[w] != k
    decreases from
  {
    if from < 2 then None
    else if m[from] == k then Some(from)
    else HighestWithCount(m, k, from - 1)
  }

  /** The second pair: the highest value below the first pair's that occurs exactly twice. */
  function SecondPair(m: multiset<int>, pair: Option<int>): Option<int>
  {
    if pair.Some? then HighestWithCount(m, 2, pair.value - 1) else None
  }

  /** The highest value at or below `from` (and at least 2) that occurs at all, or 0. */
  function HighestPresent(m: multiset<int>, from: int): (r: int)
    ensures r != 0 ==> 2 <= r <= from && m[r] > 0
    ensures forall w :: r < w <= from && w >= 2 ==> m[w] == 0
    ensures r == 0 || r >= 2
    decreases from
  {
    if from < 2 then 0
    else if m[from] > 0 then from
    else HighestPresent(m, from - 1)
  }

  /** The top value of a run topped by `hi` or higher, up to the run to the ace. */
  function RunFrom(m: multiset<int>, hi: int): (r: Option<int>)
    ensures r.Some? ==> hi <= r.value <= 14 && m == Run(r.value)
    ensures r.None? ==> forall h :: hi <= h <= 14 ==> m != Run(h)
    decreases 15 - hi
  {
    if hi > 14 then None
    else if m == Run(hi) then Some(hi)
    else
      var r := RunFrom(m, hi + 1);
      assert r.None? ==> forall h :: hi <= h <= 14 ==> m != Run(h) by {
        forall h | hi <= h <= 14 && r.None? ensures m != Run(h) {
        }
      }
      r
  }

  /** The high card of a straight: 5 for the wheel, otherwise the top of the run. */
  function StraightHigh(m: multiset<int>): (r: Option<int>)
    ensures r.Some? ==> 5 <= r.value <= 14
  {
    if m == Wheel() then Some(5) else RunFrom(m, 6)
  }

  /** Every card shares one suit. */
  ghost predicate SameSuit(cards: seq<Card>)
  {
    forall i, j :: 0 <= i < |cards| && 0 <= j < |cards| ==> cards[i].suit == cards[j].suit
  }

  /** The category and tiebreak of five cards, read off their rank counts and suits. */
  ghost function Reference(cards: seq<Card>): Ranking
    requires |cards| == 5
  {
    Classify(multiset(RankValues(cards)), SameSuit(cards))
  }

  /** The category and tiebreak of a multiset of rank values, flush or not. */
  function Classify(m: multiset<int>, flush: bool): (r: Ranking)
    ensures 0 <= r.tiebreak <= 14
    ensures r.category == RoyalFlush ==> r.tiebreak == 0
    ensures r.category != RoyalFlush && HighestPresent(m, 14) != 0 ==> r.tiebreak >= 2
  {
    var pair := HighestWithCount(m, 2, 14);
    var second := SecondPair(m, pair);
    var straight := StraightHigh(m);
    var quad := HighestWithCount(m, 4, 14);
    var trip := HighestWithCount(m, 3, 14);
    var high := HighestPresent(m, 14);
    Choose(flush, m == Run(14), straight, quad, trip, pair, second, high)
  }

  /** Every value a scan can report is a rank value; a straight's high card is at least 5 and
      no value present is reported as 0. */
  predicate ScansInRange(straight: Option<int>, quad: Option<int>, trip: Option<int>,
                         pair: Option<int>, high: int)
  {
    (straight.Some? ==> 5 <= straight.value <= 14) &&
    (quad.Some? ==> 2 <= quad.value <= 14) &&
    (trip.Some? ==> 2 <= trip.value <= 14) &&
    (pair.Some? ==> 2 <= pair.value <= 14) &&
    (high == 0 || 2 <= high <= 14)
  }

  /** The categories tried from the strongest down, on the reference's scans: a flush, the
      run from ten, the straight's high card, the highest value occurring four, three and two
      times, the next lower pair, and the highest value present. */
  function Choose(flush: bool, royal: bool, straight: Option<int>, quad: Option<int>,
                  trip: Option<int>, pair: Option<int>, second: Option<int>, high: int): (r: Ranking)
    requires ScansInRange(straight, quad, trip, pair, high)
    ensures 0 <= r.tiebreak <= 14
    ensures r.category == RoyalFlush ==> r.tiebreak == 0
    ensures r.category != RoyalFlush && high != 0 ==> r.tiebreak >= 2
  {
    if flush && royal then Ranking(RoyalFlush, 0)
    else if flush && straight.Some? then Ranking(StraightFlush, straight.value)
    else if quad.Some? then Ranking(FourOfAKind, quad.value)
    else if trip.Some? && pair.Some? then Ranking(FullHouse, trip.value)
    else if flush then Ranking(Flush, high)
    else if straight.Some? then Ranking(Straight, straight.value)
    else if trip.Some? then Ranking(ThreeOfAKind, trip.value)
    else if pair.Some? && second.Some? then Ranking(TwoPair, pair.value)
    else if pair.Some? then Ranking(OnePair, pair.value)
    else Ranking(HighCard, high)
  }

  /** Only a royal flush has no tiebreak; every other tiebreak is a rank value from 2 to 14. */
  lemma TiebreakRange(cards: seq<Card>)
    requires |cards| == 5
    ensures var r := Reference(cards);
      (r.category == RoyalFlush ==> r.tiebreak == 0) &&
      (r.category != RoyalFlush ==> 2 <= r.tiebreak <= 14)
  {
    var m := multiset(RankValues(cards));
    assert RankValues(cards)[0] in m;
  }

  // ---------------------------------------------------------------------------
  // The evaluator agrees with the reference
  // ---------------------------------------------------------------------------

  /** Sorting the rank values keeps them between 2 and 14. */
  lemma SortedValuesInRange(cards: seq<Card>)
    ensures forall i :: 0 <= i < |SortDesc(RankValues(cards))| ==> 2 <= SortDesc(RankValues(cards))[i] <= 14
  {
    var s := SortDesc(RankValues(cards));
    forall i | 0 <= i < |s| ensures 2 <= s[i] <= 14 {
      assert s[i] in multiset(RankValues(cards));
    }
  }

  /** Five sorted values have five distinct elements exactly when they strictly decrease. */
  lemma DistinctFive(s: seq<int>)
    requires |s| == 5 && SortedDesc(s)
    ensures Elems(s) == {s[0], s[1], s[2], s[3], s[4]}
    ensures |Elems(s)| == 5 <==> s[0] > s[1] > s[2] > s[3] > s[4]
  {
    assert Elems(s) == {s[0], s[1], s[2], s[3], s[4]};
  }

  /** Two runs are equal only when they start at the same value. */
  lemma RunInjective(h: int, h': int)
    requires Run(h) == Run(h')
    ensures h == h'
  {
    assert h in Run(h) && h' in Run(h');
    assert h <= h' by { assert h in Run(h'); }
    assert h' <= h by { assert h' in Run(h); }
  }

  /** No run of five consecutive values is the wheel. */
  lemma RunIsNotWheel(h: int)
    ensures Run(h) != Wheel()
  {
    assert 14 in Wheel();
    if 14 in Run(h) {
      assert h >= 14;
      assert 2 !in Run(h);
    }
  }

  /** The highest value of a sorted list is its first element. */
  lemma HighestIsFirst(s: seq<int>)
    requires |s| > 0 && SortedDesc(s)
    requires forall i :: 0 <= i < |s| ==> 2 <= s[i] <= 14
    ensures HighestPresent(multiset(s), 14) == s[0]
  {
    var h := HighestPresent(multiset(s), 14);
    assert s[0] in multiset(s);
    if h != 0 {
      assert h in s;
    }
  }

  /** Sorted values forming the wheel's set have the wheel's multiset. */
  lemma WheelFound(s: seq<int>)
    requires |s| == 5 && SortedDesc(s) && IsWheel(s)
    ensures multiset(s) == Wheel()
  {
    DistinctFive(s);
    assert s == [14, 5, 4, 3, 2];
  }

  /** Sorted values with the wheel's multiset form the wheel's set. */
  lemma WheelOnlyFound(s: seq<int>)
    requires |s| == 5 && SortedDesc(s) && multiset(s) == Wheel()
    ensures IsWheel(s)
  {
    SortedDescUnique(s, [14, 5, 4, 3, 2]);
    DistinctFive(s);
  }

  /** The sorted values are the wheel exactly when their multiset is. */
  lemma WheelAgrees(s: seq<int>)
    requires |s| == 5 && SortedDesc(s)
    ensures IsWheel(s) <==> multiset(s) == Wheel()
  {
    if IsWheel(s) {
      WheelFound(s);
    }
    if multiset(s) == Wheel() {
      WheelOnlyFound(s);
    }
  }

  /** A run lists in non-increasing order. */
  lemma RunSorted(hi: int)
    ensures SortedDesc(RunDown(hi))
  {
  }

  /** Five distinct sorted values spanning four are the run the reference finds. */
  lemma RunFound(s: seq<int>)
    requires |s| == 5 && SortedDesc(s)
    requires forall i :: 0 <= i < |s| ==> 2 <= s[i] <= 14
    requires |Elems(s)| == 5 && s[0] - s[4] == 4
    ensures RunFrom(multiset(s), 6) == Some(s[0])
  {
    DistinctFive(s);
    var h := s[0];
    assert s == RunDown(h);
    var r := RunFrom(multiset(s), 6);
    assert r.Some? by {
      assert multiset(s) == Run(h);
      assert 6 <= h <= 14;
    }
    RunInjective(r.value, h);
  }

  /** A run the reference finds is five distinct sorted values spanning four. */
  lemma RunOnlyFound(s: seq<int>)
    requires |s| == 5 && SortedDesc(s)
    requires RunFrom(multiset(s), 6).Some?
    ensures |Elems(s)| == 5 && s[0] - s[4] == 4
    ensures RunFrom(multiset(s), 6).value == s[0]
  {
    var h := RunFrom(multiset(s), 6).value;
    RunSorted(h);
    SortedDescUnique(s, RunDown(h));
    DistinctFive(s);
  }

  /** Five sorted values form a run exactly when they are distinct and span four. */
  lemma RunAgrees(s: seq<int>)
    requires |s| == 5 && SortedDesc(s)
    requires forall i :: 0 <= i < |s| ==> 2 <= s[i] <= 14
    ensures (|Elems(s)| == 5 && s[0] - s[4] == 4) <==> RunFrom(multiset(s), 6).Some?
    ensures RunFrom(multiset(s), 6).Some? ==> RunFrom(multiset(s), 6).value == s[0]
  {
    if |Elems(s)| == 5 && s[0] - s[4] == 4 {
      RunFound(s);
    }
    if RunFrom(multiset(s), 6).Some? {
      RunOnlyFound(s);
    }
  }

  /** The evaluator's straight test on sorted values against the reference's. */
  lemma StraightAgrees(s: seq<int>)
    requires |s| == 5 && SortedDesc(s)
    requires forall i :: 0 <= i < |s| ==> 2 <= s[i] <= 14
    ensures IsStraight(s) <==> StraightHigh(multiset(s)).Some?
    ensures IsStraight(s) ==> PlayedValues(s)[0] == StraightHigh(multiset(s)).value
    ensures !IsStraight(s) ==> PlayedValues(s)[0] == HighestPresent(multiset(s), 14)
  {
    if multiset(s) == Wheel() {
      assert IsWheel(s) by {
        WheelAgrees(s);
      }
    } else {
      StraightNotWheel(s);
    }
  }

  /** The straight test away from the wheel: a run of five found by its top value. */
  lemma StraightNotWheel(s: seq<int>)
    requires |s| == 5 && SortedDesc(s) && multiset(s) != Wheel()
    requires forall i :: 0 <= i < |s| ==> 2 <= s[i] <= 14
    ensures IsStraight(s) <==> StraightHigh(multiset(s)).Some?
    ensures IsStraight(s) ==> PlayedValues(s)[0] == StraightHigh(multiset(s)).value
    ensures !IsStraight(s) ==> PlayedValues(s)[0] == HighestPresent(multiset(s), 14)
  {
    HighestIsFirst(s);
    RunAgrees(s);
    var m := multiset(s);
    assert !IsWheel(s) by {
      WheelAgrees(s);
    }
    assert PlayedValues(s) == s;
    assert IsStraight(s) == (|Elems(s)| == 5 && s[0] - s[4] == 4);
    assert StraightHigh(m) == RunFrom(m, 6);
  }

  /** Five distinct sorted values forming the set ten to ace are ten to ace in order. */
  lemma TopRunFound(s: seq<int>)
    requires |s| == 5 && SortedDesc(s)
    requires Elems(s) == {14, 13, 12, 11, 10} && |Elems(s)| == 5
    ensures multiset(s) == Run(14)
  {
    DistinctFive(s);
    assert s[0] in Elems(s) && s[4] in Elems(s);
    assert 14 in s && 10 in s;
    assert s[0] == 14 && s[4] == 10;
    assert s == RunDown(14);
  }

  /** The run from ten, sorted, is ten to ace in order. */
  lemma TopRunOnlyFound(s: seq<int>)
    requires |s| == 5 && SortedDesc(s)
    requires multiset(s) == Run(14)
    ensures Elems(s) == {14, 13, 12, 11, 10} && |Elems(s)| == 5
  {
    RunSorted(14);
    SortedDescUnique(s, RunDown(14));
    DistinctFive(s);
  }

  /** Sorted values are ten to ace exactly when their multiset is the run from ten. */
  lemma TopRunAgrees(s: seq<int>)
    requires |s| == 5 && SortedDesc(s)
    ensures Elems(s) == {14, 13, 12, 11, 10} && |Elems(s)| == 5 <==> multiset(s) == Run(14)
  {
    if Elems(s) == {14, 13, 12, 11, 10} && |Elems(s)| == 5 {
      TopRunFound(s);
    }
    if multiset(s) == Run(14) {
      TopRunOnlyFound(s);
    }
  }

  /** The wheel is not ten to ace, for the evaluator (which plays its ace low) nor for the
      reference. */
  lemma RoyalWheel(s: seq<int>)
    requires |s| == 5 && SortedDesc(s) && multiset(s) == Wheel()
    ensures Elems(PlayedValues(s)) != {14, 13, 12, 11, 10} && multiset(s) != Run(14)
  {
    WheelOnlyFound(s);
    assert PlayedValues(s) == [5, 4, 3, 2, 1];
    assert 14 !in Elems([5, 4, 3, 2, 1]);
    RunIsNotWheel(14);
  }

  /** Away from the wheel, the evaluator's royal test is the reference's. */
  lemma RoyalNotWheel(s: seq<int>)
    requires |s| == 5 && SortedDesc(s) && multiset(s) != Wheel()
    ensures (IsStraight(s) && Elems(PlayedValues(s)) == {14, 13, 12, 11, 10}) <==> multiset(s) == Run(14)
  {
    assert !IsWheel(s) by {
      WheelAgrees(s);
    }
    assert PlayedValues(s) == s;
    TopRunAgrees(s);
    if multiset(s) == Run(14) {
      assert s == RunDown(14) by {
        RunSorted(14);
        SortedDescUnique(s, RunDown(14));
      }
    }
  }

  /** The evaluator's royal test on sorted values against the reference's ten-to-ace run. */
  lemma RoyalAgrees(s: seq<int>)
    requires |s| == 5 && SortedDesc(s)
    ensures (IsStraight(s) && Elems(PlayedValues(s)) == {14, 13, 12, 11, 10}) <==> multiset(s) == Run(14)
  {
    if multiset(s) == Wheel() {
      RoyalWheel(s);
    } else {
      RoyalNotWheel(s);
    }
  }

  /** Every suit alike exactly when the suits form a one-element set. */
  lemma FlushAgrees(cards: seq<Card>)
    requires |cards| > 0
    ensures |Elems(Suits(cards))| == 1 <==> SameSuit(cards)
  {
    var e := Elems(Suits(cards));
    var x := cards[0].suit;
    assert Suits(cards)[0] == x;
    if SameSuit(cards) {
      assert forall y :: y in e ==> y == x by {
        forall y | y in e ensures y == x {
          var i :| 0 <= i < |cards| && Suits(cards)[i] == y;
        }
      }
      assert e == {x};
    }
    if |e| == 1 {
      assert x in e;
      assert |e - {x}| == 0;
      forall i, j | 0 <= i < |cards| && 0 <= j < |cards|
        ensures cards[i].suit == cards[j].suit
      {
        assert Suits(cards)[i] in e && Suits(cards)[j] in e;
      }
    }
  }

  // ---------------------------------------------------------------------------
  // Rank counts: the evaluator's most_common tests against the reference's scans
  // ---------------------------------------------------------------------------

  /** A value's count is at most the top count, and a value other than the top one shares
      the five cards with it. */
  lemma TopOrBound(s: seq<int>, w: int)
    requires w in s
    ensures |MostCommon(s)| > 0
    ensures MostCommon(s)[0].1 >= multiset(s)[w]
    ensures MostCommon(s)[0].0 != w ==> MostCommon(s)[0].1 + multiset(s)[w] <= |s|
    ensures MostCommon(s)[0].0 != w ==> |MostCommon(s)| > 1 && MostCommon(s)[1].1 >= multiset(s)[w]
  {
    MostCommonFacts(s);
    var mc := MostCommon(s);
    var k :| 0 <= k < |mc| && mc[k] == (w, multiset(s)[w]);
    assert mc[0].1 >= mc[k].1;
    TwoCountsBound(s, mc[0].0, w);
    assert mc[0].0 != w ==> k >= 1;
    assert k >= 1 ==> mc[1].1 >= mc[k].1;
  }

  /** The two top counts of five values leave room only for each other. */
  lemma SecondCountBound(s: seq<int>)
    requires |s| == 5
    ensures |MostCommon(s)| > 0
    ensures MostCommon(s)[0].0 in s && 1 <= MostCommon(s)[0].1 == multiset(s)[MostCommon(s)[0].0]
    ensures MostCommon(s)[0].1 < 5 ==> (|MostCommon(s)| > 1 &&
      MostCommon(s)[1].0 in s && multiset(s)[MostCommon(s)[1].0] == MostCommon(s)[1].1 &&
      MostCommon(s)[0].0 != MostCommon(s)[1].0 &&
      1 <= MostCommon(s)[1].1 <= MostCommon(s)[0].1 &&
      MostCommon(s)[0].1 + MostCommon(s)[1].1 <= 5)
  {
    MostCommonFacts(s);
    MostCommonOfFive(s);
    var mc := MostCommon(s);
    if mc[0].1 < 5 {
      TwoCountsBound(s, mc[0].0, mc[1].0);
    }
  }

  /** Four of a kind: the top count is four exactly when some value occurs four times, and
      that value leads the counts. */
  lemma QuadAgrees(s: seq<int>)
    requires |s| == 5
    requires forall i :: 0 <= i < |s| ==> 2 <= s[i] <= 14
    ensures |MostCommon(s)| > 0
    ensures var q := HighestWithCount(multiset(s), 4, 14);
      (MostCommon(s)[0].1 == 4 <==> q.Some?) && (q.Some? ==> q.value == MostCommon(s)[0].0)
  {
    SecondCountBound(s);
    var mc := MostCommon(s);
    var q := HighestWithCount(multiset(s), 4, 14);
    if mc[0].1 == 4 {
      assert multiset(s)[mc[0].0] == 4;
    }
    if q.Some? {
      assert q.value in multiset(s);
      TopOrBound(s, q.value);
    }
  }

  /** Three of a kind (alone or in a full house), as for four. */
  lemma TripAgrees(s: seq<int>)
    requires |s| == 5
    requires forall i :: 0 <= i < |s| ==> 2 <= s[i] <= 14
    ensures |MostCommon(s)| > 0
    ensures var t := HighestWithCount(multiset(s), 3, 14);
      (MostCommon(s)[0].1 == 3 <==> t.Some?) && (t.Some? ==> t.value == MostCommon(s)[0].0)
  {
    SecondCountBound(s);
    var mc := MostCommon(s);
    var t := HighestWithCount(multiset(s), 3, 14);
    if mc[0].1 == 3 {
      assert multiset(s)[mc[0].0] == 3;
    }
    if t.Some? {
      assert t.value in multiset(s);
      TopOrBound(s, t.value);
    }
  }

  /** Beside three of a kind, the second count is two exactly when some value occurs twice. */
  lemma FullHouseAgrees(s: seq<int>)
    requires |s| == 5
    requires forall i :: 0 <= i < |s| ==> 2 <= s[i] <= 14
    requires |MostCommon(s)| > 0 && MostCommon(s)[0].1 == 3
    ensures |MostCommon(s)| > 1
    ensures MostCommon(s)[1].1 == 2 <==> HighestWithCount(multiset(s), 2, 14).Some?
  {
    SecondCountBound(s);
    var mc := MostCommon(s);
    var p := HighestWithCount(multiset(s), 2, 14);
    if mc[1].1 == 2 {
      assert multiset(s)[mc[1].0] == 2;
    }
    if p.Some? {
      assert p.value in multiset(s);
      TopOrBound(s, p.value);
    }
  }

  /** Without three or four of a kind, the top count is two exactly when some value occurs
      twice. */
  lemma PairAgrees(s: seq<int>)
    requires |s| == 5
    requires forall i :: 0 <= i < |s| ==> 2 <= s[i] <= 14
    requires |MostCommon(s)| > 0 && MostCommon(s)[0].1 != 3 && MostCommon(s)[0].1 != 4
    ensures MostCommon(s)[0].1 == 2 <==> HighestWithCount(multiset(s), 2, 14).Some?
  {
    SecondCountBound(s);
    var mc := MostCommon(s);
    var p := HighestWithCount(multiset(s), 2, 14);
    if mc[0].1 == 2 {
      assert multiset(s)[mc[0].0] == 2;
    }
    if p.Some? {
      assert p.value in multiset(s);
      TopOrBound(s, p.value);
    }
  }

  /** With a top count of two, a second pair is counted second exactly when the reference
      finds a lower pair, and the higher pair is the larger of the two counted values. */
  lemma TwoPairAgrees(s: seq<int>)
    requires |s| == 5
    requires forall i :: 0 <= i < |s| ==> 2 <= s[i] <= 14
    requires |MostCommon(s)| > 0 && MostCommon(s)[0].1 == 2
    ensures |MostCommon(s)| > 1
    ensures var p := HighestWithCount(multiset(s), 2, 14);
      p.Some? &&
      (MostCommon(s)[1].1 == 2 <==> SecondPair(multiset(s), p).Some?) &&
      p.value == if MostCommon(s)[1].1 == 2 then Max(MostCommon(s)[0].0, MostCommon(s)[1].0)
                 else MostCommon(s)[0].0
  {
    SecondCountBound(s);
    var mc := MostCommon(s);
    var a := mc[0].0;
    var b := mc[1].0;
    var m := multiset(s);
    assert m[a] == 2;
    var p := HighestWithCount(m, 2, 14);
    assert p.Some?;
    var w := p.value;
    assert w in m;
    TopOrBound(s, w);
    var q := HighestWithCount(m, 2, w - 1);
    if mc[1].1 == 2 {
      ThreeCountsBound(s, a, b, w);
      assert w == a || w == b;
      assert w == Max(a, b);
      assert m[if w == a then b else a] == 2;
      assert q.Some?;
    } else {
      assert w == a;
      if q.Some? {
        assert q.value in m;
        TopOrBound(s, q.value);
      }
    }
  }

  // ---------------------------------------------------------------------------
  // The main theorem
  // ---------------------------------------------------------------------------

  /** The evaluator's chain and the reference's agree once their individual tests do. */
  lemma DecideAgrees(isStraight: bool, isTopRun: bool, top: int, counts: seq<(int, nat)>,
                     flush: bool, royal: bool, straight: Option<int>, quad: Option<int>,
                     trip: Option<int>, pair: Option<int>, second: Option<int>, high: int)
    requires ScansInRange(straight, quad, trip, pair, high)
    requires |counts| > 0 && (counts[0].1 < 5 ==> |counts| > 1)
    requires isStraight == straight.Some? && (isStraight ==> top == straight.value)
    requires !isStraight ==> top == high
    requires (isStraight && isTopRun) == royal
    requires (counts[0].1 == 4) == quad.Some? && (quad.Some? ==> quad.value == counts[0].0)
    requires (counts[0].1 == 3) == trip.Some? && (trip.Some? ==> trip.value == counts[0].0)
    requires counts[0].1 == 3 ==> (counts[1].1 == 2) == pair.Some?
    requires counts[0].1 != 3 && counts[0].1 != 4 ==> (counts[0].1 == 2) == pair.Some?
    requires counts[0].1 == 2 ==> (pair.Some? && (counts[1].1 == 2) == second.Some? &&
      pair.value == if counts[1].1 == 2 then Max(counts[0].0, counts[1].0) else counts[0].0)
    ensures var r := Choose(flush, royal, straight, quad, trip, pair, second, high);
      Decide(flush, isStraight, isTopRun, top, counts) == (Score(r), Label(r.category))
  {
  }

  /** On five values in descending order, the evaluator's chain gives the reference's score
      and name. */
  lemma SortedAgrees(s: seq<int>, flush: bool)
    requires |s| == 5 && SortedDesc(s)
    requires forall i :: 0 <= i < |s| ==> 2 <= s[i] <= 14
    ensures |MostCommon(s)| > 0 && (MostCommon(s)[0].1 < 5 ==> |MostCommon(s)| > 1) &&
      Decide(flush, IsStraight(s), Elems(PlayedValues(s)) == {14, 13, 12, 11, 10},
             PlayedValues(s)[0], MostCommon(s)) ==
      (Score(Classify(multiset(s), flush)), Label(Classify(multiset(s), flush).category))
  {
    MostCommonOfFive(s);
    StraightAgrees(s);
    RoyalAgrees(s);
    QuadAgrees(s);
    TripAgrees(s);
    var mc := MostCommon(s);
    if mc[0].1 == 3 {
      FullHouseAgrees(s);
    }
    if mc[0].1 != 3 && mc[0].1 != 4 {
      PairAgrees(s);
    }
    if mc[0].1 == 2 {
      TwoPairAgrees(s);
    }
    var m := multiset(s);
    var pair := HighestWithCount(m, 2, 14);
    var second := SecondPair(m, pair);
    DecideAgrees(IsStraight(s), Elems(PlayedValues(s)) == {14, 13, 12, 11, 10},
                 PlayedValues(s)[0], mc, flush, m == Run(14), StraightHigh(m),
                 HighestWithCount(m, 4, 14), HighestWithCount(m, 3, 14), pair, second,
                 HighestPresent(m, 14));
  }

  /** On every five cards the evaluator returns the reference category's name and score. */
  lemma EvaluateMatchesReference(cards: seq<Card>)
    requires |cards| == 5
    ensures EvaluateHand(cards) == (Score(Reference(cards)), Label(Reference(cards).category))
  {
    var s := SortDesc(RankValues(cards));
    SortedValuesInRange(cards);
    FlushAgrees(cards);
    SortedAgrees(s, SameSuit(cards));
  }

  // ---------------------------------------------------------------------------
  // Consequences for the evaluator
  // ---------------------------------------------------------------------------

  /** A score splits back into its category's band and its tiebreak. */
  lemma SplitScore(r: Ranking)
    requires 0 <= r.tiebreak <= 14
    ensures Score(r) / 100 == Strength(r.category) && Score(r) % 100 == r.tiebreak
  {
  }

  /** The hundreds of a five-card score name the category's band, and the name returned is
      the category's. */
  lemma ScoreBand(cards: seq<Card>)
    requires |cards| == 5
    ensures EvaluateHand(cards).0 / 100 == Strength(Reference(cards).category)
    ensures EvaluateHand(cards).0 % 100 == Reference(cards).tiebreak <= 14
    ensures EvaluateHand(cards).1 == Label(Reference(cards).category)
  {
    EvaluateMatchesReference(cards);
    SplitScore(Reference(cards));
  }

  /** A hand of a stronger category always outscores one of a weaker category. */
  lemma HigherCategoryWins(a: seq<Card>, b: seq<Card>)
    requires |a| == 5 && |b| == 5
    requires Strength(Reference(a).category) > Strength(Reference(b).category)
    ensures EvaluateHand(a).0 > EvaluateHand(b).0
  {
    EvaluateMatchesReference(a);
    EvaluateMatchesReference(b);
  }

  /** Names tell categories apart. */
  lemma LabelInjective(c: Category, d: Category)
    ensures Label(c) == Label(d) <==> c == d
  {
  }

  /** The ten names a five-card hand can get. */
  function CategoryNames(): (r: set<string>)
    ensures forall c :: Label(c) in r
    ensures |r| == 10
  {
    {"High Card", "One Pair", "Two Pair", "Three of a Kind", "Straight", "Flush",
     "Full House", "Four of a Kind", "Straight Flush", "Royal Flush"}
  }

  /** No value occurs twice in the wheel. */
  lemma WheelCounts()
    ensures forall w :: Wheel()[w] <= 1
  {
  }

  /** The reference finds no four, three or two of a kind in the wheel. */
  lemma WheelHasNoKinds(m: multiset<int>)
    requires m == Wheel()
    ensures HighestWithCount(m, 4, 14).None? && HighestWithCount(m, 3, 14).None?
    ensures HighestWithCount(m, 2, 14).None?
  {
    WheelCounts();
  }

  /** The reference classifies the wheel as a five-high straight, suited or not. */
  lemma ClassifyWheel(flush: bool)
    ensures Classify(Wheel(), flush) == Ranking(if flush then StraightFlush else Straight, 5)
  {
    var m := Wheel();
    RunIsNotWheel(14);
    WheelHasNoKinds(m);
    assert StraightHigh(m) == Some(5);
  }

  /** Five cards whose values are the wheel are a five-high straight, or straight flush. */
  lemma WheelReference(cards: seq<Card>)
    requires multiset(RankValues(cards)) == Wheel()
    ensures |cards| == 5
    ensures Reference(cards) == Ranking(if SameSuit(cards) then StraightFlush else Straight, 5)
  {
    assert |RankValues(cards)| == |Wheel()|;
    ClassifyWheel(SameSuit(cards));
  }

  /** The ace-low straight plays its ace as a one: it scores 405, or 805 when suited. */
  lemma WheelScore(cards: seq<Card>)
    requires multiset(RankValues(cards)) == Wheel()
    ensures EvaluateHand(cards) ==
      if SameSuit(cards) then (805, "Straight Flush") else (405, "Straight")
  {
    WheelReference(cards);
    EvaluateMatchesReference(cards);
  }

  // ---------------------------------------------------------------------------
  // The score does not depend on the order of the cards
  // ---------------------------------------------------------------------------

  /** Rank values of a concatenation are the concatenated rank values. */
  lemma RankValuesAppend(a: seq<Card>, b: seq<Card>)
    ensures RankValues(a + b) == RankValues(a) + RankValues(b)
  {
  }

  /** Taking one card out of a list takes its rank value out of the list's values. */
  lemma RankValuesRemove(b: seq<Card>, j: nat)
    requires j < |b|
    ensures multiset(RankValues(b)) ==
      multiset(RankValues(b[..j] + b[j + 1..])) + multiset{RankValue(b[j].rank)}
  {
    assert b == b[..j] + [b[j]] + b[j + 1..];
    RankValuesAppend(b[..j] + [b[j]], b[j + 1..]);
    RankValuesAppend(b[..j], [b[j]]);
    RankValuesAppend(b[..j], b[j + 1..]);
  }

  /** Rearranged cards have rearranged rank values. */
  lemma {:induction false} RankValuesPermute(a: seq<Card>, b: seq<Card>)
    requires multiset(a) == multiset(b)
    ensures multiset(RankValues(a)) == multiset(RankValues(b))
    decreases |a|
  {
    if a != [] {
      assert a[0] in multiset(b);
      var j :| 0 <= j < |b| && b[j] == a[0];
      var a', b' := a[..0] + a[1..], b[..j] + b[j + 1..];
      assert multiset(a') == multiset(b') by {
        RemoveOne(a, 0);
        RemoveOne(b, j);
      }
      RankValuesPermute(a', b');
      var v := multiset{RankValue(a[0].rank)};
      assert multiset(RankValues(a)) == multiset(RankValues(a')) + v by {
        RankValuesRemove(a, 0);
      }
      assert multiset(RankValues(b)) == multiset(RankValues(b')) + v by {
        RankValuesRemove(b, j);
      }
    }
  }

  /** Every card shares one suit exactly when any two cards present share it. */
  lemma SameSuitMembers(c: seq<Card>)
    ensures SameSuit(c) <==> forall x, y :: x in c && y in c ==> x.suit == y.suit
  {
    if SameSuit(c) {
      forall x, y | x in c && y in c ensures x.suit == y.suit {
        var i :| 0 <= i < |c| && c[i] == x;
        var j :| 0 <= j < |c| && c[j] == y;
      }
    }
  }

  /** Whether all cards share a suit depends only on which cards there are. */
  lemma SameSuitPermute(a: seq<Card>, b: seq<Card>)
    requires multiset(a) == multiset(b)
    ensures SameSuit(a) == SameSuit(b)
  {
    SameSuitMembers(a);
    SameSuitMembers(b);
    forall x ensures x in a <==> x in b {
      assert x in a <==> x in multiset(a);
      assert x in b <==> x in multiset(b);
    }
  }

  /** Rearranging the cards of a hand changes neither its score nor its name. */
  lemma EvaluateOrderFree(a: seq<Card>, b: seq<Card>)
    requires multiset(a) == multiset(b)
    ensures EvaluateHand(a) == EvaluateHand(b)
  {
    assert |a| == |multiset(a)| == |multiset(b)| == |b|;
    if |a| == 5 {
      RankValuesPermute(a, b);
      SameSuitPermute(a, b);
      EvaluateMatchesReference(a);
      EvaluateMatchesReference(b);
      assert Reference(a) == Reference(b);
    }
  }
}
