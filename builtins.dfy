/**
 * The pieces of the Python runtime that the hand evaluator and the chat log
 * rely on: `sorted(..., reverse=True)`, `set(...)`, `Counter(...).most_common()`
 * and the open-ended slice `s[start:]`.
 */
module Builtins {

  // ---------------------------------------------------------------------------
  // sorted(values, reverse=True)
  // ---------------------------------------------------------------------------

  /** Non-increasing order. */
  ghost predicate SortedDesc(s: seq<int>)
  {
    forall i, j :: 0 <= i < j < |s| ==> s[i] >= s[j]
  }

  /** Places `x` in front of the first element that does not exceed it. */
  function InsertDesc(x: int, s: seq<int>): (r: seq<int>)
    ensures multiset(r) == multiset{x} + multiset(s)
    ensures |r| == |s| + 1
    ensures forall k :: 0 <= k < |r| ==> r[k] == x || r[k] in s
  {
    if s == [] || x >= s[0] then [x] + s
    else
      assert s == [s[0]] + s[1..];
      [s[0]] + InsertDesc(x, s[1..])
  }

  /** Inserting into a list in non-increasing order keeps that order. */
  lemma {:induction false} InsertDescSorted(x: int, s: seq<int>)
    requires SortedDesc(s)
    ensures SortedDesc(InsertDesc(x, s))
  {
    if s == [] || x >= s[0] {
      assert forall y :: y in s ==> y <= x by {
        assert forall k :: 0 <= k < |s| ==> s[k] <= s[0];
      }
      SortedCons(x, s);
    } else {
      var t := InsertDesc(x, s[1..]);
      assert InsertDesc(x, s) == [s[0]] + t;
      InsertDescSorted(x, s[1..]);
      assert forall y :: y in t ==> y <= s[0] by {
        assert forall k :: 0 <= k < |t| ==> t[k] == x || t[k] in s[1..];
        assert forall k :: 1 <= k < |s| ==> s[k] <= s[0];
      }
      SortedCons(s[0], t);
    }
  }

  /** Putting an element no smaller than any other in front keeps the order. */
  lemma SortedCons(x: int, t: seq<int>)
    requires SortedDesc(t)
    requires forall y :: y in t ==> y <= x
    ensures SortedDesc([x] + t)
  {
    var r := [x] + t;
    forall i, j | 0 <= i < j < |r|
      ensures r[i] >= r[j]
    {
      assert r[j] == t[j - 1] && t[j - 1] in t;
      if i > 0 {
        assert r[i] == t[i - 1];
      }
    }
  }

  /** `sorted(s, reverse=True)` on integers: the same multiset, largest first. */
  function SortDesc(s: seq<int>): (r: seq<int>)
    ensures SortedDesc(r)
    ensures multiset(r) == multiset(s)
    ensures |r| == |s|
  {
    if s == [] then []
    else
      assert s == [s[0]] + s[1..];
      InsertDescSorted(s[0], SortDesc(s[1..]));
      InsertDesc(s[0], SortDesc(s[1..]))
  }

  /** The head of a list in non-increasing order is its largest element. */
  lemma HeadIsLargest(s: seq<int>, x: int)
    requires SortedDesc(s) && x in s
    ensures x <= s[0]
  {
    var j :| 0 <= j < |s| && s[j] == x;
  }

  /** Dropping the head of a list drops one copy of it from the multiset. */
  lemma TailMultiset<T>(s: seq<T>)
    requires s != []
    ensures multiset(s[1..]) == multiset(s) - multiset{s[0]}
  {
    assert s == [s[0]] + s[1..];
  }

  /** A list in non-increasing order is determined by its multiset. */
  lemma {:induction false} SortedDescUnique(s: seq<int>, t: seq<int>)
    requires SortedDesc(s) && SortedDesc(t)
    requires multiset(s) == multiset(t)
    ensures s == t
  {
    if s != [] {
      assert |t| == |s| && s[0] == t[0] by {
        assert |multiset(t)| == |multiset(s)|;
        assert s[0] in multiset(t) && t[0] in multiset(s);
        HeadIsLargest(t, s[0]);
        HeadIsLargest(s, t[0]);
      }
      assert multiset(s[1..]) == multiset(t[1..]) by {
        TailMultiset(s);
        TailMultiset(t);
      }
      SortedDescUnique(s[1..], t[1..]);
      assert s == [s[0]] + s[1..] && t == [t[0]] + t[1..];
    }
  }

  /** Sorting gives the same result for any two orderings of the same values. */
  lemma SortDescOrderFree(s: seq<int>, t: seq<int>)
    requires multiset(s) == multiset(t)
    ensures SortDesc(s) == SortDesc(t)
  {
    SortedDescUnique(SortDesc(s), SortDesc(t));
  }

  /** Taking the element at one position out of a list takes one copy of it out of the
      list's multiset. */
  lemma RemoveOne<T>(s: seq<T>, j: nat)
    requires j < |s|
    ensures multiset(s[..j] + s[j + 1..]) == multiset(s) - multiset{s[j]}
  {
    assert s == s[..j] + [s[j]] + s[j + 1..];
  }

  // ---------------------------------------------------------------------------
  // set(values)
  // ---------------------------------------------------------------------------

  /** `set(s)`: the distinct elements of a list. */
  function Elems<T(!new)>(s: seq<T>): (r: set<T>)
    ensures forall x :: x in r <==> x in s
  {
    set x | x in s
  }

  // ---------------------------------------------------------------------------
  // Counter(values).most_common()
  // ---------------------------------------------------------------------------

  /** Two different values together occur at most as often as the list is long. */
  lemma {:induction false} TwoCountsBound(s: seq<int>, v: int, w: int)
    ensures v != w ==> multiset(s)[v] + multiset(s)[w] <= |s|
  {
    if s != [] {
      assert s == s[..|s| - 1] + [s[|s| - 1]];
      TwoCountsBound(s[..|s| - 1], v, w);
    }
  }

  /** Three different values together occur at most as often as the list is long. */
  lemma {:induction false} ThreeCountsBound(s: seq<int>, u: int, v: int, w: int)
    ensures u != v && v != w && u != w ==>
      multiset(s)[u] + multiset(s)[v] + multiset(s)[w] <= |s|
  {
    if s != [] {
      assert s == s[..|s| - 1] + [s[|s| - 1]];
      ThreeCountsBound(s[..|s| - 1], u, v, w);
    }
  }

  /** The distinct values of a list in order of first occurrence (a Counter's key order). */
  function Distinct(s: seq<int>): (r: seq<int>)
    ensures forall x :: x in r <==> x in s
    ensures forall i, j :: 0 <= i < j < |r| ==> r[i] != r[j]
  {
    if s == [] then []
    else
      var d := Distinct(s[..|s| - 1]);
      assert s == s[..|s| - 1] + [s[|s| - 1]];
      if s[|s| - 1] in d then d else d + [s[|s| - 1]]
  }

  /** A Counter's items, in key order: each distinct value with its number of occurrences. */
  function Tally(s: seq<int>): (r: seq<(int, nat)>)
  {
    var d := Distinct(s);
    seq(|d|, i requires 0 <= i < |d| => (d[i], multiset(s)[d[i]]))
  }

  /** Non-increasing by count. */
  ghost predicate ByCountDesc(ps: seq<(int, nat)>)
  {
    forall i, j :: 0 <= i < j < |ps| ==> ps[i].1 >= ps[j].1
  }

  /** No value occurs twice among the pairs. */
  ghost predicate KeysDistinct(ps: seq<(int, nat)>)
  {
    forall i, j :: 0 <= i < j < |ps| ==> ps[i].0 != ps[j].0
  }

  /** Places `p` before the first pair whose count does not exceed its own, so that pairs of
      equal count keep their relative order. */
  function InsertByCount(p: (int, nat), ps: seq<(int, nat)>): (r: seq<(int, nat)>)
    ensures multiset(r) == multiset{p} + multiset(ps)
    ensures |r| == |ps| + 1
    ensures forall k :: 0 <= k < |r| ==> r[k] == p || r[k] in ps
  {
    if ps == [] || p.1 >= ps[0].1 then [p] + ps
    else
      assert ps == [ps[0]] + ps[1..];
      [ps[0]] + InsertByCount(p, ps[1..])
  }

  /** Inserting into a list ordered by count keeps it ordered by count. */
  lemma {:induction false} InsertByCountOrder(p: (int, nat), ps: seq<(int, nat)>)
    requires ByCountDesc(ps)
    ensures ByCountDesc(InsertByCount(p, ps))
  {
    if ps == [] || p.1 >= ps[0].1 {
      assert forall x :: x in ps ==> x.1 <= p.1 by {
        assert forall k :: 0 <= k < |ps| ==> ps[k].1 <= ps[0].1;
      }
      CountCons(p, ps);
    } else {
      var t := InsertByCount(p, ps[1..]);
      assert InsertByCount(p, ps) == [ps[0]] + t;
      InsertByCountOrder(p, ps[1..]);
      assert forall x :: x in t ==> x.1 <= ps[0].1 by {
        assert forall k :: 0 <= k < |t| ==> t[k] == p || t[k] in ps[1..];
        assert forall k :: 1 <= k < |ps| ==> ps[k].1 <= ps[0].1;
      }
      CountCons(ps[0], t);
    }
  }

  /** Putting a pair whose count is at least every other count in front keeps the order. */
  lemma CountCons(q: (int, nat), t: seq<(int, nat)>)
    requires ByCountDesc(t)
    requires forall x :: x in t ==> x.1 <= q.1
    ensures ByCountDesc([q] + t)
  {
    var r := [q] + t;
    forall i, j | 0 <= i < j < |r|
      ensures r[i].1 >= r[j].1
    {
      assert r[j] == t[j - 1] && t[j - 1] in t;
      if i > 0 {
        assert r[i] == t[i - 1];
      }
    }
  }

  /** A stable sort of pairs by count, largest count first. */
  function SortByCount(ps: seq<(int, nat)>): (r: seq<(int, nat)>)
    ensures ByCountDesc(r)
    ensures multiset(r) == multiset(ps)
    ensures forall k :: 0 <= k < |r| ==> r[k] in ps
  {
    if ps == [] then []
    else
      assert ps == [ps[0]] + ps[1..];
      InsertByCountOrder(ps[0], SortByCount(ps[1..]));
      InsertByCount(ps[0], SortByCount(ps[1..]))
  }

  /** Inserting a pair whose value is new keeps the values distinct. */
  lemma {:induction false} InsertByCountKeys(p: (int, nat), ps: seq<(int, nat)>)
    requires KeysDistinct(ps)
    requires forall q :: q in ps ==> q.0 != p.0
    ensures KeysDistinct(InsertByCount(p, ps))
  {
    if ps != [] && p.1 < ps[0].1 {
      var t := InsertByCount(p, ps[1..]);
      assert InsertByCount(p, ps) == [ps[0]] + t;
      assert KeysDistinct(t) by {
        assert forall q :: q in ps[1..] ==> q in ps;
        InsertByCountKeys(p, ps[1..]);
      }
      assert forall q :: q in t ==> q.0 != ps[0].0 by {
        assert forall k :: 0 <= k < |t| ==> t[k] == p || t[k] in ps[1..];
      }
      KeysCons(ps[0], t);
    } else {
      KeysCons(p, ps);
    }
  }

  /** Putting a pair with a new value in front keeps the values distinct. */
  lemma KeysCons(q: (int, nat), t: seq<(int, nat)>)
    requires KeysDistinct(t)
    requires forall x :: x in t ==> x.0 != q.0
    ensures KeysDistinct([q] + t)
  {
    var r := [q] + t;
    forall i, j | 0 <= i < j < |r|
      ensures r[i].0 != r[j].0
    {
      assert r[j] == t[j - 1];
      if i > 0 {
        assert r[i] == t[i - 1];
      }
    }
  }

  /** Sorting by count keeps the values distinct. */
  lemma {:induction false} SortByCountKeys(ps: seq<(int, nat)>)
    requires KeysDistinct(ps)
    ensures KeysDistinct(SortByCount(ps))
  {
    if ps != [] {
      SortByCountKeys(ps[1..]);
      var t := SortByCount(ps[1..]);
      assert forall q :: q in t ==> q in ps[1..];
      InsertByCountKeys(ps[0], t);
    }
  }

  /** `Counter(s).most_common()`: (value, count) pairs, most frequent first, ties in
      order of first occurrence. */
  function MostCommon(s: seq<int>): seq<(int, nat)>
  {
    SortByCount(Tally(s))
  }

  /** What the evaluator relies on: every pair is a value of the list with its count, every
      occurring value has its pair, values are not repeated and counts do not increase. */
  lemma MostCommonFacts(s: seq<int>)
    ensures forall i :: 0 <= i < |MostCommon(s)| ==>
      MostCommon(s)[i].0 in s && MostCommon(s)[i].1 == multiset(s)[MostCommon(s)[i].0]
    ensures forall v :: v in s ==> (v, multiset(s)[v]) in MostCommon(s)
    ensures ByCountDesc(MostCommon(s)) && KeysDistinct(MostCommon(s))
    ensures |s| > 0 ==> |MostCommon(s)| > 0
  {
    var d := Distinct(s);
    var t := Tally(s);
    var mc := MostCommon(s);
    assert KeysDistinct(t);
    SortByCountKeys(t);
    forall i | 0 <= i < |mc|
      ensures mc[i].0 in s && mc[i].1 == multiset(s)[mc[i].0]
    {
      assert mc[i] in multiset(t);
    }
    forall v | v in s
      ensures (v, multiset(s)[v]) in mc
    {
      var k :| 0 <= k < |d| && d[k] == v;
      assert t[k] == (v, multiset(s)[v]);
      assert t[k] in multiset(mc);
    }
    if |s| > 0 {
      assert s[0] in s;
    }
  }

  // ---------------------------------------------------------------------------
  // s[start:]
  // ---------------------------------------------------------------------------

  /** The Python slice `s[start:]`: a negative start counts from the end, and a start beyond
      either end is clamped. The result is always a suffix of `s`. */
  function SliceFrom<T>(s: seq<T>, start: int): (r: seq<T>)
    ensures |r| <= |s| && r == s[|s| - |r|..]
  {
    var k := if start < 0 then start + |s| else start;
    if k < 0 then s
    else if k > |s| then []
    else s[k..]
  }
}
