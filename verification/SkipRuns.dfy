/** datastruct/sortedset/skiplist.go: what the loops of RemoveRange and RemoveRangeByRank take out of a sorted sequence. */
module SkipRuns {
  import opened Sequences
  import opened Ordering
  import opened Borders
  import opened SkipLinks

  /** A list cut off after `limit` entries, if `limit` is positive. */
  function Limited<T>(s: seq<T>, limit: int): (t: seq<T>) {
    if 0 < limit < |s| then s[..limit] else s
  }

  datatype Outcome = Outcome(removed: seq<Element>, rest: seq<Element>)

  /**
   * Where a removing loop at index `p` ends, with `removed` in hand and `s` in the list: it goes on while
   * `max` admits the next element, and for `limit` more rounds at most if that is positive.
   */
  ghost function Finish(removed: seq<Element>, s: seq<Element>, p: nat, max: Border, limit: int): (o: Outcome)
    decreases |s|
  {
    if p < |s| && max.Greater(s[p]) then
      var removed', s' := removed + [s[p]], Without(s, p);
      if limit == 1 then Outcome(removed', s') else Finish(removed', s', p, max, limit - 1)
    else Outcome(removed, s)
  }

  /** How many rounds that is, if `max` admits exactly the first `b` elements. */
  ghost function Rounds(p: nat, b: nat, limit: int): (k: nat) {
    var n := if p < b then b - p else 0;
    if 0 < limit < n then limit else n
  }

  /** The outcome when `k` elements from index `p` on are taken out. */
  ghost function Taken(removed: seq<Element>, s: seq<Element>, p: nat, k: nat): (o: Outcome)
    requires p + k <= |s|
  {
    Outcome(removed + s[p..p + k], s[..p] + s[p + k..])
  }

  /** What is still to come, if `left` rounds are left; none if that is 0. */
  ghost function Ahead(removed: seq<Element>, s: seq<Element>, p: nat, max: Border, left: int): (o: Outcome) {
    if left == 0 then Outcome(removed, s) else Finish(removed, s, p, max, left)
  }

  /** One round of a removing loop. */
  lemma FinishStep(removed: seq<Element>, s: seq<Element>, p: nat, max: Border, limit: int)
    requires p < |s| && max.Greater(s[p])
    ensures Finish(removed, s, p, max, limit) == Ahead(removed + [s[p]], Without(s, p), p, max, limit - 1)
  {
  }

  ghost predicate AdmitsAt(s: seq<Element>, max: Border, b: nat, i: int) {
    0 <= i < |s| ==> (max.Greater(s[i]) <==> i < b)
  }

  /** `max` admits exactly the first `b` elements. */
  ghost predicate Admits(s: seq<Element>, max: Border, b: nat) {
    b <= |s| && forall i {:trigger AdmitsAt(s, max, b, i)} :: AdmitsAt(s, max, b, i)
  }

  lemma AdmitsLess(s: seq<Element>, max: Border, b: nat, p: nat)
    requires Admits(s, max, b) && p < b
    ensures Admits(Without(s, p), max, b - 1)
  {
    forall i {:trigger AdmitsAt(Without(s, p), max, b - 1, i)} ensures AdmitsAt(Without(s, p), max, b - 1, i) {
      assert AdmitsAt(s, max, b, if i < p then i else i + 1);
    }
  }

  lemma {:induction false} FinishIs(removed: seq<Element>, s: seq<Element>, p: nat, max: Border, limit: int, b: nat)
    requires p <= |s| && Admits(s, max, b)
    ensures var k := Rounds(p, b, limit);
            p + k <= |s| && Finish(removed, s, p, max, limit) == Taken(removed, s, p, k)
    decreases |s|
  {
    var k := Rounds(p, b, limit);
    assert AdmitsAt(s, max, b, p);
    if p < b {
      var t := Without(s, p);
      WithoutSlices(s, p);
      FinishStep(removed, s, p, max, limit);
      if limit != 1 {
        AdmitsLess(s, max, b, p);
        FinishIs(removed + [s[p]], t, p, max, limit - 1, b - 1);
        MoreSlices(removed, s, t, p, Rounds(p, b - 1, limit - 1), k);
      } else {
        MoreSlices(removed, s, t, p, 0, k);
      }
    } else {
      NoSlice(removed, s, p);
    }
  }

  lemma NoSlice(removed: seq<Element>, s: seq<Element>, p: nat)
    requires p <= |s|
    ensures Taken(removed, s, p, 0) == Outcome(removed, s)
  {
    assert s == s[..p] + s[p..] && removed + s[p..p] == removed;
  }

  lemma MoreSlices(removed: seq<Element>, s: seq<Element>, t: seq<Element>, p: nat, n: nat, k: nat)
    requires p < |s| && |t| == |s| - 1 && t[..p] == s[..p] && t[p..] == s[p + 1..] && k == n + 1 && p + k <= |s|
    ensures Taken(removed + [s[p]], t, p, n) == Taken(removed, s, p, k) && (n == 0 ==> Outcome(removed + [s[p]], t) == Taken(removed, s, p, k))
  {
    SliceOfRest(t, p, n);
    SliceOfRest(s, p + 1, n);
    SliceHead(s, p, p + k);
    Associative(removed, [s[p]], s[p + 1..p + k]);
    Halves(t, p);
    if n == 0 {
      assert s[p + 1..p + k] == [];
    }
  }

  lemma CutOutSorted(s: seq<Element>, t: seq<Element>, p: nat, q: nat)
    requires Sorted(s) && p <= q <= |s| && t == s[..p] + s[q..]
    ensures Sorted(t) && Contents(t) == Contents(s) - Contents(s[p..q])
  {
    forall x ensures x in t <==> x in s && x !in s[p..q] {
      CutOutHas(s, t, p, q, x);
    }
  }

  lemma InSlice(s: seq<Element>, p: nat, q: nat, i: nat)
    requires p <= q <= |s|
    ensures p <= i < q ==> s[i] in s[p..q]
  {
    assert p <= i < q ==> s[p..q][i - p] == s[i];
  }

  lemma CutOutHas(s: seq<Element>, t: seq<Element>, p: nat, q: nat, x: Element)
    requires Sorted(s) && p <= q <= |s| && t == s[..p] + s[q..]
    ensures x in t <==> x in s && x !in s[p..q]
  {
    if x in t {
      var i :| 0 <= i < |t| && t[i] == x;
      var k := if i < p then i else i + (q - p);
      assert s[k] == x;
      forall j | p <= j < q ensures s[j] != x {
        SortedDistinct'(s, j, k);
      }
    }
    if x in s && x !in s[p..q] {
      var i :| 0 <= i < |s| && s[i] == x;
      InSlice(s, p, q, i);
      assert t[if i < p then i else i - (q - p)] == x;
    }
  }

  /** The outcome is sorted, and what is missing from it is what was removed. */
  ghost predicate Splits(s: seq<Element>, o: Outcome, taken: seq<Element>) {
    o.removed == taken && Sorted(o.rest) && Contents(o.rest) == Contents(s) - Contents(taken)
  }

  lemma FinishSplits(s: seq<Element>, p: nat, max: Border, limit: int, b: nat)
    requires Sorted(s) && p <= |s| && Admits(s, max, b)
    ensures Splits(s, Finish([], s, p, max, limit), Limited(if p < b then s[p..b] else [], limit))
  {
    FinishIs([], s, p, max, limit, b);
    var k := Rounds(p, b, limit);
    CutOutSorted(s, s[..p] + s[p + k..], p, p + k);
    LimitedIs(s, p, b, limit);
  }

  lemma LimitedIs(s: seq<Element>, p: nat, b: nat, limit: int)
    requires p <= |s| && b <= |s|
    ensures Limited(if p < b then s[p..b] else [], limit) == s[p..p + Rounds(p, b, limit)]
  {
  }

  /** Between two borders, a removing loop takes the elements of the range, up to the limit. */
  lemma FinishBetween(s: seq<Element>, min: Border, max: Border, limit: int)
    requires Sorted(s) && Agrees(s, min, max)
    ensures Splits(s, Finish([], s, Below(s, min), max, limit), Limited(Between(s, min, max), limit))
  {
    AgreesParts(s, min, max);
    FinishSplits(s, Below(s, min), max, limit, Within(s, max));
    BetweenFrom(s, min, max, Below(s, min), Within(s, max));
  }

  /** The elements of rank `start` up to but not including `stop`, counting from 1. */
  ghost function ByRank(s: seq<Element>, start: int, stop: int): (r: seq<Element>) {
    var p := RankStart(s, start);
    if stop - 1 <= p then [] else Limited(s[p..], stop - 1 - p)
  }

  ghost function RankStart(s: seq<Element>, start: int): (p: nat)
    ensures p <= |s|
  {
    if start <= 1 then 0 else if start - 1 <= |s| then start - 1 else |s|
  }

  lemma FinishByRank(s: seq<Element>, start: int, stop: int)
    requires Sorted(s) && stop - 1 > RankStart(s, start)
    ensures var p := RankStart(s, start);
            Splits(s, Finish([], s, p, SCORE_POSITIVE_INF, stop - 1 - p), ByRank(s, start, stop))
  {
    var p := RankStart(s, start);
    FinishSplits(s, p, SCORE_POSITIVE_INF, stop - 1 - p, |s|);
    assert s[p..|s|] == s[p..];
  }
}
