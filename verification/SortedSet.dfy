/** datastruct/sortedset/sortedset.go: a dict and a skip list that hold the same (member, score) pairs. */
module SortedSets {
  import opened Sequences
  import opened Ordering
  import opened Borders
  import opened SkipLinks
  import opened SkipRuns
  import opened SkipLists

  /** The pairs of a dict, as elements. */
  ghost function Pairs(dict: map<string, real>): (p: set<Element>)
    ensures forall e {:trigger e in p} :: e in p <==> e.member in dict && dict[e.member] == e.score
  {
    set m | m in dict :: Element(m, dict[m])
  }

  lemma PairsPut(dict: map<string, real>, member: string, score: real)
    ensures Pairs(dict[member := score]) ==
            (if member in dict then Pairs(dict) - {Element(member, dict[member])} else Pairs(dict)) + {Element(member, score)}
  {
  }

  lemma PairsDelete(dict: map<string, real>, removed: set<Element>)
    requires removed <= Pairs(dict)
    ensures Pairs(dict - Members(removed)) == Pairs(dict) - removed
  {
    forall e ensures e in Pairs(dict - Members(removed)) <==> e in Pairs(dict) - removed {
    }
  }

  ghost function Members(s: set<Element>): (r: set<string>) {
    set e | e in s :: e.member
  }

  lemma {:induction false} PairsSize(dict: map<string, real>)
    ensures |Pairs(dict)| == |dict|
    decreases |dict|
  {
    if dict != map[] {
      var m :| m in dict;
      var rest := dict - {m};
      assert dict.Keys == rest.Keys + {m};
      PairsSize(rest);
      assert Pairs(dict) == Pairs(rest) + {Element(m, dict[m])};
    } else {
      assert Pairs(dict) == {};
    }
  }

  lemma {:induction false} ContentsSize(s: seq<Element>)
    requires Sorted(s)
    ensures |Contents(s)| == |s|
  {
    if s != [] {
      ContentsSize(s[1..]);
      forall e ensures e in Contents(s[1..]) <==> e in Contents(s) && e != s[0] {
        TailContents(s, e);
      }
      assert Contents(s) == Contents(s[1..]) + {s[0]};
    } else {
      assert Contents(s) == {};
    }
  }

  /** The members of the elements are pairwise different. */
  lemma UniqueMembers(dict: map<string, real>, s: seq<Element>)
    requires Contents(s) == Pairs(dict) && Sorted(s)
    ensures forall i, j :: 0 <= i < j < |s| ==> s[i].member != s[j].member
  {
    forall i, j | 0 <= i < j < |s| ensures s[i].member != s[j].member {
      assert s[i] in Contents(s) && s[j] in Contents(s);
      SortedDistinct'(s, i, j);
    }
  }

  lemma ReversedSlice(s: seq<Element>, a: nat, b: nat)
    requires a <= b <= |s|
    ensures Reversed(s[a..b]) == Reversed(s)[|s| - b..|s| - a]
  {
    var x, y, m := Reversed(s[a..b]), Reversed(s), s[a..b];
    forall k | 0 <= k < |x| ensures x[k] == y[|s| - b + k] {
      assert x[k] == m[|m| - 1 - k] == s[a + (|m| - 1 - k)];
    }
  }

  lemma SliceMore<T>(t: seq<T>, i: nat, j: nat)
    requires i <= j < |t|
    ensures t[i..j + 1] == t[i..j] + [t[j]]
  {
  }

  /** In visiting order, exactly the places from `lo` up to `hi` hold elements between the borders. */
  ghost predicate Spans(t: seq<Element>, min: Border, max: Border, lo: int, hi: int) {
    && 0 <= lo && hi <= |t|
    && forall j {:trigger t[j]} :: 0 <= j < |t| ==> (min.Less(t[j]) && max.Greater(t[j]) <==> lo <= j < hi)
  }

  lemma OrderedSpans(s: seq<Element>, min: Border, max: Border, a: int, b: int, desc: bool)
    requires Parts(s, min, max, a, b)
    ensures Spans(Ordered(s, desc), min, max, if desc then |s| - b else a, if desc then |s| - a else b)
  {
  }

  /** The range, in visiting order, is a stretch of the visited elements. */
  lemma OrderedBetween(s: seq<Element>, min: Border, max: Border, a: int, b: int, desc: bool)
    requires Parts(s, min, max, a, b)
    ensures Ordered(Between(s, min, max), desc) ==
            if a >= b then [] else if desc then Reversed(s)[|s| - b..|s| - a] else s[a..b]
  {
    BetweenFrom(s, min, max, a, b);
    if a < b {
      ReversedSlice(s, a, b);
    }
  }

  /** What Range promises: the range in visiting order, cut by offset and limit. */
  ghost function Cut(m: seq<Element>, offset: int, limit: int): (r: seq<Element>) {
    if limit == 0 || offset < 0 || offset >= |m| then [] else Limited(m[offset..], limit)
  }

  /**
   * When Range goes astray: the borders look crossed although elements lie between them (an infinite
   * border is compared by its unused value), or the offset leads past the range to an element behind it.
   */
  ghost predicate Astray(s: seq<Element>, min: Border, max: Border, offset: int, limit: int, desc: bool)
    requires min.ScoreBorder? == max.ScoreBorder?
  {
    var size := |Between(s, min, max)|;
    && limit != 0 && offset >= 0 && size > 0
    && if min.IsIntersected(max) then offset < size
       else offset >= size && offset < if desc then Within(s, max) else |s| - Below(s, min)
  }

  /** What Range does: the first element after the offset is taken unseen. */
  ghost function Visited(t: seq<Element>, lo: int, hi: int, offset: int, limit: int): (r: seq<Element>)
    requires 0 <= lo < hi <= |t| && offset >= 0
  {
    if lo + offset >= |t| then []
    else if lo + offset < hi then Limited(t[lo + offset..hi], limit)
    else [t[lo + offset]]
  }

  lemma VisitedIsCut(t: seq<Element>, lo: int, hi: int, offset: int, limit: int)
    requires 0 <= lo < hi <= |t| && limit != 0 && offset >= 0
    ensures Visited(t, lo, hi, offset, limit) == Cut(t[lo..hi], offset, limit) <==> !(offset >= hi - lo && lo + offset < |t|)
  {
    if offset < hi - lo {
      assert t[lo..hi][offset..] == t[lo + offset..hi];
    }
  }

  /** What Range returns, if the range takes up the places `a` to `b`. */
  ghost function RangeResult(s: seq<Element>, crossed: bool, a: nat, b: nat, offset: int, limit: int, desc: bool): (r: seq<Element>)
    requires a <= |s| && b <= |s| && offset >= 0
  {
    if crossed || a >= b then []
    else if desc then Visited(Reversed(s), |s| - b, |s| - a, offset, limit)
    else Visited(s, a, b, offset, limit)
  }

  lemma RangeVerdict(s: seq<Element>, crossed: bool, a: nat, b: nat, offset: int, limit: int, desc: bool, m: seq<Element>)
    requires a <= |s| && b <= |s| && limit != 0 && offset >= 0
    requires m == if a >= b then [] else if desc then Reversed(s)[|s| - b..|s| - a] else s[a..b]
    ensures RangeResult(s, crossed, a, b, offset, limit, desc) == Cut(m, offset, limit) <==>
            !(|m| > 0 && if crossed then offset < |m| else offset >= |m| && offset < if desc then b else |s| - a)
  {
    if a < b && !crossed {
      if desc {
        VisitedIsCut(Reversed(s), |s| - b, |s| - a, offset, limit);
      } else {
        VisitedIsCut(s, a, b, offset, limit);
      }
    }
  }

  /** Where the visiting loop stops after `k` rounds from `j` on: out of range, out of nodes or at the limit. */
  ghost predicate Stops(t: seq<Element>, j: int, hi: int, limit: int, k: int) {
    && 0 <= j < |t| && limit != 0 && 1 <= k && j + k <= |t| && hi <= |t| && (limit > 0 ==> k <= limit)
    && (k > 1 ==> j + k <= hi)
    && (j + k >= hi || k == limit)
  }

  lemma VisitEnds(t: seq<Element>, j: int, hi: int, limit: int, k: int)
    requires Stops(t, j, hi, limit, k)
    ensures t[j..j + k] == if j < hi then Limited(t[j..hi], limit) else [t[j]]
  {
  }

  /** Skipping, then visiting, gives the visited stretch. */
  lemma VisitedFrom(t: seq<Element>, lo: int, hi: int, offset: int, limit: int, slice: seq<Element>)
    requires 0 <= lo < hi <= |t| && offset >= 0 && lo + offset < |t|
    requires Stops(t, lo + offset, hi, limit, |slice|) && slice == t[lo + offset..lo + offset + |slice|]
    ensures slice == Visited(t, lo, hi, offset, limit)
  {
    VisitEnds(t, lo + offset, hi, limit, |slice|);
  }

  lemma VisitedInOrder(s: seq<Element>, a: nat, b: nat, offset: int, limit: int, desc: bool, lo: int, hi: int, slice: seq<Element>)
    requires a < b <= |s| && offset >= 0 && lo == (if desc then |s| - b else a) && hi == if desc then |s| - a else b
    requires slice == Visited(Ordered(s, desc), lo, hi, offset, limit)
    ensures slice == RangeResult(s, false, a, b, offset, limit, desc)
  {
  }

  /** Finite score borders, and lex borders other than "-" and "+", cross only when nothing can lie between them. */
  lemma CrossedIsEmpty(s: seq<Element>, min: Border, max: Border)
    requires min.ScoreBorder? == max.ScoreBorder? && min.inf.Finite? && max.inf.Finite? && min.IsIntersected(max)
    ensures Between(s, min, max) == []
  {
    forall i | 0 <= i < |s| ensures !(min.Less(s[i]) && max.Greater(s[i])) {
      if min.LexBorder? && min.Less(s[i]) && max.Greater(s[i]) {
        NothingBetween(min, max, s[i].member);
      }
    }
    NoneBetween(s, min, max);
  }

  lemma NothingBetween(min: Border, max: Border, m: string)
    requires min.LexBorder? && max.LexBorder? && min.inf.Finite? && max.inf.Finite? && min.IsIntersected(max)
    ensures !(min.Less(Element(m, 0.0)) && max.Greater(Element(m, 0.0)))
  {
    if StringLess(max.member, min.member) {
      if m != min.member {
        StringLessTotal(m, min.member);
        if StringLess(min.member, m) {
          StringLessTransitive(max.member, min.member, m);
          StringLessAsymmetric(max.member, m);
        }
      }
      StringLessAsymmetric(max.member, min.member);
    } else if m != min.member {
      StringLessTotal(m, min.member);
      if StringLess(min.member, m) {
        StringLessAsymmetric(min.member, m);
      } else {
        StringLessAsymmetric(m, min.member);
      }
    }
  }

  lemma {:induction false} NoneBetween(s: seq<Element>, min: Border, max: Border)
    requires forall i :: 0 <= i < |s| ==> !(min.Less(s[i]) && max.Greater(s[i]))
    ensures Between(s, min, max) == []
  {
    if s != [] {
      NoneBetween(s[1..], min, max);
    }
  }

  lemma SubContents(s: seq<Element>, min: Border, max: Border, limit: int)
    requires Agrees(s, min, max)
    ensures Contents(Limited(Between(s, min, max), limit)) <= Contents(s)
  {
    BetweenIsSlice(s, min, max);
  }

  /** Nothing in a sorted sequence lies below the first score. */
  lemma AllFromFirst(s: seq<Element>)
    requires Sorted(s) && s != []
    ensures Between(s, ScoreBorder(Finite, s[0].score, false), SCORE_POSITIVE_INF) == s
  {
    var min := ScoreBorder(Finite, s[0].score, false);
    forall i | 0 <= i < |s| ensures min.Less(s[i]) {
      assert i > 0 ==> Before(s[0], s[i]);
    }
    BetweenFrom(s, min, SCORE_POSITIVE_INF, 0, |s|);
  }

  /** The order in which a range is visited. */
  function Ordered(s: seq<Element>, desc: bool): (t: seq<Element>) {
    if desc then Reversed(s) else s
  }

  lemma Ranked(s: seq<Element>, e: Element, r: int, desc: bool, rank: int)
    requires rank == if desc then |s| - r else r - 1
    ensures 1 <= r <= |s| && s[r - 1] == e ==> 0 <= rank < |s| && Ordered(s, desc)[rank] == e
  {
  }

  /** The ascending and the descending rank of an element add up to the length less one. */
  lemma RanksMirror(s: seq<Element>, e: Element, asc: nat, desc: nat)
    requires Sorted(s) && asc < |s| && desc < |s| && Ordered(s, false)[asc] == e
    ensures Ordered(s, true)[desc] == e <==> asc + desc == |s| - 1
  {
    if Ordered(s, true)[desc] == e {
      SortedDistinct(s, asc, |s| - 1 - desc);
    }
  }

  /** Where in the chain the `j`-th of `n` visited elements is. */
  ghost function Place(n: int, j: int, desc: bool): int {
    if desc then n - j else j + 1
  }

  class SortedSet {
    var dict: map<string, real>
    var skiplist: SkipList

    ghost predicate Valid()
      reads this, skiplist, skiplist.chain
    {
      skiplist.Valid() && Contents(ElementsOf(skiplist.chain)) == Pairs(dict)
    }

    /** The elements in ascending order. */
    ghost function Elements(): (s: seq<Element>)
      requires |skiplist.chain| >= 1
      reads this, skiplist
    {
      ElementsOf(skiplist.chain)
    }

    constructor ()
      ensures Valid() && dict == map[] && fresh(skiplist) && fresh(skiplist.Nodes())
    {
      skiplist := new SkipList();
      dict := map[];
    }

    /** `height` is what the source draws from randomLevel. */
    method Add(member: string, score: real, height: nat) returns (isNew: bool)
      requires Valid() && 1 <= height <= MAX_LEVEL
      modifies this, skiplist, skiplist.Nodes()
      ensures Valid() && skiplist == old(skiplist) && fresh(skiplist.Nodes() - old(skiplist.Nodes()))
      ensures dict == old(dict)[member := score] && isNew == (member !in old(dict))
    {
      var e := Element(member, score);
      PairsPut(dict, member, score);
      isNew := member !in dict;
      if !isNew {
        var previous := Element(member, dict[member]);
        dict := dict[member := score];
        if score != previous.score {
          var _ := skiplist.Remove(previous);
          assert e !in Contents(Elements());
          skiplist.Insert(e, height);
        }
      } else {
        dict := dict[member := score];
        assert e !in Contents(Elements());
        skiplist.Insert(e, height);
      }
    }

    method Remove(member: string) returns (found: bool)
      requires Valid()
      modifies this, skiplist, skiplist.Nodes()
      ensures Valid() && skiplist == old(skiplist) && skiplist.Nodes() <= old(skiplist.Nodes())
      ensures dict == old(dict) - {member} && found == (member in old(dict))
    {
      found := member in dict;
      if found {
        var e := Element(member, dict[member]);
        PairsDelete(dict, {e});
        assert Members({e}) == {member};
        var _ := skiplist.Remove(e);
        dict := dict - {member};
      }
    }

    method Len() returns (n: int)
      requires Valid()
      ensures n == |dict| == |Elements()|
    {
      PairsSize(dict);
      ContentsSize(Elements());
      n := |dict|;
    }

    /** The position of `member` in ascending or descending order, -1 if it is not there. */
    method GetRank(member: string, desc: bool) returns (rank: int)
      requires Valid()
      ensures member !in dict ==> rank == -1
      ensures member in dict && (member != "" || skiplist.ReachesTop(Element(member, dict[member]))) ==>
                0 <= rank < |Elements()| && Ordered(Elements(), desc)[rank] == Element(member, dict[member])
      ensures member in dict && member == "" && !skiplist.ReachesTop(Element(member, dict[member])) ==>
                rank == if desc then |Elements()| else -1
    {
      if member !in dict {
        return -1;
      }
      var e := Element(member, dict[member]);
      assert e in Contents(Elements());
      UniqueMembers(dict, Elements());
      var r := skiplist.GetRank(e);
      skiplist.InOwnSight(e);
      rank := if desc then skiplist.length - r else r - 1;
      Ranked(Elements(), e, r, desc, rank);
    }

    /** `t` lists the elements in visiting order. */
    ghost predicate Lists(t: seq<Element>, desc: bool)
      reads this, skiplist
    {
      && |skiplist.chain| == |t| + 1
      && forall j {:trigger t[j]} :: 0 <= j < |t| ==> t[j] == skiplist.chain[Place(|t|, j, desc)].elem
    }

    lemma OrderedLists(desc: bool)
      requires |skiplist.chain| >= 1
      ensures Lists(Ordered(Elements(), desc), desc)
    {
    }

    /** `node` is the `j`-th to visit, nil past the end. */
    ghost predicate Visits(node: Node?, t: seq<Element>, j: int, desc: bool)
      reads this, skiplist
    {
      && Lists(t, desc) && 0 <= j
      && if j < |t| then node == skiplist.chain[Place(|t|, j, desc)] && node.elem == t[j] else node == null
    }

    method Step(node: Node, ghost t: seq<Element>, ghost j: int, desc: bool) returns (next: Node?)
      requires skiplist.Shaped() && Visits(node, t, j, desc)
      ensures Visits(next, t, j + 1, desc)
    {
      ghost var i := Place(|t|, j, desc);
      NextAtBase(skiplist.chain, skiplist.table, i);
      assert skiplist.back[i] == skiplist.chain[i].backward;
      next := if desc then node.backward else node.level[0].forward;
    }

    method StartAt(ghost t: seq<Element>, start: int, desc: bool) returns (node: Node?)
      requires Valid() && Lists(t, desc) && 0 <= start < |t|
      ensures Visits(node, t, start, desc)
    {
      NextAtBase(skiplist.chain, skiplist.table, 0);
      var size := Len();
      if desc {
        node := skiplist.tail;
        if start > 0 {
          node := skiplist.GetByRank(size - start);
        }
      } else {
        node := skiplist.header.level[0].forward;
        if start > 0 {
          node := skiplist.GetByRank(start + 1);
        }
      }
    }

    /** The source panics unless the bounds are within the set. */
    method RangeByRank(start: int, stop: int, desc: bool) returns (slice: seq<Element>)
      requires Valid() && 0 <= start < |Elements()| && start <= stop <= |Elements()|
      ensures slice == Ordered(Elements(), desc)[start..stop]
    {
      OrderedLists(desc);
      ghost var t := Ordered(Elements(), desc);
      var node := StartAt(t, start, desc);
      slice := Collect(node, t, start, stop, desc);
    }

    /** ForEachByRank's loop. */
    method Collect(first: Node?, ghost t: seq<Element>, start: int, stop: int, desc: bool) returns (slice: seq<Element>)
      requires skiplist.Shaped() && Visits(first, t, start, desc) && 0 <= start <= stop <= |t|
      ensures slice == t[start..stop]
    {
      var node, i := first, 0;
      slice := [];
      while i < stop - start
        invariant 0 <= i <= stop - start && Visits(node, t, start + i, desc)
        invariant slice == t[start..start + i]
      {
        slice := slice + [node.elem];
        SliceMore(t, start, start + i);
        node := Step(node, t, start + i, desc);
        i := i + 1;
      }
    }

    /** Panics on an empty set. */
    method RangeCount(min: Border, max: Border) returns (count: int)
      requires Valid() && Elements() != [] && Agrees(Elements(), min, max)
      ensures count == |Between(Elements(), min, max)|
    {
      ghost var s, a, b := Elements(), Below(Elements(), min), Within(Elements(), max);
      BetweenIsSlice(s, min, max);
      AgreesParts(s, min, max);
      var node := StartAt(s, 0, false);
      var size := Len();
      count := CountFrom(node, s, size, min, max, a, b);
    }

    method CountFrom(first: Node?, ghost t: seq<Element>, size: int, min: Border, max: Border, ghost a: int, ghost b: int) returns (count: int)
      requires skiplist.Shaped() && Visits(first, t, 0, false) && size == |t| && Parts(t, min, max, a, b)
      ensures count == if a < b then b - a else 0
    {
      var node, i := first, 0;
      count := 0;
      while i < size
        invariant 0 <= i <= size && Visits(node, t, i, false)
        invariant i > a ==> i <= b
        invariant count == if i <= a then 0 else i - a
      {
        if min.Less(node.elem) {
          if !max.Greater(node.elem) {
            break;
          }
          count := count + 1;
        }
        node := Step(node, t, i, false);
        i := i + 1;
      }
    }

    /** ForEach's skipping loop: the offset is walked without looking at the borders. */
    method Skip(first: Node?, ghost t: seq<Element>, ghost j: int, offset: int, desc: bool) returns (node: Node?)
      requires skiplist.Shaped() && Visits(first, t, j, desc) && offset >= 0
      ensures if j + offset < |t| then Visits(node, t, j + offset, desc) else node == null
    {
      node := first;
      var k := 0;
      while node != null && k < offset
        invariant 0 <= k <= offset
        invariant if j + k < |t| then Visits(node, t, j + k, desc) else node == null
      {
        node := Step(node, t, j + k, desc);
        k := k + 1;
      }
    }

    /** ForEach's visiting loop; the first node is taken without looking at the borders. */
    method Visit(first: Node, ghost t: seq<Element>, ghost j: int, ghost lo: int, ghost hi: int,
                 min: Border, max: Border, limit: int, desc: bool)
      returns (slice: seq<Element>)
      requires skiplist.Shaped() && limit != 0 && Spans(t, min, max, lo, hi) && 0 <= lo <= j
      requires Visits(first, t, j, desc)
      ensures Stops(t, j, hi, limit, |slice|) && slice == t[j..j + |slice|]
    {
      var node: Node?, i := first, 0;
      slice := [];
      while (i < limit || limit < 0) && node != null
        invariant 0 <= i && j + i <= |t| && (limit > 0 ==> i <= limit)
        invariant Visits(node, t, j + i, desc) && (i > 0 && node != null ==> j + i < hi) && (i > 1 ==> j + i <= hi)
        invariant slice == t[j..j + i]
        decreases |t| - j - i
      {
        slice := slice + [node.elem];
        SliceMore(t, j, j + i);
        node := Step(node, t, j + i, desc);
        i := i + 1;
        if node == null {
          break;
        }
        if !min.Less(node.elem) || !max.Greater(node.elem) {
          break;
        }
      }
    }

    method Range(min: Border, max: Border, offset: int, limit: int, desc: bool) returns (slice: seq<Element>)
      requires Valid() && Agrees(Elements(), min, max)
      ensures slice == Cut(Ordered(Between(Elements(), min, max), desc), offset, limit) <==>
              !Astray(Elements(), min, max, offset, limit, desc)
      ensures Parsed(min) && Parsed(max) && offset == 0 && limit != 0 ==>
                (slice == Cut(Ordered(Between(Elements(), min, max), desc), 0, limit) <==> Between(Elements(), min, max) == [] || !Blind(min, max))
    {
      if Parsed(min) && Parsed(max) {
        AstrayMeans(Elements(), min, max, offset, limit, desc);
      }
      if limit == 0 || offset < 0 {
        return [];
      }
      ghost var s, a, b := Elements(), Below(Elements(), min), Within(Elements(), max);
      AgreesParts(s, min, max);
      BetweenFrom(s, min, max, a, b);
      OrderedBetween(s, min, max, a, b, desc);
      RangeVerdict(s, min.IsIntersected(max), a, b, offset, limit, desc, Ordered(Between(s, min, max), desc));
      slice := ForEach(min, max, a, b, offset, limit, desc);
    }

    /** ForEach's start node: the first in the range, or the last if the order is descending. */
    method StartOfRange(min: Border, max: Border, desc: bool) returns (node: Node?)
      requires skiplist.Shaped() && Agrees(Elements(), min, max)
      ensures var a, b := Below(Elements(), min), Within(Elements(), max);
              node == if min.IsIntersected(max) || a >= b then null else skiplist.chain[if desc then b else a + 1]
    {
      if desc {
        node := skiplist.GetLastInRange(min, max);
      } else {
        node := skiplist.GetFirstInRange(min, max);
      }
    }

    method ForEach(min: Border, max: Border, ghost a: int, ghost b: int, offset: int, limit: int, desc: bool) returns (slice: seq<Element>)
      requires skiplist.Shaped() && Agrees(Elements(), min, max) && limit != 0 && offset >= 0
      requires a == Below(Elements(), min) && b == Within(Elements(), max)
      ensures slice == RangeResult(Elements(), min.IsIntersected(max), a, b, offset, limit, desc)
    {
      AgreesParts(Elements(), min, max);
      var node := StartOfRange(min, max, desc);
      if node == null {
        return [];
      }
      slice := RangeOf(node, a, b, min, max, offset, limit, desc);
    }

    method RangeOf(first: Node, ghost a: int, ghost b: int, min: Border, max: Border, offset: int, limit: int, desc: bool)
      returns (slice: seq<Element>)
      requires skiplist.Shaped() && limit != 0 && offset >= 0 && Parts(Elements(), min, max, a, b) && a < b
      requires first == skiplist.chain[if desc then b else a + 1]
      ensures slice == RangeResult(Elements(), false, a, b, offset, limit, desc)
    {
      ghost var s := Elements();
      ghost var lo, hi := if desc then |s| - b else a, if desc then |s| - a else b;
      OrderedLists(desc);
      OrderedSpans(s, min, max, a, b, desc);
      slice := RangeFrom(first, Ordered(s, desc), lo, hi, min, max, offset, limit, desc);
      VisitedInOrder(s, a, b, offset, limit, desc, lo, hi, slice);
    }

    /** ForEach from its start node on. */
    method RangeFrom(first: Node, ghost t: seq<Element>, ghost lo: int, ghost hi: int,
                     min: Border, max: Border, offset: int, limit: int, desc: bool)
      returns (slice: seq<Element>)
      requires skiplist.Shaped() && limit != 0 && offset >= 0 && Lists(t, desc) && Spans(t, min, max, lo, hi) && lo < hi
      requires first == skiplist.chain[Place(|t|, lo, desc)]
      ensures slice == Visited(t, lo, hi, offset, limit)
    {
      assert t[lo] == first.elem;
      var node := Skip(first, t, lo, offset, desc);
      if node == null {
        return [];
      }
      slice := Visit(node, t, lo + offset, lo, hi, min, max, limit, desc);
      VisitedFrom(t, lo, hi, offset, limit, slice);
    }

    /** The loops that drop the removed elements from the dict. */
    method Forget(removed: seq<Element>)
      modifies this`dict
      ensures dict == old(dict) - Members(Contents(removed))
    {
      var i := 0;
      while i < |removed|
        invariant 0 <= i <= |removed|
        invariant dict == old(dict) - Members(Contents(removed[..i]))
      {
        dict := dict - {removed[i].member};
        assert Contents(removed[..i + 1]) == Contents(removed[..i]) + {removed[i]};
        assert Members(Contents(removed[..i + 1])) == Members(Contents(removed[..i])) + {removed[i].member};
        i := i + 1;
      }
      assert removed[..i] == removed;
    }

    method RemoveRange(min: Border, max: Border) returns (n: int)
      requires Valid() && Agrees(Elements(), min, max)
      modifies this, skiplist, skiplist.Nodes()
      ensures Valid() && skiplist == old(skiplist) && skiplist.Nodes() <= old(skiplist.Nodes())
      ensures n == old(|Between(Elements(), min, max)|)
      ensures dict == old(dict) - old(Members(Contents(Between(Elements(), min, max))))
    {
      var removed := skiplist.RemoveRange(min, max, 0);
      SubContents(old(Elements()), min, max, 0);
      PairsDelete(dict, Contents(removed));
      Forget(removed);
      n := |removed|;
    }

    /** `count` below 1 is taken for "no limit". */
    method PopMin(count: int) returns (removed: seq<Element>)
      requires Valid()
      modifies this, skiplist, skiplist.Nodes()
      ensures Valid() && skiplist == old(skiplist) && skiplist.Nodes() <= old(skiplist.Nodes())
      ensures removed == old(Limited(Elements(), count))
      ensures dict == old(dict) - Members(Contents(removed))
    {
      ghost var s := Elements();
      ScoreBordersAgree(s, SCORE_NEGATIVE_INF, SCORE_POSITIVE_INF);
      AgreesParts(s, SCORE_NEGATIVE_INF, SCORE_POSITIVE_INF);
      var first := skiplist.GetFirstInRange(SCORE_NEGATIVE_INF, SCORE_POSITIVE_INF);
      if first == null {
        removed := [];
        assert Members(Contents(removed)) == {};
        return;
      }
      var border := ScoreBorder(Finite, first.elem.score, false);
      assert first.elem == s[0];
      AllFromFirst(s);
      ScoreBordersAgree(s, border, SCORE_POSITIVE_INF);
      removed := skiplist.RemoveRange(border, SCORE_POSITIVE_INF, count);
      SubContents(s, border, SCORE_POSITIVE_INF, count);
      PairsDelete(dict, Contents(removed));
      Forget(removed);
    }

    /** Ranks count from 0, `stop` excluded. */
    method RemoveByRank(start: int, stop: int) returns (n: int)
      requires Valid()
      modifies this, skiplist, skiplist.Nodes()
      ensures Valid() && skiplist == old(skiplist) && skiplist.Nodes() <= old(skiplist.Nodes())
      ensures n == old(|ByRank(Elements(), start + 1, stop + 1)|)
      ensures dict == old(dict) - old(Members(Contents(ByRank(Elements(), start + 1, stop + 1))))
    {
      var removed := skiplist.RemoveRangeByRank(start + 1, stop + 1);
      assert forall e :: e in removed ==> e in old(Elements());
      PairsDelete(dict, Contents(removed));
      Forget(removed);
      n := |removed|;
    }
  }

  /** The range of all scores up to -5 holds -7, and Range leaves it out: the 0 stored for minus infinity makes the borders look crossed. */
  lemma InfinityCrosses()
    ensures var s, min, max := [Element("a", -7.0)], SCORE_NEGATIVE_INF, ScoreBorder(Finite, -5.0, false);
            && Sorted(s) && Between(s, min, max) == s && Astray(s, min, max, 0, -1, false)
            && RangeResult(s, min.IsIntersected(max), Below(s, min), Within(s, max), 0, -1, false) == []
  {
    var s, min, max := [Element("a", -7.0)], SCORE_NEGATIVE_INF, ScoreBorder(Finite, -5.0, false);
    assert Between(s[1..], min, max) == [];
    assert Ordered(Between(s, min, max), false) == s;
  }

  /** An offset behind a range of one element lands on the next element, which is not in the range. */
  lemma OffsetLandsBehind()
    ensures var s, border := [Element("a", 1.0), Element("b", 2.0)], ScoreBorder(Finite, 1.0, false);
            && Sorted(s) && Between(s, border, border) == [s[0]] && Astray(s, border, border, 1, -1, false)
            && Cut(Between(s, border, border), 1, -1) == []
            && RangeResult(s, border.IsIntersected(border), Below(s, border), Within(s, border), 1, -1, false) == [s[1]]
  {
    var s, border := [Element("a", 1.0), Element("b", 2.0)], ScoreBorder(Finite, 1.0, false);
    assert s[1..] == [s[1]] && s[1..][1..] == [];
    assert Between(s[1..], border, border) == [];
    assert Ordered(Between(s, border, border), false) == [s[0]];
    assert Below(s, border) == 0 && Within(s, border) == 1;
  }

  /* ---- What Range, offset, limit and ranks are ---- */

  /** Range finds nothing between the borders, whatever is there. */
  ghost predicate Blind(min: Border, max: Border)
    requires min.ScoreBorder? == max.ScoreBorder?
  {
    if min.ScoreBorder? then
      || (min.inf.NegativeInf? && max.inf.Finite? && (max.score < 0.0 || (max.score == 0.0 && max.exclude)))
      || (min.inf.Finite? && max.inf.PositiveInf? && (min.score > 0.0 || (min.score == 0.0 && min.exclude)))
    else
      || (min.inf.NegativeInf? && max.inf.Finite? && max.member == "" && max.exclude)
      || (min.inf.Finite? && max.inf.PositiveInf? && (min.member != "" || min.exclude))
  }

  lemma EmptyParts(a: string)
    ensures (exists k: nat :: PartsBelow("", a, k)) <==> a != ""
    ensures !exists k: nat :: PartsBelow(a, "", k)
  {
    assert a != "" ==> PartsBelow("", a, 0);
  }

  /** An unbounded end hides the range just if the other end lies beyond 0, or is any but the empty string in front of "+". */
  lemma BlindMeans(s: seq<Element>, min: Border, max: Border)
    requires Parsed(min) && Parsed(max) && min.ScoreBorder? == max.ScoreBorder? && Between(s, min, max) != []
    ensures min.IsIntersected(max) <==> Blind(min, max)
  {
    CrossedMeans(min, max);
    var e := Between(s, min, max)[0];
    BetweenMeans(s, min, max, e);
    if min.LexBorder? {
      EmptyParts(min.member);
      EmptyParts(max.member);
    }
    if min.inf.Finite? && max.inf.Finite? && min.IsIntersected(max) {
      CrossedIsEmpty(s, min, max);
    }
  }

  /** Range gives the range, cut by offset and limit, if and only if it is not blind to it and the offset does not lead past its end to another element. */
  lemma AstrayMeans(s: seq<Element>, min: Border, max: Border, offset: int, limit: int, desc: bool)
    requires Parsed(min) && Parsed(max) && min.ScoreBorder? == max.ScoreBorder?
    ensures var size := |Between(s, min, max)|;
            Astray(s, min, max, offset, limit, desc) <==>
              && limit != 0 && offset >= 0 && size > 0
              && if Blind(min, max) then offset < size
                 else offset >= size && offset < if desc then Within(s, max) else |s| - Below(s, min)
  {
    if Between(s, min, max) != [] {
      BlindMeans(s, min, max);
    }
  }

  /** Offset and limit: the elements from the offset on, as many as the limit if that is positive. */
  lemma CutMeans(m: seq<Element>, offset: int, limit: int)
    ensures var r := Cut(m, offset, limit);
            if limit == 0 || offset < 0 || offset >= |m| then r == []
            else |r| == (if 0 < limit < |m| - offset then limit else |m| - offset) && forall k {:trigger r[k]} :: 0 <= k < |r| ==> r[k] == m[offset + k]
  {
  }

  /** Ranks count from 1, the second bound excluded. */
  lemma RanksMean(s: seq<Element>, start: int, stop: int, e: Element)
    ensures e in ByRank(s, start, stop) <==> exists i {:trigger s[i]} :: 0 <= i < |s| && start <= i + 1 < stop && s[i] == e
  {
    var p := RankStart(s, start);
    var r := ByRank(s, start, stop);
    if e in r {
      var k :| 0 <= k < |r| && r[k] == e;
      assert s[p..][k] == s[p + k];
      assert s[p + k] == e && p + k + 1 < stop;
    }
    if i :| 0 <= i < |s| && start <= i + 1 < stop && s[i] == e {
      assert p <= i && s[p..][i - p] == e && i - p < |r|;
      assert r[i - p] == e;
    }
  }
}
