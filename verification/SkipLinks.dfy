/** datastruct/sortedset/skiplist.go: what a correctly linked skip list is, level by level. */
module SkipLinks {
  import opened Sequences
  import opened Ordering
  import opened Borders

  const MAX_LEVEL := 16

  datatype Level = Level(forward: Node?, span: int)

  class Node {
    const elem: Element
    var backward: Node?
    var level: seq<Level>

    constructor (height: nat, elem: Element)
      ensures this.elem == elem && backward == null && |level| == height
      ensures forall l :: 0 <= l < height ==> level[l] == Level(null, 0)
    {
      this.elem := elem;
      backward := null;
      level := seq(height, _ => Level(null, 0));
    }
  }

  /** Row `i` holds the levels of the node of rank `i`; the header has rank 0. */
  type Table = seq<seq<Level>>

  /** No node of rank in (i, j) reaches above level `l`. */
  ghost predicate Clear(t: Table, i: int, j: int, l: nat) {
    forall m {:trigger t[m]} :: 0 <= m < |t| && i < m < j ==> |t[m]| <= l
  }

  /**
   * A level-`l` link out of the node of rank `i`: it leads to the next node tall enough, `s` ranks
   * further on; or nowhere, and then `s` counts the nodes behind `i`.
   */
  ghost predicate LinkOk(chain: seq<Node>, t: Table, i: int, l: nat, f: Node?, s: int)
    requires |chain| == |t|
  {
    if f == null then s == |t| - 1 - i && Clear(t, i, |t|, l)
    else 0 <= i < i + s < |t| && f == chain[i + s] && |t[i + s]| > l && Clear(t, i, i + s, l)
  }

  ghost predicate Linked(chain: seq<Node>, t: Table, i: int, l: nat)
    requires 0 <= i < |chain| == |t|
  {
    l < |t[i]| && LinkOk(chain, t, i, l, t[i][l].forward, t[i][l].span)
  }

  ghost predicate LevelLinked(chain: seq<Node>, t: Table, l: nat)
    requires |chain| == |t|
  {
    forall i {:trigger Linked(chain, t, i, l)} :: 0 <= i < |chain| && |t[i]| > l ==> Linked(chain, t, i, l)
  }

  ghost predicate Differ(chain: seq<Node>, i: int, j: int)
    requires 0 <= i < |chain| && 0 <= j < |chain|
  {
    chain[i] != chain[j]
  }

  ghost predicate Distinct(chain: seq<Node>) {
    forall i, j {:trigger Differ(chain, i, j)} :: 0 <= i < |chain| && 0 <= j < |chain| && i != j ==> Differ(chain, i, j)
  }

  lemma OnlyAt(chain: seq<Node>, r: int)
    requires Distinct(chain) && 0 <= r < |chain|
    ensures forall i {:trigger chain[i]} :: 0 <= i < |chain| && chain[i] == chain[r] ==> i == r
  {
    forall i {:trigger chain[i]} | 0 <= i < |chain| && chain[i] == chain[r] ensures i == r {
      assert i != r ==> Differ(chain, i, r);
    }
  }

  /** The nodes hold the levels `t` and the backward links `back`. */
  ghost predicate Stored(chain: seq<Node>, t: Table, back: seq<Node?>)
    reads chain
  {
    && |chain| == |t| == |back|
    && (forall i {:trigger chain[i]} {:trigger t[i]} :: 0 <= i < |chain| ==> chain[i].level == t[i])
    && (forall i {:trigger back[i]} :: 0 <= i < |chain| ==> chain[i].backward == back[i])
  }

  ghost predicate BackLinked(chain: seq<Node>, back: seq<Node?>, tail: Node?) {
    && |chain| == |back| >= 1
    && tail == (if |chain| == 1 then null else chain[|chain| - 1])
    && (forall i {:trigger back[i]} :: 1 <= i < |chain| ==> back[i] == if i == 1 then null else chain[i - 1])
  }

  /** What the nodes after the header hold. */
  ghost function ElementsOf(chain: seq<Node>): (s: seq<Element>)
    requires |chain| >= 1
    ensures |s| == |chain| - 1
    ensures forall i {:trigger s[i]} :: 0 <= i < |s| ==> s[i] == chain[i + 1].elem
  {
    seq(|chain| - 1, i requires 0 <= i < |chain| - 1 => chain[i + 1].elem)
  }

  /** Exactly the first `p` nodes hold an element that is `before`. */
  ghost predicate CutsAt(chain: seq<Node>, before: Element -> bool, p: int) {
    && 0 <= p < |chain|
    && forall i {:trigger chain[i]} :: 1 <= i < |chain| ==> (before(chain[i].elem) <==> i <= p)
  }

  /** The node of rank `r` is the last one of level `l` among the first `p`. */
  ghost predicate LastAtLevel(t: Table, r: int, l: nat, p: int) {
    0 <= r <= p < |t| && |t[r]| > l && Clear(t, r, p + 1, l)
  }

  /** `update[l]` is the last node of level `l` among the first `p` nodes, and `rank[l]` its rank. */
  ghost predicate Position(chain: seq<Node>, t: Table, update: seq<Node>, rank: seq<int>, p: int) {
    && |update| == |rank| == MAX_LEVEL && |chain| == |t| && rank[0] == p
    && forall l {:trigger rank[l]} :: 0 <= l < MAX_LEVEL ==> LastAtLevel(t, rank[l], l, p) && update[l] == chain[rank[l]]
  }

  lemma DistinctInserted(s: seq<Node>, t: seq<Node>, q: int, x: Node)
    requires Distinct(s) && x !in s && Inserted(s, t, q, x)
    ensures Distinct(t)
  {
    forall i, j | 0 <= i < |t| && 0 <= j < |t| && i != j ensures Differ(t, i, j) {
      if i != q && j != q {
        assert Differ(s, if i < q then i else i - 1, if j < q then j else j - 1);
      }
    }
  }

  lemma DistinctRemoved(s: seq<Node>, t: seq<Node>, q: int)
    requires Distinct(s) && Removed(s, t, q)
    ensures Distinct(t)
  {
    forall i, j | 0 <= i < |t| && 0 <= j < |t| && i != j ensures Differ(t, i, j) {
      assert Differ(s, if i < q then i else i + 1, if j < q then j else j + 1);
    }
  }

  /** Same heights, and the same links at level `l`. */
  ghost predicate SameLevel(t: Table, u: Table, l: nat) {
    && |t| == |u|
    && (forall i {:trigger t[i]} {:trigger u[i]} :: 0 <= i < |t| ==> |t[i]| == |u[i]|)
    && (forall i {:trigger t[i]} {:trigger u[i]} :: 0 <= i < |t| && |t[i]| > l ==> t[i][l] == u[i][l])
  }

  lemma LevelKept(chain: seq<Node>, t: Table, u: Table, l: nat)
    requires |chain| == |t| && LevelLinked(chain, t, l) && SameLevel(t, u, l)
    ensures LevelLinked(chain, u, l)
  {
    forall i | 0 <= i < |chain| && |u[i]| > l ensures Linked(chain, u, i, l) {
      assert Linked(chain, t, i, l);
    }
  }

  /** The header reaching up to level `i`, above every other node. */
  lemma LevelGrown(chain: seq<Node>, t: Table, i: nat, u: Table)
    requires |chain| == |t| >= 1 && i < |t[0]| && t[0][i].forward == null
    requires forall k {:trigger t[k]} :: 1 <= k < |t| ==> |t[k]| <= i
    requires forall l {:trigger LevelLinked(chain, t, l)} :: 0 <= l < i ==> LevelLinked(chain, t, l)
    requires u == t[0 := t[0][i := Level(null, |t| - 1)]]
    ensures forall l {:trigger LevelLinked(chain, u, l)} :: 0 <= l <= i ==> LevelLinked(chain, u, l)
  {
    assert Linked(chain, u, 0, i);
    forall l | 0 <= l < i ensures LevelLinked(chain, u, l) {
      LevelKept(chain, t, u, l);
    }
  }

  /** `u` is `t` with a row put in at `p + 1`; at level `l` only the rows `r` and `p + 1` are new. */
  ghost predicate SplicedAt(t: Table, u: Table, r: int, p: int, l: nat) {
    && 0 <= r <= p < |t| && |u| == |t| + 1
    && (forall i {:trigger u[i]} :: 0 <= i <= p ==> |u[i]| == |t[i]|)
    && (forall i {:trigger u[i]} :: p + 1 < i < |u| ==> |u[i]| == |t[i - 1]|)
    && (forall i {:trigger u[i]} :: 0 <= i <= p && i != r && |u[i]| > l ==> u[i][l] == t[i][l])
    && (forall i {:trigger u[i]} :: p + 1 < i < |u| && |u[i]| > l ==> u[i][l] == t[i - 1][l])
  }

  /** insert, one level: the crossing link is cut in two if the new node is tall enough, else lengthened. */
  ghost predicate Crossed(t: Table, u: Table, r: int, p: int, l: nat, node: Node)
    requires SplicedAt(t, u, r, p, l) && |t[r]| > l
  {
    if |u[p + 1]| > l then
      u[r][l] == Level(node, p - r + 1) && u[p + 1][l] == Level(t[r][l].forward, t[r][l].span - (p - r))
    else
      u[r][l] == Level(t[r][l].forward, t[r][l].span + 1)
  }

  lemma ClearAfterInsert(t: Table, u: Table, r: int, p: int, l: nat, i: int, j: int)
    requires SplicedAt(t, u, r, p, l) && p <= i && Clear(t, i, j, l)
    ensures Clear(u, i + 1, j + 1, l)
  {
    forall m | 0 <= m < |u| && i + 1 < m < j + 1 ensures |u[m]| <= l {
      assert |u[m]| == |t[m - 1]|;
    }
  }

  lemma LevelInserted(chain: seq<Node>, t: Table, c: seq<Node>, u: Table, r: int, p: int, l: nat, node: Node)
    requires Inserted(chain, c, p + 1, node)
    requires |chain| == |t| && LevelLinked(chain, t, l) && LastAtLevel(t, r, l, p)
    requires SplicedAt(t, u, r, p, l) && Crossed(t, u, r, p, l, node)
    ensures LevelLinked(c, u, l)
  {
    forall i | 0 <= i < |c| && |u[i]| > l ensures Linked(c, u, i, l) {
      if i < r {
        assert Linked(chain, t, i, l);
        assert t[i][l].forward != null && i + t[i][l].span <= r;
      } else if i <= p + 1 {
        InsertedHere(chain, t, c, u, r, p, l, node);
      } else {
        assert Linked(chain, t, i - 1, l);
        var j := if t[i - 1][l].forward == null then |t| else i - 1 + t[i - 1][l].span;
        ClearAfterInsert(t, u, r, p, l, i - 1, j);
      }
    }
  }

  lemma InsertedHere(chain: seq<Node>, t: Table, c: seq<Node>, u: Table, r: int, p: int, l: nat, node: Node)
    requires Inserted(chain, c, p + 1, node)
    requires |chain| == |t| && LevelLinked(chain, t, l) && LastAtLevel(t, r, l, p)
    requires SplicedAt(t, u, r, p, l) && Crossed(t, u, r, p, l, node)
    ensures Linked(c, u, r, l)
    ensures |u[p + 1]| > l ==> Linked(c, u, p + 1, l)
    ensures forall i :: r < i <= p ==> |u[i]| <= l
  {
    assert Linked(chain, t, r, l);
    var j := if t[r][l].forward == null then |t| else r + t[r][l].span;
    assert j > p;
    ClearAfterInsert(t, u, r, p, l, p, j);
    assert Clear(u, r, p + 1, l);
  }

  /** `u` is `t` without row `p + 1`; at level `l` only row `r` is new. */
  ghost predicate UnsplicedAt(t: Table, u: Table, r: int, p: int, l: nat) {
    && 0 <= r <= p && p + 1 < |t| && |u| == |t| - 1
    && (forall i {:trigger u[i]} :: 0 <= i <= p ==> |u[i]| == |t[i]|)
    && (forall i {:trigger u[i]} :: p < i < |u| ==> |u[i]| == |t[i + 1]|)
    && (forall i {:trigger u[i]} :: 0 <= i <= p && i != r && |u[i]| > l ==> u[i][l] == t[i][l])
    && (forall i {:trigger u[i]} :: p < i < |u| && |u[i]| > l ==> u[i][l] == t[i + 1][l])
  }

  /** removeNode, one level: the link into the node takes over the node's own link, any other gets shorter. */
  ghost predicate Closed(t: Table, u: Table, r: int, p: int, l: nat)
    requires UnsplicedAt(t, u, r, p, l) && |t[r]| > l
  {
    if |t[p + 1]| > l then
      u[r][l] == Level(t[p + 1][l].forward, t[r][l].span + t[p + 1][l].span - 1)
    else
      u[r][l] == Level(t[r][l].forward, t[r][l].span - 1)
  }

  lemma ClearAfterRemove(t: Table, u: Table, r: int, p: int, l: nat, i: int, j: int)
    requires UnsplicedAt(t, u, r, p, l) && p < i && Clear(t, i, j, l)
    ensures Clear(u, i - 1, j - 1, l)
  {
    forall m | 0 <= m < |u| && i - 1 < m < j - 1 ensures |u[m]| <= l {
      assert |u[m]| == |t[m + 1]|;
    }
  }

  lemma LevelRemoved(chain: seq<Node>, t: Table, c: seq<Node>, u: Table, r: int, p: int, l: nat)
    requires Removed(chain, c, p + 1)
    requires |chain| == |t| && LevelLinked(chain, t, l) && LastAtLevel(t, r, l, p)
    requires UnsplicedAt(t, u, r, p, l) && Closed(t, u, r, p, l)
    ensures LevelLinked(c, u, l)
  {
    forall i | 0 <= i < |c| && |u[i]| > l ensures Linked(c, u, i, l) {
      if i < r {
        assert Linked(chain, t, i, l);
        assert t[i][l].forward != null && i + t[i][l].span <= r;
      } else if i <= p {
        RemovedHere(chain, t, c, u, r, p, l);
      } else {
        assert Linked(chain, t, i + 1, l);
        var j := if t[i + 1][l].forward == null then |t| else i + 1 + t[i + 1][l].span;
        ClearAfterRemove(t, u, r, p, l, i + 1, j);
      }
    }
  }

  lemma RemovedHere(chain: seq<Node>, t: Table, c: seq<Node>, u: Table, r: int, p: int, l: nat)
    requires Removed(chain, c, p + 1)
    requires |chain| == |t| && LevelLinked(chain, t, l) && LastAtLevel(t, r, l, p)
    requires UnsplicedAt(t, u, r, p, l) && Closed(t, u, r, p, l)
    ensures Linked(c, u, r, l)
    ensures forall i :: r < i <= p ==> |u[i]| <= l
  {
    var k := if |t[p + 1]| > l then p + 1 else r;
    assert Linked(chain, t, r, l) && Linked(chain, t, k, l);
    assert |t[p + 1]| > l ==> t[r][l].forward != null && r + t[r][l].span == p + 1;
    var j := if t[k][l].forward == null then |t| else k + t[k][l].span;
    assert j > p + 1;
    assert Clear(t, p + 1, j, l);
    ClearAfterRemove(t, u, r, p, l, p + 1, j);
    assert Clear(u, r, p + 1, l);
  }

  /** The link of level `l` into rank `p + 1`, if any, comes from the last node of that level before it. */
  lemma LinksIntoNext(chain: seq<Node>, t: Table, r: int, p: int, l: nat)
    requires |chain| == |t| && Distinct(chain) && LevelLinked(chain, t, l) && LastAtLevel(t, r, l, p) && p + 1 < |t|
    ensures Linked(chain, t, r, l)
    ensures t[r][l].forward == chain[p + 1] <==> |t[p + 1]| > l
  {
    OnlyAt(chain, p + 1);
    assert Linked(chain, t, r, l);
  }

  ghost predicate RowKept(a: seq<Level>, b: seq<Level>, l: nat) {
    |a| == |b| && forall m {:trigger a[m]} {:trigger b[m]} :: l <= m < |a| ==> a[m] == b[m]
  }

  /** Levels `l` and up of `u` are those of `t`, around the new row `p + 1`. */
  ghost predicate NotYetSpliced(t: Table, u: Table, p: int, l: nat) {
    && 0 <= p < |t| && |u| == |t| + 1
    && (forall i {:trigger u[i]} :: 0 <= i <= p ==> RowKept(u[i], t[i], l))
    && (forall i {:trigger u[i]} :: p + 1 < i < |u| ==> RowKept(u[i], t[i - 1], l))
  }

  /** `u` has the rows of `t`, with one of height `height` put in at `p + 1`. */
  ghost predicate RowAdded(t: Table, u: Table, p: int, height: nat) {
    && 0 <= p < |t| && |u| == |t| + 1 && |u[p + 1]| == height
    && (forall i {:trigger u[i]} :: 0 <= i <= p ==> |u[i]| == |t[i]|)
    && (forall i {:trigger u[i]} :: p + 1 < i < |u| ==> |u[i]| == |t[i - 1]|)
  }

  lemma RowAddedWhenSpliced(t: Table, t': Table, u: Table, p: int, l: nat)
    requires NotYetSpliced(t', u, p, l) && |t| == |t'| && forall i {:trigger t'[i]} :: 0 <= i < |t| ==> |t[i]| == |t'[i]|
    ensures RowAdded(t, u, p, |u[p + 1]|)
  {
  }

  /** What one round of insert's two linking loops does to the table. */
  ghost function LinkIn(u: Table, r: int, p: int, l: nat, node: Node): (v: Table)
    requires 0 <= r <= p && p + 1 < |u| && l < |u[r]|
  {
    var link := u[r][l];
    if l < |u[p + 1]| then
      u[r := u[r][l := Level(node, p - r + 1)]][p + 1 := u[p + 1][l := Level(link.forward, link.span - (p - r))]]
    else
      u[r := u[r][l := link.(span := link.span + 1)]]
  }

  lemma LinkedIn(chain: seq<Node>, t: Table, c: seq<Node>, u: Table, r: int, p: int, l: nat, node: Node)
    requires |chain| == |t| && LevelLinked(chain, t, l) && LastAtLevel(t, r, l, p)
    requires Inserted(chain, c, p + 1, node) && NotYetSpliced(t, u, p, l)
    requires forall m {:trigger LevelLinked(c, u, m)} :: 0 <= m < l ==> LevelLinked(c, u, m)
    ensures l < |u[r]|
    ensures var v := LinkIn(u, r, p, l, node);
            NotYetSpliced(t, v, p, l + 1) && |v[p + 1]| == |u[p + 1]| &&
            forall m {:trigger LevelLinked(c, v, m)} :: 0 <= m <= l ==> LevelLinked(c, v, m)
  {
    assert RowKept(u[r], t[r], l);
    var v := LinkIn(u, r, p, l, node);
    forall i | 0 <= i <= p ensures RowKept(v[i], t[i], l + 1) {
      assert RowKept(u[i], t[i], l);
    }
    forall i | p < i < |t| ensures RowKept(v[i + 1], t[i], l + 1) {
      assert RowKept(u[i + 1], t[i], l);
    }
    assert SplicedAt(t, v, r, p, l);
    LevelInserted(chain, t, c, v, r, p, l, node);
    forall m | 0 <= m < l ensures LevelLinked(c, v, m) {
      LevelKept(c, u, v, m);
    }
  }

  lemma CutAtPrefix(chain: seq<Node>, before: Element -> bool)
    requires |chain| >= 1 && DownClosed(ElementsOf(chain), before)
    ensures CutsAt(chain, before, Prefix(ElementsOf(chain), before))
  {
    var s := ElementsOf(chain);
    forall i | 1 <= i < |chain| ensures before(chain[i].elem) <==> i <= Prefix(s, before) {
      assert s[i - 1] == chain[i].elem;
    }
  }

  lemma BeforeDownClosed(s: seq<Element>, e: Element)
    requires Sorted(s)
    ensures DownClosed(s, x => Before(x, e))
  {
    forall i, j | 0 <= i < j < |s| && Before(s[j], e) ensures Before(s[i], e) {
      BeforeTransitive(s[i], s[j], e);
    }
  }

  lemma ElementsInserted(chain: seq<Node>, c: seq<Node>, p: int, node: Node)
    requires |chain| >= 1 && p >= 0 && Inserted(chain, c, p + 1, node)
    ensures Inserted(ElementsOf(chain), ElementsOf(c), p, node.elem)
  {
  }

  lemma ElementsRemoved(chain: seq<Node>, c: seq<Node>, p: int)
    requires |chain| >= 1 && p >= 0 && Removed(chain, c, p + 1)
    ensures Removed(ElementsOf(chain), ElementsOf(c), p)
  {
  }

  /** Put in where the smaller elements end, a new element keeps the sequence sorted. */
  lemma SortedInserted(s: seq<Element>, t: seq<Element>, p: int, e: Element)
    requires Sorted(s) && e !in s && p == Prefix(s, x => Before(x, e)) && Inserted(s, t, p, e)
    ensures Sorted(t) && Contents(t) == Contents(s) + {e}
  {
    BeforeDownClosed(s, e);
    forall i | p <= i < |s| ensures Before(e, s[i]) {
      BeforeTotal(e, s[i]);
    }
    forall i, j | 0 <= i < j < |t| ensures Before(t[i], t[j]) {
    }
    forall x ensures x in Contents(t) <==> x in Contents(s) + {e} {
      if x in s {
        var i :| 0 <= i < |s| && s[i] == x;
        assert t[if i < p then i else i + 1] == x;
      }
    }
  }

  lemma SortedRemoved(s: seq<Element>, t: seq<Element>, p: int)
    requires Sorted(s) && Removed(s, t, p)
    ensures Sorted(t) && Contents(t) == Contents(s) - {s[p]}
  {
    forall x ensures x in Contents(t) <==> x in Contents(s) - {s[p]} {
      if x in t {
        var i :| 0 <= i < |t| && t[i] == x;
        if x == s[p] {
          SortedDistinct(s, p, if i < p then i else i + 1);
        }
      }
      if x in s && x != s[p] {
        var i :| 0 <= i < |s| && s[i] == x;
        assert t[if i < p then i else i - 1] == x;
      }
    }
  }

  lemma PositionKept(chain: seq<Node>, t: Table, u: Table, update: seq<Node>, rank: seq<int>, p: int)
    requires Position(chain, t, update, rank, p) && |t| == |u| && forall i {:trigger t[i]} {:trigger u[i]} :: 0 <= i < |t| ==> |t[i]| == |u[i]|
    ensures Position(chain, u, update, rank, p)
  {
    forall l {:trigger rank[l]} | 0 <= l < MAX_LEVEL ensures LastAtLevel(u, rank[l], l, p) {
      assert LastAtLevel(t, rank[l], l, p);
    }
  }

  /** `level` is the greatest height (at least 1), and every level below it is rightly linked. */
  ghost predicate Leveled(chain: seq<Node>, t: Table, level: int) {
    && |chain| == |t| >= 1 && |t[0]| == MAX_LEVEL && 1 <= level <= MAX_LEVEL
    && (forall i {:trigger t[i]} :: 1 <= i < |t| ==> 1 <= |t[i]| <= level)
    && (level == 1 || exists i :: 1 <= i < |t| && |t[i]| == level)
    && (forall l {:trigger LevelLinked(chain, t, l)} :: 0 <= l < level ==> LevelLinked(chain, t, l))
    && (forall l {:trigger t[0][l]} :: level <= l < MAX_LEVEL ==> t[0][l].forward == null)
  }

  /** As `Leveled`, in a list that is about to receive a node of height `height`. */
  ghost predicate LeveledFor(chain: seq<Node>, t: Table, level: int, height: nat) {
    && |chain| == |t| >= 1 && |t[0]| == MAX_LEVEL && 1 <= height <= level <= MAX_LEVEL
    && (forall i {:trigger t[i]} :: 1 <= i < |t| ==> 1 <= |t[i]| <= level)
    && (level == height || exists i :: 1 <= i < |t| && |t[i]| == level)
    && (forall l {:trigger LevelLinked(chain, t, l)} :: 0 <= l < level ==> LevelLinked(chain, t, l))
    && (forall l {:trigger t[0][l]} :: level <= l < MAX_LEVEL ==> t[0][l].forward == null)
  }

  lemma LeveledInserted(chain: seq<Node>, t: Table, c: seq<Node>, u: Table, p: int, level: int, height: nat)
    requires LeveledFor(chain, t, level, height) && |c| == |u| && NotYetSpliced(t, u, p, level) && |u[p + 1]| == height
    requires forall l {:trigger LevelLinked(c, u, l)} :: 0 <= l < level ==> LevelLinked(c, u, l)
    ensures Leveled(c, u, level)
  {
    assert RowKept(u[0], t[0], level);
    if level != height {
      var i :| 1 <= i < |t| && |t[i]| == level;
      assert |u[if i <= p then i else i + 1]| == level;
    }
  }

  /** Every node is at level 0, so a link of that level leads to the very next node. */
  lemma NextAtBase(chain: seq<Node>, t: Table, i: int)
    requires |chain| == |t| && 0 <= i < |t| && LevelLinked(chain, t, 0)
    requires forall k {:trigger t[k]} :: 0 <= k < |t| ==> |t[k]| >= 1
    ensures t[i][0].forward == if i + 1 < |chain| then chain[i + 1] else null
  {
    assert Linked(chain, t, i, 0);
    assert i + 1 < |t| ==> |t[i + 1]| >= 1;
  }

  lemma BackLinkedInserted(chain: seq<Node>, back: seq<Node?>, tail: Node?, c: seq<Node>, b: seq<Node?>, p: int, node: Node)
    requires BackLinked(chain, back, tail) && 0 <= p < |chain| && Inserted(chain, c, p + 1, node)
    requires Inserted(back, b, p + 1, if p == 0 then null else chain[p])
    ensures BackLinked(c, if p + 2 < |c| then b[p + 2 := node] else b, if p + 2 < |c| then tail else node)
  {
  }

  /** Levels `l` and up of `u` are those of `t`, without row `p + 1`. */
  ghost predicate NotYetClosed(t: Table, u: Table, p: int, l: nat) {
    && 0 <= p && p + 1 < |t| && |u| == |t| - 1
    && (forall i {:trigger u[i]} :: 0 <= i <= p ==> RowKept(u[i], t[i], l))
    && (forall i {:trigger u[i]} :: p < i < |u| ==> RowKept(u[i], t[i + 1], l))
  }

  /** What one round of removeNode's loop does to the table, for a node whose levels are `row`. */
  ghost function LinkOut(u: Table, r: int, l: nat, row: seq<Level>): (v: Table)
    requires 0 <= r < |u| && l < |u[r]|
  {
    var link := u[r][l];
    u[r := u[r][l := if l < |row| then Level(row[l].forward, link.span + row[l].span - 1) else link.(span := link.span - 1)]]
  }

  lemma LinkedOut(chain: seq<Node>, t: Table, c: seq<Node>, u: Table, r: int, p: int, l: nat)
    requires |chain| == |t| && LevelLinked(chain, t, l) && LastAtLevel(t, r, l, p)
    requires Removed(chain, c, p + 1) && NotYetClosed(t, u, p, l)
    requires forall m {:trigger LevelLinked(c, u, m)} :: 0 <= m < l ==> LevelLinked(c, u, m)
    ensures l < |u[r]| && u[r][l] == t[r][l]
    ensures var v := LinkOut(u, r, l, t[p + 1]);
            NotYetClosed(t, v, p, l + 1) &&
            forall m {:trigger LevelLinked(c, v, m)} :: 0 <= m <= l ==> LevelLinked(c, v, m)
  {
    assert RowKept(u[r], t[r], l);
    var v := LinkOut(u, r, l, t[p + 1]);
    forall i | 0 <= i <= p ensures RowKept(v[i], t[i], l + 1) {
      assert RowKept(u[i], t[i], l);
    }
    forall i | p < i < |v| ensures RowKept(v[i], t[i + 1], l + 1) {
      assert RowKept(u[i], t[i + 1], l);
    }
    assert UnsplicedAt(t, v, r, p, l);
    LevelRemoved(chain, t, c, v, r, p, l);
    forall m | 0 <= m < l ensures LevelLinked(c, v, m) {
      LevelKept(c, u, v, m);
    }
  }

  lemma BackLinkedRemoved(chain: seq<Node>, back: seq<Node?>, tail: Node?, c: seq<Node>, b: seq<Node?>, p: int)
    requires BackLinked(chain, back, tail) && 0 <= p && p + 1 < |chain|
    requires Removed(chain, c, p + 1) && Removed(back, b, p + 1)
    ensures BackLinked(c, if p + 1 < |c| then b[p + 1 := back[p + 1]] else b, if p + 1 < |c| then tail else back[p + 1])
  {
  }

  /** The place behind rank `p` stays found when the node there is taken out. */
  lemma PositionRemoved(chain: seq<Node>, t: Table, c: seq<Node>, u: Table, update: seq<Node>, rank: seq<int>, p: int)
    requires Position(chain, t, update, rank, p) && Removed(chain, c, p + 1) && |c| == |u|
    requires forall i {:trigger u[i]} :: 0 <= i <= p ==> |u[i]| == |t[i]|
    ensures Position(c, u, update, rank, p)
  {
    forall l {:trigger rank[l]} | 0 <= l < MAX_LEVEL ensures LastAtLevel(u, rank[l], l, p) && update[l] == c[rank[l]] {
      assert LastAtLevel(t, rank[l], l, p);
    }
  }

  /** `Leveled`, but for the top levels, which may have become empty. */
  ghost predicate LeveledBelow(chain: seq<Node>, t: Table, level: int) {
    && |chain| == |t| >= 1 && |t[0]| == MAX_LEVEL && 1 <= level <= MAX_LEVEL
    && (forall i {:trigger t[i]} :: 1 <= i < |t| ==> 1 <= |t[i]| <= level)
    && (forall l {:trigger LevelLinked(chain, t, l)} :: 0 <= l < level ==> LevelLinked(chain, t, l))
    && (forall l {:trigger t[0][l]} :: level <= l < MAX_LEVEL ==> t[0][l].forward == null)
  }

  lemma LeveledRemoved(chain: seq<Node>, t: Table, c: seq<Node>, u: Table, p: int, level: int)
    requires Leveled(chain, t, level) && |c| == |u| && NotYetClosed(t, u, p, level)
    requires forall l {:trigger LevelLinked(c, u, l)} :: 0 <= l < level ==> LevelLinked(c, u, l)
    ensures LeveledBelow(c, u, level)
  {
    assert RowKept(u[0], t[0], level);
  }

  /** An empty top level may be dropped, and a list whose top level is not empty is `Leveled`. */
  lemma TopLevel(chain: seq<Node>, t: Table, level: int)
    requires LeveledBelow(chain, t, level)
    ensures level > 1 && t[0][level - 1].forward == null ==> LeveledBelow(chain, t, level - 1)
    ensures level == 1 || t[0][level - 1].forward != null ==> Leveled(chain, t, level)
  {
    if level > 1 {
      assert LevelLinked(chain, t, level - 1);
      assert Linked(chain, t, 0, level - 1);
      if t[0][level - 1].forward != null {
        assert |t[t[0][level - 1].span]| == level;
      }
    }
  }

  lemma BelowCuts(chain: seq<Node>, min: Border, max: Border)
    requires |chain| >= 1 && Agrees(ElementsOf(chain), min, max)
    ensures CutsAt(chain, e => !min.Less(e), Below(ElementsOf(chain), min))
    ensures CutsAt(chain, max.Greater, Within(ElementsOf(chain), max))
  {
    CutAtPrefix(chain, e => !min.Less(e));
    CutAtPrefix(chain, max.Greater);
  }

  /** In a sorted sequence, `e` is where the smaller elements end, or nowhere. */
  lemma FirstNotBefore(s: seq<Element>, e: Element)
    requires Sorted(s)
    ensures var p := Prefix(s, x => Before(x, e)); e in s <==> p < |s| && s[p] == e
  {
    var p := Prefix(s, x => Before(x, e));
    if e in s {
      var k :| 0 <= k < |s| && s[k] == e;
      if k < p {
        BeforeAsymmetric(s[k], e);
      }
    }
  }

  lemma UpToDownClosed(s: seq<Element>, e: Element)
    requires Sorted(s)
    ensures DownClosed(s, x => Before(x, e) || x == e)
  {
    forall i, j | 0 <= i < j < |s| && (Before(s[j], e) || s[j] == e) ensures Before(s[i], e) {
      if Before(s[j], e) {
        BeforeTransitive(s[i], s[j], e);
      }
    }
  }
}
