/** datastruct/sortedset/skiplist.go: a skip list whose links carry rank spans. */
module SkipLists {
  import opened Sequences
  import opened Ordering
  import opened Borders
  import opened SkipLinks
  import opened SkipRuns

  class SkipList {
    var header: Node
    var tail: Node?
    var length: int
    var level: nat
    ghost var chain: seq<Node>  // the header, then every node in order
    ghost var table: Table      // the levels of each node of `chain`
    ghost var back: seq<Node?>  // its backward link

    /** Everything but the order of the elements. */
    ghost predicate Shaped()
      reads this, chain
    {
      && Stored(chain, table, back) && Distinct(chain)
      && Leveled(chain, table, level) && BackLinked(chain, back, tail)
      && chain[0] == header && header.elem.member == "" && length == |chain| - 1
    }

    ghost function Nodes(): set<Node>
      reads this
    {
      set n | n in chain
    }

    ghost predicate Valid()
      reads this, chain
    {
      Shaped() && Sorted(ElementsOf(chain))
    }

    constructor ()
      ensures Valid() && ElementsOf(chain) == []
      ensures fresh(chain)
    {
      var n := new Node(MAX_LEVEL, Element("", 0.0));
      header, tail, length, level := n, null, 0, 1;
      chain, table, back := [n], [n.level], [null];
      new;
      assert Linked(chain, table, 0, 0);
    }

    /** One level of a walk: follow level `l` while the next element is still `before`. */
    method Advance(before: Element -> bool, ghost p: int, l: nat, start: Node, from: int) returns (node: Node, r: int)
      requires Stored(chain, table, back) && LevelLinked(chain, table, l) && CutsAt(chain, before, p)
      requires 0 <= from <= p && start == chain[from] && |table[from]| > l
      ensures from <= r && LastAtLevel(table, r, l, p) && node == chain[r]
    {
      node, r := start, from;
      assert Linked(chain, table, r, l);
      while node.level[l].forward != null && before(node.level[l].forward.elem)
        invariant from <= r <= p && node == chain[r]
        invariant |table[r]| > l && Linked(chain, table, r, l)
        decreases p - r
      {
        r := r + node.level[l].span;
        node := node.level[l].forward;
        assert Linked(chain, table, r, l);
      }
    }

    /** The walk shared by insert, remove and RemoveRange. */
    method Descend(before: Element -> bool, ghost p: int) returns (update: seq<Node>, rank: seq<int>)
      requires Shaped() && CutsAt(chain, before, p)
      ensures Position(chain, table, update, rank, p)
    {
      var node, r, i := header, 0, level;
      update, rank := seq(MAX_LEVEL, _ => node), seq(MAX_LEVEL, _ => 0);
      assert forall l :: level <= l < MAX_LEVEL ==> LastAtLevel(table, 0, l, p);
      while i > 0
        invariant 0 <= i <= level
        invariant |update| == |rank| == MAX_LEVEL
        invariant 0 <= r <= p && node == chain[r] && |table[r]| >= i
        invariant i < level ==> r == rank[i]
        invariant forall l {:trigger rank[l]} :: i <= l < MAX_LEVEL ==> LastAtLevel(table, rank[l], l, p) && update[l] == chain[rank[l]]
      {
        i := i - 1;
        node, r := Advance(before, p, i, node, r);
        update, rank := update[i := node], rank[i := r];
      }
      assert LastAtLevel(table, r, 0, p) && |table[p]| > 0;
    }

    /** insert's loop that lets the header reach up to the height of the new node. */
    method Grow(height: nat)
      requires Stored(chain, table, back) && Distinct(chain) && Leveled(chain, table, level)
      requires header == chain[0] && length == |chain| - 1 && level < height <= MAX_LEVEL
      modifies this`level, this`table, header
      ensures Stored(chain, table, back) && LeveledFor(chain, table, level, height)
      ensures |table| == |old(table)| && forall i {:trigger table[i]} :: 0 <= i < |table| ==> |table[i]| == |old(table)[i]|
    {
      var i := level;
      ghost var t := table;
      OnlyAt(chain, 0);
      while i < height
        invariant level <= i <= height
        invariant |t| == |table| && t[1..] == table[1..] && t[0] == header.level && |t[0]| == MAX_LEVEL
        invariant header.backward == old(header.backward)
        invariant forall l {:trigger t[0][l]} :: level <= l < MAX_LEVEL ==> t[0][l].forward == null
        invariant forall l {:trigger LevelLinked(chain, t, l)} :: 0 <= l < i ==> LevelLinked(chain, t, l)
        modifies header
      {
        header.level := header.level[i := header.level[i].(span := length)];
        ghost var u := t[0 := header.level];
        assert forall k {:trigger t[k]} :: 1 <= k < |t| ==> t[k] == t[1..][k - 1] == table[k];
        LevelGrown(chain, t, i, u);
        t, i := u, i + 1;
      }
      assert forall k {:trigger t[k]} :: 1 <= k < |t| ==> t[k] == t[1..][k - 1] == table[k];
      table, level := t, height;
    }

    /** One round of insert's two linking loops. */
    static method LinkLevel(u: Node, node: Node, l: nat, height: nat, gap: int,
                            ghost c: seq<Node>, ghost t: Table, ghost b: seq<Node?>, ghost r: int, ghost p: int)
      requires Distinct(c) && Stored(c, t, b) && 0 <= r <= p && p + 1 < |c| && gap == p - r
      requires u == c[r] && node == c[p + 1] && l < |u.level| && height == |node.level|
      modifies u, node
      ensures Stored(c, LinkIn(t, r, p, l, node), b)
    {
      OnlyAt(c, r);
      OnlyAt(c, p + 1);
      var link := u.level[l];
      if l < height {
        node.level := node.level[l := Level(link.forward, link.span - gap)];
        u.level := u.level[l := Level(node, gap + 1)];
      } else {
        u.level := u.level[l := link.(span := link.span + 1)];
      }
    }

    /** insert's two linking loops: the levels the new node reaches, then the levels above it. */
    method LinkNode(node: Node, update: seq<Node>, rank: seq<int>, ghost p: int,
                    ghost c: seq<Node>, ghost u: Table, ghost b: seq<Node?>) returns (ghost t: Table)
      requires LeveledFor(chain, table, level, |node.level|) && Position(chain, table, update, rank, p)
      requires Inserted(chain, c, p + 1, node) && Distinct(c)
      requires Inserted(table, u, p + 1, node.level) && Stored(c, u, b)
      modifies c
      ensures Stored(c, t, b) && Leveled(c, t, level)
      ensures NotYetSpliced(table, t, p, level) && |t[p + 1]| == old(|node.level|)
    {
      t := u;
      var i, height := 0, |node.level|;
      while i < level
        invariant 0 <= i <= level && Stored(c, t, b) && NotYetSpliced(table, t, p, i)
        invariant |t[p + 1]| == height == old(|node.level|)
        invariant forall l {:trigger LevelLinked(c, t, l)} :: 0 <= l < i ==> LevelLinked(c, t, l)
      {
        ghost var r := rank[i];
        LinkedIn(chain, table, c, t, r, p, i, node);
        LinkLevel(update[i], node, i, height, rank[0] - rank[i], c, t, b, r, p);
        t := LinkIn(t, r, p, i, node);
        i := i + 1;
      }
      LeveledInserted(chain, table, c, t, p, level, height);
    }

    /** insert's last lines: the backward links around the new node. */
    static method LinkBack(node: Node, prev: Node?, next: Node?, ghost p: int, ghost c: seq<Node>, ghost t: Table, ghost b: seq<Node?>)
      returns (ghost b': seq<Node?>)
      requires Distinct(c) && Stored(c, t, b) && 0 <= p && p + 1 < |c| && node == c[p + 1]
      requires next == if p + 2 < |c| then c[p + 2] else null
      modifies c
      ensures b' == if p + 2 < |c| then b[p + 1 := prev][p + 2 := node] else b[p + 1 := prev]
      ensures Stored(c, t, b')
    {
      OnlyAt(c, p + 1);
      node.backward, b' := prev, b[p + 1 := prev];
      if next != null {
        OnlyAt(c, p + 2);
        next.backward, b' := node, b'[p + 2 := node];
      }
    }

    method Raise(height: nat, update: seq<Node>, rank: seq<int>, ghost p: int)
      requires Stored(chain, table, back) && Distinct(chain) && Leveled(chain, table, level)
      requires header == chain[0] && length == |chain| - 1
      requires 1 <= height <= MAX_LEVEL && Position(chain, table, update, rank, p)
      modifies this`level, this`table, header
      ensures Stored(chain, table, back) && LeveledFor(chain, table, level, height) && Position(chain, table, update, rank, p)
      ensures |table| == |old(table)| && forall i {:trigger table[i]} :: 0 <= i < |table| ==> |table[i]| == |old(table)[i]|
    {
      ghost var t := table;
      if height > level {
        Grow(height);
        PositionKept(chain, t, table, update, rank, p);
      }
    }

    /** The forward links of the new node, and then its backward ones. */
    method Splice(node: Node, update: seq<Node>, rank: seq<int>, ghost p: int, ghost c: seq<Node>) returns (ghost t: Table, ghost b: seq<Node?>)
      requires Stored(chain, table, back) && LeveledFor(chain, table, level, |node.level|)
      requires Position(chain, table, update, rank, p)
      requires Inserted(chain, c, p + 1, node) && Distinct(c)
      modifies c
      ensures Stored(c, t, b) && Leveled(c, t, level)
      ensures NotYetSpliced(table, t, p, level) && |t[p + 1]| == old(|node.level|)
      ensures Inserted(back, b, p + 1, node.backward) && node.backward == old(node.backward)
    {
      ghost var u := Insertion(table, p + 1, node.level);
      b := Insertion(back, p + 1, node.backward);
      assert c[p + 1] == node;
      t := LinkNode(node, update, rank, p, c, u, b);
      assert c[p + 1].backward == b[p + 1];
    }

    /** The rest of insert: backward links, tail and length. */
    method Settle(node: Node, last: Node, ghost p: int, ghost c: seq<Node>, ghost t: Table, ghost b: seq<Node?>)
      requires Distinct(chain) && BackLinked(chain, back, tail) && chain[0] == header && length == |chain| - 1
      requires header.elem.member == "" && 0 <= p < |chain| && last == chain[p]
      requires Inserted(chain, c, p + 1, node) && Distinct(c)
      requires Inserted(back, b, p + 1, null)
      requires Stored(c, t, b) && Leveled(c, t, level)
      modifies this, c
      ensures Shaped() && chain == c && table == t
    {
      NextAtBase(c, t, p + 1);
      var prev := if last == header then null else last;
      OnlyAt(chain, 0);
      BackLinkedInserted(chain, back, tail, c, b[p + 1 := prev], p, node);
      var next := node.level[0].forward;
      ghost var b' := LinkBack(node, prev, next, p, c, t, b);
      var end := if next == null then node else tail;
      assert BackLinked(c, b', end);
      Adopt(end, length + 1, c, t, b');
    }

    /** The new tail and length, and what the nodes now are. */
    method Adopt(last: Node?, n: int, ghost c: seq<Node>, ghost t: Table, ghost b: seq<Node?>)
      modifies this`tail, this`length, this`chain, this`table, this`back
      ensures tail == last && length == n && chain == c && table == t && back == b
    {
      tail, length, chain, table, back := last, n, c, t, b;
    }

    /** insert once the place behind rank `p` is known. */
    method InsertAfter(e: Element, height: nat, update: seq<Node>, rank: seq<int>, ghost p: int) returns (node: Node)
      requires Shaped() && 1 <= height <= MAX_LEVEL && Position(chain, table, update, rank, p)
      modifies this, chain
      ensures Shaped()
      ensures fresh(node) && node.elem == e && Inserted(old(chain), chain, p + 1, node) && RowAdded(old(table), table, p, height)
    {
      Raise(height, update, rank, p);
      node := new Node(height, e);
      ghost var c := Insertion(chain, p + 1, node);
      DistinctInserted(chain, c, p + 1, node);
      ghost var t, b := Splice(node, update, rank, p, c);
      RowAddedWhenSpliced(old(table), table, t, p, level);
      Settle(node, update[0], p, c, t, b);
    }

    method Insert(e: Element, height: nat)
      requires Valid() && 1 <= height <= MAX_LEVEL
      requires e !in ElementsOf(chain)
      modifies this, chain
      ensures Valid() && fresh(Nodes() - old(Nodes()))
      ensures Contents(ElementsOf(chain)) == old(Contents(ElementsOf(chain))) + {e}
      ensures exists p {:trigger chain[p + 1]} :: RowAdded(old(table), table, p, height) && chain[p + 1].elem == e
    {
      var before := x => Before(x, e);
      ghost var s := ElementsOf(chain);
      ghost var p := Prefix(s, before);
      BeforeDownClosed(s, e);
      CutAtPrefix(chain, before);
      var update, rank := Descend(before, p);
      var node := InsertAfter(e, height, update, rank, p);
      ElementsInserted(old(chain), chain, p, node);
      SortedInserted(s, ElementsOf(chain), p, e);
      assert chain[p + 1].elem == e;
    }

    /** removeNode's loop over the levels. */
    method Unlink(node: Node, update: seq<Node>, ghost rank: seq<int>, ghost p: int, ghost c: seq<Node>, ghost u: Table, ghost b: seq<Node?>)
      returns (ghost t: Table)
      requires Leveled(chain, table, level) && Distinct(chain) && Position(chain, table, update, rank, p)
      requires p + 1 < |chain| && node == chain[p + 1] && node.level == table[p + 1]
      requires Removed(chain, c, p + 1) && Distinct(c) && node !in c
      requires Removed(table, u, p + 1) && Stored(c, u, b)
      modifies c
      ensures Stored(c, t, b) && LeveledBelow(c, t, level) && NotYetClosed(table, t, p, level)
    {
      t := u;
      var i := 0;
      while i < level
        invariant 0 <= i <= level && Stored(c, t, b) && NotYetClosed(table, t, p, i)
        invariant node.level == table[p + 1]
        invariant forall l {:trigger LevelLinked(c, t, l)} :: 0 <= l < i ==> LevelLinked(c, t, l)
      {
        ghost var r := rank[i];
        LinkedOut(chain, table, c, t, r, p, i);
        LinksIntoNext(chain, table, r, p, i);
        UnlinkLevel(node, update[i], i, c, t, b, r);
        t := LinkOut(t, r, i, table[p + 1]);
        i := i + 1;
      }
      LeveledRemoved(chain, table, c, t, p, level);
    }

    /** One round of removeNode's loop. */
    static method UnlinkLevel(node: Node, w: Node, l: nat, ghost c: seq<Node>, ghost t: Table, ghost b: seq<Node?>, ghost r: int)
      requires Distinct(c) && Stored(c, t, b) && 0 <= r < |c| && w == c[r] && node !in c && l < |w.level|
      requires w.level[l].forward == node <==> l < |node.level|
      modifies w
      ensures Stored(c, LinkOut(t, r, l, node.level), b)
    {
      OnlyAt(c, r);
      var link := w.level[l];
      if link.forward == node {
        w.level := w.level[l := Level(node.level[l].forward, link.span + node.level[l].span - 1)];
      } else {
        w.level := w.level[l := link.(span := link.span - 1)];
      }
    }

    /** removeNode's tail: the backward link of the next node, or the tail of the list. */
    static method UnlinkBack(node: Node, next: Node?, ghost p: int, ghost c: seq<Node>, ghost t: Table, ghost b: seq<Node?>)
      returns (ghost b': seq<Node?>)
      requires Distinct(c) && Stored(c, t, b) && 0 <= p && node !in c
      requires next == if p + 1 < |c| then c[p + 1] else null
      modifies c
      ensures b' == if p + 1 < |c| then b[p + 1 := old(node.backward)] else b
      ensures Stored(c, t, b')
      ensures node.level == old(node.level) && node.backward == old(node.backward)
    {
      b' := b;
      if next != null {
        OnlyAt(c, p + 1);
        next.backward, b' := node.backward, b[p + 1 := node.backward];
      }
    }

    /** removeNode's last loop: empty top levels are dropped. */
    method Shrink()
      requires Stored(chain, table, back) && LeveledBelow(chain, table, level) && header == chain[0]
      modifies this`level
      ensures Leveled(chain, table, level)
    {
      TopLevel(chain, table, level);
      while level > 1 && header.level[level - 1].forward == null
        invariant LeveledBelow(chain, table, level)
        invariant level == 1 || table[0][level - 1].forward != null ==> Leveled(chain, table, level)
        invariant level > 1 && table[0][level - 1].forward == null ==> LeveledBelow(chain, table, level - 1)
      {
        level := level - 1;
        TopLevel(chain, table, level);
      }
    }

    /** The rest of removeNode: backward link, tail, level and length. */
    method Close(node: Node, ghost p: int, ghost c: seq<Node>, ghost t: Table, ghost b: seq<Node?>)
      requires BackLinked(chain, back, tail) && header == chain[0] && length == |chain| - 1
      requires 0 <= p && Removed(chain, c, p + 1) && Distinct(c) && node !in c
      requires Stored(c, t, b) && Removed(back, b, p + 1)
      requires node.backward == back[p + 1] && |node.level| > 0
      requires node.level[0].forward == if p + 1 < |c| then c[p + 1] else null
      modifies this, c
      ensures Stored(c, t, back) && BackLinked(c, back, tail)
      ensures header == old(header) && level == old(level) && length == |c| - 1 && chain == c && table == t
    {
      BackLinkedRemoved(chain, back, tail, c, b, p);
      var next := node.level[0].forward;
      ghost var b' := UnlinkBack(node, next, p, c, t, b);
      var end := if next == null then node.backward else tail;
      assert BackLinked(c, b', end);
      Adopt(end, length - 1, c, t, b');
    }

    method RemoveNode(node: Node, update: seq<Node>, ghost rank: seq<int>, ghost p: int)
      requires Shaped() && Position(chain, table, update, rank, p) && p + 1 < |chain| && node == chain[p + 1]
      modifies this, Nodes()
      ensures Shaped() && Removed(old(chain), chain, p + 1) && Position(chain, table, update, rank, p)
    {
      ghost var c := Removal(chain, p + 1);
      DistinctRemoved(chain, c, p + 1);
      OnlyAt(chain, p + 1);
      assert node !in c;
      ghost var t, b := Detach(node, update, rank, p, c);
      PositionRemoved(chain, table, c, t, update, rank, p);
      Close(node, p, c, t, b);
      Shrink();
    }

    method Detach(node: Node, update: seq<Node>, ghost rank: seq<int>, ghost p: int, ghost c: seq<Node>)
      returns (ghost t: Table, ghost b: seq<Node?>)
      requires Stored(chain, table, back) && Leveled(chain, table, level) && Distinct(chain)
      requires Position(chain, table, update, rank, p) && p + 1 < |chain| && node == chain[p + 1]
      requires Removed(chain, c, p + 1) && Distinct(c) && node !in c
      modifies c
      ensures Stored(c, t, b) && LeveledBelow(c, t, level) && Removed(back, b, p + 1)
      ensures node.level == table[p + 1] && node.backward == back[p + 1]
      ensures forall i {:trigger t[i]} :: 0 <= i <= p ==> |t[i]| == |table[i]|
      ensures node.level[0].forward == if p + 1 < |c| then c[p + 1] else null
    {
      ghost var u := Removal(table, p + 1);
      b := Removal(back, p + 1);
      assert back[p + 1] == node.backward;
      t := Unlink(node, update, rank, p, c, u, b);
      NextAtBase(chain, table, p + 1);
    }

    method Remove(e: Element) returns (found: bool)
      requires Valid()
      modifies this, Nodes()
      ensures Valid() && Nodes() <= old(Nodes())
      ensures found <==> e in old(ElementsOf(chain))
      ensures Contents(ElementsOf(chain)) == old(Contents(ElementsOf(chain))) - {e}
    {
      var before := x => Before(x, e);
      ghost var s := ElementsOf(chain);
      ghost var p := Prefix(s, before);
      BeforeDownClosed(s, e);
      CutAtPrefix(chain, before);
      var update, rank := Descend(before, p);
      NextAtBase(chain, table, p);
      var node := update[0].level[0].forward;
      FirstNotBefore(s, e);
      found := node != null && node.elem == e;
      if found {
        RemoveNode(node, update, rank, p);
        ElementsRemoved(old(chain), chain, p);
        SortedRemoved(s, ElementsOf(chain), p);
      }
    }

    /** A removing loop stands before `node`, the one behind rank `p`. */
    ghost predicate At(node: Node?, update: seq<Node>, rank: seq<int>, p: int)
      reads this, chain
    {
      && Shaped() && Position(chain, table, update, rank, p)
      && if p < |ElementsOf(chain)| then node == chain[p + 1] && node.elem == ElementsOf(chain)[p] else node == null
    }

    method Behind(update: seq<Node>, ghost rank: seq<int>, ghost p: int) returns (node: Node?)
      requires Shaped() && Position(chain, table, update, rank, p)
      ensures At(node, update, rank, p)
    {
      NextAtBase(chain, table, p);
      node := update[0].level[0].forward;
    }

    /** One round of the loops of RemoveRange and RemoveRangeByRank. */
    method RemoveNext(node: Node, update: seq<Node>, ghost rank: seq<int>, ghost p: nat, removed: seq<Element>,
                      ghost max: Border, ghost limit: int)
      returns (next: Node?, more: seq<Element>)
      requires At(node, update, rank, p) && max.Greater(node.elem)
      modifies this, Nodes()
      ensures At(next, update, rank, p) && Nodes() <= old(Nodes()) && |chain| < old(|chain|) && |more| == |removed| + 1
      ensures old(Finish(removed, ElementsOf(chain), p, max, limit)) == Ahead(more, ElementsOf(chain), p, max, limit - 1)
    {
      NextAtBase(chain, table, p + 1);
      next, more := node.level[0].forward, removed + [node.elem];
      FinishStep(removed, ElementsOf(chain), p, max, limit);
      RemoveNode(node, update, rank, p);
      ElementsRemoved(old(chain), chain, p);
      RemovedIsWithout(old(ElementsOf(chain)), ElementsOf(chain), p);
    }

    /** The loop ends where the next element is not admitted. */
    lemma RunStops(node: Node?, update: seq<Node>, rank: seq<int>, p: nat, removed: seq<Element>, max: Border, limit: int)
      requires At(node, update, rank, p)
      ensures node == null || !max.Greater(node.elem) ==>
                Finish(removed, ElementsOf(chain), p, max, limit) == Ahead(removed, ElementsOf(chain), p, max, limit) == Outcome(removed, ElementsOf(chain))
    {
    }

    /** RemoveRange's removing loop, from the place behind rank `p` on. */
    method RemoveRun(update: seq<Node>, ghost rank: seq<int>, ghost p: nat, max: Border, limit: int) returns (removed: seq<Element>)
      requires Shaped() && Position(chain, table, update, rank, p)
      modifies this, Nodes()
      ensures Shaped() && Nodes() <= old(Nodes())
      ensures Outcome(removed, ElementsOf(chain)) == old(Finish([], ElementsOf(chain), p, max, limit))
    {
      var node := Behind(update, rank, p);
      removed := [];
      ghost var left, goal := limit, Finish([], ElementsOf(chain), p, max, limit);
      while node != null && max.Greater(node.elem)
        invariant At(node, update, rank, p) && Nodes() <= old(Nodes())
        invariant left == limit - |removed| && (limit > 0 ==> left > 0)
        invariant Finish(removed, ElementsOf(chain), p, max, left) == goal
        decreases |chain|
      {
        node, removed := RemoveNext(node, update, rank, p, removed, max, left);
        left := left - 1;
        if limit > 0 && |removed| == limit {
          return;
        }
      }
      RunStops(node, update, rank, p, removed, max, left);
    }

    /** Removes the elements between the borders, only the first `limit` of them if `limit` is positive. */
    method RemoveRange(min: Border, max: Border, limit: int) returns (removed: seq<Element>)
      requires Valid() && Agrees(ElementsOf(chain), min, max)
      modifies this, Nodes()
      ensures Valid() && Nodes() <= old(Nodes())
      ensures removed == old(Limited(Between(ElementsOf(chain), min, max), limit))
      ensures Contents(ElementsOf(chain)) == old(Contents(ElementsOf(chain))) - Contents(removed)
    {
      ghost var p := Below(ElementsOf(chain), min);
      BelowCuts(chain, min, max);
      FinishBetween(ElementsOf(chain), min, max, limit);
      var update, rank := Descend(e => !min.Less(e), p);
      removed := RemoveRun(update, rank, p, max, limit);
    }

    /** One level of a walk by rank: follow level `l` while the next node's rank is at most `p`. */
    method AdvanceByRank(target: int, ghost p: int, l: nat, start: Node, from: int) returns (node: Node, r: int)
      requires Stored(chain, table, back) && LevelLinked(chain, table, l)
      requires 0 <= from <= p < |chain| && start == chain[from] && |table[from]| > l
      requires p == if target < |chain| then target else |chain| - 1
      ensures from <= r && LastAtLevel(table, r, l, p) && node == chain[r]
    {
      node, r := start, from;
      assert Linked(chain, table, r, l);
      while node.level[l].forward != null && r + node.level[l].span <= target
        invariant from <= r <= p && node == chain[r]
        invariant |table[r]| > l && Linked(chain, table, r, l)
        decreases p - r
      {
        r := r + node.level[l].span;
        node := node.level[l].forward;
        assert Linked(chain, table, r, l);
      }
    }

    /** RemoveRangeByRank's walk to the place behind rank `start - 1`. */
    method DescendByRank(start: int, ghost p: int) returns (update: seq<Node>, rank: seq<int>)
      requires Shaped() && p == RankStart(ElementsOf(chain), start)
      ensures Position(chain, table, update, rank, p)
    {
      var node, r, i := header, 0, level;
      update, rank := seq(MAX_LEVEL, _ => node), seq(MAX_LEVEL, _ => 0);
      assert forall l :: level <= l < MAX_LEVEL ==> LastAtLevel(table, 0, l, p);
      while i > 0
        invariant 0 <= i <= level
        invariant |update| == |rank| == MAX_LEVEL
        invariant 0 <= r <= p && node == chain[r] && |table[r]| >= i
        invariant i < level ==> r == rank[i]
        invariant forall l {:trigger rank[l]} :: i <= l < MAX_LEVEL ==> LastAtLevel(table, rank[l], l, p) && update[l] == chain[rank[l]]
      {
        i := i - 1;
        node, r := AdvanceByRank(if start < 1 then 0 else start - 1, p, i, node, r);
        update, rank := update[i := node], rank[i := r];
      }
      assert LastAtLevel(table, r, 0, p) && |table[p]| > 0;
    }

    /** Removes the elements of rank `start` up to `stop`, counting from 1 and without `stop`. */
    method RemoveRangeByRank(start: int, stop: int) returns (removed: seq<Element>)
      requires Valid()
      modifies this, Nodes()
      ensures Valid() && Nodes() <= old(Nodes())
      ensures removed == old(ByRank(ElementsOf(chain), start, stop))
      ensures Contents(ElementsOf(chain)) == old(Contents(ElementsOf(chain))) - Contents(removed)
    {
      ghost var p := RankStart(ElementsOf(chain), start);
      var update, rank := DescendByRank(start, p);
      if rank[0] + 1 < stop {
        FinishByRank(ElementsOf(chain), start, stop);
        removed := RemoveRanks(update, rank, p, rank[0] + 1, stop);
      } else {
        removed := [];
      }
    }

    /** RemoveRangeByRank's removing loop; `first` is the rank of the first node to go. */
    method RemoveRanks(update: seq<Node>, ghost rank: seq<int>, ghost p: nat, first: int, stop: int) returns (removed: seq<Element>)
      requires Shaped() && Position(chain, table, update, rank, p) && first == p + 1 < stop
      modifies this, Nodes()
      ensures Shaped() && Nodes() <= old(Nodes())
      ensures Outcome(removed, ElementsOf(chain)) == old(Finish([], ElementsOf(chain), p, SCORE_POSITIVE_INF, stop - first))
    {
      var node := Behind(update, rank, p);
      var i := first;
      removed := [];
      ghost var left, goal := stop - first, Finish([], ElementsOf(chain), p, SCORE_POSITIVE_INF, stop - first);
      while node != null && i < stop
        invariant At(node, update, rank, p) && Nodes() <= old(Nodes()) && i <= stop
        invariant left == stop - i && Ahead(removed, ElementsOf(chain), p, SCORE_POSITIVE_INF, left) == goal
        decreases |chain|
      {
        node, removed := RemoveNext(node, update, rank, p, removed, SCORE_POSITIVE_INF, left);
        i, left := i + 1, left - 1;
      }
      RunStops(node, update, rank, p, removed, SCORE_POSITIVE_INF, left);
    }

    /** The node of the given rank, counting from 1; the header for 0, nil for a rank out of range. */
    method GetByRank(rank: int) returns (node: Node?)
      requires Shaped()
      ensures node == if 0 <= rank < |chain| then chain[rank] else null
    {
      if rank < 0 {
        return null;
      }
      ghost var p := if rank < |chain| then rank else |chain| - 1;
      var n, r, i := header, 0, level;
      while i > 0
        invariant 0 <= i <= level && 0 <= r <= p && n == chain[r] && |table[r]| >= i
        invariant i == 0 ==> r == p != rank
      {
        i := i - 1;
        n, r := AdvanceByRank(rank, p, i, n, r);
        if r == rank {
          return n;
        }
        assert LastAtLevel(table, r, i, p) && |table[p]| > 0;
      }
      return null;
    }

    /** Node `q` has the member of `e`, comes no later than `e`, and is taller than all nodes from there up to `e`. */
    ghost predicate InSight(e: Element, q: int)
      requires |chain| >= 1
      reads this
    {
      && 1 <= q <= RankOf(e) && q < |chain| == |table| && chain[q].elem.member == e.member
      && forall j {:trigger table[j]} :: q < j <= RankOf(e) && j < |table| ==> |table[j]| < |table[q]|
    }

    /** The rank of the node with the member of `e` that is in sight of `e`, 0 if there is none. The header's member is "", and the walk takes it for `e` if `e`'s is "" too. */
    method GetRank(e: Element) returns (rank: int)
      requires Valid()
      ensures rank == 0 || InSight(e, rank)
      ensures rank > 0 <==> (exists q {:trigger InSight(e, q)} :: InSight(e, q)) && (e.member != "" || ReachesTop(e))
    {
      var before := x => Before(x, e) || x == e;
      ghost var p := RankOf(e);
      UpToCuts(e);
      var x, r, i := header, 0, level;
      while i > 0
        invariant 0 <= i <= level && 0 <= r <= p && x == chain[r] && |table[r]| >= i
        invariant forall q {:trigger InSight(e, q)} :: InSight(e, q) ==> |table[q]| <= i
        invariant i < level && e.member == "" ==> r > 0 && ReachesTop(e)
      {
        i := i - 1;
        x, r := Advance(before, p, i, x, r);
        TopReached(e, i, r);
        if x.elem.member == e.member {
          assert r > 0 ==> InSight(e, r);
          return r;
        }
        forall q | InSight(e, q) ensures |table[q]| <= i {
          LastInSight(e, q, i, r);
        }
      }
      return 0;
    }

    /** The last node of the top level is the header just if no node as tall as the list comes before `e`. */
    lemma TopReached(e: Element, i: nat, r: int)
      requires |chain| == |table| >= 1 && LastAtLevel(table, r, i, RankOf(e)) && RankOf(e) < |chain|
      requires forall k {:trigger table[k]} :: 1 <= k < |table| ==> |table[k]| <= level
      ensures i == level - 1 ==> (r > 0 <==> ReachesTop(e))
    {
      if i == level - 1 && r > 0 {
        assert 1 <= r <= RankOf(e) && |table[r]| >= level;
      }
    }

    lemma LastInSight(e: Element, q: int, i: nat, r: int)
      requires |chain| == |table| >= 1 && RankOf(e) < |chain| && LastAtLevel(table, r, i, RankOf(e))
      requires InSight(e, q) && |table[q]| <= i + 1
      ensures |table[q]| > i ==> r == q
    {
    }

    /** Rank and place are inverse to each other. */
    lemma RanksInverse(e: Element, r: int)
      requires Valid() && 1 <= r < |chain|
      ensures ElementsOf(chain)[r - 1] == e <==> e in ElementsOf(chain) && RankOf(e) == r
    {
      UpToCuts(e);
      if ElementsOf(chain)[r - 1] == e {
        assert e in ElementsOf(chain);
        SortedDistinct(ElementsOf(chain), r - 1, RankOf(e) - 1);
      }
    }

    lemma LowHidden(e: Element, f: Element)
      requires Valid() && ElementsOf(chain) == [e, f] && |table| == 3 && |table[1]| == 1 && |table[2]| == 2
      ensures !ReachesTop(e)
    {
      UpToCuts(e);
      assert e in ElementsOf(chain);
      BeforeAsymmetric(e, f);
    }

    /** An element of the list is in sight of itself, and no other node with its member is. */
    lemma InOwnSight(e: Element)
      requires Valid() && e in ElementsOf(chain)
      requires forall i, j :: 0 <= i < j < |ElementsOf(chain)| ==> ElementsOf(chain)[i].member != ElementsOf(chain)[j].member
      ensures InSight(e, RankOf(e)) && forall q {:trigger InSight(e, q)} :: InSight(e, q) ==> q == RankOf(e)
      ensures 1 <= RankOf(e) < |chain| && ElementsOf(chain)[RankOf(e) - 1] == e
    {
      UpToCuts(e);
      forall q | InSight(e, q) ensures q == RankOf(e) {
        assert ElementsOf(chain)[q - 1].member == ElementsOf(chain)[RankOf(e) - 1].member;
      }
    }

    ghost function RankOf(e: Element): (r: int)
      requires |chain| >= 1
      reads this
    {
      Prefix(ElementsOf(chain), x => Before(x, e) || x == e)
    }

    /** Some node as tall as the list comes no later than `e`. */
    ghost predicate ReachesTop(e: Element)
      requires |chain| >= 1
      reads this
    {
      exists i :: 1 <= i <= RankOf(e) && i < |table| && |table[i]| >= level
    }

    lemma UpToCuts(e: Element)
      requires |chain| >= 1 && Sorted(ElementsOf(chain))
      ensures CutsAt(chain, x => Before(x, e) || x == e, RankOf(e))
      ensures e in ElementsOf(chain) ==> 1 <= RankOf(e) < |chain| && ElementsOf(chain)[RankOf(e) - 1] == e
    {
      var s := ElementsOf(chain);
      UpToDownClosed(s, e);
      CutAtPrefix(chain, x => Before(x, e) || x == e);
      if e in s {
        var k :| 0 <= k < |s| && s[k] == e;
        assert k < RankOf(e);
        if k + 1 < RankOf(e) {
          BeforeAsymmetric(s[k], s[RankOf(e) - 1]);
        }
      }
    }

    method HasInRange(min: Border, max: Border) returns (has: bool)
      requires Shaped() && Agrees(ElementsOf(chain), min, max)
      ensures has <==> !min.IsIntersected(max) && Below(ElementsOf(chain), min) < |ElementsOf(chain)| && Within(ElementsOf(chain), max) > 0
    {
      BelowCuts(chain, min, max);
      NextAtBase(chain, table, 0);
      if min.IsIntersected(max) {
        return false;
      }
      if tail == null || !min.Less(tail.elem) {
        return false;
      }
      var first := header.level[0].forward;
      return first != null && max.Greater(first.elem);
    }

    method GetFirstInRange(min: Border, max: Border) returns (n: Node?)
      requires Shaped() && Agrees(ElementsOf(chain), min, max)
      ensures var a, b := Below(ElementsOf(chain), min), Within(ElementsOf(chain), max);
              n == if !min.IsIntersected(max) && a < b then chain[a + 1] else null
    {
      var has := HasInRange(min, max);
      if !has {
        return null;
      }
      ghost var p := Below(ElementsOf(chain), min);
      BelowCuts(chain, min, max);
      var update, rank := Descend(e => !min.Less(e), p);
      NextAtBase(chain, table, p);
      n := update[0].level[0].forward;
      if !max.Greater(n.elem) {
        return null;
      }
    }

    method GetLastInRange(min: Border, max: Border) returns (n: Node?)
      requires Shaped() && Agrees(ElementsOf(chain), min, max)
      ensures var a, b := Below(ElementsOf(chain), min), Within(ElementsOf(chain), max);
              n == if !min.IsIntersected(max) && a < b then chain[b] else null
    {
      var has := HasInRange(min, max);
      if !has {
        return null;
      }
      ghost var p := Within(ElementsOf(chain), max);
      BelowCuts(chain, min, max);
      var update, rank := Descend(e => max.Greater(e), p);
      n := update[0];
      if !min.Less(n.elem) {
        return null;
      }
    }
  }

  /** An element with an empty member, low in the list, and a taller node behind it: it is there and has no rank. */
  method EmptyMemberOverlooked() returns (list: SkipList, rank: int)
    ensures fresh(list) && list.Valid() && rank == 0
    ensures ElementsOf(list.chain) == [Element("", 1.0), Element("b", 2.0)]
  {
    list := TallBehindLow(Element("", 1.0), Element("b", 2.0));
    list.LowHidden(Element("", 1.0), Element("b", 2.0));
    rank := list.GetRank(Element("", 1.0));
  }

  method Tall(f: Element) returns (list: SkipList)
    ensures fresh(list) && fresh(list.chain) && list.Valid() && ElementsOf(list.chain) == [f]
    ensures |list.table| == 2 && |list.table[1]| == 2
  {
    list := new SkipList();
    list.Insert(f, 2);
    TheOnly(ElementsOf(list.chain), f);
  }

  method TallBehindLow(e: Element, f: Element) returns (list: SkipList)
    requires Before(e, f)
    ensures fresh(list) && list.Valid() && ElementsOf(list.chain) == [e, f]
    ensures |list.table| == 3 && |list.table[1]| == 1 && |list.table[2]| == 2
  {
    BeforeAsymmetric(e, f);
    list := Tall(f);
    list.Insert(e, 1);
    TheTwo(ElementsOf(list.chain), e, f);
    assert ElementsOf(list.chain)[1] == list.chain[2].elem;
  }

  lemma TheOnly(s: seq<Element>, f: Element)
    requires Sorted(s) && Contents(s) == {f}
    ensures s == [f]
  {
    SortedUnique(s, [f]);
  }

  lemma TheTwo(s: seq<Element>, e: Element, f: Element)
    requires Sorted(s) && Contents(s) == {f} + {e} && Before(e, f)
    ensures s == [e, f]
  {
    assert Contents([e, f]) == {f} + {e};
    SortedUnique(s, [e, f]);
  }
}
