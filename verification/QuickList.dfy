/** datastruct/list/quicklist.go: a list kept in pages. */
module QuickLists {
  import opened Sequences

  const PAGE_SIZE := 1024

  /** A page and the capacity of the slice that holds it. */
  datatype Page<T> = Page(vals: seq<T>, cap: nat)

  /** The elements of the pages, in order. */
  ghost function Flat<T>(d: seq<Page<T>>): (s: seq<T>) {
    if d == [] then [] else d[0].vals + Flat(d[1..])
  }

  lemma {:induction false} FlatAppend<T>(a: seq<Page<T>>, b: seq<Page<T>>)
    ensures Flat(a + b) == Flat(a) + Flat(b)
  {
    if a == [] {
      assert a + b == b;
    } else {
      FlatAppend(a[1..], b);
      assert (a + b)[1..] == a[1..] + b && (a + b)[0] == a[0];
      assert a[0].vals + (Flat(a[1..]) + Flat(b)) == (a[0].vals + Flat(a[1..])) + Flat(b);
    }
  }

  lemma FlatOne<T>(p: Page<T>)
    ensures Flat([p]) == p.vals
  {
    assert [p][1..] == [];
  }

  /** The elements before page `k`, in it, and after it. */
  lemma FlatSplit<T>(d: seq<Page<T>>, k: nat)
    requires k < |d|
    ensures Flat(d) == Flat(d[..k]) + d[k].vals + Flat(d[k + 1..])
  {
    Rejoin(d, k);
    FlatReplace(d, k, [d[k]]);
    FlatOne(d[k]);
  }

  lemma Rejoin<A>(d: seq<A>, k: nat)
    requires k < |d|
    ensures d == d[..k] + [d[k]] + d[k + 1..]
  {
  }

  lemma FlatPrefix<T>(d: seq<Page<T>>, k: nat)
    requires k < |d|
    ensures Flat(d[..k + 1]) == Flat(d[..k]) + d[k].vals
  {
    FlatAppend(d[..k], [d[k]]);
    assert d[..k + 1] == d[..k] + [d[k]];
    FlatOne(d[k]);
  }

  /** Replacing page `k` by the pages `m`. */
  lemma FlatReplace<T>(d: seq<Page<T>>, k: nat, m: seq<Page<T>>)
    requires k < |d|
    ensures Flat(d[..k] + m + d[k + 1..]) == Flat(d[..k]) + Flat(m) + Flat(d[k + 1..])
  {
    FlatAppend(d[..k] + m, d[k + 1..]);
    FlatAppend(d[..k], m);
  }

  lemma FlatTwo<T>(p: Page<T>, q: Page<T>)
    ensures Flat([p, q]) == p.vals + q.vals
  {
    assert [p, q][1..] == [q];
    FlatOne(q);
  }

  ghost predicate PagesOk<T>(d: seq<Page<T>>) {
    forall k {:trigger d[k]} :: 0 <= k < |d| ==> 0 < |d[k].vals| <= d[k].cap
  }

  /** What becomes of the elements when the pages `m` take the place of page `k`. */
  lemma Edited<T>(d: seq<Page<T>>, k: nat, m: seq<Page<T>>)
    requires k < |d| && PagesOk(d) && PagesOk(m)
    ensures var b := |Flat(d[..k])|;
            b + |d[k].vals| <= |Flat(d)| &&
            Flat(d[..k] + m + d[k + 1..]) == Flat(d)[..b] + Flat(m) + Flat(d)[b + |d[k].vals|..]
    ensures PagesOk(d[..k] + m + d[k + 1..])
  {
    FlatSplit(d, k);
    FlatReplace(d, k, m);
    var b := |Flat(d[..k])|;
    assert Flat(d)[..b] == Flat(d[..k]);
    assert Flat(d)[b + |d[k].vals|..] == Flat(d[k + 1..]);
  }

  /** What becomes of the elements when the last one of the last page goes. */
  lemma LastPage<T>(d: seq<Page<T>>)
    requires d != [] && PagesOk(d)
    ensures var n := |d| - 1;
            var v := d[n].vals;
            var s := Flat(d);
            |s| > 0 && s[|s| - 1] == v[|v| - 1] &&
            (|v| == 1 ==> Flat(d[..n]) == s[..|s| - 1]) &&
            Flat(d[n := d[n].(vals := v[..|v| - 1])]) == s[..|s| - 1]
  {
    var n := |d| - 1;
    var v := d[n].vals;
    var p := d[n].(vals := v[..|v| - 1]);
    assert d == d[..n] + [d[n]] && d[n := p] == d[..n] + [p];
    FlatAppend(d[..n], [d[n]]);
    FlatAppend(d[..n], [p]);
    FlatOne(d[n]);
    FlatOne(p);
  }

  /** append(page[:offset+1], page[offset:]...) and page[offset] = val. */
  function InsertInto<T>(page: Page<T>, offset: int, val: T, grown: nat): (r: Page<T>)
    requires 0 <= offset <= |page.vals| <= page.cap
    ensures r.vals == page.vals[..offset] + [val] + page.vals[offset..] && |r.vals| <= r.cap
  {
    var vals := page.vals[..offset] + [val] + page.vals[offset..];
    Page(vals, if |vals| <= page.cap then page.cap else if |vals| <= grown then grown else |vals|)
  }

  /** Inserting into the middle part of a sequence. */
  lemma PieceInsert<T>(a: seq<T>, v: seq<T>, c: seq<T>, o: nat, val: T)
    requires o <= |v|
    ensures var s, i := a + v + c, |a| + o;
            a + (v[..o] + [val] + v[o..]) + c == s[..i] + [val] + s[i..]
  {
    var s, i := a + v + c, |a| + o;
    assert s[..i] == a + v[..o];
    assert s[i..] == v[o..] + c;
  }

  lemma PagesReplaced<T>(d: seq<Page<T>>, k: nat, m: seq<Page<T>>)
    requires k < |d| && PagesOk(d) && PagesOk(m)
    ensures PagesOk(d[..k] + m + d[k + 1..])
  {
  }

  /** Pages `m` that hold page `k` with `val` put in at offset `o`. */
  lemma EditedInsert<T>(d: seq<Page<T>>, k: nat, m: seq<Page<T>>, o: nat, val: T)
    requires k < |d| && o <= |d[k].vals| && Flat(m) == d[k].vals[..o] + [val] + d[k].vals[o..]
    ensures var i := |Flat(d[..k])| + o;
            i <= |Flat(d)| && Flat(d[..k] + m + d[k + 1..]) == Flat(d)[..i] + [val] + Flat(d)[i..]
  {
    FlatSplit(d, k);
    FlatReplace(d, k, m);
    PieceInsert(Flat(d[..k]), d[k].vals, Flat(d[k + 1..]), o, val);
  }

  /** Inserting into one half and then joining the halves. */
  lemma HalfInserts<T>(v: seq<T>, o: nat, half: nat, val: T)
    requires o <= |v| && half <= |v|
    ensures var whole, a, b := v[..o] + [val] + v[o..], v[..half], v[half..];
            && (o < half ==> (a[..o] + [val] + a[o..]) + b == whole)
            && (o >= half ==> a + (b[..o - half] + [val] + b[o - half..]) == whole)
  {
  }

  /** A full page is split in two halves, and the value goes into the one it belongs to; `room` is the capacity that append chooses for the new page. */
  function SplitInto<T>(page: Page<T>, offset: int, val: T, grown: nat, room: nat): (r: (Page<T>, Page<T>))
    requires 0 <= offset < |page.vals| <= page.cap && PAGE_SIZE <= |page.vals|
    ensures r.0.vals + r.1.vals == page.vals[..offset] + [val] + page.vals[offset..]
    ensures 0 < |r.0.vals| <= r.0.cap && 0 < |r.1.vals| <= r.1.cap
    ensures |r.0.vals| == (if offset < 512 then 513 else 512)
  {
    var half := PAGE_SIZE / 2;
    var n := |page.vals| - half;
    var next := Page(page.vals[half..], if room < n then n else room);
    var first := page.(vals := page.vals[..half]);
    HalfInserts(page.vals, offset, half, val);
    if offset < half then (InsertInto(first, offset, val, grown), next)
    else (first, InsertInto(next, offset - half, val, grown))
  }

  class QuickList<T> {
    var data: seq<Page<T>>
    var size: int

    ghost predicate Valid()
      reads this
    {
      && size == |Contents()|
      && PagesOk(data)
    }

    ghost function Contents(): (s: seq<T>)
      reads this
    {
      Flat(data)
    }

    constructor ()
      ensures Valid() && Contents() == []
    {
      data, size := [], 0;
    }

    method Add(val: T)
      requires Valid()
      modifies this
      ensures Valid() && Contents() == old(Contents()) + [val]
    {
      size := size + 1;
      if |data| == 0 {
        data := [Page([val], PAGE_SIZE)];
        FlatOne(data[0]);
        return;
      }
      var back := |data| - 1;
      var page := data[back];
      FlatSplit(data, back);
      if |page.vals| == page.cap {
        FlatAppend(data, [Page([val], PAGE_SIZE)]);
        FlatOne(Page([val], PAGE_SIZE));
        data := data + [Page([val], PAGE_SIZE)];
        return;
      }
      var page' := page.(vals := page.vals + [val]);
      FlatReplace(data, back, [page']);
      FlatOne(page');
      assert data[back := page'] == data[..back] + [page'] + data[back + 1..];
      data := data[back := page'];
    }

    /** Where page `k` begins. */
    ghost function Begin(k: nat): (n: nat)
      requires k <= |data|
      reads this
    {
      |Flat(data[..k])|
    }

    lemma Begins(k: nat)
      requires k < |data|
      ensures Begin(0) == 0 && Begin(|data|) == |Contents()|
      ensures Begin(k + 1) == Begin(k) + |data[k].vals|
      ensures forall o :: 0 <= o < |data[k].vals| ==> Begin(k) + o < |Contents()| && Contents()[Begin(k) + o] == data[k].vals[o]
    {
      FlatPrefix(data, k);
      FlatSplit(data, k);
      assert data[..|data|] == data;
    }

    /** The page and the offset in it of an index, found from the nearer end. */
    method Find(index: int) returns (node: int, offset: int)
      requires Valid() && 0 <= index < size
      ensures 0 <= node < |data| && 0 <= offset < |data[node].vals| && Begin(node) + offset == index
    {
      var pageBeg;
      if index < size / 2 {
        node, pageBeg := 0, 0;
        Begins(0);
        while pageBeg + |data[node].vals| <= index
          invariant 0 <= node < |data| && pageBeg == Begin(node) <= index
          decreases |data| - node
        {
          Begins(node);
          pageBeg := pageBeg + |data[node].vals|;
          node := node + 1;
        }
      } else {
        node, pageBeg := |data| - 1, size;
        Begins(node);
        pageBeg := pageBeg - |data[node].vals|;
        while pageBeg > index
          invariant 0 <= node < |data| && pageBeg == Begin(node) && index < pageBeg + |data[node].vals|
          decreases node
        {
          node := node - 1;
          Begins(node);
          pageBeg := pageBeg - |data[node].vals|;
        }
      }
      offset := index - pageBeg;
    }

    method Get(index: int) returns (val: T)
      requires Valid() && 0 <= index < size
      ensures val == Contents()[index]
    {
      var node, offset := Find(index);
      Begins(node);
      val := data[node].vals[offset];
    }

    method Set(index: int, val: T)
      requires Valid() && 0 <= index < size
      modifies this
      ensures Valid() && Contents() == old(Contents())[index := val]
    {
      var node, offset := Find(index);
      var page := data[node];
      var page' := page.(vals := page.vals[offset := val]);
      Edited(data, node, [page']);
      FlatOne(page');
      Begins(node);
      data := data[..node] + [page'] + data[node + 1..];
    }

    /** `grown` is the capacity that append chooses when it has to grow the page, `room` that of a new page. */
    method Insert(index: int, val: T, grown: nat, room: nat)
      requires Valid() && 0 <= index <= size
      modifies this
      ensures Valid() && Contents() == old(Contents())[..index] + [val] + old(Contents())[index..]
    {
      if index == size {
        Add(val);
        return;
      }
      var node, offset := Find(index);
      var page := data[node];
      var pages;
      if |page.vals| < PAGE_SIZE {
        pages := [InsertInto(page, offset, val, grown)];
        FlatOne(pages[0]);
      } else {
        var (left, right) := SplitInto(page, offset, val, grown, room);
        pages := [left, right];
        FlatTwo(left, right);
      }
      EditedInsert(data, node, pages, offset, val);
      PagesReplaced(data, node, pages);
      data := data[..node] + pages + data[node + 1..];
      size := size + 1;
    }

    /** Removes and returns the last element, nil if there is none. */
    method RemoveLast() returns (val: Option<T>)
      requires Valid()
      modifies this
      ensures Valid()
      ensures old(Contents()) == [] ==> val == None && Contents() == []
      ensures old(Contents()) != [] ==> val == Some(old(Contents()[size - 1])) && Contents() == old(Contents()[..size - 1])
    {
      if size == 0 {
        return None;
      }
      size := size - 1;
      var last := |data| - 1;
      assert data != [];
      LastPage(data);
      var page := data[last];
      val := Some(page.vals[|page.vals| - 1]);
      if |page.vals| == 1 {
        data := data[..last];
        return;
      }
      data := data[last := page.(vals := page.vals[..|page.vals| - 1])];
    }

    method RemoveAt(index: int) returns (val: T)
      requires Valid() && 0 <= index < size
      modifies this
      ensures Valid() && val == old(Contents())[index] && Contents() == old(Contents())[..index] + old(Contents())[index + 1..]
    {
      WithoutSlices(Contents(), index);
      var iter := new Iterator(this, index);
      val := iter.Remove();
    }

    /** Removes the first `count` elements that satisfy `expected`, scanning from left to right. */
    method RemoveByVal(expected: T -> bool, count: int) returns (removed: int)
      requires Valid()
      modifies this
      ensures Valid() && Contents() == old(DropFirst(Contents(), expected, count))
      ensures removed == old(size) - size
    {
      if size == 0 {
        return 0;
      }
      var iter := new Iterator(this, 0);
      removed := 0;
      ghost var s := Contents();
      ScanAll(s, expected, count);
      var end := iter.AtEnd();
      while !end
        invariant iter.Valid() && iter.ql == this && fresh(iter) && 0 <= iter.Pos() <= |Contents()|
        invariant end <==> iter.Pos() == |Contents()|
        invariant removed == |s| - |Contents()| && (count > 0 ==> removed < count)
        invariant Scan(Contents(), iter.Pos(), expected, count - removed) == Scan(s, 0, expected, count)
        decreases |Contents()| - iter.Pos()
      {
        var hit := iter.RemoveOrNext(expected, count - removed);
        if hit {
          removed := removed + 1;
          if removed == count {
            return;
          }
        }
        end := iter.AtEnd();
      }
    }

    /** Removes all elements that satisfy `expected`. Panics on an empty list. */
    method RemoveAllByVal(expected: T -> bool) returns (removed: int)
      requires Valid() && size > 0
      modifies this
      ensures Valid() && Contents() == old(DropFirst(Contents(), expected, 0))
      ensures removed == old(size) - size
    {
      var iter := new Iterator(this, 0);
      removed := 0;
      ghost var s := Contents();
      ScanAll(s, expected, 0);
      var end := iter.AtEnd();
      while !end
        invariant iter.Valid() && iter.ql == this && fresh(iter) && 0 <= iter.Pos() <= |Contents()|
        invariant end <==> iter.Pos() == |Contents()|
        invariant 0 <= removed == |s| - |Contents()|
        invariant Scan(Contents(), iter.Pos(), expected, -removed) == Scan(s, 0, expected, 0)
        decreases |Contents()| - iter.Pos()
      {
        var hit := iter.RemoveOrNext(expected, -removed);
        if hit {
          removed := removed + 1;
        }
        end := iter.AtEnd();
      }
    }

    /** Removes the last `count` elements that satisfy `expected`, scanning from right to left. */
    method ReverseRemoveByVal(expected: T -> bool, count: int) returns (removed: int)
      requires Valid()
      modifies this
      ensures Valid() && Contents() == old(DropLast(Contents(), expected, count))
      ensures removed == old(size) - size
    {
      if size == 0 {
        return 0;
      }
      var iter := new Iterator(this, size - 1);
      removed := 0;
      ghost var s := Contents();
      BackScanAll(s, expected, count);
      var begin := iter.AtBegin();
      while !begin
        invariant iter.Valid() && iter.ql == this && fresh(iter) && -1 <= iter.Pos() < |Contents()|
        invariant begin <==> iter.Pos() == -1
        invariant removed == |s| - |Contents()| && (count > 0 ==> removed < count)
        invariant BackScan(Contents(), iter.Pos(), expected, count - removed) == BackScan(s, |s| - 1, expected, count)
        decreases iter.Pos() + 1
      {
        var hit := iter.RemoveThenPrev(expected, removed + 1 == count, count - removed);
        if hit {
          removed := removed + 1;
          if removed == count {
            return;
          }
        }
        begin := iter.AtBegin();
      }
    }

    method Contains(expected: T -> bool) returns (contains: bool)
      requires Valid()
      ensures contains <==> exists i :: 0 <= i < |Contents()| && expected(Contents()[i])
    {
      if size == 0 {
        return false;
      }
      var iter := new Iterator(this, 0);
      var more := true;
      while more
        invariant iter.Valid() && iter.ql == this && fresh(iter) && 0 <= iter.Pos() <= |Contents()|
        invariant more == (iter.Pos() < |Contents()|)
        invariant forall i :: 0 <= i < iter.Pos() ==> !expected(Contents()[i])
        decreases |Contents()| - iter.Pos()
      {
        var val := iter.Get();
        if expected(val) {
          return true;
        }
        more := iter.Next();
      }
      return false;
    }

    /** The source panics unless the bounds are within the list. */
    method Range(start: int, stop: int) returns (slice: seq<T>)
      requires Valid() && 0 <= start < size && start <= stop <= size
      ensures slice == Contents()[start..stop]
    {
      var iter := new Iterator(this, start);
      slice := [];
      var i := 0;
      while i < stop - start
        invariant 0 <= i <= stop - start && iter.Valid() && iter.ql == this && fresh(iter) && iter.Pos() == start + i
        invariant slice == Contents()[start..start + i]
      {
        var val := iter.Get();
        slice := slice + [val];
        var _ := iter.Next();
        i := i + 1;
      }
    }
  }

  /** Removing from the middle part of a sequence. */
  lemma PieceWithout<T>(a: seq<T>, v: seq<T>, c: seq<T>, o: nat)
    requires o < |v|
    ensures a + (v[..o] + v[o + 1..]) + c == Without(a + v + c, |a| + o)
  {
    RemovedIsWithout(a + v + c, a + (v[..o] + v[o + 1..]) + c, |a| + o);
  }

  /** Pages `m` that hold page `k` without its element at offset `o`. */
  lemma EditedRemove<T>(d: seq<Page<T>>, k: nat, m: seq<Page<T>>, o: nat)
    requires k < |d| && o < |d[k].vals| && Flat(m) == d[k].vals[..o] + d[k].vals[o + 1..]
    ensures var i := |Flat(d[..k])| + o;
            i < |Flat(d)| && Flat(d[..k] + m + d[k + 1..]) == Without(Flat(d), i)
  {
    FlatSplit(d, k);
    FlatReplace(d, k, m);
    PieceWithout(Flat(d[..k]), d[k].vals, Flat(d[k + 1..]), o);
  }

  /** A spot an iterator may be at: on an element, past the last one, or before the first. `node` is -1 (nil) on an empty list. */
  ghost predicate Placed<T>(d: seq<Page<T>>, node: int, offset: int) {
    if |d| == 0 then node == -1 && -1 <= offset <= 0
    else
      && 0 <= node < |d|
      && (0 <= offset < |d[node].vals| || (node == |d| - 1 && offset == |d[node].vals|) || (node == 0 && offset == -1))
  }

  ghost function Index<T>(d: seq<Page<T>>, node: int, offset: int): (i: int)
    requires Placed(d, node, offset)
  {
    if |d| == 0 then offset else |Flat(d[..node])| + offset
  }

  lemma FlatNonEmpty<T>(d: seq<Page<T>>)
    requires PagesOk(d) && d != []
    ensures |Flat(d)| > 0
  {
  }

  lemma IndexBounds<T>(d: seq<Page<T>>, n: int, o: int)
    requires PagesOk(d) && Placed(d, n, o) && |d| > 0
    ensures var i, len := Index(d, n, o), |Flat(d)|;
            -1 <= i <= len && len > 0 && (0 <= i < len <==> 0 <= o < |d[n].vals|) && (i == -1 <==> n == 0 && o == -1)
  {
    var a, c := |Flat(d[..n])|, |Flat(d[n + 1..])|;
    FlatSplit(d, n);
    assert |Flat(d)| == a + |d[n].vals| + c;
    if n < |d| - 1 {
      assert PagesOk(d[n + 1..]);
      FlatNonEmpty(d[n + 1..]);
    }
    assert n == 0 ==> d[..n] == [];
    assert n == |d| - 1 ==> d[n + 1..] == [];
  }

  /** On an element exactly when the index is one of the list's. */
  lemma IndexRange<T>(d: seq<Page<T>>, n: int, o: int)
    requires PagesOk(d) && Placed(d, n, o)
    ensures Ranges(d, n, o)
  {
    if |d| == 0 {
      FlatOfNone(d);
    } else {
      IndexBounds(d, n, o);
      IndexValue(d, n, o);
    }
  }

  ghost predicate Ranges<T>(d: seq<Page<T>>, n: int, o: int)
    requires Placed(d, n, o)
  {
    var i, s := Index(d, n, o), Flat(d);
    && -1 <= i <= |s| && (|d| == 0 <==> |s| == 0)
    && (0 <= i < |s| <==> |d| > 0 && 0 <= o < |d[n].vals|)
    && (0 <= i < |s| ==> s[i] == d[n].vals[o])
    && (|d| > 0 ==> (i == -1 <==> n == 0 && o == -1))
  }

  lemma IndexValue<T>(d: seq<Page<T>>, n: int, o: int)
    requires PagesOk(d) && Placed(d, n, o) && |d| > 0
    ensures var i, s := Index(d, n, o), Flat(d); 0 <= o < |d[n].vals| ==> 0 <= i < |s| && s[i] == d[n].vals[o]
  {
    if 0 <= o < |d[n].vals| {
      ElementAt(d, n, o);
    }
  }

  lemma FlatOfNone<T>(d: seq<Page<T>>)
    requires |d| == 0
    ensures Flat(d) == []
  {
    assert d == [];
  }

  lemma ElementAt<T>(d: seq<Page<T>>, n: nat, o: nat)
    requires n < |d| && o < |d[n].vals|
    ensures var i := |Flat(d[..n])| + o; i < |Flat(d)| && Flat(d)[i] == d[n].vals[o]
  {
    FlatSplit(d, n);
    MiddleAt(Flat(d[..n]), d[n].vals, Flat(d[n + 1..]), o);
  }

  lemma MiddleAt<T>(a: seq<T>, v: seq<T>, c: seq<T>, o: nat)
    requires o < |v|
    ensures (a + v + c)[|a| + o] == v[o]
  {
  }

  /** Where iterator.remove leaves the iterator: the new pages `e` and the spot (n, m). */
  ghost predicate Lands<T>(d: seq<Page<T>>, k: int, o: int, e: seq<Page<T>>, n: int, m: int)
    requires 0 <= k < |d| && 0 <= o < |d[k].vals|
  {
    var rest := d[k].vals[..o] + d[k].vals[o + 1..];
    if |rest| > 0 then
      && e == d[..k] + [d[k].(vals := rest)] + d[k + 1..]
      && (if o == |rest| && k != |d| - 1 then n == k + 1 && m == 0 else n == k && m == o)
    else
      && e == d[..k] + d[k + 1..]
      && (if k == |d| - 1 then (if k > 0 then n == k - 1 && m == |d[k - 1].vals| else n == -1 && m == 0)
          else n == k && m == 0)
  }

  lemma LandsContents<T>(d: seq<Page<T>>, k: int, o: int, e: seq<Page<T>>, n: int, m: int)
    requires PagesOk(d) && 0 <= k < |d| && 0 <= o < |d[k].vals| && Lands(d, k, o, e, n, m)
    ensures PagesOk(e) && Index(d, k, o) < |Flat(d)| && Flat(e) == Without(Flat(d), Index(d, k, o))
  {
    if |d[k].vals| > 1 {
      var rest := d[k].(vals := d[k].vals[..o] + d[k].vals[o + 1..]);
      FlatOne(rest);
      EditedRemove(d, k, [rest], o);
      PagesReplaced(d, k, [rest]);
    } else {
      assert Flat<T>([]) == d[k].vals[..o] + d[k].vals[o + 1..];
      EditedRemove(d, k, [], o);
      PagesReplaced(d, k, []);
      assert d[..k] + [] == d[..k];
    }
  }

  lemma LandsThere<T>(d: seq<Page<T>>, k: int, o: int, e: seq<Page<T>>, n: int, m: int)
    requires PagesOk(d) && 0 <= k < |d| && 0 <= o < |d[k].vals| && Lands(d, k, o, e, n, m)
    ensures Placed(e, n, m) && Index(e, n, m) == Index(d, k, o)
  {
    assert e[..k] == d[..k];
    if |d[k].vals| > 1 {
      assert e[k].vals == d[k].vals[..o] + d[k].vals[o + 1..];
      if n == k + 1 {
        assert e[n] == d[n];
        FlatPrefix(e, k);
      }
    } else if k == |d| - 1 {
      assert e == d[..k];
      if k > 0 {
        FlatPrefix(d, k - 1);
        assert e[..k - 1] == d[..k - 1];
      }
    } else {
      assert e[k] == d[k + 1];
    }
  }

  /** Moves between -1 and the length of the list; `node` is -1 (nil) on an empty list. */
  class Iterator<T> {
    const ql: QuickList<T>
    var node: int
    var offset: int

    ghost predicate Valid()
      reads this, ql
    {
      ql.Valid() && Placed(ql.data, node, offset)
    }

    /** The index the iterator stands at. */
    ghost function Pos(): (i: int)
      requires Valid()
      reads this, ql
    {
      Index(ql.data, node, offset)
    }

    lemma PosRange()
      requires Valid()
      ensures -1 <= Pos() <= |ql.Contents()|
      ensures 0 <= Pos() < |ql.Contents()| <==> |ql.data| > 0 && 0 <= offset < |ql.data[node].vals|
      ensures 0 <= Pos() < |ql.Contents()| ==> ql.data[node].vals[offset] == ql.Contents()[Pos()]
      ensures |ql.data| == 0 <==> |ql.Contents()| == 0
      ensures |ql.data| > 0 ==> (Pos() == -1 <==> node == 0 && offset == -1)
    {
      IndexRange(ql.data, node, offset);
    }

    constructor (ql: QuickList<T>, index: int)
      requires ql.Valid() && 0 <= index < ql.size
      ensures this.ql == ql && Valid() && Pos() == index
    {
      this.ql := ql;
      var n, o := ql.Find(index);
      node, offset := n, o;
    }

    method Get() returns (val: T)
      requires Valid() && 0 <= Pos() < |ql.Contents()|
      ensures val == ql.Contents()[Pos()]
    {
      PosRange();
      val := ql.data[node].vals[offset];
    }

    method Next() returns (more: bool)
      requires Valid() && 0 <= Pos() < |ql.Contents()|
      modifies this
      ensures Valid() && Pos() == old(Pos()) + 1 && more == (Pos() < |ql.Contents()|)
    {
      PosRange();
      ql.Begins(node);
      var page := ql.data[node].vals;
      if offset < |page| - 1 {
        offset := offset + 1;
        PosRange();
        return true;
      }
      if node == |ql.data| - 1 {
        offset := |page|;
        return false;
      }
      offset := 0;
      node := node + 1;
      PosRange();
      return true;
    }

    method Prev() returns (more: bool)
      requires Valid() && 0 <= Pos()
      modifies this
      ensures Valid() && Pos() == old(Pos()) - 1 && more == (Pos() >= 0)
    {
      PosRange();
      if offset > 0 {
        offset := offset - 1;
        return true;
      }
      if node == (if |ql.data| == 0 then -1 else 0) {
        offset := -1;
        return false;
      }
      ql.Begins(node - 1);
      node := node - 1;
      offset := |ql.data[node].vals| - 1;
      return true;
    }

    method AtEnd() returns (end: bool)
      requires Valid() && 0 <= Pos()
      ensures end <==> Pos() == |ql.Contents()|
    {
      PosRange();
      if |ql.data| == 0 {
        return true;
      }
      if node != |ql.data| - 1 {
        return false;
      }
      return offset == |ql.data[node].vals|;
    }

    method AtBegin() returns (begin: bool)
      requires Valid()
      ensures begin <==> Pos() == -1 || |ql.Contents()| == 0
    {
      PosRange();
      if |ql.data| == 0 {
        return true;
      }
      if node != 0 {
        return false;
      }
      return offset == -1;
    }

    /** Removes the element the iterator stands at; it then stands at the next one. */
    method Remove() returns (val: T)
      requires Valid() && 0 <= Pos() < |ql.Contents()|
      modifies this, ql
      ensures Valid() && Pos() == old(Pos()) && val == old(ql.Contents()[Pos()])
      ensures ql.Contents() == old(Without(ql.Contents(), Pos()))
    {
      PosRange();
      ghost var d, k, o := ql.data, node, offset;
      var page := ql.data[node];
      val := page.vals[offset];
      var rest := page.(vals := page.vals[..offset] + page.vals[offset + 1..]);
      if |rest.vals| > 0 {
        var back := |ql.data| - 1;
        ql.data := ql.data[..node] + [rest] + ql.data[node + 1..];
        if offset == |rest.vals| {
          if node != back {
            node, offset := node + 1, 0;
          }
        }
      } else {
        if node == |ql.data| - 1 {
          ql.data := ql.data[..node] + ql.data[node + 1..];
          if node > 0 {
            node := node - 1;
            offset := |ql.data[node].vals|;
          } else {
            node, offset := -1, 0;
          }
        } else {
          ql.data := ql.data[..node] + ql.data[node + 1..];
          offset := 0;
        }
      }
      ql.size := ql.size - 1;
      LandsContents(d, k, o, ql.data, node, offset);
      LandsThere(d, k, o, ql.data, node, offset);
    }

    /** One round of the scans of RemoveByVal and RemoveAllByVal. */
    method RemoveOrNext(expected: T -> bool, ghost count: int) returns (hit: bool)
      requires Valid() && 0 <= Pos() < |ql.Contents()|
      modifies this, ql
      ensures Valid() && |ql.Contents()| == old(|ql.Contents()|) - (if hit then 1 else 0)
      ensures Pos() == old(Pos()) + (if hit then 0 else 1)
      ensures old(Scan(ql.Contents(), Pos(), expected, count)) ==
              if !hit then Scan(ql.Contents(), Pos(), expected, count)
              else if count == 1 then ql.Contents() else Scan(ql.Contents(), Pos(), expected, count - 1)
    {
      var val := Get();
      hit := expected(val);
      if hit {
        var _ := Remove();
      } else {
        var _ := Next();
      }
    }

    /** One round of the scan of ReverseRemoveByVal; `last` says that one more hit makes the count full. */
    method RemoveThenPrev(expected: T -> bool, last: bool, ghost count: int) returns (hit: bool)
      requires Valid() && 0 <= Pos() < |ql.Contents()| && last == (count == 1)
      modifies this, ql
      ensures Valid() && |ql.Contents()| == old(|ql.Contents()|) - (if hit then 1 else 0)
      ensures hit && last ==> ql.Contents() == old(BackScan(ql.Contents(), Pos(), expected, count))
      ensures !(hit && last) ==> Pos() == old(Pos()) - 1
      ensures !(hit && last) ==>
                BackScan(ql.Contents(), Pos(), expected, if hit then count - 1 else count) == old(BackScan(ql.Contents(), Pos(), expected, count))
    {
      var val := Get();
      hit := expected(val);
      if hit {
        var _ := Remove();
        if last {
          return;
        }
      }
      var _ := Prev();
    }
  }

  /** `s` without its first `count` elements that satisfy `expected`, without all of them if `count` is not positive. */
  function DropFirst<T>(s: seq<T>, expected: T -> bool, count: int): (r: seq<T>) {
    if s == [] then []
    else if expected(s[0]) then (if count == 1 then s[1..] else DropFirst(s[1..], expected, count - 1))
    else [s[0]] + DropFirst(s[1..], expected, count)
  }

  /** The same, from the other end. */
  function DropLast<T>(s: seq<T>, expected: T -> bool, count: int): (r: seq<T>) {
    if s == [] then []
    else
      var n := |s| - 1;
      if expected(s[n]) then (if count == 1 then s[..n] else DropLast(s[..n], expected, count - 1))
      else DropLast(s[..n], expected, count) + [s[n]]
  }

  /** Where a scan that stands at `p`, with `count` to drop, will end. */
  ghost function Scan<T>(s: seq<T>, p: int, expected: T -> bool, count: int): (r: seq<T>)
    requires 0 <= p <= |s|
    decreases |s| - p
  {
    if p == |s| then s
    else if !expected(s[p]) then Scan(s, p + 1, expected, count)
    else if count == 1 then Without(s, p)
    else Scan(Without(s, p), p, expected, count - 1)
  }

  lemma {:induction false} ScanDrops<T>(s: seq<T>, p: int, expected: T -> bool, count: int)
    requires 0 <= p <= |s|
    ensures Scan(s, p, expected, count) == s[..p] + DropFirst(s[p..], expected, count)
    decreases |s| - p
  {
    if p < |s| {
      assert s[p..][0] == s[p] && s[p..][1..] == s[p + 1..];
      if !expected(s[p]) {
        ScanDrops(s, p + 1, expected, count);
        assert s[..p + 1] == s[..p] + [s[p]];
      } else if count != 1 {
        WithoutSlices(s, p);
        ScanDrops(Without(s, p), p, expected, count - 1);
      }
    }
  }

  /** The same for a scan from right to left. */
  ghost function BackScan<T>(s: seq<T>, p: int, expected: T -> bool, count: int): (r: seq<T>)
    requires -1 <= p < |s|
    decreases p + 1
  {
    if p == -1 then s
    else if !expected(s[p]) then BackScan(s, p - 1, expected, count)
    else if count == 1 then Without(s, p)
    else BackScan(Without(s, p), p - 1, expected, count - 1)
  }

  lemma {:induction false} BackScanDrops<T>(a: seq<T>, b: seq<T>, expected: T -> bool, count: int)
    ensures BackScan(a + b, |a| - 1, expected, count) == DropLast(a, expected, count) + b
    decreases |a|
  {
    if a == [] {
      assert a + b == b;
    } else {
      var n := |a| - 1;
      var a', x := a[..n], a[n];
      assert a + b == a' + [x] + b == a' + ([x] + b);
      WithoutMiddle(a', x, b);
      if !expected(x) {
        BackScanDrops(a', [x] + b, expected, count);
      } else if count != 1 {
        BackScanDrops(a', b, expected, count - 1);
      }
    }
  }

  lemma BackScanAll<T>(s: seq<T>, expected: T -> bool, count: int)
    ensures BackScan(s, |s| - 1, expected, count) == DropLast(s, expected, count)
  {
    BackScanDrops(s, [], expected, count);
    assert s + [] == s;
  }

  lemma ScanAll<T>(s: seq<T>, expected: T -> bool, count: int)
    ensures Scan(s, 0, expected, count) == DropFirst(s, expected, count)
  {
    ScanDrops(s, 0, expected, count);
    assert s[0..] == s;
  }

  function Filtered<T>(s: seq<T>, keep: T -> bool): (r: seq<T>) {
    if s == [] then [] else (if keep(s[0]) then [s[0]] else []) + Filtered(s[1..], keep)
  }

  /** With no limit, exactly the elements that are not expected stay, in order. */
  lemma {:induction false} DropAllFilters<T>(s: seq<T>, expected: T -> bool, count: int)
    requires count <= 0
    ensures DropFirst(s, expected, count) == Filtered(s, x => !expected(x))
  {
    if s != [] {
      DropAllFilters(s[1..], expected, if expected(s[0]) then count - 1 else count);
    }
  }

  /** `count` of the expected elements are dropped, or all there are. */
  lemma {:induction false} DropFirstCounts<T>(s: seq<T>, expected: T -> bool, count: int)
    ensures var r, n := DropFirst(s, expected, count), |Filtered(s, expected)|;
            |s| - |r| == if 0 < count < n then count else n
  {
    if s != [] {
      if !expected(s[0]) {
        DropFirstCounts(s[1..], expected, count);
      } else if count != 1 {
        DropFirstCounts(s[1..], expected, count - 1);
      }
    }
  }

  /** The others stay as they are, and of the expected ones the last ones stay. */
  lemma DropFirstKeeps<T>(s: seq<T>, expected: T -> bool, count: int)
    ensures var r := DropFirst(s, expected, count);
            Filtered(r, x => !expected(x)) == Filtered(s, x => !expected(x)) && EndsWith(Filtered(s, expected), Filtered(r, expected))
  {
    OthersKept(s, expected, count, x => !expected(x));
    LastKept(s, expected, count);
  }

  ghost predicate EndsWith<T>(s: seq<T>, t: seq<T>) {
    |t| <= |s| && s[|s| - |t|..] == t
  }

  lemma FilteredCons<T>(x: T, s: seq<T>, keep: T -> bool)
    ensures Filtered([x] + s, keep) == (if keep(x) then [x] else []) + Filtered(s, keep)
  {
    assert ([x] + s)[1..] == s;
  }

  lemma {:induction false} OthersKept<T>(s: seq<T>, expected: T -> bool, count: int, keep: T -> bool)
    requires forall x :: keep(x) ==> !expected(x)
    ensures Filtered(DropFirst(s, expected, count), keep) == Filtered(s, keep)
  {
    if s != [] {
      if !expected(s[0]) {
        OthersKept(s[1..], expected, count, keep);
        FilteredCons(s[0], DropFirst(s[1..], expected, count), keep);
      } else if count != 1 {
        OthersKept(s[1..], expected, count - 1, keep);
      }
    }
  }

  lemma EndsCons<T>(x: T, s: seq<T>, t: seq<T>)
    requires EndsWith(s, t)
    ensures EndsWith([x] + s, t)
  {
    assert ([x] + s)[1 + |s| - |t|..] == s[|s| - |t|..];
  }

  lemma {:induction false} LastKept<T>(s: seq<T>, expected: T -> bool, count: int)
    ensures EndsWith(Filtered(s, expected), Filtered(DropFirst(s, expected, count), expected))
  {
    if s != [] {
      if !expected(s[0]) {
        LastKept(s[1..], expected, count);
        FilteredCons(s[0], DropFirst(s[1..], expected, count), expected);
      } else if count != 1 {
        LastKept(s[1..], expected, count - 1);
        EndsCons(s[0], Filtered(s[1..], expected), Filtered(DropFirst(s[1..], expected, count - 1), expected));
      } else {
        EndsCons(s[0], Filtered(s[1..], expected), Filtered(s[1..], expected));
      }
    }
  }

  /** Scanning from the right is scanning the reversed list from the left. */
  lemma {:induction false} DropLastMirrors<T>(s: seq<T>, expected: T -> bool, count: int)
    ensures Reversed(DropLast(s, expected, count)) == DropFirst(Reversed(s), expected, count)
  {
    if s != [] {
      var n := |s| - 1;
      assert s == s[..n] + [s[n]];
      ReversedEnd(s[..n], s[n]);
      assert ([s[n]] + Reversed(s[..n]))[1..] == Reversed(s[..n]);
      if !expected(s[n]) {
        DropLastMirrors(s[..n], expected, count);
        ReversedEnd(DropLast(s[..n], expected, count), s[n]);
      } else if count != 1 {
        DropLastMirrors(s[..n], expected, count - 1);
      }
    }
  }
}
