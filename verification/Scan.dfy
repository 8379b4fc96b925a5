/** datastruct/dict/concurrent.go: walking the keys of a dict that others change, a few shards a call. */
module DictScans {
  import opened Sequences

  type Key = string

  /** The pattern "*", another pattern, or one that does not compile. */
  datatype Pattern = Star | Compiled(matches: Key -> bool) | Bad

  predicate Matches(p: Pattern, k: Key) {
    p.Star? || (p.Compiled? && p.matches(k))
  }

  /** What a call may see of the dict while others change it: each shard as it is when it is read, and what Len says to it and then to Keys. */
  datatype View = View(shards: seq<set<Key>>, size: nat, len: nat)

  /** A key lives in the shard it is spread to. */
  ghost predicate Home(v: View, n: nat, spread: Key -> nat) {
    |v.shards| == n && forall j, k {:trigger k in v.shards[j]} :: 0 <= j < n && k in v.shards[j] ==> spread(k) == j
  }

  function Matching(shard: set<Key>, p: Pattern): set<Key> {
    set k | k in shard && Matches(p, k)
  }

  /** The shard at which a call stops that began at `cursor` and has come to `at` with `found` keys. */
  function Stop(shards: seq<set<Key>>, at: nat, cursor: nat, count: int, found: nat, p: Pattern): (r: nat)
    ensures r <= |shards| && (at <= |shards| ==> at <= r)
    ensures at == cursor < |shards| ==> cursor < r
    decreases |shards| - at
  {
    if at >= |shards| then |shards|
    else if found + |shards[at]| > count && at > cursor then at
    else Stop(shards, at + 1, cursor, count, found + |Matching(shards[at], p)|, p)
  }

  /** The matching keys of the shards from `lo` to `hi`. */
  ghost function Between(shards: seq<set<Key>>, lo: nat, hi: nat, p: Pattern): set<Key>
    requires hi <= |shards|
  {
    set j, k | lo <= j < hi && k in shards[j] && Matches(p, k) :: k
  }

  /** All keys of the dict. */
  ghost function All(shards: seq<set<Key>>): set<Key> {
    Between(shards, 0, |shards|, Star)
  }

  ghost predicate NoneTwice(s: seq<Key>) {
    forall i, j :: 0 <= i < j < |s| ==> s[i] != s[j]
  }

  /** Each of `keys`, once. */
  ghost predicate Lists(result: seq<Key>, keys: set<Key>) {
    NoneTwice(result) && forall k :: k in result <==> k in keys
  }

  predicate WholeAtOnce(v: View, count: int, p: Pattern) {
    p.Star? && count >= v.size
  }

  /** Where a call that is not answered at once ends. */
  function End(v: View, cursor: nat, count: int, p: Pattern): (r: nat)
    ensures r <= |v.shards| && (cursor < |v.shards| ==> cursor < r)
  {
    Stop(v.shards, cursor, cursor, count, 0, p)
  }

  function NextCursor(v: View, cursor: nat, count: int, p: Pattern): (r: int)
    ensures r == -1 || r == 0 || cursor < r < |v.shards|
  {
    if WholeAtOnce(v, count, p) then 0
    else if p.Bad? then -1
    else var e := End(v, cursor, count, p); if e == |v.shards| then 0 else e
  }

  lemma ListsSize(r: seq<Key>, keys: set<Key>)
    requires Lists(r, keys)
    ensures |r| == |keys|
    decreases r
  {
    if r == [] {
      assert keys == {};
    } else {
      var m := |r| - 1;
      assert r[m] in r;
      forall k ensures k in r[..m] <==> k in keys - {r[m]} {
        if k in keys - {r[m]} {
          assert k in r;
        }
      }
      ListsSize(r[..m], keys - {r[m]});
    }
  }

  method ScanShard(shard: set<Key>, p: Pattern) returns (r: seq<Key>)
    ensures |r| == |Matching(shard, p)| && Lists(r, Matching(shard, p))
  {
    r := [];
    var rest := shard;
    while rest != {}
      invariant rest <= shard && Lists(r, Matching(shard - rest, p))
      decreases rest
    {
      var k :| k in rest;
      assert k !in r && Matching(shard - (rest - {k}), p) == Matching(shard - rest, p) + Matching({k}, p);
      if Matches(p, k) {
        r := r + [k];
      }
      rest := rest - {k};
    }
    assert shard - {} == shard;
    ListsSize(r, Matching(shard, p));
  }

  lemma ListsOneMore(r: seq<Key>, keys: set<Key>, k: Key)
    requires Lists(r, keys) && k !in keys
    ensures Lists(r + [k], keys + {k})
  {
  }

  /** Listings of two stretches of shards make a listing of both. */
  lemma ListsBoth(shards: seq<set<Key>>, lo: nat, mid: nat, hi: nat, p: Pattern, a: seq<Key>, b: seq<Key>, spread: Key -> nat)
    requires lo <= mid <= hi <= |shards| && Home(View(shards, 0, 0), |shards|, spread)
    requires Lists(a, Between(shards, lo, mid, p)) && Lists(b, Between(shards, mid, hi, p))
    ensures Lists(a + b, Between(shards, lo, hi, p))
  {
    assert Between(shards, lo, hi, p) == Between(shards, lo, mid, p) + Between(shards, mid, hi, p);
    forall i, j | 0 <= i < |a| <= j < |a + b| ensures (a + b)[i] != (a + b)[j] {
      assert a[i] in a && b[j - |a|] in b;
      BetweenAtHome(shards, lo, mid, p, a[i], spread);
      BetweenAtHome(shards, mid, hi, p, b[j - |a|], spread);
    }
  }

  lemma BetweenAtHome(shards: seq<set<Key>>, lo: nat, hi: nat, p: Pattern, k: Key, spread: Key -> nat)
    requires Home(View(shards, 0, 0), |shards|, spread) && hi <= |shards|
    ensures k in Between(shards, lo, hi, p) ==> lo <= spread(k) < hi
  {
  }

  lemma InBetween(shards: seq<set<Key>>, lo: nat, hi: nat, p: Pattern, k: Key, j: nat)
    requires lo <= j < hi <= |shards| && k in shards[j] && Matches(p, k)
    ensures k in Between(shards, lo, hi, p)
  {
  }

  /* ---- Keys ---- */

  function Padding(n: nat): seq<Key> {
    seq(n, _ => "")
  }

  /** What stays of the keys that find no room: each second one is written over the one before it. */
  function Kept(late: seq<Key>): seq<Key> {
    if |late| <= 1 then late else [late[1]] + Kept(late[2..])
  }

  /** What Keys returns, if Len has said `len` and ForEach then meets the keys `walk`. */
  function Filled(walk: seq<Key>, len: nat): seq<Key> {
    if |walk| <= len then walk + Padding(len - |walk|) else walk[..len] + Kept(walk[len..])
  }

  lemma {:induction false} KeptSize(late: seq<Key>)
    ensures |Kept(late)| == (|late| + 1) / 2
    decreases late
  {
    if |late| > 1 {
      KeptSize(late[2..]);
    }
  }

  lemma {:induction false} KeptOneMore(late: seq<Key>, k: Key)
    ensures var kept := Kept(late);
            if |late| % 2 == 0 then Kept(late + [k]) == kept + [k]
            else kept != [] && Kept(late + [k]) == kept[..|kept| - 1] + [k]
    decreases late
  {
    if |late| > 1 {
      KeptOneMore(late[2..], k);
      assert (late + [k])[2..] == late[2..] + [k];
      KeptSize(late[2..]);
    }
  }

  /** The array and the index of Keys once it has met the keys `walk`. */
  ghost predicate Filling(keys: seq<Key>, i: nat, walk: seq<Key>, len: nat) {
    keys == Filled(walk, len) && i == if |walk| <= len then |walk| else len + (|walk| - len) / 2
  }

  /** The function that Keys passes to ForEach. */
  method TakeKey(keys: seq<Key>, i: nat, key: Key, ghost walk: seq<Key>, ghost len: nat) returns (more: seq<Key>, next: nat)
    requires Filling(keys, i, walk, len)
    ensures Filling(more, next, walk + [key], len)
  {
    FillingOneMore(keys, i, walk, len, key);
    if i < |keys| {
      more, next := keys[i := key], i + 1;
    } else {
      more, next := keys + [key], i;
    }
  }

  lemma FillingOneMore(keys: seq<Key>, i: nat, walk: seq<Key>, len: nat, key: Key)
    requires Filling(keys, i, walk, len)
    ensures i <= |keys|
    ensures i < |keys| ==> Filling(keys[i := key], i + 1, walk + [key], len)
    ensures i == |keys| ==> Filling(keys + [key], i, walk + [key], len)
  {
    if |walk| >= len {
      var late := walk[len..];
      KeptSize(late);
      KeptOneMore(late, key);
      assert (walk + [key])[len..] == late + [key] && (walk + [key])[..len] == walk[..len];
      assert Filled(walk, len) == walk[..len] + Kept(late);
    }
  }

  /** The keys of the first `n` shards, shard after shard, in any order within one. */
  ghost predicate IsWalk(walk: seq<Key>, shards: seq<set<Key>>, n: nat, spread: Key -> nat)
    requires n <= |shards|
  {
    Lists(walk, Between(shards, 0, n, Star)) && InOrder(walk, spread)
  }

  ghost predicate InOrder(walk: seq<Key>, spread: Key -> nat) {
    forall i, j :: 0 <= i < j < |walk| ==> spread(walk[i]) <= spread(walk[j])
  }

  method Keys(v: View, ghost spread: Key -> nat) returns (keys: seq<Key>, ghost walk: seq<Key>)
    requires Home(v, |v.shards|, spread)
    ensures IsWalk(walk, v.shards, |v.shards|, spread) && keys == Filled(walk, v.len)
  {
    keys, walk := Padding(v.len), [];
    var i, at := 0, 0;
    while at < |v.shards|
      invariant at <= |v.shards| && Filling(keys, i, walk, v.len) && IsWalk(walk, v.shards, at, spread)
    {
      keys, i, walk := TakeShard(v, at, keys, i, walk, spread);
      at := at + 1;
    }
  }

  /** ForEach on one shard. */
  method TakeShard(v: View, at: nat, before: seq<Key>, from: nat, ghost walked: seq<Key>, ghost spread: Key -> nat)
    returns (keys: seq<Key>, i: nat, ghost walk: seq<Key>)
    requires at < |v.shards| && Home(v, |v.shards|, spread)
    requires Filling(before, from, walked, v.len) && IsWalk(walked, v.shards, at, spread)
    ensures Filling(keys, i, walk, v.len) && IsWalk(walk, v.shards, at + 1, spread)
  {
    keys, i, walk := before, from, walked;
    var rest := v.shards[at];
    ghost var done := Between(v.shards, 0, at, Star);
    while rest != {}
      invariant rest <= v.shards[at] && Filling(keys, i, walk, v.len)
      invariant Lists(walk, done + (v.shards[at] - rest)) && InOrder(walk, spread)
      decreases rest
    {
      var k :| k in rest;
      WalkOneMore(v.shards, at, rest, walk, k, spread);
      keys, i := TakeKey(keys, i, k, walk, v.len);
      walk := walk + [k];
      rest := rest - {k};
    }
    BetweenNext(v.shards, at, Star);
    assert v.shards[at] - {} == v.shards[at];
  }

  lemma BetweenNext(shards: seq<set<Key>>, at: nat, p: Pattern)
    requires at < |shards|
    ensures Between(shards, 0, at + 1, p) == Between(shards, 0, at, p) + Matching(shards[at], p)
  {
  }

  lemma WalkOneMore(shards: seq<set<Key>>, at: nat, rest: set<Key>, walk: seq<Key>, k: Key, spread: Key -> nat)
    requires at < |shards| && Home(View(shards, 0, 0), |shards|, spread) && k in rest && rest <= shards[at]
    requires Lists(walk, Between(shards, 0, at, Star) + (shards[at] - rest)) && InOrder(walk, spread)
    ensures Lists(walk + [k], Between(shards, 0, at, Star) + (shards[at] - (rest - {k}))) && InOrder(walk + [k], spread)
  {
    var done := Between(shards, 0, at, Star);
    BetweenAtHome(shards, 0, at, Star, k, spread);
    assert done + (shards[at] - (rest - {k})) == done + (shards[at] - rest) + {k};
    ListsOneMore(walk, done + (shards[at] - rest), k);
    forall i | 0 <= i < |walk| ensures spread(walk[i]) <= spread(k) {
      assert walk[i] in walk;
      BetweenAtHome(shards, 0, at, Star, walk[i], spread);
    }
  }

  lemma {:induction false} KeptFrom(late: seq<Key>, k: Key)
    ensures k in Kept(late) ==> k in late
    decreases late
  {
    if |late| > 1 {
      KeptFrom(late[2..], k);
    }
  }

  /** The key at index `j` is nowhere else. */
  ghost predicate Unique(s: seq<Key>, j: nat) {
    j < |s| && forall i {:trigger s[i]} :: 0 <= i < |s| && i != j ==> s[i] != s[j]
  }

  lemma UniqueRest(s: seq<Key>, a: nat, j: nat)
    requires Unique(s, j) && a <= j
    ensures Unique(s[a..], j - a) && s[a..][j - a] == s[j] && s[j] !in s[..a]
  {
  }

  lemma UniqueBehind(s: seq<Key>, a: nat, j: nat)
    requires Unique(s, j) && j < a <= |s|
    ensures s[j] !in s[a..]
  {
  }

  lemma {:induction false} KeptHas(late: seq<Key>, j: nat)
    requires Unique(late, j)
    ensures late[j] in Kept(late) <==> j % 2 == 1 || j == |late| - 1
    decreases late
  {
    if |late| > 1 {
      if j >= 2 {
        UniqueRest(late, 2, j);
        KeptHas(late[2..], j - 2);
      } else {
        UniqueBehind(late, 2, j);
        KeptFrom(late[2..], late[j]);
      }
    }
  }

  /** The `j`-th of `m` keys is written over by the next: it came when there was no room. */
  predicate Overwritten(m: nat, len: nat, j: nat) {
    len <= j < m - 1 && (j - len) % 2 == 0
  }

  /** A key that Keys meets is in its answer if and only if it is not written over. */
  lemma FilledHas(walk: seq<Key>, len: nat, j: nat)
    requires NoneTwice(walk) && j < |walk|
    ensures walk[j] in Filled(walk, len) <==> !Overwritten(|walk|, len, j)
  {
    if j < len || |walk| <= len {
      FilledEarly(walk, len, j);
    } else {
      LateKept(walk, len, j);
      FilledLate(walk, len, walk[j]);
    }
  }

  lemma FilledLate(walk: seq<Key>, len: nat, k: Key)
    requires len < |walk| && k !in walk[..len]
    ensures k in Filled(walk, len) <==> k in Kept(walk[len..])
  {
  }

  lemma LateKept(walk: seq<Key>, len: nat, j: nat)
    requires NoneTwice(walk) && len <= j < |walk|
    ensures walk[j] !in walk[..len] && (walk[j] in Kept(walk[len..]) <==> !Overwritten(|walk|, len, j))
  {
    OneOfWalk(walk, j);
    UniqueRest(walk, len, j);
    KeptHas(walk[len..], j - len);
  }

  lemma OneOfWalk(walk: seq<Key>, j: nat)
    requires NoneTwice(walk) && j < |walk|
    ensures Unique(walk, j)
  {
  }

  lemma FilledEarly(walk: seq<Key>, len: nat, j: nat)
    requires j < |walk| && (j < len || |walk| <= len)
    ensures walk[j] in Filled(walk, len)
  {
    assert Filled(walk, len)[j] == walk[j];
  }

  /** Keys leaves out no key if and only if it meets at most one more than Len has said; and it lists them if it meets no fewer either. */
  lemma KeysComplete(walk: seq<Key>, len: nat, keys: set<Key>)
    requires Lists(walk, keys)
    ensures (forall k :: k in keys ==> k in Filled(walk, len)) <==> |walk| <= len + 1
    ensures Lists(Filled(walk, len), keys) <==> len <= |walk| <= len + 1
  {
    forall j | 0 <= j < |walk| ensures walk[j] in Filled(walk, len) <==> !Overwritten(|walk|, len, j) {
      FilledHas(walk, len, j);
    }
    if |walk| > len + 1 {
      assert walk[len] in walk && Overwritten(|walk|, len, len);
    } else if |walk| < len {
      ListsSize(walk, keys);
      if Lists(Filled(walk, len), keys) {
        ListsSize(Filled(walk, len), keys);
      }
    } else {
      assert Filled(walk, len) == walk;
    }
  }

  /* ---- A call ---- */

  /** A call, what it saw, and what it returned; `walk` are the keys that Keys met. */
  datatype Call = Call(view: View, cursor: nat, count: int, result: seq<Key>, next: int, walk: seq<Key>)

  ghost predicate IsCall(c: Call, p: Pattern, n: nat, spread: Key -> nat) {
    && Home(c.view, n, spread) && c.next == NextCursor(c.view, c.cursor, c.count, p)
    && if WholeAtOnce(c.view, c.count, p) then
         IsWalk(c.walk, c.view.shards, n, spread) && c.result == Filled(c.walk, c.view.len)
       else if p.Bad? then c.result == []
       else Lists(c.result, Between(c.view.shards, c.cursor, End(c.view, c.cursor, c.count, p), p))
  }

  method DictScan(v: View, cursor: nat, count: int, p: Pattern, ghost n: nat, ghost spread: Key -> nat)
    returns (result: seq<Key>, next: int, ghost walk: seq<Key>)
    requires Home(v, n, spread)
    ensures IsCall(Call(v, cursor, count, result, next, walk), p, n, spread)
    ensures p.Star? && count >= v.size ==> next == 0 && result == Filled(walk, v.len)
    ensures p.Bad? ==> next == -1 && result == []
  {
    result, walk := [], [];
    if p.Star? && count >= v.size {
      result, walk := Keys(v, spread);
      return result, 0, walk;
    }
    if p.Bad? {
      return result, -1, walk;
    }
    var at := cursor;
    while at < |v.shards|
      invariant cursor <= at && (cursor <= |v.shards| ==> at <= |v.shards|)
      invariant Stop(v.shards, at, cursor, count, |result|, p) == End(v, cursor, count, p)
      invariant at <= |v.shards| ==> Lists(result, Between(v.shards, cursor, at, p))
      invariant at > |v.shards| ==> result == []
    {
      if |result| + |v.shards[at]| > count && at > cursor {
        return result, at, walk;
      }
      var more := ScanShard(v.shards[at], p);
      assert Between(v.shards, at, at + 1, p) == Matching(v.shards[at], p);
      ListsBoth(v.shards, cursor, at, at + 1, p, result, more, spread);
      result := result + more;
      at := at + 1;
    }
    next := 0;
  }

  /* ---- Whole scans ---- */

  /** A call begins at 0 or where the one before it left off. */
  ghost predicate InTurn(calls: seq<Call>, i: nat, p: Pattern, n: nat, spread: Key -> nat)
    requires i < |calls|
  {
    IsCall(calls[i], p, n, spread) && if i == 0 then calls[i].cursor == 0 else calls[i].cursor == calls[i - 1].next > 0
  }

  /** The first calls of a scan, each with the cursor the last one returned; none but the last has returned 0. */
  ghost predicate IsScan(calls: seq<Call>, p: Pattern, n: nat, spread: Key -> nat) {
    !p.Bad? && forall i: nat {:trigger InTurn(calls, i, p, n, spread)} :: i < |calls| ==> InTurn(calls, i, p, n, spread)
  }

  ghost predicate Finished(calls: seq<Call>) {
    calls != [] && calls[|calls| - 1].next == 0
  }

  lemma {:induction false} CursorsGrow(calls: seq<Call>, p: Pattern, n: nat, spread: Key -> nat, i: nat)
    requires IsScan(calls, p, n, spread) && i < |calls|
    ensures i <= calls[i].cursor && (calls[i].next == 0 || i < calls[i].next < n)
    decreases i
  {
    assert InTurn(calls, i, p, n, spread);
    if i > 0 {
      CursorsGrow(calls, p, n, spread, i - 1);
    }
  }

  /** Whatever others do, a scan ends within as many calls as there are shards. */
  lemma ScanEnds(calls: seq<Call>, p: Pattern, n: nat, spread: Key -> nat)
    requires IsScan(calls, p, n, spread) && |calls| >= n > 0
    ensures |calls| == n && Finished(calls)
  {
    CursorsGrow(calls, p, n, spread, n - 1);
    assert |calls| > n ==> InTurn(calls, n, p, n, spread);
    assert InTurn(calls, n - 1, p, n, spread);
  }

  /** A call that is not the last has returned the keys of the shards up to the cursor of any later one. */
  lemma {:induction false} LaterStartsAfter(calls: seq<Call>, p: Pattern, n: nat, spread: Key -> nat, i: nat, j: nat)
    requires IsScan(calls, p, n, spread) && i < j < |calls|
    ensures var c := calls[i];
            !WholeAtOnce(c.view, c.count, p) && End(c.view, c.cursor, c.count, p) == c.next <= calls[j].cursor
    decreases j
  {
    assert InTurn(calls, i, p, n, spread) && InTurn(calls, i + 1, p, n, spread);
    assert InTurn(calls, j - 1, p, n, spread) && InTurn(calls, j, p, n, spread);
    if i < j - 1 {
      LaterStartsAfter(calls, p, n, spread, i, j - 1);
    }
  }

  /** The key is there, in its shard, whenever the scan looks. */
  ghost predicate AlwaysThere(calls: seq<Call>, k: Key, n: nat, spread: Key -> nat) {
    spread(k) < n
    && forall i {:trigger calls[i]} :: 0 <= i < |calls| ==>
         |calls[i].view.shards| == n && k in calls[i].view.shards[spread(k)]
  }

  ghost predicate FoundBy(calls: seq<Call>, k: Key, m: nat)
    requires m <= |calls|
  {
    exists i {:trigger calls[i]} :: 0 <= i < m && k in calls[i].result
  }

  lemma InStretch(c: Call, p: Pattern, n: nat, spread: Key -> nat, k: Key)
    requires IsCall(c, p, n, spread) && !WholeAtOnce(c.view, c.count, p) && !p.Bad?
    requires spread(k) < n && k in c.view.shards[spread(k)] && Matches(p, k)
    ensures k in c.result <==> c.cursor <= spread(k) < End(c.view, c.cursor, c.count, p)
  {
    BetweenAtHome(c.view.shards, c.cursor, End(c.view, c.cursor, c.count, p), p, k, spread);
  }

  /** The calls before one find exactly the keys of the shards before its cursor. */
  lemma {:induction false} FoundBefore(calls: seq<Call>, p: Pattern, n: nat, spread: Key -> nat, k: Key, m: nat)
    requires IsScan(calls, p, n, spread) && AlwaysThere(calls, k, n, spread) && Matches(p, k) && m < |calls|
    ensures FoundBy(calls, k, m) <==> spread(k) < calls[m].cursor
    decreases m
  {
    assert InTurn(calls, m, p, n, spread);
    if m > 0 {
      assert InTurn(calls, m - 1, p, n, spread);
      FoundBefore(calls, p, n, spread, k, m - 1);
      LaterStartsAfter(calls, p, n, spread, m - 1, m);
      InStretch(calls[m - 1], p, n, spread, k);
      assert FoundBy(calls, k, m) <==> FoundBy(calls, k, m - 1) || k in calls[m - 1].result;
    }
  }

  /** Keys meets the key, and writes another one over it. */
  ghost predicate Misses(c: Call, k: Key) {
    exists j: nat {:trigger c.walk[j]} :: j < |c.walk| && c.walk[j] == k && Overwritten(|c.walk|, c.view.len, j)
  }

  lemma AtOnceFinds(c: Call, p: Pattern, n: nat, spread: Key -> nat, k: Key)
    requires IsCall(c, p, n, spread) && WholeAtOnce(c.view, c.count, p) && spread(k) < n && k in c.view.shards[spread(k)]
    ensures k in c.result <==> !Misses(c, k)
    ensures |c.walk| == |All(c.view.shards)| && (Misses(c, k) ==> |All(c.view.shards)| > c.view.len + 1)
  {
    InBetween(c.view.shards, 0, n, Star, k, spread(k));
    assert k in c.walk;
    var j :| 0 <= j < |c.walk| && c.walk[j] == k;
    FilledHas(c.walk, c.view.len, j);
    ListsSize(c.walk, All(c.view.shards));
  }

  /** A finished scan has returned a matching key that was there all the time, unless its last call was answered at once and lost the key. */
  lemma ScanComplete(calls: seq<Call>, p: Pattern, n: nat, spread: Key -> nat, k: Key)
    requires IsScan(calls, p, n, spread) && Finished(calls) && AlwaysThere(calls, k, n, spread) && Matches(p, k)
    ensures var last := calls[|calls| - 1];
            && (FoundBy(calls, k, |calls|) <==>
                !(WholeAtOnce(last.view, last.count, p) && last.cursor <= spread(k) && Misses(last, k)))
            && (|All(last.view.shards)| <= last.view.len + 1 ==> FoundBy(calls, k, |calls|))
  {
    var m := |calls| - 1;
    var last := calls[m];
    FoundBefore(calls, p, n, spread, k, m);
    assert InTurn(calls, m, p, n, spread);
    assert FoundBy(calls, k, |calls|) <==> FoundBy(calls, k, m) || k in last.result;
    if WholeAtOnce(last.view, last.count, p) {
      AtOnceFinds(last, p, n, spread, k);
    } else {
      InStretch(last, p, n, spread, k);
    }
  }

  /** A dict of at least 16 shards with one key in each of three of them. */
  ghost function Three(n: nat): (shards: seq<set<Key>>)
    requires n >= 16
    ensures |shards| == n && shards[0] == {"a"} && shards[1] == {"x"} && shards[2] == {"b"} && forall i :: 3 <= i < n ==> shards[i] == {}
  {
    seq(n, i => if i == 0 then {"a"} else if i == 1 then {"x"} else if i == 2 then {"b"} else {})
  }

  lemma ThreeKeys(n: nat)
    requires n >= 16
    ensures All(Three(n)) == {"a", "x", "b"}
  {
    var shards := Three(n);
    InBetween(shards, 0, n, Star, "a", 0);
    InBetween(shards, 0, n, Star, "x", 1);
    InBetween(shards, 0, n, Star, "b", 2);
  }

  /** "x" is there all the time, and two keys are put in while Keys walks: the scan does not return "x". */
  lemma ScanMisses(n: nat)
    requires n >= 16
    ensures var spread := (k: Key) => if k == "a" then 0 else if k == "x" then 1 else 2;
            var c := Call(View(Three(n), 1, 1), 0, 10, ["a", "b"], 0, ["a", "x", "b"]);
            IsScan([c], Star, n, spread) && Finished([c]) && AlwaysThere([c], "x", n, spread) && "x" !in c.result
  {
    var walk := ["a", "x", "b"];
    assert walk[..1] == ["a"] && walk[1..] == ["x", "b"] && walk[1..][2..] == [];
    assert Filled(walk, 1) == ["a", "b"];
    ThreeKeys(n);
  }

  /* ---- A dict nobody changes ---- */

  /** Len tells the number of keys. */
  ghost predicate Quiet(v: View) {
    v.size == v.len == |All(v.shards)|
  }

  ghost predicate Unchanging(calls: seq<Call>, v: View, count: int) {
    Quiet(v) && forall i {:trigger calls[i]} :: 0 <= i < |calls| ==> calls[i].view == v && calls[i].count == count
  }

  /** All that the calls have returned. */
  ghost function Together(calls: seq<Call>): seq<Key> {
    if calls == [] then [] else Together(calls[..|calls| - 1]) + calls[|calls| - 1].result
  }

  /** How far the first `m` calls have come. */
  ghost function Reached(calls: seq<Call>, m: nat, n: nat): int
    requires m <= |calls|
  {
    if m == 0 then 0 else if calls[m - 1].next == 0 then n else calls[m - 1].next
  }

  lemma {:induction false} ListedSoFar(calls: seq<Call>, p: Pattern, n: nat, spread: Key -> nat, v: View, count: int, m: nat)
    requires IsScan(calls, p, n, spread) && Unchanging(calls, v, count) && Home(v, n, spread) && m <= |calls|
    ensures 0 <= Reached(calls, m, n) <= n && Lists(Together(calls[..m]), Between(v.shards, 0, Reached(calls, m, n), p))
    decreases m
  {
    if m > 0 {
      ListedSoFar(calls, p, n, spread, v, count, m - 1);
      var c := calls[m - 1];
      assert InTurn(calls, m - 1, p, n, spread);
      assert calls[..m][..m - 1] == calls[..m - 1];
      var before := Together(calls[..m - 1]);
      if WholeAtOnce(v, count, p) {
        AtOnceIsFirst(calls, p, n, spread, v, count, m);
        assert before == [] && before + c.result == c.result;
        ListsSize(c.walk, All(v.shards));
        KeysComplete(c.walk, v.len, All(v.shards));
      } else {
        assert Reached(calls, m - 1, n) == c.cursor;
        CursorsGrow(calls, p, n, spread, m - 1);
        ListsBoth(v.shards, 0, c.cursor, Reached(calls, m, n), p, before, c.result, spread);
      }
    }
  }

  lemma AtOnceIsFirst(calls: seq<Call>, p: Pattern, n: nat, spread: Key -> nat, v: View, count: int, m: nat)
    requires IsScan(calls, p, n, spread) && Unchanging(calls, v, count) && WholeAtOnce(v, count, p) && 0 < m <= |calls|
    ensures m == 1
  {
    assert InTurn(calls, 0, p, n, spread);
    assert m > 1 ==> InTurn(calls, 1, p, n, spread);
  }

  /** A finished scan of a dict that does not change, with a fixed count, has returned each matching key exactly once. */
  lemma ScanOnce(calls: seq<Call>, p: Pattern, n: nat, spread: Key -> nat, v: View, count: int)
    requires IsScan(calls, p, n, spread) && Finished(calls) && Unchanging(calls, v, count)
    ensures |v.shards| == n && Lists(Together(calls), Between(v.shards, 0, n, p))
  {
    assert InTurn(calls, 0, p, n, spread);
    ListedSoFar(calls, p, n, spread, v, count, |calls|);
    assert calls[..|calls|] == calls;
  }

  /* ---- Len ---- */

  /** Each shard holds the entries whose keys are spread to it. */
  ghost predicate Stores<V>(table: seq<map<Key, V>>, entries: map<Key, V>, spread: Key -> nat) {
    forall j, k {:trigger k in table[j]} :: 0 <= j < |table| ==>
      (k in table[j] <==> k in entries && spread(k) == j) && (k in table[j] ==> table[j][k] == entries[k])
  }

  function KeySets<V>(table: seq<map<Key, V>>): (shards: seq<set<Key>>)
    ensures |shards| == |table| && forall j {:trigger shards[j]} :: 0 <= j < |table| ==> shards[j] == table[j].Keys
  {
    seq(|table|, j requires 0 <= j < |table| => table[j].Keys)
  }

  /** The shards and the counter of entries; each operation holds the lock of its shard from beginning to end. */
  class ConcurrentDict<V> {
    const spread: Key -> nat
    var table: seq<map<Key, V>>
    var count: int
    ghost var entries: map<Key, V>

    ghost predicate Valid()
      reads this
    {
      (forall k :: spread(k) < |table|) && Stores(table, entries, spread) && count == |entries|
    }

    constructor (shardCount: nat, spread: Key -> nat)
      requires forall k :: spread(k) < shardCount
      ensures Valid() && entries == map[] && |table| == shardCount && this.spread == spread
    {
      this.spread := spread;
      table := seq(shardCount, _ => map[]);
      count, entries := 0, map[];
    }

    method Put(key: Key, val: V) returns (result: int)
      requires Valid()
      modifies this
      ensures Valid() && entries == old(entries)[key := val]
      ensures result == if key in old(entries) then 0 else 1
    {
      var j := spread(key);
      result := if key in table[j] then 0 else 1;
      count := count + result;
      table := table[j := table[j][key := val]];
      entries := entries[key := val];
    }

    method PutIfAbsent(key: Key, val: V) returns (result: int)
      requires Valid()
      modifies this
      ensures Valid() && entries == if key in old(entries) then old(entries) else old(entries)[key := val]
      ensures result == if key in old(entries) then 0 else 1
    {
      if key in table[spread(key)] {
        return 0;
      }
      result := Put(key, val);
    }

    method PutIfExists(key: Key, val: V) returns (result: int)
      requires Valid()
      modifies this
      ensures Valid() && entries == if key in old(entries) then old(entries)[key := val] else old(entries)
      ensures result == if key in old(entries) then 1 else 0
    {
      var j := spread(key);
      if key !in table[j] {
        return 0;
      }
      table := table[j := table[j][key := val]];
      entries := entries[key := val];
      return 1;
    }

    method Remove(key: Key) returns (val: Option<V>, result: int)
      requires Valid()
      modifies this
      ensures Valid() && entries == old(entries) - {key}
      ensures val == (if key in old(entries) then Some(old(entries)[key]) else None) && result == if val.None? then 0 else 1
    {
      var j := spread(key);
      if key !in table[j] {
        assert entries - {key} == entries;
        return None, 0;
      }
      val, result := Some(table[j][key]), 1;
      table := table[j := table[j] - {key}];
      entries := entries - {key};
      count := count - 1;
    }

    /** As long as nobody changes the dict, Len tells the number of its keys, and each is in the shard it is spread to. */
    lemma AtRest()
      requires Valid()
      ensures Quiet(View(KeySets(table), count, count)) && Home(View(KeySets(table), count, count), |table|, spread)
      ensures All(KeySets(table)) == entries.Keys
    {
      var shards := KeySets(table);
      forall k ensures k in All(shards) <==> k in entries {
        if k in entries {
          InBetween(shards, 0, |shards|, Star, k, spread(k));
        } else {
          BetweenHas(shards, 0, |shards|, Star, k);
        }
      }
      assert All(shards) == entries.Keys;
      assert |entries.Keys| == |entries|;
    }
  }

  lemma BetweenHas(shards: seq<set<Key>>, lo: nat, hi: nat, p: Pattern, k: Key)
    requires hi <= |shards|
    ensures k in Between(shards, lo, hi, p) <==> exists j {:trigger shards[j]} :: lo <= j < hi && k in shards[j] && Matches(p, k)
  {
  }

  /* ---- How much one call returns ---- */

  /** The number of matching keys in the shards from `lo` to `hi`. */
  function Total(shards: seq<set<Key>>, lo: nat, hi: nat, p: Pattern): nat
    requires hi <= |shards|
    decreases hi - lo
  {
    if lo >= hi then 0 else |set k | k in shards[hi - 1] && Matches(p, k)| + Total(shards, lo, hi - 1, p)
  }

  /** A call looks at its first shard in any case, at each further one if the keys found so far and those in it are not more than `count`, and stops at the first other. */
  lemma {:induction false} StopFrom(shards: seq<set<Key>>, at: nat, cursor: nat, count: int, p: Pattern)
    requires cursor <= at <= |shards|
    ensures var r := Stop(shards, at, cursor, count, Total(shards, cursor, at, p), p);
            && at <= r <= |shards|
            && (r < |shards| ==> r > cursor && Total(shards, cursor, r, p) + |shards[r]| > count)
            && forall j {:trigger shards[j]} :: at <= j < r && j > cursor ==> Total(shards, cursor, j, p) + |shards[j]| <= count
    decreases |shards| - at
  {
    if at < |shards| {
      assert Total(shards, cursor, at + 1, p) == Total(shards, cursor, at, p) + |Matching(shards[at], p)|;
      StopFrom(shards, at + 1, cursor, count, p);
    }
  }

  lemma CountMeans(v: View, cursor: nat, count: int, p: Pattern)
    requires cursor < |v.shards|
    ensures var r := End(v, cursor, count, p);
            && cursor < r <= |v.shards|
            && (r < |v.shards| ==> Total(v.shards, cursor, r, p) + |v.shards[r]| > count)
            && (forall j {:trigger v.shards[j]} :: cursor < j < r ==> Total(v.shards, cursor, j, p) + |v.shards[j]| <= count)
            && (r > cursor + 1 ==> Total(v.shards, cursor, r, p) <= count)
  {
    StopFrom(v.shards, cursor, cursor, count, p);
    var r := End(v, cursor, count, p);
    assert Total(v.shards, cursor, cursor, p) == 0;
    if r > cursor + 1 {
      assert Total(v.shards, cursor, r - 1, p) + |v.shards[r - 1]| <= count;
      LastShard(v.shards, cursor, r, count, p);
    }
  }

  lemma LastShard(shards: seq<set<Key>>, lo: nat, hi: nat, count: int, p: Pattern)
    requires lo < hi <= |shards| && Total(shards, lo, hi - 1, p) + |shards[hi - 1]| <= count
    ensures Total(shards, lo, hi, p) <= count
  {
    Fewer(shards[hi - 1], p);
  }

  lemma Fewer(shard: set<Key>, p: Pattern)
    ensures |set k | k in shard && Matches(p, k)| <= |shard|
  {
    var m := set k | k in shard && Matches(p, k);
    assert m <= shard && |shard - m| == |shard| - |m|;
  }

  lemma BetweenMore(v: View, lo: nat, hi: nat, p: Pattern, n: nat, spread: Key -> nat)
    requires Home(v, n, spread) && lo < hi <= n
    ensures Between(v.shards, lo, hi, p) == Between(v.shards, lo, hi - 1, p) + Matching(v.shards[hi - 1], p)
    ensures Between(v.shards, lo, hi - 1, p) !! Matching(v.shards[hi - 1], p)
  {
    var a, m, b := Between(v.shards, lo, hi - 1, p), Matching(v.shards[hi - 1], p), Between(v.shards, lo, hi, p);
    forall k ensures k in b <==> k in a || k in m {
      if k in m {
        InBetween(v.shards, lo, hi, p, k, hi - 1);
      }
      if k in b && k !in m {
        var j :| lo <= j < hi && k in v.shards[j] && Matches(p, k);
        InBetween(v.shards, lo, hi - 1, p, k, j);
      }
    }
    forall k | k in a ensures k !in m {
      var j :| lo <= j < hi - 1 && k in v.shards[j] && Matches(p, k);
      assert spread(k) == j;
    }
  }

  lemma SizesAdd(a: set<Key>, b: set<Key>)
    requires a !! b
    ensures |a + b| == |a| + |b|
  {
  }

  lemma {:induction false} TotalIs(v: View, lo: nat, hi: nat, p: Pattern, n: nat, spread: Key -> nat)
    requires Home(v, n, spread) && lo <= hi <= n
    ensures |Between(v.shards, lo, hi, p)| == Total(v.shards, lo, hi, p)
    decreases hi
  {
    if lo < hi {
      TotalIs(v, lo, hi - 1, p, n, spread);
      BetweenMore(v, lo, hi, p, n, spread);
      SizesAdd(Between(v.shards, lo, hi - 1, p), Matching(v.shards[hi - 1], p));
    } else {
      assert Between(v.shards, lo, hi, p) == {};
    }
  }

  /** A call that is not answered at once returns `count` keys at most, unless the first shard alone has more. */
  lemma CallReturns(c: Call, p: Pattern, n: nat, spread: Key -> nat)
    requires IsCall(c, p, n, spread) && !p.Bad? && !(p.Star? && c.count >= c.view.size) && c.cursor < n
    ensures |c.result| <= c.count || |c.result| == |set k | k in c.view.shards[c.cursor] && Matches(p, k)|
    ensures |c.result| == Total(c.view.shards, c.cursor, if c.next == 0 then n else c.next, p)
  {
    CountMeans(c.view, c.cursor, c.count, p);
    var r := End(c.view, c.cursor, c.count, p);
    TotalIs(c.view, c.cursor, r, p, n, spread);
    ListsSize(c.result, Between(c.view.shards, c.cursor, r, p));
    assert Total(c.view.shards, c.cursor, c.cursor, p) == 0;
  }

  /** A call for all keys, with a count of at least what Len says, is answered at once and is the last. */
  lemma AnsweredAtOnce(c: Call, p: Pattern, n: nat, spread: Key -> nat)
    requires IsCall(c, p, n, spread)
    ensures p.Star? && c.count >= c.view.size ==> c.next == 0 && c.result == Filled(c.walk, c.view.len)
    ensures p.Bad? ==> c.next == -1 && c.result == []
    ensures !p.Bad? && !(p.Star? && c.count >= c.view.size) ==>
              (c.next == 0 || c.cursor < c.next < n) && Lists(c.result, Between(c.view.shards, c.cursor, if c.next == 0 then n else c.next, p))
  {
  }
}
