/** datastruct/dict/concurrent.go: locking the shards of several keys. */
module ShardLocks {
  import opened Sequences

  type Key = string

  /** A call of Lock (to write) or RLock (to read) on the mutex of a shard. */
  datatype Want = Want(shard: nat, write: bool)

  /** What an Unlock or RUnlock call releases is named in the same way. */
  function Shards(keys: seq<Key>, spread: Key -> nat): set<nat> {
    set k | k in keys :: spread(k)
  }

  ghost predicate Ascending(s: seq<nat>) {
    forall i, j :: 0 <= i < j < |s| ==> s[i] < s[j]
  }

  ghost predicate Descending(s: seq<nat>) {
    forall i, j :: 0 <= i < j < |s| ==> s[i] > s[j]
  }

  function Elements(s: seq<nat>): set<nat> {
    set x | x in s
  }

  /** sort.Slice on the distinct indices. */
  method Sort(indices: set<nat>, reverse: bool) returns (r: seq<nat>)
    ensures Elements(r) == indices
    ensures if reverse then Descending(r) else Ascending(r)
  {
    r := [];
    var rest := indices;
    while rest != {}
      invariant rest <= indices && Elements(r) == indices - rest
      invariant if reverse then Descending(r) else Ascending(r)
      invariant forall x, y :: x in r && y in rest ==> if reverse then x > y else x < y
      decreases rest
    {
      var m := Extreme(rest, reverse);
      assert Elements(r + [m]) == Elements(r) + {m};
      assert forall i :: 0 <= i < |r| ==> r[i] in r;
      r := r + [m];
      rest := rest - {m};
    }
  }

  method Extreme(s: set<nat>, greatest: bool) returns (m: nat)
    requires s != {}
    ensures m in s && forall x :: x in s ==> if greatest then x <= m else m <= x
  {
    m :| m in s;
    var rest := s - {m};
    while rest != {}
      invariant m in s && rest <= s && forall x :: x in s && x !in rest ==> if greatest then x <= m else m <= x
      decreases rest
    {
      var x :| x in rest;
      if (greatest && x > m) || (!greatest && x < m) {
        m := x;
      }
      rest := rest - {x};
    }
  }

  method ToLockIndices(keys: seq<Key>, reverse: bool, spread: Key -> nat) returns (indices: seq<nat>)
    ensures Elements(indices) == Shards(keys, spread)
    ensures if reverse then Descending(indices) else Ascending(indices)
  {
    var indexMap := SpreadAll(keys, spread);
    indices := Sort(indexMap, reverse);
  }

  method SpreadAll(keys: seq<Key>, spread: Key -> nat) returns (s: set<nat>)
    ensures s == Shards(keys, spread)
  {
    s := {};
    var i := 0;
    while i < |keys|
      invariant 0 <= i <= |keys| && s == Shards(keys[..i], spread)
    {
      assert keys[..i + 1] == keys[..i] + [keys[i]];
      s := s + {spread(keys[i])};
      i := i + 1;
    }
    assert keys[..|keys|] == keys;
  }

  /** The mutexes RWLocks takes for some keys, in order. */
  ghost predicate IsPlan(plan: seq<Want>, writeKeys: seq<Key>, readKeys: seq<Key>, spread: Key -> nat) {
    && (forall i, j :: 0 <= i < j < |plan| ==> plan[i].shard < plan[j].shard)
    && (forall i {:trigger plan[i]} :: 0 <= i < |plan| ==>
          plan[i].shard in Shards(writeKeys + readKeys, spread)
          && (plan[i].write <==> plan[i].shard in Shards(writeKeys, spread)))
    && (forall x {:trigger x in Shards(writeKeys + readKeys, spread)} ::
          x in Shards(writeKeys + readKeys, spread) ==> exists i :: 0 <= i < |plan| && plan[i].shard == x)
  }

  /** The Lock and RLock calls of RWLocks. */
  method RWLocks(writeKeys: seq<Key>, readKeys: seq<Key>, spread: Key -> nat) returns (calls: seq<Want>)
    ensures IsPlan(calls, writeKeys, readKeys, spread)
  {
    var indices := ToLockIndices(writeKeys + readKeys, false, spread);
    calls := Modes(indices, writeKeys, spread);
    forall x | x in Shards(writeKeys + readKeys, spread) ensures exists i :: 0 <= i < |calls| && calls[i].shard == x {
      assert x in Elements(indices);
      var i :| 0 <= i < |indices| && indices[i] == x;
      assert calls[i].shard == x;
    }
    forall i {:trigger calls[i]} | 0 <= i < |calls| ensures calls[i].shard in Shards(writeKeys + readKeys, spread) {
      assert indices[i] in Elements(indices);
    }
  }

  method Modes(indices: seq<nat>, writeKeys: seq<Key>, spread: Key -> nat) returns (calls: seq<Want>)
    ensures |calls| == |indices|
    ensures forall i {:trigger calls[i]} :: 0 <= i < |calls| ==> calls[i] == Want(indices[i], indices[i] in Shards(writeKeys, spread))
  {
    var writeIndexSet := SpreadAll(writeKeys, spread);
    calls := [];
    var i := 0;
    while i < |indices|
      invariant 0 <= i <= |indices| == |indices| && |calls| == i
      invariant forall j {:trigger calls[j]} :: 0 <= j < i ==> calls[j] == Want(indices[j], indices[j] in Shards(writeKeys, spread))
    {
      calls := calls + [Want(indices[i], indices[i] in writeIndexSet)];
      i := i + 1;
    }
  }

  /** The Unlock and RUnlock calls of RWUnLocks: it releases what RWLocks took, in the same modes, the last taken first. */
  method RWUnLocks(writeKeys: seq<Key>, readKeys: seq<Key>, spread: Key -> nat, ghost plan: seq<Want>) returns (calls: seq<Want>)
    requires IsPlan(plan, writeKeys, readKeys, spread)
    ensures calls == Reversed(plan)
  {
    var indices := ToLockIndices(writeKeys + readKeys, true, spread);
    calls := Modes(indices, writeKeys, spread);
    SameOrder(indices, plan, writeKeys, readKeys, spread);
  }

  function ShardsOf(plan: seq<Want>): (r: seq<nat>)
    ensures |r| == |plan| && forall i {:trigger r[i]} :: 0 <= i < |r| ==> r[i] == plan[i].shard
  {
    seq(|plan|, i requires 0 <= i < |plan| => plan[i].shard)
  }

  lemma InPlan(plan: seq<Want>, writeKeys: seq<Key>, readKeys: seq<Key>, spread: Key -> nat, x: nat)
    requires IsPlan(plan, writeKeys, readKeys, spread)
    ensures x in Elements(Reversed(ShardsOf(plan))) <==> x in Shards(writeKeys + readKeys, spread)
  {
    InReversed(ShardsOf(plan), x);
    if x in ShardsOf(plan) {
      var i :| 0 <= i < |plan| && ShardsOf(plan)[i] == x;
      assert plan[i].shard == x;
    }
    if x in Shards(writeKeys + readKeys, spread) {
      var i :| 0 <= i < |plan| && plan[i].shard == x;
      assert ShardsOf(plan)[i] == x;
    }
  }

  lemma InReversed(s: seq<nat>, x: nat)
    ensures x in Reversed(s) <==> x in s
  {
    if x in s {
      var i :| 0 <= i < |s| && s[i] == x;
      assert Reversed(s)[|s| - 1 - i] == x;
    }
  }

  lemma SameOrder(indices: seq<nat>, plan: seq<Want>, writeKeys: seq<Key>, readKeys: seq<Key>, spread: Key -> nat)
    requires IsPlan(plan, writeKeys, readKeys, spread)
    requires Descending(indices) && Elements(indices) == Shards(writeKeys + readKeys, spread)
    ensures indices == Reversed(ShardsOf(plan))
  {
    forall x ensures x in Elements(Reversed(ShardsOf(plan))) <==> x in Elements(indices) {
      InPlan(plan, writeKeys, readKeys, spread, x);
    }
    DescendingUnique(Reversed(ShardsOf(plan)), indices);
  }

  lemma NoElements(s: seq<nat>)
    ensures s == [] <==> Elements(s) == {}
  {
    if s != [] {
      assert s[0] in Elements(s);
    }
  }

  lemma {:induction false} DescendingUnique(a: seq<nat>, b: seq<nat>)
    requires Descending(a) && Descending(b) && Elements(a) == Elements(b)
    ensures a == b
    decreases |a|
  {
    NoElements(a);
    NoElements(b);
    if a != [] {
      assert a[0] in Elements(b) && b[0] in Elements(a);
      assert a[0] == b[0];
      forall x ensures x in Elements(a[1..]) <==> x in Elements(b[1..]) {
        assert x in Elements(a[1..]) <==> x in Elements(a) && x != a[0];
        assert x in Elements(b[1..]) <==> x in Elements(b) && x != b[0];
      }
      DescendingUnique(a[1..], b[1..]);
      assert a == [a[0]] + a[1..] && b == [b[0]] + b[1..];
    }
  }

  /* ---- Any number of clients ---- */

  /** Locking(n): holds the first n mutexes of its plan and takes the next, or is at work if there is none. Unlocking(n): still holds the first n. */
  datatype Phase = Locking(n: nat) | Unlocking(n: nat)

  datatype Client = Client(writeKeys: seq<Key>, readKeys: seq<Key>, plan: seq<Want>, phase: Phase)

  predicate AtRest(c: Client) {
    c.phase == Unlocking(0)
  }

  predicate Waiting(c: Client) {
    c.phase.Locking? && c.phase.n < |c.plan|
  }

  predicate Inside(c: Client) {
    c.phase.Locking? && c.phase.n == |c.plan|
  }

  ghost predicate ClientOk(c: Client, spread: Key -> nat) {
    IsPlan(c.plan, c.writeKeys, c.readKeys, spread) && c.phase.n <= |c.plan|
  }

  ghost predicate Holds(c: Client, w: Want) {
    c.phase.n <= |c.plan| && exists m :: 0 <= m < c.phase.n && c.plan[m] == w
  }

  predicate Compatible(v: Want, w: Want) {
    v.shard == w.shard ==> !v.write && !w.write
  }

  ghost predicate Apart(c: Client, d: Client) {
    forall v, w :: Holds(c, v) && Holds(d, w) ==> Compatible(v, w)
  }

  ghost predicate Inv(s: seq<Client>, spread: Key -> nat) {
    && (forall i {:trigger s[i]} :: 0 <= i < |s| ==> ClientOk(s[i], spread))
    && (forall i, j {:trigger s[i], s[j]} :: 0 <= i < |s| && 0 <= j < |s| && i != j ==> Apart(s[i], s[j]))
  }

  /** The start: all clients are at rest. */
  lemma RestMeets(s: seq<Client>, spread: Key -> nat)
    requires forall i {:trigger s[i]} :: 0 <= i < |s| ==> AtRest(s[i]) && IsPlan(s[i].plan, s[i].writeKeys, s[i].readKeys, spread)
    ensures Inv(s, spread)
  {
  }

  datatype Action = Begin(writeKeys: seq<Key>, readKeys: seq<Key>, plan: seq<Want>) | Acquire | Finish | Release

  /** No other client holds the mutex in a conflicting mode. */
  ghost predicate Free(s: seq<Client>, i: nat, w: Want) {
    forall j, v :: 0 <= j < |s| && j != i && Holds(s[j], v) ==> Compatible(v, w)
  }

  ghost predicate Enabled(s: seq<Client>, i: nat, a: Action, spread: Key -> nat)
    requires i < |s|
  {
    match a
    case Begin(w, r, plan) => AtRest(s[i]) && IsPlan(plan, w, r, spread)
    case Acquire => Waiting(s[i]) && Free(s, i, s[i].plan[s[i].phase.n])
    case Finish => Inside(s[i])
    case Release => s[i].phase.Unlocking? && s[i].phase.n > 0
  }

  function After(c: Client, a: Action): Client
    requires a.Release? ==> c.phase.n > 0
  {
    match a
    case Begin(w, r, plan) => Client(w, r, plan, Locking(0))
    case Acquire => c.(phase := Locking(c.phase.n + 1))
    case Finish => c.(phase := Unlocking(c.phase.n))
    case Release => c.(phase := Unlocking(c.phase.n - 1))
  }

  ghost predicate Next(s: seq<Client>, t: seq<Client>, spread: Key -> nat) {
    exists i: nat, a: Action {:trigger Moves(s, t, i, a, spread)} :: Moves(s, t, i, a, spread)
  }

  ghost predicate Moves(s: seq<Client>, t: seq<Client>, i: nat, a: Action, spread: Key -> nat) {
    i < |s| && Enabled(s, i, a, spread) && t == s[i := After(s[i], a)]
  }

  lemma StillApart(s: seq<Client>, i: nat, a: Action, j: nat, spread: Key -> nat)
    requires Inv(s, spread) && i < |s| && Enabled(s, i, a, spread) && j < |s| && j != i
    ensures Apart(After(s[i], a), s[j]) && Apart(s[j], After(s[i], a))
  {
    var c, d := After(s[i], a), s[j];
    assert Apart(s[i], s[j]);
    forall v, w | Holds(c, v) && Holds(d, w) ensures Compatible(v, w) {
      var m :| 0 <= m < c.phase.n && c.plan[m] == v;
      if a.Acquire? && m == s[i].phase.n {
        assert Compatible(w, v);
      } else {
        assert s[i].plan[m] == v;
        assert Holds(s[i], v);
      }
    }
  }

  lemma MovesKeeps(s: seq<Client>, t: seq<Client>, i: nat, a: Action, spread: Key -> nat)
    requires Inv(s, spread) && Moves(s, t, i, a, spread)
    ensures Inv(t, spread)
  {
    forall j, k | 0 <= j < |t| && 0 <= k < |t| && j != k ensures Apart(t[j], t[k]) {
      if j == i {
        StillApart(s, i, a, k, spread);
      } else if k == i {
        StillApart(s, i, a, j, spread);
      } else {
        assert Apart(s[j], s[k]);
      }
    }
  }

  /** Every state of every run keeps the invariant. */
  lemma {:induction false} RunKeeps(run: seq<seq<Client>>, spread: Key -> nat, m: nat)
    requires m < |run| && Inv(run[0], spread) && forall i {:trigger run[i]} :: 0 < i < |run| ==> Next(run[i - 1], run[i], spread)
    ensures Inv(run[m], spread)
    decreases m
  {
    if m > 0 {
      RunKeeps(run, spread, m - 1);
      assert Next(run[m - 1], run[m], spread);
      var i: nat, a: Action :| Moves(run[m - 1], run[m], i, a, spread);
      MovesKeeps(run[m - 1], run[m], i, a, spread);
    }
  }

  lemma HoldsAll(c: Client, k: Key, spread: Key -> nat)
    requires ClientOk(c, spread) && Inside(c) && (k in c.writeKeys || k in c.readKeys)
    ensures exists w :: Holds(c, w) && w.shard == spread(k) && (k in c.writeKeys ==> w.write)
  {
    assert k in c.writeKeys + c.readKeys;
    assert spread(k) in Shards(c.writeKeys + c.readKeys, spread);
    var i :| 0 <= i < |c.plan| && c.plan[i].shard == spread(k);
    assert Holds(c, c.plan[i]);
  }

  /** Two clients are never at work together with one writing a key the other uses. */
  lemma Exclusion(s: seq<Client>, i: nat, j: nat, k: Key, spread: Key -> nat)
    requires Inv(s, spread) && i < |s| && j < |s| && i != j && Inside(s[i]) && Inside(s[j])
    requires k in s[i].writeKeys
    ensures k !in s[j].writeKeys && k !in s[j].readKeys
  {
    if k in s[j].writeKeys || k in s[j].readKeys {
      HoldsAll(s[i], k, spread);
      HoldsAll(s[j], k, spread);
      assert false;
    }
  }

  /* ---- No deadlock ---- */

  function Wanted(c: Client): Want
    requires Waiting(c)
  {
    c.plan[c.phase.n]
  }

  /** Enabled even if a writer that waits keeps new readers out. */
  ghost predicate Unblocked(s: seq<Client>, i: nat, a: Action, spread: Key -> nat)
    requires i < |s|
  {
    && Enabled(s, i, a, spread)
    && (a.Acquire? && !Wanted(s[i]).write ==>
          forall j {:trigger s[j]} :: 0 <= j < |s| && Waiting(s[j]) && Wanted(s[j]).shard == Wanted(s[i]).shard ==> !Wanted(s[j]).write)
  }

  lemma {:induction false} FarthestWaiting(s: seq<Client>, n: nat) returns (i: nat)
    requires n <= |s| && exists j :: 0 <= j < n && Waiting(s[j])
    ensures i < n && Waiting(s[i]) && forall j {:trigger s[j]} :: 0 <= j < n && Waiting(s[j]) ==> Wanted(s[j]).shard <= Wanted(s[i]).shard
    decreases n
  {
    if exists j :: 0 <= j < n - 1 && Waiting(s[j]) {
      i := FarthestWaiting(s, n - 1);
      if Waiting(s[n - 1]) && Wanted(s[n - 1]).shard > Wanted(s[i]).shard {
        i := n - 1;
      }
    } else {
      i := n - 1;
    }
  }

  /** Who waits for the highest shard anyone waits for finds it free. */
  lemma FarthestIsFree(s: seq<Client>, i: nat, spread: Key -> nat)
    requires Inv(s, spread) && i < |s| && Waiting(s[i])
    requires forall j {:trigger s[j]} :: 0 <= j < |s| ==> AtRest(s[j]) || Waiting(s[j])
    requires forall j {:trigger s[j]} :: 0 <= j < |s| && Waiting(s[j]) ==> Wanted(s[j]).shard <= Wanted(s[i]).shard
    ensures Free(s, i, Wanted(s[i]))
  {
    forall j, v | 0 <= j < |s| && j != i && Holds(s[j], v) ensures Compatible(v, Wanted(s[i])) {
      var m :| 0 <= m < s[j].phase.n && s[j].plan[m] == v;
      assert ClientOk(s[j], spread);
      assert v.shard < Wanted(s[j]).shard;
    }
  }

  /** In every reachable state in which some client is not at rest, some client that is not at rest can go on. */
  lemma NoDeadlock(s: seq<Client>, spread: Key -> nat)
    requires Inv(s, spread) && exists i :: 0 <= i < |s| && !AtRest(s[i])
    ensures exists i: nat, a: Action :: i < |s| && !AtRest(s[i]) && Unblocked(s, i, a, spread)
  {
    if i :| 0 <= i < |s| && !AtRest(s[i]) && !Waiting(s[i]) {
      assert Unblocked(s, i, if s[i].phase.Locking? then Finish else Release, spread);
    } else {
      var i := FarthestWaiting(s, |s|);
      FarthestIsFree(s, i, spread);
      if Wanted(s[i]).write {
        assert Unblocked(s, i, Acquire, spread);
      } else if j :| 0 <= j < |s| && Waiting(s[j]) && Wanted(s[j]).shard == Wanted(s[i]).shard && Wanted(s[j]).write {
        FarthestIsFree(s, j, spread);
        assert Unblocked(s, j, Acquire, spread);
      } else {
        assert Unblocked(s, i, Acquire, spread);
      }
    }
  }

  /** The steps a client still has before it is at rest. */
  function Remaining(c: Client): int {
    if c.phase.Locking? then 2 * |c.plan| + 1 - c.phase.n else c.phase.n
  }

  function TotalRemaining(s: seq<Client>): int {
    if s == [] then 0 else Remaining(s[0]) + TotalRemaining(s[1..])
  }

  lemma {:induction false} TotalUpdate(s: seq<Client>, i: nat, c: Client)
    requires i < |s|
    ensures TotalRemaining(s[i := c]) == TotalRemaining(s) - Remaining(s[i]) + Remaining(c)
    decreases s
  {
    if i == 0 {
      assert s[i := c][1..] == s[1..];
    } else {
      assert s[i := c][1..] == s[1..][i - 1 := c];
      TotalUpdate(s[1..], i - 1, c);
    }
  }

  lemma {:induction false} TotalNonNegative(s: seq<Client>, spread: Key -> nat)
    requires forall i {:trigger s[i]} :: 0 <= i < |s| ==> ClientOk(s[i], spread)
    ensures TotalRemaining(s) >= 0
    decreases s
  {
    if s != [] {
      TotalNonNegative(s[1..], spread);
      assert ClientOk(s[0], spread);
    }
  }

  /** Each step but a new beginning brings the clients one step nearer to rest, so with no deadlock they all get there. */
  lemma Progress(s: seq<Client>, t: seq<Client>, i: nat, a: Action, spread: Key -> nat)
    requires Inv(s, spread) && Moves(s, t, i, a, spread) && !a.Begin?
    ensures 0 <= TotalRemaining(t) == TotalRemaining(s) - 1
  {
    TotalUpdate(s, i, After(s[i], a));
    MovesKeeps(s, t, i, a, spread);
    TotalNonNegative(t, spread);
  }
}
