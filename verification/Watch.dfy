/** database/transaction.go: what WATCH guarantees by comparing versions. */
module Watching {
  import Arithmetic
  import opened Sequences
  import opened Numerals
  import opened Databases
  import opened Undoing
  import opened Rollbacks
  import opened Transactions

  function Count(keys: seq<Key>, k: Key): nat {
    if keys == [] then 0 else (if keys[0] == k then 1 else 0) + Count(keys[1..], k)
  }

  /** Each announced write counts, modulo 2^32. */
  lemma {:induction false} BumpedAt(versions: map<Key, Version>, keys: seq<Key>, k: Key)
    ensures VersionOf(Bumped(versions, keys), k) == (VersionOf(versions, k) + Count(keys, k)) % VERSIONS
    ensures Count(keys, k) <= |keys| && (Count(keys, k) == 0 <==> k !in keys)
    decreases keys
  {
    if keys != [] {
      BumpedAt(versions[keys[0] := (VersionOf(versions, keys[0]) + 1) % VERSIONS], keys[1..], k);
      Wraps(VersionOf(versions, k) + 1, Count(keys[1..], k), VERSIONS);
    }
  }

  lemma Wraps(v: nat, n: nat, m: nat)
    requires m > 0
    ensures (v % m + n) % m == (v + n) % m
  {
    Arithmetic.ModIs(v + n, m, v / m + (v % m + n) / m, (v % m + n) % m);
  }

  lemma StepElsewhereKeys(s: State, c: Cmd, at: int)
    requires OnKeys(c)
    ensures Elsewhere(Step(s, c, at).state, s, Changes(c))
  {
    if c.Del? {
      RemovesTouches(s, c.keys);
    }
  }

  lemma StepElsewhereEnds(s: State, c: Cmd, at: int)
    requires c.LPush? || c.RPush? || c.LPop? || c.RPop?
    ensures Elsewhere(Step(s, c, at).state, s, Changes(c))
  {
  }

  lemma StepElsewhereLists(s: State, c: Cmd, at: int)
    requires OnLists(c)
    ensures Elsewhere(Step(s, c, at).state, s, Changes(c))
  {
    if c.LPush? || c.RPush? || c.LPop? || c.RPop? {
      StepElsewhereEnds(s, c, at);
    } else if c.RPopLPush? {
      StepElsewhereMove(s, c, at);
    }
  }

  lemma StepElsewhereMove(s: State, c: Cmd, at: int)
    requires c.RPopLPush?
    ensures Elsewhere(Step(s, c, at).state, s, Changes(c))
  {
  }

  lemma StepElsewhereCollections(s: State, c: Cmd, at: int)
    requires !OnKeys(c) && !OnLists(c)
    ensures Elsewhere(Step(s, c, at).state, s, Changes(c))
  {
  }

  /** A command changes no other keys than these. */
  lemma StepElsewhere(s: State, c: Cmd, at: int)
    ensures Elsewhere(Step(s, c, at).state, s, Changes(c))
  {
    if OnKeys(c) {
      StepElsewhereKeys(s, c, at);
    } else if OnLists(c) {
      StepElsewhereLists(s, c, at);
    } else {
      StepElsewhereCollections(s, c, at);
    }
  }

  /** What happens between WATCH and EXEC: others execute a command; or a reading command looks a key up, which does to a key that is there what the timer of its expiry does. */
  datatype Event = Exec(cmd: Cmd, at: int) | Glance(key: Key, at: int)

  function After(s: State, e: Event): State {
    match e
    case Exec(c, at) => Step(s, c, at).state
    case Glance(key, at) => Swept(s, key, at)
  }

  function AfterRun(s: State, run: seq<Event>): State
    decreases run
  {
    if run == [] then s else AfterRun(After(s, run[0]), run[1..])
  }

  /** A command announces the keys it writes; a lookup announces nothing. */
  function Announced(run: seq<Event>): seq<Key> {
    if run == [] then [] else (if run[0].Exec? then Writes(run[0].cmd) else []) + Announced(run[1..])
  }

  /** RENAME announces only its destination; the removal of an expired key is not announced. */
  predicate TakesUnseen(s: State, e: Event, key: Key) {
    match e
    case Exec(c, _) => c.Rename? && c.src == key && c.dest != key
    case Glance(k, at) => k == key && Expired(s, key, at)
  }

  predicate TakenUnseen(s: State, run: seq<Event>, key: Key) {
    exists e :: e in run && TakesUnseen(s, e, key)
  }

  /** One event that does not announce the key: it is taken away, or is as it was. */
  lemma UnseenStep(s: State, e: Event, key: Key)
    requires e.Exec? ==> key !in Writes(e.cmd)
    ensures if key in s.data && TakesUnseen(s, e, key) then key !in After(s, e).data else Same(After(s, e), s, key)
  {
    if e.Exec? {
      StepElsewhere(s, e.cmd, e.at);
      assert key !in Changes(e.cmd) || TakesUnseen(s, e, key);
    }
  }

  lemma TakenFirst(s: State, t: State, run: seq<Event>, key: Key)
    requires run != [] && Same(t, s, key)
    ensures TakenUnseen(s, run, key) <==> TakesUnseen(s, run[0], key) || TakenUnseen(t, run[1..], key)
  {
    assert forall e :: TakesUnseen(s, e, key) <==> TakesUnseen(t, e, key);
    if TakenUnseen(s, run, key) {
      var e :| e in run && TakesUnseen(s, e, key);
      assert e == run[0] || e in run[1..];
    }
  }

  /** A key that is not there and not announced stays as it is. */
  lemma {:induction false} AbsentUnchanged(s: State, run: seq<Event>, key: Key)
    requires key !in Announced(run) && key !in s.data
    ensures Same(AfterRun(s, run), s, key)
    decreases run
  {
    if run != [] {
      UnseenStep(s, run[0], key);
      AbsentUnchanged(After(s, run[0]), run[1..], key);
    }
  }

  /** A key that is not announced is as it was, unless it was there and has been taken away unseen; then it is gone. */
  lemma {:induction false} UnannouncedUnchanged(s: State, run: seq<Event>, key: Key)
    requires key !in Announced(run)
    ensures if key in s.data && TakenUnseen(s, run, key) then key !in AfterRun(s, run).data else Same(AfterRun(s, run), s, key)
    decreases run
  {
    if key !in s.data {
      AbsentUnchanged(s, run, key);
    } else if run != [] {
      var t := After(s, run[0]);
      UnseenStep(s, run[0], key);
      if TakesUnseen(s, run[0], key) {
        AbsentUnchanged(t, run[1..], key);
      } else {
        TakenFirst(s, t, run, key);
        UnannouncedUnchanged(t, run[1..], key);
      }
    }
  }

  lemma VersionMoves(v: nat, n: nat, m: nat)
    requires v < m && n < m
    ensures (v + n) % m == v <==> n == 0
  {
    if v + n < m {
      Arithmetic.ModIs(v + n, m, 0, v + n);
    } else {
      Arithmetic.ModIs(v + n, m, 1, v + n - m);
    }
  }

  /** Fewer than 2^32 announcements leave the version as it was if and only if none is of the key. */
  lemma VersionTells(versions: map<Key, Version>, keys: seq<Key>, key: Key)
    requires |keys| < VERSIONS
    ensures VersionOf(Bumped(versions, keys), key) == VersionOf(versions, key) <==> key !in keys
  {
    BumpedAt(versions, keys, key);
    VersionMoves(VersionOf(versions, key), Count(keys, key), VERSIONS);
  }

  lemma {:induction false} NotBumped(versions: map<Key, Version>, keys: seq<Key>, key: Key)
    requires key !in keys
    ensures VersionOf(Bumped(versions, keys), key) == VersionOf(versions, key)
    decreases keys
  {
    if keys != [] {
      NotBumped(versions[keys[0] := (VersionOf(versions, keys[0]) + 1) % VERSIONS], keys[1..], key);
    }
  }

  /** If EXEC finds the version it saw at WATCH, the key and its expiry are as they were if and only if the key was not there, or was neither renamed away nor looked up after its expiry. */
  lemma WatchDetects(s: State, versions: map<Key, Version>, run: seq<Event>, key: Key)
    requires |Announced(run)| < VERSIONS
    requires VersionOf(Bumped(versions, Announced(run)), key) == VersionOf(versions, key)
    ensures Same(AfterRun(s, run), s, key) <==> key !in s.data || !TakenUnseen(s, run, key)
  {
    VersionTells(versions, Announced(run), key);
    UnannouncedUnchanged(s, run, key);
  }

  /** Over every run: a key that is taken away unseen and not announced is gone, and its version is as it was. */
  lemma GoesUnseen(s: State, versions: map<Key, Version>, run: seq<Event>, key: Key)
    requires key !in Announced(run) && key in s.data && TakenUnseen(s, run, key)
    ensures VersionOf(Bumped(versions, Announced(run)), key) == VersionOf(versions, key) && key !in AfterRun(s, run).data
  {
    NotBumped(versions, Announced(run), key);
    UnannouncedUnchanged(s, run, key);
  }

  /** Such runs: one RENAME of the watched key; one lookup after its expiry. */
  lemma WatchMisses(val: Bytes, versions: map<Key, Version>)
    ensures var s := State(map[KEY := Str(val)], map[KEY := 10]);
            forall e :: e == Exec(Rename(KEY, MISSING), 0) || e == Glance(KEY, 11) ==>
              VersionOf(Bumped(versions, Announced([e])), KEY) == VersionOf(versions, KEY) && KEY !in AfterRun(s, [e]).data
  {
    var s := State(map[KEY := Str(val)], map[KEY := 10]);
    forall e | e == Exec(Rename(KEY, MISSING), 0) || e == Glance(KEY, 11)
      ensures VersionOf(Bumped(versions, Announced([e])), KEY) == VersionOf(versions, KEY) && KEY !in AfterRun(s, [e]).data
    {
      assert e in [e];
      assert Announced([e]) == (if e.Exec? then [MISSING] else []) + Announced([e][1..]);
      GoesUnseen(s, versions, [e], KEY);
    }
  }

  /* ---- WATCH, what others do, and EXEC ---- */

  lemma {:induction false} BumpedAppend(versions: map<Key, Version>, a: seq<Key>, b: seq<Key>)
    ensures Bumped(versions, a + b) == Bumped(Bumped(versions, a), b)
    decreases a
  {
    if a == [] {
      assert a + b == b;
    } else {
      assert (a + b)[1..] == a[1..] + b;
      BumpedAppend(versions[a[0] := (VersionOf(versions, a[0]) + 1) % VERSIONS], a[1..], b);
    }
  }

  /** One of them: a command is announced before it is executed. */
  method Happen(db: DB, e: Event)
    modifies db
    ensures db.S() == After(old(db.S()), e)
    ensures db.versionMap == Bumped(old(db.versionMap), if e.Exec? then Writes(e.cmd) else [])
  {
    match e {
      case Exec(c, at) =>
        db.AddVersion(Writes(c));
        var _ := db.Exec(c, at);
      case Glance(key, at) =>
        var _ := db.GetEntity(key, at);
    }
  }

  method HappenAll(db: DB, run: seq<Event>)
    modifies db
    ensures db.S() == AfterRun(old(db.S()), run) && db.versionMap == Bumped(old(db.versionMap), Announced(run))
  {
    var i := 0;
    while i < |run|
      invariant 0 <= i <= |run| && AfterRun(db.S(), run[i..]) == AfterRun(old(db.S()), run)
      invariant Bumped(db.versionMap, Announced(run[i..])) == Bumped(old(db.versionMap), Announced(run))
    {
      assert run[i..][1..] == run[i + 1..];
      BumpedAppend(db.versionMap, if run[i].Exec? then Writes(run[i].cmd) else [], Announced(run[i + 1..]));
      Happen(db, run[i]);
      i := i + 1;
    }
  }

  /** EXEC refuses, and changes nothing, if and only if a watched key was announced in between; otherwise it executes the queue. */
  method WatchThenExec(db: DB, keys: seq<Key>, run: seq<Event>, queue: seq<Entry>, enc: Encoder, now: int) returns (r: ExecReply)
    requires |Announced(run)| < VERSIONS
    modifies db
    ensures r == Unchanged <==> exists k :: k in keys && k in Announced(run)
    ensures r == Unchanged ==> db.S() == AfterRun(old(db.S()), run) && db.versionMap == Bumped(old(db.versionMap), Announced(run))
    ensures r != Unchanged ==>
              var v := ExecQueue(AfterRun(old(db.S()), run), queue, enc, now);
              && db.S() == v.state && r == ExecReplyOf(v)
              && db.versionMap == Bumped(old(db.versionMap), Announced(run) + if v.Committed? then AllWrites(queue) else [])
  {
    var watching := db.Watch(map[], keys);
    HappenAll(db, run);
    forall k | k in keys ensures watching[k] != VersionOf(db.versionMap, k) <==> k in Announced(run) {
      VersionTells(old(db.versionMap), Announced(run), k);
    }
    BumpedAppend(old(db.versionMap), Announced(run), AllWrites(queue));
    assert Announced(run) + [] == Announced(run);
    r := db.ExecMulti(watching, queue, enc, now);
  }

  /** Versions count from 0. */
  lemma FirstVersions(versions: map<Key, Version>, keys: seq<Key>, k: Key)
    requires k !in versions && |keys| < VERSIONS
    ensures VersionOf(versions, k) == 0 && VersionOf(Bumped(versions, keys), k) == Count(keys, k)
  {
    BumpedAt(versions, keys, k);
    Arithmetic.ModIs(Count(keys, k), VERSIONS, 0, Count(keys, k));
  }

  /** EXEC announces what its commands announce one by one. */
  lemma {:induction false} AnnouncesLike(queue: seq<Entry>, run: seq<Event>)
    requires |run| == |queue| && forall i {:trigger run[i]} :: 0 <= i < |run| ==> run[i] == Exec(queue[i].cmd, queue[i].at)
    ensures AllWrites(queue) == Announced(run)
    decreases queue
  {
    if queue != [] {
      assert run[0] == Exec(queue[0].cmd, queue[0].at);
      forall i {:trigger run[1..][i]} | 0 <= i < |run[1..]| ensures run[1..][i] == Exec(queue[1..][i].cmd, queue[1..][i].at) {
        assert run[1..][i] == run[i + 1];
      }
      AnnouncesLike(queue[1..], run[1..]);
    }
  }

  /** A command announces each key it may change, once as often as it is given, and no other; RENAME does not announce its source. */
  lemma AnnouncesChanged(c: Cmd, k: Key)
    ensures !c.Rename? ==> (k in Writes(c) <==> k in Changes(c))
    ensures c.Rename? ==> (k in Writes(c) <==> k == c.dest)
    ensures c.Del? ==> Count(Writes(c), k) == Count(c.keys, k)
    ensures !c.Del? && !c.RPopLPush? ==> Count(Writes(c), k) == if k in Writes(c) then 1 else 0
    ensures c.RPopLPush? ==> Count(Writes(c), k) == (if c.src == k then 1 else 0) + (if c.dest == k then 1 else 0)
  {
    if c.RPopLPush? {
      assert Writes(c)[1..] == [c.dest] && [c.dest][1..] == [];
      assert Count([c.dest], k) == (if c.dest == k then 1 else 0) + Count([], k);
    } else if !c.Del? {
      assert |Writes(c)| == 1 && Writes(c)[1..] == [];
    }
  }
}
