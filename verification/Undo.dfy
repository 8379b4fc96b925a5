/** database/: the undo logs of the commands, and what running them restores. */
module Undoing {
  import opened Sequences
  import opened Numerals
  import opened Databases
  import opened Marshalling

  /** EntityToCmd, with the iteration order it happens to meet. */
  type Encoder = (Key, Entity) -> Cmd

  ghost predicate ValidEncoder(enc: Encoder) {
    forall k, e {:trigger enc(k, e)} :: Encodes(k, e, enc(k, e))
  }

  /* ---- The undo functions ---- */

  function TtlCmd(s: State, key: Key): Cmd {
    if key in s.ttl then PExpireAt(key, FormatInt(s.ttl[key])) else Persist(key)
  }

  function RollbackKey(s: State, key: Key, enc: Encoder): (log: seq<Cmd>) {
    if key !in s.data then [Del([key])]
    else [Del([key]), enc(key, s.data[key]), TtlCmd(s, key)]
  }

  function RollbackKeys(s: State, keys: seq<Key>, enc: Encoder): (log: seq<Cmd>) {
    if keys == [] then [] else RollbackKey(s, keys[0], enc) + RollbackKeys(s, keys[1..], enc)
  }

  function RollbackFields(h: map<Bytes, Bytes>, key: Key, names: seq<Bytes>): (log: seq<Cmd>) {
    if names == [] then []
    else [if names[0] in h then HSet(key, names[0], h[names[0]]) else HDel(key, [names[0]])] + RollbackFields(h, key, names[1..])
  }

  function RollbackMembers(m: set<Bytes>, key: Key, names: seq<Bytes>): (log: seq<Cmd>) {
    if names == [] then []
    else [if names[0] in m then SAdd(key, [names[0]]) else SRem(key, [names[0]])] + RollbackMembers(m, key, names[1..])
  }

  function RollbackScores(z: map<Bytes, real>, key: Key, names: seq<Bytes>): (log: seq<Cmd>) {
    if names == [] then []
    else [if names[0] in z then ZAdd(key, [(Some(z[names[0]]), names[0])], false) else ZRem(key, [names[0]])] + RollbackScores(z, key, names[1..])
  }

  function UndoHash(s: State, key: Key, names: seq<Bytes>): (log: seq<Cmd>) {
    if key !in s.data then [Del([key])]
    else if s.data[key].Hash? then RollbackFields(s.data[key].fields, key, names) else []
  }

  function UndoSet(s: State, key: Key, names: seq<Bytes>): (log: seq<Cmd>) {
    if key !in s.data then [Del([key])]
    else if s.data[key].Set? then RollbackMembers(s.data[key].members, key, names) else []
  }

  function UndoZSet(s: State, key: Key, names: seq<Bytes>): (log: seq<Cmd>) {
    if key !in s.data then [Del([key])]
    else if s.data[key].ZSet? then RollbackScores(s.data[key].scores, key, names) else []
  }

  function Repeat(c: Cmd, n: nat): (log: seq<Cmd>) {
    if n == 0 then [] else [c] + Repeat(c, n - 1)
  }

  function UndoPop(s: State, key: Key, count: Option<Bytes>, front: bool): (log: seq<Cmd>) {
    if key !in s.data || !s.data[key].List? || s.data[key].vals == [] then []
    else
      var l := s.data[key].vals;
      match PopCount(count, |l|)
      case None => []
      case Some(n) =>
        if n < 0 || n > |l| then []
        else if front then [LPush(key, Reversed(l[..n]))] else [RPush(key, l[|l| - n..])]
  }

  function UndoMove(s: State, src: Key, dest: Key): (log: seq<Cmd>) {
    if src !in s.data || !s.data[src].List? || s.data[src].vals == [] then []
    else [RPush(src, [s.data[src].vals[|s.data[src].vals| - 1]]), LPop(dest, None)]
  }

  /** EntityToCmd walks a sorted set by rank, which panics if there is nothing in it. */
  predicate Unwritable(s: State, key: Key) {
    key in s.data && s.data[key] == ZSet(map[])
  }

  /** Taking the log panics; undoLPop and undoRPop allocate and slice by the count, and a count of 0 slices out of range in RPOP. */
  predicate UndoPanics(s: State, c: Cmd) {
    match c
    case SetCmd(key, _, _) => Unwritable(s, key)
    case Incr(key) => Unwritable(s, key)
    case Append(key, _) => Unwritable(s, key)
    case LRem(key, _, _) => Unwritable(s, key)
    case Del(keys) => exists key :: key in keys && Unwritable(s, key)
    case Rename(src, dest) => Unwritable(s, src) || Unwritable(s, dest)
    case LPop(key, count) => key in s.data && s.data[key].List? && s.data[key].vals != [] && TakesFewer(count, |s.data[key].vals|, 0)
    case RPop(key, count) => key in s.data && s.data[key].List? && s.data[key].vals != [] && TakesFewer(count, |s.data[key].vals|, 1)
    case _ => false
  }

  predicate TakesFewer(count: Option<Bytes>, size: nat, least: int) {
    match PopCount(count, size)
    case None => false
    case Some(n) => n < least
  }

  /** GetUndoLogs, for a command that does not panic. */
  function Undo(s: State, c: Cmd, enc: Encoder): (log: seq<Cmd>) {
    match c
    case SetCmd(key, _, _) => RollbackKey(s, key, enc)
    case Del(keys) => RollbackKeys(s, keys, enc)
    case Rename(src, dest) => RollbackKeys(s, [src, dest], enc)
    case Expire(key, _) => [TtlCmd(s, key)]
    case PExpire(key, _) => [TtlCmd(s, key)]
    case ExpireAt(key, _) => [TtlCmd(s, key)]
    case PExpireAt(key, _) => [TtlCmd(s, key)]
    case Persist(key) => [TtlCmd(s, key)]
    case Incr(key) => RollbackKey(s, key, enc)
    case Append(key, _) => RollbackKey(s, key, enc)
    case LPush(key, values) => Repeat(LPop(key, None), |values|)
    case RPush(key, values) => Repeat(RPop(key, None), |values|)
    case LPop(key, count) => UndoPop(s, key, count, true)
    case RPop(key, count) => UndoPop(s, key, count, false)
    case RPopLPush(src, dest) => UndoMove(s, src, dest)
    case LSet(key, index, _) =>
      if key !in s.data || !s.data[key].List? then []
      else (match Place(index, |s.data[key].vals|)
            case None => []
            case Some(i) => [LSet(key, index, s.data[key].vals[i])])
    case LRem(key, _, _) => RollbackKey(s, key, enc)
    case HSet(key, field, _) => UndoHash(s, key, [field])
    case HMSet(key, pairs, _) => UndoHash(s, key, Names(pairs))
    case HDel(key, names) => UndoHash(s, key, names)
    case SAdd(key, names) => UndoSet(s, key, names)
    case SRem(key, names) => UndoSet(s, key, names)
    case ZAdd(key, scored, _) => UndoZSet(s, key, ScoredNames(scored))
    case ZIncrBy(key, _, member) => UndoZSet(s, key, [member])
    case ZRem(key, names) => UndoZSet(s, key, names)
  }

  function Names(pairs: seq<(Bytes, Bytes)>): (r: seq<Bytes>) {
    if pairs == [] then [] else [pairs[0].0] + Names(pairs[1..])
  }

  function ScoredNames(scored: seq<(Option<real>, Bytes)>): (r: seq<Bytes>) {
    if scored == [] then [] else [scored[0].1] + ScoredNames(scored[1..])
  }

  /** When taking a log panics: a key that is to be written down as a whole holds a sorted set without members; or a count below 0, for RPOP below 1, is to be popped off a list. */
  lemma PanicsMean(s: State, key: Key, arg: Bytes, value: Bytes, options: seq<Word>)
    ensures var empty := key in s.data && s.data[key].ZSet? && s.data[key].scores.Keys == {};
            && (UndoPanics(s, SetCmd(key, value, options)) <==> empty) && (UndoPanics(s, Incr(key)) <==> empty)
            && (UndoPanics(s, Append(key, value)) <==> empty) && (UndoPanics(s, LRem(key, arg, value)) <==> empty)
            && (UndoPanics(s, Del([key])) <==> empty) && (UndoPanics(s, Rename(key, key)) <==> empty)
    ensures !UndoPanics(s, LPop(key, None)) && !UndoPanics(s, RPop(key, None))
    ensures var filled := key in s.data && s.data[key].List? && s.data[key].vals != [] && ParseInt(arg).Some?;
            && (UndoPanics(s, LPop(key, Some(arg))) <==> filled && ParseInt(arg).value < 0)
            && (UndoPanics(s, RPop(key, Some(arg))) <==> filled && ParseInt(arg).value < 1)
  {
    assert key in s.data && s.data[key].ZSet? && s.data[key].scores.Keys == {} ==> s.data[key].scores == map[];
  }

  lemma PanicsOfSeveral(s: State, keys: seq<Key>, src: Key, dest: Key, value: Bytes, c: Cmd)
    ensures UndoPanics(s, Del(keys)) <==> exists key :: key in keys && UndoPanics(s, Append(key, value))
    ensures UndoPanics(s, Rename(src, dest)) <==> UndoPanics(s, Append(src, value)) || UndoPanics(s, Append(dest, value))
    ensures !c.SetCmd? && !c.Incr? && !c.Append? && !c.LRem? && !c.Del? && !c.Rename? && !c.LPop? && !c.RPop? ==> !UndoPanics(s, c)
  {
  }

  /* ---- Running a log ---- */

  /** The reply of a command in a log is not looked at. */
  function Run(s: State, c: Cmd, now: int): State {
    Step(s, c, now).state
  }

  function RunAll(s: State, log: seq<Cmd>, now: int): State
    decreases log
  {
    if log == [] then s else RunAll(Run(s, log[0], now), log[1..], now)
  }

  lemma {:induction false} RunAppend(s: State, a: seq<Cmd>, b: seq<Cmd>, now: int)
    ensures RunAll(s, a + b, now) == RunAll(RunAll(s, a, now), b, now)
    decreases a
  {
    if a == [] {
      assert a + b == b;
    } else {
      assert (a + b)[1..] == a[1..] + b;
      RunAppend(Run(s, a[0], now), a[1..], b, now);
    }
  }

  lemma RunOne(s: State, c: Cmd, now: int)
    ensures RunAll(s, [c], now) == Run(s, c, now)
  {
  }

  lemma RunCons(s: State, c: Cmd, rest: seq<Cmd>, now: int)
    ensures RunAll(s, [c] + rest, now) == RunAll(Run(s, c, now), rest, now)
  {
    assert ([c] + rest)[1..] == rest;
  }

  /* ---- Single commands of the logs ---- */

  lemma RunDel(t: State, k: Key, now: int)
    ensures Run(t, Del([k]), now) == if k in t.data then Remove(t, k) else t
  {
    assert [k][1..] == [];
    assert Removes(t, [k]) == if k in t.data then Remove(t, k) else t;
  }

  lemma RunPExpireAt(t: State, k: Key, at: int, now: int)
    requires Live(t, now) && IsInt64(at)
    ensures Run(t, PExpireAt(k, FormatInt(at)), now) == if k in t.data then SetTtl(t, k, at) else t
  {
    ParseFormat(at);
  }

  lemma RunPersist(t: State, k: Key, now: int)
    requires Live(t, now)
    ensures Run(t, Persist(k), now) == if k in t.data then ClearTtl(t, k) else t
  {
  }

  /** The expiry that toTTLCmd restores. */
  function WithTtl(t: State, s: State, k: Key): State {
    if k !in t.data then t else if k in s.ttl then SetTtl(t, k, s.ttl[k]) else ClearTtl(t, k)
  }

  lemma RunTtl(s: State, k: Key, t: State, now: int)
    requires Live(s, now) && Live(t, now)
    ensures Run(t, TtlCmd(s, k), now) == WithTtl(t, s, k)
  {
    if k in s.ttl {
      RunPExpireAt(t, k, s.ttl[k], now);
    } else {
      RunPersist(t, k, now);
    }
  }

  /* ---- How far a state agrees with the one to go back to ---- */

  ghost predicate Same(r: State, t: State, x: Key) {
    && (x in r.data <==> x in t.data) && (x in r.data ==> r.data[x] == t.data[x])
    && (x in r.ttl <==> x in t.ttl) && (x in r.ttl ==> r.ttl[x] == t.ttl[x])
  }

  ghost predicate Elsewhere(r: State, t: State, keys: set<Key>) {
    forall x {:trigger Same(r, t, x)} :: x !in keys ==> Same(r, t, x)
  }

  ghost predicate KeyOk(r: State, s: State, x: Key) {
    (x in r.data <==> x in s.data) && (x in r.data ==> r.data[x] == s.data[x])
  }

  /** An expiry that is recorded is the one in `s`. */
  ghost predicate Within(r: State, s: State, x: Key) {
    x in r.ttl ==> x in s.ttl && r.ttl[x] == s.ttl[x]
  }

  ghost predicate AllWithin(r: State, s: State) {
    forall x {:trigger Within(r, s, x)} :: Within(r, s, x)
  }

  /** The key is there, and the expiry it has in `s` is not. */
  ghost predicate Missing(r: State, s: State, x: Key) {
    x in r.data && x in s.ttl && x !in r.ttl
  }

  ghost predicate MixAt(r: State, t: State, s: State, x: Key) {
    x in r.ttl ==> (x in t.ttl && r.ttl[x] == t.ttl[x]) || (x in s.ttl && r.ttl[x] == s.ttl[x])
  }

  /** Only sorted sets are ever left empty. */
  ghost predicate Plain(s: State) {
    forall k {:trigger s.data[k]} {:trigger k in s.data} :: k in s.data && IsEmpty(s.data[k]) ==> s.data[k] == ZSet(map[])
  }

  /** The command took `s` to `s2` and its log took `t` to `r`: both touched `keys` only, and `r` has there what `s` has. */
  ghost predicate Undone(s: State, s2: State, t: State, r: State, keys: set<Key>) {
    && Elsewhere(s2, s, keys) && Elsewhere(r, t, keys)
    && (forall x {:trigger KeyOk(r, s, x)} :: x in keys ==> KeyOk(r, s, x))
    && (forall x {:trigger MixAt(r, t, s, x)} :: x in keys ==> MixAt(r, t, s, x))
  }

  /** Of the expiries, the log leaves out the `dropped` ones; those missing before it ran stay so, unless it `resets` them. */
  ghost predicate Fares(s: State, s2: State, t: State, r: State, x: Key, dropped: set<Key>, resets: bool) {
    Within(t, s2, x) ==>
      Within(r, s, x) && (Missing(r, s, x) <==> x in dropped || (!resets && x in s.data && Missing(t, s2, x)))
  }

  /** Undone, and how the expiries of `keys` fare. */
  ghost predicate Reverts(s: State, s2: State, t: State, r: State, keys: set<Key>, dropped: set<Key>, resets: bool) {
    && Undone(s, s2, t, r, keys)
    && forall x {:trigger Fares(s, s2, t, r, x, dropped, resets)} :: x in keys ==> Fares(s, s2, t, r, x, dropped, resets)
  }

  function Only(b: bool, k: Key): set<Key> {
    if b then {k} else {}
  }

  lemma UndoneData(s: State, s2: State, t: State, r: State, keys: set<Key>, now: int)
    requires Undone(s, s2, t, r, keys) && t.data == s2.data && Live(s, now) && Live(t, now)
    ensures r.data == s.data && Live(r, now)
  {
    forall x ensures (x in r.data <==> x in s.data) && (x in r.data ==> r.data[x] == s.data[x]) {
      assert x in keys ==> KeyOk(r, s, x);
      assert x !in keys ==> Same(s2, s, x) && Same(r, t, x);
    }
    assert r.data == s.data;
    forall x | x in r.ttl ensures now <= r.ttl[x] && IsInt64(r.ttl[x]) {
      assert x !in keys ==> Same(r, t, x);
      assert x in keys ==> MixAt(r, t, s, x);
    }
  }

  lemma UndoneTtl(s: State, s2: State, t: State, r: State, keys: set<Key>, dropped: set<Key>, resets: bool, x: Key)
    requires Reverts(s, s2, t, r, keys, dropped, resets) && dropped <= keys && Within(t, s2, x) && t.data == s2.data
    ensures Within(r, s, x)
    ensures Missing(r, s, x) <==> x in dropped || (x in s.data && Missing(t, s2, x) && !(resets && x in keys))
  {
    if x in keys {
      assert Fares(s, s2, t, r, x, dropped, resets);
    } else {
      assert Same(s2, s, x) && Same(r, t, x);
    }
  }

  /* ---- Whole keys ---- */

  /** Where rollbackGivenKeys leaves one key. */
  function Restored(s: State, k: Key, t: State): State {
    if k in s.data then
      State(t.data[k := s.data[k]], if k in s.ttl then t.ttl[k := s.ttl[k]] else t.ttl - {k})
    else if k in t.data then Remove(t, k) else t
  }

  lemma RestoreKey(s: State, k: Key, enc: Encoder, t: State, now: int)
    requires ValidEncoder(enc) && Live(s, now) && Live(t, now) && (k in s.data ==> !IsEmpty(s.data[k]))
    ensures RunAll(t, RollbackKey(s, k, enc), now) == Restored(s, k, t)
  {
    RunDel(t, k, now);
    var t1 := if k in t.data then Remove(t, k) else t;
    if k !in s.data {
      RunOne(t, Del([k]), now);
    } else {
      var e := s.data[k];
      var t2 := Rebuilt(t1, k, e);
      Rebuilds(t1, k, e, enc(k, e), now);
      RunTtl(s, k, t2, now);
      RunThree(t, Del([k]), enc(k, e), TtlCmd(s, k), now);
      RestoredAfter(s, k, t, t1, t2);
    }
  }

  lemma RunThree(t: State, a: Cmd, b: Cmd, c: Cmd, now: int)
    ensures RunAll(t, [a, b, c], now) == Run(Run(Run(t, a, now), b, now), c, now)
  {
    assert [a, b, c] == [a] + ([b] + [c]);
    RunCons(t, a, [b] + [c], now);
    RunCons(Run(t, a, now), b, [c], now);
    RunOne(Run(Run(t, a, now), b, now), c, now);
  }

  lemma RestoredAfter(s: State, k: Key, t: State, t1: State, t2: State)
    requires k in s.data && t1 == (if k in t.data then Remove(t, k) else t) && t2 == Rebuilt(t1, k, s.data[k])
    ensures Restored(s, k, t) == WithTtl(t2, s, k)
  {
  }

  /** A key as rollbackGivenKeys leaves it in `r`, when it was run on `t`. */
  ghost predicate Back(r: State, s: State, t: State, x: Key) {
    && KeyOk(r, s, x)
    && (x in r.data ==> (x in r.ttl <==> x in s.ttl) && (x in r.ttl ==> r.ttl[x] == s.ttl[x]))
    && (x !in r.data && x in r.ttl ==> x !in t.data && x in t.ttl && r.ttl[x] == t.ttl[x])
  }

  ghost predicate Writable(s: State, keys: set<Key>) {
    forall k {:trigger k in keys} :: k in keys && k in s.data ==> !IsEmpty(s.data[k])
  }

  ghost predicate BackAll(r: State, s: State, t: State, keys: set<Key>) {
    forall x {:trigger Back(r, s, t, x)} :: x in keys ==> Back(r, s, t, x)
  }

  lemma RestoredBack(s: State, k: Key, t: State)
    ensures var r := Restored(s, k, t); Elsewhere(r, t, {k}) && Back(r, s, t, k)
  {
  }

  lemma LiveBack(r: State, s: State, t: State, keys: set<Key>, now: int)
    requires Elsewhere(r, t, keys) && BackAll(r, s, t, keys) && Live(s, now) && Live(t, now)
    ensures Live(r, now)
  {
    forall x | x in r.ttl ensures now <= r.ttl[x] && IsInt64(r.ttl[x]) {
      assert if x in keys then Back(r, s, t, x) else Same(r, t, x);
    }
  }

  lemma {:induction false} RestoreKeys(s: State, keys: seq<Key>, enc: Encoder, t: State, now: int)
    requires ValidEncoder(enc) && Live(s, now) && Live(t, now) && Writable(s, AsSet(keys))
    ensures var r := RunAll(t, RollbackKeys(s, keys, enc), now);
            Elsewhere(r, t, AsSet(keys)) && BackAll(r, s, t, AsSet(keys))
    decreases keys
  {
    if keys != [] {
      var k, rest := keys[0], keys[1..];
      assert AsSet(keys) == {k} + AsSet(rest);
      var t1 := Restored(s, k, t);
      RestoreKey(s, k, enc, t, now);
      RestoredBack(s, k, t);
      LiveBack(t1, s, t, {k}, now);
      RestoreKeys(s, rest, enc, t1, now);
      RunAppend(t, RollbackKey(s, k, enc), RollbackKeys(s, rest, enc), now);
      BackThenBack(RunAll(t1, RollbackKeys(s, rest, enc), now), s, t1, t, k, AsSet(rest));
    }
  }

  lemma BackThenBack(r: State, s: State, t1: State, t: State, k: Key, rest: set<Key>)
    requires Elsewhere(t1, t, {k}) && Back(t1, s, t, k)
    requires Elsewhere(r, t1, rest) && BackAll(r, s, t1, rest)
    ensures Elsewhere(r, t, {k} + rest) && BackAll(r, s, t, {k} + rest)
  {
    forall x ensures if x in {k} + rest then Back(r, s, t, x) else Same(r, t, x) {
      assert x in rest ==> Back(r, s, t1, x);
      assert x !in rest ==> Same(r, t1, x);
      assert x != k ==> Same(t1, t, x);
    }
  }

  /** The command changed `keys` only, and no expiry of a key that it neither found nor left. */
  ghost predicate Touches(s: State, s2: State, keys: set<Key>) {
    && Elsewhere(s2, s, keys)
    && forall x {:trigger x in s.data} :: x in keys && x !in s.data && x !in s2.data ==> Same(s2, s, x)
  }

  lemma UndoneKeys(s: State, s2: State, keys: seq<Key>, enc: Encoder, t: State, now: int)
    requires ValidEncoder(enc) && Live(s, now) && Live(t, now) && Writable(s, AsSet(keys)) && Touches(s, s2, AsSet(keys))
    requires t.data == s2.data
    ensures var r := RunAll(t, RollbackKeys(s, keys, enc), now);
            Reverts(s, s2, t, r, AsSet(keys), {}, true)
  {
    RestoreKeys(s, keys, enc, t, now);
    var r := RunAll(t, RollbackKeys(s, keys, enc), now);
    forall x | x in AsSet(keys)
      ensures KeyOk(r, s, x) && MixAt(r, t, s, x) && Fares(s, s2, t, r, x, {}, true)
    {
      assert Back(r, s, t, x);
    }
  }

  /** DEL, SET, INCR, APPEND, LREM and RENAME put back whole keys. */
  lemma RemovesTouches(s: State, keys: seq<Key>)
    ensures Touches(s, Removes(s, keys), AsSet(keys))
    decreases keys
  {
    if keys != [] {
      var s1 := if keys[0] in s.data then Remove(s, keys[0]) else s;
      RemovesTouches(s1, keys[1..]);
      var s2 := Removes(s1, keys[1..]);
      forall x ensures x !in AsSet(keys) ==> Same(s2, s, x)
        ensures x in AsSet(keys) && x !in s.data && x !in s2.data ==> Same(s2, s, x)
      {
        assert x !in s.data ==> Same(s1, s, x);
        assert x !in AsSet(keys[1..]) ==> Same(s2, s1, x);
        assert x in keys && x != keys[0] ==> x in keys[1..];
      }
    }
  }

  lemma SetTouches(s: State, key: Key, value: Bytes, options: seq<Word>, now: int)
    ensures var o := ExecSet(s, key, value, options, now); o.Ok? ==> Touches(s, o.state, {key})
  {
  }

  lemma IncrTouches(s: State, key: Key, now: int)
    requires Live(s, now)
    ensures var o := ExecIncr(s, key, now); o.Ok? ==> Touches(s, o.state, {key})
  {
  }

  lemma AppendTouches(s: State, key: Key, value: Bytes, now: int)
    requires Live(s, now)
    ensures var o := ExecAppend(s, key, value, now); o.Ok? ==> Touches(s, o.state, {key})
  {
  }

  lemma LRemTouches(s: State, key: Key, number: Bytes, value: Bytes, now: int)
    requires Live(s, now)
    ensures var o := ExecLRem(s, key, number, value, now); o.Ok? ==> Touches(s, o.state, {key})
  {
  }

  lemma RenameTouches(s: State, src: Key, dest: Key, now: int)
    requires Live(s, now)
    ensures var o := ExecRename(s, src, dest, now); o.Ok? ==> Touches(s, o.state, {src, dest})
  {
  }

  /* ---- Lists ---- */

  lemma {:induction false} PushFrontIs(l: seq<Bytes>, values: seq<Bytes>)
    ensures PushFront(l, values) == Reversed(values) + l
    decreases values
  {
    if values != [] {
      PushFrontIs([values[0]] + l, values[1..]);
      ReversedHead(values);
    }
  }

  /** What a list is after pops have taken `n` elements off one end. */
  function Popped(l: seq<Bytes>, n: nat, front: bool): seq<Bytes>
    requires n <= |l|
  {
    if front then l[n..] else l[..|l| - n]
  }

  function PopCmd(k: Key, front: bool): Cmd {
    if front then LPop(k, None) else RPop(k, None)
  }

  lemma RunPop(t: State, k: Key, l: seq<Bytes>, front: bool, now: int)
    requires Live(t, now) && k in t.data && t.data[k] == List(l) && l != []
    ensures Run(t, PopCmd(k, front), now) == PutOrRemove(t, k, List(Popped(l, 1, front)))
  {
    assert PopCmd(k, front) == LPop(k, None) || PopCmd(k, front) == RPop(k, None);
    assert ExecPop(t, k, None, front, now) == Ok(PutOrRemove(t, k, List(Popped(l, 1, front))));
  }

  lemma {:induction false} RunPops(t: State, k: Key, l: seq<Bytes>, n: nat, front: bool, now: int)
    requires Live(t, now) && k in t.data && t.data[k] == List(l) && 0 < n <= |l|
    ensures RunAll(t, Repeat(PopCmd(k, front), n), now) == PutOrRemove(t, k, List(Popped(l, n, front)))
    decreases n
  {
    var c := PopCmd(k, front);
    RunPop(t, k, l, front, now);
    if n == 1 {
      RunOne(t, c, now);
    } else {
      var t1 := PutOrRemove(t, k, List(Popped(l, 1, front)));
      RunCons(t, c, Repeat(c, n - 1), now);
      RunPops(t1, k, Popped(l, 1, front), n - 1, front, now);
      PoppedOnce(l, n, front);
      PutTwice(t, k, List(Popped(l, 1, front)), List(Popped(l, n, front)));
    }
  }

  lemma PutTwice(t: State, k: Key, e1: Entity, e2: Entity)
    ensures PutOrRemove(Put(t, k, e1), k, e2) == PutOrRemove(t, k, e2)
  {
    assert t.data[k := e1][k := e2] == t.data[k := e2];
    assert t.data[k := e1] - {k} == t.data - {k};
  }

  lemma PoppedOnce(l: seq<Bytes>, n: nat, front: bool)
    requires 0 < n <= |l|
    ensures Popped(Popped(l, 1, front), n - 1, front) == Popped(l, n, front)
  {
  }

  lemma PutElsewhere(s: State, k: Key, e: Entity)
    ensures Elsewhere(Put(s, k, e), s, {k}) && Elsewhere(Remove(s, k), s, {k})
  {
  }

  lemma OneKey(s: State, s2: State, t: State, r: State, k: Key)
    requires Elsewhere(s2, s, {k}) && Elsewhere(r, t, {k}) && KeyOk(r, s, k) && MixAt(r, t, s, k)
    ensures Undone(s, s2, t, r, {k})
  {
  }

  /** The command put an entity under a key, and the log put the old one back, or removed the key if there was none. */
  lemma PutBack(s: State, t: State, k: Key, e2: Entity, e: Entity)
    requires if k in s.data then s.data[k] == e && !IsEmpty(e) else IsEmpty(e)
    requires t.data == Put(s, k, e2).data
    ensures var s2, r := Put(s, k, e2), PutOrRemove(t, k, e);
            Reverts(s, s2, t, r, {k}, {}, false)
  {
    var s2, r := Put(s, k, e2), PutOrRemove(t, k, e);
    PutElsewhere(s, k, e2);
    PutElsewhere(t, k, e);
    OneKey(s, s2, t, r, k);
  }

  lemma UndonePush(s: State, k: Key, values: seq<Bytes>, front: bool, at: int, s2: State, t: State, now: int)
    requires Plain(s) && Live(s, now) && Live(t, now) && at <= now
    requires ExecPush(s, k, values, front, at) == Ok(s2) && t.data == s2.data
    ensures var r := RunAll(t, Repeat(PopCmd(k, front), |values|), now);
            Reverts(s, s2, t, r, {k}, {}, false)
  {
    var l := if k in s.data then s.data[k].vals else [];
    var l2 := if front then PushFront(l, values) else l + values;
    assert s2 == Put(s, k, List(l2));
    PushedPopped(l, values, front);
    RunPops(t, k, l2, |values|, front, now);
    PutBack(s, t, k, List(l2), List(l));
  }

  lemma PushedPopped(l: seq<Bytes>, values: seq<Bytes>, front: bool)
    ensures var l2 := if front then PushFront(l, values) else l + values;
            |l2| == |l| + |values| && Popped(l2, |values|, front) == l
  {
    PushFrontIs(l, values);
    ReversedTwice(values);
  }

  /** The command shrank an entity, removing the key if nothing was left, and the log put the old one back. */
  lemma ShrunkBack(s: State, t: State, k: Key, e2: Entity)
    requires k in s.data && !IsEmpty(s.data[k]) && t.data == PutOrRemove(s, k, e2).data
    ensures var s2, r := PutOrRemove(s, k, e2), Put(t, k, s.data[k]);
            Reverts(s, s2, t, r, {k}, Only(IsEmpty(e2) && k in s.ttl, k), false)
  {
    var s2, r := PutOrRemove(s, k, e2), Put(t, k, s.data[k]);
    PutElsewhere(s, k, e2);
    PutElsewhere(t, k, s.data[k]);
    OneKey(s, s2, t, r, k);
    FaresShrunk(s, t, k, e2);
  }

  lemma FaresShrunk(s: State, t: State, k: Key, e2: Entity)
    requires k in s.data && t.data == PutOrRemove(s, k, e2).data
    ensures Fares(s, PutOrRemove(s, k, e2), t, Put(t, k, s.data[k]), k, Only(IsEmpty(e2) && k in s.ttl, k), false)
  {
  }

  lemma Untouched(s: State, t: State, keys: set<Key>)
    requires t.data == s.data
    ensures Reverts(s, s, t, t, keys, {}, false)
  {
  }

  lemma PutSame(s: State, k: Key)
    requires k in s.data
    ensures Put(s, k, s.data[k]) == s
  {
    assert s.data[k := s.data[k]] == s.data;
  }

  predicate TakesAll(s: State, k: Key, count: Option<Bytes>) {
    k in s.data && s.data[k].List? && k in s.ttl && PopCount(count, |s.data[k].vals|) == Some(|s.data[k].vals|)
  }

  function PushCmd(k: Key, values: seq<Bytes>, front: bool): Cmd {
    if front then LPush(k, Reversed(values)) else RPush(k, values)
  }

  ghost predicate ListAt(t: State, k: Key, l: seq<Bytes>) {
    if k in t.data then t.data[k] == List(l) else l == []
  }

  lemma RunPush(t: State, k: Key, l: seq<Bytes>, values: seq<Bytes>, front: bool, now: int)
    requires Live(t, now) && ListAt(t, k, l) && values != []
    ensures Run(t, if front then LPush(k, values) else RPush(k, values), now)
         == Put(t, k, List(if front then PushFront(l, values) else l + values))
  {
  }

  /** Pushing back what was popped. */
  lemma PoppedPushed(l: seq<Bytes>, n: nat)
    requires n <= |l|
    ensures PushFront(Popped(l, n, true), Reversed(l[..n])) == l && |Reversed(l[..n])| == n
    ensures Popped(l, n, false) + l[|l| - n..] == l
  {
    ReversedTwice(l[..n]);
    PushFrontIs(l[n..], Reversed(l[..n]));
    Halves(l, n);
    Halves(l, |l| - n);
  }

  function Taken(l: seq<Bytes>, n: nat, front: bool): seq<Bytes>
    requires n <= |l|
  {
    if front then l[..n] else l[|l| - n..]
  }

  lemma RunPushBack(t: State, k: Key, l: seq<Bytes>, n: nat, front: bool, now: int)
    requires Live(t, now) && n <= |l| && ListAt(t, k, Popped(l, n, front))
    ensures RunAll(t, [PushCmd(k, Taken(l, n, front), front)], now) == if n == 0 then t else Put(t, k, List(l))
  {
    PoppedPushed(l, n);
    var values := if front then Reversed(l[..n]) else l[|l| - n..];
    var c := if front then LPush(k, values) else RPush(k, values);
    assert [c] == [PushCmd(k, Taken(l, n, front), front)];
    RunOne(t, c, now);
    if n > 0 {
      RunPush(t, k, Popped(l, n, front), values, front, now);
    } else {
      RunPushNone(t, k, front, now);
    }
  }

  lemma RunPushNone(t: State, k: Key, front: bool, now: int)
    ensures Run(t, if front then LPush(k, []) else RPush(k, []), now) == t
  {
  }

  lemma PopStep(s: State, k: Key, count: Option<Bytes>, front: bool, at: int, s2: State) returns (l: seq<Bytes>, n: nat)
    requires Plain(s) && Live(s, at) && k in s.data && ExecPop(s, k, count, front, at) == Ok(s2)
    ensures s.data[k] == List(l) && l != [] && n <= |l| && s2 == PutOrRemove(s, k, List(Popped(l, n, front)))
    ensures UndoPop(s, k, count, front) == [PushCmd(k, Taken(l, n, front), front)]
    ensures TakesAll(s, k, count) <==> n == |l| && k in s.ttl
  {
    l := s.data[k].vals;
    assert !IsEmpty(s.data[k]);
    n := PopCount(count, |l|).value;
  }

  lemma UndonePop(s: State, k: Key, count: Option<Bytes>, front: bool, at: int, s2: State, t: State, now: int)
    requires Plain(s) && Live(s, now) && Live(t, now) && at <= now
    requires ExecPop(s, k, count, front, at) == Ok(s2) && t.data == s2.data
    ensures var r := RunAll(t, UndoPop(s, k, count, front), now);
            Reverts(s, s2, t, r, {k}, Only(TakesAll(s, k, count), k), false)
  {
    if k !in s.data {
      Untouched(s, t, {k});
    } else {
      var l, n := PopStep(s, k, count, front, at, s2);
      RunPushBack(t, k, l, n, front, now);
      if n == 0 {
        PutSame(s, k);
        assert Popped(l, n, front) == l;
        Untouched(s, t, {k});
      } else {
        ShrunkBack(s, t, k, List(Popped(l, n, front)));
      }
    }
  }

  lemma UndoneLSet(s: State, k: Key, index: Bytes, value: Bytes, at: int, s2: State, t: State, enc: Encoder, now: int)
    requires Plain(s) && Live(s, now) && Live(t, now) && at <= now
    requires ExecLSet(s, k, index, value, at) == Ok(s2) && t.data == s2.data
    ensures var r := RunAll(t, Undo(s, LSet(k, index, value), enc), now);
            Reverts(s, s2, t, r, {k}, {}, false)
  {
    var l := s.data[k].vals;
    var i := Place(index, |l|).value;
    var c := LSet(k, index, l[i]);
    assert l[i := value][i := l[i]] == l;
    assert ExecLSet(t, k, index, l[i], now) == Ok(Put(t, k, List(l)));
    RunOne(t, c, now);
    PutBack(s, t, k, s2.data[k], List(l));
  }

  predicate MovesLast(s: State, src: Key, dest: Key) {
    src != dest && src in s.data && s.data[src].List? && |s.data[src].vals| == 1 && src in s.ttl
  }

  lemma MovedBack(s: State, t: State, src: Key, dest: Key, rest: seq<Bytes>, e2: Entity, d: seq<Bytes>)
    requires src != dest && src in s.data && !IsEmpty(s.data[src]) && ListAt(s, dest, d) && (dest in s.data ==> d != [])
    requires t.data == PutOrRemove(Put(s, dest, e2), src, List(rest)).data
    ensures var s2, r := PutOrRemove(Put(s, dest, e2), src, List(rest)), PutOrRemove(Put(t, src, s.data[src]), dest, List(d));
            Reverts(s, s2, t, r, {src, dest}, Only(rest == [] && src in s.ttl, src), false)
  {
    var s2 := PutOrRemove(Put(s, dest, e2), src, List(rest));
    var r := PutOrRemove(Put(t, src, s.data[src]), dest, List(d));
    var dropped := Only(rest == [] && src in s.ttl, src);
    MovedUndone(s, t, src, dest, rest, e2, d);
    assert Fares(s, s2, t, r, src, dropped, false);
    assert Fares(s, s2, t, r, dest, dropped, false);
  }

  lemma MovedUndone(s: State, t: State, src: Key, dest: Key, rest: seq<Bytes>, e2: Entity, d: seq<Bytes>)
    requires src != dest && src in s.data && !IsEmpty(s.data[src]) && ListAt(s, dest, d) && (dest in s.data ==> d != [])
    requires t.data == PutOrRemove(Put(s, dest, e2), src, List(rest)).data
    ensures var s2, r := PutOrRemove(Put(s, dest, e2), src, List(rest)), PutOrRemove(Put(t, src, s.data[src]), dest, List(d));
            Undone(s, s2, t, r, {src, dest})
  {
    var r := PutOrRemove(Put(t, src, s.data[src]), dest, List(d));
    assert KeyOk(r, s, src) && KeyOk(r, s, dest);
  }

  /** Moving an element back from the head of one list to the tail of another. */
  lemma RunMoveBack(t: State, src: Key, dest: Key, x: Bytes, rest: seq<Bytes>, d: seq<Bytes>, now: int)
    requires Live(t, now) && src != dest && ListAt(t, src, rest) && ListAt(t, dest, [x] + d)
    ensures RunAll(t, [RPush(src, [x]), LPop(dest, None)], now) == PutOrRemove(Put(t, src, List(rest + [x])), dest, List(d))
  {
    var t1 := Put(t, src, List(rest + [x]));
    RunPush(t, src, rest, [x], false, now);
    RunPop(t1, dest, [x] + d, true, now);
    assert Popped([x] + d, 1, true) == d;
    RunTwo(t, RPush(src, [x]), LPop(dest, None), now);
  }

  lemma RunRotateBack(t: State, k: Key, x: Bytes, rest: seq<Bytes>, now: int)
    requires Live(t, now) && ListAt(t, k, [x] + rest)
    ensures RunAll(t, [RPush(k, [x]), LPop(k, None)], now) == PutOrRemove(t, k, List(rest + [x]))
  {
    var l := [x] + rest + [x];
    var t1 := Put(t, k, List(l));
    RunPush(t, k, [x] + rest, [x], false, now);
    RunPop(t1, k, l, true, now);
    assert Popped(l, 1, true) == rest + [x];
    RunTwo(t, RPush(k, [x]), LPop(k, None), now);
    PutTwice(t, k, List(l), List(rest + [x]));
  }

  lemma RunTwo(t: State, a: Cmd, b: Cmd, now: int)
    ensures RunAll(t, [a, b], now) == Run(Run(t, a, now), b, now)
  {
    assert [a, b] == [a] + [b];
    RunCons(t, a, [b], now);
    RunOne(Run(t, a, now), b, now);
  }

  lemma MoveStep(s: State, src: Key, dest: Key, at: int, s2: State, l: seq<Bytes>, d: seq<Bytes>)
    requires Plain(s) && Live(s, at) && src in s.data && ExecRPopLPush(s, src, dest, at) == Ok(s2)
    requires s.data[src] == List(l) && d == if dest in s.data && s.data[dest].List? then s.data[dest].vals else []
    ensures l != [] && ListAt(s, dest, d) && (dest in s.data ==> d != [])
    ensures var x, rest := l[|l| - 1], l[..|l| - 1];
            s2 == if src == dest then Put(s, src, List([x] + rest))
                  else PutOrRemove(Put(s, dest, List([x] + d)), src, List(rest))
  {
    assert !IsEmpty(s.data[src]);
    assert dest in s.data ==> !IsEmpty(s.data[dest]);
  }

  lemma RPopLPushStep(s: State, src: Key, dest: Key, at: int, s2: State)
    returns (x: Bytes, rest: seq<Bytes>, d: seq<Bytes>)
    requires Plain(s) && Live(s, at) && src in s.data && ExecRPopLPush(s, src, dest, at) == Ok(s2)
    ensures s.data[src] == List(rest + [x]) && ListAt(s, dest, d) && (dest in s.data ==> d != [])
    ensures UndoMove(s, src, dest) == [RPush(src, [x]), LPop(dest, None)]
    ensures MovesLast(s, src, dest) <==> src != dest && rest == [] && src in s.ttl
    ensures s2 == if src == dest then Put(s, src, List([x] + rest))
                  else PutOrRemove(Put(s, dest, List([x] + d)), src, List(rest))
  {
    var l := s.data[src].vals;
    d := if dest in s.data && s.data[dest].List? then s.data[dest].vals else [];
    MoveStep(s, src, dest, at, s2, l, d);
    x, rest := l[|l| - 1], l[..|l| - 1];
    assert l == rest + [x];
  }

  lemma UndoneRPopLPush(s: State, src: Key, dest: Key, at: int, s2: State, t: State, now: int)
    requires Plain(s) && Live(s, now) && Live(t, now) && at <= now
    requires ExecRPopLPush(s, src, dest, at) == Ok(s2) && t.data == s2.data
    ensures var r := RunAll(t, UndoMove(s, src, dest), now);
            Reverts(s, s2, t, r, {src, dest}, Only(MovesLast(s, src, dest), src), false)
  {
    if src !in s.data {
      Untouched(s, t, {src, dest});
    } else {
      var x, rest, d := RPopLPushStep(s, src, dest, at, s2);
      if src == dest {
        RunRotateBack(t, src, x, rest, now);
        PutBack(s, t, src, List([x] + rest), List(rest + [x]));
        assert {src, dest} == {src};
      } else {
        MovedListsAt(s, src, dest, x, rest, d, s2, t);
        RunMoveBack(t, src, dest, x, rest, d, now);
        MovedBack(s, t, src, dest, rest, List([x] + d), d);
      }
    }
  }

  lemma MovedListsAt(s: State, src: Key, dest: Key, x: Bytes, rest: seq<Bytes>, d: seq<Bytes>, s2: State, t: State)
    requires src != dest && s2 == PutOrRemove(Put(s, dest, List([x] + d)), src, List(rest))
    requires t.data == s2.data
    ensures ListAt(t, src, rest) && ListAt(t, dest, [x] + d) && dest in t.data
  {
  }

  /* ---- Hashes and sorted sets: one entry at a time ---- */

  /** What restoring one entry from `h` makes of `g`. */
  ghost function ResetOne<V>(g: map<Bytes, V>, h: map<Bytes, V>, f: Bytes): map<Bytes, V> {
    if f in h then g[f := h[f]] else g - {f}
  }

  /** What restoring the entries `names` from `h` makes of `g`. */
  ghost function Reset<V>(g: map<Bytes, V>, h: map<Bytes, V>, names: seq<Bytes>): map<Bytes, V>
    decreases names
  {
    if names == [] then g
    else Reset(ResetOne(g, h, names[0]), h, names[1..])
  }

  ghost predicate AgreeAt<V>(g: map<Bytes, V>, h: map<Bytes, V>, f: Bytes) {
    (f in g <==> f in h) && (f in g ==> g[f] == h[f])
  }

  ghost predicate AgreeBut<V>(g: map<Bytes, V>, h: map<Bytes, V>, names: seq<Bytes>) {
    forall f {:trigger AgreeAt(g, h, f)} :: f !in names ==> AgreeAt(g, h, f)
  }

  lemma {:induction false} ResetIs<V>(g: map<Bytes, V>, h: map<Bytes, V>, names: seq<Bytes>)
    requires AgreeBut(g, h, names)
    ensures Reset(g, h, names) == h
    decreases names
  {
    if names == [] {
      forall f ensures (f in g <==> f in h) && (f in g ==> g[f] == h[f]) {
        assert AgreeAt(g, h, f);
      }
    } else {
      var g1 := ResetOne(g, h, names[0]);
      forall f | f !in names[1..] ensures AgreeAt(g1, h, f) {
        assert f != names[0] ==> AgreeAt(g, h, f);
      }
      ResetIs(g1, h, names[1..]);
    }
  }

  /** Entries are taken out of `g` that `h` does not have: this can empty `g` only if the two have nothing in common. */
  ghost predicate NeverEmptied<V>(g: map<Bytes, V>, h: map<Bytes, V>) {
    g.Keys <= h.Keys || exists f :: f in g && f in h
  }

  ghost predicate HashAt(t: State, k: Key, g: map<Bytes, Bytes>) {
    if k in t.data then t.data[k] == Hash(g) && |g| > 0 else g == map[]
  }

  ghost predicate ZSetAt(t: State, k: Key, g: map<Bytes, real>) {
    k in t.data && t.data[k] == ZSet(g)
  }

  lemma RunHSet(t: State, k: Key, g: map<Bytes, Bytes>, f: Bytes, v: Bytes, now: int)
    requires Live(t, now) && HashAt(t, k, g)
    ensures Run(t, HSet(k, f, v), now) == Put(t, k, Hash(g[f := v]))
  {
    assert [(f, v)][1..] == [];
    assert PutFields(g, [(f, v)]) == PutFields(g[f := v], []);
  }

  lemma RunHDel(t: State, k: Key, g: map<Bytes, Bytes>, f: Bytes, now: int)
    requires Live(t, now) && HashAt(t, k, g)
    ensures Run(t, HDel(k, [f]), now) == if k in t.data then PutOrRemove(t, k, Hash(g - {f})) else t
  {
    assert AsSet([f]) == {f};
    assert Swept(t, k, now) == t;
    assert k in t.data ==> ExecHDel(t, k, [f], now) == Ok(PutOrRemove(t, k, Hash(g - {f})));
  }

  lemma RunZAdd(t: State, k: Key, g: map<Bytes, real>, f: Bytes, v: real, now: int)
    requires Live(t, now) && ZSetAt(t, k, g)
    ensures Run(t, ZAdd(k, [(Some(v), f)], false), now) == Put(t, k, ZSet(g[f := v]))
  {
    assert [(Some(v), f)][1..] == [];
    assert PutScores(g, [(Some(v), f)]) == PutScores(g[f := v], []);
  }

  lemma RunZRem(t: State, k: Key, g: map<Bytes, real>, f: Bytes, now: int)
    requires Live(t, now) && ZSetAt(t, k, g)
    ensures Run(t, ZRem(k, [f]), now) == Put(t, k, ZSet(g - {f}))
  {
    assert AsSet([f]) == {f};
  }

  lemma NotEmptied<V>(g: map<Bytes, V>, h: map<Bytes, V>, f: Bytes)
    requires NeverEmptied(g, h) && f !in h
    ensures NeverEmptied(g - {f}, h) && (|g| > 0 ==> |g - {f}| > 0) && (g == map[] ==> g - {f} == g)
  {
    if |g| > 0 {
      var x :| x in g;
      assert g.Keys <= h.Keys ==> x in h;
      var y :| y in g && y in h;
      assert y in g - {f};
    }
  }

  lemma PutKept(t: State, k: Key, e: Entity)
    ensures Put(t, k, e).data - {k} == t.data - {k}
  {
  }

  lemma FieldSetBack(t: State, k: Key, g: map<Bytes, Bytes>, f: Bytes, v: Bytes, now: int)
    requires Live(t, now) && HashAt(t, k, g)
    ensures var r := Run(t, HSet(k, f, v), now);
            HashAt(r, k, g[f := v]) && r.data - {k} == t.data - {k} && r.ttl == t.ttl
  {
    RunHSet(t, k, g, f, v, now);
    PutKept(t, k, Hash(g[f := v]));
    assert f in g[f := v];
  }

  lemma FieldDeletedBack(t: State, k: Key, g: map<Bytes, Bytes>, f: Bytes, now: int)
    requires Live(t, now) && HashAt(t, k, g) && (|g| > 0 ==> |g - {f}| > 0) && (g == map[] ==> g - {f} == g)
    ensures var r := Run(t, HDel(k, [f]), now);
            HashAt(r, k, g - {f}) && r.data - {k} == t.data - {k} && r.ttl == t.ttl
  {
    RunHDel(t, k, g, f, now);
    PutKept(t, k, Hash(g - {f}));
  }

  lemma FieldBack(t: State, k: Key, g: map<Bytes, Bytes>, h: map<Bytes, Bytes>, f: Bytes, now: int)
    requires Live(t, now) && HashAt(t, k, g) && NeverEmptied(g, h)
    ensures var c := if f in h then HSet(k, f, h[f]) else HDel(k, [f]);
            var r, g1 := Run(t, c, now), ResetOne(g, h, f);
            HashAt(r, k, g1) && NeverEmptied(g1, h) && r.data - {k} == t.data - {k} && r.ttl == t.ttl
  {
    if f in h {
      FieldSetBack(t, k, g, f, h[f], now);
      assert f in g[f := h[f]];
    } else {
      NotEmptied(g, h, f);
      FieldDeletedBack(t, k, g, f, now);
    }
  }

  lemma {:induction false} FieldsBack(t: State, k: Key, g: map<Bytes, Bytes>, h: map<Bytes, Bytes>, names: seq<Bytes>, now: int)
    requires Live(t, now) && HashAt(t, k, g) && NeverEmptied(g, h)
    ensures var r := RunAll(t, RollbackFields(h, k, names), now);
            HashAt(r, k, Reset(g, h, names)) && r.data - {k} == t.data - {k} && r.ttl == t.ttl
    decreases names
  {
    if names != [] {
      var f := names[0];
      var c := if f in h then HSet(k, f, h[f]) else HDel(k, [f]);
      FieldBack(t, k, g, h, f, now);
      RunCons(t, c, RollbackFields(h, k, names[1..]), now);
      FieldsBack(Run(t, c, now), k, ResetOne(g, h, f), h, names[1..], now);
    }
  }

  lemma ScoreBack(t: State, k: Key, g: map<Bytes, real>, h: map<Bytes, real>, f: Bytes, now: int)
    requires Live(t, now) && ZSetAt(t, k, g)
    ensures var c := if f in h then ZAdd(k, [(Some(h[f]), f)], false) else ZRem(k, [f]);
            var r := Run(t, c, now);
            ZSetAt(r, k, ResetOne(g, h, f)) && r.data - {k} == t.data - {k} && r.ttl == t.ttl
  {
    if f in h {
      RunZAdd(t, k, g, f, h[f], now);
    } else {
      RunZRem(t, k, g, f, now);
    }
  }

  lemma {:induction false} ScoresBack(t: State, k: Key, g: map<Bytes, real>, h: map<Bytes, real>, names: seq<Bytes>, now: int)
    requires Live(t, now) && ZSetAt(t, k, g)
    ensures var r := RunAll(t, RollbackScores(h, k, names), now);
            ZSetAt(r, k, Reset(g, h, names)) && r.data - {k} == t.data - {k} && r.ttl == t.ttl
    decreases names
  {
    if names != [] {
      var f := names[0];
      var c := if f in h then ZAdd(k, [(Some(h[f]), f)], false) else ZRem(k, [f]);
      ScoreBack(t, k, g, h, f, now);
      RunCons(t, c, RollbackScores(h, k, names[1..]), now);
      ScoresBack(Run(t, c, now), k, ResetOne(g, h, f), h, names[1..], now);
    }
  }

  lemma IsPut(r: State, t: State, k: Key, e: Entity)
    requires r.data - {k} == t.data - {k} && r.ttl == t.ttl && k in r.data && r.data[k] == e
    ensures r == Put(t, k, e)
  {
    forall x ensures (x in r.data <==> x in Put(t, k, e).data) && (x in r.data ==> r.data[x] == Put(t, k, e).data[x]) {
      assert x != k ==> (x in r.data - {k} <==> x in t.data - {k});
      assert x != k && x in r.data ==> (r.data - {k})[x] == (t.data - {k})[x];
    }
    assert r.data == Put(t, k, e).data;
  }

  lemma {:induction false} PutFieldsAgree(h: map<Bytes, Bytes>, pairs: seq<(Bytes, Bytes)>)
    ensures AgreeBut(PutFields(h, pairs), h, Names(pairs))
    ensures h.Keys <= PutFields(h, pairs).Keys && (pairs != [] ==> pairs[0].0 in PutFields(h, pairs))
    decreases pairs
  {
    if pairs != [] {
      var h1 := h[pairs[0].0 := pairs[0].1];
      PutFieldsAgree(h1, pairs[1..]);
      var g := PutFields(h1, pairs[1..]);
      forall f | f !in Names(pairs) ensures AgreeAt(g, h, f) {
        assert f !in Names(pairs[1..]);
        assert AgreeAt(g, h1, f);
      }
    }
  }

  lemma {:induction false} PutScoresAgree(h: map<Bytes, real>, scored: seq<(Option<real>, Bytes)>)
    requires forall i :: 0 <= i < |scored| ==> scored[i].0.Some?
    ensures AgreeBut(PutScores(h, scored), h, ScoredNames(scored))
    ensures h.Keys <= PutScores(h, scored).Keys && (scored != [] ==> scored[0].1 in PutScores(h, scored))
    decreases scored
  {
    if scored != [] {
      var h1 := h[scored[0].1 := scored[0].0.value];
      PutScoresAgree(h1, scored[1..]);
      var g := PutScores(h1, scored[1..]);
      forall f | f !in ScoredNames(scored) ensures AgreeAt(g, h, f) {
        assert f !in ScoredNames(scored[1..]);
        assert AgreeAt(g, h1, f);
      }
    }
  }

  /** The command created the key, and the log deletes it. */
  lemma CreatedBack(s: State, t: State, k: Key, e2: Entity, now: int)
    requires k !in s.data && t.data == Put(s, k, e2).data
    ensures Reverts(s, Put(s, k, e2), t, RunAll(t, [Del([k])], now), {k}, {}, false)
  {
    RunOne(t, Del([k]), now);
    RunDel(t, k, now);
    PutBack(s, t, k, e2, List([]));
  }

  lemma AbsentBack(s: State, t: State, k: Key, now: int)
    requires k !in s.data && t.data == s.data
    ensures Reverts(s, s, t, RunAll(t, [Del([k])], now), {k}, {}, false)
  {
    RunOne(t, Del([k]), now);
    RunDel(t, k, now);
    Untouched(s, t, {k});
  }

  lemma UndoneHMSet(s: State, k: Key, pairs: seq<(Bytes, Bytes)>, odd: bool, at: int, s2: State, t: State, now: int)
    requires Plain(s) && Live(s, now) && Live(t, now) && at <= now
    requires ExecHMSet(s, k, pairs, odd, at) == Ok(s2) && t.data == s2.data
    ensures Reverts(s, s2, t, RunAll(t, UndoHash(s, k, Names(pairs)), now), {k}, {}, false)
  {
    if k !in s.data {
      CreatedBack(s, t, k, s2.data[k], now);
    } else {
      var h := s.data[k].fields;
      var g := PutFields(h, pairs);
      assert !IsEmpty(s.data[k]);
      PutFieldsAgree(h, pairs);
      var f :| f in h;
      assert f in g;
      FieldsBack(t, k, g, h, Names(pairs), now);
      ResetIs(g, h, Names(pairs));
      IsPut(RunAll(t, RollbackFields(h, k, Names(pairs)), now), t, k, Hash(h));
      PutBack(s, t, k, Hash(g), Hash(h));
    }
  }

  predicate ClearsHash(s: State, k: Key, names: seq<Bytes>) {
    k in s.data && s.data[k].Hash? && k in s.ttl && s.data[k].fields.Keys <= AsSet(names)
  }

  lemma HDelStep(s: State, k: Key, names: seq<Bytes>, at: int, s2: State) returns (h: map<Bytes, Bytes>)
    requires Plain(s) && Live(s, at) && k in s.data && ExecHDel(s, k, names, at) == Ok(s2)
    ensures s.data[k] == Hash(h) && |h| > 0 && s2 == PutOrRemove(s, k, Hash(h - AsSet(names)))
    ensures ClearsHash(s, k, names) <==> IsEmpty(Hash(h - AsSet(names))) && k in s.ttl
  {
    assert !IsEmpty(s.data[k]);
    h := s.data[k].fields;
    LeftOver(h, names);
  }

  lemma UndoneHDel(s: State, k: Key, names: seq<Bytes>, at: int, s2: State, t: State, now: int)
    requires Plain(s) && Live(s, now) && Live(t, now) && at <= now
    requires ExecHDel(s, k, names, at) == Ok(s2) && t.data == s2.data
    ensures Reverts(s, s2, t, RunAll(t, UndoHash(s, k, names), now), {k}, Only(ClearsHash(s, k, names), k), false)
  {
    if k !in s.data {
      AbsentBack(s, t, k, now);
    } else {
      var h := HDelStep(s, k, names, at, s2);
      var g := h - AsSet(names);
      FieldsBack(t, k, g, h, names, now);
      LeftOver(h, names);
      ResetIs(g, h, names);
      IsPut(RunAll(t, RollbackFields(h, k, names), now), t, k, Hash(h));
      ShrunkBack(s, t, k, Hash(g));
    }
  }

  lemma LeftOver<V>(h: map<Bytes, V>, names: seq<Bytes>)
    ensures AgreeBut(h - AsSet(names), h, names) && (|h - AsSet(names)| == 0 <==> h.Keys <= AsSet(names))
  {
    var g := h - AsSet(names);
    if |g| == 0 {
      forall f | f in h ensures f in names {
        assert f !in g;
      }
    } else {
      var f :| f in g;
    }
  }

  /** Sorted sets: the command replaced the scores, and the log brought the old ones back. */
  lemma ScoresReverted(s: State, t: State, r: State, k: Key, e2: Entity, z: map<Bytes, real>)
    requires k in s.data && s.data[k] == ZSet(z) && ZSetAt(r, k, z)
    requires r.data - {k} == t.data - {k} && r.ttl == t.ttl && t.data == Put(s, k, e2).data
    ensures Reverts(s, Put(s, k, e2), t, r, {k}, {}, false)
  {
    var s2 := Put(s, k, e2);
    forall x | x != k ensures Same(r, t, x) {
      assert x in r.data - {k} <==> x in t.data - {k};
      assert x in r.data ==> (r.data - {k})[x] == (t.data - {k})[x];
    }
  }

  lemma UndoneScores(s: State, k: Key, g: map<Bytes, real>, names: seq<Bytes>, t: State, now: int)
    requires Plain(s) && Live(t, now) && k in s.data && s.data[k].ZSet? && AgreeBut(g, s.data[k].scores, names)
    requires t.data == Put(s, k, ZSet(g)).data
    ensures Reverts(s, Put(s, k, ZSet(g)), t, RunAll(t, UndoZSet(s, k, names), now), {k}, {}, false)
  {
    var z := s.data[k].scores;
    ScoresBack(t, k, g, z, names, now);
    ResetIs(g, z, names);
    ScoresReverted(s, t, RunAll(t, RollbackScores(z, k, names), now), k, ZSet(g), z);
  }

  lemma UndoneZAdd(s: State, k: Key, scored: seq<(Option<real>, Bytes)>, odd: bool, at: int, s2: State, t: State, now: int)
    requires Plain(s) && Live(s, now) && Live(t, now) && at <= now
    requires ExecZAdd(s, k, scored, odd, at) == Ok(s2) && t.data == s2.data
    ensures Reverts(s, s2, t, RunAll(t, UndoZSet(s, k, ScoredNames(scored)), now), {k}, {}, false)
  {
    var z := if k in s.data then s.data[k].scores else map[];
    var g := PutScores(z, scored);
    PutScoresAgree(z, scored);
    assert s2 == Put(s, k, ZSet(g));
    if k !in s.data {
      CreatedBack(s, t, k, ZSet(g), now);
    } else {
      UndoneScores(s, k, g, ScoredNames(scored), t, now);
    }
  }

  lemma UndoneZIncrBy(s: State, k: Key, delta: Option<real>, member: Bytes, at: int, s2: State, t: State, now: int)
    requires Plain(s) && Live(s, now) && Live(t, now) && at <= now
    requires ExecZIncrBy(s, k, delta, member, at) == Ok(s2) && t.data == s2.data
    ensures Reverts(s, s2, t, RunAll(t, UndoZSet(s, k, [member]), now), {k}, {}, false)
  {
    var z := if k in s.data then s.data[k].scores else map[];
    var g := z[member := if member in z then z[member] + delta.value else delta.value];
    assert s2 == Put(s, k, ZSet(g));
    if k !in s.data {
      assert member in g;
      CreatedBack(s, t, k, ZSet(g), now);
    } else {
      UndoneScores(s, k, g, [member], t, now);
    }
  }

  lemma UndoneZRem(s: State, k: Key, names: seq<Bytes>, at: int, s2: State, t: State, now: int)
    requires Plain(s) && Live(s, now) && Live(t, now) && at <= now
    requires ExecZRem(s, k, names, at) == Ok(s2) && t.data == s2.data
    ensures Reverts(s, s2, t, RunAll(t, UndoZSet(s, k, names), now), {k}, {}, false)
  {
    if k !in s.data {
      AbsentBack(s, t, k, now);
    } else {
      LeftOver(s.data[k].scores, names);
      UndoneScores(s, k, s.data[k].scores - AsSet(names), names, t, now);
    }
  }

  /* ---- Sets: one member at a time ---- */

  ghost function ResetMember(g: set<Bytes>, m: set<Bytes>, x: Bytes): set<Bytes> {
    if x in m then g + {x} else g - {x}
  }

  ghost function ResetMembers(g: set<Bytes>, m: set<Bytes>, names: seq<Bytes>): set<Bytes>
    decreases names
  {
    if names == [] then g else ResetMembers(ResetMember(g, m, names[0]), m, names[1..])
  }

  lemma {:induction false} ResetMembersIs(g: set<Bytes>, m: set<Bytes>, names: seq<Bytes>)
    requires forall x :: x !in names ==> (x in g <==> x in m)
    ensures ResetMembers(g, m, names) == m
    decreases names
  {
    if names == [] {
      assert g == m;
    } else {
      ResetMembersIs(ResetMember(g, m, names[0]), m, names[1..]);
    }
  }

  ghost predicate SetAt(t: State, k: Key, g: set<Bytes>) {
    if k in t.data then t.data[k] == Set(g) && |g| > 0 else g == {}
  }

  lemma RunSAdd(t: State, k: Key, g: set<Bytes>, x: Bytes, now: int)
    requires Live(t, now) && SetAt(t, k, g)
    ensures Run(t, SAdd(k, [x]), now) == Put(t, k, Set(g + {x}))
  {
    assert AsSet([x]) == {x};
    var m := if k in t.data then t.data[k].members else {};
    assert m == g;
  }

  lemma RunSRem(t: State, k: Key, g: set<Bytes>, x: Bytes, now: int)
    requires Live(t, now) && SetAt(t, k, g)
    ensures Run(t, SRem(k, [x]), now) == if k in t.data then PutOrRemove(t, k, Set(g - {x})) else t
  {
    assert AsSet([x]) == {x};
  }

  lemma MemberBack(t: State, k: Key, g: set<Bytes>, m: set<Bytes>, x: Bytes, now: int)
    requires Live(t, now) && SetAt(t, k, g) && (g <= m || g * m != {})
    ensures var r := Run(t, if x in m then SAdd(k, [x]) else SRem(k, [x]), now);
            var g1 := ResetMember(g, m, x);
            SetAt(r, k, g1) && (g1 <= m || g1 * m != {}) && r.data - {k} == t.data - {k} && r.ttl == t.ttl
  {
    if x in m {
      RunSAdd(t, k, g, x, now);
      assert x in (g + {x}) * m;
    } else {
      RunSRem(t, k, g, x, now);
      assert (g - {x}) * m == g * m;
      assert g != {} ==> g - {x} != {};
    }
  }

  lemma {:induction false} MembersBack(t: State, k: Key, g: set<Bytes>, m: set<Bytes>, names: seq<Bytes>, now: int)
    requires Live(t, now) && SetAt(t, k, g) && (g <= m || g * m != {})
    ensures var r := RunAll(t, RollbackMembers(m, k, names), now);
            SetAt(r, k, ResetMembers(g, m, names)) && r.data - {k} == t.data - {k} && r.ttl == t.ttl
    decreases names
  {
    if names != [] {
      var x := names[0];
      var c := if x in m then SAdd(k, [x]) else SRem(k, [x]);
      MemberBack(t, k, g, m, x, now);
      RunCons(t, c, RollbackMembers(m, k, names[1..]), now);
      MembersBack(Run(t, c, now), k, ResetMember(g, m, x), m, names[1..], now);
    }
  }

  /** Whatever set the key held, the log restores the members. */
  lemma MembersRestored(s: State, k: Key, g: set<Bytes>, names: seq<Bytes>, t: State, now: int)
    requires Live(t, now) && k in s.data && s.data[k].Set? && s.data[k].members != {} && SetAt(t, k, g)
    requires g <= s.data[k].members || g * s.data[k].members != {}
    requires forall x :: x !in names ==> (x in g <==> x in s.data[k].members)
    ensures RunAll(t, UndoSet(s, k, names), now) == Put(t, k, s.data[k])
  {
    var m := s.data[k].members;
    MembersBack(t, k, g, m, names, now);
    ResetMembersIs(g, m, names);
    IsPut(RunAll(t, RollbackMembers(m, k, names), now), t, k, Set(m));
  }

  lemma UndoneSAdd(s: State, k: Key, names: seq<Bytes>, at: int, s2: State, t: State, now: int)
    requires Plain(s) && Live(s, now) && Live(t, now) && at <= now
    requires ExecSAdd(s, k, names, at) == Ok(s2) && t.data == s2.data
    ensures Reverts(s, s2, t, RunAll(t, UndoSet(s, k, names), now), {k}, {}, false)
  {
    var m := if k in s.data then s.data[k].members else {};
    var g := m + AsSet(names);
    assert s2 == Put(s, k, Set(g));
    assert names[0] in g;
    if k !in s.data {
      CreatedBack(s, t, k, Set(g), now);
    } else {
      assert !IsEmpty(s.data[k]);
      assert g * m == m;
      MembersRestored(s, k, g, names, t, now);
      PutBack(s, t, k, Set(g), Set(m));
    }
  }

  predicate ClearsSet(s: State, k: Key, names: seq<Bytes>) {
    k in s.data && s.data[k].Set? && k in s.ttl && s.data[k].members <= AsSet(names)
  }

  lemma UndoneSRem(s: State, k: Key, names: seq<Bytes>, at: int, s2: State, t: State, now: int)
    requires Plain(s) && Live(s, now) && Live(t, now) && at <= now
    requires ExecSRem(s, k, names, at) == Ok(s2) && t.data == s2.data
    ensures Reverts(s, s2, t, RunAll(t, UndoSet(s, k, names), now), {k}, Only(ClearsSet(s, k, names), k), false)
  {
    if k !in s.data {
      AbsentBack(s, t, k, now);
    } else {
      var g := SRemStep(s, k, names, at, s2);
      MembersRestored(s, k, g, names, t, now);
      ShrunkBack(s, t, k, Set(g));
    }
  }

  lemma SRemStep(s: State, k: Key, names: seq<Bytes>, at: int, s2: State) returns (g: set<Bytes>)
    requires Plain(s) && Live(s, at) && k in s.data && ExecSRem(s, k, names, at) == Ok(s2)
    ensures s.data[k].Set? && s.data[k].members != {} && g == s.data[k].members - AsSet(names)
    ensures s2 == PutOrRemove(s, k, Set(g)) && (ClearsSet(s, k, names) <==> IsEmpty(Set(g)) && k in s.ttl)
  {
    assert !IsEmpty(s.data[k]);
    g := s.data[k].members - AsSet(names);
    LeftOverMembers(s.data[k].members, AsSet(names));
  }

  lemma LeftOverMembers(m: set<Bytes>, a: set<Bytes>)
    ensures m - a == {} <==> m <= a
  {
    if !(m <= a) {
      var x :| x in m && x !in a;
      assert x in m - a;
    }
  }
}
