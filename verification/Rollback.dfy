/** database/transaction.go: a transaction that fails half-way is rolled back. */
module Rollbacks {
  import opened Sequences
  import opened Numerals
  import opened Databases
  import opened Marshalling
  import opened Undoing

  /** The keys a command may change. */
  function Changes(c: Cmd): set<Key> {
    match c
    case Del(keys) => AsSet(keys)
    case Rename(src, dest) => {src, dest}
    case RPopLPush(src, dest) => {src, dest}
    case _ => {c.key}
  }

  /** The command takes the last element out of a collection that has an expiry: the key goes, and its expiry with it. */
  predicate LosesTtl(s: State, c: Cmd) {
    match c
    case LPop(key, count) => TakesAll(s, key, count)
    case RPop(key, count) => TakesAll(s, key, count)
    case RPopLPush(src, dest) => MovesLast(s, src, dest)
    case HDel(key, names) => ClearsHash(s, key, names)
    case SRem(key, names) => ClearsSet(s, key, names)
    case _ => false
  }

  /** The key whose expiry that is. */
  function Drops(s: State, c: Cmd): set<Key> {
    Only(LosesTtl(s, c), if c.RPopLPush? then c.src else if c.Del? || c.Rename? then [] else c.key)
  }

  /** The log of the command sets the expiries itself. */
  predicate Resets(c: Cmd) {
    c.SetCmd? || c.Incr? || c.Append? || c.LRem? || c.Del? || c.Rename?
    || c.Persist? || c.Expire? || c.PExpire? || c.ExpireAt? || c.PExpireAt?
  }

  lemma ExpireBack(s: State, s2: State, t: State, k: Key, v: int)
    requires s2 == (if k in s.data then SetTtl(s, k, v) else s) || s2 == (if k in s.data then ClearTtl(s, k) else s)
    requires t.data == s2.data
    ensures Reverts(s, s2, t, WithTtl(t, s, k), {k}, {}, true)
  {
    assert KeyOk(t, s2, k);
  }

  lemma UndoneExpiry(s: State, c: Cmd, at: int, s2: State, t: State, enc: Encoder, now: int)
    requires c.Expire? || c.PExpire? || c.ExpireAt? || c.PExpireAt?
    requires Live(s, now) && Live(t, now) && at <= now
    requires ExecExpireAt(s, c.key, ExpiryOf(c, at), at) == Ok(s2) && t.data == s2.data
    ensures Reverts(s, s2, t, RunAll(t, [TtlCmd(s, c.key)], now), {c.key}, {}, true)
  {
    RunOne(t, TtlCmd(s, c.key), now);
    RunTtl(s, c.key, t, now);
    ExpireBack(s, s2, t, c.key, ExpiryOf(c, at).value);
  }

  lemma UndonePersist(s: State, k: Key, at: int, s2: State, t: State, now: int)
    requires Live(s, now) && Live(t, now) && at <= now
    requires ExecPersist(s, k, at) == Ok(s2) && t.data == s2.data
    ensures Reverts(s, s2, t, RunAll(t, [TtlCmd(s, k)], now), {k}, {}, true)
  {
    RunOne(t, TtlCmd(s, k), now);
    RunTtl(s, k, t, now);
    ExpireBack(s, s2, t, k, 0);
  }

  lemma UndoneKey(s: State, s2: State, k: Key, enc: Encoder, t: State, now: int)
    requires ValidEncoder(enc) && Live(s, now) && Live(t, now) && (k in s.data ==> !IsEmpty(s.data[k])) && Touches(s, s2, {k}) && t.data == s2.data
    ensures Reverts(s, s2, t, RunAll(t, RollbackKey(s, k, enc), now), {k}, {}, true)
  {
    assert AsSet([k]) == {k};
    UndoneKeys(s, s2, [k], enc, t, now);
    assert RollbackKeys(s, [k], enc) == RollbackKey(s, k, enc);
  }

  /** The situation in which the log of a command is run: the command took `s` to `s2`, and later commands are undone. */
  ghost predicate Pending(s: State, c: Cmd, at: int, s2: State, t: State, enc: Encoder, now: int) {
    && ValidEncoder(enc) && Plain(s) && Live(s, now) && Live(t, now) && at <= now
    && !UndoPanics(s, c) && Step(s, c, at) == Ok(s2) && t.data == s2.data
  }

  lemma UndoneStrings(s: State, c: Cmd, at: int, s2: State, t: State, enc: Encoder, now: int)
    requires Pending(s, c, at, s2, t, enc, now)
    requires c.SetCmd? || c.Incr? || c.Append? || c.LRem?
    ensures Reverts(s, s2, t, RunAll(t, Undo(s, c, enc), now), Changes(c), Drops(s, c), Resets(c))
  {
    match c
    case SetCmd(key, value, options) =>
      SetTouches(s, key, value, options, at);
      UndoneKey(s, s2, key, enc, t, now);
    case Incr(key) =>
      IncrTouches(s, key, at);
      UndoneKey(s, s2, key, enc, t, now);
    case Append(key, value) =>
      AppendTouches(s, key, value, at);
      UndoneKey(s, s2, key, enc, t, now);
    case LRem(key, number, value) =>
      LRemTouches(s, key, number, value, at);
      UndoneKey(s, s2, key, enc, t, now);
  }

  lemma UndoneDel(s: State, c: Cmd, at: int, s2: State, t: State, enc: Encoder, now: int)
    requires Pending(s, c, at, s2, t, enc, now) && c.Del?
    ensures Reverts(s, s2, t, RunAll(t, Undo(s, c, enc), now), Changes(c), Drops(s, c), Resets(c))
  {
    RemovesTouches(s, c.keys);
    UndoneKeys(s, s2, c.keys, enc, t, now);
  }

  lemma UndoneRename(s: State, c: Cmd, at: int, s2: State, t: State, enc: Encoder, now: int)
    requires Pending(s, c, at, s2, t, enc, now) && c.Rename?
    ensures Reverts(s, s2, t, RunAll(t, Undo(s, c, enc), now), Changes(c), Drops(s, c), Resets(c))
  {
    RenameTouches(s, c.src, c.dest, at);
    assert AsSet([c.src, c.dest]) == {c.src, c.dest};
    UndoneKeys(s, s2, [c.src, c.dest], enc, t, now);
  }

  lemma UndoneEnds(s: State, c: Cmd, at: int, s2: State, t: State, enc: Encoder, now: int)
    requires Pending(s, c, at, s2, t, enc, now) && (c.LPush? || c.RPush? || c.LPop? || c.RPop?)
    ensures Reverts(s, s2, t, RunAll(t, Undo(s, c, enc), now), Changes(c), Drops(s, c), Resets(c))
  {
    match c
    case LPush(key, values) => UndonePush(s, key, values, true, at, s2, t, now);
    case RPush(key, values) => UndonePush(s, key, values, false, at, s2, t, now);
    case LPop(key, count) => UndonePop(s, key, count, true, at, s2, t, now);
    case RPop(key, count) => UndonePop(s, key, count, false, at, s2, t, now);
  }

  lemma UndoneLists(s: State, c: Cmd, at: int, s2: State, t: State, enc: Encoder, now: int)
    requires Pending(s, c, at, s2, t, enc, now) && OnLists(c) && !c.LRem?
    ensures Reverts(s, s2, t, RunAll(t, Undo(s, c, enc), now), Changes(c), Drops(s, c), Resets(c))
  {
    if c.RPopLPush? {
      UndoneRPopLPush(s, c.src, c.dest, at, s2, t, now);
    } else if c.LSet? {
      UndoneLSet(s, c.key, c.index, c.value, at, s2, t, enc, now);
    } else {
      UndoneEnds(s, c, at, s2, t, enc, now);
    }
  }

  lemma UndoneHashes(s: State, c: Cmd, at: int, s2: State, t: State, enc: Encoder, now: int)
    requires Pending(s, c, at, s2, t, enc, now)
    requires c.HSet? || c.HMSet? || c.HDel? || c.SAdd? || c.SRem?
    ensures Reverts(s, s2, t, RunAll(t, Undo(s, c, enc), now), Changes(c), Drops(s, c), Resets(c))
  {
    match c
    case HSet(key, field, value) =>
      assert Names([(field, value)]) == [field];
      UndoneHMSet(s, key, [(field, value)], false, at, s2, t, now);
    case HMSet(key, pairs, odd) => UndoneHMSet(s, key, pairs, odd, at, s2, t, now);
    case HDel(key, names) => UndoneHDel(s, key, names, at, s2, t, now);
    case SAdd(key, names) => UndoneSAdd(s, key, names, at, s2, t, now);
    case SRem(key, names) => UndoneSRem(s, key, names, at, s2, t, now);
  }

  lemma UndoneSortedSets(s: State, c: Cmd, at: int, s2: State, t: State, enc: Encoder, now: int)
    requires Pending(s, c, at, s2, t, enc, now) && (c.ZAdd? || c.ZIncrBy? || c.ZRem?)
    ensures Reverts(s, s2, t, RunAll(t, Undo(s, c, enc), now), Changes(c), Drops(s, c), Resets(c))
  {
    match c
    case ZAdd(key, scored, odd) => UndoneZAdd(s, key, scored, odd, at, s2, t, now);
    case ZIncrBy(key, delta, member) => UndoneZIncrBy(s, key, delta, member, at, s2, t, now);
    case ZRem(key, names) => UndoneZRem(s, key, names, at, s2, t, now);
  }

  lemma UndoneCommand(s: State, c: Cmd, at: int, s2: State, t: State, enc: Encoder, now: int)
    requires Pending(s, c, at, s2, t, enc, now)
    ensures Reverts(s, s2, t, RunAll(t, Undo(s, c, enc), now), Changes(c), Drops(s, c), Resets(c))
  {
    if c.SetCmd? || c.Incr? || c.Append? || c.LRem? {
      UndoneStrings(s, c, at, s2, t, enc, now);
    } else if c.Del? {
      UndoneDel(s, c, at, s2, t, enc, now);
    } else if c.Rename? {
      UndoneRename(s, c, at, s2, t, enc, now);
    } else if OnLists(c) {
      UndoneLists(s, c, at, s2, t, enc, now);
    } else if c.Persist? {
      UndonePersist(s, c.key, at, s2, t, now);
    } else if c.Expire? || c.PExpire? || c.ExpireAt? || c.PExpireAt? {
      UndoneExpiry(s, c, at, s2, t, enc, now);
    } else if c.ZAdd? || c.ZIncrBy? || c.ZRem? {
      UndoneSortedSets(s, c, at, s2, t, enc, now);
    } else {
      UndoneHashes(s, c, at, s2, t, enc, now);
    }
  }

  /** The expiries missing from `r` are those of `keys`. */
  ghost predicate MissingAre(r: State, s: State, keys: set<Key>) {
    AllWithin(r, s) && forall x {:trigger Missing(r, s, x)} :: Missing(r, s, x) <==> x in keys
  }

  /** What is missing after the log has run, if `lost` was missing before. */
  function StillLost(s: State, c: Cmd, lost: set<Key>): set<Key> {
    Drops(s, c) + set x | x in lost && x in s.data && !(Resets(c) && x in Changes(c))
  }

  /** The log of a command restores the data it changed, wherever later commands have been undone before it, and exactly these expiries. */
  lemma UndoRestores(s: State, c: Cmd, at: int, s2: State, t: State, enc: Encoder, now: int, lost: set<Key>)
    requires Pending(s, c, at, s2, t, enc, now)
    ensures var r := RunAll(t, Undo(s, c, enc), now);
            r.data == s.data && Live(r, now) && (MissingAre(t, s2, lost) ==> MissingAre(r, s, StillLost(s, c, lost)))
  {
    UndoneCommand(s, c, at, s2, t, enc, now);
    var r := RunAll(t, Undo(s, c, enc), now);
    UndoneData(s, s2, t, r, Changes(c), now);
    if MissingAre(t, s2, lost) {
      forall x ensures Within(r, s, x) && (Missing(r, s, x) <==> x in StillLost(s, c, lost)) {
        assert Within(t, s2, x) && (Missing(t, s2, x) <==> x in lost);
        UndoneTtl(s, s2, t, r, Changes(c), Drops(s, c), Resets(c), x);
      }
    }
  }

  /* ---- What every command keeps ---- */

  /** Where the command sets an expiry, it is one that has not passed by `now`. */
  predicate Future(c: Cmd, at: int, now: int) {
    match c
    case SetCmd(_, _, options) =>
      (match ParseSet(options, Upsert, 0)
       case BadSet => true
       case SetPlan(_, ttl) => ttl == 0 || (now <= at + ttl && IsInt64(at + ttl)))
    case Expire(_, _) => FutureTime(ExpiryOf(c, at), now)
    case PExpire(_, _) => FutureTime(ExpiryOf(c, at), now)
    case ExpireAt(_, _) => FutureTime(ExpiryOf(c, at), now)
    case PExpireAt(_, _) => FutureTime(ExpiryOf(c, at), now)
    case _ => true
  }

  predicate FutureTime(t: Option<int>, now: int) {
    t.None? || (now <= t.value && IsInt64(t.value))
  }

  ghost predicate Keeps(s2: State, now: int) {
    Plain(s2) && Live(s2, now)
  }

  lemma {:induction false} RemovesKeeps(s: State, keys: seq<Key>, now: int)
    requires Plain(s) && Live(s, now)
    ensures Keeps(Removes(s, keys), now)
    decreases keys
  {
    if keys != [] {
      RemovesKeeps(if keys[0] in s.data then Remove(s, keys[0]) else s, keys[1..], now);
    }
  }

  lemma PutKeeps(s: State, k: Key, e: Entity, now: int)
    requires Plain(s) && Live(s, now)
    ensures Keeps(PutOrRemove(s, k, e), now)
  {
  }

  lemma SetKeeps(s: State, k: Key, value: Bytes, options: seq<Word>, at: int, s2: State, now: int)
    requires Plain(s) && Live(s, now) && Future(SetCmd(k, value, options), at, now)
    requires ExecSet(s, k, value, options, at) == Ok(s2)
    ensures Keeps(s2, now)
  {
    PutKeeps(s, k, Str(value), now);
  }

  lemma RenameKeeps(s: State, src: Key, dest: Key, at: int, s2: State, now: int)
    requires Plain(s) && Live(s, now) && at <= now && ExecRename(s, src, dest, at) == Ok(s2)
    ensures Keeps(s2, now)
  {
  }

  lemma LRemKeeps(s: State, k: Key, number: Bytes, value: Bytes, at: int, s2: State, now: int)
    requires Plain(s) && Live(s, now) && at <= now && ExecLRem(s, k, number, value, at) == Ok(s2)
    ensures Keeps(s2, now)
  {
  }

  lemma StepKeepsStrings(s: State, c: Cmd, at: int, s2: State, now: int)
    requires Plain(s) && Live(s, now) && at <= now && Future(c, at, now) && Step(s, c, at) == Ok(s2)
    requires c.SetCmd? || c.Incr? || c.Append? || c.LRem? || c.Del? || c.Rename?
    ensures Keeps(s2, now)
  {
    match c
    case SetCmd(key, value, options) => SetKeeps(s, key, value, options, at, s2, now);
    case Incr(key) => PutKeeps(s, key, s2.data[key], now);
    case Append(key, _) => PutKeeps(s, key, s2.data[key], now);
    case LRem(key, number, value) => LRemKeeps(s, key, number, value, at, s2, now);
    case Del(keys) => RemovesKeeps(s, keys, now);
    case Rename(src, dest) => RenameKeeps(s, src, dest, at, s2, now);
  }

  lemma PushKeeps(s: State, k: Key, values: seq<Bytes>, front: bool, at: int, s2: State, now: int)
    requires Plain(s) && Live(s, now) && at <= now && ExecPush(s, k, values, front, at) == Ok(s2)
    ensures Keeps(s2, now)
  {
    PushedPopped(if k in s.data then s.data[k].vals else [], values, front);
    PutKeeps(s, k, s2.data[k], now);
  }

  lemma MoveKeeps(s: State, src: Key, dest: Key, at: int, s2: State, now: int)
    requires Plain(s) && Live(s, now) && at <= now && ExecRPopLPush(s, src, dest, at) == Ok(s2)
    ensures Keeps(s2, now)
  {
    if src in s.data {
      var x, rest, d := RPopLPushStep(s, src, dest, at, s2);
      PutKeeps(s, src, List([x] + rest), now);
      PutKeeps(s, dest, List([x] + d), now);
      PutKeeps(Put(s, dest, List([x] + d)), src, List(rest), now);
    }
  }

  lemma PopKeeps(s: State, k: Key, count: Option<Bytes>, front: bool, at: int, s2: State, now: int)
    requires Plain(s) && Live(s, now) && at <= now && ExecPop(s, k, count, front, at) == Ok(s2)
    ensures Keeps(s2, now)
  {
    if k in s.data {
      var l, n := PopStep(s, k, count, front, at, s2);
      PutKeeps(s, k, List(Popped(l, n, front)), now);
    }
  }

  lemma LSetKeeps(s: State, k: Key, index: Bytes, value: Bytes, at: int, s2: State, now: int)
    requires Plain(s) && Live(s, now) && at <= now && ExecLSet(s, k, index, value, at) == Ok(s2)
    ensures Keeps(s2, now)
  {
    PutKeeps(s, k, s2.data[k], now);
  }

  lemma StepKeepsLists(s: State, c: Cmd, at: int, s2: State, now: int)
    requires Plain(s) && Live(s, now) && at <= now && Step(s, c, at) == Ok(s2)
    requires c.LPush? || c.RPush? || c.LPop? || c.RPop? || c.RPopLPush? || c.LSet?
    ensures Keeps(s2, now)
  {
    match c
    case LPush(key, values) => PushKeeps(s, key, values, true, at, s2, now);
    case RPush(key, values) => PushKeeps(s, key, values, false, at, s2, now);
    case RPopLPush(src, dest) => MoveKeeps(s, src, dest, at, s2, now);
    case LPop(key, count) => PopKeeps(s, key, count, true, at, s2, now);
    case RPop(key, count) => PopKeeps(s, key, count, false, at, s2, now);
    case LSet(key, index, value) => LSetKeeps(s, key, index, value, at, s2, now);
  }

  lemma HMSetKeeps(s: State, k: Key, pairs: seq<(Bytes, Bytes)>, odd: bool, at: int, s2: State, now: int)
    requires Plain(s) && Live(s, now) && at <= now && ExecHMSet(s, k, pairs, odd, at) == Ok(s2)
    ensures Keeps(s2, now)
  {
    PutFieldsAgree(if k in s.data then s.data[k].fields else map[], pairs);
    PutKeeps(s, k, s2.data[k], now);
  }

  lemma HDelKeeps(s: State, k: Key, names: seq<Bytes>, at: int, s2: State, now: int)
    requires Plain(s) && Live(s, now) && at <= now && ExecHDel(s, k, names, at) == Ok(s2)
    ensures Keeps(s2, now)
  {
    if k in s.data {
      PutKeeps(s, k, Hash(s.data[k].fields - AsSet(names)), now);
    }
  }

  lemma SAddKeeps(s: State, k: Key, names: seq<Bytes>, at: int, s2: State, now: int)
    requires Plain(s) && Live(s, now) && at <= now && ExecSAdd(s, k, names, at) == Ok(s2)
    ensures Keeps(s2, now)
  {
    assert names[0] in s2.data[k].members;
    PutKeeps(s, k, s2.data[k], now);
  }

  lemma SRemKeeps(s: State, k: Key, names: seq<Bytes>, at: int, s2: State, now: int)
    requires Plain(s) && Live(s, now) && at <= now && ExecSRem(s, k, names, at) == Ok(s2)
    ensures Keeps(s2, now)
  {
    if k in s.data {
      PutKeeps(s, k, Set(s.data[k].members - AsSet(names)), now);
    }
  }

  lemma StepKeepsHashes(s: State, c: Cmd, at: int, s2: State, now: int)
    requires Plain(s) && Live(s, now) && at <= now && Step(s, c, at) == Ok(s2)
    requires c.HSet? || c.HMSet? || c.HDel? || c.SAdd? || c.SRem?
    ensures Keeps(s2, now)
  {
    match c
    case HSet(key, field, value) => HMSetKeeps(s, key, [(field, value)], false, at, s2, now);
    case HMSet(key, pairs, odd) => HMSetKeeps(s, key, pairs, odd, at, s2, now);
    case HDel(key, names) => HDelKeeps(s, key, names, at, s2, now);
    case SAdd(key, names) => SAddKeeps(s, key, names, at, s2, now);
    case SRem(key, names) => SRemKeeps(s, key, names, at, s2, now);
  }

  lemma ZAddKeeps(s: State, k: Key, scored: seq<(Option<real>, Bytes)>, odd: bool, at: int, s2: State, now: int)
    requires Plain(s) && Live(s, now) && at <= now && ExecZAdd(s, k, scored, odd, at) == Ok(s2)
    ensures Keeps(s2, now)
  {
  }

  lemma ZIncrByKeeps(s: State, k: Key, delta: Option<real>, member: Bytes, at: int, s2: State, now: int)
    requires Plain(s) && Live(s, now) && at <= now && ExecZIncrBy(s, k, delta, member, at) == Ok(s2)
    ensures Keeps(s2, now)
  {
  }

  lemma ZRemKeeps(s: State, k: Key, names: seq<Bytes>, at: int, s2: State, now: int)
    requires Plain(s) && Live(s, now) && at <= now && ExecZRem(s, k, names, at) == Ok(s2)
    ensures Keeps(s2, now)
  {
  }

  lemma StepKeepsSortedSets(s: State, c: Cmd, at: int, s2: State, now: int)
    requires Plain(s) && Live(s, now) && at <= now && Step(s, c, at) == Ok(s2) && (c.ZAdd? || c.ZIncrBy? || c.ZRem?)
    ensures Keeps(s2, now)
  {
    match c
    case ZAdd(key, scored, odd) => ZAddKeeps(s, key, scored, odd, at, s2, now);
    case ZIncrBy(key, delta, member) => ZIncrByKeeps(s, key, delta, member, at, s2, now);
    case ZRem(key, names) => ZRemKeeps(s, key, names, at, s2, now);
  }

  lemma StepKeeps(s: State, c: Cmd, at: int, s2: State, now: int)
    requires Plain(s) && Live(s, now) && at <= now && Future(c, at, now) && Step(s, c, at) == Ok(s2)
    ensures Plain(s2) && Live(s2, now)
  {
    if c.SetCmd? || c.Incr? || c.Append? || c.LRem? || c.Del? || c.Rename? {
      StepKeepsStrings(s, c, at, s2, now);
    } else if c.LPush? || c.RPush? || c.LPop? || c.RPop? || c.RPopLPush? || c.LSet? {
      StepKeepsLists(s, c, at, s2, now);
    } else if c.ZAdd? || c.ZIncrBy? || c.ZRem? {
      StepKeepsSortedSets(s, c, at, s2, now);
    } else if c.HSet? || c.HMSet? || c.HDel? || c.SAdd? || c.SRem? {
      StepKeepsHashes(s, c, at, s2, now);
    }
  }

  /** A command that fails has changed nothing. */
  lemma FailureChangesNothing(s: State, c: Cmd, at: int, s2: State)
    requires Live(s, at) && Step(s, c, at) == Err(s2)
    ensures s2 == s
  {
    if OnKeys(c) {
      KeysUnchanged(s, c, at);
    } else if OnLists(c) {
      ListsUnchanged(s, c, at);
    } else {
      CollectionsUnchanged(s, c, at);
    }
  }

  lemma KeysUnchanged(s: State, c: Cmd, at: int)
    requires Live(s, at) && OnKeys(c)
    ensures Step(s, c, at).Ok? || Step(s, c, at).state == s
  {
  }

  lemma ListsUnchanged(s: State, c: Cmd, at: int)
    requires Live(s, at) && OnLists(c)
    ensures Step(s, c, at).Ok? || Step(s, c, at).state == s
  {
  }

  lemma CollectionsUnchanged(s: State, c: Cmd, at: int)
    requires Live(s, at) && !OnKeys(c) && !OnLists(c)
    ensures Step(s, c, at).Ok? || Step(s, c, at).state == s
  {
  }

  /* ---- The whole queue ---- */

  datatype Entry = Entry(cmd: Cmd, at: int)

  /** A panic is caught by the server, which leaves the state as the panic found it. */
  datatype Verdict = Committed(state: State) | Aborted(state: State) | Crashed(state: State)

  /** The keys that taking the log of a command looks up; one that has expired is removed then. */
  function UndoReads(c: Cmd): seq<Key> {
    match c
    case Del(keys) => keys
    case Rename(src, dest) => [src, dest]
    case RPopLPush(src, _) => [src]
    case Expire(_, _) => []
    case PExpire(_, _) => []
    case ExpireAt(_, _) => []
    case PExpireAt(_, _) => []
    case Persist(_) => []
    case LPush(_, _) => []
    case RPush(_, _) => []
    case _ => [c.key]
  }

  /** Looking the keys up in turn, up to one that makes EntityToCmd panic. */
  function SweptAll(s: State, keys: seq<Key>, at: int): State
    decreases keys
  {
    if keys == [] then s
    else
      var t := Swept(s, keys[0], at);
      if Unwritable(t, keys[0]) then t else SweptAll(t, keys[1..], at)
  }

  lemma {:induction false} NothingSwept(s: State, keys: seq<Key>, at: int)
    requires Live(s, at)
    ensures SweptAll(s, keys, at) == s
    decreases keys
  {
    if keys != [] {
      NothingSwept(s, keys[1..], at);
    }
  }

  /** Looking keys up removes those that have expired, up to the first that cannot be written down. */
  lemma {:induction false} SweptAllMeans(s: State, keys: seq<Key>, at: int, x: Key)
    ensures (forall k :: k in keys ==> !Unwritable(s, k)) ==>
              if x in keys && x in s.data && x in s.ttl && s.ttl[x] < at then x !in SweptAll(s, keys, at).data && x !in SweptAll(s, keys, at).ttl
              else Same(SweptAll(s, keys, at), s, x)
    ensures keys != [] && Unwritable(Swept(s, keys[0], at), keys[0]) ==> SweptAll(s, keys, at) == s
    decreases keys
  {
    if keys != [] {
      var t := Swept(s, keys[0], at);
      SweptAllMeans(t, keys[1..], at, x);
      assert x in keys <==> x == keys[0] || x in keys[1..];
      assert forall k :: k in keys[1..] ==> k in keys;
      assert x != keys[0] ==> Same(t, s, x);
    }
  }

  /** The loops of ExecMulti: each command, its log taken before it; after a failure the logs, the newest command first. */
  function ExecQueue(s0: State, queue: seq<Entry>, enc: Encoder, now: int): (v: Verdict)
    decreases queue
  {
    if queue == [] then Committed(s0)
    else
      var c, at := queue[0].cmd, queue[0].at;
      var s := SweptAll(s0, UndoReads(c), at);
      if UndoPanics(s, c) then Crashed(s)
      else match Step(s, c, at)
        case Panic(t) => Crashed(t)
        case Err(t) => Aborted(t)
        case Ok(t) =>
          match ExecQueue(t, queue[1..], enc, now)
          case Committed(u) => Committed(u)
          case Crashed(u) => Crashed(u)
          case Aborted(u) => Aborted(RunAll(u, Undo(s, c, enc), now))
  }

  /** No time in the queue is later than `now`, and no expiry it sets has passed by then. */
  predicate Timely(queue: seq<Entry>, now: int) {
    forall e :: e in queue ==> e.at <= now && Future(e.cmd, e.at, now)
  }

  /** The keys that lose their expiry in the rollback: those emptied by a command, unless the log of an earlier one sets the expiry. */
  function LostTtls(s: State, queue: seq<Entry>): set<Key>
    decreases queue
  {
    if queue == [] then {}
    else
      var c := queue[0].cmd;
      match Step(s, c, queue[0].at)
      case Ok(t) => StillLost(s, c, LostTtls(t, queue[1..]))
      case _ => {}
  }

  /** No command of the queue takes out the last element of a collection with an expiry. */
  predicate NoneDrained(s: State, queue: seq<Entry>)
    decreases queue
  {
    queue == [] || var c := queue[0].cmd;
      !LosesTtl(s, c)
      && (match Step(s, c, queue[0].at)
          case Ok(t) => NoneDrained(t, queue[1..])
          case _ => true)
  }

  lemma {:induction false} NoneDrainedNoneLost(s: State, queue: seq<Entry>)
    requires NoneDrained(s, queue)
    ensures LostTtls(s, queue) == {}
    decreases queue
  {
    if queue != [] && Step(s, queue[0].cmd, queue[0].at).Ok? {
      NoneDrainedNoneLost(Step(s, queue[0].cmd, queue[0].at).state, queue[1..]);
    }
  }

  /** After an abort every key holds what it held before EXEC. */
  lemma {:induction false} RollbackRestoresData(s: State, queue: seq<Entry>, enc: Encoder, now: int)
    requires ValidEncoder(enc) && Plain(s) && Live(s, now) && Timely(queue, now)
    ensures var v := ExecQueue(s, queue, enc, now); v.Aborted? ==> v.state.data == s.data && Live(v.state, now)
    decreases queue
  {
    var v := ExecQueue(s, queue, enc, now);
    if v.Aborted? {
      var c, at := queue[0].cmd, queue[0].at;
      assert queue[0] in queue;
      NothingSwept(s, UndoReads(c), at);
      var o := Step(s, c, at);
      if o.Ok? {
        StepKeeps(s, c, at, o.state, now);
        RollbackRestoresData(o.state, queue[1..], enc, now);
        UndoRestores(s, c, at, o.state, ExecQueue(o.state, queue[1..], enc, now).state, enc, now, {});
      } else {
        FailureChangesNothing(s, c, at, o.state);
      }
    }
  }

  /** The commands one after the other, if every one of them succeeds. */
  function Executed(s: State, queue: seq<Entry>): Option<State>
    decreases queue
  {
    if queue == [] then Some(s)
    else match Step(s, queue[0].cmd, queue[0].at)
      case Ok(t) => Executed(t, queue[1..])
      case _ => None
  }

  /** Taking the logs of the commands that succeed, and of the one that comes then, does not panic. */
  predicate Smooth(s: State, queue: seq<Entry>)
    decreases queue
  {
    queue == [] || (!UndoPanics(s, queue[0].cmd) && (Step(s, queue[0].cmd, queue[0].at).Ok? ==> Smooth(Step(s, queue[0].cmd, queue[0].at).state, queue[1..])))
  }

  /** EXEC commits if and only if every command succeeds and no log panics; the state is then that after all commands in turn. */
  lemma {:induction false} QueueCommits(s: State, queue: seq<Entry>, enc: Encoder, now: int)
    requires Plain(s) && Live(s, now) && Timely(queue, now)
    ensures var v := ExecQueue(s, queue, enc, now);
            (v.Committed? <==> Executed(s, queue).Some? && Smooth(s, queue)) && (v.Committed? ==> Executed(s, queue) == Some(v.state))
    decreases queue
  {
    if queue != [] {
      var c, at := queue[0].cmd, queue[0].at;
      assert queue[0] in queue;
      NothingSwept(s, UndoReads(c), at);
      var o := Step(s, c, at);
      if o.Ok? {
        StepKeeps(s, c, at, o.state, now);
        QueueCommits(o.state, queue[1..], enc, now);
      }
    }
  }

  /** The commands before the `n`-th succeed, and that one is answered with an error. */
  ghost predicate FailsAt(s: State, queue: seq<Entry>, n: nat) {
    n < |queue| && Smooth(s, queue[..n + 1]) && Executed(s, queue[..n]).Some?
    && Step(Executed(s, queue[..n]).value, queue[n].cmd, queue[n].at).Err?
  }

  lemma FailsLater(s: State, queue: seq<Entry>, n: nat)
    requires queue != [] && Step(s, queue[0].cmd, queue[0].at).Ok? && !UndoPanics(s, queue[0].cmd)
    ensures FailsAt(s, queue, n + 1) <==> FailsAt(Step(s, queue[0].cmd, queue[0].at).state, queue[1..], n)
  {
    if n + 1 < |queue| {
      assert queue[..n + 1][1..] == queue[1..][..n];
      assert queue[..n + 2][1..] == queue[1..][..n + 1];
    }
  }

  /** EXEC rolls back if and only if some command fails, the ones before it having succeeded. */
  lemma {:induction false} QueueAborts(s: State, queue: seq<Entry>, enc: Encoder, now: int)
    requires Plain(s) && Live(s, now) && Timely(queue, now)
    ensures ExecQueue(s, queue, enc, now).Aborted? <==> exists n: nat :: FailsAt(s, queue, n)
    decreases queue
  {
    if queue != [] {
      var c, at := queue[0].cmd, queue[0].at;
      assert queue[0] in queue;
      NothingSwept(s, UndoReads(c), at);
      FailsFirst(s, queue);
      var o := Step(s, c, at);
      if o.Ok? && !UndoPanics(s, c) {
        StepKeeps(s, c, at, o.state, now);
        QueueAborts(o.state, queue[1..], enc, now);
        if n: nat :| FailsAt(s, queue, n) {
          FailsLater(s, queue, n - 1);
        }
        if n: nat :| FailsAt(o.state, queue[1..], n) {
          FailsLater(s, queue, n);
        }
      }
    }
  }

  lemma FailsFirst(s: State, queue: seq<Entry>)
    requires queue != []
    ensures FailsAt(s, queue, 0) <==> !UndoPanics(s, queue[0].cmd) && Step(s, queue[0].cmd, queue[0].at).Err?
    ensures UndoPanics(s, queue[0].cmd) || !Step(s, queue[0].cmd, queue[0].at).Ok? ==> forall n: nat :: FailsAt(s, queue, n) ==> n == 0
    ensures UndoPanics(s, queue[0].cmd) ==> forall n: nat :: !FailsAt(s, queue, n)
  {
    assert queue[..0] == [] && queue[..1] == [queue[0]];
    forall n: nat | FailsAt(s, queue, n) ensures !UndoPanics(s, queue[0].cmd) && (n > 0 ==> Step(s, queue[0].cmd, queue[0].at).Ok?) {
      assert queue[..n + 1][0] == queue[0];
      assert n > 0 ==> queue[..n][0] == queue[0];
    }
  }

  /** And exactly these keys have lost their expiry. */
  lemma {:induction false} RollbackRestoresTtl(s: State, queue: seq<Entry>, enc: Encoder, now: int)
    requires ValidEncoder(enc) && Plain(s) && Live(s, now) && Timely(queue, now)
    ensures var v := ExecQueue(s, queue, enc, now);
            v.Aborted? ==> v.state.data == s.data && MissingAre(v.state, s, LostTtls(s, queue))
    decreases queue
  {
    RollbackRestoresData(s, queue, enc, now);
    var v := ExecQueue(s, queue, enc, now);
    if v.Aborted? {
      var c, at := queue[0].cmd, queue[0].at;
      assert queue[0] in queue;
      NothingSwept(s, UndoReads(c), at);
      var o := Step(s, c, at);
      if o.Ok? {
        StepKeeps(s, c, at, o.state, now);
        RollbackRestoresData(o.state, queue[1..], enc, now);
        RollbackRestoresTtl(o.state, queue[1..], enc, now);
        UndoRestores(s, c, at, o.state, ExecQueue(o.state, queue[1..], enc, now).state, enc, now, LostTtls(o.state, queue[1..]));
      } else {
        FailureChangesNothing(s, c, at, o.state);
      }
    }
  }

  /** Where only existing keys have an expiry, the rollback leaves the whole state as it was but for those expiries. */
  lemma RollbackRestores(s: State, queue: seq<Entry>, enc: Encoder, now: int)
    requires ValidEncoder(enc) && Plain(s) && Clean(s) && Live(s, now) && Timely(queue, now)
    ensures var v := ExecQueue(s, queue, enc, now); v.Aborted? ==> v.state == State(s.data, s.ttl - LostTtls(s, queue))
    ensures var v := ExecQueue(s, queue, enc, now); v.Aborted? ==> (v.state == s <==> LostTtls(s, queue) == {})
    ensures NoneDrained(s, queue) ==> LostTtls(s, queue) == {}
  {
    if NoneDrained(s, queue) {
      NoneDrainedNoneLost(s, queue);
    }
    RollbackRestoresTtl(s, queue, enc, now);
    var v, lost := ExecQueue(s, queue, enc, now), LostTtls(s, queue);
    if v.Aborted? {
      forall x ensures (x in v.state.ttl <==> x in s.ttl && x !in lost) && (x in v.state.ttl ==> v.state.ttl[x] == s.ttl[x]) {
        assert Within(v.state, s, x) && (Missing(v.state, s, x) <==> x in lost);
      }
      assert v.state.ttl == s.ttl - lost;
      if x :| x in lost {
        assert Missing(v.state, s, x);
      }
    }
  }

  /* ---- Where the rollback does not restore ---- */

  /** An expiry that has passed by the time of the rollback: looking the key up to restore its expiry removes it. */
  lemma ExpiryUndoneInTime(s: State, c: Cmd, at: int, s2: State, enc: Encoder, now: int)
    requires c.Expire? || c.PExpire? || c.ExpireAt? || c.PExpireAt?
    requires Live(s, now) && at <= now && c.key in s.data && Step(s, c, at) == Ok(s2)
    ensures RunAll(s2, Undo(s, c, enc), now).data == s.data <==> now <= ExpiryOf(c, at).value
  {
    var k, v := c.key, ExpiryOf(c, at).value;
    assert s2 == SetTtl(s, k, v);
    RunOne(s2, TtlCmd(s, k), now);
    assert (s.data - {k}).Keys != s.data.Keys;
    if k in s.ttl {
      ParseFormat(s.ttl[k]);
      assert ExecExpireAt(s2, k, Some(s.ttl[k]), now).state.data == Swept(s2, k, now).data;
    }
  }

  const KEY: Key := [1]
  const MISSING: Key := [2]

  /** A command that fails because its key is not there. */
  const FAILING: Cmd := LSet(MISSING, [], [])

  lemma FailingFails(s: State, enc: Encoder, at: int)
    requires MISSING !in s.data
    ensures ExecQueue(s, [Entry(FAILING, at)], enc, at) == Aborted(s)
  {
    assert UndoReads(FAILING) == [MISSING];
    assert SweptAll(s, UndoReads(FAILING), at) == s;
    assert Step(s, FAILING, at) == Err(s);
  }

  lemma ExecThenFail(s: State, c: Cmd, t: State, enc: Encoder)
    requires Live(s, 0) && !UndoPanics(s, c) && Step(s, c, 0) == Ok(t) && MISSING !in t.data
    ensures ExecQueue(s, [Entry(c, 0), Entry(FAILING, 0)], enc, 0) == Aborted(RunAll(t, Undo(s, c, enc), 0))
  {
    NothingSwept(s, UndoReads(c), 0);
    FailingFails(t, enc, 0);
    assert [Entry(c, 0), Entry(FAILING, 0)][1..] == [Entry(FAILING, 0)];
  }

  /** LPOP of the only element of a list with an expiry, and a failure: the list comes back without its expiry. */
  lemma ExpiryLost(x: Bytes, enc: Encoder)
    ensures var s := State(map[KEY := List([x])], map[KEY := 10]);
            ExecQueue(s, [Entry(LPop(KEY, None), 0), Entry(FAILING, 0)], enc, 0) == Aborted(State(s.data, map[]))
  {
    var s := State(map[KEY := List([x])], map[KEY := 10]);
    var t := State(map[], map[]);
    RunPop(s, KEY, [x], true, 0);
    assert Popped([x], 1, true) == [];
    assert Remove(s, KEY) == t;
    ExecThenFail(s, LPop(KEY, None), t, enc);
    RunPushBack(t, KEY, [x], 1, true, 0);
    assert UndoPop(s, KEY, None, true) == [PushCmd(KEY, Taken([x], 1, true), true)];
    assert Put(t, KEY, List([x])).data == s.data;
  }

  /** A panic leaves the commands before it executed: nothing is rolled back. */
  lemma {:induction false} CrashIsPartial(s: State, queue: seq<Entry>, enc: Encoder, now: int)
    requires Plain(s) && Live(s, now) && Timely(queue, now)
    ensures var v := ExecQueue(s, queue, enc, now);
            v.Crashed? ==> exists n :: 0 <= n < |queue| && ExecQueue(s, queue[..n], enc, now) == Committed(v.state)
    decreases queue
  {
    var v := ExecQueue(s, queue, enc, now);
    if v.Crashed? {
      var c, at := queue[0].cmd, queue[0].at;
      assert queue[0] in queue;
      NothingSwept(s, UndoReads(c), at);
      var o := Step(s, c, at);
      if UndoPanics(s, c) || o.Panic? {
        PanicChangesNothing(s, c, at);
        assert ExecQueue(s, queue[..0], enc, now) == Committed(s);
      } else {
        StepKeeps(s, c, at, o.state, now);
        CrashIsPartial(o.state, queue[1..], enc, now);
        var n :| 0 <= n < |queue[1..]| && ExecQueue(o.state, queue[1..][..n], enc, now) == Committed(v.state);
        assert queue[..n + 1][1..] == queue[1..][..n];
        assert ExecQueue(s, queue[..n + 1], enc, now) == Committed(v.state);
      }
    }
  }

  lemma PanicChangesNothing(s: State, c: Cmd, at: int)
    requires Live(s, at)
    ensures Step(s, c, at).Panic? ==> Step(s, c, at).state == s
  {
    if OnKeys(c) {
      KeysUnchanged(s, c, at);
    } else if OnLists(c) {
      ListsUnchanged(s, c, at);
    } else {
      CollectionsUnchanged(s, c, at);
    }
  }

  /* ---- The rollback itself ---- */

  /** A command as it occurs in undo logs. */
  predicate InLogs(c: Cmd, now: int) {
    !c.LRem? && ((c.LPop? || c.RPop?) ==> c.count.None?) && Future(c, now, now)
  }

  /** Where no list is empty, such a command does not panic, and leaves no list empty. */
  lemma LogCmdFine(t: State, c: Cmd, now: int)
    requires Plain(t) && Live(t, now) && InLogs(c, now)
    ensures !Step(t, c, now).Panic? && Plain(Run(t, c, now)) && Live(Run(t, c, now), now)
  {
    NoPanicOnPlain(t, c, now);
    match Step(t, c, now)
    case Ok(u) => StepKeeps(t, c, now, u, now);
    case Err(u) => FailureChangesNothing(t, c, now, u);
  }

  lemma NoPanicOnPlain(t: State, c: Cmd, now: int)
    requires Plain(t) && Live(t, now) && InLogs(c, now)
    ensures !Step(t, c, now).Panic?
  {
  }

  ghost predicate NoPanics(t: State, log: seq<Cmd>, now: int)
    decreases log
  {
    log == [] || (!Step(t, log[0], now).Panic? && NoPanics(Run(t, log[0], now), log[1..], now))
  }

  lemma {:induction false} LogFine(t: State, log: seq<Cmd>, now: int)
    requires Plain(t) && Live(t, now) && forall c :: c in log ==> InLogs(c, now)
    ensures NoPanics(t, log, now)
    decreases log
  {
    if log != [] {
      assert log[0] in log;
      LogCmdFine(t, log[0], now);
      LogFine(Run(t, log[0], now), log[1..], now);
    }
  }

  lemma TtlCmdInLogs(s: State, key: Key, now: int)
    requires Live(s, now)
    ensures InLogs(TtlCmd(s, key), now)
  {
    if key in s.ttl {
      ParseFormat(s.ttl[key]);
    }
  }

  lemma {:induction false} KeysInLogs(s: State, keys: seq<Key>, enc: Encoder, now: int)
    requires ValidEncoder(enc) && Live(s, now)
    ensures forall c :: c in RollbackKeys(s, keys, enc) ==> InLogs(c, now)
    decreases keys
  {
    if keys != [] {
      KeyInLogs(s, keys[0], enc, now);
      KeysInLogs(s, keys[1..], enc, now);
    }
  }

  lemma KeyInLogs(s: State, key: Key, enc: Encoder, now: int)
    requires ValidEncoder(enc) && Live(s, now)
    ensures forall c :: c in RollbackKey(s, key, enc) ==> InLogs(c, now)
  {
    TtlCmdInLogs(s, key, now);
    if key in s.data {
      assert Encodes(key, s.data[key], enc(key, s.data[key]));
    }
  }

  lemma {:induction false} NamesInLogs(s: State, key: Key, names: seq<Bytes>, now: int)
    ensures forall c :: c in UndoHash(s, key, names) || c in UndoSet(s, key, names) || c in UndoZSet(s, key, names) ==> InLogs(c, now)
    decreases names
  {
    if names != [] {
      NamesInLogs(s, key, names[1..], now);
    }
  }

  lemma {:induction false} RepeatInLogs(c: Cmd, n: nat, now: int)
    requires InLogs(c, now)
    ensures forall d :: d in Repeat(c, n) ==> InLogs(d, now)
  {
    if n > 0 {
      RepeatInLogs(c, n - 1, now);
    }
  }

  lemma UndoInLogs(s: State, c: Cmd, enc: Encoder, now: int)
    requires ValidEncoder(enc) && Live(s, now)
    ensures forall d :: d in Undo(s, c, enc) ==> InLogs(d, now)
  {
    if Resets(c) {
      ResetInLogs(s, c, enc, now);
    } else {
      match c
      case LPush(key, values) => RepeatInLogs(LPop(key, None), |values|, now);
      case RPush(key, values) => RepeatInLogs(RPop(key, None), |values|, now);
      case HSet(key, field, _) => NamesInLogs(s, key, [field], now);
      case HMSet(key, pairs, _) => NamesInLogs(s, key, Names(pairs), now);
      case HDel(key, names) => NamesInLogs(s, key, names, now);
      case SAdd(key, names) => NamesInLogs(s, key, names, now);
      case SRem(key, names) => NamesInLogs(s, key, names, now);
      case ZAdd(key, scored, _) => NamesInLogs(s, key, ScoredNames(scored), now);
      case ZIncrBy(key, _, member) => NamesInLogs(s, key, [member], now);
      case ZRem(key, names) => NamesInLogs(s, key, names, now);
      case _ =>
    }
  }

  lemma ResetInLogs(s: State, c: Cmd, enc: Encoder, now: int)
    requires ValidEncoder(enc) && Live(s, now) && Resets(c)
    ensures forall d :: d in Undo(s, c, enc) ==> InLogs(d, now)
  {
    if c.Del? {
      KeysInLogs(s, c.keys, enc, now);
    } else if c.Rename? {
      KeysInLogs(s, [c.src, c.dest], enc, now);
    } else {
      KeyInLogs(s, c.key, enc, now);
      TtlCmdInLogs(s, c.key, now);
    }
  }

  /** No command of a log panics while the rollback runs it. */
  lemma UndoNeverPanics(s: State, c: Cmd, at: int, s2: State, t: State, enc: Encoder, now: int)
    requires Pending(s, c, at, s2, t, enc, now) && Future(c, at, now)
    ensures NoPanics(t, Undo(s, c, enc), now)
  {
    StepKeeps(s, c, at, s2, now);
    assert Plain(t);
    UndoInLogs(s, c, enc, now);
    LogFine(t, Undo(s, c, enc), now);
  }
}
