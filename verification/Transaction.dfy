/** database/: the database object, the executors of the commands, and EXEC. */
module Transactions {
  import opened Sequences
  import opened Numerals
  import opened Databases
  import opened Undoing
  import opened Rollbacks

  /** Versions are 32-bit counters. */
  const VERSIONS := 0x1_0000_0000

  type Version = n: nat | n < VERSIONS

  datatype Reply = Fine | Error | Crash

  function ReplyOf(o: Outcome): Reply {
    match o
    case Ok(_) => Fine
    case Err(_) => Error
    case Panic(_) => Crash
  }

  function VersionOf(versions: map<Key, Version>, key: Key): Version {
    if key in versions then versions[key] else 0
  }

  function Bumped(versions: map<Key, Version>, keys: seq<Key>): map<Key, Version>
    decreases keys
  {
    if keys == [] then versions
    else Bumped(versions[keys[0] := (VersionOf(versions, keys[0]) + 1) % VERSIONS], keys[1..])
  }

  lemma AsSetSnoc(names: seq<Bytes>, i: nat)
    requires i < |names|
    ensures AsSet(names[..i + 1]) == AsSet(names[..i]) + {names[i]}
  {
  }

  class DB {
    var data: map<Key, Entity>
    var ttlMap: map<Key, int>
    var versionMap: map<Key, Version>

    function S(): State
      reads this
    {
      State(data, ttlMap)
    }

    /** The executor ended as the specification says. */
    ghost predicate Did(o: Outcome, reply: Reply)
      reads this
    {
      S() == o.state && reply == ReplyOf(o)
    }

    constructor ()
      ensures S() == State(map[], map[]) && versionMap == map[]
    {
      data, ttlMap, versionMap := map[], map[], map[];
    }

    /* ---- Data access ---- */

    method Remove(key: Key)
      modifies this`data, this`ttlMap
      ensures S() == Databases.Remove(old(S()), key)
    {
      data := data - {key};
      ttlMap := ttlMap - {key};
    }

    method IsExpired(key: Key, now: int) returns (expired: bool)
      modifies this`data, this`ttlMap
      ensures expired == Expired(old(S()), key, now)
      ensures S() == if expired then Databases.Remove(old(S()), key) else old(S())
    {
      if key !in ttlMap {
        return false;
      }
      expired := now > ttlMap[key];
      if expired {
        Remove(key);
      }
    }

    method GetEntity(key: Key, now: int) returns (e: Option<Entity>)
      modifies this`data, this`ttlMap
      ensures S() == Swept(old(S()), key, now)
      ensures e == if key in data then Some(data[key]) else None
    {
      if key !in data {
        return None;
      }
      var expired := IsExpired(key, now);
      e := if expired then None else Some(data[key]);
    }

    /** The check for an emptied collection at the end of an executor. */
    method RemoveIfEmpty(key: Key, ghost s: State)
      requires key in data && !data[key].Str? && S() == Put(s, key, data[key])
      modifies this`data, this`ttlMap
      ensures S() == PutOrRemove(s, key, old(data[key]))
    {
      var e := data[key];
      if IsEmpty(e) {
        PutTwice(s, key, e, e);
        Remove(key);
      }
    }

    method Removes(keys: seq<Key>) returns (deleted: nat)
      modifies this`data, this`ttlMap
      ensures S() == Databases.Removes(old(S()), keys)
      ensures deleted == |old(data).Keys| - |data.Keys|
    {
      deleted := 0;
      var i := 0;
      while i < |keys|
        invariant 0 <= i <= |keys| && Databases.Removes(S(), keys[i..]) == Databases.Removes(old(S()), keys)
        invariant deleted == |old(data).Keys| - |data.Keys|
      {
        if keys[i] in data {
          assert (data - {keys[i]}).Keys == data.Keys - {keys[i]};
          Remove(keys[i]);
          deleted := deleted + 1;
        }
        assert keys[i..][1..] == keys[i + 1..];
        i := i + 1;
      }
    }

    method AddVersion(keys: seq<Key>)
      modifies this`versionMap
      ensures versionMap == Bumped(old(versionMap), keys)
    {
      var i := 0;
      while i < |keys|
        invariant 0 <= i <= |keys| && Bumped(versionMap, keys[i..]) == Bumped(old(versionMap), keys)
      {
        assert keys[i..][1..] == keys[i + 1..];
        versionMap := versionMap[keys[i] := (VersionOf(versionMap, keys[i]) + 1) % VERSIONS];
        i := i + 1;
      }
    }

    /* ---- Strings ---- */

    method ExecSet(key: Key, value: Bytes, options: seq<Word>, now: int) returns (reply: Reply)
      modifies this`data, this`ttlMap
      ensures Did(Databases.ExecSet(old(S()), key, value, options, now), reply)
    {
      var plan := ParseOptions(options);
      if plan.BadSet? {
        return Error;
      }
      if (plan.policy.Insert? && key in data) || (plan.policy.Update? && key !in data) {
        return Fine;
      }
      data := data[key := Str(value)];
      ttlMap := if plan.ttl != 0 then ttlMap[key := now + plan.ttl] else ttlMap - {key};
      return Fine;
    }

    method ExecIncr(key: Key, now: int) returns (reply: Reply)
      modifies this`data, this`ttlMap
      ensures Did(Databases.ExecIncr(old(S()), key, now), reply)
    {
      var e := GetEntity(key, now);
      var n := 0;
      if e.Some? {
        if !e.value.Str? || ParseInt(e.value.val).None? {
          return Error;
        }
        n := ParseInt(e.value.val).value;
      }
      data := data[key := Str(FormatInt(Wrap64(n + 1)))];
      return Fine;
    }

    method ExecAppend(key: Key, value: Bytes, now: int) returns (reply: Reply)
      modifies this`data, this`ttlMap
      ensures Did(Databases.ExecAppend(old(S()), key, value, now), reply)
    {
      var e := GetEntity(key, now);
      if e.Some? && !e.value.Str? {
        return Error;
      }
      data := data[key := Str((if e.Some? then e.value.val else []) + value)];
      assert [] + value == value;
      return Fine;
    }

    /* ---- Keys ---- */

    method ExecDel(keys: seq<Key>) returns (reply: Reply)
      modifies this`data, this`ttlMap
      ensures Did(if keys == [] then Err(old(S())) else Ok(Databases.Removes(old(S()), keys)), reply)
    {
      if keys == [] {
        return Error;
      }
      var deleted := Removes(keys);
      return Fine;
    }

    method ExecRename(src: Key, dest: Key, now: int) returns (reply: Reply)
      modifies this`data, this`ttlMap
      ensures Did(Databases.ExecRename(old(S()), src, dest, now), reply)
    {
      var e := GetEntity(src, now);
      if e.None? {
        return Error;
      }
      var ttl := if src in ttlMap then Some(ttlMap[src]) else None;
      data := data[dest := e.value];
      Remove(src);
      if ttl.Some? {
        ttlMap := ttlMap - {src};
        ttlMap := ttlMap - {dest};
        ttlMap := ttlMap[dest := ttl.value];
      }
      return Fine;
    }

    method ExecExpireAt(key: Key, at: Option<int>, now: int) returns (reply: Reply)
      modifies this`data, this`ttlMap
      ensures Did(Databases.ExecExpireAt(old(S()), key, at, now), reply)
    {
      if at.None? {
        return Error;
      }
      var e := GetEntity(key, now);
      if e.Some? {
        ttlMap := ttlMap[key := at.value];
      }
      return Fine;
    }

    method ExecPersist(key: Key, now: int) returns (reply: Reply)
      modifies this`data, this`ttlMap
      ensures Did(Databases.ExecPersist(old(S()), key, now), reply)
    {
      var e := GetEntity(key, now);
      if e.Some? && key in ttlMap {
        ttlMap := ttlMap - {key};
      }
      assert key !in ttlMap ==> ttlMap - {key} == ttlMap;
      return Fine;
    }

    /* ---- Lists ---- */

    method ExecPush(key: Key, values: seq<Bytes>, front: bool, now: int) returns (reply: Reply)
      modifies this`data, this`ttlMap
      ensures Did(Databases.ExecPush(old(S()), key, values, front, now), reply)
    {
      if values == [] {
        return Error;
      }
      var e := GetEntity(key, now);
      if e.Some? && !e.value.List? {
        return Error;
      }
      var l := if e.Some? then e.value.vals else [];
      data := data[key := List(l)];
      Push(key, l, values, front);
      return Fine;
    }

    method Push(key: Key, l: seq<Bytes>, values: seq<Bytes>, front: bool)
      requires key in data && data[key] == List(l)
      modifies this`data
      ensures data == old(data)[key := List(if front then PushFront(l, values) else l + values)]
    {
      var i, cur := 0, l;
      while i < |values|
        invariant 0 <= i <= |values| && data == old(data)[key := List(cur)]
        invariant if front then PushFront(cur, values[i..]) == PushFront(l, values) else cur == l + values[..i]
      {
        assert values[i..][1..] == values[i + 1..] && values[..i + 1] == values[..i] + [values[i]];
        cur := if front then [values[i]] + cur else cur + [values[i]];
        data := data[key := List(cur)];
        i := i + 1;
      }
      assert values[..|values|] == values;
    }

    method ExecPop(key: Key, count: Option<Bytes>, front: bool, now: int) returns (reply: Reply)
      modifies this`data, this`ttlMap
      ensures Did(Databases.ExecPop(old(S()), key, count, front, now), reply)
    {
      var e := GetEntity(key, now);
      if e.None? {
        return Fine;
      }
      if !e.value.List? {
        return Error;
      }
      var l := e.value.vals;
      var n := 1;
      if count.Some? {
        var parsed := ParseInt(count.value);
        if parsed.None? {
          return Error;
        }
        n := if parsed.value > |l| then |l| else parsed.value;
      }
      if n < 0 || (front && n > |l|) {
        return Crash;
      }
      ghost var s := S();
      if n <= |l| {
        Pop(key, l, n, front);
        RemoveIfEmpty(key, s);
      } else {
        Remove(key);
      }
      return Fine;
    }

    method Pop(key: Key, l: seq<Bytes>, n: nat, front: bool)
      requires key in data && data[key] == List(l) && n <= |l|
      modifies this`data
      ensures data == old(data)[key := List(if front then l[n..] else l[..|l| - n])]
    {
      var i, cur := 0, l;
      while i < n
        invariant 0 <= i <= n && data == old(data)[key := List(cur)]
        invariant cur == if front then l[i..] else l[..|l| - i]
      {
        cur := if front then cur[1..] else cur[..|cur| - 1];
        data := data[key := List(cur)];
        i := i + 1;
      }
    }

    method ExecRPopLPush(src: Key, dest: Key, now: int) returns (reply: Reply)
      modifies this`data, this`ttlMap
      ensures Did(Databases.ExecRPopLPush(old(S()), src, dest, now), reply)
    {
      var e := GetEntity(src, now);
      if e.None? {
        return Fine;
      }
      if !e.value.List? {
        return Error;
      }
      var d := GetEntity(dest, now);
      if d.Some? && !d.value.List? {
        return Error;
      }
      ghost var s := S();
      if d.None? {
        data := data[dest := List([])];
      }
      Move(src, dest);
      ghost var t := if src == dest then s else Put(s, dest, data[dest]);
      assert S() == Put(t, src, data[src]);
      RemoveIfEmpty(src, t);
      return Fine;
    }

    method Move(src: Key, dest: Key)
      requires src in data && data[src].List? && dest in data && data[dest].List?
      modifies this`data
      ensures var l, d := old(data[src].vals), old(data[dest].vals);
              var (x, rest) := if l == [] then ([], []) else (l[|l| - 1], l[..|l| - 1]);
              data == if src == dest then old(data)[src := List([x] + rest)]
                      else old(data)[src := List(rest)][dest := List([x] + d)]
    {
      var l := data[src].vals;
      var x, rest := [], [];
      if l != [] {
        x, rest := l[|l| - 1], l[..|l| - 1];
      }
      data := data[src := List(rest)];
      data := data[dest := List([x] + data[dest].vals)];
    }

    method ExecLSet(key: Key, index: Bytes, value: Bytes, now: int) returns (reply: Reply)
      modifies this`data, this`ttlMap
      ensures Did(Databases.ExecLSet(old(S()), key, index, value, now), reply)
    {
      var e := GetEntity(key, now);
      if e.None? || !e.value.List? {
        return Error;
      }
      var l := e.value.vals;
      var i := Place(index, |l|);
      if i.None? {
        return Error;
      }
      data := data[key := List(l[i.value := value])];
      return Fine;
    }

    method ExecLRem(key: Key, number: Bytes, value: Bytes, now: int) returns (reply: Reply)
      modifies this`data, this`ttlMap
      ensures Did(Databases.ExecLRem(old(S()), key, number, value, now), reply)
    {
      var n := ParseInt(number);
      if n.None? {
        return Error;
      }
      var e := GetEntity(key, now);
      if e.None? {
        return Fine;
      }
      if !e.value.List? {
        return Error;
      }
      if n.value == 0 && e.value.vals == [] {
        return Crash;
      }
      ghost var s := S();
      data := data[key := List(Dropped(e.value.vals, value, n.value))];
      RemoveIfEmpty(key, s);
      return Fine;
    }

    /* ---- Hashes ---- */

    method ExecHMSet(key: Key, pairs: seq<(Bytes, Bytes)>, odd: bool, now: int) returns (reply: Reply)
      modifies this`data, this`ttlMap
      ensures Did(Databases.ExecHMSet(old(S()), key, pairs, odd, now), reply)
    {
      if pairs == [] || odd {
        return Error;
      }
      var e := GetEntity(key, now);
      if e.Some? && !e.value.Hash? {
        return Error;
      }
      ghost var s := S();
      var h := if e.Some? then e.value.fields else map[];
      data := data[key := Hash(h)];
      var i, cur := 0, h;
      while i < |pairs|
        invariant 0 <= i <= |pairs| && S() == Put(s, key, Hash(cur)) && PutFields(cur, pairs[i..]) == PutFields(h, pairs)
      {
        assert pairs[i..][1..] == pairs[i + 1..];
        cur := cur[pairs[i].0 := pairs[i].1];
        data := data[key := Hash(cur)];
        i := i + 1;
      }
      return Fine;
    }

    method ExecHDel(key: Key, names: seq<Bytes>, now: int) returns (reply: Reply)
      modifies this`data, this`ttlMap
      ensures Did(Databases.ExecHDel(old(S()), key, names, now), reply)
    {
      if names == [] {
        return Error;
      }
      var e := GetEntity(key, now);
      if e.None? {
        return Fine;
      }
      if !e.value.Hash? {
        return Error;
      }
      ghost var s := S();
      DeleteFields(key, e.value.fields, names);
      RemoveIfEmpty(key, s);
      return Fine;
    }

    method DeleteFields(key: Key, h: map<Bytes, Bytes>, names: seq<Bytes>)
      requires key in data && data[key] == Hash(h)
      modifies this`data
      ensures data == old(data)[key := Hash(h - AsSet(names))]
    {
      var i, cur := 0, h;
      while i < |names|
        invariant 0 <= i <= |names| && data == old(data)[key := Hash(cur)] && cur == h - AsSet(names[..i])
      {
        AsSetSnoc(names, i);
        cur := cur - {names[i]};
        data := data[key := Hash(cur)];
        i := i + 1;
      }
      assert names[..|names|] == names;
    }

    /* ---- Sets ---- */

    method ExecSAdd(key: Key, names: seq<Bytes>, now: int) returns (reply: Reply)
      modifies this`data, this`ttlMap
      ensures Did(Databases.ExecSAdd(old(S()), key, names, now), reply)
    {
      if names == [] {
        return Error;
      }
      var e := GetEntity(key, now);
      if e.Some? && !e.value.Set? {
        return Error;
      }
      ghost var s := S();
      var m := if e.Some? then e.value.members else {};
      data := data[key := Set(m)];
      var i, cur := 0, m;
      while i < |names|
        invariant 0 <= i <= |names| && S() == Put(s, key, Set(cur)) && cur == m + AsSet(names[..i])
      {
        AsSetSnoc(names, i);
        cur := cur + {names[i]};
        data := data[key := Set(cur)];
        i := i + 1;
      }
      assert names[..|names|] == names;
      return Fine;
    }

    method ExecSRem(key: Key, names: seq<Bytes>, now: int) returns (reply: Reply)
      modifies this`data, this`ttlMap
      ensures Did(Databases.ExecSRem(old(S()), key, names, now), reply)
    {
      if names == [] {
        return Error;
      }
      var e := GetEntity(key, now);
      if e.None? {
        return Fine;
      }
      if !e.value.Set? {
        return Error;
      }
      ghost var s := S();
      var i, cur := 0, e.value.members;
      while i < |names|
        invariant 0 <= i <= |names| && S() == Put(s, key, Set(cur)) && cur == e.value.members - AsSet(names[..i])
      {
        AsSetSnoc(names, i);
        cur := cur - {names[i]};
        data := data[key := Set(cur)];
        i := i + 1;
      }
      assert names[..|names|] == names;
      PutSame(s, key);
      RemoveIfEmpty(key, s);
      return Fine;
    }

    /* ---- Sorted sets ---- */

    method ExecZAdd(key: Key, scored: seq<(Option<real>, Bytes)>, odd: bool, now: int) returns (reply: Reply)
      modifies this`data, this`ttlMap
      ensures Did(Databases.ExecZAdd(old(S()), key, scored, odd, now), reply)
    {
      if scored == [] || odd {
        return Error;
      }
      var i := 0;
      while i < |scored|
        invariant 0 <= i <= |scored| && forall j :: 0 <= j < i ==> scored[j].0.Some?
      {
        if scored[i].0.None? {
          return Error;
        }
        i := i + 1;
      }
      var e := GetEntity(key, now);
      if e.Some? && !e.value.ZSet? {
        return Error;
      }
      ghost var s := S();
      var z := if e.Some? then e.value.scores else map[];
      data := data[key := ZSet(z)];
      var cur := z;
      i := 0;
      while i < |scored|
        invariant 0 <= i <= |scored| && S() == Put(s, key, ZSet(cur)) && PutScores(cur, scored[i..]) == PutScores(z, scored)
      {
        assert scored[i..][1..] == scored[i + 1..];
        cur := cur[scored[i].1 := scored[i].0.value];
        data := data[key := ZSet(cur)];
        i := i + 1;
      }
      return Fine;
    }

    method ExecZIncrBy(key: Key, delta: Option<real>, member: Bytes, now: int) returns (reply: Reply)
      modifies this`data, this`ttlMap
      ensures Did(Databases.ExecZIncrBy(old(S()), key, delta, member, now), reply)
    {
      if delta.None? {
        return Error;
      }
      var e := GetEntity(key, now);
      if e.Some? && !e.value.ZSet? {
        return Error;
      }
      var z := if e.Some? then e.value.scores else map[];
      data := data[key := ZSet(z)];
      var score := if member in z then z[member] + delta.value else delta.value;
      data := data[key := ZSet(z[member := score])];
      return Fine;
    }

    method ExecZRem(key: Key, names: seq<Bytes>, now: int) returns (reply: Reply)
      modifies this`data, this`ttlMap
      ensures Did(Databases.ExecZRem(old(S()), key, names, now), reply)
    {
      if names == [] {
        return Error;
      }
      var e := GetEntity(key, now);
      if e.None? {
        return Fine;
      }
      if !e.value.ZSet? {
        return Error;
      }
      ghost var s := S();
      var i, cur := 0, e.value.scores;
      while i < |names|
        invariant 0 <= i <= |names| && S() == Put(s, key, ZSet(cur)) && cur == e.value.scores - AsSet(names[..i])
      {
        AsSetSnoc(names, i);
        cur := cur - {names[i]};
        data := data[key := ZSet(cur)];
        i := i + 1;
      }
      assert names[..|names|] == names;
      return Fine;
    }

    /* ---- Dispatch ---- */

    method Exec(c: Cmd, now: int) returns (reply: Reply)
      modifies this`data, this`ttlMap
      ensures Did(Step(old(S()), c, now), reply)
    {
      if OnKeys(c) {
        reply := ExecOnKeys(c, now);
      } else if OnLists(c) {
        reply := ExecOnLists(c, now);
      } else {
        reply := ExecOnCollections(c, now);
      }
    }

    method ExecOnKeys(c: Cmd, now: int) returns (reply: Reply)
      requires OnKeys(c)
      modifies this`data, this`ttlMap
      ensures Did(Step(old(S()), c, now), reply)
    {
      match c
      case SetCmd(key, value, options) => reply := ExecSet(key, value, options, now);
      case Del(keys) => reply := ExecDel(keys);
      case Rename(src, dest) => reply := ExecRename(src, dest, now);
      case Expire(key, _) => reply := ExecExpireAt(key, ExpiryOf(c, now), now);
      case PExpire(key, _) => reply := ExecExpireAt(key, ExpiryOf(c, now), now);
      case ExpireAt(key, _) => reply := ExecExpireAt(key, ExpiryOf(c, now), now);
      case PExpireAt(key, _) => reply := ExecExpireAt(key, ExpiryOf(c, now), now);
      case Persist(key) => reply := ExecPersist(key, now);
      case Incr(key) => reply := ExecIncr(key, now);
      case Append(key, value) => reply := ExecAppend(key, value, now);
    }

    method ExecOnLists(c: Cmd, now: int) returns (reply: Reply)
      requires OnLists(c)
      modifies this`data, this`ttlMap
      ensures Did(Step(old(S()), c, now), reply)
    {
      match c
      case LPush(key, values) => reply := ExecPush(key, values, true, now);
      case RPush(key, values) => reply := ExecPush(key, values, false, now);
      case LPop(key, count) => reply := ExecPop(key, count, true, now);
      case RPop(key, count) => reply := ExecPop(key, count, false, now);
      case RPopLPush(src, dest) => reply := ExecRPopLPush(src, dest, now);
      case LSet(key, index, value) => reply := ExecLSet(key, index, value, now);
      case LRem(key, number, value) => reply := ExecLRem(key, number, value, now);
    }

    method ExecOnCollections(c: Cmd, now: int) returns (reply: Reply)
      requires !OnKeys(c) && !OnLists(c)
      modifies this`data, this`ttlMap
      ensures Did(Step(old(S()), c, now), reply)
    {
      match c
      case HSet(key, field, value) => reply := ExecHMSet(key, [(field, value)], false, now);
      case HMSet(key, pairs, odd) => reply := ExecHMSet(key, pairs, odd, now);
      case HDel(key, names) => reply := ExecHDel(key, names, now);
      case SAdd(key, names) => reply := ExecSAdd(key, names, now);
      case SRem(key, names) => reply := ExecSRem(key, names, now);
      case ZAdd(key, scored, odd) => reply := ExecZAdd(key, scored, odd, now);
      case ZIncrBy(key, delta, member) => reply := ExecZIncrBy(key, delta, member, now);
      case ZRem(key, names) => reply := ExecZRem(key, names, now);
    }

    /* ---- Undo logs (database/tx_utils.go, list.go, keys.go) ---- */

    method RollbackGivenKeys(keys: seq<Key>, at: int, enc: Encoder) returns (log: seq<Cmd>, crash: bool)
      modifies this`data, this`ttlMap
      ensures S() == SweptAll(old(S()), keys, at)
      ensures crash <==> exists key :: key in keys && Unwritable(S(), key)
      ensures !crash ==> log == RollbackKeys(S(), keys, enc)
    {
      log := [];
      var i := 0;
      while i < |keys|
        invariant 0 <= i <= |keys| && SweptAll(S(), keys[i..], at) == SweptAll(old(S()), keys, at)
        invariant forall j {:trigger keys[j]} :: 0 <= j < i ==> Swept(S(), keys[j], at) == S() && !Unwritable(S(), keys[j])
        invariant log == RollbackKeys(S(), keys[..i], enc)
      {
        ghost var s := S();
        var k := keys[i];
        assert keys[i..][1..] == keys[i + 1..];
        var e := GetEntity(k, at);
        forall j {:trigger keys[j]} | 0 <= j < i ensures Same(S(), s, keys[j]) {
        }
        SameLog(S(), s, keys[..i], enc);
        RollbackKeysSnoc(S(), keys, i, enc);
        if e.None? {
          log := log + [Del([k])];
        } else {
          if e.value == ZSet(map[]) {
            assert Unwritable(S(), keys[i]);
            return log, true;
          }
          log := log + [Del([k]), enc(k, e.value), TtlCmd(S(), k)];
        }
        i := i + 1;
      }
      assert keys[..|keys|] == keys;
      crash := false;
    }

    method RollbackHashFields(key: Key, names: seq<Bytes>, at: int) returns (log: seq<Cmd>)
      modifies this`data, this`ttlMap
      ensures S() == Swept(old(S()), key, at) && log == UndoHash(S(), key, names)
    {
      var e := GetEntity(key, at);
      if e.None? {
        return [Del([key])];
      }
      log := [];
      if !e.value.Hash? {
        return;
      }
      var h, i := e.value.fields, 0;
      while i < |names|
        invariant 0 <= i <= |names| && log + RollbackFields(h, key, names[i..]) == RollbackFields(h, key, names)
        invariant S() == Swept(old(S()), key, at)
      {
        assert names[i..][1..] == names[i + 1..];
        var c := if names[i] in h then HSet(key, names[i], h[names[i]]) else HDel(key, [names[i]]);
        Associative(log, [c], RollbackFields(h, key, names[i + 1..]));
        log := log + [c];
        i := i + 1;
      }
      assert names[|names|..] == [] && log + [] == log;
    }

    method RollbackSetMembers(key: Key, names: seq<Bytes>, at: int) returns (log: seq<Cmd>)
      modifies this`data, this`ttlMap
      ensures S() == Swept(old(S()), key, at) && log == UndoSet(S(), key, names)
    {
      var e := GetEntity(key, at);
      if e.None? {
        return [Del([key])];
      }
      log := [];
      if !e.value.Set? {
        return;
      }
      var m, i := e.value.members, 0;
      while i < |names|
        invariant 0 <= i <= |names| && log + RollbackMembers(m, key, names[i..]) == RollbackMembers(m, key, names)
        invariant S() == Swept(old(S()), key, at)
      {
        assert names[i..][1..] == names[i + 1..];
        var c := if names[i] in m then SAdd(key, [names[i]]) else SRem(key, [names[i]]);
        Associative(log, [c], RollbackMembers(m, key, names[i + 1..]));
        log := log + [c];
        i := i + 1;
      }
      assert names[|names|..] == [] && log + [] == log;
    }

    method RollbackZSetFields(key: Key, names: seq<Bytes>, at: int) returns (log: seq<Cmd>)
      modifies this`data, this`ttlMap
      ensures S() == Swept(old(S()), key, at) && log == UndoZSet(S(), key, names)
    {
      var e := GetEntity(key, at);
      if e.None? {
        return [Del([key])];
      }
      log := [];
      if !e.value.ZSet? {
        return;
      }
      var z, i := e.value.scores, 0;
      while i < |names|
        invariant 0 <= i <= |names| && log + RollbackScores(z, key, names[i..]) == RollbackScores(z, key, names)
        invariant S() == Swept(old(S()), key, at)
      {
        assert names[i..][1..] == names[i + 1..];
        var c := if names[i] in z then ZAdd(key, [(Some(z[names[i]]), names[i])], false) else ZRem(key, [names[i]]);
        Associative(log, [c], RollbackScores(z, key, names[i + 1..]));
        log := log + [c];
        i := i + 1;
      }
      assert names[|names|..] == [] && log + [] == log;
    }

    /** undoLPop and undoRPop. */
    method UndoPopped(key: Key, count: Option<Bytes>, front: bool, at: int) returns (log: seq<Cmd>, crash: bool)
      modifies this`data, this`ttlMap
      ensures S() == Swept(old(S()), key, at)
      ensures crash <==> UndoPanics(S(), if front then LPop(key, count) else RPop(key, count))
      ensures !crash ==> log == UndoPop(S(), key, count, front)
    {
      var e := GetEntity(key, at);
      log, crash := [], false;
      if e.None? || !e.value.List? || |e.value.vals| == 0 {
        return;
      }
      var l, n := e.value.vals, 1;
      if count.Some? {
        var parsed := ParseInt(count.value);
        if parsed.None? {
          return;
        }
        n := if parsed.value > |l| then |l| else parsed.value;
        if n < 0 || (!front && n == 0) {
          return [], true;
        }
      }
      if front {
        var elements := ReverseOf(l[..n]);
        log := [LPush(key, elements)];
      } else {
        log := [RPush(key, l[|l| - n..])];
      }
    }

    method UndoMoved(src: Key, dest: Key, at: int) returns (log: seq<Cmd>)
      modifies this`data, this`ttlMap
      ensures S() == Swept(old(S()), src, at) && log == UndoMove(S(), src, dest)
    {
      var e := GetEntity(src, at);
      if e.None? || !e.value.List? || |e.value.vals| == 0 {
        return [];
      }
      var l := e.value.vals;
      return [RPush(src, [l[|l| - 1]]), LPop(dest, None)];
    }

    method UndoLSet(key: Key, index: Bytes, value: Bytes, at: int, enc: Encoder) returns (log: seq<Cmd>)
      modifies this`data, this`ttlMap
      ensures S() == Swept(old(S()), key, at) && log == Undo(S(), LSet(key, index, value), enc)
    {
      var e := GetEntity(key, at);
      if e.None? || !e.value.List? {
        return [];
      }
      var i := Place(index, |e.value.vals|);
      if i.None? {
        return [];
      }
      return [LSet(key, index, e.value.vals[i.value])];
    }

    method GetUndoLogs(c: Cmd, at: int, enc: Encoder) returns (log: seq<Cmd>, crash: bool)
      modifies this`data, this`ttlMap
      ensures S() == SweptAll(old(S()), UndoReads(c), at) && crash == UndoPanics(S(), c)
      ensures !crash ==> log == Undo(S(), c, enc)
    {
      if OnKeys(c) || c.LRem? {
        log, crash := UndoOnKeys(c, at, enc);
      } else if OnLists(c) {
        log, crash := UndoOnLists(c, at, enc);
      } else {
        log := UndoOnCollections(c, at, enc);
        crash := false;
      }
    }

    method UndoOnKeys(c: Cmd, at: int, enc: Encoder) returns (log: seq<Cmd>, crash: bool)
      requires OnKeys(c) || c.LRem?
      modifies this`data, this`ttlMap
      ensures S() == SweptAll(old(S()), UndoReads(c), at) && crash == UndoPanics(S(), c)
      ensures !crash ==> log == Undo(S(), c, enc)
    {
      match c
      case SetCmd(key, _, _) => log, crash := RollbackFirstKey(key, at, enc);
      case Incr(key) => log, crash := RollbackFirstKey(key, at, enc);
      case Append(key, _) => log, crash := RollbackFirstKey(key, at, enc);
      case LRem(key, _, _) => log, crash := RollbackFirstKey(key, at, enc);
      case Del(keys) => log, crash := RollbackGivenKeys(keys, at, enc);
      case Rename(src, dest) => log, crash := RollbackGivenKeys([src, dest], at, enc);
      case Expire(key, _) => log, crash := [TtlCmd(S(), key)], false;
      case PExpire(key, _) => log, crash := [TtlCmd(S(), key)], false;
      case ExpireAt(key, _) => log, crash := [TtlCmd(S(), key)], false;
      case PExpireAt(key, _) => log, crash := [TtlCmd(S(), key)], false;
      case Persist(key) => log, crash := [TtlCmd(S(), key)], false;
    }

    method RollbackFirstKey(key: Key, at: int, enc: Encoder) returns (log: seq<Cmd>, crash: bool)
      modifies this`data, this`ttlMap
      ensures S() == SweptAll(old(S()), [key], at) && crash == Unwritable(S(), key)
      ensures !crash ==> log == RollbackKey(S(), key, enc)
    {
      log, crash := RollbackGivenKeys([key], at, enc);
      assert RollbackKeys(S(), [key], enc) == RollbackKey(S(), key, enc) + RollbackKeys(S(), [], enc);
    }

    method UndoOnLists(c: Cmd, at: int, enc: Encoder) returns (log: seq<Cmd>, crash: bool)
      requires OnLists(c) && !c.LRem?
      modifies this`data, this`ttlMap
      ensures S() == SweptAll(old(S()), UndoReads(c), at) && crash == UndoPanics(S(), c)
      ensures !crash ==> log == Undo(S(), c, enc)
    {
      crash := false;
      match c
      case LPush(key, values) => log := Repeated(LPop(key, None), |values|);
      case RPush(key, values) => log := Repeated(RPop(key, None), |values|);
      case LPop(key, count) =>
        SweptOne(S(), key, at);
        log, crash := UndoPopped(key, count, true, at);
      case RPop(key, count) =>
        SweptOne(S(), key, at);
        log, crash := UndoPopped(key, count, false, at);
      case RPopLPush(src, dest) =>
        SweptOne(S(), src, at);
        log := UndoMoved(src, dest, at);
      case LSet(key, index, value) =>
        SweptOne(S(), key, at);
        log := UndoLSet(key, index, value, at, enc);
    }

    method UndoOnCollections(c: Cmd, at: int, enc: Encoder) returns (log: seq<Cmd>)
      requires !OnKeys(c) && !OnLists(c)
      modifies this`data, this`ttlMap
      ensures S() == SweptAll(old(S()), UndoReads(c), at) && log == Undo(S(), c, enc)
    {
      SweptOne(S(), c.key, at);
      match c
      case HSet(key, field, _) => log := RollbackHashFields(key, [field], at);
      case HMSet(key, pairs, _) =>
        var names := NamesOf(pairs);
        log := RollbackHashFields(key, names, at);
      case HDel(key, names) => log := RollbackHashFields(key, names, at);
      case SAdd(key, names) => log := RollbackSetMembers(key, names, at);
      case SRem(key, names) => log := RollbackSetMembers(key, names, at);
      case ZAdd(key, scored, _) =>
        var names := ScoredNamesOf(scored);
        log := RollbackZSetFields(key, names, at);
      case ZIncrBy(key, _, member) => log := RollbackZSetFields(key, [member], at);
      case ZRem(key, names) => log := RollbackZSetFields(key, names, at);
    }

    /* ---- WATCH and EXEC ---- */

    method Watch(was: map<Key, Version>, keys: seq<Key>) returns (watching: map<Key, Version>)
      ensures forall k :: k in watching <==> k in was || k in keys
      ensures forall k :: k in watching ==> watching[k] == if k in keys then VersionOf(versionMap, k) else was[k]
    {
      watching := was;
      var i := 0;
      while i < |keys|
        invariant 0 <= i <= |keys| && forall k :: k in watching <==> k in was || k in keys[..i]
        invariant forall k :: k in watching ==> watching[k] == if k in keys[..i] then VersionOf(versionMap, k) else was[k]
      {
        watching := watching[keys[i] := VersionOf(versionMap, keys[i])];
        assert keys[..i + 1] == keys[..i] + [keys[i]];
        i := i + 1;
      }
      assert keys[..|keys|] == keys;
    }

    method IsWatchingChanged(watching: map<Key, Version>) returns (changed: bool)
      ensures changed == Changed(versionMap, watching)
      ensures changed <==> exists k :: k in watching && watching[k] != VersionOf(versionMap, k)
    {
      var keys := watching.Keys;
      while keys != {}
        invariant keys <= watching.Keys
        invariant forall k :: k in watching && k !in keys ==> watching[k] == VersionOf(versionMap, k)
        decreases keys
      {
        var k :| k in keys;
        if watching[k] != VersionOf(versionMap, k) {
          return true;
        }
        keys := keys - {k};
      }
      return false;
    }

    method RunLog(log: seq<Cmd>, now: int)
      modifies this`data, this`ttlMap
      ensures S() == RunAll(old(S()), log, now)
    {
      var i := 0;
      while i < |log|
        invariant 0 <= i <= |log| && RunAll(S(), log[i..], now) == RunAll(old(S()), log, now)
      {
        assert log[i..][1..] == log[i + 1..];
        var reply := Exec(log[i], now);
        i := i + 1;
      }
    }

    /** The rollback loop: the newest log first, each from head to tail. */
    method RollBack(logs: seq<seq<Cmd>>, now: int)
      modifies this`data, this`ttlMap
      ensures S() == RolledBack(old(S()), logs, now)
    {
      var i := |logs|;
      assert logs[..i] == logs;
      while i > 0
        invariant 0 <= i <= |logs| && RolledBack(S(), logs[..i], now) == RolledBack(old(S()), logs, now)
      {
        i := i - 1;
        assert logs[..i + 1][..i] == logs[..i];
        RunLog(logs[i], now);
      }
    }

    method ExecMulti(watching: map<Key, Version>, queue: seq<Entry>, enc: Encoder, now: int) returns (r: ExecReply)
      modifies this
      ensures Changed(old(versionMap), watching) ==> r == Unchanged && S() == old(S()) && versionMap == old(versionMap)
      ensures !Changed(old(versionMap), watching) ==>
                var v := ExecQueue(old(S()), queue, enc, now);
                S() == v.state && r == ExecReplyOf(v)
                && versionMap == if v.Committed? then Bumped(old(versionMap), AllWrites(queue)) else old(versionMap)
      ensures r == Discarded && ValidEncoder(enc) && Plain(old(S())) && Clean(old(S())) && Live(old(S()), now) && Timely(queue, now) ==>
                S() == State(old(data), old(ttlMap) - LostTtls(old(S()), queue))
    {
      var writeKeys := Prepare(queue);
      var changed := IsWatchingChanged(watching);
      if changed {
        return Unchanged;
      }
      ghost var s := S();
      r := ExecAll(queue, enc, now);
      if ValidEncoder(enc) && Plain(s) && Clean(s) && Live(s, now) && Timely(queue, now) {
        RollbackRestores(s, queue, enc, now);
      }
      if r.Done? {
        AddVersion(writeKeys);
      }
    }

    /** The two loops of ExecMulti. */
    method ExecAll(queue: seq<Entry>, enc: Encoder, now: int) returns (r: ExecReply)
      modifies this`data, this`ttlMap
      ensures var v := ExecQueue(old(S()), queue, enc, now); S() == v.state && r == ExecReplyOf(v)
    {
      var logs: seq<seq<Cmd>> := [];
      var i := 0;
      while i < |queue|
        invariant 0 <= i <= |queue|
        invariant ExecQueue(old(S()), queue, enc, now) == Resumed(ExecQueue(S(), queue[i..], enc, now), logs, now)
      {
        assert queue[i..][1..] == queue[i + 1..];
        var log, crash := GetUndoLogs(queue[i].cmd, queue[i].at, enc);
        if crash {
          return Broken;
        }
        var reply := Exec(queue[i].cmd, queue[i].at);
        if reply.Crash? {
          return Broken;
        }
        if reply.Error? {
          RollBack(logs, now);
          return Discarded;
        }
        ResumedPush(ExecQueue(S(), queue[i + 1..], enc, now), logs, log, now);
        logs := logs + [log];
        i := i + 1;
      }
      return Done;
    }
  }

  method Prepare(queue: seq<Entry>) returns (writeKeys: seq<Key>)
    ensures writeKeys == AllWrites(queue)
  {
    writeKeys := [];
    var i := 0;
    while i < |queue|
      invariant 0 <= i <= |queue| && writeKeys + AllWrites(queue[i..]) == AllWrites(queue)
    {
      assert queue[i..][1..] == queue[i + 1..];
      Associative(writeKeys, Writes(queue[i].cmd), AllWrites(queue[i + 1..]));
      writeKeys := writeKeys + Writes(queue[i].cmd);
      i := i + 1;
    }
  }

  lemma SweptOne(s: State, key: Key, at: int)
    ensures SweptAll(s, [key], at) == Swept(s, key, at)
  {
    assert [key][1..] == [];
  }

  method NamesOf(pairs: seq<(Bytes, Bytes)>) returns (names: seq<Bytes>)
    ensures names == Names(pairs)
  {
    names := [];
    var i := 0;
    while i < |pairs|
      invariant 0 <= i <= |pairs| && names + Names(pairs[i..]) == Names(pairs)
    {
      assert pairs[i..][1..] == pairs[i + 1..];
      names := names + [pairs[i].0];
      i := i + 1;
    }
  }

  method ScoredNamesOf(scored: seq<(Option<real>, Bytes)>) returns (names: seq<Bytes>)
    ensures names == ScoredNames(scored)
  {
    names := [];
    var i := 0;
    while i < |scored|
      invariant 0 <= i <= |scored| && names + ScoredNames(scored[i..]) == ScoredNames(scored)
    {
      assert scored[i..][1..] == scored[i + 1..];
      names := names + [scored[i].1];
      i := i + 1;
    }
  }

  /** The reply to EXEC: empty because a watched key changed, results, discarded, or no reply because of a panic. */
  datatype ExecReply = Unchanged | Done | Discarded | Broken

  function ExecReplyOf(v: Verdict): ExecReply {
    match v
    case Committed(_) => Done
    case Aborted(_) => Discarded
    case Crashed(_) => Broken
  }

  predicate Changed(versions: map<Key, Version>, watching: map<Key, Version>) {
    exists k :: k in watching && watching[k] != VersionOf(versions, k)
  }

  /** The keys the prepare function of a command announces for writing. */
  function Writes(c: Cmd): seq<Key> {
    match c
    case Del(keys) => keys
    case Rename(_, dest) => [dest]
    case RPopLPush(src, dest) => [src, dest]
    case _ => [c.key]
  }

  function AllWrites(queue: seq<Entry>): seq<Key> {
    if queue == [] then [] else Writes(queue[0].cmd) + AllWrites(queue[1..])
  }

  ghost function RolledBack(s: State, logs: seq<seq<Cmd>>, now: int): State
    decreases |logs|
  {
    if logs == [] then s else RolledBack(RunAll(s, logs[|logs| - 1], now), logs[..|logs| - 1], now)
  }

  /** What a verdict on the rest of the queue means for the whole, `logs` being taken so far. */
  ghost function Resumed(v: Verdict, logs: seq<seq<Cmd>>, now: int): Verdict {
    if v.Aborted? then Aborted(RolledBack(v.state, logs, now)) else v
  }

  lemma ResumedPush(v: Verdict, logs: seq<seq<Cmd>>, log: seq<Cmd>, now: int)
    ensures Resumed(v, logs + [log], now)
         == Resumed(if v.Aborted? then Aborted(RunAll(v.state, log, now)) else v, logs, now)
  {
    assert (logs + [log])[..|logs|] == logs;
  }

  lemma {:induction false} SameLog(s: State, t: State, keys: seq<Key>, enc: Encoder)
    requires forall j {:trigger keys[j]} :: 0 <= j < |keys| ==> Same(s, t, keys[j])
    ensures RollbackKeys(s, keys, enc) == RollbackKeys(t, keys, enc)
    decreases keys
  {
    if keys != [] {
      assert Same(s, t, keys[0]);
      assert forall j {:trigger keys[1..][j]} :: 0 <= j < |keys[1..]| ==> keys[1..][j] == keys[j + 1];
      SameLog(s, t, keys[1..], enc);
    }
  }

  lemma {:induction false} RollbackKeysAppend(s: State, a: seq<Key>, k: Key, enc: Encoder)
    ensures RollbackKeys(s, a + [k], enc) == RollbackKeys(s, a, enc) + RollbackKey(s, k, enc)
    decreases a
  {
    if a == [] {
      assert (a + [k])[1..] == [];
    } else {
      assert (a + [k])[1..] == a[1..] + [k];
      RollbackKeysAppend(s, a[1..], k, enc);
    }
  }

  lemma RollbackKeysSnoc(s: State, keys: seq<Key>, i: nat, enc: Encoder)
    requires i < |keys|
    ensures RollbackKeys(s, keys[..i + 1], enc) == RollbackKeys(s, keys[..i], enc) + RollbackKey(s, keys[i], enc)
  {
    assert keys[..i + 1] == keys[..i] + [keys[i]];
    RollbackKeysAppend(s, keys[..i], keys[i], enc);
  }

  method ReverseOf(l: seq<Bytes>) returns (r: seq<Bytes>)
    ensures r == Reversed(l)
  {
    r := [];
    var i := 0;
    while i < |l|
      invariant 0 <= i <= |l| && r == Reversed(l[..i])
    {
      assert l[..i + 1] == l[..i] + [l[i]];
      ReversedEnd(l[..i], l[i]);
      r := [l[i]] + r;
      i := i + 1;
    }
    assert l[..|l|] == l;
  }

  method Repeated(c: Cmd, n: nat) returns (log: seq<Cmd>)
    ensures log == Repeat(c, n)
  {
    log := [];
    var i := 0;
    while i < n
      invariant 0 <= i <= n && log + Repeat(c, n - i) == Repeat(c, n)
    {
      log := log + [c];
      i := i + 1;
    }
  }

  method ParseOptions(words: seq<Word>) returns (plan: SetPlan)
    ensures plan == ParseSet(words, Upsert, 0)
  {
    var policy, ttl, i := Upsert, 0, 0;
    assert words[0..] == words;
    while i < |words|
      invariant 0 <= i <= |words| && ParseSet(words[i..], policy, ttl) == ParseSet(words, Upsert, 0)
    {
      assert words[i..][1..] == words[i + 1..];
      match words[i] {
      case NX =>
        if policy.Update? {
          return BadSet;
        }
        policy := Insert;
      case XX =>
        if policy.Insert? {
          return BadSet;
        }
        policy := Update;
      case Other(_) =>
        return BadSet;
      case _ =>
        if ttl != 0 || i + 1 >= |words| || !words[i + 1].Other? || ParseInt(words[i + 1].arg).None? {
          return BadSet;
        }
        var n := ParseInt(words[i + 1].arg).value;
        if n <= 0 {
          return BadSet;
        }
        assert words[i..][2..] == words[i + 2..];
        ttl := n * if words[i].EX? then 1000 else 1;
        i := i + 1;
      }
      i := i + 1;
    }
    plan := SetPlan(policy, ttl);
  }
}
