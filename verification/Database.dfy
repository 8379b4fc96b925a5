/** database/: the state of one database and what a command does to it. */
module Databases {
  import opened Sequences
  import opened Numerals
  import opened QuickLists

  type Key = Bytes

  datatype Entity =
    | Str(val: Bytes)
    | List(vals: seq<Bytes>)
    | Hash(fields: map<Bytes, Bytes>)
    | Set(members: set<Bytes>)
    | ZSet(scores: map<Bytes, real>)

  /** `ttl` holds the time, in milliseconds, at which a key expires. */
  datatype State = State(data: map<Key, Entity>, ttl: map<Key, int>)

  /** The arguments of SET after the value: the option words in any case, or something else. */
  datatype Word = NX | XX | EX | PX | Other(arg: Bytes)

  /** A score argument: None if it is not a float. Left over arguments that do not make up a pair are `odd`. */
  datatype Cmd =
    | SetCmd(key: Key, value: Bytes, options: seq<Word>)
    | Del(keys: seq<Key>)
    | Rename(src: Key, dest: Key)
    | Expire(key: Key, arg: Bytes)
    | PExpire(key: Key, arg: Bytes)
    | ExpireAt(key: Key, arg: Bytes)
    | PExpireAt(key: Key, arg: Bytes)
    | Persist(key: Key)
    | Incr(key: Key)
    | Append(key: Key, value: Bytes)
    | LPush(key: Key, values: seq<Bytes>)
    | RPush(key: Key, values: seq<Bytes>)
    | LPop(key: Key, count: Option<Bytes>)
    | RPop(key: Key, count: Option<Bytes>)
    | RPopLPush(src: Key, dest: Key)
    | LSet(key: Key, index: Bytes, value: Bytes)
    | LRem(key: Key, number: Bytes, value: Bytes)
    | HSet(key: Key, field: Bytes, value: Bytes)
    | HMSet(key: Key, pairs: seq<(Bytes, Bytes)>, odd: bool)
    | HDel(key: Key, names: seq<Bytes>)
    | SAdd(key: Key, names: seq<Bytes>)
    | SRem(key: Key, names: seq<Bytes>)
    | ZAdd(key: Key, scored: seq<(Option<real>, Bytes)>, odd: bool)
    | ZIncrBy(key: Key, delta: Option<real>, member: Bytes)
    | ZRem(key: Key, names: seq<Bytes>)

  /** What becomes of the state: a reply that is no error, an error reply, or a panic. */
  datatype Outcome = Ok(state: State) | Err(state: State) | Panic(state: State)

  /* ---- Data access (database/database.go) ---- */

  predicate Expired(s: State, key: Key, now: int) {
    key in s.ttl && s.ttl[key] < now
  }

  function Remove(s: State, key: Key): State {
    State(s.data - {key}, s.ttl - {key})
  }

  /** GetEntity and IsExpired: looking at a key removes it if it has expired. */
  function Swept(s: State, key: Key, now: int): State {
    if key in s.data && Expired(s, key, now) then Remove(s, key) else s
  }

  function Put(s: State, key: Key, e: Entity): State {
    s.(data := s.data[key := e])
  }

  /** PutEntity, or Remove when the collection has become empty. */
  function PutOrRemove(s: State, key: Key, e: Entity): State {
    if IsEmpty(e) then Remove(s, key) else Put(s, key, e)
  }

  predicate IsEmpty(e: Entity) {
    match e
    case Str(_) => false
    case List(v) => |v| == 0
    case Hash(f) => |f| == 0
    case Set(m) => |m| == 0
    case ZSet(z) => |z| == 0
  }

  function SetTtl(s: State, key: Key, at: int): State {
    s.(ttl := s.ttl[key := at])
  }

  function ClearTtl(s: State, key: Key): State {
    s.(ttl := s.ttl - {key})
  }

  /** Removes: only keys that are there, and whether or not they have expired. */
  function Removes(s: State, keys: seq<Key>): State
    decreases keys
  {
    if keys == [] then s
    else Removes(if keys[0] in s.data then Remove(s, keys[0]) else s, keys[1..])
  }

  /* ---- Strings (database/string.go) ---- */

  datatype Policy = Upsert | Insert | Update

  datatype SetPlan = BadSet | SetPlan(policy: Policy, ttl: int)

  /** The option loop of execSet; a ttl of 0 stands for none. */
  function ParseSet(words: seq<Word>, policy: Policy, ttl: int): (p: SetPlan)
    decreases |words|, 1
  {
    if words == [] then SetPlan(policy, ttl)
    else match words[0]
      case NX => if policy.Update? then BadSet else ParseSet(words[1..], Insert, ttl)
      case XX => if policy.Insert? then BadSet else ParseSet(words[1..], Update, ttl)
      case Other(_) => BadSet
      case EX => ParseSetTtl(words, policy, ttl, 1000)
      case PX => ParseSetTtl(words, policy, ttl, 1)
  }

  function ParseSetTtl(words: seq<Word>, policy: Policy, ttl: int, unit: int): (p: SetPlan)
    requires words != []
    decreases |words|, 0
  {
    if ttl != 0 || |words| < 2 || !words[1].Other? then BadSet
    else match ParseInt(words[1].arg)
      case None => BadSet
      case Some(n) => if n <= 0 then BadSet else ParseSet(words[2..], policy, n * unit)
  }

  function ExecSet(s: State, key: Key, value: Bytes, options: seq<Word>, now: int): Outcome {
    match ParseSet(options, Upsert, 0)
    case BadSet => Err(s)
    case SetPlan(policy, ttl) =>
      var stores := policy.Upsert? || (policy.Insert? && key !in s.data) || (policy.Update? && key in s.data);
      if !stores then Ok(s)
      else
        var t := Put(s, key, Str(value));
        Ok(if ttl != 0 then SetTtl(t, key, now + ttl) else ClearTtl(t, key))
  }

  function ExecIncr(s0: State, key: Key, now: int): Outcome {
    var s := Swept(s0, key, now);
    if key !in s.data then Ok(Put(s, key, Str(FormatInt(1))))
    else if !s.data[key].Str? then Err(s)
    else match ParseInt(s.data[key].val)
      case None => Err(s)
      case Some(n) => Ok(Put(s, key, Str(FormatInt(Wrap64(n + 1)))))
  }

  function ExecAppend(s0: State, key: Key, value: Bytes, now: int): Outcome {
    var s := Swept(s0, key, now);
    if key !in s.data then Ok(Put(s, key, Str(value)))
    else if !s.data[key].Str? then Err(s)
    else Ok(Put(s, key, Str(s.data[key].val + value)))
  }

  /* ---- Keys (database/keys.go) ---- */

  function ExecRename(s0: State, src: Key, dest: Key, now: int): Outcome {
    var s := Swept(s0, src, now);
    if src !in s.data then Err(s)
    else
      var t := Remove(Put(s, dest, s.data[src]), src);
      Ok(if src in s.ttl then SetTtl(t, dest, s.ttl[src]) else t)
  }

  /** EXPIRE, PEXPIRE, EXPIREAT and PEXPIREAT; `at` is None if the argument is not an integer. */
  function ExecExpireAt(s0: State, key: Key, at: Option<int>, now: int): Outcome {
    match at
    case None => Err(s0)
    case Some(t) =>
      var s := Swept(s0, key, now);
      Ok(if key in s.data then SetTtl(s, key, t) else s)
  }

  function Scaled(arg: Bytes, base: int, unit: int): Option<int> {
    match ParseInt(arg)
    case None => None
    case Some(n) => Some(base + n * unit)
  }

  function ExpiryOf(c: Cmd, now: int): Option<int>
    requires c.Expire? || c.PExpire? || c.ExpireAt? || c.PExpireAt?
  {
    match c
    case Expire(_, arg) => Scaled(arg, now, 1000)
    case PExpire(_, arg) => Scaled(arg, now, 1)
    case ExpireAt(_, arg) => Scaled(arg, 0, 1000)
    case PExpireAt(_, arg) => Scaled(arg, 0, 1)
  }

  function ExecPersist(s0: State, key: Key, now: int): Outcome {
    var s := Swept(s0, key, now);
    Ok(if key in s.data then ClearTtl(s, key) else s)
  }

  /* ---- Lists (database/list.go) ---- */

  function PushFront(l: seq<Bytes>, values: seq<Bytes>): seq<Bytes>
    decreases values
  {
    if values == [] then l else PushFront([values[0]] + l, values[1..])
  }

  function ExecPush(s0: State, key: Key, values: seq<Bytes>, front: bool, now: int): Outcome {
    var s := Swept(s0, key, now);
    if values == [] then Err(s0)
    else if key in s.data && !s.data[key].List? then Err(s)
    else
      var l := if key in s.data then s.data[key].vals else [];
      Ok(Put(s, key, List(if front then PushFront(l, values) else l + values)))
  }

  /** How many elements a pop takes off a list of `size`; None if the count is no integer. */
  function PopCount(count: Option<Bytes>, size: nat): Option<int> {
    match count
    case None => Some(1)
    case Some(arg) =>
      match ParseInt(arg)
      case None => None
      case Some(n) => Some(if n > size then size else n)
  }

  /** A negative count panics, and so does LPOP on an empty list. */
  function ExecPop(s0: State, key: Key, count: Option<Bytes>, front: bool, now: int): Outcome {
    var s := Swept(s0, key, now);
    if key !in s.data then Ok(s)
    else if !s.data[key].List? then Err(s)
    else
      var l := s.data[key].vals;
      match PopCount(count, |l|)
      case None => Err(s)
      case Some(n) =>
        if n < 0 || (front && n > |l|) then Panic(s)
        else if n > |l| then Ok(Remove(s, key))
        else Ok(PutOrRemove(s, key, List(if front then l[n..] else l[..|l| - n])))
  }

  function ExecRPopLPush(s0: State, src: Key, dest: Key, now: int): Outcome {
    var s1 := Swept(s0, src, now);
    if src !in s1.data then Ok(s1)
    else if !s1.data[src].List? then Err(s1)
    else
      var s := Swept(s1, dest, now);
      if dest in s.data && !s.data[dest].List? then Err(s)
      else
        var l := s1.data[src].vals;
        var (x, rest) := if l == [] then ([], []) else (l[|l| - 1], l[..|l| - 1]);
        if src == dest then Ok(Put(s, src, List([x] + rest)))
        else
          var t := Put(s, dest, List([x] + (if dest in s.data then s.data[dest].vals else [])));
          Ok(PutOrRemove(t, src, List(rest)))
  }

  /** The place an LSET index means in a list of `size`, None if it is out of range. */
  function Place(index: Bytes, size: nat): Option<nat> {
    match ParseInt(index)
    case None => None
    case Some(i) => if 0 <= i < size then Some(i) else if 0 - size as int <= i < 0 then Some(size + i) else None
  }

  function ExecLSet(s0: State, key: Key, index: Bytes, value: Bytes, now: int): Outcome {
    var s := Swept(s0, key, now);
    if key !in s.data || !s.data[key].List? then Err(s)
    else match Place(index, |s.data[key].vals|)
      case None => Err(s)
      case Some(i) => Ok(Put(s, key, List(s.data[key].vals[i := value])))
  }

  /** LREM: the first, the last, or all of the elements equal to `value`, as the list's own methods drop them. */
  function Dropped(l: seq<Bytes>, value: Bytes, n: int): seq<Bytes> {
    if n >= 0 then DropFirst(l, x => x == value, n) else DropLast(l, x => x == value, -n)
  }

  function ExecLRem(s0: State, key: Key, number: Bytes, value: Bytes, now: int): Outcome {
    match ParseInt(number)
    case None => Err(s0)
    case Some(n) =>
      var s := Swept(s0, key, now);
      if key !in s.data then Ok(s)
      else if !s.data[key].List? then Err(s)
      else
        var l := s.data[key].vals;
        if n == 0 && l == [] then Panic(s)
        else Ok(PutOrRemove(s, key, List(Dropped(l, value, n))))
  }

  /* ---- Hashes (database/hash.go) ---- */

  function PutFields(h: map<Bytes, Bytes>, pairs: seq<(Bytes, Bytes)>): map<Bytes, Bytes>
    decreases pairs
  {
    if pairs == [] then h else PutFields(h[pairs[0].0 := pairs[0].1], pairs[1..])
  }

  function ExecHMSet(s0: State, key: Key, pairs: seq<(Bytes, Bytes)>, odd: bool, now: int): Outcome {
    if pairs == [] || odd then Err(s0)
    else
      var s := Swept(s0, key, now);
      if key in s.data && !s.data[key].Hash? then Err(s)
      else Ok(Put(s, key, Hash(PutFields(if key in s.data then s.data[key].fields else map[], pairs))))
  }

  function AsSet(names: seq<Bytes>): set<Bytes> {
    set n | n in names
  }

  function ExecHDel(s0: State, key: Key, names: seq<Bytes>, now: int): Outcome {
    var s := Swept(s0, key, now);
    if names == [] then Err(s0)
    else if key !in s.data then Ok(s)
    else if !s.data[key].Hash? then Err(s)
    else Ok(PutOrRemove(s, key, Hash(s.data[key].fields - AsSet(names))))
  }

  /* ---- Sets (database/set.go) ---- */

  function ExecSAdd(s0: State, key: Key, names: seq<Bytes>, now: int): Outcome {
    var s := Swept(s0, key, now);
    if names == [] then Err(s0)
    else if key in s.data && !s.data[key].Set? then Err(s)
    else Ok(Put(s, key, Set((if key in s.data then s.data[key].members else {}) + AsSet(names))))
  }

  function ExecSRem(s0: State, key: Key, names: seq<Bytes>, now: int): Outcome {
    var s := Swept(s0, key, now);
    if names == [] then Err(s0)
    else if key !in s.data then Ok(s)
    else if !s.data[key].Set? then Err(s)
    else Ok(PutOrRemove(s, key, Set(s.data[key].members - AsSet(names))))
  }

  /* ---- Sorted sets (database/sortedset.go) ---- */

  function PutScores(z: map<Bytes, real>, scored: seq<(Option<real>, Bytes)>): map<Bytes, real>
    requires forall i :: 0 <= i < |scored| ==> scored[i].0.Some?
    decreases scored
  {
    if scored == [] then z else PutScores(z[scored[0].1 := scored[0].0.value], scored[1..])
  }

  function ExecZAdd(s0: State, key: Key, scored: seq<(Option<real>, Bytes)>, odd: bool, now: int): Outcome {
    if scored == [] || odd || !(forall i :: 0 <= i < |scored| ==> scored[i].0.Some?) then Err(s0)
    else
      var s := Swept(s0, key, now);
      if key in s.data && !s.data[key].ZSet? then Err(s)
      else Ok(Put(s, key, ZSet(PutScores(if key in s.data then s.data[key].scores else map[], scored))))
  }

  function ExecZIncrBy(s0: State, key: Key, delta: Option<real>, member: Bytes, now: int): Outcome {
    match delta
    case None => Err(s0)
    case Some(d) =>
      var s := Swept(s0, key, now);
      if key in s.data && !s.data[key].ZSet? then Err(s)
      else
        var z := if key in s.data then s.data[key].scores else map[];
        Ok(Put(s, key, ZSet(z[member := (if member in z then z[member] + d else d)])))
  }

  /** An emptied sorted set stays. */
  function ExecZRem(s0: State, key: Key, names: seq<Bytes>, now: int): Outcome {
    var s := Swept(s0, key, now);
    if names == [] then Err(s0)
    else if key !in s.data then Ok(s)
    else if !s.data[key].ZSet? then Err(s)
    else Ok(Put(s, key, ZSet(s.data[key].scores - AsSet(names))))
  }

  /** execWithLock. */
  function Step(s: State, c: Cmd, now: int): (o: Outcome) {
    match c
    case SetCmd(key, value, options) => ExecSet(s, key, value, options, now)
    case Del(keys) => if keys == [] then Err(s) else Ok(Removes(s, keys))
    case Rename(src, dest) => ExecRename(s, src, dest, now)
    case Expire(key, _) => ExecExpireAt(s, key, ExpiryOf(c, now), now)
    case PExpire(key, _) => ExecExpireAt(s, key, ExpiryOf(c, now), now)
    case ExpireAt(key, _) => ExecExpireAt(s, key, ExpiryOf(c, now), now)
    case PExpireAt(key, _) => ExecExpireAt(s, key, ExpiryOf(c, now), now)
    case Persist(key) => ExecPersist(s, key, now)
    case Incr(key) => ExecIncr(s, key, now)
    case Append(key, value) => ExecAppend(s, key, value, now)
    case LPush(key, values) => ExecPush(s, key, values, true, now)
    case RPush(key, values) => ExecPush(s, key, values, false, now)
    case LPop(key, count) => ExecPop(s, key, count, true, now)
    case RPop(key, count) => ExecPop(s, key, count, false, now)
    case RPopLPush(src, dest) => ExecRPopLPush(s, src, dest, now)
    case LSet(key, index, value) => ExecLSet(s, key, index, value, now)
    case LRem(key, number, value) => ExecLRem(s, key, number, value, now)
    case HSet(key, field, value) => ExecHMSet(s, key, [(field, value)], false, now)
    case HMSet(key, pairs, odd) => ExecHMSet(s, key, pairs, odd, now)
    case HDel(key, names) => ExecHDel(s, key, names, now)
    case SAdd(key, names) => ExecSAdd(s, key, names, now)
    case SRem(key, names) => ExecSRem(s, key, names, now)
    case ZAdd(key, scored, odd) => ExecZAdd(s, key, scored, odd, now)
    case ZIncrBy(key, delta, member) => ExecZIncrBy(s, key, delta, member, now)
    case ZRem(key, names) => ExecZRem(s, key, names, now)
  }

  /* ---- Families of commands ---- */

  predicate OnKeys(c: Cmd) {
    c.SetCmd? || c.Del? || c.Rename? || c.Expire? || c.PExpire? || c.ExpireAt? || c.PExpireAt? || c.Persist? || c.Incr? || c.Append?
  }

  predicate OnLists(c: Cmd) {
    c.LPush? || c.RPush? || c.LPop? || c.RPop? || c.RPopLPush? || c.LSet? || c.LRem?
  }

  /* ---- Invariants ---- */

  /** No recorded expiry has passed, and each is a time that can be written down. */
  ghost predicate Live(s: State, now: int) {
    forall k {:trigger s.ttl[k]} {:trigger k in s.ttl} :: k in s.ttl ==> now <= s.ttl[k] && IsInt64(s.ttl[k])
  }

  /** Only keys that are there have an expiry. */
  ghost predicate Clean(s: State) {
    forall k {:trigger k in s.ttl} :: k in s.ttl ==> k in s.data
  }
}
