/** database/: what a reader finds after each command, and what becomes of the other keys. */
module Effects {
  import opened Sequences
  import opened Numerals
  import opened QuickLists
  import opened Databases
  import opened Undoing

  /** What looking a key up finds: nothing if the recorded expiry has passed. */
  ghost function Found(s: State, key: Key, at: int): Option<Entity> {
    if key in s.data && (key in s.ttl ==> at <= s.ttl[key]) then Some(s.data[key]) else None
  }

  /** The expiry that looking the key up leaves behind. */
  ghost function Expiry(s: State, key: Key, at: int): Option<int> {
    if key in s.ttl && (key in s.data ==> at <= s.ttl[key]) then Some(s.ttl[key]) else None
  }

  /** The key has this entity and this expiry now, and every other key is as it was. */
  ghost predicate Leaves(t: State, s: State, key: Key, e: Option<Entity>, expiry: Option<int>) {
    && (if e.Some? then key in t.data && t.data[key] == e.value else key !in t.data)
    && (if expiry.Some? then key in t.ttl && t.ttl[key] == expiry.value else key !in t.ttl)
    && forall x {:trigger Same(t, s, x)} :: x != key ==> Same(t, s, x)
  }

  /** An error reply; nothing but an expired key has gone. */
  ghost predicate Refuses(o: Outcome, s: State, key: Key, at: int) {
    o.Err? && Leaves(o.state, s, key, Found(s, key, at), Expiry(s, key, at))
  }

  /** The entity is changed, and its expiry is kept. */
  ghost predicate Stores(o: Outcome, s: State, key: Key, at: int, e: Entity) {
    o.Ok? && Leaves(o.state, s, key, Some(e), Expiry(s, key, at))
  }

  /** A reply that is no error; nothing but an expired key has gone. */
  ghost predicate Passes(o: Outcome, s: State, key: Key, at: int) {
    o.Ok? && Leaves(o.state, s, key, Found(s, key, at), Expiry(s, key, at))
  }

  /** The key is gone, and its expiry with it. */
  ghost predicate Deletes(o: Outcome, s: State, key: Key) {
    o.Ok? && Leaves(o.state, s, key, None, None)
  }

  lemma SweptLeaves(s: State, key: Key, at: int)
    ensures Leaves(Swept(s, key, at), s, key, Found(s, key, at), Expiry(s, key, at))
    ensures forall e {:trigger Put(Swept(s, key, at), key, e)} :: Leaves(Put(Swept(s, key, at), key, e), s, key, Some(e), Expiry(s, key, at))
    ensures Leaves(Remove(Swept(s, key, at), key), s, key, None, None)
  {
  }

  /* ---- Strings ---- */

  /** The number behind INCR. */
  function Next64(n: int): int {
    if n == 0x7fff_ffff_ffff_ffff then -0x8000_0000_0000_0000 else n + 1
  }

  lemma Wraps(v: Bytes)
    ensures FormatInt(1) == [49]
    ensures ParseInt(v).Some? ==> ParseInt(FormatInt(Wrap64(ParseInt(v).value + 1))) == Some(Next64(ParseInt(v).value))
  {
    if ParseInt(v).Some? {
      var n := ParseInt(v).value;
      assert IsInt64(n);
      assert Wrap64(n + 1) == Next64(n);
      ParseFormat(Wrap64(n + 1));
    }
  }

  /** The string holds this number. */
  ghost predicate Reads(e: Entity, n: int) {
    e.Str? && ParseInt(e.val) == Some(n)
  }

  lemma IncrIs(s: State, key: Key, at: int)
    ensures var o, t := Step(s, Incr(key), at), Swept(s, key, at);
            match Found(s, key, at)
            case None => o == Ok(Put(t, key, Str(FormatInt(1))))
            case Some(e) =>
              if !e.Str? || ParseInt(e.val).None? then o == Err(t) else o == Ok(Put(t, key, Str(FormatInt(Wrap64(ParseInt(e.val).value + 1)))))
  {
  }

  /** INCR: the number read back is one more, modulo 2^64; 1 if there was none. */
  lemma IncrMeans(s: State, key: Key, at: int)
    ensures var o := Step(s, Incr(key), at);
            match Found(s, key, at)
            case None => Stores(o, s, key, at, Str([49]))
            case Some(e) =>
              if !e.Str? || ParseInt(e.val).None? then Refuses(o, s, key, at)
              else exists r :: Stores(o, s, key, at, r) && Reads(r, Next64(ParseInt(e.val).value))
  {
    IncrIs(s, key, at);
    SweptLeaves(s, key, at);
    var e := Found(s, key, at);
    if e.Some? && e.value.Str? && ParseInt(e.value.val).Some? {
      IncrReads(s, key, e.value.val, at);
    } else {
      Wraps([]);
    }
  }

  lemma IncrReads(s: State, key: Key, v: Bytes, at: int)
    requires Found(s, key, at) == Some(Str(v)) && ParseInt(v).Some?
    ensures exists r :: Stores(Step(s, Incr(key), at), s, key, at, r) && Reads(r, Next64(ParseInt(v).value))
  {
    IncrIs(s, key, at);
    SweptLeaves(s, key, at);
    Wraps(v);
    var r := Str(FormatInt(Wrap64(ParseInt(v).value + 1)));
    assert Stores(Step(s, Incr(key), at), s, key, at, r) && Reads(r, Next64(ParseInt(v).value));
  }

  /** APPEND: the argument comes behind what was there. */
  lemma AppendMeans(s: State, key: Key, value: Bytes, at: int)
    ensures var o := Step(s, Append(key, value), at);
            match Found(s, key, at)
            case None => Stores(o, s, key, at, Str(value))
            case Some(e) =>
              if !e.Str? then Refuses(o, s, key, at)
              else exists r :: Stores(o, s, key, at, Str(r)) && |r| == |e.val| + |value| && r[..|e.val|] == e.val && r[|e.val|..] == value
  {
    SweptLeaves(s, key, at);
    var e := Found(s, key, at);
    if e.Some? && e.value.Str? {
      var r := e.value.val + value;
      assert Step(s, Append(key, value), at) == Ok(Put(Swept(s, key, at), key, Str(r)));
      assert Stores(Step(s, Append(key, value), at), s, key, at, Str(r));
    }
  }

  /* ---- SET and its options ---- */

  datatype Item = Nx | Xx | Ex(n: int) | Px(n: int)

  /** The words are these options, one after the other. */
  ghost predicate Spells(words: seq<Word>, items: seq<Item>)
    decreases items
  {
    if items == [] then words == []
    else match items[0]
      case Nx => words != [] && words[0] == NX && Spells(words[1..], items[1..])
      case Xx => words != [] && words[0] == XX && Spells(words[1..], items[1..])
      case Ex(n) => |words| >= 2 && words[0] == EX && Counts(words[1], n) && Spells(words[2..], items[1..])
      case Px(n) => |words| >= 2 && words[0] == PX && Counts(words[1], n) && Spells(words[2..], items[1..])
  }

  ghost predicate Counts(w: Word, n: int) {
    w.Other? && ParseInt(w.arg) == Some(n) && n > 0
  }

  function Times(items: seq<Item>): nat {
    if items == [] then 0 else (if items[0].Ex? || items[0].Px? then 1 else 0) + Times(items[1..])
  }

  /** The time to live of the first EX or PX. */
  function Milliseconds(items: seq<Item>): int {
    if items == [] then 0
    else match items[0]
      case Ex(n) => 1000 * n
      case Px(n) => n
      case _ => Milliseconds(items[1..])
  }

  /** NX and XX exclude each other, and there is one expiry at most. */
  ghost predicate Clash(items: seq<Item>) {
    (Nx in items && Xx in items) || Times(items) > 1
  }

  /** What reading the options comes to, if this was read before. */
  ghost function Plan(items: seq<Item>, policy: Policy, ttl: int): SetPlan {
    var nx, xx := policy.Insert? || Nx in items, policy.Update? || Xx in items;
    if (nx && xx) || Times(items) + (if ttl != 0 then 1 else 0) > 1 then BadSet
    else SetPlan(if nx then Insert else if xx then Update else Upsert, if ttl != 0 then ttl else Milliseconds(items))
  }

  lemma PlanFirst(items: seq<Item>)
    requires items != []
    ensures Nx in items <==> items[0] == Nx || Nx in items[1..]
    ensures Xx in items <==> items[0] == Xx || Xx in items[1..]
  {
    assert items == [items[0]] + items[1..];
  }

  lemma {:induction false} NoTimes(items: seq<Item>)
    ensures Times(items) == 0 ==> Milliseconds(items) == 0
  {
    if items != [] {
      NoTimes(items[1..]);
    }
  }

  lemma {:induction false} OptionsMean(words: seq<Word>, items: seq<Item>, policy: Policy, ttl: int)
    requires Spells(words, items)
    ensures ParseSet(words, policy, ttl) == Plan(items, policy, ttl)
    decreases items
  {
    if items != [] {
      PlanFirst(items);
      NoTimes(items[1..]);
      match items[0]
      case Nx => OptionsMean(words[1..], items[1..], Insert, ttl);
      case Xx => OptionsMean(words[1..], items[1..], Update, ttl);
      case Ex(n) => OptionsMean(words[2..], items[1..], policy, 1000 * n);
      case Px(n) => OptionsMean(words[2..], items[1..], policy, n);
    }
  }

  /** Words that are accepted spell some options. */
  lemma {:induction false} OptionsSpelled(words: seq<Word>, policy: Policy, ttl: int) returns (items: seq<Item>)
    requires ParseSet(words, policy, ttl) != BadSet
    ensures Spells(words, items)
    decreases |words|
  {
    if words == [] {
      items := [];
    } else {
      var rest: seq<Item>, first: Item;
      match words[0] {
        case NX =>
          rest := OptionsSpelled(words[1..], Insert, ttl);
          first := Nx;
        case XX =>
          rest := OptionsSpelled(words[1..], Update, ttl);
          first := Xx;
        case EX =>
          var n := ParseInt(words[1].arg).value;
          rest := OptionsSpelled(words[2..], policy, n * 1000);
          first := Ex(n);
        case PX =>
          var n := ParseInt(words[1].arg).value;
          rest := OptionsSpelled(words[2..], policy, n * 1);
          first := Px(n);
      }
      items := [first] + rest;
      assert items[1..] == rest;
    }
  }

  /** SET: NX stores an absent key only, XX a present one; EX counts seconds and PX milliseconds from now, and without them an expiry is removed. */
  lemma SetMeans(s: State, key: Key, value: Bytes, words: seq<Word>, items: seq<Item>, at: int)
    requires Spells(words, items)
    ensures var o := Step(s, SetCmd(key, value, words), at);
            if Clash(items) then o == Err(s)
            else if (Nx in items && key in s.data) || (Xx in items && key !in s.data) then o == Ok(s)
            else o.Ok? && Leaves(o.state, s, key, Some(Str(value)), if Times(items) == 0 then None else Some(at + Milliseconds(items)))
  {
    OptionsMean(words, items, Upsert, 0);
    NoTimes(items);
    SomeTimes(words, items);
  }

  lemma {:induction false} SomeTimes(words: seq<Word>, items: seq<Item>)
    requires Spells(words, items)
    ensures Times(items) > 0 ==> Milliseconds(items) > 0
    decreases items
  {
    if items != [] {
      match items[0]
      case Nx => SomeTimes(words[1..], items[1..]);
      case Xx => SomeTimes(words[1..], items[1..]);
      case _ =>
    }
  }

  /** Other words are refused. */
  lemma SetRefuses(s: State, key: Key, value: Bytes, words: seq<Word>, at: int)
    requires !exists items :: Spells(words, items)
    ensures Step(s, SetCmd(key, value, words), at) == Err(s)
  {
    if ParseSet(words, Upsert, 0) != BadSet {
      var items := OptionsSpelled(words, Upsert, 0);
    }
  }

  /* ---- Keys ---- */

  /** DEL removes exactly the keys that are there, with their expiries. */
  lemma {:induction false} RemovesMeans(s: State, keys: seq<Key>, x: Key)
    ensures var t := Removes(s, keys); if x in keys && x in s.data then x !in t.data && x !in t.ttl else Same(t, s, x)
    decreases keys
  {
    if keys != [] {
      var t := if keys[0] in s.data then Remove(s, keys[0]) else s;
      RemovesMeans(t, keys[1..], x);
      assert x in keys <==> x == keys[0] || x in keys[1..];
      assert x != keys[0] ==> Same(t, s, x);
    }
  }

  lemma DelMeans(s: State, keys: seq<Key>, at: int)
    ensures var o := Step(s, Del(keys), at);
            if keys == [] then o == Err(s)
            else o.Ok? && forall x {:trigger Same(o.state, s, x)} ::
                   if x in keys && x in s.data then x !in o.state.data && x !in o.state.ttl else Same(o.state, s, x)
  {
    if keys != [] {
      var t := Removes(s, keys);
      forall x ensures if x in keys && x in s.data then x !in t.data && x !in t.ttl else Same(t, s, x) {
        RemovesMeans(s, keys, x);
      }
    }
  }

  /** RENAME to another key: the entity moves, with its expiry; a destination keeps its own expiry if there is none to move. */
  lemma RenameMeans(s: State, src: Key, dest: Key, at: int)
    requires src != dest
    ensures var o := Step(s, Rename(src, dest), at);
            match Found(s, src, at)
            case None => Refuses(o, s, src, at)
            case Some(e) =>
              var t := o.state;
              && o.Ok? && src !in t.data && src !in t.ttl && dest in t.data && t.data[dest] == e
              && (if src in s.ttl then dest in t.ttl && t.ttl[dest] == s.ttl[src]
                  else (dest in t.ttl <==> dest in s.ttl) && (dest in s.ttl ==> t.ttl[dest] == s.ttl[dest]))
              && forall x {:trigger Same(t, s, x)} :: x != src && x != dest ==> Same(t, s, x)
  {
    SweptLeaves(s, src, at);
  }

  /** The four expiry commands: seconds or milliseconds, from now or from the epoch. */
  lemma ExpireMeans(s: State, key: Key, arg: Bytes, at: int)
    ensures ParseInt(arg).None? ==> forall c :: c in {Expire(key, arg), PExpire(key, arg), ExpireAt(key, arg), PExpireAt(key, arg)} ==> Step(s, c, at) == Err(s)
    ensures ParseInt(arg).Some? ==>
              var n := ParseInt(arg).value;
              && Timed(Step(s, Expire(key, arg), at), s, key, at, at + 1000 * n)
              && Timed(Step(s, PExpire(key, arg), at), s, key, at, at + n)
              && Timed(Step(s, ExpireAt(key, arg), at), s, key, at, 1000 * n)
              && Timed(Step(s, PExpireAt(key, arg), at), s, key, at, n)
  {
    SweptLeaves(s, key, at);
    if ParseInt(arg).Some? {
      var n := ParseInt(arg).value;
      TimedAt(s, key, at, at + 1000 * n);
      TimedAt(s, key, at, at + n);
      TimedAt(s, key, at, 1000 * n);
      TimedAt(s, key, at, n);
    }
  }

  /** A key that is there has this expiry now. */
  ghost predicate Timed(o: Outcome, s: State, key: Key, at: int, when: int) {
    o.Ok? && Leaves(o.state, s, key, Found(s, key, at), if Found(s, key, at).Some? then Some(when) else Expiry(s, key, at))
  }

  lemma TimedAt(s: State, key: Key, at: int, when: int)
    ensures Timed(ExecExpireAt(s, key, Some(when), at), s, key, at, when)
  {
    SweptLeaves(s, key, at);
  }

  lemma PersistMeans(s: State, key: Key, at: int)
    ensures var o := Step(s, Persist(key), at);
            o.Ok? && Leaves(o.state, s, key, Found(s, key, at), if Found(s, key, at).Some? then None else Expiry(s, key, at))
  {
    SweptLeaves(s, key, at);
  }

  /** RENAME of a key to itself deletes it, and leaves its expiry behind. */
  lemma RenameSelfMeans(s: State, key: Key, at: int)
    ensures var o := Step(s, Rename(key, key), at);
            if Found(s, key, at).None? then Refuses(o, s, key, at) else o.Ok? && Leaves(o.state, s, key, None, Expiry(s, key, at))
  {
    SweptLeaves(s, key, at);
  }

  /* ---- Lists ---- */

  /** The list looked up; a missing key counts as an empty one. */
  ghost function ListOf(e: Option<Entity>): Option<seq<Bytes>> {
    match e
    case None => Some([])
    case Some(List(l)) => Some(l)
    case _ => None
  }

  /** LPUSH and RPUSH: one value after the other goes to that end. */
  lemma PushMeans(s: State, key: Key, values: seq<Bytes>, at: int)
    ensures var l, a, b := ListOf(Found(s, key, at)), Step(s, LPush(key, values), at), Step(s, RPush(key, values), at);
            if values == [] then a == b == Err(s)
            else if l.None? then Refuses(a, s, key, at) && Refuses(b, s, key, at)
            else Stores(a, s, key, at, List(Reversed(values) + l.value)) && Stores(b, s, key, at, List(l.value + values))
  {
    SweptLeaves(s, key, at);
    var l := ListOf(Found(s, key, at));
    if l.Some? {
      PushFrontIs(l.value, values);
    }
  }

  /** How many elements a pop is to take: one if no count is given, at most all of them otherwise. */
  ghost function Takes(count: Option<Bytes>, size: nat): Option<int> {
    if count.None? then Some(1)
    else if ParseInt(count.value).None? then None
    else if ParseInt(count.value).value <= size then ParseInt(count.value) else Some(size)
  }

  /** The executor panics; nothing but an expired key has gone. */
  ghost predicate Fails(o: Outcome, s: State, key: Key, at: int) {
    o.Panic? && Leaves(o.state, s, key, Found(s, key, at), Expiry(s, key, at))
  }

  /** What is left of a list goes back under its key; the key goes when that is nothing. */
  ghost predicate Shrinks(o: Outcome, s: State, key: Key, at: int, rest: seq<Bytes>) {
    if rest == [] then Deletes(o, s, key) else Stores(o, s, key, at, List(rest))
  }

  lemma PopMeans(s: State, key: Key, count: Option<Bytes>, at: int)
    ensures var e, a, b := Found(s, key, at), Step(s, LPop(key, count), at), Step(s, RPop(key, count), at);
            if e.None? then Passes(a, s, key, at) && Passes(b, s, key, at)
            else if !e.value.List? || Takes(count, |e.value.vals|).None? then Refuses(a, s, key, at) && Refuses(b, s, key, at)
            else
              var l, n := e.value.vals, Takes(count, |e.value.vals|).value;
              if n < 0 then Fails(a, s, key, at) && Fails(b, s, key, at)
              else if n > |l| then Fails(a, s, key, at) && Deletes(b, s, key)
              else Shrinks(a, s, key, at, l[n..]) && Shrinks(b, s, key, at, l[..|l| - n])
  {
    SweptLeaves(s, key, at);
    PopEnd(s, key, count, true, at);
    PopEnd(s, key, count, false, at);
  }

  lemma PopEnd(s: State, key: Key, count: Option<Bytes>, front: bool, at: int)
    ensures var e, o := Found(s, key, at), ExecPop(s, key, count, front, at);
            if e.None? then Passes(o, s, key, at)
            else if !e.value.List? || Takes(count, |e.value.vals|).None? then Refuses(o, s, key, at)
            else
              var l, n := e.value.vals, Takes(count, |e.value.vals|).value;
              if n < 0 || (front && n > |l|) then Fails(o, s, key, at)
              else if n > |l| then Deletes(o, s, key)
              else Shrinks(o, s, key, at, if front then l[n..] else l[..|l| - n])
  {
    SweptLeaves(s, key, at);
  }

  /** Two keys have these entities and expiries now, and every other key is as it was. */
  ghost predicate LeavesBoth(t: State, s: State, a: Key, e: Option<Entity>, x: Option<int>, b: Key, f: Option<Entity>, y: Option<int>) {
    && (if e.Some? then a in t.data && t.data[a] == e.value else a !in t.data)
    && (if x.Some? then a in t.ttl && t.ttl[a] == x.value else a !in t.ttl)
    && (if f.Some? then b in t.data && t.data[b] == f.value else b !in t.data)
    && (if y.Some? then b in t.ttl && t.ttl[b] == y.value else b !in t.ttl)
    && forall k {:trigger Same(t, s, k)} :: k != a && k != b ==> Same(t, s, k)
  }

  /** The state after both lookups. */
  lemma LooksBoth(s: State, src: Key, dest: Key, at: int)
    requires src != dest
    ensures LeavesBoth(Swept(Swept(s, src, at), dest, at), s, src, Found(s, src, at), Expiry(s, src, at), dest, Found(s, dest, at), Expiry(s, dest, at))
  {
    var t := Swept(s, src, at);
    SweptLeaves(s, src, at);
    SweptLeaves(t, dest, at);
    assert Same(t, s, dest) && Same(Swept(t, dest, at), t, src);
    forall k | k != src && k != dest ensures Same(Swept(t, dest, at), s, k) {
      assert Same(t, s, k) && Same(Swept(t, dest, at), t, k);
    }
  }

  /** One of two keys is stored, and what is left of the other. */
  lemma StoresBoth(t: State, s: State, src: Key, a: Option<Entity>, x: Option<int>, dest: Key, b: Option<Entity>, y: Option<int>, e: Entity, f: Entity)
    requires src != dest && LeavesBoth(t, s, src, a, x, dest, b, y)
    ensures LeavesBoth(PutOrRemove(Put(t, dest, e), src, f), s,
                       src, if IsEmpty(f) then None else Some(f), if IsEmpty(f) then None else x, dest, Some(e), y)
  {
    var u := PutOrRemove(Put(t, dest, e), src, f);
    forall k | k != src && k != dest ensures Same(u, s, k) {
      assert Same(t, s, k);
    }
  }

  lemma MoveIs(s: State, src: Key, dest: Key, at: int)
    requires src != dest && Found(s, src, at).Some? && Found(s, src, at).value.List?
    ensures var l, d, o, t := Found(s, src, at).value.vals, ListOf(Found(s, dest, at)), Step(s, RPopLPush(src, dest), at), Swept(Swept(s, src, at), dest, at);
            if d.None? then o == Err(t)
            else
              var (x, rest) := if l == [] then ([], []) else (l[|l| - 1], l[..|l| - 1]);
              o == Ok(PutOrRemove(Put(t, dest, List([x] + d.value)), src, List(rest)))
  {
  }

  /** RPOPLPUSH: the last element of one list becomes the first of another; an emptied source goes. */
  lemma MoveMeans(s: State, src: Key, dest: Key, at: int)
    requires src != dest
    ensures var e, d, o := Found(s, src, at), ListOf(Found(s, dest, at)), Step(s, RPopLPush(src, dest), at);
            if e.None? then Passes(o, s, src, at)
            else if !e.value.List? then Refuses(o, s, src, at)
            else if d.None? then
              o.Err? && LeavesBoth(o.state, s, src, e, Expiry(s, src, at), dest, Found(s, dest, at), Expiry(s, dest, at))
            else
              var l := e.value.vals;
              var (x, rest) := if l == [] then ([], []) else (l[|l| - 1], l[..|l| - 1]);
              o.Ok? && LeavesBoth(o.state, s,
                                  src, if rest == [] then None else Some(List(rest)), if rest == [] then None else Expiry(s, src, at),
                                  dest, Some(List([x] + d.value)), Expiry(s, dest, at))
  {
    var e := Found(s, src, at);
    if e.Some? && e.value.List? {
      MoveIs(s, src, dest, at);
      LooksBoth(s, src, dest, at);
      var l, d := e.value.vals, ListOf(Found(s, dest, at));
      if d.Some? {
        var (x, rest) := if l == [] then ([], []) else (l[|l| - 1], l[..|l| - 1]);
        StoresBoth(Swept(Swept(s, src, at), dest, at), s, src, e, Expiry(s, src, at), dest, Found(s, dest, at), Expiry(s, dest, at), List([x] + d.value), List(rest));
      }
    } else {
      SweptLeaves(s, src, at);
    }
  }

  /** On one list it is a rotation. */
  lemma RotateMeans(s: State, key: Key, at: int)
    ensures var e, o := Found(s, key, at), Step(s, RPopLPush(key, key), at);
            if e.None? then Passes(o, s, key, at)
            else if !e.value.List? then Refuses(o, s, key, at)
            else
              var l := e.value.vals;
              Stores(o, s, key, at, List(if l == [] then [[]] else [l[|l| - 1]] + l[..|l| - 1]))
  {
    SweptLeaves(s, key, at);
  }

  /** LSET: one element is replaced, counted from the end if the index is negative. */
  lemma LSetMeans(s: State, key: Key, index: Bytes, value: Bytes, at: int)
    ensures var e, i, o := Found(s, key, at), ParseInt(index), Step(s, LSet(key, index, value), at);
            if e.None? || !e.value.List? || i.None? || i.value >= |e.value.vals| || i.value < -|e.value.vals| then Refuses(o, s, key, at)
            else
              var l := e.value.vals;
              var p := if i.value >= 0 then i.value else |l| + i.value;
              exists r {:trigger List(r)} :: Stores(o, s, key, at, List(r)) && |r| == |l| && r[p] == value && forall q :: 0 <= q < |l| && q != p ==> r[q] == l[q]
  {
    SweptLeaves(s, key, at);
    var e, i := Found(s, key, at), ParseInt(index);
    if !(e.None? || !e.value.List? || i.None? || i.value >= |e.value.vals| || i.value < -|e.value.vals|) {
      var l := e.value.vals;
      var r := l[if i.value >= 0 then i.value else |l| + i.value := value];
      assert Stores(Step(s, LSet(key, index, value), at), s, key, at, List(r));
    }
  }

  /** A list without the elements equal to `v`. */
  function Strip(l: seq<Bytes>, v: Bytes): seq<Bytes> {
    if l == [] then [] else (if l[0] == v then [] else [l[0]]) + Strip(l[1..], v)
  }

  /** How many elements are equal to `v`. */
  function Number(l: seq<Bytes>, v: Bytes): nat {
    if l == [] then 0 else (if l[0] == v then 1 else 0) + Number(l[1..], v)
  }

  function Least(a: int, b: int): int {
    if a < b then a else b
  }

  /** `r` is `l` without the elements equal to `v` among its first `p`, of which there are `k`. */
  ghost predicate StripsFirst(r: seq<Bytes>, l: seq<Bytes>, v: Bytes, p: int, k: int) {
    0 <= p <= |l| && r == Strip(l[..p], v) + l[p..] && Number(l[..p], v) == k
  }

  /** The same from index `p` on. */
  ghost predicate StripsLast(r: seq<Bytes>, l: seq<Bytes>, v: Bytes, p: int, k: int) {
    0 <= p <= |l| && r == l[..p] + Strip(l[p..], v) && Number(l[p..], v) == k
  }

  ghost predicate WithoutFirst(r: seq<Bytes>, l: seq<Bytes>, v: Bytes, k: int) {
    exists p :: StripsFirst(r, l, v, p, k)
  }

  ghost predicate WithoutLast(r: seq<Bytes>, l: seq<Bytes>, v: Bytes, k: int) {
    exists p :: StripsLast(r, l, v, p, k)
  }

  /** `r` is `l` without `n` elements equal to `v`, or as many as there are: the first ones, the last ones if `n` is negative, all if it is 0. */
  ghost predicate Without(r: seq<Bytes>, l: seq<Bytes>, v: Bytes, n: int) {
    if n == 0 then r == Strip(l, v)
    else if n > 0 then WithoutFirst(r, l, v, Least(n, Number(l, v)))
    else WithoutLast(r, l, v, Least(-n, Number(l, v)))
  }

  lemma {:induction false} DropsAll(l: seq<Bytes>, v: Bytes, expected: Bytes -> bool, n: int)
    requires n <= 0 && forall x :: expected(x) <==> x == v
    ensures DropFirst(l, expected, n) == Strip(l, v)
    decreases l
  {
    if l != [] {
      DropsAll(l[1..], v, expected, if expected(l[0]) then n - 1 else n);
    }
  }

  lemma StripsCons(r: seq<Bytes>, x: Bytes, l: seq<Bytes>, v: Bytes, p: int, k: int)
    requires StripsFirst(r, l, v, p, k)
    ensures StripsFirst((if x == v then [] else [x]) + r, [x] + l, v, p + 1, k + if x == v then 1 else 0)
  {
    var m := [x] + l;
    assert m[..p + 1] == [x] + l[..p] && m[..p + 1][1..] == l[..p] && m[p + 1..] == l[p..];
    assert Strip(m[..p + 1], v) == (if x == v then [] else [x]) + Strip(l[..p], v);
  }

  lemma NoneStripped(l: seq<Bytes>, v: Bytes)
    ensures StripsFirst(l, l, v, 0, 0) && StripsLast(l, l, v, |l|, 0)
  {
    assert l[..0] == [] && l[0..] == l && l[|l|..] == [] && l[..|l|] == l;
  }

  lemma {:induction false} DropsFirst(l: seq<Bytes>, v: Bytes, expected: Bytes -> bool, n: int) returns (p: int)
    requires n > 0 && forall x :: expected(x) <==> x == v
    ensures StripsFirst(DropFirst(l, expected, n), l, v, p, Least(n, Number(l, v)))
    decreases l
  {
    if l == [] {
      p := 0;
      NoneStripped(l, v);
    } else {
      var x, rest := l[0], l[1..];
      assert l == [x] + rest;
      var q := 0;
      if x == v && n == 1 {
        NoneStripped(rest, v);
        StripsCons(rest, x, rest, v, q, 0);
      } else {
        q := DropsFirst(rest, v, expected, if x == v then n - 1 else n);
        StripsCons(DropFirst(rest, expected, if x == v then n - 1 else n), x, rest, v, q, Least(if x == v then n - 1 else n, Number(rest, v)));
      }
      p := q + 1;
    }
  }

  lemma {:induction false} StripSnoc(l: seq<Bytes>, x: Bytes, v: Bytes)
    ensures Strip(l + [x], v) == Strip(l, v) + (if x == v then [] else [x])
    ensures Number(l + [x], v) == Number(l, v) + if x == v then 1 else 0
    decreases l
  {
    if l != [] {
      assert (l + [x])[1..] == l[1..] + [x];
      StripSnoc(l[1..], x, v);
    } else {
      assert (l + [x])[1..] == [];
    }
  }

  lemma StripsSnoc(r: seq<Bytes>, l: seq<Bytes>, x: Bytes, v: Bytes, p: int, k: int)
    requires StripsLast(r, l, v, p, k)
    ensures StripsLast(r + (if x == v then [] else [x]), l + [x], v, p, k + if x == v then 1 else 0)
  {
    var m := l + [x];
    assert m[p..] == l[p..] + [x] && m[..p] == l[..p];
    StripSnoc(l[p..], x, v);
    Associative(l[..p], Strip(l[p..], v), if x == v then [] else [x]);
  }

  lemma {:induction false} DropsLast(l: seq<Bytes>, v: Bytes, expected: Bytes -> bool, n: int) returns (p: int)
    requires n > 0 && forall x :: expected(x) <==> x == v
    ensures StripsLast(DropLast(l, expected, n), l, v, p, Least(n, Number(l, v)))
    decreases l
  {
    if l == [] {
      p := 0;
      NoneStripped(l, v);
    } else {
      var m := |l| - 1;
      var x, rest := l[m], l[..m];
      assert l == rest + [x];
      StripSnoc(rest, x, v);
      if x == v && n == 1 {
        p := m;
        NoneStripped(rest, v);
        StripsSnoc(rest, rest, x, v, p, 0);
      } else {
        p := DropsLast(rest, v, expected, if x == v then n - 1 else n);
        StripsSnoc(DropLast(rest, expected, if x == v then n - 1 else n), rest, x, v, p, Least(if x == v then n - 1 else n, Number(rest, v)));
      }
    }
  }

  lemma DroppedWithout(l: seq<Bytes>, v: Bytes, n: int)
    ensures Without(Dropped(l, v, n), l, v, n)
  {
    if n == 0 {
      DropsAll(l, v, x => x == v, 0);
    } else if n > 0 {
      var p := DropsFirst(l, v, x => x == v, n);
      assert StripsFirst(Dropped(l, v, n), l, v, p, Least(n, Number(l, v)));
    } else {
      var p := DropsLast(l, v, x => x == v, -n);
      assert StripsLast(Dropped(l, v, n), l, v, p, Least(-n, Number(l, v)));
    }
  }

  lemma LRemMeans(s: State, key: Key, number: Bytes, value: Bytes, at: int)
    ensures var e, n, o := Found(s, key, at), ParseInt(number), Step(s, LRem(key, number, value), at);
            if n.None? then o == Err(s)
            else if e.None? then Passes(o, s, key, at)
            else if !e.value.List? then Refuses(o, s, key, at)
            else if n.value == 0 && e.value.vals == [] then Fails(o, s, key, at)
            else exists r {:trigger Without(r, e.value.vals, value, n.value)} :: Without(r, e.value.vals, value, n.value) && Shrinks(o, s, key, at, r)
  {
    SweptLeaves(s, key, at);
    var e, n := Found(s, key, at), ParseInt(number);
    if n.Some? && e.Some? && e.value.List? && !(n.value == 0 && e.value.vals == []) {
      DroppedWithout(e.value.vals, value, n.value);
      assert Shrinks(Step(s, LRem(key, number, value), at), s, key, at, Dropped(e.value.vals, value, n.value));
    }
  }

  /* ---- Hashes, sets and sorted sets ---- */

  /** The value that the last of the pairs with this name gives it. */
  ghost predicate LastGives<V>(pairs: seq<(Bytes, V)>, f: Bytes, v: V) {
    exists i {:trigger pairs[i]} :: 0 <= i < |pairs| && pairs[i] == (f, v) && forall j {:trigger pairs[j]} :: i < j < |pairs| ==> pairs[j].0 != f
  }

  ghost predicate Named<V>(pairs: seq<(Bytes, V)>, f: Bytes) {
    exists i {:trigger pairs[i]} :: 0 <= i < |pairs| && pairs[i].0 == f
  }

  /** `g` is `h` with the pairs stored in it, one after the other. */
  ghost predicate Stored<V>(g: map<Bytes, V>, h: map<Bytes, V>, pairs: seq<(Bytes, V)>) {
    forall f {:trigger Named(pairs, f)} ::
      if Named(pairs, f) then f in g && LastGives(pairs, f, g[f])
      else (f in g <==> f in h) && (f in h ==> g[f] == h[f])
  }

  lemma StoredCons<V>(g: map<Bytes, V>, h: map<Bytes, V>, x: (Bytes, V), rest: seq<(Bytes, V)>)
    requires Stored(g, h[x.0 := x.1], rest)
    ensures Stored(g, h, [x] + rest)
  {
    var pairs := [x] + rest;
    forall f ensures if Named(pairs, f) then f in g && LastGives(pairs, f, g[f])
                     else (f in g <==> f in h) && (f in h ==> g[f] == h[f]) {
      if Named(rest, f) {
        var i :| 0 <= i < |rest| && rest[i] == (f, g[f]) && forall j {:trigger rest[j]} :: i < j < |rest| ==> rest[j].0 != f;
        assert pairs[i + 1] == (f, g[f]);
      } else {
        assert forall j {:trigger pairs[j]} :: 0 < j < |pairs| ==> pairs[j] == rest[j - 1];
        assert pairs[0] == x;
        assert f != x.0 ==> !Named(pairs, f);
      }
    }
  }

  lemma {:induction false} FieldsStored(h: map<Bytes, Bytes>, pairs: seq<(Bytes, Bytes)>)
    ensures Stored(PutFields(h, pairs), h, pairs)
    decreases pairs
  {
    if pairs != [] {
      FieldsStored(h[pairs[0].0 := pairs[0].1], pairs[1..]);
      StoredCons(PutFields(h, pairs), h, pairs[0], pairs[1..]);
      assert pairs == [pairs[0]] + pairs[1..];
    }
  }

  ghost function HashOf(e: Option<Entity>): Option<map<Bytes, Bytes>> {
    match e
    case None => Some(map[])
    case Some(Hash(h)) => Some(h)
    case _ => None
  }

  /** HMSET and HSET: each field has the value given last. */
  lemma HMSetMeans(s: State, key: Key, pairs: seq<(Bytes, Bytes)>, odd: bool, at: int)
    ensures var h, o := HashOf(Found(s, key, at)), Step(s, HMSet(key, pairs, odd), at);
            if pairs == [] || odd then o == Err(s)
            else if h.None? then Refuses(o, s, key, at)
            else exists g {:trigger Hash(g)} :: Stores(o, s, key, at, Hash(g)) && Stored(g, h.value, pairs)
    ensures forall f, v {:trigger HSet(key, f, v)} :: Step(s, HSet(key, f, v), at) == Step(s, HMSet(key, [(f, v)], false), at)
  {
    SweptLeaves(s, key, at);
    var h := HashOf(Found(s, key, at));
    if h.Some? && pairs != [] && !odd {
      FieldsStored(h.value, pairs);
      assert Stores(Step(s, HMSet(key, pairs, odd), at), s, key, at, Hash(PutFields(h.value, pairs)));
    }
  }

  lemma HDelIs(s: State, key: Key, names: seq<Bytes>, h: map<Bytes, Bytes>, at: int)
    requires names != [] && Found(s, key, at) == Some(Hash(h))
    ensures Step(s, HDel(key, names), at) == Ok(PutOrRemove(Swept(s, key, at), key, Hash(h - AsSet(names))))
  {
  }

  lemma FieldsLeft(h: map<Bytes, Bytes>, names: seq<Bytes>)
    ensures h - AsSet(names) == map f | f in h && f !in names :: h[f]
  {
  }

  /** HDEL: the named fields go, and the hash with the last of them. */
  lemma HDelMeans(s: State, key: Key, names: seq<Bytes>, at: int)
    ensures var e, o := Found(s, key, at), Step(s, HDel(key, names), at);
            if names == [] then o == Err(s)
            else if e.None? then Passes(o, s, key, at)
            else if !e.value.Hash? then Refuses(o, s, key, at)
            else
              var g := map f | f in e.value.fields && f !in names :: e.value.fields[f];
              if g == map[] then Deletes(o, s, key) else Stores(o, s, key, at, Hash(g))
  {
    SweptLeaves(s, key, at);
    var e := Found(s, key, at);
    if e.Some? && e.value.Hash? && names != [] {
      HDelIs(s, key, names, e.value.fields, at);
      FieldsLeft(e.value.fields, names);
    }
  }

  ghost function SetOf(e: Option<Entity>): Option<set<Bytes>> {
    match e
    case None => Some({})
    case Some(Set(m)) => Some(m)
    case _ => None
  }

  lemma SAddMeans(s: State, key: Key, names: seq<Bytes>, at: int)
    ensures var m, o := SetOf(Found(s, key, at)), Step(s, SAdd(key, names), at);
            if names == [] then o == Err(s)
            else if m.None? then Refuses(o, s, key, at)
            else exists r {:trigger Set(r)} :: Stores(o, s, key, at, Set(r)) && forall x :: x in r <==> x in m.value || x in names
  {
    SweptLeaves(s, key, at);
    var m := SetOf(Found(s, key, at));
    if names != [] && m.Some? {
      assert Stores(Step(s, SAdd(key, names), at), s, key, at, Set(m.value + AsSet(names)));
    }
  }

  lemma SRemMeans(s: State, key: Key, names: seq<Bytes>, at: int)
    ensures var e, o := Found(s, key, at), Step(s, SRem(key, names), at);
            if names == [] then o == Err(s)
            else if e.None? then Passes(o, s, key, at)
            else if !e.value.Set? then Refuses(o, s, key, at)
            else
              var r := set x | x in e.value.members && x !in names;
              if r == {} then Deletes(o, s, key) else Stores(o, s, key, at, Set(r))
  {
    SweptLeaves(s, key, at);
    var e := Found(s, key, at);
    if e.Some? && e.value.Set? {
      assert e.value.members - AsSet(names) == set x | x in e.value.members && x !in names;
    }
  }

  ghost function ZSetOf(e: Option<Entity>): Option<map<Bytes, real>> {
    match e
    case None => Some(map[])
    case Some(ZSet(z)) => Some(z)
    case _ => None
  }

  /** Every score argument is a number. */
  ghost predicate AllNumbers(scored: seq<(Option<real>, Bytes)>) {
    forall i {:trigger scored[i]} :: 0 <= i < |scored| ==> scored[i].0.Some?
  }

  function Swapped(scored: seq<(Option<real>, Bytes)>): (pairs: seq<(Bytes, real)>)
    requires forall i :: 0 <= i < |scored| ==> scored[i].0.Some?
    ensures |pairs| == |scored| && forall i {:trigger pairs[i]} :: 0 <= i < |scored| ==> pairs[i] == (scored[i].1, scored[i].0.value)
  {
    seq(|scored|, i requires 0 <= i < |scored| => (scored[i].1, scored[i].0.value))
  }

  lemma {:induction false} ScoresStored(z: map<Bytes, real>, scored: seq<(Option<real>, Bytes)>)
    requires AllNumbers(scored)
    ensures Stored(PutScores(z, scored), z, Swapped(scored))
    decreases scored
  {
    if scored != [] {
      var pairs := Swapped(scored);
      assert pairs == [(scored[0].1, scored[0].0.value)] + Swapped(scored[1..]);
      ScoresStored(z[scored[0].1 := scored[0].0.value], scored[1..]);
      StoredCons(PutScores(z, scored), z, pairs[0], Swapped(scored[1..]));
    }
  }

  /** ZADD: each member has the score given last. */
  lemma ZAddMeans(s: State, key: Key, scored: seq<(Option<real>, Bytes)>, odd: bool, at: int)
    ensures var z, o := ZSetOf(Found(s, key, at)), Step(s, ZAdd(key, scored, odd), at);
            if scored == [] || odd || !AllNumbers(scored) then o == Err(s)
            else if z.None? then Refuses(o, s, key, at)
            else exists r {:trigger ZSet(r)} :: Stores(o, s, key, at, ZSet(r)) && Stored(r, z.value, Swapped(scored))
  {
    SweptLeaves(s, key, at);
    var z := ZSetOf(Found(s, key, at));
    if scored != [] && !odd && AllNumbers(scored) && z.Some? {
      ScoresStored(z.value, scored);
      assert Stores(Step(s, ZAdd(key, scored, odd), at), s, key, at, ZSet(PutScores(z.value, scored)));
    }
  }

  /** ZINCRBY: the score grows by the increment, from 0 for a new member, and the other members keep theirs. */
  lemma ZIncrByMeans(s: State, key: Key, delta: Option<real>, member: Bytes, at: int)
    ensures var z, o := ZSetOf(Found(s, key, at)), Step(s, ZIncrBy(key, delta, member), at);
            if delta.None? then o == Err(s)
            else if z.None? then Refuses(o, s, key, at)
            else exists r {:trigger ZSet(r)} ::
              && Stores(o, s, key, at, ZSet(r)) && member in r && r[member] - (if member in z.value then z.value[member] else 0.0) == delta.value
              && forall x :: x != member ==> (x in r <==> x in z.value) && (x in r ==> r[x] == z.value[x])
  {
    SweptLeaves(s, key, at);
    var z := ZSetOf(Found(s, key, at));
    if delta.Some? && z.Some? {
      var r := z.value[member := if member in z.value then z.value[member] + delta.value else delta.value];
      assert Stores(Step(s, ZIncrBy(key, delta, member), at), s, key, at, ZSet(r));
    }
  }

  /** ZREM: the named members go, and the sorted set stays even if it is empty then. */
  lemma ZRemMeans(s: State, key: Key, names: seq<Bytes>, at: int)
    ensures var e, o := Found(s, key, at), Step(s, ZRem(key, names), at);
            if names == [] then o == Err(s)
            else if e.None? then Passes(o, s, key, at)
            else if !e.value.ZSet? then Refuses(o, s, key, at)
            else Stores(o, s, key, at, ZSet(map m | m in e.value.scores && m !in names :: e.value.scores[m]))
  {
    SweptLeaves(s, key, at);
    var e := Found(s, key, at);
    if e.Some? && e.value.ZSet? {
      assert e.value.scores - AsSet(names) == map m | m in e.value.scores && m !in names :: e.value.scores[m];
    }
  }
}
