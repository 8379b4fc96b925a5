/** database/: what a command does at two times between which expiries pass. */
module Expiries {
  import opened Sequences
  import opened Numerals
  import opened QuickLists
  import opened Databases
  import opened Undoing
  import opened Rollbacks

  /** A time before every expiry that can be written down. */
  const DAWN := MIN_INT64

  /** The executors log an absolute expiry in place of a relative one. */
  predicate Durable(c: Cmd) {
    match c
    case Expire(_, _) => false
    case PExpire(_, _) => false
    case SetCmd(_, _, options) => var p := ParseSet(options, Upsert, 0); p.BadSet? || p.ttl == 0
    case _ => true
  }

  /** The command gets as far as looking its key up: it is one that does so, and its arguments are not refused before. */
  predicate Reads(c: Cmd) {
    match c
    case SetCmd(_, _, _) => false
    case Del(_) => false
    case Expire(_, _) => ExpiryOf(c, 0).Some?
    case PExpire(_, _) => ExpiryOf(c, 0).Some?
    case ExpireAt(_, _) => ExpiryOf(c, 0).Some?
    case PExpireAt(_, _) => ExpiryOf(c, 0).Some?
    case LPush(_, values) => values != []
    case RPush(_, values) => values != []
    case LRem(_, number, _) => ParseInt(number).Some?
    case HMSet(_, pairs, odd) => pairs != [] && !odd
    case HDel(_, names) => names != []
    case SAdd(_, names) => names != []
    case SRem(_, names) => names != []
    case ZAdd(_, scored, odd) => scored != [] && !odd && forall i :: 0 <= i < |scored| ==> scored[i].0.Some?
    case ZIncrBy(_, delta, _) => delta.Some?
    case ZRem(_, names) => names != []
    case _ => true
  }

  /** The state in which the command has looked up its keys: those that have expired are gone. */
  function Look(s: State, c: Cmd, at: int): State {
    if !Reads(c) then s
    else match c
      case Rename(src, _) => Swept(s, src, at)
      case RPopLPush(src, dest) =>
        var t := Swept(s, src, at);
        if src in t.data && t.data[src].List? then Swept(t, dest, at) else t
      case SetCmd(_, _, _) => s
      case Del(_) => s
      case _ => Swept(s, c.key, at)
  }

  /** The lookups are all that a durable command does with the time. */
  lemma LookFirst(s: State, c: Cmd, at: int)
    requires Live(s, DAWN) && Durable(c)
    ensures Step(s, c, at) == Step(Look(s, c, at), c, DAWN)
  {
    if OnKeys(c) {
      LookFirstKeys(s, c, at);
    } else if OnLists(c) {
      LookFirstLists(s, c, at);
    } else {
      LookFirstCollections(s, c, at);
    }
  }

  lemma LookFirstKeys(s: State, c: Cmd, at: int)
    requires Live(s, DAWN) && Durable(c) && OnKeys(c)
    ensures Step(s, c, at) == Step(Look(s, c, at), c, DAWN)
  {
    if c.Incr? || c.Append? || c.Rename? {
      LookFirstValues(s, c, at);
    }
  }

  lemma LookFirstValues(s: State, c: Cmd, at: int)
    requires Live(s, DAWN) && (c.Incr? || c.Append? || c.Rename?)
    ensures Step(s, c, at) == Step(Look(s, c, at), c, DAWN)
  {
  }

  lemma LookFirstMove(s: State, c: Cmd, at: int)
    requires Live(s, DAWN) && c.RPopLPush?
    ensures Step(s, c, at) == Step(Look(s, c, at), c, DAWN)
  {
  }

  lemma LookFirstLists(s: State, c: Cmd, at: int)
    requires Live(s, DAWN) && OnLists(c)
    ensures Step(s, c, at) == Step(Look(s, c, at), c, DAWN)
  {
    if c.RPopLPush? {
      LookFirstMove(s, c, at);
    }
  }

  lemma LookFirstCollections(s: State, c: Cmd, at: int)
    requires Live(s, DAWN) && !OnKeys(c) && !OnLists(c)
    ensures Step(s, c, at) == Step(Look(s, c, at), c, DAWN)
  {
  }

  /** The key has expired at one of the times and not at the other. */
  predicate Torn(s: State, key: Key, at: int, now: int) {
    key in s.data && key in s.ttl && (s.ttl[key] < at) != (s.ttl[key] < now)
  }

  /** A key that has expired at one of the times is looked up. */
  predicate LooksTorn(s: State, c: Cmd, at: int, now: int) {
    Reads(c)
    && match c
       case Rename(src, _) => Torn(s, src, at, now)
       case RPopLPush(src, dest) =>
         Torn(s, src, at, now) || (src in s.data && !Expired(s, src, at) && s.data[src].List? && Torn(s, dest, at, now))
       case SetCmd(_, _, _) => false
       case Del(_) => false
       case _ => Torn(s, c.key, at, now)
  }

  /** The command takes the key away in any case; or renames it to one with the same entity and the same expiry. */
  predicate Takes(s: State, c: Cmd) {
    match c
    case Rename(src, dest) =>
      src != dest && src in s.data && dest in s.data && s.data[src] == s.data[dest] && src in s.ttl && dest in s.ttl && s.ttl[src] == s.ttl[dest]
    case LPop(key, count) => TakesAll(s, key, count)
    case RPop(key, count) => TakesAll(s, key, count)
    case LRem(key, number, value) =>
      key in s.data && s.data[key].List? && ParseInt(number).Some? && Dropped(s.data[key].vals, value, ParseInt(number).value) == []
    case HDel(key, names) => ClearsHash(s, key, names)
    case SRem(key, names) => ClearsSet(s, key, names)
    case _ => false
  }

  lemma LooksAlike(s: State, c: Cmd, at: int, now: int)
    requires !LooksTorn(s, c, at, now)
    ensures Look(s, c, at) == Look(s, c, now)
  {
  }

  /* ---- A key that is there with an expiry, and the same key gone ---- */

  /** A command that looks up one key. */
  ghost predicate OnOne(s: State, c: Cmd, key: Key) {
    Reads(c) && Durable(c) && Changes(c) == {key} && !c.Del? && !c.Rename? && !c.RPopLPush? && c.key == key && key in s.data && key in s.ttl
  }

  /** It leaves the key there, with an expiry or, for PERSIST, without. */
  ghost predicate Stays(t: State, c: Cmd, key: Key) {
    key in t.data && (key in t.ttl || c.Persist?)
  }

  ghost predicate StaysOut(t: State, c: Cmd, key: Key) {
    key !in t.ttl && (c.Persist? ==> key !in t.data)
  }

  lemma OutKeys(s: State, c: Cmd, key: Key)
    requires Live(s, DAWN) && OnOne(s, c, key) && OnKeys(c)
    ensures StaysOut(Step(Remove(s, key), c, DAWN).state, c, key)
  {
  }

  lemma OutLists(s: State, c: Cmd, key: Key)
    requires Live(s, DAWN) && OnOne(s, c, key) && OnLists(c)
    ensures StaysOut(Step(Remove(s, key), c, DAWN).state, c, key)
  {
  }

  lemma OutCollections(s: State, c: Cmd, key: Key)
    requires Live(s, DAWN) && OnOne(s, c, key) && !OnKeys(c) && !OnLists(c)
    ensures StaysOut(Step(Remove(s, key), c, DAWN).state, c, key)
  {
  }

  /** The key is taken away, as it is by the lookup when it has expired; or it stays. */
  ghost predicate TakenOrStays(s: State, c: Cmd, key: Key) {
    var t := Step(s, c, DAWN).state;
    if Takes(s, c) then t == Remove(s, key) == Step(Remove(s, key), c, DAWN).state else Stays(t, c, key)
  }

  lemma FateKeys(s: State, c: Cmd, key: Key)
    requires Live(s, DAWN) && OnOne(s, c, key) && OnKeys(c)
    ensures TakenOrStays(s, c, key)
  {
  }

  lemma FatePops(s: State, key: Key, count: Option<Bytes>, front: bool)
    requires Plain(s) && Live(s, DAWN) && key in s.data && key in s.ttl
    ensures ExecPop(Remove(s, key), key, count, front, DAWN).state == Remove(s, key)
    ensures var t := ExecPop(s, key, count, front, DAWN).state;
            if TakesAll(s, key, count) then t == Remove(s, key) else key in t.data && key in t.ttl
  {
    assert s.data[key].List? ==> s.data[key].vals != [];
  }

  lemma FateLists(s: State, c: Cmd, key: Key)
    requires Plain(s) && Live(s, DAWN) && OnOne(s, c, key) && OnLists(c) && !c.LPop? && !c.RPop?
    ensures TakenOrStays(s, c, key)
  {
  }

  lemma FateHDel(s: State, c: Cmd, key: Key)
    requires Plain(s) && Live(s, DAWN) && OnOne(s, c, key) && c.HDel?
    ensures TakenOrStays(s, c, key)
  {
    if s.data[key].Hash? {
      LeftOver(s.data[key].fields, c.names);
    }
  }

  lemma FateSRem(s: State, c: Cmd, key: Key)
    requires Plain(s) && Live(s, DAWN) && OnOne(s, c, key) && c.SRem?
    ensures TakenOrStays(s, c, key)
  {
    if s.data[key].Set? {
      LeftOverMembers(s.data[key].members, AsSet(c.names));
    }
  }

  lemma FateCollections(s: State, c: Cmd, key: Key)
    requires Live(s, DAWN) && OnOne(s, c, key) && !OnKeys(c) && !OnLists(c) && !c.HDel? && !c.SRem?
    ensures TakenOrStays(s, c, key)
  {
  }

  lemma OneTells(s: State, c: Cmd, key: Key)
    requires Plain(s) && Live(s, DAWN) && OnOne(s, c, key)
    ensures Step(s, c, DAWN).state == Step(Remove(s, key), c, DAWN).state <==> Takes(s, c)
  {
    if OnKeys(c) {
      OutKeys(s, c, key);
      FateKeys(s, c, key);
    } else if OnLists(c) {
      OutLists(s, c, key);
      if c.LPop? || c.RPop? {
        FatePops(s, key, c.count, c.LPop?);
      } else {
        FateLists(s, c, key);
      }
    } else {
      OutCollections(s, c, key);
      if c.HDel? {
        FateHDel(s, c, key);
      } else if c.SRem? {
        FateSRem(s, c, key);
      } else {
        FateCollections(s, c, key);
      }
    }
  }

  lemma RenameGone(s: State, src: Key, dest: Key)
    requires Live(s, DAWN) && src in s.data && src in s.ttl
    ensures Step(s, Rename(src, dest), DAWN).state == Remove(s, src) <==> Takes(s, Rename(src, dest))
  {
    var t, u := Step(s, Rename(src, dest), DAWN).state, Remove(s, src);
    assert t == State(s.data[dest := s.data[src]] - {src}, (s.ttl - {src})[dest := s.ttl[src]]);
    assert dest in t.ttl && t.ttl[dest] == s.ttl[src];
    assert src != dest ==> dest in t.data && t.data[dest] == s.data[src];
    assert dest in u.data ==> u.data[dest] == s.data[dest];
    assert dest in u.ttl ==> u.ttl[dest] == s.ttl[dest];
    if Takes(s, Rename(src, dest)) {
      assert t.data == u.data && t.ttl == u.ttl;
    } else {
      assert src != dest && dest in u.data && dest in u.ttl ==> t.data[dest] != u.data[dest] || t.ttl[dest] != u.ttl[dest];
    }
  }

  /** One list moves to another: at `a` the source is there, at `b` it has expired. */
  lemma SourceTells(s: State, src: Key, dest: Key, a: int, b: int)
    requires Live(s, DAWN) && src in s.data && src in s.ttl && b > s.ttl[src] >= a
    ensures Step(s, RPopLPush(src, dest), a).state != Step(s, RPopLPush(src, dest), b).state
  {
    var t, u := Step(s, RPopLPush(src, dest), a).state, Step(s, RPopLPush(src, dest), b).state;
    assert u == Remove(s, src) && src !in u.data;
    assert src == dest ==> src in t.data;
    if src !in t.data {
      assert dest in t.data && (dest in u.data <==> dest in s.data);
      if dest in s.data && !Expired(s, dest, a) {
        assert |t.data[dest].vals| == |s.data[dest].vals| + 1;
      } else {
        assert dest in s.data ==> dest !in t.ttl;
      }
    }
  }

  /** At `a` the destination is there, at `b` it has expired. */
  lemma DestinationTells(s: State, src: Key, dest: Key, a: int, b: int)
    requires Live(s, DAWN) && src in s.data && s.data[src].List? && !Expired(s, src, a) && !Expired(s, src, b)
    requires dest in s.data && dest in s.ttl && b > s.ttl[dest] >= a
    ensures Step(s, RPopLPush(src, dest), a).state != Step(s, RPopLPush(src, dest), b).state
  {
    assert dest in Step(s, RPopLPush(src, dest), a).state.ttl;
    assert dest !in Step(s, RPopLPush(src, dest), b).state.ttl;
  }

  /** What the command does tells the two times apart. */
  predicate Tells(s: State, c: Cmd, at: int, now: int) {
    LooksTorn(s, c, at, now) && !Takes(s, c)
  }

  /** At `a` the key is there, at `b` it has expired. */
  lemma OneApart(s: State, c: Cmd, key: Key, a: int, b: int)
    requires Plain(s) && Live(s, DAWN) && OnOne(s, c, key) && a <= s.ttl[key] < b
    ensures Step(s, c, a).state == Step(s, c, b).state <==> Takes(s, c)
  {
    LookFirst(s, c, a);
    LookFirst(s, c, b);
    assert Look(s, c, a) == s && Look(s, c, b) == Remove(s, key);
    OneTells(s, c, key);
  }

  lemma RenameApart(s: State, src: Key, dest: Key, a: int, b: int)
    requires Live(s, DAWN) && src in s.data && src in s.ttl && a <= s.ttl[src] < b
    ensures Step(s, Rename(src, dest), a).state == Step(s, Rename(src, dest), b).state <==> Takes(s, Rename(src, dest))
  {
    LookFirst(s, Rename(src, dest), a);
    RenameGone(s, src, dest);
  }

  lemma MoveTells(s: State, c: Cmd, at: int, now: int)
    requires Live(s, DAWN) && c.RPopLPush? && LooksTorn(s, c, at, now)
    ensures Step(s, c, at).state != Step(s, c, now).state
  {
    var src, dest := c.src, c.dest;
    if Torn(s, src, at, now) {
      if Expired(s, src, now) {
        SourceTells(s, src, dest, at, now);
      } else {
        SourceTells(s, src, dest, now, at);
      }
    } else if Expired(s, dest, now) {
      DestinationTells(s, src, dest, at, now);
    } else {
      DestinationTells(s, src, dest, now, at);
    }
  }

  /** A command does the same at both times if and only if it looks up no key that has expired at only one of them, or takes that key away in any case. */
  lemma StepTells(s: State, c: Cmd, at: int, now: int)
    requires Plain(s) && Live(s, DAWN) && Durable(c)
    ensures Step(s, c, at).state == Step(s, c, now).state <==> !Tells(s, c, at, now)
  {
    if !LooksTorn(s, c, at, now) {
      LooksAlike(s, c, at, now);
      LookFirst(s, c, at);
      LookFirst(s, c, now);
    } else if c.RPopLPush? {
      MoveTells(s, c, at, now);
    } else if c.Rename? {
      if Expired(s, c.src, now) {
        RenameApart(s, c.src, c.dest, at, now);
      } else {
        RenameApart(s, c.src, c.dest, now, at);
      }
    } else if Expired(s, c.key, now) {
      OneApart(s, c, c.key, at, now);
    } else {
      OneApart(s, c, c.key, now, at);
    }
  }

  /* ---- What every command keeps ---- */

  /** The expiry a durable command sets. */
  function Sets(c: Cmd): Option<int> {
    if c.ExpireAt? || c.PExpireAt? then ExpiryOf(c, 0) else None
  }

  predicate RenamesToItself(c: Cmd) {
    c.Rename? && c.src == c.dest
  }

  /** What the commands of a log keep to: the expiries they set, and whether none renames a key to itself. */
  datatype Rule = Rule(times: set<int>, strict: bool)

  /** Every recorded expiry is one of these, and can be written down; under a strict rule none is without a key. */
  ghost predicate Tidy(s: State, rule: Rule) {
    && (forall k {:trigger s.ttl[k]} {:trigger k in s.ttl} :: k in s.ttl ==> s.ttl[k] in rule.times && IsInt64(s.ttl[k]))
    && (rule.strict ==> Clean(s))
  }

  ghost predicate Sound(s: State, rule: Rule) {
    Plain(s) && Tidy(s, rule)
  }

  /** A command as the executors log it, that keeps to the rule. */
  predicate Regular(c: Cmd, rule: Rule) {
    Durable(c) && (Sets(c).Some? ==> Sets(c).value in rule.times && IsInt64(Sets(c).value)) && (rule.strict ==> !RenamesToItself(c))
  }

  lemma {:induction false} RemovesTidy(s: State, keys: seq<Key>, rule: Rule)
    requires Tidy(s, rule)
    ensures Tidy(Removes(s, keys), rule)
    decreases keys
  {
    if keys != [] {
      RemovesTidy(if keys[0] in s.data then Remove(s, keys[0]) else s, keys[1..], rule);
    }
  }

  lemma TidyKeys(s: State, c: Cmd, rule: Rule)
    requires Tidy(s, rule) && Regular(c, rule) && OnKeys(c)
    ensures Tidy(Step(s, c, DAWN).state, rule)
  {
    if c.Del? {
      RemovesTidy(s, c.keys, rule);
    }
  }

  lemma TidyMove(s: State, c: Cmd, rule: Rule)
    requires Tidy(s, rule) && c.RPopLPush?
    ensures Tidy(Step(s, c, DAWN).state, rule)
  {
  }

  lemma TidyLists(s: State, c: Cmd, rule: Rule)
    requires Tidy(s, rule) && OnLists(c)
    ensures Tidy(Step(s, c, DAWN).state, rule)
  {
    if c.RPopLPush? {
      TidyMove(s, c, rule);
    }
  }

  lemma TidyCollections(s: State, c: Cmd, rule: Rule)
    requires Tidy(s, rule) && !OnKeys(c) && !OnLists(c)
    ensures Tidy(Step(s, c, DAWN).state, rule)
  {
  }

  lemma LookSound(s: State, c: Cmd, at: int, rule: Rule)
    requires Sound(s, rule)
    ensures Sound(Look(s, c, at), rule)
  {
    if c.RPopLPush? {
      SweptSound(s, c.src, at, rule);
      SweptSound(Swept(s, c.src, at), c.dest, at, rule);
    } else if c.Rename? {
      SweptSound(s, c.src, at, rule);
    } else if !c.Del? {
      SweptSound(s, c.key, at, rule);
    }
  }

  lemma SweptSound(s: State, key: Key, at: int, rule: Rule)
    requires Sound(s, rule)
    ensures Sound(Swept(s, key, at), rule)
  {
  }

  lemma PlainKept(s: State, c: Cmd, rule: Rule)
    requires Sound(s, rule) && Regular(c, rule)
    ensures Plain(Step(s, c, DAWN).state)
  {
    match Step(s, c, DAWN)
    case Ok(t) => StepKeeps(s, c, DAWN, t, DAWN);
    case Err(t) => FailureChangesNothing(s, c, DAWN, t);
    case Panic(_) => PanicChangesNothing(s, c, DAWN);
  }

  /** At any time, whether or not expiries have passed by then. */
  lemma StepSound(s: State, c: Cmd, at: int, rule: Rule)
    requires Sound(s, rule) && Regular(c, rule)
    ensures Sound(Step(s, c, at).state, rule)
  {
    LookFirst(s, c, at);
    LookSound(s, c, at, rule);
    var t := Look(s, c, at);
    PlainKept(t, c, rule);
    if OnKeys(c) {
      TidyKeys(t, c, rule);
    } else if OnLists(c) {
      TidyLists(t, c, rule);
    } else {
      TidyCollections(t, c, rule);
    }
  }

  /** The two times have passed the same of these expiries. */
  predicate Agree(times: set<int>, at: int, now: int) {
    forall e :: e in times ==> (e < at <==> e < now)
  }

  lemma AgreedNotTold(s: State, c: Cmd, at: int, now: int, rule: Rule)
    requires Tidy(s, rule) && Agree(rule.times, at, now)
    ensures !Tells(s, c, at, now)
  {
  }
}
