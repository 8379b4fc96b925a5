/** aof/marshal.go: the command that rebuilds an entity. */
module Marshalling {
  import opened Sequences
  import opened Numerals
  import opened Databases

  /** The pairs of a map, in any order. */
  ghost predicate Enumerates<V>(pairs: seq<(Bytes, V)>, m: map<Bytes, V>) {
    && (forall i {:trigger pairs[i]} :: 0 <= i < |pairs| ==> pairs[i].0 in m && m[pairs[i].0] == pairs[i].1)
    && (forall f {:trigger f in m} :: f in m ==> exists i :: 0 <= i < |pairs| && pairs[i].0 == f)
  }

  ghost predicate EnumeratesScores(scored: seq<(Option<real>, Bytes)>, z: map<Bytes, real>) {
    && (forall i {:trigger scored[i]} :: 0 <= i < |scored| ==> scored[i].1 in z && scored[i].0 == Some(z[scored[i].1]))
    && (forall m {:trigger m in z} :: m in z ==> exists i :: 0 <= i < |scored| && scored[i].1 == m)
  }

  /** `c` is a command EntityToCmd may produce: the order of a set or a hash is whatever the iteration yields. */
  ghost predicate Encodes(key: Key, e: Entity, c: Cmd) {
    match e
    case Str(val) => c == SetCmd(key, val, [])
    case List(vals) => c == RPush(key, vals)
    case Hash(fields) => c.HMSet? && c.key == key && !c.odd && Enumerates(c.pairs, fields)
    case Set(members) => c.SAdd? && c.key == key && AsSet(c.names) == members
    case ZSet(scores) => c.ZAdd? && c.key == key && !c.odd && EnumeratesScores(c.scored, scores)
  }

  /** Encoded and no longer than needed: what is listed is listed once. */
  ghost predicate EncodesOnce(key: Key, e: Entity, c: Cmd) {
    && Encodes(key, e, c)
    && match e
       case Hash(fields) => |c.pairs| == |fields|
       case Set(members) => |c.names| == |members|
       case ZSet(scores) => |c.scored| == |scores|
       case _ => true
  }

  lemma {:induction false} PutFieldsAll(g: map<Bytes, Bytes>, pairs: seq<(Bytes, Bytes)>, h: map<Bytes, Bytes>)
    requires forall i {:trigger pairs[i]} :: 0 <= i < |pairs| ==> pairs[i].0 in h && h[pairs[i].0] == pairs[i].1
    requires forall f {:trigger f in g} :: f in g ==> f in h && g[f] == h[f]
    requires forall f {:trigger f in h} :: f in h ==> f in g || exists i :: 0 <= i < |pairs| && pairs[i].0 == f
    ensures PutFields(g, pairs) == h
    decreases pairs
  {
    if pairs != [] {
      var g' := g[pairs[0].0 := pairs[0].1];
      forall f | f in h ensures f in g' || exists i :: 0 <= i < |pairs[1..]| && pairs[1..][i].0 == f {
        if f !in g' {
          var i :| 0 <= i < |pairs| && pairs[i].0 == f;
          assert pairs[1..][i - 1].0 == f;
        }
      }
      PutFieldsAll(g', pairs[1..], h);
    }
  }

  lemma {:induction false} PutScoresAll(g: map<Bytes, real>, scored: seq<(Option<real>, Bytes)>, z: map<Bytes, real>)
    requires forall i {:trigger scored[i]} :: 0 <= i < |scored| ==> scored[i].1 in z && scored[i].0 == Some(z[scored[i].1])
    requires forall m {:trigger m in g} :: m in g ==> m in z && g[m] == z[m]
    requires forall m {:trigger m in z} :: m in z ==> m in g || exists i :: 0 <= i < |scored| && scored[i].1 == m
    ensures PutScores(g, scored) == z
    decreases scored
  {
    if scored != [] {
      var g' := g[scored[0].1 := scored[0].0.value];
      forall m | m in z ensures m in g' || exists i :: 0 <= i < |scored[1..]| && scored[1..][i].1 == m {
        if m !in g' {
          var i :| 0 <= i < |scored| && scored[i].1 == m;
          assert scored[1..][i - 1].1 == m;
        }
      }
      PutScoresAll(g', scored[1..], z);
    }
  }

  lemma RebuildsHash(s: State, key: Key, h: map<Bytes, Bytes>, pairs: seq<(Bytes, Bytes)>, now: int)
    requires Enumerates(pairs, h) && |h| > 0 && key !in s.data
    ensures Step(s, HMSet(key, pairs, false), now) == Ok(Put(s, key, Hash(h)))
  {
    var f :| f in h;
    PutFieldsAll(map[], pairs, h);
  }

  lemma RebuildsSet(s: State, key: Key, names: seq<Bytes>, now: int)
    requires |AsSet(names)| > 0 && key !in s.data
    ensures Step(s, SAdd(key, names), now) == Ok(Put(s, key, Set(AsSet(names))))
  {
    var m :| m in AsSet(names);
    assert {} + AsSet(names) == AsSet(names);
  }

  lemma RebuildsZSet(s: State, key: Key, z: map<Bytes, real>, scored: seq<(Option<real>, Bytes)>, now: int)
    requires EnumeratesScores(scored, z) && |z| > 0 && key !in s.data
    ensures Step(s, ZAdd(key, scored, false), now) == Ok(Put(s, key, ZSet(z)))
  {
    var m :| m in z;
    PutScoresAll(map[], scored, z);
  }

  lemma RebuildsList(s: State, key: Key, vals: seq<Bytes>, now: int)
    requires |vals| > 0 && key !in s.data
    ensures Step(s, RPush(key, vals), now) == Ok(Put(s, key, List(vals)))
  {
    assert [] + vals == vals;
  }

  lemma RebuildsStr(s: State, key: Key, val: Bytes, now: int)
    ensures Step(s, SetCmd(key, val, []), now) == Ok(ClearTtl(Put(s, key, Str(val)), key))
  {
  }

  /** The state in which an entity has just been rebuilt. */
  function Rebuilt(s: State, key: Key, e: Entity): State {
    if e.Str? then ClearTtl(Put(s, key, e), key) else Put(s, key, e)
  }

  /** Executed where the key is absent, the command rebuilds the entity and touches no other key. */
  lemma Rebuilds(s: State, key: Key, e: Entity, c: Cmd, now: int)
    requires Encodes(key, e, c) && !IsEmpty(e) && key !in s.data
    ensures Step(s, c, now) == Ok(Rebuilt(s, key, e))
  {
    match e
    case Str(val) => RebuildsStr(s, key, val, now);
    case List(vals) => RebuildsList(s, key, vals, now);
    case Hash(h) =>
      assert c == HMSet(key, c.pairs, false);
      RebuildsHash(s, key, h, c.pairs, now);
    case Set(m) =>
      assert c == SAdd(key, c.names);
      RebuildsSet(s, key, c.names, now);
    case ZSet(z) =>
      assert c == ZAdd(key, c.scored, false);
      RebuildsZSet(s, key, z, c.scored, now);
  }

  method SetToCmd(key: Key, members: set<Bytes>) returns (c: Cmd)
    ensures EncodesOnce(key, Set(members), c)
  {
    var args: seq<Bytes> := [];
    var rest := members;
    while rest != {}
      invariant rest <= members && AsSet(args) == members - rest && |args| == |members| - |rest|
      decreases rest
    {
      var m :| m in rest;
      assert AsSet(args + [m]) == AsSet(args) + {m};
      args := args + [m];
      rest := rest - {m};
    }
    c := SAdd(key, args);
  }

  method HashToCmd(key: Key, fields: map<Bytes, Bytes>) returns (c: Cmd)
    ensures EncodesOnce(key, Hash(fields), c)
  {
    var args: seq<(Bytes, Bytes)> := [];
    var rest := fields.Keys;
    while rest != {}
      invariant rest <= fields.Keys && |args| == |fields.Keys| - |rest|
      invariant forall i {:trigger args[i]} :: 0 <= i < |args| ==> args[i].0 in fields && fields[args[i].0] == args[i].1
      invariant forall f {:trigger f in fields} :: f in fields && f !in rest ==> exists i :: 0 <= i < |args| && args[i].0 == f
      decreases rest
    {
      var f :| f in rest;
      var more := args + [(f, fields[f])];
      forall g | g in fields && g !in rest - {f} ensures exists i :: 0 <= i < |more| && more[i].0 == g {
        if g == f {
          assert more[|args|].0 == g;
        } else {
          var i :| 0 <= i < |args| && args[i].0 == g;
          assert more[i].0 == g;
        }
      }
      args := more;
      rest := rest - {f};
    }
    assert |fields.Keys| == |fields|;
    c := HMSet(key, args, false);
  }

  method ZSetToCmd(key: Key, scores: map<Bytes, real>) returns (c: Cmd)
    ensures EncodesOnce(key, ZSet(scores), c)
  {
    var args: seq<(Option<real>, Bytes)> := [];
    var rest := scores.Keys;
    while rest != {}
      invariant rest <= scores.Keys && |args| == |scores.Keys| - |rest|
      invariant forall i {:trigger args[i]} :: 0 <= i < |args| ==> args[i].1 in scores && args[i].0 == Some(scores[args[i].1])
      invariant forall m {:trigger m in scores} :: m in scores && m !in rest ==> exists i :: 0 <= i < |args| && args[i].1 == m
      decreases rest
    {
      var m :| m in rest;
      var more := args + [(Some(scores[m]), m)];
      forall g | g in scores && g !in rest - {m} ensures exists i :: 0 <= i < |more| && more[i].1 == g {
        if g == m {
          assert more[|args|].1 == g;
        } else {
          var i :| 0 <= i < |args| && args[i].1 == g;
          assert more[i].1 == g;
        }
      }
      args := more;
      rest := rest - {m};
    }
    assert |scores.Keys| == |scores|;
    c := ZAdd(key, args, false);
  }

  /** None stands for the panic: an empty sorted set cannot be walked by rank. */
  method EntityToCmd(key: Key, e: Entity) returns (c: Option<Cmd>)
    ensures c.None? <==> e == ZSet(map[])
    ensures c.Some? ==> EncodesOnce(key, e, c.value)
  {
    match e
    case Str(val) => c := Some(SetCmd(key, val, []));
    case List(vals) => c := Some(RPush(key, vals));
    case Set(members) =>
      var made := SetToCmd(key, members);
      c := Some(made);
    case Hash(fields) =>
      var made := HashToCmd(key, fields);
      c := Some(made);
    case ZSet(scores) =>
      if |scores| == 0 {
        return None;
      }
      var made := ZSetToCmd(key, scores);
      c := Some(made);
  }
}
