/** cluster/core/tcc.go: what execRollback does to the keys, which runs the undo logs from tail to head. */
module TccUndoing {
  import opened Sequences
  import opened Numerals
  import opened Databases
  import opened Marshalling
  import opened Undoing
  import opened Rollbacks
  import opened Watching

  /** Commands that name one key change no other. */
  lemma {:induction false} RunElsewhere(t: State, log: seq<Cmd>, key: Key, now: int)
    requires forall c :: c in log ==> Changes(c) == {key}
    ensures Elsewhere(RunAll(t, log, now), t, {key})
    decreases log
  {
    if log != [] {
      assert log[0] in log;
      var t1 := Run(t, log[0], now);
      StepElsewhere(t, log[0], now);
      RunElsewhere(t1, log[1..], key, now);
      forall x | x != key ensures Same(RunAll(t, log, now), t, x) {
        assert Same(RunAll(t1, log[1..], now), t1, x) && Same(t1, t, x);
      }
    }
  }

  lemma KeyLog(s: State, key: Key, enc: Encoder)
    requires ValidEncoder(enc)
    ensures var log := RollbackKey(s, key, enc); log[0] == Del([key]) && forall c :: c in log[1..] ==> Changes(c) == {key}
  {
    if key in s.data {
      var log := RollbackKey(s, key, enc);
      assert Encodes(key, s.data[key], enc(key, s.data[key]));
      assert log[1..] == [log[1], log[2]];
    }
  }

  lemma DelLast(t: State, log: seq<Cmd>, key: Key, now: int)
    requires forall c :: c in log ==> Changes(c) == {key}
    ensures var r := RunAll(t, log + [Del([key])], now); key !in r.data && Elsewhere(r, t, {key})
  {
    var u := RunAll(t, log, now);
    RunAppend(t, log, [Del([key])], now);
    RunElsewhere(t, log, key, now);
    RunOne(u, Del([key]), now);
    RunDel(u, key, now);
    forall x | x != key ensures Same(Run(u, Del([key]), now), t, x) {
      assert Same(u, t, x);
    }
  }

  /** The log of one key begins with DEL, so that backwards it ends with it. */
  lemma KeyBackwards(s: State, key: Key, enc: Encoder, t: State, now: int)
    requires ValidEncoder(enc)
    ensures var r := RunAll(t, Reversed(RollbackKey(s, key, enc)), now); key !in r.data && Elsewhere(r, t, {key})
  {
    var log := RollbackKey(s, key, enc);
    KeyLog(s, key, enc);
    ReversedHead(log);
    assert forall c :: c in Reversed(log[1..]) ==> c in log[1..];
    DelLast(t, Reversed(log[1..]), key, now);
  }

  /** Wherever it is run, the log of rollbackGivenKeys removes all its keys, and leaves the others alone. */
  lemma {:induction false} KeysBackwards(s: State, keys: seq<Key>, enc: Encoder, t: State, now: int)
    requires ValidEncoder(enc)
    ensures var r := RunAll(t, Reversed(RollbackKeys(s, keys, enc)), now);
            (forall k :: k in keys ==> k !in r.data) && Elsewhere(r, t, AsSet(keys))
    decreases keys
  {
    if keys != [] {
      var first, rest := RollbackKey(s, keys[0], enc), RollbackKeys(s, keys[1..], enc);
      ReversedAppend(first, rest);
      RunAppend(t, Reversed(rest), Reversed(first), now);
      var u := RunAll(t, Reversed(rest), now);
      KeysBackwards(s, keys[1..], enc, t, now);
      KeyBackwards(s, keys[0], enc, u, now);
      var r := RunAll(u, Reversed(first), now);
      forall k ensures (k in keys ==> k !in r.data) && (k !in AsSet(keys) ==> Same(r, t, k)) {
        assert k != keys[0] ==> Same(r, u, k);
        assert k !in AsSet(keys[1..]) ==> Same(u, t, k);
        assert k in keys <==> k == keys[0] || k in keys[1..];
      }
    }
  }

  /** The loop of execRollback. */
  method RunBackwards(t: State, undoLogs: seq<Cmd>, now: int) returns (r: State)
    ensures r == RunAll(t, Reversed(undoLogs), now)
  {
    r := t;
    var i := |undoLogs|;
    while i > 0
      invariant 0 <= i <= |undoLogs| && r == RunAll(t, Reversed(undoLogs[i..]), now)
    {
      i := i - 1;
      ReversedHead(undoLogs[i..]);
      assert undoLogs[i..][1..] == undoLogs[i + 1..];
      RunAppend(t, Reversed(undoLogs[i + 1..]), [undoLogs[i]], now);
      RunOne(r, undoLogs[i], now);
      r := Run(r, undoLogs[i], now);
    }
    assert undoLogs[0..] == undoLogs;
  }

  /** So it restores the data, whether or not the command was committed, if and only if none of the keys was there. */
  lemma RollbackBackwards(s: State, keys: seq<Key>, enc: Encoder, t: State, now: int)
    requires ValidEncoder(enc) && forall k :: k !in keys ==> KeyOk(t, s, k)
    ensures RunAll(t, Reversed(RollbackKeys(s, keys, enc)), now).data == s.data <==> forall k :: k in keys ==> k !in s.data
  {
    KeysBackwards(s, keys, enc, t, now);
    var r := RunAll(t, Reversed(RollbackKeys(s, keys, enc)), now);
    if forall k :: k in keys ==> k !in s.data {
      forall k ensures (k in r.data <==> k in s.data) && (k in r.data ==> r.data[k] == s.data[k]) {
        assert k !in keys ==> k !in AsSet(keys) && Same(r, t, k) && KeyOk(t, s, k);
      }
      assert r.data == s.data;
    }
  }
}
