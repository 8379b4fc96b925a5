/** database/replication_slave.go: the databases a slave ends up with. Each connection to the master starts with database 0 selected. */
module Replicas {
  import opened Sequences
  import opened Numerals
  import opened Databases
  import opened Marshalling
  import opened Undoing
  import opened AppendOnlyFiles

  /** The slave executes the lines from `i` up to `n`; a connection begins before the lines at `begins`. */
  function Follow(s: Server, lines: seq<Line>, i: nat, n: nat, begins: set<nat>, at: int): (r: Server)
    requires Selects(s) && i <= n <= |lines|
    ensures Selects(r) && |r.dbs| == |s.dbs|
    decreases n - i
  {
    if i == n then s
    else Follow(ExecLine(Connected(s, i, begins), lines[i], at), lines, i + 1, n, begins, at)
  }

  function Connected(s: Server, i: nat, begins: set<nat>): Server {
    if i in begins then s.(sel := 0) else s
  }

  /** The slave has another database selected than the master, and the line changes what is in one of them. */
  predicate Strays(slave: Server, master: Server, l: Line, at: int)
    requires Selects(slave) && Selects(master) && |slave.dbs| == |master.dbs|
  {
    l.Write? && slave.sel != master.sel
    && (Step(master.dbs[slave.sel], l.cmd, at).state != master.dbs[slave.sel]
        || Step(master.dbs[master.sel], l.cmd, at).state != master.dbs[master.sel])
  }

  /** No line from `i` on strays. */
  predicate InStep(slave: Server, master: Server, lines: seq<Line>, i: nat, begins: set<nat>, at: int)
    requires Selects(slave) && Selects(master) && |slave.dbs| == |master.dbs| && i <= |lines|
    decreases |lines| - i
  {
    i == |lines| || var s := Connected(slave, i, begins);
      !Strays(s, master, lines[i], at) && InStep(ExecLine(s, lines[i], at), ExecLine(master, lines[i], at), lines, i + 1, begins, at)
  }

  lemma LineStrays(slave: Server, master: Server, l: Line, at: int)
    requires Selects(slave) && Selects(master) && slave.dbs == master.dbs
    ensures ExecLine(slave, l, at).dbs == ExecLine(master, l, at).dbs <==> !Strays(slave, master, l, at)
  {
    if l.Write? {
      var a, b := ExecLine(slave, l, at).dbs, ExecLine(master, l, at).dbs;
      assert a[slave.sel] == Step(master.dbs[slave.sel], l.cmd, at).state;
      assert b[master.sel] == Step(master.dbs[master.sel], l.cmd, at).state;
      assert slave.sel != master.sel ==> a[master.sel] == master.dbs[master.sel] && b[slave.sel] == master.dbs[slave.sel];
    }
  }

  /** After the lines from `i` up to `n` the slave holds what the master holds. */
  ghost predicate Equal(slave: Server, master: Server, lines: seq<Line>, i: nat, n: nat, begins: set<nat>, at: int)
    requires Selects(slave) && Selects(master) && i <= n <= |lines|
  {
    Follow(slave, lines, i, n, begins, at).dbs == Replay(master, lines[i..n], at).dbs
  }

  lemma EqualFurther(slave: Server, master: Server, lines: seq<Line>, i: nat, n: nat, begins: set<nat>, at: int)
    requires Selects(slave) && Selects(master) && i < n <= |lines|
    ensures var s := Connected(slave, i, begins);
            Equal(slave, master, lines, i, n, begins, at) <==> Equal(ExecLine(s, lines[i], at), ExecLine(master, lines[i], at), lines, i + 1, n, begins, at)
  {
    assert lines[i..n][1..] == lines[i + 1..n];
  }

  /** At every point of the stream the slave holds what the master holds, if and only if no line strays. */
  lemma {:induction false} FollowsMaster(slave: Server, master: Server, lines: seq<Line>, i: nat, begins: set<nat>, at: int)
    requires Selects(slave) && Selects(master) && slave.dbs == master.dbs && i <= |lines|
    ensures InStep(slave, master, lines, i, begins, at) <==>
            forall n {:trigger Equal(slave, master, lines, i, n, begins, at)} :: i <= n <= |lines| ==> Equal(slave, master, lines, i, n, begins, at)
    decreases |lines| - i
  {
    assert Equal(slave, master, lines, i, i, begins, at);
    if i < |lines| {
      var s := Connected(slave, i, begins);
      var t, m := ExecLine(s, lines[i], at), ExecLine(master, lines[i], at);
      LineStrays(s, master, lines[i], at);
      assert Equal(t, m, lines, i + 1, i + 1, begins, at) <==> t.dbs == m.dbs;
      forall n | i < n <= |lines|
        ensures Equal(slave, master, lines, i, n, begins, at) <==> Equal(t, m, lines, i + 1, n, begins, at)
      {
        EqualFurther(slave, master, lines, i, n, begins, at);
      }
      if t.dbs == m.dbs {
        FollowsMaster(t, m, lines, i + 1, begins, at);
        if !InStep(t, m, lines, i + 1, begins, at) {
          var n :| i + 1 <= n <= |lines| && !Equal(t, m, lines, i + 1, n, begins, at);
          assert !Equal(slave, master, lines, i, n, begins, at);
        }
      } else {
        assert !Equal(slave, master, lines, i, i + 1, begins, at);
      }
    }
  }

  /** It is so if every connection begins where the master has database 0 selected, or before a SELECT. */
  lemma {:induction false} SelectFirst(slave: Server, master: Server, lines: seq<Line>, i: nat, begins: set<nat>, at: int)
    requires Selects(slave) && Selects(master) && slave.dbs == master.dbs && i <= |lines| && InRange(lines, |master.dbs|)
    requires slave.sel == master.sel || i in begins || (i < |lines| && lines[i].Select?)
    requires forall k {:trigger k in begins} :: i <= k < |lines| && k in begins ==> lines[k].Select? || Replay(master, lines[i..k], at).sel == 0
    ensures InStep(slave, master, lines, i, begins, at)
    decreases |lines| - i
  {
    if i < |lines| {
      var s := Connected(slave, i, begins);
      var m := ExecLine(master, lines[i], at);
      assert lines[i] in lines;
      assert lines[i..i] == [];
      LineStrays(s, master, lines[i], at);
      forall k | i + 1 <= k < |lines| && k in begins ensures lines[k].Select? || Replay(m, lines[i + 1..k], at).sel == 0 {
        assert lines[i..k][1..] == lines[i + 1..k];
      }
      SelectFirst(ExecLine(s, lines[i], at), m, lines, i + 1, begins, at);
    }
  }

  const NONE: seq<State> := [EMPTY, EMPTY]

  function Holding(k: Key, x: Bytes): State {
    State(map[k := Str(x)], map[])
  }

  lemma SetIn(s: Server, k: Key, x: Bytes, at: int)
    requires Selects(s) && s.dbs[s.sel] == EMPTY
    ensures ExecLine(s, Write(SetCmd(k, x, [])), at) == s.(dbs := s.dbs[s.sel := Holding(k, x)])
  {
    RebuildsStr(EMPTY, k, x, at);
    assert ClearTtl(Put(EMPTY, k, Str(x)), k) == Holding(k, x);
  }

  /** A connection that begins while the master writes to database 1, be it after a full or a partial resynchronization: the next write goes to database 0. */
  lemma WritesElsewhere(k: Key, x: Bytes, at: int)
    ensures var lines := [Write(SetCmd(k, x, []))];
            && Replay(Server(NONE, 1), lines, at).dbs == [EMPTY, Holding(k, x)]
            && Follow(Server(NONE, 1), lines, 0, 1, {0}, at).dbs == [Holding(k, x), EMPTY]
  {
    var l := Write(SetCmd(k, x, []));
    SetIn(Server(NONE, 1), k, x, at);
    SetIn(Server(NONE, 0), k, x, at);
    assert Replay(Server(NONE, 1), [l], at) == Replay(ExecLine(Server(NONE, 1), l, at), [], at);
    assert Follow(Server(NONE, 1), [l], 0, 1, {0}, at) == ExecLine(Server(NONE, 0), l, at);
  }
}
