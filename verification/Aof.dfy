/** aof/: the append-only file, and its rewriting beside live appends. */
module AppendOnlyFiles {
  import opened Sequences
  import opened Numerals
  import opened Databases
  import opened Marshalling
  import opened Undoing
  import opened Rollbacks
  import opened Transactions
  import opened Expiries

  datatype Line = Select(index: nat) | Write(cmd: Cmd)

  /** The databases, and the one the replaying connection has selected. */
  datatype Server = Server(dbs: seq<State>, sel: nat)

  const EMPTY := State(map[], map[])

  ghost predicate Selects(v: Server) {
    v.sel < |v.dbs|
  }

  function ExecLine(v: Server, l: Line, at: int): (r: Server)
    requires Selects(v)
    ensures Selects(r) && |r.dbs| == |v.dbs|
  {
    match l
    case Select(i) => if i < |v.dbs| then v.(sel := i) else v
    case Write(c) => v.(dbs := v.dbs[v.sel := Step(v.dbs[v.sel], c, at).state])
  }

  function Replay(v: Server, lines: seq<Line>, at: int): (r: Server)
    requires Selects(v)
    ensures Selects(r) && |r.dbs| == |v.dbs|
    decreases lines
  {
    if lines == [] then v else Replay(ExecLine(v, lines[0], at), lines[1..], at)
  }

  lemma {:induction false} ReplayAppend(v: Server, a: seq<Line>, b: seq<Line>, at: int)
    requires Selects(v)
    ensures Replay(v, a + b, at) == Replay(Replay(v, a, at), b, at)
    decreases a
  {
    if a == [] {
      assert a + b == b;
    } else {
      assert (a + b)[1..] == a[1..] + b;
      ReplayAppend(ExecLine(v, a[0], at), a[1..], b, at);
    }
  }

  /* ---- What a log means at different times ---- */

  /** The expiries that the lines set. */
  function TimesOf(lines: seq<Line>): set<int> {
    set l | l in lines && l.Write? && Sets(l.cmd).Some? :: Sets(l.cmd).value
  }

  predicate NoneToItself(lines: seq<Line>) {
    forall l :: l in lines && l.Write? ==> !RenamesToItself(l.cmd)
  }

  function RuleOf(lines: seq<Line>): Rule {
    Rule(TimesOf(lines), NoneToItself(lines))
  }

  predicate AllRegular(lines: seq<Line>, rule: Rule) {
    forall l :: l in lines && l.Write? ==> Regular(l.cmd, rule)
  }

  ghost predicate AllSound(v: Server, rule: Rule) {
    Selects(v) && forall i {:trigger v.dbs[i]} :: 0 <= i < |v.dbs| ==> Sound(v.dbs[i], rule)
  }

  lemma LineSound(v: Server, l: Line, at: int, rule: Rule)
    requires AllSound(v, rule) && (l.Write? ==> Regular(l.cmd, rule))
    ensures AllSound(ExecLine(v, l, at), rule)
  {
    if l.Write? {
      StepSound(v.dbs[v.sel], l.cmd, at, rule);
    }
  }

  /** Whenever a log is replayed, expired keys or not, the databases are sound. */
  lemma {:induction false} ReplaySound(v: Server, lines: seq<Line>, at: int, rule: Rule)
    requires AllSound(v, rule) && AllRegular(lines, rule)
    ensures AllSound(Replay(v, lines, at), rule)
    decreases lines
  {
    if lines != [] {
      assert lines[0] in lines;
      LineSound(v, lines[0], at, rule);
      ReplaySound(ExecLine(v, lines[0], at), lines[1..], at, rule);
    }
  }

  predicate LineTells(v: Server, l: Line, at: int, now: int)
    requires Selects(v)
  {
    l.Write? && Tells(v.dbs[v.sel], l.cmd, at, now)
  }

  /** No line tells the two times apart. */
  predicate Steady(v: Server, lines: seq<Line>, at: int, now: int)
    requires Selects(v)
    decreases lines
  {
    lines == [] || (!LineTells(v, lines[0], at, now) && Steady(ExecLine(v, lines[0], now), lines[1..], at, now))
  }

  /** As far as they have been replayed, the lines mean the same at both times. */
  ghost predicate AlikeUpTo(v: Server, lines: seq<Line>, at: int, now: int, n: nat)
    requires Selects(v) && n <= |lines|
  {
    Replay(v, lines[..n], at) == Replay(v, lines[..n], now)
  }

  lemma LineAlike(v: Server, l: Line, at: int, now: int, rule: Rule)
    requires AllSound(v, rule) && (l.Write? ==> Regular(l.cmd, rule))
    ensures ExecLine(v, l, at) == ExecLine(v, l, now) <==> !LineTells(v, l, at, now)
  {
    if l.Write? {
      var s := v.dbs[v.sel];
      StepTells(s, l.cmd, at, now);
      assert ExecLine(v, l, at).dbs[v.sel] == Step(s, l.cmd, at).state;
      assert ExecLine(v, l, now).dbs[v.sel] == Step(s, l.cmd, now).state;
    }
  }

  lemma AlikeFurther(v: Server, lines: seq<Line>, at: int, now: int, n: nat)
    requires Selects(v) && 0 < n <= |lines| && ExecLine(v, lines[0], at) == ExecLine(v, lines[0], now)
    ensures AlikeUpTo(v, lines, at, now, n) <==> AlikeUpTo(ExecLine(v, lines[0], now), lines[1..], at, now, n - 1)
  {
    assert lines[..n][1..] == lines[1..][..n - 1];
  }

  lemma AlikeOnce(v: Server, lines: seq<Line>, at: int, now: int)
    requires Selects(v) && lines != []
    ensures AlikeUpTo(v, lines, at, now, 1) <==> ExecLine(v, lines[0], at) == ExecLine(v, lines[0], now)
  {
    assert lines[..1] == [lines[0]];
    assert forall t :: Replay(v, [lines[0]], t) == Replay(ExecLine(v, lines[0], t), [], t);
  }

  /** Every beginning of a log means the same at both times if and only if no line looks up a key that has expired at only one of them (and does not take it away in any case). */
  lemma {:induction false} ReplayTells(v: Server, lines: seq<Line>, at: int, now: int, rule: Rule)
    requires AllSound(v, rule) && AllRegular(lines, rule)
    ensures Steady(v, lines, at, now) <==> forall n {:trigger AlikeUpTo(v, lines, at, now, n)} :: 0 <= n <= |lines| ==> AlikeUpTo(v, lines, at, now, n)
    decreases lines
  {
    assert AlikeUpTo(v, lines, at, now, 0);
    if lines != [] {
      var l := lines[0];
      assert l in lines;
      var w := ExecLine(v, l, now);
      LineAlike(v, l, at, now, rule);
      LineSound(v, l, now, rule);
      AlikeOnce(v, lines, at, now);
      ReplayTells(w, lines[1..], at, now, rule);
      if !LineTells(v, l, at, now) {
        forall n | 0 < n <= |lines|
          ensures AlikeUpTo(v, lines, at, now, n) <==> AlikeUpTo(w, lines[1..], at, now, n - 1)
        {
          AlikeFurther(v, lines, at, now, n);
        }
        forall n | 0 <= n <= |lines[1..]|
          ensures AlikeUpTo(v, lines, at, now, n + 1) <==> AlikeUpTo(w, lines[1..], at, now, n)
        {
          AlikeFurther(v, lines, at, now, n + 1);
        }
      }
    }
  }

  lemma SteadyAlike(v: Server, lines: seq<Line>, at: int, now: int, rule: Rule)
    requires AllSound(v, rule) && AllRegular(lines, rule) && Steady(v, lines, at, now)
    ensures Replay(v, lines, at) == Replay(v, lines, now)
  {
    ReplayTells(v, lines, at, now, rule);
    assert AlikeUpTo(v, lines, at, now, |lines|) && lines[..|lines|] == lines;
  }

  /** In particular if the two times have passed the same expiries. */
  lemma {:induction false} AgreedSteady(v: Server, lines: seq<Line>, at: int, now: int, rule: Rule)
    requires AllSound(v, rule) && AllRegular(lines, rule) && Agree(rule.times, at, now)
    ensures Steady(v, lines, at, now)
    decreases lines
  {
    if lines != [] {
      assert lines[0] in lines;
      AgreedNotTold(v.dbs[v.sel], if lines[0].Write? then lines[0].cmd else Del([]), at, now, rule);
      LineSound(v, lines[0], now, rule);
      AgreedSteady(ExecLine(v, lines[0], now), lines[1..], at, now, rule);
    }
  }

  /** Renaming a key to itself deletes it; an expiry it had stays behind. */
  lemma SelfRename(s: State, k: Key, at: int)
    requires Clean(s) && Live(s, at) && k in s.data
    ensures var t := Step(s, Rename(k, k), at).state; k !in t.data && (Clean(t) <==> k !in s.ttl)
  {
    var t := Step(s, Rename(k, k), at).state;
    assert k in s.ttl ==> k in t.ttl;
  }

  /** RENAME: the entity moves; an expiry moves with it, but one that the destination had stays if the source has none. */
  lemma RenameExpiry(s: State, src: Key, dest: Key, at: int)
    requires Live(s, at) && src in s.data && src != dest
    ensures var t := Step(s, Rename(src, dest), at).state;
            && src !in t.data && dest in t.data && t.data[dest] == s.data[src]
            && ((dest in t.ttl <==> src in s.ttl) && (src in s.ttl ==> t.ttl[dest] == s.ttl[src]) <==> src in s.ttl || dest !in s.ttl)
            && (src !in s.ttl && dest in s.ttl ==> dest in t.ttl && t.ttl[dest] == s.ttl[dest])
  {
    assert Swept(s, src, at) == s;
  }

  /* ---- Dumping a database ---- */

  function Restrict(s: State, keys: set<Key>): State {
    State(map k | k in s.data && k in keys :: s.data[k], map k | k in s.ttl && k in keys :: s.ttl[k])
  }

  /** The commands generateAof writes for one key. */
  ghost predicate DumpsKey(s: State, k: Key, cmds: seq<Cmd>)
    requires k in s.data
  {
    |cmds| == (if k in s.ttl then 2 else 1) && Encodes(k, s.data[k], cmds[0])
    && (k in s.ttl ==> cmds[1] == PExpireAt(k, FormatInt(s.ttl[k])))
  }

  lemma RestrictMore(s: State, k: Key, done: set<Key>)
    requires k in s.data && k !in done
    ensures var t := Rebuilt(Restrict(s, done), k, s.data[k]);
            Restrict(s, done + {k}) == if k in s.ttl then SetTtl(t, k, s.ttl[k]) else t
  {
    var t, u := Rebuilt(Restrict(s, done), k, s.data[k]), Restrict(s, done + {k});
    assert t.data == u.data;
    assert k !in Restrict(s, done).ttl;
    if k in s.ttl {
      assert SetTtl(t, k, s.ttl[k]).ttl == u.ttl;
    } else {
      assert t.ttl == u.ttl;
    }
  }

  /** Where the key has no expiry yet, PEXPIREAT sets it, whether or not the time has passed. */
  lemma DumpedTtl(t: State, k: Key, e: int, at: int)
    requires k in t.data && k !in t.ttl && IsInt64(e)
    ensures Run(t, PExpireAt(k, FormatInt(e)), at) == SetTtl(t, k, e)
  {
    ParseFormat(e);
  }

  /** The commands for one key rebuild it, with its expiry, even if that has passed. */
  lemma DumpedKey(s: State, k: Key, cmds: seq<Cmd>, done: set<Key>, at: int, rule: Rule)
    requires Tidy(s, rule) && k in s.data && !IsEmpty(s.data[k]) && DumpsKey(s, k, cmds) && k !in done
    ensures RunAll(Restrict(s, done), cmds, at) == Restrict(s, done + {k})
  {
    var t := Restrict(s, done);
    var t1 := Rebuilt(t, k, s.data[k]);
    Rebuilds(t, k, s.data[k], cmds[0], at);
    RestrictMore(s, k, done);
    if k in s.ttl {
      assert cmds == [cmds[0], cmds[1]];
      RunTwo(t, cmds[0], cmds[1], at);
      DumpedTtl(t1, k, s.ttl[k], at);
    } else {
      assert cmds == [cmds[0]];
      RunOne(t, cmds[0], at);
    }
  }

  /** Whenever they are executed, the commands take an empty database to this one. */
  ghost predicate Gives(cmds: seq<Cmd>, s: State) {
    forall at {:trigger RunAll(EMPTY, cmds, at)} :: RunAll(EMPTY, cmds, at) == s
  }

  lemma GivesMore(cmds: seq<Cmd>, s: State, k: Key, more: seq<Cmd>, done: set<Key>, rule: Rule)
    requires Gives(cmds, Restrict(s, done))
    requires Tidy(s, rule) && k in s.data && !IsEmpty(s.data[k]) && DumpsKey(s, k, more) && k !in done
    ensures Gives(cmds + more, Restrict(s, done + {k}))
  {
    forall at ensures RunAll(EMPTY, cmds + more, at) == Restrict(s, done + {k}) {
      RunAppend(EMPTY, cmds, more, at);
      DumpedKey(s, k, more, done, at, rule);
    }
  }

  predicate CmdsRegular(cmds: seq<Cmd>, rule: Rule) {
    forall c :: c in cmds ==> Regular(c, rule)
  }

  lemma DumpRegular(s: State, k: Key, cmds: seq<Cmd>, rule: Rule)
    requires Tidy(s, rule) && k in s.data && DumpsKey(s, k, cmds)
    ensures CmdsRegular(cmds, rule)
  {
    assert ParseSet([], Upsert, 0) == SetPlan(Upsert, 0);
    if k in s.ttl {
      ParseFormat(s.ttl[k]);
      assert Sets(cmds[1]) == Some(s.ttl[k]);
    }
  }

  /** Only an expiry without a key is not dumped. */
  lemma RestrictAll(s: State)
    ensures Restrict(s, s.data.Keys) == s <==> Clean(s)
  {
    var t := Restrict(s, s.data.Keys);
    assert t.data == s.data;
    if Clean(s) {
      assert t.ttl == s.ttl;
    }
  }

  ghost predicate Writable(s: State) {
    forall k :: k in s.data ==> s.data[k] != ZSet(map[])
  }

  /** The commands written for the keys that have been visited. */
  ghost predicate DumpedSo(s: State, cmds: seq<Cmd>, done: set<Key>, rule: Rule) {
    Sound(s, rule) ==> Gives(cmds, Restrict(s, done)) && CmdsRegular(cmds, rule)
  }

  lemma DumpedMore(s: State, cmds: seq<Cmd>, done: set<Key>, k: Key, more: seq<Cmd>, rule: Rule)
    requires DumpedSo(s, cmds, done, rule) && k in s.data && k !in done && DumpsKey(s, k, more) && s.data[k] != ZSet(map[])
    ensures DumpedSo(s, cmds + more, done + {k}, rule)
  {
    if Sound(s, rule) {
      GivesMore(cmds, s, k, more, done, rule);
      DumpRegular(s, k, more, rule);
    }
  }

  lemma DumpedAll(s: State, cmds: seq<Cmd>, rule: Rule)
    requires DumpedSo(s, cmds, s.data.Keys, rule) && Sound(s, rule)
    ensures Gives(cmds, s) <==> Clean(s)
  {
    RestrictAll(s);
    assert RunAll(EMPTY, cmds, 0) == Restrict(s, s.data.Keys);
  }

  /** The callback of generateAof over the keys of a database, in any order; false if it panics. */
  method DumpDB(s: State, ghost rule: Rule) returns (cmds: seq<Cmd>, ok: bool)
    ensures ok <==> Writable(s)
    ensures ok && Sound(s, rule) ==> Gives(cmds, Restrict(s, s.data.Keys)) && CmdsRegular(cmds, rule) && (Gives(cmds, s) <==> Clean(s))
  {
    cmds := [];
    var rest := s.data.Keys;
    assert Restrict(s, {}) == EMPTY;
    while rest != {}
      invariant rest <= s.data.Keys
      invariant forall k :: k in s.data && k !in rest ==> s.data[k] != ZSet(map[])
      invariant DumpedSo(s, cmds, s.data.Keys - rest, rule)
      decreases rest
    {
      var k :| k in rest;
      var c := EntityToCmd(k, s.data[k]);
      if c.None? {
        return cmds, false;
      }
      var more := [c.value];
      if k in s.ttl {
        more := more + [PExpireAt(k, FormatInt(s.ttl[k]))];
      }
      DumpedMore(s, cmds, s.data.Keys - rest, k, more, rule);
      assert s.data.Keys - rest + {k} == s.data.Keys - (rest - {k});
      cmds := cmds + more;
      rest := rest - {k};
    }
    assert s.data.Keys - {} == s.data.Keys;
    if Sound(s, rule) {
      DumpedAll(s, cmds, rule);
    }
    ok := true;
  }

  /* ---- The file and its rewriting ---- */

  /** The database selected at the end of some lines. */
  function Selected(lines: seq<Line>, start: nat): nat {
    if lines == [] then start
    else var l := lines[|lines| - 1]; if l.Select? then l.index else Selected(lines[..|lines| - 1], start)
  }

  ghost predicate InRange(lines: seq<Line>, n: nat) {
    forall l :: l in lines && l.Select? ==> l.index < n
  }

  lemma {:induction false} SelectedAppend(a: seq<Line>, b: seq<Line>, start: nat)
    ensures Selected(a + b, start) == Selected(b, Selected(a, start))
    decreases b
  {
    if b == [] {
      assert a + b == a;
    } else {
      var m := |b| - 1;
      assert (a + b)[..|a + b| - 1] == a + b[..m];
      SelectedAppend(a, b[..m], start);
    }
  }

  /** What the replaying connection has selected is what the lines say. */
  lemma {:induction false} ReplaySelects(v: Server, lines: seq<Line>, at: int)
    requires Selects(v) && InRange(lines, |v.dbs|)
    ensures Replay(v, lines, at).sel == Selected(lines, v.sel)
    decreases lines
  {
    if lines != [] {
      assert lines[0] in lines;
      ReplaySelects(ExecLine(v, lines[0], at), lines[1..], at);
      assert lines == [lines[0]] + lines[1..];
      SelectedAppend([lines[0]], lines[1..], v.sel);
    }
  }

  function Fresh(n: nat): (v: Server)
    requires n > 0
    ensures Selects(v) && |v.dbs| == n && forall i :: 0 <= i < n ==> v.dbs[i] == EMPTY
  {
    Server(seq(n, _ => EMPTY), 0)
  }

  lemma FreshSound(n: nat, rule: Rule)
    requires n > 0
    ensures AllSound(Fresh(n), rule)
  {
  }

  function Lines(cmds: seq<Cmd>): (lines: seq<Line>)
    ensures |lines| == |cmds| && forall i :: 0 <= i < |cmds| ==> lines[i] == Write(cmds[i])
  {
    seq(|cmds|, i requires 0 <= i < |cmds| => Write(cmds[i]))
  }

  lemma {:induction false} ReplayLines(v: Server, cmds: seq<Cmd>, at: int)
    requires Selects(v)
    ensures Replay(v, Lines(cmds), at) == v.(dbs := v.dbs[v.sel := RunAll(v.dbs[v.sel], cmds, at)])
    decreases cmds
  {
    if cmds == [] {
      assert v.dbs[v.sel := v.dbs[v.sel]] == v.dbs;
    } else {
      assert Lines(cmds)[1..] == Lines(cmds[1..]);
      ReplayLines(ExecLine(v, Write(cmds[0]), at), cmds[1..], at);
    }
  }

  /** What LoadAof reads of a file: a limit of 0 stands for no limit. */
  function Limit(file: seq<Line>, size: nat): seq<Line> {
    if 0 < size <= |file| then file[..size] else file
  }

  method LoadAof(file: seq<Line>, size: nat, n: nat, at: int) returns (v: Server, currentDB: nat)
    requires n > 0
    ensures v == Replay(Fresh(n), Limit(file, size), at) && currentDB == Selected(Limit(file, size), 0)
  {
    var lines := Limit(file, size);
    v, currentDB := Fresh(n), 0;
    var i := 0;
    while i < |lines|
      invariant 0 <= i <= |lines| && Selects(v) && |v.dbs| == n
      invariant Replay(v, lines[i..], at) == Replay(Fresh(n), lines, at) && currentDB == Selected(lines[..i], 0)
    {
      assert lines[i..][1..] == lines[i + 1..] && lines[..i + 1][..i] == lines[..i];
      v := ExecLine(v, lines[i], at);
      if lines[i].Select? {
        currentDB := lines[i].index;
      }
      i := i + 1;
    }
    assert lines[..|lines|] == lines;
  }

  /** What a dump gives: expiries without a key are left out. */
  function Tidied(dbs: seq<State>): (r: seq<State>)
    ensures |r| == |dbs| && forall i {:trigger r[i]} :: 0 <= i < |dbs| ==> r[i] == Restrict(dbs[i], dbs[i].data.Keys)
  {
    seq(|dbs|, i requires 0 <= i < |dbs| => Restrict(dbs[i], dbs[i].data.Keys))
  }

  ghost predicate AllClean(dbs: seq<State>) {
    forall i {:trigger dbs[i]} :: 0 <= i < |dbs| ==> Clean(dbs[i])
  }

  lemma TidiedIs(dbs: seq<State>)
    ensures Tidied(dbs) == dbs <==> AllClean(dbs)
  {
    forall i {:trigger dbs[i]} | 0 <= i < |dbs| ensures Tidied(dbs)[i] == dbs[i] <==> Clean(dbs[i]) {
      RestrictAll(dbs[i]);
    }
  }

  /** Every entity of every database can be written as a command. */
  ghost predicate AllWritable(dbs: seq<State>) {
    forall i {:trigger dbs[i]} :: 0 <= i < |dbs| ==> Writable(dbs[i])
  }

  /** A server of which the first `i` databases have been dumped and replayed. */
  ghost function Dumped(dbs: seq<State>, i: nat): Server
    requires i <= |dbs|
  {
    Server(dbs[..i] + seq(|dbs| - i, _ => EMPTY), if i == 0 then 0 else i - 1)
  }

  lemma DumpOne(v: Server, dbs: seq<State>, i: nat, cmds: seq<Cmd>, at: int)
    requires i < |dbs| && v == Dumped(dbs, i) && RunAll(EMPTY, cmds, at) == dbs[i]
    ensures Replay(v, [Select(i)] + Lines(cmds), at) == Dumped(dbs, i + 1)
  {
    var w := v.(sel := i);
    ReplayAppend(v, [Select(i)], Lines(cmds), at);
    assert Replay(v, [Select(i)], at) == Replay(w, [], at);
    ReplayLines(w, cmds, at);
    assert w.dbs[i := dbs[i]] == Dumped(dbs, i + 1).dbs;
  }

  /** Whenever they are replayed, the lines give the first `i` of the databases. */
  ghost predicate GivesUpTo(tmp: seq<Line>, dbs: seq<State>, i: nat)
    requires i <= |dbs| && |dbs| > 0
  {
    forall at {:trigger Replay(Fresh(|dbs|), tmp, at)} :: Replay(Fresh(|dbs|), tmp, at) == Dumped(dbs, i)
  }

  lemma DumpNext(tmp: seq<Line>, dbs: seq<State>, i: nat, cmds: seq<Cmd>)
    requires i < |dbs| && GivesUpTo(tmp, dbs, i) && Gives(cmds, dbs[i])
    ensures GivesUpTo(tmp + ([Select(i)] + Lines(cmds)), dbs, i + 1)
  {
    var more := [Select(i)] + Lines(cmds);
    forall at ensures Replay(Fresh(|dbs|), tmp + more, at) == Dumped(dbs, i + 1) {
      assert RunAll(EMPTY, cmds, at) == dbs[i];
      DumpOne(Dumped(dbs, i), dbs, i, cmds, at);
      ReplayAppend(Fresh(|dbs|), tmp, more, at);
    }
  }

  lemma MoreInRange(tmp: seq<Line>, i: nat, cmds: seq<Cmd>, n: nat)
    requires InRange(tmp, n) && i < n
    ensures InRange(tmp + ([Select(i)] + Lines(cmds)), n)
  {
  }

  lemma MoreRegular(tmp: seq<Line>, i: nat, cmds: seq<Cmd>, rule: Rule)
    requires AllRegular(tmp, rule) && CmdsRegular(cmds, rule)
    ensures AllRegular(tmp + ([Select(i)] + Lines(cmds)), rule)
  {
  }

  /** Whenever they are replayed, the lines give these databases. */
  ghost predicate AlwaysGives(tmp: seq<Line>, dbs: seq<State>) {
    |dbs| > 0 && forall at {:trigger Replay(Fresh(|dbs|), tmp, at)} :: Replay(Fresh(|dbs|), tmp, at).dbs == dbs
  }

  lemma DumpedDb(tmp: seq<Line>, dbs: seq<State>, i: nat, cmds: seq<Cmd>, rule: Rule)
    requires i < |dbs| && AllSound(Server(dbs, 0), rule) && AllRegular(tmp, rule) && GivesUpTo(tmp, Tidied(dbs), i)
    requires Sound(dbs[i], rule) ==> Gives(cmds, Restrict(dbs[i], dbs[i].data.Keys)) && CmdsRegular(cmds, rule)
    ensures var more := tmp + ([Select(i)] + Lines(cmds)); AllRegular(more, rule) && GivesUpTo(more, Tidied(dbs), i + 1)
  {
    assert Sound(Server(dbs, 0).dbs[i], rule);
    DumpNext(tmp, Tidied(dbs), i, cmds);
    MoreRegular(tmp, i, cmds, rule);
  }

  /** The loop of generateAof over the databases. */
  method DumpAll(dbs: seq<State>, ghost rule: Rule) returns (tmp: seq<Line>, ok: bool)
    requires |dbs| > 0
    ensures InRange(tmp, |dbs|) && (ok <==> AllWritable(dbs))
    ensures ok && AllSound(Server(dbs, 0), rule) ==> AllRegular(tmp, rule) && AlwaysGives(tmp, Tidied(dbs))
  {
    tmp := [];
    var i := 0;
    ghost var sound := AllSound(Server(dbs, 0), rule);
    assert Dumped(Tidied(dbs), 0) == Fresh(|dbs|);
    while i < |dbs|
      invariant 0 <= i <= |dbs| && InRange(tmp, |dbs|)
      invariant forall j {:trigger dbs[j]} :: 0 <= j < i ==> Writable(dbs[j])
      invariant sound ==> AllRegular(tmp, rule) && GivesUpTo(tmp, Tidied(dbs), i)
    {
      var cmds, dumped := DumpDB(dbs[i], rule);
      if !dumped {
        assert !Writable(dbs[i]);
        return tmp, false;
      }
      if sound {
        DumpedDb(tmp, dbs, i, cmds, rule);
      }
      MoreInRange(tmp, i, cmds, |dbs|);
      tmp := tmp + ([Select(i)] + Lines(cmds));
      i := i + 1;
    }
    assert Dumped(Tidied(dbs), |dbs|).dbs == Tidied(dbs);
    ok := true;
  }

  /** `at` is the time of the dump: whenever the temporary file is replayed, it gives what the lines it was made from meant then. */
  method GenerateAof(file: seq<Line>, size: nat, n: nat, at: int, ghost rule: Rule) returns (tmp: seq<Line>, ok: bool)
    requires n > 0
    ensures ok <==> AllWritable(Replay(Fresh(n), Limit(file, size), at).dbs)
    ensures InRange(tmp, n)
    ensures ok && AllRegular(Limit(file, size), rule) ==>
              AllRegular(tmp, rule) && AlwaysGives(tmp, Tidied(Replay(Fresh(n), Limit(file, size), at).dbs))
  {
    var v, _ := LoadAof(file, size, n, at);
    if AllRegular(Limit(file, size), rule) {
      FreshSound(n, rule);
      ReplaySound(Fresh(n), Limit(file, size), at, rule);
      assert AllSound(Server(v.dbs, 0), rule);
    }
    tmp, ok := DumpAll(v.dbs, rule);
  }

  /** `tmp` is there once DoRewrite has filled the temporary file. */
  datatype RewriteCtx = RewriteCtx(tmp: Option<seq<Line>>, size: nat, dbIdx: nat)

  /** The lines a rewriting has dumped, when, and the recorded size: the lines behind it are copied. */
  datatype Dump = Dump(lines: seq<Line>, at: int, size: nat)

  ghost function Means(n: nat, lines: seq<Line>, at: int): Server
    requires n > 0
  {
    Replay(Fresh(n), lines, at)
  }

  /** The dump is of the lines that are not copied, leaves out no expiry, and the lines do not tell its time from `at`. */
  ghost predicate Harmless(n: nat, d: Dump, at: int)
    requires n > 0
  {
    |d.lines| == d.size && AllClean(Means(n, d.lines, d.at).dbs) && Steady(Fresh(n), d.lines, d.at, at)
  }

  /** The executors wrote the lines. */
  ghost predicate Logged(log: seq<Line>) {
    AllRegular(log, RuleOf(log))
  }

  /** So were all the rewritings. */
  ghost predicate Kept(n: nat, log: seq<Line>, past: seq<Dump>, at: int)
    requires n > 0
  {
    Logged(log) && forall d :: d in past ==> Harmless(n, d, at)
  }

  /** At any time for which they were, the file means what the log means. */
  ghost predicate MeansLog(n: nat, file: seq<Line>, log: seq<Line>, past: seq<Dump>)
    requires n > 0
  {
    forall at {:trigger Kept(n, log, past, at)} :: Kept(n, log, past, at) ==> Means(n, file, at) == Means(n, log, at)
  }

  /** No expiries but those of the log have come into the file. */
  ghost predicate RegularIn(file: seq<Line>, past: seq<Dump>, rule: Rule) {
    AllRegular(file, rule) && forall d :: d in past ==> AllRegular(d.lines, rule)
  }

  ghost predicate Rewrites(n: nat, file: seq<Line>, log: seq<Line>, past: seq<Dump>, currentDB: nat) {
    && n > 0 && InRange(file, n) && InRange(log, n) && Selected(file, 0) == currentDB == Selected(log, 0)
    && MeansLog(n, file, log, past) && (Logged(log) ==> RegularIn(file, past, RuleOf(log)))
  }

  /** The temporary file is the dump of these lines. */
  ghost predicate DumpOk(n: nat, d: Dump, tmp: seq<Line>, rule: Rule)
    requires n > 0
  {
    AllRegular(tmp, rule) && AllRegular(d.lines, rule) && AlwaysGives(tmp, Tidied(Means(n, d.lines, d.at).dbs))
  }

  ghost predicate CtxOk(n: nat, file: seq<Line>, log: seq<Line>, d: Dump, c: RewriteCtx)
    requires n > 0
  {
    && c.size <= |file| && c.dbIdx == Selected(file[..c.size], 0) < n
    && (c.tmp.Some? ==>
          && InRange(c.tmp.value, n) && d.size == c.size && d.lines <= file && (c.size > 0 ==> |d.lines| == c.size)
          && (Logged(log) ==> DumpOk(n, d, c.tmp.value, RuleOf(log))))
  }

  predicate Wider(rule: Rule, wider: Rule) {
    rule.times <= wider.times && (wider.strict ==> rule.strict)
  }

  /** A longer log has the expiries of the shorter one. */
  lemma LoggedAppend(log: seq<Line>, l: Line)
    ensures var more := log + [l];
            && Wider(RuleOf(log), RuleOf(more))
            && (Logged(more) ==> Logged(log) && (l.Write? ==> Regular(l.cmd, RuleOf(more))))
  {
    var more := log + [l];
    assert l in more && forall x :: x in log ==> x in more;
    forall x | x in log && x.Write? && Sets(x.cmd).Some? ensures Sets(x.cmd).value in TimesOf(log) && Sets(x.cmd).value in TimesOf(more) {
    }
  }

  lemma RegularGrows(lines: seq<Line>, rule: Rule, wider: Rule)
    requires AllRegular(lines, rule) && Wider(rule, wider)
    ensures AllRegular(lines, wider)
  {
  }

  lemma AppendMeans(n: nat, file: seq<Line>, log: seq<Line>, past: seq<Dump>, l: Line)
    requires n > 0 && MeansLog(n, file, log, past)
    ensures MeansLog(n, file + [l], log + [l], past)
  {
    LoggedAppend(log, l);
    forall at | Kept(n, log + [l], past, at) ensures Means(n, file + [l], at) == Means(n, log + [l], at) {
      assert Kept(n, log, past, at);
      ReplayAppend(Fresh(n), file, [l], at);
      ReplayAppend(Fresh(n), log, [l], at);
    }
  }

  lemma AppendRegular(file: seq<Line>, log: seq<Line>, past: seq<Dump>, l: Line)
    requires Logged(log) ==> RegularIn(file, past, RuleOf(log))
    ensures Logged(log + [l]) ==> RegularIn(file + [l], past, RuleOf(log + [l]))
  {
    LoggedAppend(log, l);
    var wider := RuleOf(log + [l]);
    if Logged(log + [l]) {
      RegularGrows(file, RuleOf(log), wider);
      forall d | d in past ensures AllRegular(d.lines, wider) {
        RegularGrows(d.lines, RuleOf(log), wider);
      }
    }
  }

  /** A line that is appended keeps everything as it is. */
  lemma AppendRewrites(n: nat, file: seq<Line>, log: seq<Line>, past: seq<Dump>, currentDB: nat, l: Line)
    requires Rewrites(n, file, log, past, currentDB) && (l.Select? ==> l.index < n)
    ensures Rewrites(n, file + [l], log + [l], past, if l.Select? then l.index else currentDB)
  {
    AppendMeans(n, file, log, past, l);
    AppendRegular(file, log, past, l);
    SelectedAppend(file, [l], 0);
    SelectedAppend(log, [l], 0);
  }

  lemma AppendCtx(n: nat, file: seq<Line>, log: seq<Line>, d: Dump, c: RewriteCtx, l: Line)
    requires n > 0 && CtxOk(n, file, log, d, c)
    ensures CtxOk(n, file + [l], log + [l], d, c)
  {
    assert (file + [l])[..c.size] == file[..c.size];
    LoggedAppend(log, l);
    if Logged(log + [l]) && c.tmp.Some? {
      RegularGrows(d.lines, RuleOf(log), RuleOf(log + [l]));
      RegularGrows(c.tmp.value, RuleOf(log), RuleOf(log + [l]));
    }
  }

  /** What a rewritten file means: what the dumped lines meant at the dump, and then those behind the recorded size, in the database selected there. */
  ghost function Rewritten(n: nat, d: Dump, file: seq<Line>, at: int): Server
    requires n > 0 && d.size <= |file| && Selected(file[..d.size], 0) < n
  {
    Replay(Server(Tidied(Means(n, d.lines, d.at).dbs), Selected(file[..d.size], 0)), file[d.size..], at)
  }

  function Merged(tmp: seq<Line>, dbIdx: nat, rest: seq<Line>, currentDB: nat): seq<Line> {
    tmp + [Select(dbIdx)] + rest + [Select(currentDB)]
  }

  lemma MergedMeans(n: nat, file: seq<Line>, log: seq<Line>, past: seq<Dump>, d: Dump, merged: seq<Line>)
    requires n > 0 && MeansLog(n, file, log, past)
    requires Logged(log) ==> forall at {:trigger Means(n, merged, at)} :: Harmless(n, d, at) ==> Means(n, merged, at) == Means(n, file, at)
    ensures MeansLog(n, merged, log, past + [d])
  {
    forall at | Kept(n, log, past + [d], at) ensures Means(n, merged, at) == Means(n, log, at) {
      assert d in past + [d] && forall x :: x in past ==> x in past + [d];
      assert Kept(n, log, past, at);
    }
  }

  lemma {:induction false} SelectedInRange(lines: seq<Line>, n: nat)
    requires InRange(lines, n) && n > 0
    ensures Selected(lines, 0) < n
    decreases lines
  {
    if lines != [] {
      assert lines[|lines| - 1] in lines;
      SelectedInRange(lines[..|lines| - 1], n);
    }
  }

  /** The dump of some lines, followed by the rest of the file, means what those lines meant at the dump and then the rest; the whole, if they are the ones before it and do not tell the times apart. */
  lemma DumpThenRest(file: seq<Line>, d: Dump, tmp: seq<Line>, n: nat, at: int, rule: Rule)
    requires n > 0 && d.size <= |file| && InRange(file, n) && d.lines <= file && AllRegular(d.lines, rule)
    requires AlwaysGives(tmp, Tidied(Means(n, d.lines, d.at).dbs))
    ensures var i, j := Selected(file[..d.size], 0), Selected(file, 0);
            var r := Replay(Fresh(n), tmp + [Select(i)] + file[d.size..] + [Select(j)], at);
            && i < n && r == Rewritten(n, d, file, at) && (Harmless(n, d, at) ==> r == Replay(Fresh(n), file, at))
  {
    var i, j := Selected(file[..d.size], 0), Selected(file, 0);
    var v := Server(Tidied(Means(n, d.lines, d.at).dbs), i);
    SelectedInRange(file[..d.size], n);
    SelectedInRange(file, n);
    ReplayAppend(Fresh(n), tmp, [Select(i)], at);
    assert Replay(Replay(Fresh(n), tmp, at), [Select(i)], at) == Replay(v, [], at);
    ReplayAppend(Fresh(n), tmp + [Select(i)], file[d.size..], at);
    assert file[..d.size] + file[d.size..] == file;
    SelectedAppend(file[..d.size], file[d.size..], 0);
    ReplaySelects(v, file[d.size..], at);
    ReplayAppend(Fresh(n), tmp + [Select(i)] + file[d.size..], [Select(j)], at);
    var w := Replay(v, file[d.size..], at);
    assert Replay(w, [Select(j)], at) == Replay(w, [], at);
    if Harmless(n, d, at) {
      HarmlessRest(n, d, file, at, rule);
    }
  }

  lemma HarmlessRest(n: nat, d: Dump, file: seq<Line>, at: int, rule: Rule)
    requires n > 0 && d.size <= |file| && InRange(file, n) && d.lines <= file && AllRegular(d.lines, rule) && Harmless(n, d, at)
    ensures Selected(file[..d.size], 0) < n && Rewritten(n, d, file, at) == Replay(Fresh(n), file, at)
  {
    SelectedInRange(file[..d.size], n);
    assert d.lines == file[..d.size] && file[..d.size] + file[d.size..] == file;
    TidiedIs(Means(n, d.lines, d.at).dbs);
    FreshSound(n, rule);
    SteadyAlike(Fresh(n), d.lines, d.at, at, rule);
    ReplaySelects(Fresh(n), file[..d.size], at);
    ReplayAppend(Fresh(n), file[..d.size], file[d.size..], at);
  }

  ghost predicate MergedIs(n: nat, file: seq<Line>, d: Dump, merged: seq<Line>)
    requires n > 0 && d.size <= |file| && Selected(file[..d.size], 0) < n
  {
    forall at {:trigger Means(n, merged, at)} ::
      Means(n, merged, at) == Rewritten(n, d, file, at) && (Harmless(n, d, at) ==> Means(n, merged, at) == Means(n, file, at))
  }

  lemma FinishMeans(n: nat, file: seq<Line>, log: seq<Line>, d: Dump, c: RewriteCtx)
    requires n > 0 && InRange(file, n) && CtxOk(n, file, log, d, c) && c.tmp.Some? && Logged(log)
    ensures MergedIs(n, file, d, Merged(c.tmp.value, c.dbIdx, file[c.size..], Selected(file, 0)))
  {
    var merged := Merged(c.tmp.value, c.dbIdx, file[c.size..], Selected(file, 0));
    forall at ensures Means(n, merged, at) == Rewritten(n, d, file, at) && (Harmless(n, d, at) ==> Means(n, merged, at) == Means(n, file, at)) {
      DumpThenRest(file, d, c.tmp.value, n, at, RuleOf(log));
    }
  }

  lemma MergedRegular(tmp: seq<Line>, i: nat, file: seq<Line>, size: nat, j: nat, n: nat, rule: Rule)
    requires size <= |file| && InRange(tmp, n) && InRange(file, n) && i < n && j < n
    ensures InRange(Merged(tmp, i, file[size..], j), n) && Selected(Merged(tmp, i, file[size..], j), 0) == j
    ensures AllRegular(tmp, rule) && AllRegular(file, rule) ==> AllRegular(Merged(tmp, i, file[size..], j), rule)
  {
    assert forall l :: l in Merged(tmp, i, file[size..], j) ==> l in tmp || l in file || l == Select(i) || l == Select(j);
  }

  /** The merged file keeps the invariant, with the dump among the past ones. */
  lemma FinishRewrites(n: nat, file: seq<Line>, log: seq<Line>, past: seq<Dump>, currentDB: nat, d: Dump, c: RewriteCtx)
    requires Rewrites(n, file, log, past, currentDB) && CtxOk(n, file, log, d, c) && c.tmp.Some?
    ensures var merged := Merged(c.tmp.value, c.dbIdx, file[c.size..], currentDB);
            Rewrites(n, merged, log, past + [d], currentDB) && (Logged(log) ==> MergedIs(n, file, d, merged))
  {
    var merged := Merged(c.tmp.value, c.dbIdx, file[c.size..], currentDB);
    SelectedInRange(file, n);
    MergedRegular(c.tmp.value, c.dbIdx, file, c.size, currentDB, n, RuleOf(log));
    if Logged(log) {
      FinishMeans(n, file, log, d, c);
    }
    MergedMeans(n, file, log, past, d, merged);
  }

  /** A rewriting at `at` of a file of the first `n` lines keeps what it means at `restart`. */
  ghost predicate KeptWith(dbs: nat, lines: seq<Line>, at: int, restart: int, n: nat)
    requires dbs > 0 && n <= |lines|
  {
    var some := lines[..n];
    Selected(some[..n], 0) < dbs && Rewritten(dbs, Dump(some, at, n), some, restart) == Means(dbs, some, restart)
  }

  /** Without a RENAME of a key to itself the dump leaves out nothing. */
  lemma MeansClean(n: nat, lines: seq<Line>, at: int, rule: Rule)
    requires n > 0 && AllRegular(lines, rule) && rule.strict
    ensures var dbs := Means(n, lines, at).dbs; AllClean(dbs) && Tidied(dbs) == dbs
  {
    FreshSound(n, rule);
    ReplaySound(Fresh(n), lines, at, rule);
    var dbs := Means(n, lines, at).dbs;
    forall i {:trigger dbs[i]} | 0 <= i < |dbs| ensures Clean(dbs[i]) {
      assert Sound(Means(n, lines, at).dbs[i], rule);
    }
    TidiedIs(dbs);
  }

  lemma KeptAlike(dbs: nat, lines: seq<Line>, at: int, restart: int, n: nat)
    requires dbs > 0 && n <= |lines| && InRange(lines, dbs) && Logged(lines) && NoneToItself(lines)
    ensures KeptWith(dbs, lines, at, restart, n) <==> AlikeUpTo(Fresh(dbs), lines, at, restart, n)
  {
    var some := lines[..n];
    MeansClean(dbs, some, at, RuleOf(lines));
    assert some[..n] == some && some[n..] == [];
    SelectedInRange(some, dbs);
    ReplaySelects(Fresh(dbs), some, at);
    ReplaySelects(Fresh(dbs), some, restart);
  }

  /** It is so at whatever moment of the writing it happens, if and only if no line tells the two times apart. */
  lemma RewriteTells(dbs: nat, lines: seq<Line>, at: int, restart: int)
    requires dbs > 0 && Logged(lines) && NoneToItself(lines) && InRange(lines, dbs)
    ensures Steady(Fresh(dbs), lines, at, restart) <==>
            forall n {:trigger KeptWith(dbs, lines, at, restart, n)} :: 0 <= n <= |lines| ==> KeptWith(dbs, lines, at, restart, n)
  {
    FreshSound(dbs, RuleOf(lines));
    ReplayTells(Fresh(dbs), lines, at, restart, RuleOf(lines));
    if Steady(Fresh(dbs), lines, at, restart) {
      forall n | 0 <= n <= |lines| ensures KeptWith(dbs, lines, at, restart, n) {
        KeptAlike(dbs, lines, at, restart, n);
      }
    } else {
      var n :| 0 <= n <= |lines| && !AlikeUpTo(Fresh(dbs), lines, at, restart, n);
      KeptAlike(dbs, lines, at, restart, n);
    }
  }

  class Persister {
    const databases: nat
    var file: seq<Line>
    var currentDB: nat
    var ctx: Option<RewriteCtx>

    /** Everything ever written, as if there had been no rewriting. */
    ghost var log: seq<Line>
    /** What DoRewrite has dumped, and what the rewritings before have. */
    ghost var dump: Dump
    ghost var past: seq<Dump>

    ghost predicate Valid()
      reads this
    {
      Rewrites(databases, file, log, past, currentDB) && (ctx.Some? ==> CtxOk(databases, file, log, dump, ctx.value))
    }

    /** Opening a file that was written before. */
    constructor (n: nat, written: seq<Line>)
      requires n > 0 && InRange(written, n)
      ensures Valid() && file == log == written && ctx == None && databases == n && past == []
    {
      databases := n;
      file, ctx, log, dump, past := written, None, written, Dump([], 0, 0), [];
      currentDB := Selected(written, 0);
    }

    method Append(l: Line)
      requires Valid() && (l.Select? ==> l.index < databases)
      modifies this
      ensures Valid() && file == old(file) + [l] && log == old(log) + [l] && ctx == old(ctx) && dump == old(dump) && past == old(past)
      ensures currentDB == if l.Select? then l.index else old(currentDB)
    {
      AppendRewrites(databases, file, log, past, currentDB, l);
      if ctx.Some? {
        AppendCtx(databases, file, log, dump, ctx.value, l);
      }
      file := file + [l];
      log := log + [l];
      if l.Select? {
        currentDB := l.index;
      }
    }

    method WriteAof(dbIndex: nat, c: Cmd)
      requires Valid() && dbIndex < databases
      modifies this
      ensures Valid() && currentDB == dbIndex && ctx == old(ctx) && dump == old(dump) && past == old(past)
      ensures var lines := (if dbIndex == old(currentDB) then [] else [Select(dbIndex)]) + [Write(c)];
              file == old(file) + lines && log == old(log) + lines
    {
      if dbIndex != currentDB {
        Append(Select(dbIndex));
      }
      Append(Write(c));
    }

    method StartRewrite()
      requires Valid() && ctx == None
      modifies this`ctx
      ensures Valid() && ctx == Some(RewriteCtx(None, |file|, currentDB))
    {
      assert file[..|file|] == file;
      SelectedInRange(file, databases);
      ctx := Some(RewriteCtx(None, |file|, currentDB));
    }

    /** False if the dump panicked on an empty sorted set; the rewriting is then over. */
    method DoRewrite(at: int) returns (ok: bool)
      requires Valid() && ctx.Some? && ctx.value.tmp == None
      modifies this`ctx, this`dump
      ensures Valid() && (ok <==> AllWritable(Means(databases, Limit(file, old(ctx.value.size)), at).dbs))
      ensures ok ==> ctx.Some? && ctx.value.tmp.Some? && dump == Dump(Limit(file, ctx.value.size), at, old(ctx.value.size))
      ensures !ok ==> ctx == None
    {
      var c := ctx.value;
      var tmp, generated := GenerateAof(file, c.size, databases, at, RuleOf(log));
      ok := generated;
      if ok {
        dump := Dump(Limit(file, c.size), at, c.size);
        ctx := Some(c.(tmp := Some(tmp)));
      } else {
        ctx := None;
      }
    }

    method FinishRewrite()
      requires Valid() && ctx.Some? && ctx.value.tmp.Some?
      modifies this`file, this`ctx, this`past
      ensures Valid() && ctx == None && past == old(past) + [dump]
      ensures dump.size <= |old(file)| && Selected(old(file)[..dump.size], 0) < databases
      ensures Logged(log) ==> forall at {:trigger Means(databases, file, at)} ::
                Means(databases, file, at) == Rewritten(databases, dump, old(file), at)
                && (Harmless(databases, dump, at) ==> Means(databases, file, at) == Means(databases, old(file), at))
    {
      var c := ctx.value;
      var merged := Merged(c.tmp.value, c.dbIdx, file[c.size..], currentDB);
      FinishRewrites(databases, file, log, past, currentDB, dump, c);
      file, ctx, past := merged, None, past + [dump];
    }

    /** Whenever the server restarts, it finds what replaying the whole log would give then, if every rewriting was harmless; as it is for a time that has passed the same of the logged expiries as the dump, if nothing was doubled. */
    lemma RestartsAlike(at: int)
      requires Valid()
      ensures Kept(databases, log, past, at) ==> Means(databases, file, at) == Means(databases, log, at)
      ensures Means(databases, file, at).sel == currentDB
      ensures Logged(log) && NoneToItself(log) && (forall d :: d in past ==> |d.lines| == d.size && Agree(TimesOf(log), d.at, at)) ==>
                Kept(databases, log, past, at)
    {
      ReplaySelects(Fresh(databases), file, at);
      if Logged(log) && NoneToItself(log) {
        FreshSound(databases, RuleOf(log));
        forall d | d in past && |d.lines| == d.size && Agree(TimesOf(log), d.at, at) ensures Harmless(databases, d, at) {
          MeansClean(databases, d.lines, d.at, RuleOf(log));
          AgreedSteady(Fresh(databases), d.lines, d.at, at, RuleOf(log));
        }
      }
    }
  }

  /** One RPUSH in the only database, and one more. */
  lemma PushTwice(k: Key, x: Bytes, now: int)
    ensures var lines := [Write(RPush(k, [x]))];
            var v := Replay(Fresh(1), lines, now);
            && v == Server([State(map[k := List([x])], map[])], 0)
            && Replay(v, lines, now) == Server([State(map[k := List([x, x])], map[])], 0)
  {
    var v0 := Fresh(1);
    assert v0.dbs == [EMPTY];
    var push := Write(RPush(k, [x]));
    RunPush(EMPTY, k, [], [x], false, now);
    var v1 := Server([State(map[k := List([x])], map[])], 0);
    assert [] + [x] == [x] && [x] + [x] == [x, x];
    assert EMPTY.data[k := List([x])] == map[k := List([x])];
    assert v0.dbs[0 := Put(EMPTY, k, List([x]))] == v1.dbs;
    assert Replay(v0, [push], now) == Replay(v1, [], now);
    RunPush(v1.dbs[0], k, [x], [x], false, now);
    var v2 := Server([State(map[k := List([x, x])], map[])], 0);
    assert v1.dbs[0].data[k := List([x, x])] == map[k := List([x, x])];
    assert v1.dbs[0 := Put(v1.dbs[0], k, List([x, x]))] == v2.dbs;
    assert Replay(v1, [push], now) == Replay(v2, [], now);
  }

  lemma OneTidied(dbs: seq<State>, s: State)
    requires dbs == [s] && Clean(s)
    ensures Tidied(dbs) == [s]
  {
    TidiedIs(dbs);
  }

  /** What the rewriting of an empty file makes of a push that comes before the dump. */
  lemma PushRewritten(k: Key, x: Bytes, at: int, restart: int)
    ensures var lines := [Write(RPush(k, [x]))];
            && Logged(lines) && Limit(lines, 0) == lines && AllWritable(Means(1, lines, at).dbs)
            && Means(1, lines, restart).dbs == [State(map[k := List([x])], map[])]
            && Selected(lines[..0], 0) == 0
            && Rewritten(1, Dump(lines, at, 0), lines, restart).dbs == [State(map[k := List([x, x])], map[])]
  {
    var lines := [Write(RPush(k, [x]))];
    PushTwice(k, x, at);
    PushTwice(k, x, restart);
    assert lines[0..] == lines;
    OneTidied(Means(1, lines, at).dbs, State(map[k := List([x])], map[]));
  }

  /** Rewriting an empty file while a list is being pushed to: the push is both dumped and copied. */
  method RewriteOfEmptyFile(k: Key, x: Bytes, ghost restart: int, at: int) returns (p: Persister)
    ensures fresh(p) && p.databases == 1 && p.log == [Write(RPush(k, [x]))]
    ensures Means(1, p.log, restart).dbs == [State(map[k := List([x])], map[])]
    ensures Means(1, p.file, restart).dbs == [State(map[k := List([x, x])], map[])]
  {
    p := new Persister(1, []);
    p.StartRewrite();
    p.WriteAof(0, RPush(k, [x]));
    PushRewritten(k, x, at, restart);
    assert p.file == [Write(RPush(k, [x]))];
    var ok := p.DoRewrite(at);
    assert p.dump == Dump(p.file, at, 0);
    p.FinishRewrite();
  }

  /** A string whose expiry is set, and then moved or removed. */
  function Moved(k: Key, x: Bytes, e: int, later: Option<int>): (lines: seq<Line>)
    ensures |lines| == 3
  {
    [Write(SetCmd(k, x, [])), Write(PExpireAt(k, FormatInt(e))), Write(if later.Some? then PExpireAt(k, FormatInt(later.value)) else Persist(k))]
  }

  /** The string with its last expiry. */
  function Extended(k: Key, x: Bytes, later: Option<int>): State {
    State(map[k := Str(x)], if later.Some? then map[k := later.value] else map[])
  }

  lemma ReplayThree(s: State, a: Cmd, b: Cmd, c: Cmd, at: int)
    ensures Replay(Server([s], 0), [Write(a), Write(b), Write(c)], at).dbs == [Run(Run(Run(s, a, at), b, at), c, at)]
  {
    RunThree(s, a, b, c, at);
    ReplayLines(Server([s], 0), [a, b, c], at);
    assert Lines([a, b, c]) == [Write(a), Write(b), Write(c)];
  }

  lemma LastMove(k: Key, x: Bytes, e: int, later: Option<int>, at: int)
    requires later.Some? ==> IsInt64(later.value)
    ensures Run(State(map[k := Str(x)], map[k := e]), Moved(k, x, e, later)[2].cmd, at) == if e < at then EMPTY else Extended(k, x, later)
  {
    var s := State(map[k := Str(x)], map[k := e]);
    assert Remove(s, k) == EMPTY;
    if later.Some? {
      ParseFormat(later.value);
      assert SetTtl(s, k, later.value) == Extended(k, x, later);
    } else {
      assert ClearTtl(s, k) == Extended(k, x, later);
    }
  }

  lemma MovedMeans(k: Key, x: Bytes, e: int, later: Option<int>, at: int)
    requires IsInt64(e) && (later.Some? ==> IsInt64(later.value))
    ensures Means(1, Moved(k, x, e, later), at).dbs == [if e < at then EMPTY else Extended(k, x, later)]
  {
    var cmds := Moved(k, x, e, later);
    assert Fresh(1) == Server([EMPTY], 0);
    ReplayThree(EMPTY, cmds[0].cmd, cmds[1].cmd, cmds[2].cmd, at);
    var s1 := State(map[k := Str(x)], map[]);
    RebuildsStr(EMPTY, k, x, at);
    assert ClearTtl(Put(EMPTY, k, Str(x)), k) == s1;
    DumpedTtl(s1, k, e, at);
    assert SetTtl(s1, k, e) == State(map[k := Str(x)], map[k := e]);
    LastMove(k, x, e, later, at);
  }

  lemma MovedLogged(k: Key, x: Bytes, e: int, later: Option<int>)
    requires IsInt64(e) && (later.Some? ==> IsInt64(later.value))
    ensures Logged(Moved(k, x, e, later))
  {
    var lines := Moved(k, x, e, later);
    ParseFormat(e);
    if later.Some? {
      ParseFormat(later.value);
    }
    assert lines[0] in lines && lines[1] in lines && lines[2] in lines;
    assert ParseSet([], Upsert, 0) == SetPlan(Upsert, 0);
  }

  lemma MovedRewritten(k: Key, x: Bytes, e: int, later: Option<int>, at: int, restart: int)
    requires IsInt64(e) && (later.Some? ==> IsInt64(later.value)) && at <= e
    ensures var lines := Moved(k, x, e, later);
            && Limit(lines, 3) == lines && AllWritable(Means(1, lines, at).dbs) && Selected(lines[..3], 0) == 0
            && Rewritten(1, Dump(lines, at, 3), lines, restart).dbs == [Extended(k, x, later)]
  {
    var lines := Moved(k, x, e, later);
    MovedMeans(k, x, e, later, at);
    OneTidied(Means(1, lines, at).dbs, Extended(k, x, later));
    assert lines[..3] == lines && lines[3..] == [];
    assert InRange(lines, 1);
    SelectedInRange(lines, 1);
  }

  /** The last line is written before the expiry passes, so that the key is to stay. A restart after that time finds it if there was a rewriting in between, and not if there was none. */
  method RewriteRescues(k: Key, x: Bytes, e: int, later: Option<int>, at: int, ghost restart: int) returns (p: Persister)
    requires IsInt64(e) && (later.Some? ==> IsInt64(later.value)) && at <= e < restart
    ensures fresh(p) && p.databases == 1 && p.log == Moved(k, x, e, later) && p.past == [Dump(p.log, at, 3)]
    ensures Means(1, p.log, restart).dbs == [EMPTY]
    ensures Means(1, p.file, restart).dbs == [Extended(k, x, later)]
  {
    p := new Persister(1, Moved(k, x, e, later));
    p.StartRewrite();
    MovedMeans(k, x, e, later, restart);
    MovedLogged(k, x, e, later);
    MovedRewritten(k, x, e, later, at, restart);
    var ok := p.DoRewrite(at);
    p.FinishRewrite();
  }
}
