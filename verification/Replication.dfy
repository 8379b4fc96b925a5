/** database/replication_master.go and replication_slave.go: the backlog of a master, and a slave that follows it. */
module Replication {
  import opened Sequences
  import opened Numerals
  import opened Resp

  type CmdLine = seq<Bytes>

  function Somes(c: CmdLine): (r: seq<Option<Bytes>>)
    ensures |r| == |c| && forall i :: 0 <= i < |c| ==> r[i] == Some(c[i])
  {
    seq(|c|, i requires 0 <= i < |c| => Some(c[i]))
  }

  function EncodeCmd(c: CmdLine): Bytes {
    Encode(Multi(Somes(c)))
  }

  /** A command has at least its name, and sizes of 64 bits. */
  predicate Sendable(c: CmdLine) {
    c != [] && Encodable(Multi(Somes(c)))
  }

  /* ---- Pieces of a buffer ---- */

  ghost function Joined(pieces: seq<Bytes>): Bytes {
    if pieces == [] then [] else Joined(pieces[..|pieces| - 1]) + pieces[|pieces| - 1]
  }

  ghost predicate NoneEmpty(pieces: seq<Bytes>) {
    forall i {:trigger pieces[i]} :: 0 <= i < |pieces| ==> pieces[i] != []
  }

  lemma {:induction false} JoinedAppend(a: seq<Bytes>, b: seq<Bytes>)
    ensures Joined(a + b) == Joined(a) + Joined(b)
    decreases b
  {
    if b == [] {
      assert a + b == a;
    } else {
      var k := |b| - 1;
      assert (a + b)[..|a + b| - 1] == a + b[..k];
      JoinedAppend(a, b[..k]);
      Regroup(Joined(a), Joined(b[..k]), b[k], []);
    }
  }

  lemma JoinedOne(p: Bytes)
    ensures Joined([p]) == p
  {
    assert [p][..0] == [];
    assert Joined([]) + p == p;
  }

  lemma JoinedSplit(pieces: seq<Bytes>, k: nat)
    requires k <= |pieces|
    ensures Joined(pieces) == Joined(pieces[..k]) + Joined(pieces[k..])
  {
    assert pieces == pieces[..k] + pieces[k..];
    JoinedAppend(pieces[..k], pieces[k..]);
  }

  lemma {:induction false} JoinedNotEmpty(pieces: seq<Bytes>)
    requires NoneEmpty(pieces)
    ensures |Joined(pieces)| > 0 <==> pieces != []
  {
  }

  /** Behind the first `k` pieces come the others. */
  lemma Behind(pieces: seq<Bytes>, k: nat)
    requires k <= |pieces| && NoneEmpty(pieces)
    ensures |Joined(pieces[..k])| <= |Joined(pieces)| && Joined(pieces)[|Joined(pieces[..k])|..] == Joined(pieces[k..])
    ensures |Joined(pieces[..k])| < |Joined(pieces)| <==> k < |pieces|
  {
    JoinedSplit(pieces, k);
    assert NoneEmpty(pieces[k..]);
    JoinedNotEmpty(pieces[k..]);
  }

  lemma OneMore(pieces: seq<Bytes>, p: Bytes)
    ensures Joined(pieces + [p]) == Joined(pieces) + p
  {
    assert (pieces + [p])[..|pieces|] == pieces;
  }

  lemma SliceAppend<T>(s: seq<T>, x: T, k: nat, m: nat)
    requires k <= m <= |s|
    ensures (s + [x])[..k] == s[..k] && (s + [x])[..m] == s[..m] && (s + [x])[k..m] == s[k..m]
  {
  }

  lemma WholeSlices<T>(s: seq<T>, k: nat)
    requires k <= |s|
    ensures s[..|s|] == s && s[k..|s|] == s[k..] && s[0..] == s
  {
  }

  lemma SliceNext<T>(s: seq<T>, k: nat)
    requires k < |s|
    ensures s[..k + 1] == s[..k] + [s[k]]
  {
  }

  lemma TheRest(pieces: seq<Bytes>, k: nat, m: nat)
    requires k <= m <= |pieces|
    ensures Joined(pieces[k..m]) + Joined(pieces[m..]) == Joined(pieces[k..]) && pieces[..|pieces|] == pieces
  {
    JoinedAppend(pieces[k..m], pieces[m..]);
    assert pieces[k..m] + pieces[m..] == pieces[k..];
  }

  lemma TheNext(pieces: seq<Bytes>, k: nat, m: nat)
    requires k < m <= |pieces|
    ensures Joined(pieces[k..m]) == pieces[k] + Joined(pieces[k + 1..m]) && Joined(pieces[..k + 1]) == Joined(pieces[..k]) + pieces[k]
  {
    assert pieces[k..m] == [pieces[k]] + pieces[k + 1..m];
    JoinedAppend([pieces[k]], pieces[k + 1..m]);
    JoinedOne(pieces[k]);
    assert pieces[..k + 1][..k] == pieces[..k];
  }

  /** Each piece is a command. */
  ghost predicate AreCommands(pieces: seq<Bytes>, cmds: seq<CmdLine>) {
    |pieces| == |cmds| && forall i {:trigger EncodeCmd(cmds[i])} :: 0 <= i < |cmds| ==> pieces[i] == EncodeCmd(cmds[i]) && Sendable(cmds[i])
  }

  lemma CommandsNotEmpty(pieces: seq<Bytes>, cmds: seq<CmdLine>)
    requires AreCommands(pieces, cmds)
    ensures NoneEmpty(pieces)
  {
    forall i {:trigger pieces[i]} | 0 <= i < |pieces| ensures pieces[i] != [] {
      assert EncodeCmd(cmds[i]) != [];
    }
  }

  lemma OneMoreCommand(pieces: seq<Bytes>, cmds: seq<CmdLine>, c: CmdLine)
    requires AreCommands(pieces, cmds) && Sendable(c)
    ensures AreCommands(pieces + [EncodeCmd(c)], cmds + [c])
  {
    var more := cmds + [c];
    forall i {:trigger EncodeCmd(more[i])} | 0 <= i < |more| ensures (pieces + [EncodeCmd(c)])[i] == EncodeCmd(more[i]) && Sendable(more[i]) {
      assert i < |cmds| ==> EncodeCmd(cmds[i]) == pieces[i];
    }
  }

  /** The slave reads the next command off the wire, whatever follows. */
  lemma NextCmd(c: CmdLine, rest: Bytes)
    requires Sendable(c)
    ensures var line := Header(STAR, |c|);
            && SplitLine(EncodeCmd(c) + rest) == Some((line, EncodeArgs(Somes(c)) + rest))
            && |line| > 2 && line[|line| - 2] == CR && line[0] == STAR && ParseInt(line[1..|line| - 2]) == Some(|c|)
            && ReadArgs(|c|, EncodeArgs(Somes(c)) + rest, []) == Whole(Somes(c), rest)
  {
    var more := EncodeArgs(Somes(c)) + rest;
    Regroup(Header(STAR, |c|), EncodeArgs(Somes(c)), rest, []);
    HeaderRead(STAR, |c|, more);
    NumeralPlain(|c|);
    ParseFormat(|c|);
    assert Header(STAR, |c|)[1..|Header(STAR, |c|)| - 2] == FormatInt(|c|);
    ArgsBack(Somes(c), rest, []);
    assert [] + CanonArgs(Somes(c)) == CanonArgs(Somes(c)) == Somes(c);
  }

  function Values(args: seq<Option<Bytes>>): (c: CmdLine)
    requires forall i :: 0 <= i < |args| ==> args[i].Some?
    ensures |c| == |args| && forall i :: 0 <= i < |c| ==> c[i] == args[i].value
  {
    seq(|args|, i requires 0 <= i < |args| => args[i].value)
  }

  /** Reading one command, as parse0 does. */
  method ReadCmd(wire: Bytes, ghost c: CmdLine, ghost rest: Bytes) returns (cmdLine: CmdLine, left: Bytes)
    requires Sendable(c) && wire == EncodeCmd(c) + rest
    ensures cmdLine == c && left == rest
  {
    NextCmd(c, rest);
    var (line, after) := SplitLine(wire).value;
    var n := ParseInt(line[1..|line| - 2]).value;
    var read := ParseArray(n, after);
    cmdLine, left := Values(read.args), read.rest;
  }

  /** The size receiveAOF counts: that of the command encoded once more. */
  method CmdSize(cmdLine: CmdLine, ghost piece: Bytes) returns (n: nat)
    requires piece == EncodeCmd(cmdLine)
    ensures n == |piece|
  {
    n := |EncodeCmd(cmdLine)|;
  }

  /** The offset of a FULLRESYNC header, as the slave reads it. */
  method SentOffset(offset: int) returns (r: int)
    requires IsInt64(offset)
    ensures r == offset
  {
    ParseFormat(offset);
    r := ParseInt(FormatInt(offset)).value;
  }

  /** The slave has executed the first `k` commands, is at the offset behind them, and has the next ones up to `m` on the way to it. */
  ghost predicate Follows(pieces: seq<Bytes>, cmds: seq<CmdLine>, begin: int, k: nat, m: nat,
                          executed: seq<CmdLine>, replOffset: int, online: bool, wire: Bytes, sendOffset: int) {
    && |pieces| == |cmds| && k <= m <= |cmds| && executed == cmds[..k] && replOffset == begin + |Joined(pieces[..k])|
    && (online ==> wire == Joined(pieces[k..m]) && sendOffset == begin + |Joined(pieces[..m])|)
  }

  lemma Received(pieces: seq<Bytes>, cmds: seq<CmdLine>, begin: int, k: nat, m: nat, executed: seq<CmdLine>, replOffset: int,
                 wire: Bytes, sendOffset: int)
    requires Follows(pieces, cmds, begin, k, m, executed, replOffset, true, wire, sendOffset) && wire != []
    ensures k < m && wire == pieces[k] + Joined(pieces[k + 1..m])
  {
    assert k < m;
    TheNext(pieces, k, m);
  }

  /** One command more is executed. */
  lemma Advanced(pieces: seq<Bytes>, cmds: seq<CmdLine>, begin: int, k: nat, m: nat, executed: seq<CmdLine>, replOffset: int,
                 wire: Bytes, sendOffset: int, next: nat, more: seq<CmdLine>, offset: int, left: Bytes)
    requires Follows(pieces, cmds, begin, k, m, executed, replOffset, true, wire, sendOffset) && k < m
    requires next == k + 1 && more == executed + [cmds[k]] && offset == replOffset + |pieces[k]| && left == Joined(pieces[k + 1..m])
    ensures Follows(pieces, cmds, begin, next, m, more, offset, true, left, sendOffset)
  {
    TheNext(pieces, k, m);
    SliceNext(cmds, k);
  }

  lemma Sent(pieces: seq<Bytes>, cmds: seq<CmdLine>, begin: int, k: nat, m: nat, executed: seq<CmdLine>, replOffset: int,
             wire: Bytes, sendOffset: int)
    requires Follows(pieces, cmds, begin, k, m, executed, replOffset, true, wire, sendOffset) && NoneEmpty(pieces)
    ensures begin <= sendOffset <= begin + |Joined(pieces)|
    ensures Follows(pieces, cmds, begin, k, |cmds|, executed, replOffset, true, wire + Joined(pieces)[sendOffset - begin..], begin + |Joined(pieces)|)
  {
    Behind(pieces, m);
    TheRest(pieces, k, m);
    WholeSlices(pieces, k);
  }

  lemma Resynced(pieces: seq<Bytes>, cmds: seq<CmdLine>, begin: int, k: nat, executed: seq<CmdLine>, replOffset: int)
    requires |pieces| == |cmds| && k <= |cmds| && executed == cmds[..k] && replOffset == begin + |Joined(pieces[..k])|
    ensures Follows(pieces, cmds, begin, k, |cmds|, executed, replOffset, true, Joined(pieces[k..]), begin + |Joined(pieces)|)
  {
    WholeSlices(pieces, k);
  }

  /** A master with its backlog, one slave, and the connection between them. */
  class Link {
    var buf: Bytes
    var beginOffset: int
    var currentOffset: int

    /** How far the master has sent, and what is on the way. */
    var sendOffset: int
    var online: bool
    var wire: Bytes

    /** The slave: its offset, and the commands executed since the file it last loaded. */
    var replOffset: int
    var executed: seq<CmdLine>

    /** The commands of the backlog and their encodings; the slave has executed `k` of them and been sent `m`. */
    ghost var cmds: seq<CmdLine>
    ghost var pieces: seq<Bytes>
    ghost var k: nat
    ghost var m: nat
    /** The commands before which the slave has begun a new connection since that file; the module Replicas says what that does to its databases. */
    ghost var begins: set<nat>

    ghost predicate Valid()
      reads this
    {
      && IsInt64(beginOffset) && AreCommands(pieces, cmds)
      && buf == Joined(pieces) && currentOffset == beginOffset + |buf|
      && Follows(pieces, cmds, beginOffset, k, m, executed, replOffset, online, wire, sendOffset)
    }

    constructor ()
      ensures Valid() && cmds == [] && !online && beginOffset == 0
    {
      buf, beginOffset, currentOffset := [], 0, 0;
      sendOffset, online, wire := 0, false, [];
      replOffset, executed := 0, [];
      cmds, pieces, k, m, begins := [], [], 0, 0, {};
    }

    method AppendBytes(bin: Bytes, ghost c: CmdLine)
      requires Valid() && Sendable(c) && bin == EncodeCmd(c)
      modifies this`buf, this`currentOffset, this`cmds, this`pieces
      ensures Valid() && cmds == old(cmds) + [c]
    {
      OneMore(pieces, bin);
      SliceAppend(pieces, bin, k, m);
      SliceAppend(cmds, c, k, m);
      OneMoreCommand(pieces, cmds, c);
      buf := buf + bin;
      currentOffset := currentOffset + |bin|;
      cmds, pieces := cmds + [c], pieces + [bin];
    }

    method Callback(cmdLines: seq<CmdLine>)
      requires Valid() && forall c :: c in cmdLines ==> Sendable(c)
      modifies this`buf, this`currentOffset, this`cmds, this`pieces
      ensures Valid() && cmds == old(cmds) + cmdLines
    {
      var i := 0;
      while i < |cmdLines|
        invariant 0 <= i <= |cmdLines| && Valid() && cmds == old(cmds) + cmdLines[..i]
      {
        assert cmdLines[..i + 1] == cmdLines[..i] + [cmdLines[i]];
        assert cmdLines[i] in cmdLines;
        AppendBytes(EncodeCmd(cmdLines[i]), cmdLines[i]);
        i := i + 1;
      }
      assert cmdLines[..|cmdLines|] == cmdLines;
    }

    predicate IsValidOffset(offset: int)
      reads this
    {
      beginOffset <= offset < currentOffset
    }

    /** From an offset behind the first commands on, exactly the encodings of the others; and the offset behind them all. */
    method GetSnapshotAfter(offset: int) returns (snapshot: Bytes, current: int)
      requires Valid() && beginOffset <= offset <= currentOffset
      ensures |snapshot| == current - offset && current == beginOffset + |Joined(pieces)|
      ensures forall j {:trigger pieces[..j]} :: 0 <= j <= |pieces| && offset == beginOffset + |Joined(pieces[..j])| ==> snapshot == Joined(pieces[j..])
    {
      snapshot, current := buf[offset - beginOffset..], currentOffset;
      CommandsNotEmpty(pieces, cmds);
      forall j | 0 <= j <= |pieces| && offset == beginOffset + |Joined(pieces[..j])| ensures snapshot == Joined(pieces[j..]) {
        Behind(pieces, j);
      }
    }

    /** masterSendUpdatesToSlave. */
    method SendUpdates()
      requires Valid() && online
      modifies this`wire, this`sendOffset, this`m
      ensures Valid() && m == |cmds|
    {
      CommandsNotEmpty(pieces, cmds);
      Sent(pieces, cmds, beginOffset, k, m, executed, replOffset, wire, sendOffset);
      wire := wire + buf[sendOffset - beginOffset..];
      sendOffset := currentOffset;
      m := |cmds|;
    }

    /** One turn of receiveAOF. */
    method Receive()
      requires Valid() && online && wire != []
      modifies this`wire, this`replOffset, this`executed, this`k
      ensures Valid() && k == old(k) + 1 && executed == old(executed) + [cmds[old(k)]]
    {
      Received(pieces, cmds, beginOffset, k, m, executed, replOffset, wire, sendOffset);
      assert pieces[k] == EncodeCmd(cmds[k]);
      var cmdLine, left := ReadCmd(wire, cmds[k], Joined(pieces[k + 1..m]));
      var n := CmdSize(cmdLine, pieces[k]);
      ghost var next := k + 1;
      var more, offset := executed + [cmdLine], replOffset + n;
      Advanced(pieces, cmds, beginOffset, k, m, executed, replOffset, wire, sendOffset, next, more, offset, left);
      MoveOn(more, offset, left, next);
    }

    method MoveOn(more: seq<CmdLine>, offset: int, left: Bytes, ghost next: nat)
      modifies this`wire, this`replOffset, this`executed, this`k
      ensures executed == more && replOffset == offset && wire == left && k == next
    {
      executed, replOffset, wire, k := more, offset, left, next;
    }

    /** The connection is lost, with all that is on the way. */
    method Disconnect()
      requires Valid()
      modifies this`online, this`wire, this`m
      ensures Valid() && !online && m == k
    {
      online, wire, m := false, [], k;
    }

    /** masterTryPartialSyncWithSlave: a slave that has missed nothing is refused as well. */
    method TryPartialSync(sameId: bool) returns (partial: bool)
      requires Valid() && !online
      modifies this`wire, this`sendOffset, this`online, this`m
      ensures Valid() && (partial <==> sameId && k < |cmds|)
      ensures partial ==> online && m == |cmds| && wire == Joined(pieces[k..])
      ensures !partial ==> !online
    {
      CommandsNotEmpty(pieces, cmds);
      Behind(pieces, k);
      partial := sameId && IsValidOffset(replOffset);
      if partial {
        Resynced(pieces, cmds, beginOffset, k, executed, replOffset);
        wire, sendOffset := GetSnapshotAfter(replOffset);
        online, m := true, |cmds|;
      }
    }

    /** masterFullReSyncWithSlave: the slave loads the file the backlog begins after, and is sent the whole backlog. */
    method FullReSync()
      requires Valid()
      modifies this`executed, this`replOffset, this`wire, this`sendOffset, this`online, this`k, this`m
      ensures Valid() && online && k == 0 && m == |cmds| && wire == Joined(pieces)
    {
      Resynced(pieces, cmds, beginOffset, 0, [], beginOffset);
      assert pieces[0..] == pieces;
      var offset := SentOffset(beginOffset);
      executed, replOffset, k, m := [], offset, 0, |cmds|;
      wire, sendOffset, online := buf, currentOffset, true;
    }

    /** PSYNC of a slave that reconnects. */
    method PSync(sameId: bool) returns (partial: bool)
      requires Valid() && !online
      modifies this
      ensures Valid() && online && cmds == old(cmds) && pieces == old(pieces) && m == |cmds| && wire == Joined(pieces[k..])
      ensures (partial <==> sameId && old(k) < |cmds|) && k == (if partial then old(k) else 0)
      ensures begins == if partial then old(begins) + {k} else {0}
    {
      partial := TryPartialSync(sameId);
      if !partial {
        FullReSync();
        WholeSlices(pieces, 0);
      }
      begins := if partial then begins + {k} else {0};
    }
  }

  /* ---- Nil arguments ---- */

  function NilCount(args: seq<Option<Bytes>>): nat {
    if args == [] then 0 else (if args[0].None? then 1 else 0) + NilCount(args[1..])
  }

  lemma {:induction false} NilArgsGrow(args: seq<Option<Bytes>>)
    ensures |EncodeArgs(CanonArgs(args))| == |EncodeArgs(args)| + NilCount(args)
  {
    if args != [] {
      NilArgsGrow(args[1..]);
      assert CanonArgs(args)[1..] == CanonArgs(args[1..]);
      NilArgGrows(args[0]);
    }
  }

  lemma NilArgGrows(arg: Option<Bytes>)
    ensures |EncodeArg(CanonArg(arg))| == |EncodeArg(arg)| + if arg.None? then 1 else 0
  {
    assert FormatInt(0) == [Digit(0)] && FormatInt(-1) == [MINUS, Digit(1)];
  }

  /** The slave counts the bytes of the command as it read it: they are those that were sent if and only if no argument is nil. */
  lemma CountsBytesSent(args: seq<Option<Bytes>>)
    ensures |Encode(Multi(CanonArgs(args)))| == |Encode(Multi(args))| + NilCount(args)
    ensures NilCount(args) == 0 <==> None !in args
  {
    NilArgsGrow(args);
    NilCounted(args);
  }

  lemma {:induction false} NilCounted(args: seq<Option<Bytes>>)
    ensures NilCount(args) == 0 <==> None !in args
  {
    if args != [] {
      NilCounted(args[1..]);
      assert args == [args[0]] + args[1..];
    }
  }
}
