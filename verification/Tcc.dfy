/** cluster/core/tcc.go and cluster/commands/tcc_utils.go: one command on several nodes, by try, commit and cancel. */
module TryCommitCancel {
  type Node = string
  type TxId = string

  /** What a node keeps of a transaction. */
  datatype Record = Record(hasLock: bool)

  /** `held` are the transactions whose key locks are taken; `ran` counts how often the real command of one was executed. */
  datatype Participant = Participant(txs: map<TxId, Record>, held: set<TxId>, ran: multiset<TxId>)

  /** The record of a transaction tells whether its locks are held, and without a record none are. */
  ghost predicate Truthful(p: Participant) {
    && (forall t {:trigger t in p.txs} {:trigger t in p.held} :: t in p.txs ==> (p.txs[t].hasLock <==> t in p.held))
    && (forall t {:trigger t in p.held} :: t in p.held ==> t in p.txs)
  }

  /* ---- The three requests ---- */

  /** `fine` is what the prepare function of the command answers; the reply is an error if the transaction is known. */
  function Prepared(p: Participant, t: TxId, fine: bool): Participant {
    if t in p.txs then p
    else Participant(p.txs[t := Record(fine)], if fine then p.held + {t} else p.held, p.ran)
  }

  function PrepareReply(p: Participant, t: TxId, fine: bool): bool {
    t !in p.txs && fine
  }

  function Committed(p: Participant, t: TxId): Participant {
    if t !in p.txs then p else Participant(p.txs[t := Record(false)], p.held - {t}, p.ran + multiset{t})
  }

  function CommitReply(p: Participant, t: TxId, fine: bool): bool {
    t in p.txs && fine
  }

  /** Takes the locks again if they are not held, runs the undo logs, and releases. */
  function RolledBack(p: Participant, t: TxId): Participant {
    if t !in p.txs then p else Participant(p.txs - {t}, p.held - {t}, p.ran)
  }

  /** The two agree on every transaction but `t`. */
  ghost predicate SameBut(p: Participant, q: Participant, t: TxId) {
    forall u {:trigger u in p.txs} {:trigger u in p.held} {:trigger p.ran[u]} :: u != t ==>
      (u in p.txs <==> u in q.txs) && (u in p.txs ==> p.txs[u] == q.txs[u]) && (u in p.held <==> u in q.held) && p.ran[u] == q.ran[u]
  }

  predicate AllFine(nodes: set<Node>, fine: Node -> bool) {
    forall n :: n in nodes ==> fine(n)
  }

  ghost predicate Here(p: Participant, q: Participant, t: TxId, c: Coord, n: Node) {
    Stands(p, t, c, n) && NotTooSoon(p, t, c) && SameBut(p, q, t)
  }

  lemma PreparedHere(p: Participant, q: Participant, t: TxId, c: Coord, d: Coord, n: Node, m: Node, fine: bool)
    requires Here(p, q, t, c, m) && c.phase.Preparing? && n in c.phase.rest && n !in c.prepared
    requires d == if fine then c.(prepared := c.prepared + {n}, phase := Preparing(c.phase.rest - {n}))
                  else c.(prepared := {}, phase := RollingBack(c.routeNodes))
    requires c.prepared <= c.routeNodes && n in c.routeNodes
    ensures Here(if m == n then Prepared(p, t, fine) else p, q, t, d, m)
  {
  }

  lemma CommittedHere(p: Participant, q: Participant, t: TxId, c: Coord, d: Coord, n: Node, m: Node, fine: bool)
    requires Here(p, q, t, c, m) && c.phase.Committing? && n in c.phase.rest && c.prepared == c.cmdNodes <= c.routeNodes && n in c.routeNodes
    requires d == c.(phase := Committing(c.phase.rest - {n})) || d == c.(phase := RollingBack(c.routeNodes))
    requires m == n && d.phase.Committing? ==> t in p.txs
    ensures Here(if m == n then Committed(p, t) else p, q, t, d, m)
  {
  }

  /** How all nodes stand to a transaction, while the others they know of stay as they were. */
  ghost predicate All(nodes: map<Node, Participant>, was: map<Node, Participant>, t: TxId, c: Coord) {
    nodes.Keys == was.Keys && forall n {:trigger nodes[n]} :: n in nodes ==> Here(nodes[n], was[n], t, c, n)
  }

  lemma PreparedAll(nodes: map<Node, Participant>, was: map<Node, Participant>, t: TxId, c: Coord, d: Coord, n: Node, fine: bool)
    requires All(nodes, was, t, c) && c.phase.Preparing? && n in c.phase.rest && n !in c.prepared && n in nodes
    requires d == if fine then c.(prepared := c.prepared + {n}, phase := Preparing(c.phase.rest - {n}))
                  else c.(prepared := {}, phase := RollingBack(c.routeNodes))
    requires c.prepared <= c.routeNodes && n in c.routeNodes
    ensures All(nodes[n := Prepared(nodes[n], t, fine)], was, t, d)
  {
    forall m | m in nodes ensures Here(if m == n then Prepared(nodes[m], t, fine) else nodes[m], was[m], t, d, m) {
      PreparedHere(nodes[m], was[m], t, c, d, n, m, fine);
    }
  }

  lemma CommittedAll(nodes: map<Node, Participant>, was: map<Node, Participant>, t: TxId, c: Coord, d: Coord, n: Node, fine: bool)
    requires All(nodes, was, t, c) && c.phase.Committing? && n in c.phase.rest && c.prepared == c.cmdNodes <= c.routeNodes
    requires n in c.routeNodes && n in nodes
    requires d == c.(phase := if t in nodes[n].txs && fine then Committing(c.phase.rest - {n}) else RollingBack(c.routeNodes))
    ensures All(nodes[n := Committed(nodes[n], t)], was, t, d)
  {
    forall m | m in nodes ensures Here(if m == n then Committed(nodes[m], t) else nodes[m], was[m], t, d, m) {
      CommittedHere(nodes[m], was[m], t, c, d, n, m, fine);
    }
  }

  lemma RolledBackAll(nodes: map<Node, Participant>, was: map<Node, Participant>, t: TxId, c: Coord, n: Node)
    requires All(nodes, was, t, c) && c.phase.RollingBack? && n in nodes
    ensures All(nodes[n := RolledBack(nodes[n], t)], was, t, c.(phase := RollingBack(c.phase.rest - {n})))
  {
  }

  /** Once all nodes have prepared, the commits can begin. */
  lemma ReadyAll(nodes: map<Node, Participant>, was: map<Node, Participant>, t: TxId, c: Coord)
    requires All(nodes, was, t, c) && c.phase == Preparing({}) && c.prepared == c.cmdNodes <= c.routeNodes
    ensures All(nodes, was, t, c.(phase := Committing(c.routeNodes)))
  {
  }

  lemma Standing(p: Participant, q: Participant, t: TxId, c: Coord, n: Node)
    requires Here(p, q, t, c, n) && c.phase.Committing? && n in c.phase.rest
    ensures (t in p.txs <==> n in c.cmdNodes) && (t in p.txs ==> t in p.held)
  {
  }

  lemma NotAllFine(cmdNodes: set<Node>, routeNodes: set<Node>, n: Node, fine: Node -> bool)
    requires n in routeNodes && !(n in cmdNodes && fine(n))
    ensures !(cmdNodes == routeNodes && AllFine(cmdNodes, fine))
  {
  }

  lemma Subset(cmdNodes: set<Node>, routeNodes: set<Node>, rest: set<Node>, n: Node, fine: Node -> bool)
    requires routeNodes - rest <= cmdNodes && AllFine(routeNodes - rest, fine) && n in cmdNodes && fine(n)
    ensures routeNodes - (rest - {n}) <= cmdNodes && AllFine(routeNodes - (rest - {n}), fine)
  {
  }

  lemma AllDone(cmdNodes: set<Node>, routeNodes: set<Node>, fine: Node -> bool)
    requires cmdNodes <= routeNodes && routeNodes - {} <= cmdNodes && AllFine(routeNodes - {}, fine)
    ensures cmdNodes == routeNodes && AllFine(cmdNodes, fine)
  {
    assert routeNodes - {} == routeNodes;
  }

  lemma OneLess(all: set<Node>, rest: set<Node>, n: Node)
    requires n in rest && rest <= all
    ensures all - (rest - {n}) == all - rest + {n}
  {
  }

  /** After the last reply. */
  lemma EndedAll(nodes: map<Node, Participant>, was: map<Node, Participant>, t: TxId, c: Coord, ok: bool)
    requires All(nodes, was, t, c) && c.phase == if ok then Committing({}) else RollingBack({})
    requires forall n {:trigger nodes[n]} :: n in nodes ==> Truthful(nodes[n])
    ensures All(nodes, was, t, c.(phase := Ended(ok)))
  {
  }

  class Cluster {
    var nodes: map<Node, Participant>

    ghost predicate Valid()
      reads this
    {
      forall n {:trigger nodes[n]} :: n in nodes ==> Truthful(nodes[n])
    }

    /** execPrepare on a node. */
    method Prepare(n: Node, t: TxId, fine: bool) returns (ok: bool)
      requires Valid() && n in nodes
      modifies this
      ensures Valid() && nodes == old(nodes)[n := Prepared(old(nodes)[n], t, fine)] && ok == PrepareReply(old(nodes)[n], t, fine)
      ensures t in nodes[n].txs && (ok <==> t !in old(nodes)[n].txs && fine)
      ensures t !in old(nodes)[n].txs ==> (nodes[n].txs[t].hasLock <==> fine) && (t in nodes[n].held <==> fine) && nodes[n].ran == old(nodes)[n].ran
      ensures t in old(nodes)[n].txs ==> nodes == old(nodes)
    {
      var p := nodes[n];
      if t in p.txs {
        assert nodes[n := p] == nodes;
        return false;
      }
      p := Participant(p.txs[t := Record(false)], p.held, p.ran);
      p := Participant(p.txs[t := Record(true)], p.held + {t}, p.ran);
      if !fine {
        p := Participant(p.txs[t := Record(false)], p.held - {t}, p.ran);
      }
      nodes := nodes[n := p];
      assert p == Prepared(old(nodes)[n], t, fine);
      return fine;
    }

    /** execCommit on a node; releasing locks that are not held would bring the node down. */
    method Commit(n: Node, t: TxId, fine: bool) returns (ok: bool)
      requires Valid() && n in nodes && (t in nodes[n].txs ==> t in nodes[n].held)
      modifies this
      ensures Valid() && nodes == old(nodes)[n := Committed(old(nodes)[n], t)] && ok == CommitReply(old(nodes)[n], t, fine)
      ensures ok <==> t in old(nodes)[n].txs && fine
      ensures t in old(nodes)[n].txs ==> t in nodes[n].txs && !nodes[n].txs[t].hasLock && t !in nodes[n].held && nodes[n].ran[t] == old(nodes)[n].ran[t] + 1
      ensures t !in old(nodes)[n].txs ==> nodes == old(nodes)
    {
      var p := nodes[n];
      if t !in p.txs {
        assert nodes[n := p] == nodes;
        return false;
      }
      nodes := nodes[n := Participant(p.txs[t := Record(false)], p.held - {t}, p.ran + multiset{t})];
      return fine;
    }

    /** execRollback on a node. */
    method Rollback(n: Node, t: TxId)
      requires Valid() && n in nodes
      modifies this
      ensures Valid() && nodes == old(nodes)[n := RolledBack(old(nodes)[n], t)]
      ensures t !in nodes[n].txs && t !in nodes[n].held && nodes[n].ran == old(nodes)[n].ran
    {
      var p := nodes[n];
      if t !in p.txs {
        assert nodes[n := p] == nodes;
        return;
      }
      if !p.txs[t].hasLock {
        p := Participant(p.txs[t := Record(true)], p.held + {t}, p.ran);
      }
      p := Participant(p.txs - {t}, p.held - {t}, p.ran);
      nodes := nodes[n := p];
      assert p == RolledBack(old(nodes)[n], t);
    }

    /** doTcc, with what each node will answer. */
    method DoTcc(t: TxId, cmdNodes: set<Node>, routeNodes: set<Node>, prepareFine: Node -> bool, commitFine: Node -> bool) returns (ok: bool)
      requires Valid() && cmdNodes <= routeNodes <= nodes.Keys
      requires forall n {:trigger nodes[n]} :: n in nodes ==> t !in nodes[n].txs && nodes[n].ran[t] == 0
      modifies this
      ensures Valid() && ok == (cmdNodes == routeNodes && AllFine(cmdNodes, prepareFine) && AllFine(cmdNodes, commitFine))
      ensures nodes.Keys == old(nodes).Keys
      ensures forall n {:trigger nodes[n]} :: n in nodes ==>
                && t !in nodes[n].held && nodes[n].ran[t] <= 1 && SameBut(nodes[n], old(nodes)[n], t)
                && (ok && n in routeNodes ==> nodes[n].ran[t] == 1) && (!ok ==> t !in nodes[n].txs)
                && (nodes[n].ran[t] > 0 ==> AllFine(cmdNodes, prepareFine))
    {
      ghost var was := nodes;
      ok := PrepareAll(t, cmdNodes, routeNodes, prepareFine, was);
      if ok {
        ok := CommitAll(t, cmdNodes, routeNodes, commitFine, was);
      }
      ghost var c := Coord(cmdNodes, routeNodes, if AllFine(cmdNodes, prepareFine) then cmdNodes else {}, Ended(ok));
      assert All(nodes, was, t, c);
    }

    method PrepareAll(t: TxId, cmdNodes: set<Node>, routeNodes: set<Node>, prepareFine: Node -> bool, ghost was: map<Node, Participant>)
      returns (ok: bool)
      requires Valid() && cmdNodes <= routeNodes <= nodes.Keys && was == nodes
      requires forall n {:trigger nodes[n]} :: n in nodes ==> t !in nodes[n].txs && nodes[n].ran[t] == 0
      modifies this
      ensures Valid() && ok == AllFine(cmdNodes, prepareFine)
      ensures All(nodes, was, t, if ok then Coord(cmdNodes, routeNodes, cmdNodes, Committing(routeNodes)) else Coord(cmdNodes, routeNodes, {}, Ended(false)))
    {
      var rest := cmdNodes;
      ghost var c := Coord(cmdNodes, routeNodes, {}, Preparing(cmdNodes));
      while rest != {}
        invariant Valid() && rest <= cmdNodes && c == Coord(cmdNodes, routeNodes, cmdNodes - rest, Preparing(rest)) && All(nodes, was, t, c)
        invariant AllFine(cmdNodes - rest, prepareFine)
        decreases rest
      {
        var n :| n in rest;
        ghost var d := if prepareFine(n) then c.(prepared := c.prepared + {n}, phase := Preparing(rest - {n}))
                       else c.(prepared := {}, phase := RollingBack(routeNodes));
        assert Here(nodes[n], was[n], t, c, n);
        PreparedAll(nodes, was, t, c, d, n, prepareFine(n));
        var fine := Prepare(n, t, prepareFine(n));
        c := d;
        if !fine {
          RequestRollback(t, routeNodes, c, was);
          return false;
        }
        OneLess(cmdNodes, rest, n);
        rest := rest - {n};
      }
      ReadyAll(nodes, was, t, c);
      return true;
    }

    method CommitAll(t: TxId, cmdNodes: set<Node>, routeNodes: set<Node>, commitFine: Node -> bool, ghost was: map<Node, Participant>)
      returns (ok: bool)
      requires Valid() && cmdNodes <= routeNodes <= nodes.Keys
      requires All(nodes, was, t, Coord(cmdNodes, routeNodes, cmdNodes, Committing(routeNodes)))
      modifies this
      ensures Valid() && ok == (cmdNodes == routeNodes && AllFine(cmdNodes, commitFine))
      ensures All(nodes, was, t, Coord(cmdNodes, routeNodes, cmdNodes, Ended(ok)))
    {
      var rest := routeNodes;
      ghost var c := Coord(cmdNodes, routeNodes, cmdNodes, Committing(routeNodes));
      while rest != {}
        invariant Valid() && rest <= routeNodes && c == Coord(cmdNodes, routeNodes, cmdNodes, Committing(rest)) && All(nodes, was, t, c)
        invariant routeNodes - rest <= cmdNodes && AllFine(routeNodes - rest, commitFine)
        decreases rest
      {
        var n :| n in rest;
        Standing(nodes[n], was[n], t, c, n);
        ghost var d := c.(phase := if t in nodes[n].txs && commitFine(n) then Committing(rest - {n}) else RollingBack(routeNodes));
        CommittedAll(nodes, was, t, c, d, n, commitFine(n));
        var fine := Commit(n, t, commitFine(n));
        c := d;
        if !fine {
          NotAllFine(cmdNodes, routeNodes, n, commitFine);
          RequestRollback(t, routeNodes, c, was);
          return false;
        }
        Subset(cmdNodes, routeNodes, rest, n, commitFine);
        rest := rest - {n};
      }
      AllDone(cmdNodes, routeNodes, commitFine);
      EndedAll(nodes, was, t, c, true);
      return true;
    }

    method RequestRollback(t: TxId, routeNodes: set<Node>, ghost c: Coord, ghost was: map<Node, Participant>)
      requires Valid() && c.phase == RollingBack(routeNodes) && routeNodes == c.routeNodes <= nodes.Keys && All(nodes, was, t, c)
      modifies this
      ensures Valid() && All(nodes, was, t, c.(phase := Ended(false)))
    {
      var rest := routeNodes;
      while rest != {}
        invariant Valid() && rest <= routeNodes && All(nodes, was, t, c.(phase := RollingBack(rest)))
        decreases rest
      {
        var n :| n in rest;
        RolledBackAll(nodes, was, t, c.(phase := RollingBack(rest)), n);
        Rollback(n, t);
        rest := rest - {n};
      }
      EndedAll(nodes, was, t, c.(phase := RollingBack({})), false);
    }
  }

  /* ---- Any number of coordinators at once ---- */

  /** Where doTcc is; `rest` are the nodes it has still to send the request to. */
  datatype Phase = Preparing(rest: set<Node>) | Committing(rest: set<Node>) | RollingBack(rest: set<Node>) | Ended(ok: bool)

  /** `prepared` are the nodes that have prepared without error. */
  datatype Coord = Coord(cmdNodes: set<Node>, routeNodes: set<Node>, prepared: set<Node>, phase: Phase)

  datatype World = World(nodes: map<Node, Participant>, coords: map<TxId, Coord>)

  function StartCommit(c: Coord): Coord {
    c.(phase := if c.routeNodes == {} then Ended(true) else Committing(c.routeNodes))
  }

  function StartRollback(c: Coord): Coord {
    c.(phase := if c.routeNodes == {} then Ended(false) else RollingBack(c.routeNodes))
  }

  function AfterPrepare(c: Coord, n: Node, ok: bool): Coord
    requires c.phase.Preparing?
  {
    if !ok then StartRollback(c)
    else
      var rest := c.phase.rest - {n};
      var d := c.(prepared := c.prepared + {n}, phase := Preparing(rest));
      if rest == {} then StartCommit(d) else d
  }

  function AfterCommit(c: Coord, n: Node, ok: bool): Coord
    requires c.phase.Committing?
  {
    if !ok then StartRollback(c)
    else var rest := c.phase.rest - {n}; c.(phase := if rest == {} then Ended(true) else Committing(rest))
  }

  function AfterRollback(c: Coord, n: Node): Coord
    requires c.phase.RollingBack?
  {
    var rest := c.phase.rest - {n};
    c.(phase := if rest == {} then Ended(false) else RollingBack(rest))
  }

  datatype Step =
    | Begin(t: TxId, cmdNodes: set<Node>, routeNodes: set<Node>)
    | PrepareAt(t: TxId, n: Node, fine: bool)
    | CommitAt(t: TxId, n: Node, fine: bool)
    | RollbackAt(t: TxId, n: Node)

  /** The next request may go to any node that is left; what it answers is not known beforehand. */
  predicate Enabled(w: World, s: Step) {
    match s
    case Begin(t, cmdNodes, routeNodes) => t !in w.coords && cmdNodes <= routeNodes <= w.nodes.Keys
    case PrepareAt(t, n, _) => t in w.coords && w.coords[t].phase.Preparing? && n in w.coords[t].phase.rest && n in w.nodes
    case CommitAt(t, n, _) => t in w.coords && w.coords[t].phase.Committing? && n in w.coords[t].phase.rest && n in w.nodes
    case RollbackAt(t, n) => t in w.coords && w.coords[t].phase.RollingBack? && n in w.coords[t].phase.rest && n in w.nodes
  }

  function Next(w: World, s: Step): World
    requires Enabled(w, s)
  {
    match s
    case Begin(t, cmdNodes, routeNodes) =>
      var c := Coord(cmdNodes, routeNodes, {}, Preparing(cmdNodes));
      w.(coords := w.coords[t := if cmdNodes == {} then StartCommit(c) else c])
    case PrepareAt(t, n, fine) =>
      var p := w.nodes[n];
      World(w.nodes[n := Prepared(p, t, fine)], w.coords[t := AfterPrepare(w.coords[t], n, PrepareReply(p, t, fine))])
    case CommitAt(t, n, fine) =>
      var p := w.nodes[n];
      World(w.nodes[n := Committed(p, t)], w.coords[t := AfterCommit(w.coords[t], n, CommitReply(p, t, fine))])
    case RollbackAt(t, n) =>
      World(w.nodes[n := RolledBack(w.nodes[n], t)], w.coords[t := AfterRollback(w.coords[t], n)])
  }

  /* ---- What every state of every run satisfies ---- */

  predicate Locked(p: Participant, t: TxId) {
    t in p.txs && t in p.held
  }

  /** How a node stands to a transaction, at each point of doTcc. */
  predicate Stands(p: Participant, t: TxId, c: Coord, n: Node) {
    match c.phase
    case Preparing(rest) => p.ran[t] == 0 && (if n in c.prepared then Locked(p, t) else t !in p.txs)
    case Committing(rest) =>
      if n in rest then p.ran[t] == 0 && (if n in c.cmdNodes then Locked(p, t) else t !in p.txs)
      else if n in c.routeNodes then p.ran[t] == 1 && n in c.cmdNodes && t in p.txs && t !in p.held
      else p.ran[t] == 0 && t !in p.txs
    case RollingBack(rest) => p.ran[t] <= 1 && (n !in rest ==> t !in p.txs)
    case Ended(ok) =>
      t !in p.held && (if ok then p.ran[t] == (if n in c.routeNodes then 1 else 0) else p.ran[t] <= 1 && t !in p.txs)
  }

  predicate CoordOk(c: Coord) {
    && c.cmdNodes <= c.routeNodes && c.prepared <= c.cmdNodes
    && match c.phase
       case Preparing(rest) => rest != {} && rest + c.prepared == c.cmdNodes && rest * c.prepared == {}
       case Committing(rest) => rest != {} && rest <= c.routeNodes && c.prepared == c.cmdNodes
       case RollingBack(rest) => rest != {} && rest <= c.routeNodes
       case Ended(ok) => ok ==> c.prepared == c.cmdNodes == c.routeNodes
  }

  /** The command has run somewhere only if every node had prepared. */
  predicate NotTooSoon(p: Participant, t: TxId, c: Coord) {
    p.ran[t] > 0 ==> c.prepared == c.cmdNodes
  }

  ghost predicate Fits(w: World, n: Node, t: TxId)
    requires n in w.nodes
  {
    var p := w.nodes[n];
    if t in w.coords then Stands(p, t, w.coords[t], n) && NotTooSoon(p, t, w.coords[t])
    else t !in p.txs && t !in p.held && p.ran[t] == 0
  }

  ghost predicate Inv(w: World) {
    && (forall n {:trigger w.nodes[n]} :: n in w.nodes ==> Truthful(w.nodes[n]))
    && (forall t {:trigger w.coords[t]} :: t in w.coords ==> CoordOk(w.coords[t]) && w.coords[t].routeNodes <= w.nodes.Keys)
    && (forall n, t {:trigger Fits(w, n, t)} :: n in w.nodes ==> Fits(w, n, t))
  }

  /** A step of one transaction does not change how a node stands to another. */
  lemma OthersUntouched(w: World, s: Step, n: Node, t: TxId)
    requires Enabled(w, s) && n in w.nodes && t != s.t
    ensures var x := Next(w, s);
            && (t in x.coords <==> t in w.coords) && (t in x.coords ==> x.coords[t] == w.coords[t]) && n in x.nodes
            && var p, q := x.nodes[n], w.nodes[n];
               (t in p.txs <==> t in q.txs) && (t in p.held <==> t in q.held) && p.ran[t] == q.ran[t]
  {
  }

  lemma FitsAfter(w: World, s: Step, n: Node, t: TxId)
    requires Inv(w) && Enabled(w, s) && n in w.nodes
    ensures Fits(Next(w, s), n, t)
  {
    assert Fits(w, n, t);
    if t != s.t {
      OthersUntouched(w, s, n, t);
    } else if s.Begin? {
      assert t !in w.coords;
    } else {
      assert CoordOk(w.coords[t]);
    }
  }

  lemma NextCoordOk(w: World, s: Step)
    requires Inv(w) && Enabled(w, s)
    ensures CoordOk(Next(w, s).coords[s.t]) && Next(w, s).coords[s.t].routeNodes <= w.nodes.Keys
  {
    if !s.Begin? {
      assert CoordOk(w.coords[s.t]);
      assert Fits(w, s.n, s.t);
      if s.CommitAt? && AfterCommit(w.coords[s.t], s.n, CommitReply(w.nodes[s.n], s.t, s.fine)).phase == Ended(true) {
        AllCommitted(w, s.t, s.n);
      }
    }
  }

  /** When the last commit succeeds, every node of the route had prepared. */
  lemma AllCommitted(w: World, t: TxId, n: Node)
    requires Inv(w) && t in w.coords && w.coords[t].phase == Committing({n}) && n in w.nodes && t in w.nodes[n].txs
    ensures w.coords[t].cmdNodes == w.coords[t].routeNodes
  {
    var c := w.coords[t];
    forall m | m in c.routeNodes ensures m in c.cmdNodes {
      assert CoordOk(c);
      assert Fits(w, m, t);
    }
  }

  lemma NextKeeps(w: World, s: Step)
    requires Inv(w) && Enabled(w, s)
    ensures Inv(Next(w, s))
  {
    var x := Next(w, s);
    assert x.nodes.Keys == w.nodes.Keys;
    NextCoordOk(w, s);
    forall n, t | n in x.nodes ensures Fits(x, n, t) {
      FitsAfter(w, s, n, t);
    }
  }

  /** The start: no transaction has begun, and no node knows of one. */
  lemma StartMeets(nodes: map<Node, Participant>)
    requires forall n {:trigger nodes[n]} :: n in nodes ==> nodes[n] == Participant(map[], {}, multiset{})
    ensures Inv(World(nodes, map[]))
  {
  }

  /** The states of a run. */
  ghost predicate IsRun(run: seq<World>, steps: seq<Step>) {
    |run| == |steps| + 1 && Inv(run[0])
    && forall i {:trigger steps[i]} :: 0 <= i < |steps| ==> Enabled(run[i], steps[i]) && run[i + 1] == Next(run[i], steps[i])
  }

  lemma {:induction false} RunKeeps(run: seq<World>, steps: seq<Step>, i: nat)
    requires IsRun(run, steps) && i < |run|
    ensures Inv(run[i])
    decreases i
  {
    if i > 0 {
      RunKeeps(run, steps, i - 1);
      assert Enabled(run[i - 1], steps[i - 1]);
      NextKeeps(run[i - 1], steps[i - 1]);
    }
  }

  /** In every state of every run: the command runs nowhere before all nodes have prepared, and nowhere twice; a commit releases locks that are held; and when the coordinator is done, no lock of its transaction is left. */
  lemma Safety(run: seq<World>, steps: seq<Step>, i: nat, n: Node, t: TxId)
    requires IsRun(run, steps) && i < |run| && n in run[i].nodes && t in run[i].coords
    ensures var p, c := run[i].nodes[n], run[i].coords[t];
            && (p.ran[t] > 0 ==> c.prepared == c.cmdNodes) && p.ran[t] <= 1
            && (t in p.txs ==> (p.txs[t].hasLock <==> t in p.held))
            && (c.phase.Committing? && n in c.phase.rest && t in p.txs ==> t in p.held)
            && (c.phase.Ended? ==> t !in p.held)
            && (c.phase == Ended(true) && n in c.routeNodes ==> p.ran[t] == 1)
            && (c.phase == Ended(false) ==> t !in p.txs)
  {
    RunKeeps(run, steps, i);
    assert Fits(run[i], n, t);
    assert Truthful(run[i].nodes[n]);
  }

  /* ---- Every coordinator comes to an end ---- */

  /** A bound on the requests a coordinator still sends. */
  function Requests(c: Coord): nat {
    match c.phase
    case Preparing(rest) => |rest| + 2 * |c.routeNodes| + 1
    case Committing(rest) => |rest| + |c.routeNodes|
    case RollingBack(rest) => |rest|
    case Ended(_) => 0
  }

  /** A coordinator that is not done can send a request to each node it has left; whatever the answer, fewer requests are left then. */
  lemma ComesToAnEnd(w: World, t: TxId, n: Node, fine: bool)
    requires Inv(w) && t in w.coords && !w.coords[t].phase.Ended? && n in w.coords[t].phase.rest
    ensures var s := if w.coords[t].phase.Preparing? then PrepareAt(t, n, fine) else if w.coords[t].phase.Committing? then CommitAt(t, n, fine) else RollbackAt(t, n);
            Enabled(w, s) && Requests(Next(w, s).coords[t]) < Requests(w.coords[t])
  {
    var c := w.coords[t];
    assert CoordOk(c) && c.routeNodes <= w.nodes.Keys;
    var rest := c.phase.rest;
    assert rest <= c.routeNodes && n in c.routeNodes && n in w.nodes;
    assert |rest - {n}| == |rest| - 1;
    Smaller(rest, c.routeNodes);
  }

  lemma Smaller(a: set<Node>, b: set<Node>)
    requires a <= b
    ensures |a| <= |b|
  {
    assert |b - a| == |b| - |a|;
  }

  /** It has a node left; and one without nodes has succeeded from the start. */
  lemma HasSomeLeft(w: World, t: TxId)
    requires Inv(w) && t in w.coords && !w.coords[t].phase.Ended?
    ensures exists n :: n in w.coords[t].phase.rest
  {
    assert CoordOk(w.coords[t]);
    var n :| n in w.coords[t].phase.rest;
  }

  lemma NoNodes(w: World, t: TxId)
    requires t !in w.coords
    ensures Next(w, Begin(t, {}, {})).coords[t].phase == Ended(true)
  {
  }

  /* ---- Coordinators that wait for each other ---- */

  /** Wherever the coordinator may go next, the locks are held by another transaction. Where the two write the same keys, execPrepare waits for them. */
  predicate Waits(w: World, t: TxId) {
    t in w.coords && w.coords[t].phase.Preparing?
    && forall n :: n in w.coords[t].phase.rest ==> n in w.nodes && w.nodes[n].held != {} && t !in w.nodes[n].held
  }

  const IDLE := Participant(map[], {}, multiset{})

  ghost predicate Moves(w: World, s: Step, x: World) {
    Enabled(w, s) && x == Next(w, s)
  }

  /** Two transactions on the same two nodes begin. */
  lemma BothBegin(t: TxId, u: TxId, m: Node, n: Node) returns (w0: World, w1: World, w2: World)
    requires t != u && m != n
    ensures w0 == World(map[m := IDLE, n := IDLE], map[]) && Moves(w0, Begin(t, {m, n}, {m, n}), w1) && Moves(w1, Begin(u, {m, n}, {m, n}), w2)
    ensures var c := Coord({m, n}, {m, n}, {}, Preparing({m, n})); w2 == World(w0.nodes, map[t := c, u := c])
  {
    w0 := World(map[m := IDLE, n := IDLE], map[]);
    w1 := Next(w0, Begin(t, {m, n}, {m, n}));
    w2 := Next(w1, Begin(u, {m, n}, {m, n}));
  }

  /** The first goes to one node, the second to the other. */
  lemma BothPrepare(t: TxId, u: TxId, m: Node, n: Node, w2: World) returns (w3: World, w4: World)
    requires t != u && m != n
    requires var c := Coord({m, n}, {m, n}, {}, Preparing({m, n})); w2 == World(map[m := IDLE, n := IDLE], map[t := c, u := c])
    ensures Moves(w2, PrepareAt(t, m, true), w3) && Moves(w3, PrepareAt(u, n, true), w4)
    ensures w4.coords.Keys == {t, u} && Waits(w4, t) && Waits(w4, u)
  {
    w3 := Next(w2, PrepareAt(t, m, true));
    w4 := Next(w3, PrepareAt(u, n, true));
    assert {m, n} - {m} == {n} && {m, n} - {n} == {m};
  }

  lemma FourMoves(w0: World, w1: World, w2: World, w3: World, w4: World, a: Step, b: Step, c: Step, d: Step)
    requires Inv(w0) && Moves(w0, a, w1) && Moves(w1, b, w2) && Moves(w2, c, w3) && Moves(w3, d, w4)
    ensures IsRun([w0, w1, w2, w3, w4], [a, b, c, d])
  {
    RunGrows([w0], [], a, w1);
    assert [w0] + [w1] == [w0, w1] && [] + [a] == [a];
    RunGrows([w0, w1], [a], b, w2);
    assert [w0, w1] + [w2] == [w0, w1, w2] && [a] + [b] == [a, b];
    RunGrows([w0, w1, w2], [a, b], c, w3);
    assert [w0, w1, w2] + [w3] == [w0, w1, w2, w3] && [a, b] + [c] == [a, b, c];
    RunGrows([w0, w1, w2, w3], [a, b, c], d, w4);
    assert [w0, w1, w2, w3] + [w4] == [w0, w1, w2, w3, w4] && [a, b, c] + [d] == [a, b, c, d];
  }

  lemma RunGrows(run: seq<World>, steps: seq<Step>, s: Step, x: World)
    requires IsRun(run, steps) && Moves(run[|steps|], s, x)
    ensures IsRun(run + [x], steps + [s])
  {
    var r, t := run + [x], steps + [s];
    forall i {:trigger t[i]} | 0 <= i < |t| ensures Enabled(r[i], t[i]) && r[i + 1] == Next(r[i], t[i]) {
      assert i < |steps| ==> t[i] == steps[i];
    }
  }

  /** Two coordinators that go to the same two nodes in opposite order: each waits for what the other holds. */
  lemma Deadlock(t: TxId, u: TxId, m: Node, n: Node) returns (run: seq<World>)
    requires t != u && m != n
    ensures IsRun(run, [Begin(t, {m, n}, {m, n}), Begin(u, {m, n}, {m, n}), PrepareAt(t, m, true), PrepareAt(u, n, true)])
    ensures run[0] == World(map[m := IDLE, n := IDLE], map[])
    ensures run[4].coords.Keys == {t, u} && Waits(run[4], t) && Waits(run[4], u)
  {
    var w0, w1, w2 := BothBegin(t, u, m, n);
    var w3, w4 := BothPrepare(t, u, m, n, w2);
    StartMeets(w0.nodes);
    FourMoves(w0, w1, w2, w3, w4, Begin(t, {m, n}, {m, n}), Begin(u, {m, n}, {m, n}), PrepareAt(t, m, true), PrepareAt(u, n, true));
    run := [w0, w1, w2, w3, w4];
  }
}
