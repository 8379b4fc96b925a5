/** cluster/raft/: what each entry of the log does to slots, migrations and roles. */
module ClusterEffects {
  import opened ClusterFsm

  /** The two agree on slots. */
  ghost predicate SameSlots(m: Meta, t: Meta) {
    t.node2Slot == m.node2Slot && t.slot2Node == m.slot2Node
  }

  ghost predicate SameRoles(m: Meta, t: Meta) {
    t.masterSlaves == m.masterSlaves && t.slaveMasters == m.slaveMasters
  }

  ghost predicate SameRole(m: Meta, t: Meta, x: Node) {
    && (x in t.masterSlaves <==> x in m.masterSlaves) && (x in m.masterSlaves ==> t.masterSlaves[x] == m.masterSlaves[x])
    && (x in t.slaveMasters <==> x in m.slaveMasters) && (x in m.slaveMasters ==> t.slaveMasters[x] == m.slaveMasters[x])
  }

  /** The owner of a slot: `node` if it is one of these, and as before otherwise. */
  ghost predicate OwnerIs(m: Meta, t: Meta, slots: seq<Slot>, node: Node, s: Slot) {
    if s in slots then s in t.slot2Node && t.slot2Node[s] == node
    else (s in t.slot2Node <==> s in m.slot2Node) && (s in m.slot2Node ==> t.slot2Node[s] == m.slot2Node[s])
  }

  /* ---- Migrations ---- */

  /** A migration that starts is recorded under its id; nothing else changes. */
  lemma StartMigrateMeans(m: Meta, task: Task)
    ensures var t := ApplyEntry(m, StartMigrate(task));
            && task.id in t.migratings && t.migratings[task.id] == task
            && (forall id :: id != task.id ==> (id in t.migratings <==> id in m.migratings) && (id in m.migratings ==> t.migratings[id] == m.migratings[id]))
            && SameSlots(m, t) && SameRoles(m, t)
  {
  }

  lemma {:induction false} AddedMigratings(m: Meta, node: Node, slots: seq<Slot>)
    ensures SlotsAdded(m, node, slots).migratings == m.migratings
    decreases slots
  {
    if slots != [] {
      AddedMigratings(m, node, slots[..|slots| - 1]);
    }
  }

  lemma {:induction false} RemovedMigratings(m: Meta, node: Node, slots: seq<Slot>)
    ensures SlotsRemoved(m, node, slots).migratings == m.migratings
    decreases slots
  {
    if slots != [] {
      RemovedMigratings(m, node, slots[..|slots| - 1]);
    }
  }

  /** The owners after the slots are added to one node and removed from another. */
  lemma MovedOwners(m: Meta, src: Node, target: Node, slots: seq<Slot>, s: Slot)
    requires src != target
    ensures OwnerIs(m, SlotsRemoved(SlotsAdded(m, target, slots), src, slots), slots, target, s)
  {
    AddedFacts(m, target, slots);
    RemovedOwners(SlotsAdded(m, target, slots), src, slots);
  }

  /** The lists then: the target lists the slots as well, the source no longer if its list was sorted. */
  lemma MovedLists(m: Meta, src: Node, target: Node, slots: seq<Slot>, x: Node, s: Slot)
    requires src != target
    ensures var l, r := SlotsOf(m, x), SlotsOf(SlotsRemoved(SlotsAdded(m, target, slots), src, slots), x);
            && (x == target ==> (s in r <==> s in l || s in slots))
            && (x == src && Ascending(l) ==> (s in r <==> s in l && s !in slots))
            && (x != src && x != target ==> r == l)
  {
    AddedFacts(m, target, slots);
    var u := SlotsAdded(m, target, slots);
    RemovedList(u, src, slots, x);
    assert SlotsOf(u, x) == if x == target then WithSlots(SlotsOf(m, x), slots) else SlotsOf(m, x);
    InWithSlots(SlotsOf(m, x), slots, s);
  }

  /** A migration that ends is deleted, its slots have the target for owner, the target lists them and the source does not. */
  lemma FinishMigrateMeans(m: Meta, task: Task, s: Slot, x: Node)
    requires task.src != task.target
    ensures var t := ApplyEntry(m, FinishMigrate(task));
            && task.id !in t.migratings
            && (forall id :: id != task.id ==> (id in t.migratings <==> id in m.migratings) && (id in m.migratings ==> t.migratings[id] == m.migratings[id]))
            && SameRoles(m, t) && OwnerIs(m, t, task.slots, task.target, s)
            && (x == task.target ==> (s in SlotsOf(t, x) <==> s in SlotsOf(m, x) || s in task.slots))
            && (x == task.src && Ascending(SlotsOf(m, x)) ==> (s in SlotsOf(t, x) <==> s in SlotsOf(m, x) && s !in task.slots))
            && (x != task.src && x != task.target ==> SlotsOf(t, x) == SlotsOf(m, x))
  {
    var m1 := m.(migratings := m.migratings - {task.id});
    AddedMigratings(m1, task.target, task.slots);
    RemovedMigratings(SlotsAdded(m1, task.target, task.slots), task.src, task.slots);
    AddedFacts(m1, task.target, task.slots);
    RemovedOwners(SlotsAdded(m1, task.target, task.slots), task.src, task.slots);
    MovedOwners(m1, task.src, task.target, task.slots, s);
    MovedLists(m1, task.src, task.target, task.slots, x, s);
  }

  /* ---- Nodes ---- */

  /** The start of a cluster: the leader is a master without slaves, and owns and lists all slots. */
  lemma SeedMeans(m: Meta, leader: Node, n: nat, s: Slot, x: Node)
    ensures var t := ApplyEntry(m, SeedStart(leader, n));
            && leader in t.masterSlaves && t.masterSlaves[leader] == [] && t.slaveMasters == m.slaveMasters && t.migratings == m.migratings
            && (if s < n then s in t.slot2Node && t.slot2Node[s] == leader
                else (s in t.slot2Node <==> s in m.slot2Node) && (s in m.slot2Node ==> t.slot2Node[s] == m.slot2Node[s]))
            && |SlotsOf(t, leader)| == n && (s < n ==> SlotsOf(t, leader)[s] == s)
            && (x != leader ==> SlotsOf(t, x) == SlotsOf(m, x) && SameRole(m, t, x))
  {
    assert s < n ==> Range(n)[s] in Range(n);
    assert forall y :: y in Range(n) ==> y < n;
  }

  /** A node that joins alone is a master without slaves. */
  lemma JoinMasterMeans(m: Meta, id: Node, x: Node)
    ensures var t := ApplyEntry(m, Join(id, ""));
            && id in t.masterSlaves && t.masterSlaves[id] == [] && t.slaveMasters == m.slaveMasters
            && (x != id ==> SameRole(m, t, x)) && SameSlots(m, t) && t.migratings == m.migratings
  {
  }

  /** A node that joins a master is listed by it, behind the others, and has it for master; one that joins an unknown master is not taken in. */
  lemma JoinSlaveMeans(m: Meta, id: Node, master: Node, x: Node)
    requires master != ""
    ensures var t := ApplyEntry(m, Join(id, master));
            && SameSlots(m, t) && t.migratings == m.migratings
            && if master !in m.masterSlaves then t == m
               else
                 && id in t.slaveMasters && t.slaveMasters[id] == master && master in t.masterSlaves
                 && t.masterSlaves[master] == (if id in m.masterSlaves[master] then m.masterSlaves[master] else m.masterSlaves[master] + [id])
                 && t.masterSlaves.Keys == m.masterSlaves.Keys && (x != master && x in m.masterSlaves ==> t.masterSlaves[x] == m.masterSlaves[x])
                 && (x != id ==> (x in t.slaveMasters <==> x in m.slaveMasters) && (x in m.slaveMasters ==> t.slaveMasters[x] == m.slaveMasters[x]))
  {
  }

  /* ---- Failover ---- */

  lemma {:induction false} OthersMean(slaves: seq<Node>, node: Node, x: Node)
    ensures x in Others(slaves, node) <==> x in slaves && x != node
    decreases slaves
  {
    if slaves != [] {
      var k := |slaves| - 1;
      assert slaves == slaves[..k] + [slaves[k]];
      OthersMean(slaves[..k], node, x);
    }
  }

  /** They keep their order. */
  lemma {:induction false} OthersOrder(slaves: seq<Node>, node: Node, i: nat)
    ensures node !in slaves ==> Others(slaves, node) == slaves
    ensures i < |slaves| && slaves[i] == node && node !in slaves[..i] && node !in slaves[i + 1..] ==> Others(slaves, node) == slaves[..i] + slaves[i + 1..]
    decreases slaves
  {
    if slaves != [] {
      var k := |slaves| - 1;
      assert slaves == slaves[..k] + [slaves[k]];
      OthersOrder(slaves[..k], node, i);
      if i < k {
        assert slaves[..k][..i] == slaves[..i] && slaves[i + 1..] == slaves[..k][i + 1..] + [slaves[k]];
      } else if i == k {
        assert slaves[..k][..] == slaves[..i] && slaves[i + 1..] == [];
      }
    }
  }

  lemma KeptByOwn(m: Meta, node: Node)
    ensures SameRoles(m, OwnSlotsRemoved(m, node)) && OwnSlotsRemoved(m, node).migratings == m.migratings
  {
  }

  /** The new master has the other slaves and the old master for slaves, and they have it for master; it is no slave and the old master no master. The others keep their roles. */
  lemma FailoverMeans(m: Meta, oldMaster: Node, newMaster: Node, x: Node)
    requires oldMaster in m.masterSlaves && oldMaster != newMaster
    ensures var t, slaves := ApplyEntry(m, FinishFailover(oldMaster, newMaster)), m.masterSlaves[oldMaster];
            && newMaster in t.masterSlaves && newMaster !in t.slaveMasters && oldMaster !in t.masterSlaves
            && oldMaster in t.slaveMasters && t.slaveMasters[oldMaster] == newMaster
            && (x in t.masterSlaves[newMaster] <==> x == oldMaster || (x in slaves && x != newMaster))
            && t.masterSlaves[newMaster] == Others(slaves, newMaster) + [oldMaster]
            && (x in slaves && x != newMaster ==> x in t.slaveMasters && t.slaveMasters[x] == newMaster)
            && (x != oldMaster && x != newMaster ==> (x in t.masterSlaves <==> x in m.masterSlaves) && (x in m.masterSlaves ==> t.masterSlaves[x] == m.masterSlaves[x]))
            && (x != oldMaster && x != newMaster && x !in slaves ==>
                  (x in t.slaveMasters <==> x in m.slaveMasters) && (x in m.slaveMasters ==> t.slaveMasters[x] == m.slaveMasters[x]))
            && t.migratings == m.migratings
  {
    var slaves := m.masterSlaves[oldMaster];
    var m1 := FailedOver(m, oldMaster, newMaster);
    var m2 := SlotsAdded(m1, newMaster, SlotsOf(m, oldMaster));
    AddedFacts(m1, newMaster, SlotsOf(m, oldMaster));
    AddedMigratings(m1, newMaster, SlotsOf(m, oldMaster));
    KeptByOwn(m2, oldMaster);
    OthersMean(slaves, newMaster, x);
    RedirectedAt(m.slaveMasters, slaves, newMaster, x);
  }

  /** The slots of the old master have the new one for owner, which lists them; the other owners and lists stay. */
  lemma FailoverSlots(m: Meta, oldMaster: Node, newMaster: Node, s: Slot, x: Node)
    requires oldMaster in m.masterSlaves && oldMaster != newMaster && Listed(m)
    ensures var t := ApplyEntry(m, FinishFailover(oldMaster, newMaster));
            && OwnerIs(m, t, SlotsOf(m, oldMaster), newMaster, s)
            && (s in SlotsOf(t, newMaster) <==> s in SlotsOf(m, newMaster) || s in SlotsOf(m, oldMaster))
            && (x != oldMaster && x != newMaster ==> SlotsOf(t, x) == SlotsOf(m, x))
  {
    var l := SlotsOf(m, oldMaster);
    var m1 := FailedOver(m, oldMaster, newMaster);
    var m2 := SlotsAdded(m1, newMaster, l);
    AddedFacts(m1, newMaster, l);
    forall y | y in m2.slot2Node ensures m2.slot2Node[y] != oldMaster {
      if y !in l {
        assert m2.slot2Node[y] == m.slot2Node[y];
        assert y in SlotsOf(m, m.slot2Node[y]);
      }
    }
    NobodyDisowned(m2.slot2Node, oldMaster, SlotsOf(m2, oldMaster), |SlotsOf(m2, oldMaster)|, 0);
    assert SlotsOf(m2, newMaster) == WithSlots(SlotsOf(m1, newMaster), l);
    assert SlotsOf(m2, x) == if x == newMaster then WithSlots(SlotsOf(m1, x), l) else SlotsOf(m1, x);
    InWithSlots(SlotsOf(m, newMaster), l, s);
  }
}
