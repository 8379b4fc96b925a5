/** cluster/raft/: the replicated state of a cluster. */
module ClusterFsm {
  import Sequences

  type Slot = nat
  type Node = string

  ghost predicate Ascending(l: seq<Slot>) {
    forall i, j :: 0 <= i < j < |l| ==> l[i] < l[j]
  }

  function Elements<T>(l: seq<T>): set<T> {
    set x | x in l
  }

  lemma NoElements<T>(l: seq<T>)
    ensures l == [] <==> Elements(l) == {}
  {
    if l != [] {
      assert l[0] in Elements(l);
    }
  }

  /* ---- The slots of a node ---- */

  /** sort.Search for the first entry that is at least `x`, by bisection, whether or not the list is sorted. */
  function Search(l: seq<Slot>, x: Slot, i: nat, j: nat): (r: nat)
    requires i <= j <= |l|
    ensures i <= r <= j
    decreases j - i
  {
    if i == j then i
    else
      var h := (i + j) / 2;
      if l[h] >= x then Search(l, x, i, h) else Search(l, x, h + 1, j)
  }

  lemma {:induction false} SearchFinds(l: seq<Slot>, x: Slot, i: nat, j: nat)
    requires Ascending(l) && i <= j <= |l|
    requires (forall k :: 0 <= k < i ==> l[k] < x) && (forall k :: j <= k < |l| ==> l[k] >= x)
    ensures var r := Search(l, x, i, j); (forall k :: 0 <= k < r ==> l[k] < x) && (forall k :: r <= k < |l| ==> l[k] >= x)
    decreases j - i
  {
    if i < j {
      var h := (i + j) / 2;
      if l[h] >= x {
        SearchFinds(l, x, i, h);
      } else {
        SearchFinds(l, x, h + 1, j);
      }
    }
  }

  ghost function InsertedAt(l: seq<Slot>, i: nat, x: Slot): (r: seq<Slot>)
    requires i <= |l|
    ensures Sequences.Inserted(l, r, i, x)
  {
    assert Sequences.Inserted(l, l[..i] + [x] + l[i..], i, x);
    var r :| Sequences.Inserted(l, r, i, x);
    r
  }

  lemma InsertedIs(l: seq<Slot>, i: nat, x: Slot)
    requires i <= |l|
    ensures InsertedAt(l, i, x) == l[..i] + [x] + l[i..]
  {
    var r, t := InsertedAt(l, i, x), l[..i] + [x] + l[i..];
    forall k | 0 <= k < |r| ensures r[k] == t[k] {
    }
  }

  ghost function WithSlot(l: seq<Slot>, x: Slot): (r: seq<Slot>) {
    var i := Search(l, x, 0, |l|);
    if i < |l| && l[i] == x then l else InsertedAt(l, i, x)
  }

  lemma WithSlotElements(l: seq<Slot>, x: Slot)
    ensures Elements(WithSlot(l, x)) == Elements(l) + {x}
  {
    InsertedIs(l, Search(l, x, 0, |l|), x);
    assert l == l[..Search(l, x, 0, |l|)] + l[Search(l, x, 0, |l|)..];
  }

  lemma WithSlotAscending(l: seq<Slot>, x: Slot)
    requires Ascending(l)
    ensures Ascending(WithSlot(l, x))
  {
    SearchFinds(l, x, 0, |l|);
    var i := Search(l, x, 0, |l|);
    if !(i < |l| && l[i] == x) {
      InsertedAscending(l, WithSlot(l, x), i, x);
    }
  }

  lemma InsertedAscending(l: seq<Slot>, r: seq<Slot>, i: nat, x: Slot)
    requires Ascending(l) && Sequences.Inserted(l, r, i, x)
    requires (forall k :: 0 <= k < i ==> l[k] < x) && (forall k :: i <= k < |l| ==> l[k] > x)
    ensures Ascending(r)
  {
  }

  /** Takes out the run of `x` that starts at `i`. */
  ghost function Stripped(l: seq<Slot>, i: nat, x: Slot): (r: seq<Slot>)
    requires i <= |l|
    decreases |l|
  {
    if i < |l| && l[i] == x then Stripped(Sequences.Without(l, i), i, x) else l
  }

  ghost function WithoutSlot(l: seq<Slot>, x: Slot): (r: seq<Slot>) {
    Stripped(l, Search(l, x, 0, |l|), x)
  }

  lemma {:induction false} StrippedElements(l: seq<Slot>, i: nat, x: Slot)
    requires i <= |l|
    ensures Elements(Stripped(l, i, x)) <= Elements(l) && Elements(l) - {x} <= Elements(Stripped(l, i, x))
    decreases |l|
  {
    if i < |l| && l[i] == x {
      Sequences.WithoutSlices(l, i);
      assert l == l[..i] + [x] + l[i + 1..];
      StrippedElements(Sequences.Without(l, i), i, x);
    }
  }

  lemma CutElements(l: seq<Slot>, i: nat)
    requires Ascending(l) && i < |l|
    ensures Ascending(Sequences.Without(l, i)) && Elements(Sequences.Without(l, i)) == Elements(l) - {l[i]}
  {
    Sequences.WithoutSlices(l, i);
    assert l == l[..i] + [l[i]] + l[i + 1..];
    assert l[i] !in l[..i] && l[i] !in l[i + 1..];
  }

  lemma WithoutSlotAscending(l: seq<Slot>, x: Slot)
    requires Ascending(l)
    ensures Ascending(WithoutSlot(l, x)) && Elements(WithoutSlot(l, x)) == Elements(l) - {x}
  {
    SearchFinds(l, x, 0, |l|);
    var i := Search(l, x, 0, |l|);
    if i < |l| && l[i] == x {
      var r := Sequences.Without(l, i);
      CutElements(l, i);
      assert Stripped(r, i, x) == r;
    } else {
      assert x !in l;
    }
  }

  ghost function WithSlots(l: seq<Slot>, slots: seq<Slot>): (r: seq<Slot>) {
    if slots == [] then l else WithSlot(WithSlots(l, slots[..|slots| - 1]), slots[|slots| - 1])
  }

  ghost function WithoutSlots(l: seq<Slot>, slots: seq<Slot>): (r: seq<Slot>) {
    if slots == [] then l else WithoutSlot(WithoutSlots(l, slots[..|slots| - 1]), slots[|slots| - 1])
  }

  lemma {:induction false} SlotsElements(l: seq<Slot>, slots: seq<Slot>)
    ensures Elements(WithSlots(l, slots)) == Elements(l) + Elements(slots)
    ensures Elements(WithoutSlots(l, slots)) <= Elements(l) && Elements(l) - Elements(slots) <= Elements(WithoutSlots(l, slots))
    decreases slots
  {
    if slots != [] {
      var m := |slots| - 1;
      assert slots == slots[..m] + [slots[m]];
      SlotsElements(l, slots[..m]);
      WithSlotElements(WithSlots(l, slots[..m]), slots[m]);
      var w := WithoutSlots(l, slots[..m]);
      StrippedElements(w, Search(w, slots[m], 0, |w|), slots[m]);
    }
  }

  lemma {:induction false} SlotsAscending(l: seq<Slot>, slots: seq<Slot>)
    requires Ascending(l)
    ensures Ascending(WithSlots(l, slots)) && Ascending(WithoutSlots(l, slots))
    ensures Elements(WithoutSlots(l, slots)) == Elements(l) - Elements(slots)
    decreases slots
  {
    if slots != [] {
      var m := |slots| - 1;
      assert slots == slots[..m] + [slots[m]];
      SlotsAscending(l, slots[..m]);
      WithSlotAscending(WithSlots(l, slots[..m]), slots[m]);
      WithoutSlotAscending(WithoutSlots(l, slots[..m]), slots[m]);
    }
  }

  lemma InWithSlots(l: seq<Slot>, slots: seq<Slot>, s: Slot)
    ensures s in WithSlots(l, slots) <==> s in l || s in slots
    ensures s in l && s !in slots ==> s in WithoutSlots(l, slots)
    ensures s in WithoutSlots(l, slots) ==> s in l
    ensures Ascending(l) && s in WithoutSlots(l, slots) ==> s !in slots
  {
    SlotsElements(l, slots);
    assert s in Elements(WithSlots(l, slots)) <==> s in Elements(l) || s in Elements(slots);
    assert s in Elements(l) - Elements(slots) ==> s in Elements(WithoutSlots(l, slots));
    assert s in Elements(WithoutSlots(l, slots)) ==> s in Elements(l);
    if Ascending(l) {
      SlotsAscending(l, slots);
      assert s in Elements(WithoutSlots(l, slots)) ==> s in Elements(l) - Elements(slots);
    }
  }

  /* ---- removeSlots, given the very slice it shrinks ---- */

  /** A slice is the first `len` cells of a block of memory; taking out entry `i` moves the later ones up and leaves the last cell as it is. */
  ghost predicate MovedUp(cells: seq<Slot>, r: seq<Slot>, i: nat, len: nat) {
    && i < len <= |cells| == |r|
    && forall k {:trigger r[k]} :: 0 <= k < |r| ==> r[k] == if i <= k < len - 1 then cells[k + 1] else cells[k]
  }

  ghost function Shifted(cells: seq<Slot>, i: nat, len: nat): (r: seq<Slot>)
    requires i < len <= |cells|
    ensures MovedUp(cells, r, i, len)
  {
    assert MovedUp(cells, cells[..i] + cells[i + 1..len] + cells[len - 1..], i, len);
    var r :| MovedUp(cells, r, i, len);
    r
  }

  lemma ShiftedIs(cells: seq<Slot>, r: seq<Slot>, i: nat, len: nat)
    requires MovedUp(cells, r, i, len)
    ensures r == Shifted(cells, i, len)
  {
    var t := Shifted(cells, i, len);
    forall k | 0 <= k < |r| ensures r[k] == t[k] {
    }
  }

  ghost function StripCells(cells: seq<Slot>, i: nat, len: nat, x: Slot): (r: (seq<Slot>, nat))
    requires i <= len <= |cells|
    ensures |r.0| == |cells| && i <= r.1 <= len && Elements(r.0) <= Elements(cells)
    decreases len
  {
    if i < len && cells[i] == x then
      var t := Shifted(cells, i, len);
      assert forall k {:trigger t[k]} :: 0 <= k < |t| ==> t[k] in cells;
      StripCells(t, i, len - 1, x)
    else (cells, len)
  }

  /** One round of removeSlots on the cells it reads from. */
  ghost function TakeCell(cells: seq<Slot>, len: nat, x: Slot): (r: (seq<Slot>, nat))
    requires len <= |cells|
    ensures |r.0| == |cells| && r.1 <= len && Elements(r.0) <= Elements(cells)
  {
    StripCells(cells, Search(cells[..len], x, 0, len), len, x)
  }

  /** The rounds from `i` on; each reads its slot from the cells as they then are. */
  ghost function Sweep(cells: seq<Slot>, len: nat, i: nat): (r: (seq<Slot>, nat))
    requires len <= |cells| && i <= |cells|
    ensures |r.0| == |cells| && r.1 <= len && Elements(r.0) <= Elements(cells)
    decreases |cells| - i
  {
    if i == |cells| then (cells, len)
    else var (c, n) := TakeCell(cells, len, cells[i]); Sweep(c, n, i + 1)
  }

  lemma NotBefore(l: seq<Slot>, i: nat, j: nat)
    requires Ascending(l) && i < |l| && j < |l|
    ensures l[i] >= l[j] ==> i >= j
  {
  }

  lemma TakeFound(cells: seq<Slot>, len: nat, j: nat)
    requires j < len <= |cells| && Ascending(cells[..len])
    ensures TakeCell(cells, len, cells[j]) == (Shifted(cells, j, len), len - 1)
  {
    var x := cells[j];
    SearchFinds(cells[..len], x, 0, len);
    var i := Search(cells[..len], x, 0, len);
    assert cells[..len][j] == x;
    NotBefore(cells[..len], i, j);
    var t := Shifted(cells, j, len);
    assert j < len - 1 ==> cells[..len][j] < cells[..len][j + 1];
    assert StripCells(t, j, len - 1, x) == (t, len - 1);
  }

  lemma TakeMissing(cells: seq<Slot>, len: nat, x: Slot)
    requires len <= |cells| && Ascending(cells[..len]) && x !in cells[..len]
    ensures TakeCell(cells, len, x) == (cells, len)
  {
    var i := Search(cells[..len], x, 0, len);
    assert i < len ==> cells[..len][i] in cells[..len];
  }

  /** The cells before round `i`, when the rounds started on `s`. */
  ghost predicate Swept(s: seq<Slot>, cells: seq<Slot>, len: nat, i: nat) {
    && |cells| == |s| > 0 && i <= |s|
    && len == (if 2 * i <= |s| then |s| - i else (|s| - 1) / 2)
    && (forall k {:trigger cells[k]} :: 0 <= k < |s| ==>
          if k < i && k < len then cells[k] == s[2 * k + 1]
          else if k < len then cells[k] == s[k + i]
          else k >= i ==> cells[k] == s[|s| - 1])
  }

  lemma SweptAscending(s: seq<Slot>, cells: seq<Slot>, len: nat, i: nat)
    requires Swept(s, cells, len, i) && Ascending(s)
    ensures Ascending(cells[..len])
  {
    forall j, k | 0 <= j < k < len ensures cells[..len][j] < cells[..len][k] {
      assert cells[j] == s[if j < i then 2 * j + 1 else j + i];
      assert cells[k] == s[if k < i then 2 * k + 1 else k + i];
    }
  }

  lemma SweptFound(s: seq<Slot>, cells: seq<Slot>, len: nat, i: nat)
    requires Swept(s, cells, len, i) && 2 * i < |s|
    ensures Swept(s, Shifted(cells, i, len), len - 1, i + 1)
  {
    var c := Shifted(cells, i, len);
    forall k {:trigger c[k]} | 0 <= k < |s|
      ensures if k < i + 1 && k < len - 1 then c[k] == s[2 * k + 1]
              else if k < len - 1 then c[k] == s[k + i + 1]
              else k >= i + 1 ==> c[k] == s[|s| - 1]
    {
      assert c[k] == cells[if i <= k < len - 1 then k + 1 else k];
    }
  }

  lemma SweptLast(s: seq<Slot>, cells: seq<Slot>, len: nat, i: nat)
    requires Swept(s, cells, len, i) && 2 * i == |s|
    ensures len > 0 && cells[i] == cells[len - 1] && Swept(s, Shifted(cells, len - 1, len), len - 1, i + 1)
  {
    assert cells[len - 1] == s[2 * (len - 1) + 1];
    ShiftedIs(cells, cells, len - 1, len);
  }

  lemma SweptMissing(s: seq<Slot>, cells: seq<Slot>, len: nat, i: nat)
    requires Swept(s, cells, len, i) && Ascending(s) && |s| < 2 * i < 2 * |s|
    ensures cells[i] !in cells[..len] && Swept(s, cells, len, i + 1)
  {
    forall k | 0 <= k < len ensures cells[..len][k] < cells[i] {
      assert cells[k] == s[2 * k + 1];
    }
  }

  lemma SweepTakes(cells: seq<Slot>, len: nat, i: nat)
    requires len <= |cells| && i < |cells|
    ensures var r := TakeCell(cells, len, cells[i]); Sweep(cells, len, i) == Sweep(r.0, r.1, i + 1)
  {
  }

  lemma SweepStep(s: seq<Slot>, cells: seq<Slot>, len: nat, i: nat) returns (c: seq<Slot>, n: nat)
    requires Swept(s, cells, len, i) && Ascending(s) && i < |s|
    ensures Swept(s, c, n, i + 1) && n <= |c| && Sweep(cells, len, i) == Sweep(c, n, i + 1)
  {
    var r := TakeCell(cells, len, cells[i]);
    c, n := r.0, r.1;
    SweepTakes(cells, len, i);
    SweptAscending(s, cells, len, i);
    if 2 * i < |s| {
      TakeFound(cells, len, i);
      SweptFound(s, cells, len, i);
    } else if 2 * i == |s| {
      SweptLast(s, cells, len, i);
      TakeFound(cells, len, len - 1);
    } else {
      SweptMissing(s, cells, len, i);
      TakeMissing(cells, len, cells[i]);
    }
  }

  /** Of n slots the old master keeps (n-1)/2 in its list: every second one, but never the last. */
  lemma {:induction false} SweepLeaves(s: seq<Slot>, cells: seq<Slot>, len: nat, i: nat)
    requires Swept(s, cells, len, i) && Ascending(s)
    ensures var (c, n) := Sweep(cells, len, i);
            n == (|s| - 1) / 2 && forall k {:trigger c[k]} :: 0 <= k < n ==> c[k] == s[2 * k + 1]
    decreases |s| - i
  {
    if i < |s| {
      var c, n := SweepStep(s, cells, len, i);
      SweepLeaves(s, c, n, i + 1);
    }
  }

  /* ---- The state and the entries of the log ---- */

  datatype Task = Task(id: string, src: Node, target: Node, slots: seq<Slot>)

  datatype Meta = Meta(node2Slot: map<Node, seq<Slot>>, slot2Node: map<Slot, Node>, migratings: map<string, Task>,
                       masterSlaves: map<Node, seq<Node>>, slaveMasters: map<Node, Node>)

  datatype Entry =
    | StartMigrate(task: Task)
    | FinishMigrate(task: Task)
    | SeedStart(leader: Node, count: nat)
    | FinishFailover(oldMaster: Node, newMaster: Node)
    | Join(id: Node, master: Node)

  const EMPTY := Meta(map[], map[], map[], map[], map[])

  function SlotsOf(m: Meta, node: Node): seq<Slot> {
    if node in m.node2Slot then m.node2Slot[node] else []
  }

  function Owners(slots: seq<Slot>, node: Node): map<Slot, Node> {
    map s | s in slots :: node
  }

  ghost function SlotAdded(m: Meta, node: Node, x: Slot): Meta {
    m.(node2Slot := m.node2Slot[node := WithSlot(SlotsOf(m, node), x)], slot2Node := m.slot2Node[x := node])
  }

  /** addSlots, one slot after the other. */
  ghost function SlotsAdded(m: Meta, node: Node, slots: seq<Slot>): Meta
    decreases slots
  {
    if slots == [] then m else SlotAdded(SlotsAdded(m, node, slots[..|slots| - 1]), node, slots[|slots| - 1])
  }

  function Disowned(owners: map<Slot, Node>, node: Node, x: Slot): map<Slot, Node> {
    if x in owners && owners[x] == node then owners - {x} else owners
  }

  ghost function SlotRemoved(m: Meta, node: Node, x: Slot): Meta {
    m.(node2Slot := if node in m.node2Slot then m.node2Slot[node := WithoutSlot(m.node2Slot[node], x)] else m.node2Slot,
       slot2Node := Disowned(m.slot2Node, node, x))
  }

  /** removeSlots, one slot after the other. */
  ghost function SlotsRemoved(m: Meta, node: Node, slots: seq<Slot>): Meta
    decreases slots
  {
    if slots == [] then m else SlotRemoved(SlotsRemoved(m, node, slots[..|slots| - 1]), node, slots[|slots| - 1])
  }

  /** What remains of a list when removeSlots is given that list itself. */
  ghost function LeftOver(l: seq<Slot>): (r: seq<Slot>)
    ensures Elements(r) <= Elements(l)
  {
    var (c, n) := Sweep(l, |l|, 0);
    assert forall k {:trigger c[k]} :: 0 <= k < |c| ==> c[k] in c;
    c[..n]
  }

  /** The owners after those rounds. */
  ghost function SweepOwners(owners: map<Slot, Node>, node: Node, cells: seq<Slot>, len: nat, i: nat): map<Slot, Node>
    requires len <= |cells| && i <= |cells|
    decreases |cells| - i
  {
    if i == |cells| then owners
    else var (c, n) := TakeCell(cells, len, cells[i]); SweepOwners(Disowned(owners, node, cells[i]), node, c, n, i + 1)
  }

  lemma {:induction false} NobodyDisowned(owners: map<Slot, Node>, node: Node, cells: seq<Slot>, len: nat, i: nat)
    requires len <= |cells| && i <= |cells| && forall s :: s in owners ==> owners[s] != node
    ensures SweepOwners(owners, node, cells, len, i) == owners
    decreases |cells| - i
  {
    if i < |cells| {
      var (c, n) := TakeCell(cells, len, cells[i]);
      NobodyDisowned(owners, node, c, n, i + 1);
    }
  }

  /** removeSlots in the failover, given the list of the node itself. */
  ghost function OwnSlotsRemoved(m: Meta, node: Node): Meta {
    if node !in m.node2Slot then m
    else
      var l := m.node2Slot[node];
      m.(node2Slot := m.node2Slot[node := LeftOver(l)],
         slot2Node := SweepOwners(m.slot2Node, node, l, |l|, 0))
  }

  function Others(slaves: seq<Node>, node: Node): seq<Node> {
    if slaves == [] then []
    else Others(slaves[..|slaves| - 1], node) + (if slaves[|slaves| - 1] == node then [] else [slaves[|slaves| - 1]])
  }

  /** The loop of failover over the slaves of the old master. */
  function Redirected(slaveMasters: map<Node, Node>, slaves: seq<Node>, newMaster: Node): map<Node, Node>
    decreases slaves
  {
    if slaves == [] then slaveMasters
    else
      var m := Redirected(slaveMasters, slaves[..|slaves| - 1], newMaster);
      if slaves[|slaves| - 1] == newMaster then m else m[slaves[|slaves| - 1] := newMaster]
  }

  lemma {:induction false} RedirectedAt(slaveMasters: map<Node, Node>, slaves: seq<Node>, newMaster: Node, s: Node)
    ensures var m := Redirected(slaveMasters, slaves, newMaster);
            if s in slaves && s != newMaster then s in m && m[s] == newMaster
            else (s in m <==> s in slaveMasters) && (s in m ==> m[s] == slaveMasters[s])
    decreases slaves
  {
    if slaves != [] {
      var k := |slaves| - 1;
      assert slaves == slaves[..k] + [slaves[k]];
      RedirectedAt(slaveMasters, slaves[..k], newMaster, s);
    }
  }

  function FailedOver(m: Meta, oldMaster: Node, newMaster: Node): Meta
    requires oldMaster in m.masterSlaves
  {
    var others := Others(m.masterSlaves[oldMaster], newMaster);
    m.(masterSlaves := (m.masterSlaves - {oldMaster})[newMaster := others + [oldMaster]],
       slaveMasters := Redirected(m.slaveMasters, m.masterSlaves[oldMaster], newMaster)[oldMaster := newMaster] - {newMaster})
  }

  /** A slave of an unknown master is refused. */
  function NodeAdded(m: Meta, id: Node, master: Node): Meta {
    if master == "" then m.(masterSlaves := m.masterSlaves[id := []])
    else if master !in m.masterSlaves then m
    else
      var slaves := m.masterSlaves[master];
      m.(masterSlaves := m.masterSlaves[master := if id in slaves then slaves else slaves + [id]],
         slaveMasters := m.slaveMasters[id := master])
  }

  function Range(n: nat): (r: seq<Slot>)
    ensures |r| == n && forall i :: 0 <= i < n ==> r[i] == i
  {
    seq(n, i => i)
  }

  /** The entry makes Apply panic: a failover from a node that is no master. */
  predicate Panics(m: Meta, e: Entry) {
    e.FinishFailover? && e.oldMaster !in m.masterSlaves
  }

  ghost function ApplyEntry(m: Meta, e: Entry): Meta
    requires !Panics(m, e)
  {
    match e
    case StartMigrate(task) => m.(migratings := m.migratings[task.id := task])
    case FinishMigrate(task) =>
      SlotsRemoved(SlotsAdded(m.(migratings := m.migratings - {task.id}), task.target, task.slots), task.src, task.slots)
    case SeedStart(leader, count) =>
      NodeAdded(m.(slot2Node := m.slot2Node + Owners(Range(count), leader),
                 node2Slot := m.node2Slot[leader := Range(count)]), leader, "")
    case FinishFailover(oldMaster, newMaster) =>
      OwnSlotsRemoved(SlotsAdded(FailedOver(m, oldMaster, newMaster), newMaster, SlotsOf(m, oldMaster)), oldMaster)
    case Join(id, master) => NodeAdded(m, id, master)
  }

  /** What the loops come to. */
  lemma {:induction false} AddedFacts(m: Meta, node: Node, slots: seq<Slot>)
    ensures var t := SlotsAdded(m, node, slots);
            && (forall s :: s in t.slot2Node <==> s in m.slot2Node || s in slots)
            && (forall s :: s in t.slot2Node ==> t.slot2Node[s] == if s in slots then node else m.slot2Node[s])
            && (forall x {:trigger SlotsOf(t, x)} :: SlotsOf(t, x) == if x == node then WithSlots(SlotsOf(m, x), slots) else SlotsOf(m, x))
            && t.masterSlaves == m.masterSlaves && t.slaveMasters == m.slaveMasters
    decreases slots
  {
    if slots != [] {
      var k := |slots| - 1;
      AddedFacts(m, node, slots[..k]);
      assert slots == slots[..k] + [slots[k]];
      var u, t := SlotsAdded(m, node, slots[..k]), SlotsAdded(m, node, slots);
      forall x {:trigger SlotsOf(t, x)} ensures SlotsOf(t, x) == if x == node then WithSlots(SlotsOf(m, x), slots) else SlotsOf(m, x) {
        assert SlotsOf(u, x) == if x == node then WithSlots(SlotsOf(m, x), slots[..k]) else SlotsOf(m, x);
      }
    }
  }

  lemma {:induction false} RemovedOwners(m: Meta, node: Node, slots: seq<Slot>)
    ensures var t := SlotsRemoved(m, node, slots);
            && (forall s :: s in t.slot2Node <==> s in m.slot2Node && !(s in slots && m.slot2Node[s] == node))
            && (forall s :: s in t.slot2Node ==> t.slot2Node[s] == m.slot2Node[s])
            && t.masterSlaves == m.masterSlaves && t.slaveMasters == m.slaveMasters
            && (node in t.node2Slot <==> node in m.node2Slot)
    decreases slots
  {
    if slots != [] {
      var k := |slots| - 1;
      RemovedOwners(m, node, slots[..k]);
      var u, t := SlotsRemoved(m, node, slots[..k]), SlotsRemoved(m, node, slots);
      assert t.slot2Node == Disowned(u.slot2Node, node, slots[k]);
      forall s ensures s in t.slot2Node <==> s in m.slot2Node && !(s in slots && m.slot2Node[s] == node) {
        assert s in slots <==> s in slots[..k] || s == slots[k];
      }
    }
  }

  lemma {:induction false} RemovedList(m: Meta, node: Node, slots: seq<Slot>, x: Node)
    ensures SlotsOf(SlotsRemoved(m, node, slots), x) == if x == node then WithoutSlots(SlotsOf(m, x), slots) else SlotsOf(m, x)
    decreases slots
  {
    if slots != [] {
      var k := |slots| - 1;
      RemovedList(m, node, slots[..k], x);
      RemovedOwners(m, node, slots[..k]);
      TakenFromNone(slots[..k]);
      TakenFromNone(slots);
    }
  }

  lemma {:induction false} TakenFromNone(slots: seq<Slot>)
    ensures WithoutSlots([], slots) == []
  {
    SlotsElements([], slots);
    NoElements(WithoutSlots([], slots));
    assert Elements<Slot>([]) == {};
  }

  /* ---- Every slot keeps an owner ---- */

  ghost predicate Owned(m: Meta, n: nat) {
    forall s :: 0 <= s < n ==> s in m.slot2Node
  }

  /** The owner of a slot lists it. */
  ghost predicate Listed(m: Meta) {
    forall s :: s in m.slot2Node ==> s in SlotsOf(m, m.slot2Node[s])
  }

  /** A migration between two nodes, a failover from one node to another, a start of a migration or a join. */
  predicate Moves(e: Entry) {
    match e
    case FinishMigrate(task) => task.src != task.target
    case FinishFailover(oldMaster, newMaster) => oldMaster != newMaster
    case SeedStart(_, _) => false
    case _ => true
  }

  lemma AddListed(m: Meta, node: Node, slots: seq<Slot>)
    requires Listed(m)
    ensures Listed(SlotsAdded(m, node, slots))
  {
    AddedFacts(m, node, slots);
    var t := SlotsAdded(m, node, slots);
    forall s | s in t.slot2Node ensures s in SlotsOf(t, t.slot2Node[s]) {
      InWithSlots(SlotsOf(m, node), slots, s);
      assert s !in slots ==> s in SlotsOf(m, m.slot2Node[s]);
    }
  }

  lemma RemoveListed(m: Meta, node: Node, slots: seq<Slot>)
    requires Listed(m) && forall s :: s in slots ==> s in m.slot2Node && m.slot2Node[s] != node
    ensures var t := SlotsRemoved(m, node, slots); Listed(t) && t.slot2Node == m.slot2Node
  {
    RemovedOwners(m, node, slots);
    var t := SlotsRemoved(m, node, slots);
    assert t.slot2Node == m.slot2Node;
    forall s | s in t.slot2Node ensures s in SlotsOf(t, t.slot2Node[s]) {
      RemovedList(m, node, slots, t.slot2Node[s]);
      assert s in SlotsOf(m, m.slot2Node[s]);
      InWithSlots(SlotsOf(m, node), slots, s);
    }
  }

  lemma RemoveOwnListed(m: Meta, node: Node)
    requires Listed(m) && forall s :: s in m.slot2Node ==> m.slot2Node[s] != node
    ensures Listed(OwnSlotsRemoved(m, node)) && OwnSlotsRemoved(m, node).slot2Node == m.slot2Node
  {
    var t := OwnSlotsRemoved(m, node);
    NobodyDisowned(m.slot2Node, node, SlotsOf(m, node), |SlotsOf(m, node)|, 0);
    forall s | s in t.slot2Node ensures s in SlotsOf(t, t.slot2Node[s]) {
      assert s in SlotsOf(m, m.slot2Node[s]);
    }
  }

  /** Each of these entries keeps every owned slot owned and listed. */
  lemma EntryKeepsSlots(m: Meta, e: Entry, n: nat)
    requires Owned(m, n) && Listed(m) && Moves(e) && !Panics(m, e)
    ensures var t := ApplyEntry(m, e); Owned(t, n) && Listed(t)
  {
    match e
    case StartMigrate(task) => SameSlots(m, ApplyEntry(m, e));
    case Join(_, _) => SameSlots(m, ApplyEntry(m, e));
    case FinishMigrate(task) =>
      var m1 := m.(migratings := m.migratings - {task.id});
      SameSlots(m, m1);
      AddedFacts(m1, task.target, task.slots);
      AddListed(m1, task.target, task.slots);
      RemoveListed(SlotsAdded(m1, task.target, task.slots), task.src, task.slots);
    case FinishFailover(oldMaster, newMaster) =>
      var m1 := FailedOver(m, oldMaster, newMaster);
      SameSlots(m, m1);
      AddedFacts(m1, newMaster, SlotsOf(m, oldMaster));
      AddListed(m1, newMaster, SlotsOf(m, oldMaster));
      var m2 := SlotsAdded(m1, newMaster, SlotsOf(m, oldMaster));
      forall s | s in m2.slot2Node ensures m2.slot2Node[s] != oldMaster {
        if s !in SlotsOf(m, oldMaster) {
          assert m2.slot2Node[s] == m.slot2Node[s];
          assert s in SlotsOf(m, m.slot2Node[s]);
        }
      }
      RemoveOwnListed(m2, oldMaster);
  }

  lemma SameSlots(m: Meta, t: Meta)
    requires Listed(m) && t.node2Slot == m.node2Slot && t.slot2Node == m.slot2Node
    ensures Listed(t)
  {
    forall s | s in t.slot2Node ensures s in SlotsOf(t, t.slot2Node[s]) {
      assert s in SlotsOf(m, m.slot2Node[s]);
    }
  }

  /** The entries of a log, one after the other, stopping at one that panics. */
  ghost function ApplyAll(m: Meta, log: seq<Entry>): Meta
    decreases log
  {
    if log == [] || Panics(m, log[0]) then m else ApplyAll(ApplyEntry(m, log[0]), log[1..])
  }

  lemma {:induction false} LogKeepsSlots(m: Meta, log: seq<Entry>, n: nat)
    requires Owned(m, n) && Listed(m) && forall e :: e in log ==> Moves(e)
    ensures var t := ApplyAll(m, log); Owned(t, n) && Listed(t)
    decreases log
  {
    if log != [] && !Panics(m, log[0]) {
      EntryKeepsSlots(m, log[0], n);
      LogKeepsSlots(ApplyEntry(m, log[0]), log[1..], n);
    }
  }

  /** From the start of a cluster on, every slot has an owner that lists it. */
  lemma EverySlotOwned(leader: Node, n: nat, log: seq<Entry>)
    requires forall e :: e in log ==> Moves(e)
    ensures var t := ApplyAll(EMPTY, [SeedStart(leader, n)] + log); Owned(t, n) && Listed(t)
  {
    var e := SeedStart(leader, n);
    var m := ApplyEntry(EMPTY, e);
    forall s | 0 <= s < n ensures s in m.slot2Node {
      assert Range(n)[s] == s;
    }
    assert ([e] + log)[1..] == log;
    LogKeepsSlots(m, log, n);
  }

  /** A migration from a node to itself takes the ownership of its slots away. */
  lemma SelfMigrationDisowns(m: Meta, task: Task)
    requires task.src == task.target
    ensures forall s :: s in task.slots ==> s !in ApplyEntry(m, FinishMigrate(task)).slot2Node
  {
    var m1 := m.(migratings := m.migratings - {task.id});
    AddedFacts(m1, task.target, task.slots);
    RemovedOwners(SlotsAdded(m1, task.target, task.slots), task.src, task.slots);
  }

  /* ---- Lists and owners as inverses ---- */

  /** A node lists a slot just if it owns it. */
  ghost predicate Agree(m: Meta, s: Slot, node: Node) {
    s in SlotsOf(m, node) <==> s in m.slot2Node && m.slot2Node[s] == node
  }

  ghost predicate Tidy(m: Meta, node: Node) {
    Ascending(SlotsOf(m, node))
  }

  ghost predicate Inverse(m: Meta) {
    (forall node :: Tidy(m, node)) && (forall s, node :: Agree(m, s, node))
  }

  /** What the two loops of a migration do to the list of one node. */
  ghost function Migrated(m: Meta, task: Task, node: Node): seq<Slot> {
    if node == task.target then WithSlots(SlotsOf(m, node), task.slots)
    else if node == task.src then WithoutSlots(SlotsOf(m, node), task.slots)
    else SlotsOf(m, node)
  }

  lemma MigratedFacts(m: Meta, task: Task, s: Slot, node: Node)
    requires task.src != task.target && forall x :: x in task.slots ==> x in m.slot2Node && m.slot2Node[x] == task.src
    ensures var t := ApplyEntry(m, FinishMigrate(task));
            && SlotsOf(t, node) == Migrated(m, task, node) && (s in t.slot2Node <==> s in m.slot2Node)
            && (s in t.slot2Node ==> t.slot2Node[s] == if s in task.slots then task.target else m.slot2Node[s])
  {
    var m1 := m.(migratings := m.migratings - {task.id});
    var m2 := SlotsAdded(m1, task.target, task.slots);
    AddedFacts(m1, task.target, task.slots);
    RemovedOwners(m2, task.src, task.slots);
    assert SlotsOf(m1, node) == SlotsOf(m, node);
    assert SlotsOf(m2, node) == if node == task.target then WithSlots(SlotsOf(m1, node), task.slots) else SlotsOf(m1, node);
    RemovedList(m2, task.src, task.slots, node);
  }

  lemma MigratedAgree(m: Meta, task: Task, s: Slot, node: Node)
    requires Tidy(m, node) && Agree(m, s, node) && Agree(m, s, task.src) && task.src != task.target
    requires forall x :: x in task.slots ==> x in m.slot2Node && m.slot2Node[x] == task.src
    ensures Agree(ApplyEntry(m, FinishMigrate(task)), s, node) && Tidy(ApplyEntry(m, FinishMigrate(task)), node)
  {
    MigratedFacts(m, task, s, node);
    var l := SlotsOf(m, node);
    SlotsAscending(l, task.slots);
    InWithSlots(l, task.slots, s);
  }

  /** A migration of slots that belong to its source keeps lists and owners inverse. */
  lemma MigrationKeepsInverse(m: Meta, task: Task)
    requires Inverse(m) && task.src != task.target
    requires forall s :: s in task.slots ==> s in m.slot2Node && m.slot2Node[s] == task.src
    ensures Inverse(ApplyEntry(m, FinishMigrate(task)))
  {
    forall s, node ensures Agree(ApplyEntry(m, FinishMigrate(task)), s, node) && Tidy(ApplyEntry(m, FinishMigrate(task)), node) {
      assert Tidy(m, node) && Agree(m, s, node) && Agree(m, s, task.src);
      MigratedAgree(m, task, s, node);
    }
    forall node ensures Tidy(ApplyEntry(m, FinishMigrate(task)), node) {
      assert Agree(ApplyEntry(m, FinishMigrate(task)), 0, node);
    }
  }

  lemma LeftOverIs(l: seq<Slot>)
    requires Ascending(l)
    ensures |LeftOver(l)| == (if l == [] then 0 else (|l| - 1) / 2) && Ascending(LeftOver(l))
    ensures forall k {:trigger LeftOver(l)[k]} :: 0 <= k < |LeftOver(l)| ==> LeftOver(l)[k] == l[2 * k + 1]
  {
    if l != [] {
      SweepLeaves(l, l, |l|, 0);
    }
  }

  lemma FailoverList(m: Meta, oldMaster: Node, newMaster: Node, node: Node)
    requires oldMaster in m.masterSlaves && oldMaster != newMaster
    ensures SlotsOf(ApplyEntry(m, FinishFailover(oldMaster, newMaster)), node) ==
            if node == newMaster then WithSlots(SlotsOf(m, node), SlotsOf(m, oldMaster))
            else if node == oldMaster then LeftOver(SlotsOf(m, node))
            else SlotsOf(m, node)
  {
    var m1, slots := FailedOver(m, oldMaster, newMaster), SlotsOf(m, oldMaster);
    var m2 := SlotsAdded(m1, newMaster, slots);
    assert SlotsOf(m1, node) == SlotsOf(m, node);
    AddedFacts(m1, newMaster, slots);
    assert SlotsOf(m2, node) == if node == newMaster then WithSlots(SlotsOf(m1, node), slots) else SlotsOf(m1, node);
    OwnList(m2, oldMaster, node);
  }

  lemma OwnList(m: Meta, owner: Node, node: Node)
    ensures SlotsOf(OwnSlotsRemoved(m, owner), node) == if node == owner then LeftOver(SlotsOf(m, node)) else SlotsOf(m, node)
  {
    assert LeftOver([]) == [];
  }

  lemma FailoverOwner(m: Meta, oldMaster: Node, newMaster: Node, s: Slot)
    requires oldMaster in m.masterSlaves && oldMaster != newMaster && forall x :: Agree(m, x, oldMaster)
    ensures var t := ApplyEntry(m, FinishFailover(oldMaster, newMaster));
            (s in t.slot2Node <==> s in m.slot2Node)
            && (s in t.slot2Node ==> t.slot2Node[s] == if m.slot2Node[s] == oldMaster then newMaster else m.slot2Node[s])
  {
    AddedFacts(FailedOver(m, oldMaster, newMaster), newMaster, SlotsOf(m, oldMaster));
    var m2 := SlotsAdded(FailedOver(m, oldMaster, newMaster), newMaster, SlotsOf(m, oldMaster));
    forall x | x in m2.slot2Node ensures m2.slot2Node[x] != oldMaster {
      assert Agree(m, x, oldMaster);
    }
    NobodyDisowned(m2.slot2Node, oldMaster, SlotsOf(m2, oldMaster), |SlotsOf(m2, oldMaster)|, 0);
    assert Agree(m, s, oldMaster);
  }

  lemma FailoverAgree(m: Meta, oldMaster: Node, newMaster: Node, s: Slot, node: Node)
    requires Inverse(m) && oldMaster in m.masterSlaves && oldMaster != newMaster
    ensures var t := ApplyEntry(m, FinishFailover(oldMaster, newMaster));
            Tidy(t, node) && (node != oldMaster ==> Agree(t, s, node)) && (Agree(t, s, oldMaster) <==> s !in LeftOver(SlotsOf(m, oldMaster)))
  {
    FailoverList(m, oldMaster, newMaster, node);
    FailoverList(m, oldMaster, newMaster, oldMaster);
    FailoverOwner(m, oldMaster, newMaster, s);
    var l, slots := SlotsOf(m, node), SlotsOf(m, oldMaster);
    assert Tidy(m, node) && Tidy(m, oldMaster) && Agree(m, s, node) && Agree(m, s, oldMaster);
    SlotsAscending(l, slots);
    LeftOverIs(slots);
    InWithSlots(l, slots, s);
  }

  /** After a failover, lists and owners are inverse if and only if the old master had at most two slots. */
  lemma FailoverInverse(m: Meta, oldMaster: Node, newMaster: Node)
    requires Inverse(m) && oldMaster in m.masterSlaves && oldMaster != newMaster
    ensures Inverse(ApplyEntry(m, FinishFailover(oldMaster, newMaster))) <==> |SlotsOf(m, oldMaster)| <= 2
  {
    var t := ApplyEntry(m, FinishFailover(oldMaster, newMaster));
    var slots := SlotsOf(m, oldMaster);
    assert Tidy(m, oldMaster);
    LeftOverIs(slots);
    if |slots| > 2 {
      FailoverAgree(m, oldMaster, newMaster, LeftOver(slots)[0], oldMaster);
      assert !Agree(t, LeftOver(slots)[0], oldMaster);
    } else {
      forall s, node ensures Agree(t, s, node) && Tidy(t, node) {
        FailoverAgree(m, oldMaster, newMaster, s, node);
      }
      forall node ensures Tidy(t, node) {
        assert Agree(t, 0, node);
      }
    }
  }

  /** Entries after which lists and owners are inverse if they were before. */
  predicate KeepsInverse(m: Meta, e: Entry) {
    match e
    case StartMigrate(_) => true
    case Join(_, _) => true
    case FinishMigrate(task) =>
      task.src != task.target && forall s :: s in task.slots ==> s in m.slot2Node && m.slot2Node[s] == task.src
    case FinishFailover(oldMaster, newMaster) => oldMaster != newMaster && |SlotsOf(m, oldMaster)| <= 2
    case SeedStart(_, _) => false
  }

  ghost predicate AllKeepInverse(m: Meta, log: seq<Entry>)
    decreases log
  {
    log == [] || Panics(m, log[0]) || (KeepsInverse(m, log[0]) && AllKeepInverse(ApplyEntry(m, log[0]), log[1..]))
  }

  lemma {:induction false} LogKeepsInverse(m: Meta, log: seq<Entry>)
    requires Inverse(m) && AllKeepInverse(m, log)
    ensures Inverse(ApplyAll(m, log))
    decreases log
  {
    if log != [] && !Panics(m, log[0]) {
      var e := log[0];
      var t := ApplyEntry(m, e);
      match e {
        case FinishMigrate(task) => MigrationKeepsInverse(m, task);
        case FinishFailover(oldMaster, newMaster) => FailoverInverse(m, oldMaster, newMaster);
        case _ => SameInverse(m, t);
      }
      LogKeepsInverse(t, log[1..]);
    }
  }

  lemma SameInverse(m: Meta, t: Meta)
    requires Inverse(m) && t.node2Slot == m.node2Slot && t.slot2Node == m.slot2Node
    ensures Inverse(t)
  {
    forall s, node ensures Agree(t, s, node) {
      assert Agree(m, s, node);
    }
    forall node ensures Tidy(t, node) {
      assert Tidy(m, node);
    }
  }

  lemma SeedInverse(leader: Node, n: nat)
    ensures Inverse(ApplyEntry(EMPTY, SeedStart(leader, n)))
  {
    var t := ApplyEntry(EMPTY, SeedStart(leader, n));
    forall s, node ensures Agree(t, s, node) {
    }
  }

  /* ---- Masters and slaves ---- */

  /** A master lists a node just if the node has it for its master. */
  ghost predicate Linked(m: Meta, s: Node, master: Node) {
    master in m.masterSlaves && s in m.masterSlaves[master] <==> s in m.slaveMasters && m.slaveMasters[s] == master
  }

  ghost predicate NoRepeats<T>(l: seq<T>) {
    forall i, j :: 0 <= i < j < |l| ==> l[i] != l[j]
  }

  /** No node is both a master and a slave, and the two maps are inverse to each other. */
  ghost predicate Roles(m: Meta) {
    && (forall s :: s in m.slaveMasters ==> s !in m.masterSlaves)
    && (forall s, master :: Linked(m, s, master))
    && (forall master {:trigger m.masterSlaves[master]} :: master in m.masterSlaves ==> NoRepeats(m.masterSlaves[master]))
  }

  lemma {:induction false} OthersAre(l: seq<Node>, node: Node)
    ensures forall x :: x in Others(l, node) <==> x in l && x != node
    ensures NoRepeats(l) ==> NoRepeats(Others(l, node))
  {
    if l != [] {
      var k := |l| - 1;
      OthersAre(l[..k], node);
      assert l == l[..k] + [l[k]];
      assert forall i {:trigger Others(l[..k], node)[i]} :: 0 <= i < |Others(l[..k], node)| ==> Others(l[..k], node)[i] in Others(l[..k], node);
      assert NoRepeats(l) ==> l[k] !in l[..k];
    }
  }

  /** The joining node is new, or joins in the role it has. */
  predicate JoinFits(m: Meta, id: Node, master: Node) {
    if master == "" then id !in m.slaveMasters && (id in m.masterSlaves ==> m.masterSlaves[id] == [])
    else master in m.masterSlaves ==> id !in m.masterSlaves && (id in m.slaveMasters ==> m.slaveMasters[id] == master)
  }

  lemma JoinLinked(m: Meta, id: Node, master: Node, s: Node, x: Node)
    requires Roles(m) && JoinFits(m, id, master)
    ensures Linked(NodeAdded(m, id, master), s, x)
  {
    assert Linked(m, s, x) && Linked(m, s, id) && Linked(m, id, x);
  }

  /** Joining keeps the roles in order if and only if the node is new or joins in the role it has. */
  lemma JoinKeepsRoles(m: Meta, id: Node, master: Node)
    requires Roles(m)
    ensures Roles(NodeAdded(m, id, master)) <==> JoinFits(m, id, master)
  {
    var t := NodeAdded(m, id, master);
    if JoinFits(m, id, master) {
      forall s, x ensures Linked(t, s, x) {
        JoinLinked(m, id, master, s, x);
      }
    } else if master == "" {
      if id in m.masterSlaves && m.masterSlaves[id] != [] {
        assert Linked(m, m.masterSlaves[id][0], id);
        assert !Linked(t, m.masterSlaves[id][0], id);
      }
    } else if id in m.masterSlaves {
      assert id in t.slaveMasters && id in t.masterSlaves;
    } else {
      assert Linked(m, id, m.slaveMasters[id]);
      assert !Linked(t, id, m.slaveMasters[id]);
    }
  }

  /** The new master was a slave of the old one, or is not in use. */
  predicate FailoverFits(m: Meta, oldMaster: Node, newMaster: Node) {
    && oldMaster != newMaster
    && (newMaster in m.slaveMasters ==> m.slaveMasters[newMaster] == oldMaster)
    && (newMaster in m.masterSlaves ==> m.masterSlaves[newMaster] == [])
  }

  lemma FailoverLinked(m: Meta, oldMaster: Node, newMaster: Node, s: Node, x: Node)
    requires Roles(m) && oldMaster in m.masterSlaves && FailoverFits(m, oldMaster, newMaster)
    ensures Linked(FailedOver(m, oldMaster, newMaster), s, x)
  {
    assert Linked(m, s, x) && Linked(m, s, oldMaster) && Linked(m, s, newMaster) && Linked(m, oldMaster, x) && Linked(m, newMaster, x);
    OthersAre(m.masterSlaves[oldMaster], newMaster);
    RedirectedAt(m.slaveMasters, m.masterSlaves[oldMaster], newMaster, s);
  }

  /** A failover keeps the roles in order if and only if the new master was a slave of the old one, or was not in use. */
  lemma FailoverKeepsRoles(m: Meta, oldMaster: Node, newMaster: Node)
    requires Roles(m) && oldMaster in m.masterSlaves
    ensures Roles(FailedOver(m, oldMaster, newMaster)) <==> FailoverFits(m, oldMaster, newMaster)
  {
    var t := FailedOver(m, oldMaster, newMaster);
    var slaves := m.masterSlaves[oldMaster];
    OthersAre(slaves, newMaster);
    if FailoverFits(m, oldMaster, newMaster) {
      forall s, x ensures Linked(t, s, x) {
        FailoverLinked(m, oldMaster, newMaster, s, x);
      }
      forall s | s in t.slaveMasters ensures s !in t.masterSlaves {
        assert Linked(m, s, oldMaster);
        RedirectedAt(m.slaveMasters, slaves, newMaster, s);
      }
      assert Linked(m, oldMaster, oldMaster);
    } else if oldMaster == newMaster {
      assert !Linked(t, oldMaster, newMaster);
    } else if newMaster in m.slaveMasters && m.slaveMasters[newMaster] != oldMaster {
      assert Linked(m, newMaster, m.slaveMasters[newMaster]);
      assert !Linked(t, newMaster, m.slaveMasters[newMaster]);
    } else {
      var s := m.masterSlaves[newMaster][0];
      assert Linked(m, s, newMaster) && Linked(m, s, oldMaster) && Linked(m, oldMaster, newMaster);
      RedirectedAt(m.slaveMasters, slaves, newMaster, s);
      assert !Linked(t, s, newMaster);
    }
  }

  predicate RolesFit(m: Meta, e: Entry) {
    match e
    case Join(id, master) => JoinFits(m, id, master)
    case SeedStart(leader, _) => JoinFits(m, leader, "")
    case FinishFailover(oldMaster, newMaster) => FailoverFits(m, oldMaster, newMaster)
    case _ => true
  }

  lemma SameRoles(m: Meta, t: Meta)
    requires t.masterSlaves == m.masterSlaves && t.slaveMasters == m.slaveMasters
    ensures Roles(m) <==> Roles(t)
  {
    if Roles(m) {
      forall s, x ensures Linked(t, s, x) {
        assert Linked(m, s, x);
      }
    }
    if Roles(t) {
      forall s, x ensures Linked(m, s, x) {
        assert Linked(t, s, x);
      }
    }
  }

  lemma EntryKeepsRoles(m: Meta, e: Entry)
    requires Roles(m) && !Panics(m, e)
    ensures Roles(ApplyEntry(m, e)) <==> RolesFit(m, e)
  {
    var t := ApplyEntry(m, e);
    match e
    case StartMigrate(_) => SameRoles(m, t);
    case FinishMigrate(task) =>
      var m1 := m.(migratings := m.migratings - {task.id});
      AddedFacts(m1, task.target, task.slots);
      RemovedOwners(SlotsAdded(m1, task.target, task.slots), task.src, task.slots);
      SameRoles(m, t);
    case Join(id, master) => JoinKeepsRoles(m, id, master);
    case SeedStart(leader, _) =>
      JoinKeepsRoles(m, leader, "");
      SameRoles(NodeAdded(m, leader, ""), t);
    case FinishFailover(oldMaster, newMaster) =>
      FailoverKeepsRoles(m, oldMaster, newMaster);
      AddedFacts(FailedOver(m, oldMaster, newMaster), newMaster, SlotsOf(m, oldMaster));
      SameRoles(FailedOver(m, oldMaster, newMaster), t);
  }

  ghost predicate AllRolesFit(m: Meta, log: seq<Entry>)
    decreases log
  {
    log == [] || Panics(m, log[0]) || (RolesFit(m, log[0]) && AllRolesFit(ApplyEntry(m, log[0]), log[1..]))
  }

  lemma {:induction false} LogKeepsRoles(m: Meta, log: seq<Entry>)
    requires Roles(m) && AllRolesFit(m, log)
    ensures Roles(ApplyAll(m, log))
    decreases log
  {
    if log != [] && !Panics(m, log[0]) {
      EntryKeepsRoles(m, log[0]);
      LogKeepsRoles(ApplyEntry(m, log[0]), log[1..]);
    }
  }

  lemma OwnersOne(owners: map<Slot, Node>, node: Node, slots: seq<Slot>, x: Slot)
    ensures (owners + Owners(slots, node))[x := node] == owners + Owners(slots + [x], node)
  {
  }

  /* ---- The machine ---- */

  datatype Snapshot = Snapshot(slot2Node: map<Slot, Node>, migratings: map<string, Task>, masterSlaves: map<Node, seq<Node>>)

  class FSM {
    var node2Slot: map<Node, seq<Slot>>
    var slot2Node: map<Slot, Node>
    var migratings: map<string, Task>
    var masterSlaves: map<Node, seq<Node>>
    var slaveMasters: map<Node, Node>

    function M(): Meta
      reads this
    {
      Meta(node2Slot, slot2Node, migratings, masterSlaves, slaveMasters)
    }

    constructor ()
      ensures M() == EMPTY
    {
      node2Slot, slot2Node, migratings, masterSlaves, slaveMasters := map[], map[], map[], map[], map[];
    }

    method AddSlots(node: Node, slots: seq<Slot>)
      modifies this`node2Slot, this`slot2Node
      ensures M() == SlotsAdded(old(M()), node, slots)
    {
      var i := 0;
      ghost var m := M();
      while i < |slots|
        invariant 0 <= i <= |slots| && M() == SlotsAdded(m, node, slots[..i])
      {
        assert slots[..i + 1][..i] == slots[..i];
        AddSlot(node, slots[i]);
        i := i + 1;
      }
      assert slots[..|slots|] == slots;
    }

    method AddSlot(node: Node, x: Slot)
      modifies this`node2Slot, this`slot2Node
      ensures M() == SlotAdded(old(M()), node, x)
    {
      var l := SlotsOf(M(), node);
      var index := Search(l, x, 0, |l|);
      if !(index < |l| && l[index] == x) {
        node2Slot := node2Slot[node := l[..index] + [x] + l[index..]];
      }
      slot2Node := slot2Node[x := node];
      InsertedIs(l, index, x);
      assert node2Slot == old(node2Slot)[node := WithSlot(l, x)];
    }

    method RemoveSlots(node: Node, slots: seq<Slot>)
      modifies this`node2Slot, this`slot2Node
      ensures M() == SlotsRemoved(old(M()), node, slots)
    {
      var i := 0;
      ghost var m := M();
      while i < |slots|
        invariant 0 <= i <= |slots| && M() == SlotsRemoved(m, node, slots[..i])
      {
        assert slots[..i + 1][..i] == slots[..i];
        TakeFromList(node, slots[i]);
        if slots[i] in slot2Node && slot2Node[slots[i]] == node {
          slot2Node := slot2Node - {slots[i]};
        }
        i := i + 1;
      }
      assert slots[..|slots|] == slots;
    }

    method TakeFromList(node: Node, x: Slot)
      modifies this`node2Slot
      ensures node2Slot == if node in old(node2Slot) then old(node2Slot)[node := WithoutSlot(old(node2Slot)[node], x)] else old(node2Slot)
    {
      var l := SlotsOf(M(), node);
      var index := Search(l, x, 0, |l|);
      ghost var first := l;
      assert node in node2Slot ==> node2Slot[node := node2Slot[node]] == node2Slot;
      while index < |l| && l[index] == x
        invariant index <= |l| && Stripped(l, index, x) == Stripped(first, index, x)
        invariant node2Slot == if node in old(node2Slot) then old(node2Slot)[node := l] else old(node2Slot)
        invariant node !in old(node2Slot) ==> l == []
        decreases |l|
      {
        Sequences.WithoutSlices(l, index);
        l := l[..index] + l[index + 1..];
        node2Slot := node2Slot[node := l];
      }
    }

    method RemoveOwnSlots(node: Node)
      modifies this`node2Slot, this`slot2Node
      ensures M() == OwnSlotsRemoved(old(M()), node)
    {
      if node !in node2Slot {
        return;
      }
      var l := node2Slot[node];
      var cells := new Slot[|l|](i requires 0 <= i < |l| => l[i]);
      assert cells[..] == l;
      var len := SweepCells(node, cells);
      node2Slot := node2Slot[node := cells[..len]];
    }

    /** removeSlots in the failover: the loop ranges over the cells that it moves. */
    method SweepCells(node: Node, cells: array<Slot>) returns (len: nat)
      modifies this`slot2Node, cells
      ensures len <= cells.Length && (cells[..], len) == Sweep(old(cells[..]), cells.Length, 0)
      ensures slot2Node == SweepOwners(old(slot2Node), node, old(cells[..]), cells.Length, 0)
    {
      len := cells.Length;
      var i: nat := 0;
      while i < cells.Length
        invariant i <= cells.Length && len <= cells.Length
        invariant Sweep(cells[..], len, i) == Sweep(old(cells[..]), cells.Length, 0)
        invariant SweepOwners(slot2Node, node, cells[..], len, i) == SweepOwners(old(slot2Node), node, old(cells[..]), cells.Length, 0)
      {
        var x := cells[i];
        len := TakeInPlace(cells, len, x);
        if x in slot2Node && slot2Node[x] == node {
          slot2Node := slot2Node - {x};
        }
        i := i + 1;
      }
    }

    method Failover(oldMaster: Node, newMaster: Node)
      requires oldMaster in masterSlaves
      modifies this`masterSlaves, this`slaveMasters
      ensures M() == FailedOver(old(M()), oldMaster, newMaster)
    {
      var others := Redirect(masterSlaves[oldMaster], newMaster);
      masterSlaves := masterSlaves - {oldMaster};
      slaveMasters := slaveMasters[oldMaster := newMaster];
      slaveMasters := slaveMasters - {newMaster};
      masterSlaves := masterSlaves[newMaster := others + [oldMaster]];
    }

    /** The loop of failover over the slaves of the old master. */
    method Redirect(slaves: seq<Node>, newMaster: Node) returns (others: seq<Node>)
      modifies this`slaveMasters
      ensures others == Others(slaves, newMaster) && slaveMasters == Redirected(old(slaveMasters), slaves, newMaster)
    {
      others := [];
      var i := 0;
      while i < |slaves|
        invariant 0 <= i <= |slaves| && others == Others(slaves[..i], newMaster)
        invariant slaveMasters == Redirected(old(slaveMasters), slaves[..i], newMaster)
      {
        assert slaves[..i + 1][..i] == slaves[..i];
        if slaves[i] != newMaster {
          slaveMasters := slaveMasters[slaves[i] := newMaster];
          others := others + [slaves[i]];
        }
        i := i + 1;
      }
      assert slaves[..|slaves|] == slaves;
    }

    method AddNode(id: Node, master: Node) returns (ok: bool)
      modifies this`masterSlaves, this`slaveMasters
      ensures M() == NodeAdded(old(M()), id, master)
      ensures ok <==> master == "" || master in old(masterSlaves)
    {
      if master == "" {
        masterSlaves := masterSlaves[id := []];
        return true;
      }
      if master !in masterSlaves {
        return false;
      }
      var slaves := masterSlaves[master];
      var found, i := false, 0;
      while i < |slaves| && !found
        invariant 0 <= i <= |slaves| && (found ==> id in slaves) && (!found ==> id !in slaves[..i])
      {
        found := slaves[i] == id;
        i := i + 1;
      }
      assert slaves[..|slaves|] == slaves;
      assert masterSlaves[master := slaves] == masterSlaves;
      if !found {
        masterSlaves := masterSlaves[master := slaves + [id]];
      }
      slaveMasters := slaveMasters[id := master];
      return true;
    }

    method SeedSlots(leader: Node, count: nat) returns (slots: seq<Slot>)
      modifies this`slot2Node
      ensures slots == Range(count) && slot2Node == old(slot2Node) + Owners(slots, leader)
    {
      slots := [];
      var i := 0;
      assert slot2Node + Owners([], leader) == slot2Node;
      while i < count
        invariant 0 <= i <= count && slots == Range(i) && slot2Node == old(slot2Node) + Owners(slots, leader)
      {
        OwnersOne(old(slot2Node), leader, slots, i);
        slot2Node := slot2Node[i := leader];
        slots := slots + [i];
        i := i + 1;
      }
    }

    method Seed(leader: Node, count: nat)
      modifies this
      ensures M() == ApplyEntry(old(M()), SeedStart(leader, count))
    {
      var slots := SeedSlots(leader, count);
      node2Slot := node2Slot[leader := slots];
      var ok := AddNode(leader, "");
    }

    method Apply(e: Entry)
      requires !Panics(M(), e)
      modifies this
      ensures M() == ApplyEntry(old(M()), e)
    {
      match e
      case StartMigrate(task) => migratings := migratings[task.id := task];
      case FinishMigrate(task) =>
        migratings := migratings - {task.id};
        AddSlots(task.target, task.slots);
        RemoveSlots(task.src, task.slots);
      case SeedStart(leader, count) => Seed(leader, count);
      case FinishFailover(oldMaster, newMaster) =>
        Failover(oldMaster, newMaster);
        var slots := SlotsOf(M(), oldMaster);
        AddSlots(newMaster, slots);
        RemoveOwnSlots(oldMaster);
      case Join(id, master) =>
        var ok := AddNode(id, master);
    }

    method TakeSnapshot() returns (snapshot: Snapshot)
      ensures snapshot == Snapshot(slot2Node, migratings, masterSlaves)
    {
      snapshot := Snapshot(slot2Node, migratings, masterSlaves);
    }

    /** Restoring does not clear the masters of the slaves that were known before. */
    method Restore(snapshot: Snapshot)
      modifies this
      ensures slot2Node == snapshot.slot2Node && migratings == snapshot.migratings && masterSlaves == snapshot.masterSlaves
      ensures Groups(slot2Node, slot2Node.Keys, node2Slot)
      ensures Names(old(slaveMasters), masterSlaves, masterSlaves.Keys, slaveMasters)
    {
      slot2Node, migratings, masterSlaves := snapshot.slot2Node, snapshot.migratings, snapshot.masterSlaves;
      node2Slot := GroupSlots(slot2Node);
      slaveMasters := NameMasters(slaveMasters, masterSlaves);
    }
  }

  /** A new machine restored from a snapshot knows the same owners, tasks, masters and slaves, and lists each slot once, with its owner. */
  method RestoreNew(m: FSM) returns (f: FSM)
    requires Roles(m.M())
    ensures f.M() == m.M().(node2Slot := f.node2Slot) && Groups(m.slot2Node, m.slot2Node.Keys, f.node2Slot)
  {
    var snapshot := m.TakeSnapshot();
    f := new FSM();
    f.Restore(snapshot);
    RestoredRoles(m.M(), f.slaveMasters);
  }

  /* ---- Snapshots ---- */

  ghost predicate Groups(slot2Node: map<Slot, Node>, done: set<Slot>, lists: map<Node, seq<Slot>>) {
    && (forall node {:trigger lists[node]} :: node in lists ==> NoRepeats(lists[node]))
    && (forall s, node {:trigger Groups1(lists, s, node)} :: Groups1(lists, s, node) <==> s in done && s in slot2Node && slot2Node[s] == node)
  }

  ghost predicate Groups1(lists: map<Node, seq<Slot>>, s: Slot, node: Node) {
    node in lists && s in lists[node]
  }

  /** The first loop of Restore, over the slots in any order. */
  method GroupSlots(slot2Node: map<Slot, Node>) returns (lists: map<Node, seq<Slot>>)
    ensures Groups(slot2Node, slot2Node.Keys, lists)
  {
    lists := map[];
    var rest := slot2Node.Keys;
    while rest != {}
      invariant rest <= slot2Node.Keys && Groups(slot2Node, slot2Node.Keys - rest, lists)
      decreases rest
    {
      var s :| s in rest;
      var node := slot2Node[s];
      var l := if node in lists then lists[node] else [];
      assert !Groups1(lists, s, node);
      ghost var was := lists;
      lists := lists[node := l + [s]];
      forall x, n ensures Groups1(lists, x, n) <==> x in slot2Node.Keys - (rest - {s}) && slot2Node[x] == n {
        assert Groups1(was, x, n) <==> x in slot2Node.Keys - rest && slot2Node[x] == n;
      }
      rest := rest - {s};
    }
  }

  /** A node that is the slave of some master. */
  ghost predicate Slave(masterSlaves: map<Node, seq<Node>>, masters: set<Node>, s: Node) {
    exists x :: x in masters && x in masterSlaves && s in masterSlaves[x]
  }

  /** Each slave of `masters` is given a master that lists it; the others keep what they had. */
  ghost predicate Names(before: map<Node, Node>, masterSlaves: map<Node, seq<Node>>, masters: set<Node>, after: map<Node, Node>) {
    forall s {:trigger s in after} ::
      if Slave(masterSlaves, masters, s) then s in after && after[s] in masterSlaves && s in masterSlaves[after[s]]
      else (s in after <==> s in before) && (s in after ==> after[s] == before[s])
  }

  /** The second loop of Restore. */
  method NameMasters(before: map<Node, Node>, masterSlaves: map<Node, seq<Node>>) returns (after: map<Node, Node>)
    ensures Names(before, masterSlaves, masterSlaves.Keys, after)
  {
    after := before;
    var rest := masterSlaves.Keys;
    while rest != {}
      invariant rest <= masterSlaves.Keys && Names(before, masterSlaves, masterSlaves.Keys - rest, after)
      decreases rest
    {
      var master :| master in rest;
      ghost var done := masterSlaves.Keys - rest;
      ghost var was := after;
      after := NameSlaves(after, masterSlaves[master], master);
      forall s {:trigger s in after}
        ensures if Slave(masterSlaves, done + {master}, s) then s in after && after[s] in masterSlaves && s in masterSlaves[after[s]]
                else (s in after <==> s in before) && (s in after ==> after[s] == before[s])
      {
        assert NamedAt(was, masterSlaves[master], master, after, s);
        assert s in was || s !in was;
        assert Slave(masterSlaves, done + {master}, s) <==> Slave(masterSlaves, done, s) || s in masterSlaves[master];
      }
      assert done + {master} == masterSlaves.Keys - (rest - {master});
      rest := rest - {master};
    }
    assert masterSlaves.Keys - {} == masterSlaves.Keys;
  }

  ghost predicate NamedAt(before: map<Node, Node>, slaves: seq<Node>, master: Node, after: map<Node, Node>, s: Node) {
    if s in slaves then s in after && after[s] == master
    else (s in after <==> s in before) && (s in after ==> after[s] == before[s])
  }

  method NameSlaves(before: map<Node, Node>, slaves: seq<Node>, master: Node) returns (after: map<Node, Node>)
    ensures forall s :: NamedAt(before, slaves, master, after, s)
  {
    after := before;
    var i := 0;
    while i < |slaves|
      invariant 0 <= i <= |slaves| && forall s :: NamedAt(before, slaves[..i], master, after, s)
    {
      ghost var was, more := after, slaves[..i + 1];
      after := after[slaves[i] := master];
      assert more == slaves[..i] + [slaves[i]];
      forall s ensures NamedAt(before, more, master, after, s) {
        assert NamedAt(before, slaves[..i], master, was, s);
      }
      i := i + 1;
    }
    assert slaves[..i] == slaves;
  }

  /** Restored into a new machine, the snapshot of a machine with its roles in order gives the same slaves their masters. */
  lemma RestoredRoles(m: Meta, after: map<Node, Node>)
    requires Roles(m) && Names(map[], m.masterSlaves, m.masterSlaves.Keys, after)
    ensures after == m.slaveMasters
  {
    forall s ensures (s in after <==> s in m.slaveMasters) && (s in after ==> after[s] == m.slaveMasters[s]) {
      if s in m.slaveMasters {
        assert Linked(m, s, m.slaveMasters[s]);
        assert Slave(m.masterSlaves, m.masterSlaves.Keys, s);
      }
      if s in after {
        assert Linked(m, s, after[s]);
      }
    }
  }

  /** The run of `x` from its place on is taken out of the first `len` cells. */
  method TakeInPlace(cells: array<Slot>, len: nat, x: Slot) returns (rest: nat)
    requires len <= cells.Length
    modifies cells
    ensures rest <= len && (cells[..], rest) == TakeCell(old(cells[..]), len, x)
  {
    var index := Search(cells[..len], x, 0, len);
    assert cells[..][..len] == cells[..len];
    rest := len;
    while index < rest && cells[index] == x
      invariant index <= rest <= len && StripCells(cells[..], index, rest, x) == StripCells(old(cells[..]), index, len, x)
      decreases rest
    {
      MoveUp(cells, index, rest);
      rest := rest - 1;
    }
  }

  method MoveUp(cells: array<Slot>, index: nat, len: nat)
    requires index < len <= cells.Length
    modifies cells
    ensures cells[..] == Shifted(old(cells[..]), index, len)
  {
    var k := index;
    while k < len - 1
      invariant index <= k <= len - 1
      invariant forall j :: 0 <= j < cells.Length ==> cells[j] == if index <= j < k then old(cells[j + 1]) else old(cells[j])
    {
      cells[k] := cells[k + 1];
      k := k + 1;
    }
    ShiftedIs(old(cells[..]), cells[..], index, len);
  }
}
