/** lib/timewheel/timewheel.go: jobs that run after a number of ticks. */
module TimeWheels {
  import Arithmetic

  type Id = nat

  /** A list element: `id` stands for its identity. */
  datatype Task = Task(id: Id, key: string, circle: nat)

  datatype Location = Location(slot: nat, id: Id)

  /* ---- What the wheel is for ---- */

  datatype Info = Info(key: string, due: nat)

  /** The ticks so far, the jobs to come with the tick at which each is due, and the jobs that ran with the tick at which they did. */
  datatype Book = Book(clock: nat, pending: map<Id, Info>, fired: map<Id, nat>)

  function Cancelled(pending: map<Id, Info>, key: string): map<Id, Info> {
    map id | id in pending && pending[id].key != key :: pending[id]
  }

  /** A job with a key replaces the one that has the same key. */
  function Added(b: Book, id: Id, key: string, k: nat): Book {
    var rest := if key == "" then b.pending else Cancelled(b.pending, key);
    b.(pending := rest[id := Info(key, b.clock + k + 1)])
  }

  function Removed(b: Book, key: string): Book {
    if key == "" then b else b.(pending := Cancelled(b.pending, key))
  }

  function Ticked(b: Book): Book {
    var now := b.clock + 1;
    Book(now, map id | id in b.pending && b.pending[id].due != now :: b.pending[id],
         b.fired + map id | id in b.pending && b.pending[id].due == now :: now)
  }

  /* ---- Slots ---- */

  /** After how many ticks a task runs that sits in slot `p`. */
  function TicksTo(n: nat, cur: nat, p: nat, circle: nat): nat
    requires n > 0 && p < n && cur < n
  {
    (if p >= cur then p - cur else p + n - cur) + circle * n + 1
  }

  lemma Turned(n: nat, cur: nat, k: nat, q: nat, r: nat)
    requires n > 0 && cur < n && k == q * n + r && r < n
    ensures (cur + k) % n == if cur + r < n then cur + r else cur + r - n
  {
    if cur + r < n {
      Arithmetic.ModIs(cur + k, n, q, cur + r);
    } else {
      assert (q + 1) * n == q * n + n;
      Arithmetic.ModIs(cur + k, n, q + 1, cur + r - n);
    }
  }

  lemma Placed(n: nat, cur: nat, k: nat)
    requires n > 0 && cur < n
    ensures (cur + k) % n < n && TicksTo(n, cur, (cur + k) % n, k / n) == k + 1
  {
    assert k == k / n * n + k % n;
    Turned(n, cur, k, k / n, k % n);
  }

  function NextPos(n: nat, cur: nat): nat
    requires cur < n
  {
    if cur == n - 1 then 0 else cur + 1
  }

  /** One tick later every task is one tick nearer. */
  lemma Nearer(n: nat, cur: nat, p: nat, circle: nat)
    requires n > 0 && cur < n && p < n && (p == cur ==> circle > 0)
    ensures TicksTo(n, NextPos(n, cur), p, if p == cur then circle - 1 else circle) == TicksTo(n, cur, p, circle) - 1
  {
    assert circle * n == (circle - 1) * n + n;
  }

  lemma Later(n: nat, cur: nat, p: nat, circle: nat)
    requires n > 0 && cur < n && p < n
    ensures TicksTo(n, cur, p, circle) >= 1
    ensures TicksTo(n, cur, p, circle) == 1 <==> p == cur && circle == 0
  {
    if circle > 0 {
      assert circle * n >= n;
    }
  }

  /** The tasks that stay in a slot when its tick comes, and those that run. */
  function Kept(l: seq<Task>): seq<Task> {
    if l == [] then []
    else Kept(l[..|l| - 1]) + (var t := l[|l| - 1]; if t.circle > 0 then [t.(circle := t.circle - 1)] else [])
  }

  function Due(l: seq<Task>): seq<Task> {
    if l == [] then []
    else Due(l[..|l| - 1]) + (var t := l[|l| - 1]; if t.circle > 0 then [] else [t])
  }

  ghost predicate NoTwice(l: seq<Task>) {
    forall i, j :: 0 <= i < j < |l| ==> l[i].id != l[j].id
  }

  /** What stays has one circle less, and what runs has none left. */
  lemma {:induction false} KeptIs(l: seq<Task>)
    ensures forall t {:trigger t in Kept(l)} :: t in Kept(l) ==> Task(t.id, t.key, t.circle + 1) in l
    ensures forall t {:trigger t in l} :: t in l ==> if t.circle > 0 then t.(circle := t.circle - 1) in Kept(l) else t in Due(l)
    ensures forall t {:trigger t in Due(l)} :: t in Due(l) ==> t in l && t.circle == 0
    decreases l
  {
    if l != [] {
      var m := |l| - 1;
      KeptIs(l[..m]);
      assert l == l[..m] + [l[m]];
    }
  }

  lemma OneMoreTask(l: seq<Task>, t: Task)
    requires NoTwice(l) && forall u {:trigger u in l} :: u in l ==> u.id != t.id
    ensures NoTwice(l + [t])
  {
    forall i | 0 <= i < |l| ensures l[i].id != t.id {
      assert l[i] in l;
    }
  }

  lemma {:induction false} KeptNoTwice(l: seq<Task>)
    requires NoTwice(l)
    ensures NoTwice(Kept(l)) && NoTwice(Due(l))
    decreases l
  {
    if l != [] {
      var m := |l| - 1;
      KeptNoTwice(l[..m]);
      KeptIs(l[..m]);
      if l[m].circle > 0 {
        forall t | t in Kept(l[..m]) ensures t.id != l[m].id {
          assert Task(t.id, t.key, t.circle + 1) in l[..m];
        }
        OneMoreTask(Kept(l[..m]), l[m].(circle := l[m].circle - 1));
      } else {
        forall t | t in Due(l[..m]) ensures t.id != l[m].id {
          assert t in l[..m];
        }
        OneMoreTask(Due(l[..m]), l[m]);
      }
    }
  }

  /** Each task of a slot is pending, and due when the wheel will have come to it. */
  ghost predicate InSlot(l: seq<Task>, p: nat, n: nat, cur: nat, b: Book, loc: map<Id, nat>)
    requires n > 0 && p < n && cur < n
  {
    && NoTwice(l)
    && (forall t {:trigger t in l} :: t in l ==>
          t.id in b.pending && t.id in loc && loc[t.id] == p
          && b.pending[t.id] == Info(t.key, b.clock + TicksTo(n, cur, p, t.circle)))
  }

  ghost predicate HasId(l: seq<Task>, id: Id) {
    exists t {:trigger t in l} :: t in l && t.id == id
  }

  ghost predicate Slotted(n: nat, cur: nat, slots: seq<seq<Task>>, b: Book, loc: map<Id, nat>) {
    && n > 0 && cur < n && |slots| == n
    && (forall p {:trigger slots[p]} :: 0 <= p < n ==> InSlot(slots[p], p, n, cur, b, loc))
    && (forall id {:trigger id in b.pending} :: id in b.pending ==> id in loc && loc[id] < n && HasId(slots[loc[id]], id))
  }

  /** The timer finds the pending job of a key; no two pending jobs share a key. */
  ghost predicate Timed(timer: map<string, Location>, b: Book, loc: map<Id, nat>) {
    && (forall key {:trigger timer[key]} :: key in timer && key != "" ==>
          var at := timer[key]; at.id in b.pending && at.id in loc && b.pending[at.id].key == key && loc[at.id] == at.slot)
    && (forall id {:trigger id in b.pending} :: id in b.pending && b.pending[id].key != "" ==>
          b.pending[id].key in timer && timer[b.pending[id].key].id == id)
  }

  function WithoutId(l: seq<Task>, id: Id): (r: seq<Task>)
    ensures forall t {:trigger t in r} :: t in r ==> t in l && t.id != id
    ensures forall t {:trigger t in l} :: t in l && t.id != id ==> t in r
  {
    if l == [] then []
    else
      var m := |l| - 1;
      assert l == l[..m] + [l[m]];
      WithoutId(l[..m], id) + (if l[m].id == id then [] else [l[m]])
  }

  lemma {:induction false} WithoutIdNoTwice(l: seq<Task>, id: Id)
    requires NoTwice(l)
    ensures NoTwice(WithoutId(l, id))
    decreases l
  {
    if l != [] {
      var m := |l| - 1;
      WithoutIdNoTwice(l[..m], id);
      var r := WithoutId(l[..m], id);
      forall i {:trigger r[i]} | 0 <= i < |r| ensures r[i].id != l[m].id {
        assert r[i] in r;
        assert r[i] in l[..m];
      }
    }
  }

  lemma RemoveSlotted(n: nat, cur: nat, slots: seq<seq<Task>>, b: Book, loc: map<Id, nat>, id: Id)
    requires Slotted(n, cur, slots, b, loc) && id in b.pending
    ensures Slotted(n, cur, slots[loc[id] := WithoutId(slots[loc[id]], id)], b.(pending := b.pending - {id}), loc)
  {
    var q := loc[id];
    var l := WithoutId(slots[q], id);
    var slots' := slots[q := l];
    var b' := b.(pending := b.pending - {id});
    WithoutIdNoTwice(slots[q], id);
    forall p | 0 <= p < n ensures InSlot(slots'[p], p, n, cur, b', loc) {
      assert InSlot(slots[p], p, n, cur, b, loc);
    }
    forall x | x in b'.pending ensures HasId(slots'[loc[x]], x) {
      var t :| t in slots[loc[x]] && t.id == x;
      assert t in slots'[loc[x]];
    }
  }

  lemma CancelledIs(timer: map<string, Location>, b: Book, loc: map<Id, nat>, key: string)
    requires Timed(timer, b, loc) && key != ""
    ensures Cancelled(b.pending, key) == if key in timer then b.pending - {timer[key].id} else b.pending
  {
  }

  lemma RemoveTimed(timer: map<string, Location>, b: Book, loc: map<Id, nat>, key: string)
    requires Timed(timer, b, loc) && key != "" && key in timer
    ensures Timed(timer - {key}, b.(pending := b.pending - {timer[key].id}), loc)
  {
  }

  lemma AddSlotted(n: nat, cur: nat, slots: seq<seq<Task>>, b: Book, loc: map<Id, nat>, task: Task, p: nat, due: nat)
    requires Slotted(n, cur, slots, b, loc) && task.id !in b.pending && p < n
    requires due == b.clock + TicksTo(n, cur, p, task.circle)
    ensures Slotted(n, cur, slots[p := slots[p] + [task]],
                    b.(pending := b.pending[task.id := Info(task.key, due)]), loc[task.id := p])
  {
    var slots' := slots[p := slots[p] + [task]];
    var b' := b.(pending := b.pending[task.id := Info(task.key, due)]);
    var loc' := loc[task.id := p];
    forall q | 0 <= q < n ensures InSlot(slots'[q], q, n, cur, b', loc') {
      assert InSlot(slots[q], q, n, cur, b, loc);
      assert forall i {:trigger slots[q][i]} :: 0 <= i < |slots[q]| ==> slots[q][i] in slots[q];
    }
    assert task in slots'[p];
    forall x | x in b'.pending ensures HasId(slots'[loc'[x]], x) {
      if x != task.id {
        var t :| t in slots[loc[x]] && t.id == x;
        assert t in slots'[loc'[x]];
      }
    }
  }

  lemma AddTimed(timer: map<string, Location>, b: Book, loc: map<Id, nat>, id: Id, key: string, info: Info, p: nat)
    requires Timed(timer, b, loc) && id !in b.pending && (key != "" ==> key !in timer) && info.key == key
    ensures Timed(timer[key := Location(p, id)], b.(pending := b.pending[id := info]), loc[id := p])
  {
  }

  /** A pending task is due at the next tick just if it is in the current slot with no circle left. */
  lemma DueNow(n: nat, cur: nat, slots: seq<seq<Task>>, b: Book, loc: map<Id, nat>, t: Task, p: nat)
    requires Slotted(n, cur, slots, b, loc) && p < n && t in slots[p]
    ensures t.id in b.pending && (b.pending[t.id].due == b.clock + 1 <==> p == cur && t.circle == 0)
  {
    assert InSlot(slots[p], p, n, cur, b, loc);
    Later(n, cur, p, t.circle);
  }

  lemma TickInSlot(n: nat, cur: nat, slots: seq<seq<Task>>, b: Book, loc: map<Id, nat>, p: nat)
    requires Slotted(n, cur, slots, b, loc) && p < n
    ensures InSlot(if p == cur then Kept(slots[p]) else slots[p], p, n, NextPos(n, cur), Ticked(b), loc)
  {
    var l := slots[p];
    assert InSlot(l, p, n, cur, b, loc);
    if p == cur {
      KeptIs(l);
      KeptNoTwice(l);
      forall t | t in Kept(l)
        ensures t.id in Ticked(b).pending && t.id in loc && loc[t.id] == p
        ensures Ticked(b).pending[t.id] == Info(t.key, b.clock + 1 + TicksTo(n, NextPos(n, cur), p, t.circle))
      {
        var u := Task(t.id, t.key, t.circle + 1);
        assert u in l;
        DueNow(n, cur, slots, b, loc, u, p);
        Nearer(n, cur, p, u.circle);
      }
    } else {
      forall t | t in l
        ensures t.id in Ticked(b).pending
        ensures Ticked(b).pending[t.id] == Info(t.key, b.clock + 1 + TicksTo(n, NextPos(n, cur), p, t.circle))
      {
        DueNow(n, cur, slots, b, loc, t, p);
        Nearer(n, cur, p, t.circle);
      }
    }
  }

  lemma TickSlotted(n: nat, cur: nat, slots: seq<seq<Task>>, b: Book, loc: map<Id, nat>)
    requires Slotted(n, cur, slots, b, loc)
    ensures Slotted(n, NextPos(n, cur), slots[cur := Kept(slots[cur])], Ticked(b), loc)
  {
    var slots' := slots[cur := Kept(slots[cur])];
    forall p | 0 <= p < n ensures InSlot(slots'[p], p, n, NextPos(n, cur), Ticked(b), loc) {
      TickInSlot(n, cur, slots, b, loc, p);
    }
    forall id | id in Ticked(b).pending ensures HasId(slots'[loc[id]], id) {
      assert id in b.pending;
      var p := loc[id];
      var t :| t in slots[p] && t.id == id;
      DueNow(n, cur, slots, b, loc, t, p);
      if p == cur {
        KeptIs(slots[p]);
        assert t.(circle := t.circle - 1) in slots'[p];
      } else {
        assert t in slots'[p];
      }
    }
  }

  /** The keys that scanAndRunTask deletes from the timer. */
  function KeysOf(l: seq<Task>): set<string> {
    set t | t in l && t.key != "" :: t.key
  }

  lemma DueIds(n: nat, cur: nat, slots: seq<seq<Task>>, b: Book, loc: map<Id, nat>, id: Id)
    requires Slotted(n, cur, slots, b, loc)
    ensures HasId(Due(slots[cur]), id) <==> id in b.pending && b.pending[id].due == b.clock + 1
  {
    KeptIs(slots[cur]);
    if HasId(Due(slots[cur]), id) {
      var t :| t in Due(slots[cur]) && t.id == id;
      DueNow(n, cur, slots, b, loc, t, cur);
    }
    if id in b.pending && b.pending[id].due == b.clock + 1 {
      var t :| t in slots[loc[id]] && t.id == id;
      DueNow(n, cur, slots, b, loc, t, loc[id]);
      assert t in Due(slots[cur]);
    }
  }

  lemma DueKeys(n: nat, cur: nat, slots: seq<seq<Task>>, b: Book, loc: map<Id, nat>, timer: map<string, Location>, key: string)
    requires Slotted(n, cur, slots, b, loc) && Timed(timer, b, loc) && key in timer && key != ""
    ensures key in KeysOf(Due(slots[cur])) <==> b.pending[timer[key].id].due == b.clock + 1
  {
    var id := timer[key].id;
    DueIds(n, cur, slots, b, loc, id);
    KeptIs(slots[cur]);
    assert InSlot(slots[cur], cur, n, cur, b, loc);
    if HasId(Due(slots[cur]), id) {
      var t :| t in Due(slots[cur]) && t.id == id;
      assert t in slots[cur];
    }
    if key in KeysOf(Due(slots[cur])) {
      var t :| t in Due(slots[cur]) && t.key == key;
      assert t in slots[cur];
      assert t.id in b.pending;
    }
  }

  lemma TickTimed(n: nat, cur: nat, slots: seq<seq<Task>>, b: Book, loc: map<Id, nat>, timer: map<string, Location>)
    requires Slotted(n, cur, slots, b, loc) && Timed(timer, b, loc)
    ensures Timed(timer - KeysOf(Due(slots[cur])), Ticked(b), loc)
  {
    var timer' := timer - KeysOf(Due(slots[cur]));
    forall key {:trigger timer'[key]} | key in timer' && key != ""
      ensures var at := timer'[key];
              at.id in Ticked(b).pending && at.id in loc && Ticked(b).pending[at.id].key == key && loc[at.id] == at.slot
    {
      assert timer'[key] == timer[key];
      DueKeys(n, cur, slots, b, loc, timer, key);
    }
    forall id | id in Ticked(b).pending && Ticked(b).pending[id].key != ""
      ensures Ticked(b).pending[id].key in timer' && timer'[Ticked(b).pending[id].key].id == id
    {
      assert id in b.pending;
      DueKeys(n, cur, slots, b, loc, timer, b.pending[id].key);
    }
  }

  /* ---- The wheel ---- */

  function IdsOf(l: seq<Task>): (r: seq<Id>)
    ensures |r| == |l| && forall i :: 0 <= i < |l| ==> r[i] == l[i].id
  {
    seq(|l|, i requires 0 <= i < |l| => l[i].id)
  }

  ghost predicate Distinct(s: seq<Id>) {
    forall i, j :: 0 <= i < j < |s| ==> s[i] != s[j]
  }

  /** The jobs that were started, each once, are those the book says; identities are not used again. */
  ghost predicate Ran(ran: seq<Id>, b: Book, nextId: Id) {
    && Distinct(ran) && (forall id :: id in ran <==> id in b.fired)
    && (forall id :: id in b.fired ==> id !in b.pending && id < nextId)
    && (forall id :: id in b.pending ==> id < nextId)
  }

  lemma TickRan(n: nat, cur: nat, slots: seq<seq<Task>>, b: Book, loc: map<Id, nat>, ran: seq<Id>, nextId: Id)
    requires Slotted(n, cur, slots, b, loc) && Ran(ran, b, nextId)
    ensures Ran(ran + IdsOf(Due(slots[cur])), Ticked(b), nextId)
  {
    var due := Due(slots[cur]);
    assert InSlot(slots[cur], cur, n, cur, b, loc);
    KeptNoTwice(slots[cur]);
    forall id ensures id in IdsOf(due) <==> id in b.pending && b.pending[id].due == b.clock + 1 {
      DueIds(n, cur, slots, b, loc, id);
      if id in IdsOf(due) {
        var i :| 0 <= i < |due| && IdsOf(due)[i] == id;
        assert due[i] in due;
      }
      if HasId(due, id) {
        var t :| t in due && t.id == id;
        var i :| 0 <= i < |due| && due[i] == t;
        assert IdsOf(due)[i] == id;
      }
    }
    assert forall i :: 0 <= i < |IdsOf(due)| ==> IdsOf(due)[i] in IdsOf(due);
    assert forall i :: 0 <= i < |ran| ==> ran[i] in ran;
  }

  lemma AddRan(ran: seq<Id>, b: Book, nextId: Id, info: Info)
    requires Ran(ran, b, nextId)
    ensures Ran(ran, b.(pending := b.pending[nextId := info]), nextId + 1)
  {
  }

  class TimeWheel {
    const slotNum: nat
    const intervalSeconds: nat
    var slots: seq<seq<Task>>
    var timer: map<string, Location>
    var currentPos: nat
    /** The jobs started, in order. */
    var ran: seq<Id>
    var nextId: Id
    ghost var book: Book
    ghost var loc: map<Id, nat>

    ghost predicate Valid()
      reads this
    {
      && intervalSeconds > 0
      && Slotted(slotNum, currentPos, slots, book, loc) && Timed(timer, book, loc) && Ran(ran, book, nextId)
    }

    constructor (interval: nat, n: nat)
      requires interval > 0 && n > 0
      ensures Valid() && slotNum == n && intervalSeconds == interval && book == Book(0, map[], map[]) && ran == []
    {
      slotNum, intervalSeconds := n, interval;
      slots := seq(n, _ => []);
      timer, currentPos, ran, nextId := map[], 0, [], 0;
      book, loc := Book(0, map[], map[]), map[];
    }

    method RemoveTaskInternal(key: string)
      requires Valid() && key != ""
      modifies this
      ensures Valid() && book == Removed(old(book), key) && ran == old(ran) && nextId == old(nextId) && key !in timer
    {
      CancelledIs(timer, book, loc, key);
      if key !in timer {
        return;
      }
      var at := timer[key];
      RemoveSlotted(slotNum, currentPos, slots, book, loc, at.id);
      RemoveTimed(timer, book, loc, key);
      slots := slots[at.slot := WithoutId(slots[at.slot], at.id)];
      timer := timer - {key};
      book := book.(pending := book.pending - {at.id});
    }

    method RemoveJob(key: string)
      requires Valid()
      modifies this
      ensures Valid() && book == Removed(old(book), key) && ran == old(ran)
    {
      if key != "" {
        RemoveTaskInternal(key);
      }
    }

    method GetPositionAndCircle(delaySeconds: nat) returns (pos: nat, circle: nat)
      requires Valid()
      ensures pos < slotNum && TicksTo(slotNum, currentPos, pos, circle) == delaySeconds / intervalSeconds + 1
    {
      Placed(slotNum, currentPos, delaySeconds / intervalSeconds);
      circle := delaySeconds / intervalSeconds / slotNum;
      pos := (currentPos + delaySeconds / intervalSeconds) % slotNum;
    }

    /** A negative delay is ignored. */
    method AddJob(delaySeconds: int, key: string) returns (id: Id)
      requires Valid()
      modifies this
      ensures Valid() && ran == old(ran) && id == old(nextId)
      ensures book == if delaySeconds < 0 then old(book) else Added(old(book), id, key, delaySeconds / intervalSeconds)
    {
      id := nextId;
      if delaySeconds < 0 {
        return;
      }
      if key != "" {
        RemoveTaskInternal(key);
      }
      PushTask(delaySeconds, key);
    }

    method PushTask(delaySeconds: nat, key: string)
      requires Valid() && (key != "" ==> key !in timer)
      modifies this
      ensures Valid() && ran == old(ran) && nextId == old(nextId) + 1
      ensures var info := Info(key, old(book).clock + delaySeconds / intervalSeconds + 1);
              book == old(book).(pending := old(book).pending[old(nextId) := info])
    {
      var pos, circle := GetPositionAndCircle(delaySeconds);
      ghost var k := delaySeconds / intervalSeconds;
      ghost var info := Info(key, book.clock + k + 1);
      AddSlotted(slotNum, currentPos, slots, book, loc, Task(nextId, key, circle), pos, book.clock + k + 1);
      AddTimed(timer, book, loc, nextId, key, info, pos);
      AddRan(ran, book, nextId, info);
      Enter(Task(nextId, key, circle), pos, info);
    }

    /** The task goes into its slot, and its place into the timer. */
    method Enter(task: Task, pos: nat, ghost info: Info)
      requires pos < |slots| && task.id == nextId
      modifies this
      ensures slots == old(slots)[pos := old(slots)[pos] + [task]] && timer == old(timer)[task.key := Location(pos, task.id)]
      ensures book == old(book).(pending := old(book).pending[task.id := info]) && loc == old(loc)[task.id := pos]
      ensures nextId == old(nextId) + 1 && ran == old(ran) && currentPos == old(currentPos)
    {
      slots := slots[pos := slots[pos] + [task]];
      timer := timer[task.key := Location(pos, task.id)];
      book, loc := book.(pending := book.pending[task.id := info]), loc[task.id := pos];
      nextId := nextId + 1;
    }

    method TickHandler()
      requires Valid()
      modifies this
      ensures Valid() && book == Ticked(old(book)) && nextId == old(nextId)
    {
      TickSlotted(slotNum, currentPos, slots, book, loc);
      TickTimed(slotNum, currentPos, slots, book, loc, timer);
      TickRan(slotNum, currentPos, slots, book, loc, ran, nextId);
      var l := slots[currentPos];
      var kept, due, keys := Scan(l);
      slots := slots[currentPos := kept];
      currentPos := if currentPos == slotNum - 1 then 0 else currentPos + 1;
      ran := ran + IdsOf(due);
      timer := timer - keys;
      book := Ticked(book);
    }
  }

  /** The loop of scanAndRunTask. */
  method Scan(l: seq<Task>) returns (kept: seq<Task>, due: seq<Task>, keys: set<string>)
    ensures kept == Kept(l) && due == Due(l) && keys == KeysOf(due)
  {
    kept, due, keys := [], [], {};
    var i := 0;
    while i < |l|
      invariant 0 <= i <= |l| && kept == Kept(l[..i]) && due == Due(l[..i]) && keys == KeysOf(due)
    {
      var t := l[i];
      assert l[..i + 1][..i] == l[..i];
      if t.circle > 0 {
        kept := kept + [t.(circle := t.circle - 1)];
      } else {
        assert KeysOf(due + [t]) == KeysOf(due) + (if t.key != "" then {t.key} else {});
        due := due + [t];
        if t.key != "" {
          keys := keys + {t.key};
        }
      }
      i := i + 1;
    }
    assert l[..|l|] == l;
  }

  /* ---- Whole runs ---- */

  datatype Op = Tick | Add(id: Id, key: string, k: nat) | Remove(key: string)

  function Apply(b: Book, op: Op): Book {
    match op
    case Tick => Ticked(b)
    case Add(id, key, k) => Added(b, id, key, k)
    case Remove(key) => Removed(b, key)
  }

  function Run(b: Book, ops: seq<Op>): Book
    decreases ops
  {
    if ops == [] then b else Run(Apply(b, ops[0]), ops[1..])
  }

  function Ticks(ops: seq<Op>): nat {
    if ops == [] then 0 else (if ops[0].Tick? then 1 else 0) + Ticks(ops[1..])
  }

  /** Nothing cancels the key, and no identity is used a second time. */
  predicate LeavesAlone(ops: seq<Op>, id: Id, key: string) {
    forall op :: op in ops ==> Harmless(op, id, key)
  }

  predicate Harmless(op: Op, id: Id, key: string) {
    match op
    case Tick => true
    case Add(i, k, _) => i != id && (key == "" || k != key)
    case Remove(k) => key == "" || k != key
  }

  lemma {:induction false} DueOnTime(b: Book, ops: seq<Op>, id: Id, key: string)
    requires LeavesAlone(ops, id, key) && id !in b.fired && id in b.pending && b.pending[id].key == key && b.clock < b.pending[id].due
    ensures var c := Run(b, ops);
            c.clock == b.clock + Ticks(ops)
            && if c.clock < b.pending[id].due then id in c.pending && c.pending[id] == b.pending[id] && id !in c.fired
               else id in c.fired && c.fired[id] == b.pending[id].due
    decreases ops
  {
    if ops != [] {
      var op := ops[0];
      assert op in ops;
      var d := Apply(b, op);
      if op.Tick? && b.pending[id].due == b.clock + 1 {
        StaysFired(d, ops[1..], id, key);
      } else {
        DueOnTime(d, ops[1..], id, key);
      }
    }
  }

  lemma {:induction false} StaysFired(b: Book, ops: seq<Op>, id: Id, key: string)
    requires LeavesAlone(ops, id, key) && id in b.fired && id !in b.pending
    ensures var c := Run(b, ops); c.clock == b.clock + Ticks(ops) && id in c.fired && c.fired[id] == b.fired[id] && id !in c.pending
    decreases ops
  {
    if ops != [] {
      assert ops[0] in ops;
      StaysFired(Apply(b, ops[0]), ops[1..], id, key);
    }
  }

  /** A job added with a delay of k intervals runs at the (k+1)-th tick after, whatever else is added or removed. */
  lemma FiresOnTime(b: Book, id: Id, key: string, k: nat, ops: seq<Op>)
    requires LeavesAlone(ops, id, key) && id !in b.fired && id !in b.pending
    ensures var c := Run(Added(b, id, key, k), ops);
            if Ticks(ops) <= k then id in c.pending && id !in c.fired
            else id in c.fired && c.fired[id] == b.clock + k + 1
  {
    DueOnTime(Added(b, id, key, k), ops, id, key);
  }

  /* ---- Jobs that are cancelled ---- */

  predicate NotAdded(ops: seq<Op>, id: Id) {
    forall op :: op in ops ==> !(op.Add? && op.id == id)
  }

  /** A job that is not pending does not run. */
  lemma {:induction false} NeverRuns(b: Book, id: Id, ops: seq<Op>)
    requires NotAdded(ops, id) && id !in b.pending && id !in b.fired
    ensures id !in Run(b, ops).pending && id !in Run(b, ops).fired
    decreases ops
  {
    if ops != [] {
      assert ops[0] in ops;
      NeverRuns(Apply(b, ops[0]), id, ops[1..]);
    }
  }

  /** A job that is removed by its key, or replaced by another with the same key, never runs; whatever else is added or removed. */
  lemma CancelledNeverRuns(b: Book, id: Id, ops: seq<Op>, other: Id, k: nat)
    requires id in b.pending && b.pending[id].key != "" && id !in b.fired && NotAdded(ops, id) && other != id
    ensures id !in Run(Removed(b, b.pending[id].key), ops).fired
    ensures id !in Run(Added(b, other, b.pending[id].key, k), ops).fired
  {
    NeverRuns(Removed(b, b.pending[id].key), id, ops);
    NeverRuns(Added(b, other, b.pending[id].key, k), id, ops);
  }
}
