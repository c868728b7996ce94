/**
  What a scheduler core and its nodes represent: when the pointers of kernel/core/sched_core.c stand for a pair
  of queues, and how the pointer updates of its operations act on what is represented.
*/
module SchedImage {
  import opened SchedSpec
  import opened SchedInvariant
  import opened SchedNodes

  /** struct sched_core, with the memory its pointers lead into. `self` is its own address. */
  datatype Image = Image(
    self: Ref, mem: Memory, slots: Registry, count: nat, current: Ref, idle: Ref,
    readyHead: Ref, readyTail: Ref, sleepHead: Ref,
    now: nat, nextId: nat, ticks: nat, switches: nat, quantum: nat, resched: bool, initialized: bool)

  ghost function Abs(g: Image, q: seq<Ref>, z: seq<Ref>): Sched<Ref> {
    Sched(g.now, g.nextId, g.ticks, g.switches, g.quantum, g.resched, g.current, g.idle, q, z,
          Table(g.mem, Tasks(g.slots)))
  }

  ghost predicate SlotOk(slots: seq<Ref>, i: nat)
    requires i < |slots|
  {
    slots[i] != NULL ==> slots[i] !in slots[i + 1..]
  }

  /** Each registered task has one slot and belongs to this core. */
  ghost predicate RegistryOk(m: Memory, slots: seq<Ref>, count: nat, self: Ref) {
    && self != NULL
    && (forall i {:trigger SlotOk(slots, i)} | 0 <= i < |slots| :: SlotOk(slots, i))
    && count == |Tasks(slots)|
    && (forall t | t in Tasks(slots) :: At(m, t).owner == self)
  }

  /** Each registered task is in at most one queue, and outside both it links nowhere, unless it is `x`. */
  ghost predicate QueuesOk(m: Memory, S: set<Ref>, q: seq<Ref>, z: seq<Ref>, x: Ref) {
    && Distinct(q) && Distinct(z)
    && (forall t | t in q :: t in S && t !in z)
    && (forall t | t in z :: t in S)
    && (forall t | t in S && t !in q && t !in z && t != x :: At(m, t).next == NULL)
  }

  /** The pointers represent the queues `q` and `z`, whatever the tasks' states are. */
  ghost predicate Struct(g: Image, q: seq<Ref>, z: seq<Ref>, x: Ref) {
    && g.current in Tasks(g.slots) && g.idle in Tasks(g.slots)
    && RegistryOk(g.mem, g.slots, g.count, g.self)
    && QueuesOk(g.mem, Tasks(g.slots), q, z, x)
    && Linked(g.mem, q, g.readyHead) && g.readyTail == (if q == [] then NULL else q[|q| - 1])
    && Linked(g.mem, z, g.sleepHead)
  }

  /** The core is valid and its queues are `q` and `z`. */
  ghost predicate Rep(g: Image, q: seq<Ref>, z: seq<Ref>) {
    g.initialized && Struct(g, q, z, NULL) && Valid(Abs(g, q, z))
  }

  ghost predicate WellFormed(g: Image) { exists q, z :: Rep(g, q, z) }

  lemma RepUnique(g: Image, q: seq<Ref>, z: seq<Ref>, q': seq<Ref>, z': seq<Ref>)
    requires Rep(g, q, z) && Rep(g, q', z')
    ensures q == q' && z == z'
  {
    LinkedUnique(g.mem, q, q', g.readyHead);
    LinkedUnique(g.mem, z, z', g.sleepHead);
  }

  /** The scheduler a well-formed core stands for. */
  ghost function View(g: Image): (s: Sched<Ref>)
    requires WellFormed(g)
    ensures Valid(s)
  {
    var q, z :| Rep(g, q, z);
    Abs(g, q, z)
  }

  lemma ViewIs(g: Image, q: seq<Ref>, z: seq<Ref>)
    requires Rep(g, q, z)
    ensures WellFormed(g) && View(g) == Abs(g, q, z)
  {
    var q', z' :| Rep(g, q', z') && View(g) == Abs(g, q', z');
    RepUnique(g, q, z, q', z');
  }

  /** The representation does not depend on the counters and flags. */
  lemma StructFrame(g: Image, h: Image, q: seq<Ref>, z: seq<Ref>, x: Ref)
    requires Struct(g, q, z, x)
    requires h == g.(now := h.now, nextId := h.nextId, ticks := h.ticks, switches := h.switches, quantum := h.quantum,
                     resched := h.resched, initialized := h.initialized)
    ensures Struct(h, q, z, x)
  {
  }

  lemma StructLinked(g: Image, q: seq<Ref>, z: seq<Ref>, x: Ref)
    requires Struct(g, q, z, x)
    ensures Linked(g.mem, z, g.sleepHead) && NULL !in z
  {
  }

  lemma StructBasics(g: Image, q: seq<Ref>, z: seq<Ref>, x: Ref)
    requires Struct(g, q, z, x)
    ensures NULL !in q && NULL !in z && NULL !in Tasks(g.slots)
    ensures g.current in Tasks(g.slots) && g.idle in Tasks(g.slots)
    ensures g.readyTail == if q == [] then NULL else q[|q| - 1]
    ensures g.readyHead == if q == [] then NULL else q[0]
    ensures g.sleepHead == if z == [] then NULL else z[0]
    ensures forall t | t in q :: t in Tasks(g.slots)
    ensures forall t | t in z :: t in Tasks(g.slots)
    ensures Table(g.mem, Tasks(g.slots)).Keys == Tasks(g.slots)
    ensures forall t | t in Tasks(g.slots) :: Table(g.mem, Tasks(g.slots))[t] == InfoOf(At(g.mem, t))
  {
  }

  // ---------------------------------------------------------------- one node changes

  /** `n` is `m` with `node` stored at `t`. */
  ghost predicate Stored(m: Memory, n: Memory, t: Ref, node: Node) {
    forall u {:trigger At(n, u)} :: At(n, u) == if u == t then node else At(m, u)
  }

  lemma RegistryFrame(m: Memory, n: Memory, slots: seq<Ref>, count: nat, self: Ref)
    requires RegistryOk(m, slots, count, self) && forall t | t in Tasks(slots) :: At(n, t).owner == At(m, t).owner
    ensures RegistryOk(n, slots, count, self)
  {
  }

  /** A node whose owner and link stay can change freely. */
  lemma TouchStruct(g: Image, n: Memory, q: seq<Ref>, z: seq<Ref>, x: Ref, t: Ref, node: Node)
    requires Struct(g, q, z, x) && Stored(g.mem, n, t, node)
    requires node.owner == At(g.mem, t).owner && node.next == At(g.mem, t).next
    ensures Struct(g.(mem := n), q, z, x)
  {
    LinkedFrame(g.mem, n, q, g.readyHead);
    LinkedFrame(g.mem, n, z, g.sleepHead);
    RegistryFrame(g.mem, n, g.slots, g.count, g.self);
  }

  /** An unlisted node may take any link, as the exempt one. */
  lemma UnlinkedStruct(g: Image, n: Memory, q: seq<Ref>, z: seq<Ref>, t: Ref, node: Node)
    requires Struct(g, q, z, NULL) && Stored(g.mem, n, t, node) && t !in q && t !in z
    requires node.owner == At(g.mem, t).owner
    ensures Struct(g.(mem := n), q, z, t)
  {
    LinkedFrame(g.mem, n, q, g.readyHead);
    LinkedFrame(g.mem, n, z, g.sleepHead);
    RegistryFrame(g.mem, n, g.slots, g.count, g.self);
  }

  lemma StoredAt(m: Memory, n: Memory, t: Ref, node: Node)
    requires Stored(m, n, t, node)
    ensures At(n, t) == node
  {
  }

  lemma TouchAbs(g: Image, n: Memory, q: seq<Ref>, z: seq<Ref>, t: Ref, node: Node)
    requires Stored(g.mem, n, t, node) && t in Tasks(g.slots)
    ensures Abs(g.(mem := n), q, z) == Put(Abs(g, q, z), t, InfoOf(node))
  {
    TablePut(g.mem, n, Tasks(g.slots), t);
  }

  // ---------------------------------------------------------------- the READY list

  /** `t` marked READY with a NULL link, and the old tail of `q` linked to it. */
  ghost predicate Hung(m: Memory, n: Memory, q: seq<Ref>, t: Ref) {
    forall u {:trigger At(n, u)} :: At(n, u) ==
      if u == t then At(m, u).(next := NULL, state := Ready, wake := 0)
      else if q != [] && u == q[|q| - 1] then At(m, u).(next := t)
      else At(m, u)
  }

  /** Storing NULL into `t` and `t` into the old tail appends `t` to the READY list. */
  lemma PushStruct(g: Image, n: Memory, q: seq<Ref>, z: seq<Ref>, x: Ref, t: Ref)
    requires Struct(g, q, z, x) && t in Tasks(g.slots) && t !in q && t !in z && (x == NULL || x == t)
    requires Hung(g.mem, n, q, t)
    ensures Struct(g.(mem := n, readyHead := if q == [] then t else g.readyHead, readyTail := t), q + [t], z, NULL)
  {
    LinkedAppend(g.mem, n, q, g.readyHead, t);
    LinkedFrame(g.mem, n, z, g.sleepHead);
    RegistryFrame(g.mem, n, g.slots, g.count, g.self);
  }

  lemma PushAbs(s: Sched<Ref>, m: Memory, n: Memory, S: set<Ref>, t: Ref, resched: bool)
    requires s.info == Table(m, S) && t in S && s.current in S && Hung(m, n, s.ready, t)
    requires resched == (s.resched || s.current == s.idle || At(n, s.current).state != Running)
    ensures s.(ready := s.ready + [t], info := Table(n, S), resched := resched) == ReadyPush(s, t)
  {
    TablePut(m, n, S, t);
  }

  /** Taking the head off the READY list and clearing its link. */
  lemma PopReady(g: Image, n: Memory, q: seq<Ref>, z: seq<Ref>, node: Node)
    requires Struct(g, q, z, NULL) && q != [] && Stored(g.mem, n, q[0], node)
    requires node.owner == At(g.mem, q[0]).owner && node.next == NULL
    ensures var head := At(g.mem, q[0]).next;
      Struct(g.(mem := n, current := q[0], readyHead := head, readyTail := if head == NULL then NULL else g.readyTail),
             q[1..], z, NULL)
  {
    LinkedTail(g.mem, q, g.readyHead);
    assert q == [q[0]] + q[1..];
    LinkedFrame(g.mem, n, q[1..], At(g.mem, q[0]).next);
    LinkedFrame(g.mem, n, z, g.sleepHead);
    RegistryFrame(g.mem, n, g.slots, g.count, g.self);
  }

  ghost function Next(g: Image, q: seq<Ref>): Ref { if q == [] then g.idle else q[0] }

  ghost function Rest(q: seq<Ref>): seq<Ref> { if q == [] then [] else q[1..] }

  /** With nothing READY the idle task is dispatched; it is in no list. */
  lemma NextStruct(g: Image, n: Memory, q: seq<Ref>, z: seq<Ref>, node: Node, head: Ref, tail: Ref)
    requires Struct(g, q, z, NULL) && g.idle !in z && Stored(g.mem, n, Next(g, q), node)
    requires node.owner == At(g.mem, Next(g, q)).owner && node.next == NULL
    requires head == if q == [] then NULL else At(g.mem, q[0]).next
    requires tail == if head == NULL then NULL else g.readyTail
    ensures Struct(g.(mem := n, current := Next(g, q), readyHead := head, readyTail := tail), Rest(q), z, NULL)
  {
    if q != [] {
      PopReady(g, n, q, z, node);
    } else {
      LinkedFrame(g.mem, n, z, g.sleepHead);
      RegistryFrame(g.mem, n, g.slots, g.count, g.self);
    }
  }

  ghost function Started(g: Image, t: Ref): Node {
    At(g.mem, t).(next := NULL, state := Running, wake := 0, quantumLeft := g.quantum)
  }

  ghost predicate Dispatched(g: Image, h: Image, q: seq<Ref>) {
    && h == g.(mem := h.mem, current := Next(g, q), readyHead := h.readyHead, readyTail := h.readyTail, resched := false,
               switches := if Next(g, q) != g.current then Bump(g.switches) else g.switches)
    && h.readyHead == (if q == [] then NULL else At(g.mem, q[0]).next)
    && h.readyTail == (if h.readyHead == NULL then NULL else g.readyTail)
    && Stored(g.mem, h.mem, Next(g, q), Started(g, Next(g, q)))
  }

  lemma DispatchAbs(g: Image, h: Image, q: seq<Ref>, z: seq<Ref>)
    requires Struct(g, q, z, NULL) && Dispatched(g, h, q)
    ensures Dispatch.requires(Abs(g, q, z)) && Abs(h, Rest(q), z) == Dispatch(Abs(g, q, z))
  {
    hide Struct, Tasks, Table, Stored;
    StructBasics(g, q, z, NULL);
    TouchAbs(g, h.mem, q, z, Next(g, q), Started(g, Next(g, q)));
  }

  lemma DispatchStruct(g: Image, h: Image, q: seq<Ref>, z: seq<Ref>)
    requires Struct(g, q, z, NULL) && g.idle !in z && Dispatched(g, h, q)
    ensures Struct(h, Rest(q), z, NULL)
  {
    hide Struct, Tasks, Table, Stored;
    NextStruct(g, h.mem, q, z, Started(g, Next(g, q)), h.readyHead, h.readyTail);
    StructFrame(g.(mem := h.mem, current := h.current, readyHead := h.readyHead, readyTail := h.readyTail), h, Rest(q), z, NULL);
  }

  // ---------------------------------------------------------------- the sleepers

  /** Taking the head off the sleepers; its link is left as it was. */
  lemma PopSleeper(g: Image, q: seq<Ref>, z: seq<Ref>)
    requires Struct(g, q, z, NULL) && z != []
    ensures Struct(g.(sleepHead := At(g.mem, z[0]).next), q, z[1..], z[0])
    ensures z[0] in Tasks(g.slots) && z[0] !in q && z[0] !in z[1..]
  {
    LinkedTail(g.mem, z, g.sleepHead);
    assert z == [z[0]] + z[1..];
  }

  /** `**link = task`, where `prior` is the node holding the link and NULL stands for the list head. */
  ghost predicate Relinked(m: Memory, n: Memory, prior: Ref, to: Ref) {
    forall u {:trigger At(n, u)} :: At(n, u) == if prior != NULL && u == prior then At(m, u).(next := to) else At(m, u)
  }

  ghost function Prior(z: seq<Ref>, k: nat): Ref
    requires k <= |z|
  {
    if k == 0 then NULL else z[k - 1]
  }

  lemma InsertSleeper(g: Image, n: Memory, q: seq<Ref>, z: seq<Ref>, k: nat, t: Ref)
    requires Struct(g, q, z, t) && t in Tasks(g.slots) && t !in q && t !in z && k <= |z|
    requires At(g.mem, t).next == if k < |z| then z[k] else NULL
    requires Relinked(g.mem, n, Prior(z, k), t)
    ensures Struct(g.(mem := n, sleepHead := if k == 0 then t else g.sleepHead), q, z[..k] + [t] + z[k..], NULL)
  {
    assert k > 0 ==> z[k - 1] in z;
    LinkedInsert(g.mem, n, z, g.sleepHead, t, k);
    LinkedFrame(g.mem, n, q, g.readyHead);
    RegistryFrame(g.mem, n, g.slots, g.count, g.self);
    InsertMembers(z, k, t);
  }

  lemma RemoveSleeper(g: Image, n: Memory, q: seq<Ref>, z: seq<Ref>, t: Ref)
    requires Struct(g, q, z, NULL) && t in z
    requires Relinked(g.mem, n, Prior(z, IndexOf(z, t, 0)), At(g.mem, t).next)
    ensures var k := IndexOf(z, t, 0);
      Struct(g.(mem := n, sleepHead := if k == 0 then At(g.mem, t).next else g.sleepHead), q, Without(z, t), t)
    ensures t !in q && t !in Without(z, t)
  {
    var k := IndexOf(z, t, 0);
    assert k > 0 ==> z[k - 1] in z;
    assert Linked(n, Without(z, t), if k == 0 then At(g.mem, t).next else g.sleepHead) by {
      LinkedRemove(g.mem, n, z, g.sleepHead, k);
    }
    LinkedFrame(g.mem, n, q, g.readyHead);
    RegistryFrame(g.mem, n, g.slots, g.count, g.self);
    WithoutMembers(z, t);
    hide Without;
  }

  lemma RelinkAbs(g: Image, n: Memory, q: seq<Ref>, z: seq<Ref>, prior: Ref, to: Ref, head: Ref)
    requires Relinked(g.mem, n, prior, to)
    ensures Abs(g.(mem := n, sleepHead := head), q, z) == Abs(g, q, z)
  {
    assert Table(n, Tasks(g.slots)) == Table(g.mem, Tasks(g.slots));
  }

  // ---------------------------------------------------------------- the registry

  lemma {:induction false} FullRegistry(slots: seq<Ref>)
    requires (forall i {:trigger SlotOk(slots, i)} | 0 <= i < |slots| :: SlotOk(slots, i)) && NULL !in slots
    ensures |Tasks(slots)| == |slots|
  {
    if slots == [] {
      assert Tasks(slots) == {};
    } else {
      var rest := slots[1..];
      forall i {:trigger SlotOk(rest, i)} | 0 <= i < |rest| ensures SlotOk(rest, i) { assert SlotOk(slots, i + 1); }
      FullRegistry(rest);
      assert SlotOk(slots, 0);
      assert slots == [slots[0]] + rest;
      assert Tasks(slots) == Tasks(rest) + {slots[0]};
    }
  }

  lemma FillSlot(slots: seq<Ref>, i: nat, t: Ref)
    requires i < |slots| && slots[i] == NULL && t != NULL && t !in Tasks(slots)
    requires forall j {:trigger SlotOk(slots, j)} | 0 <= j < |slots| :: SlotOk(slots, j)
    ensures forall j {:trigger SlotOk(slots[i := t], j)} | 0 <= j < |slots| :: SlotOk(slots[i := t], j)
    ensures Tasks(slots[i := t]) == Tasks(slots) + {t}
  {
    var r := slots[i := t];
    forall j {:trigger SlotOk(r, j)} | 0 <= j < |r| ensures SlotOk(r, j) { assert SlotOk(slots, j); }
    forall u | u in Tasks(slots) ensures u in Tasks(r) {
      var j :| 0 <= j < |slots| && slots[j] == u;
      assert r[j] == u;
    }
    assert r[i] == t;
  }

  lemma ClearSlot(slots: seq<Ref>, i: nat)
    requires i < |slots| && slots[i] != NULL
    requires forall j {:trigger SlotOk(slots, j)} | 0 <= j < |slots| :: SlotOk(slots, j)
    ensures forall j {:trigger SlotOk(slots[i := NULL], j)} | 0 <= j < |slots| :: SlotOk(slots[i := NULL], j)
    ensures Tasks(slots[i := NULL]) == Tasks(slots) - {slots[i]}
  {
    var r, t := slots[i := NULL], slots[i];
    forall j {:trigger SlotOk(r, j)} | 0 <= j < |r| ensures SlotOk(r, j) { assert SlotOk(slots, j); }
    forall u | u in Tasks(slots) && u != t ensures u in Tasks(r) {
      var j :| 0 <= j < |slots| && slots[j] == u;
      assert r[j] == u;
    }
    forall j | 0 <= j < |r| ensures r[j] != t {
      var lo, hi := if i < j then i else j, if i < j then j else i;
      assert SlotOk(slots, lo);
      assert lo < hi ==> slots[hi] in slots[lo + 1..];
    }
  }

  lemma AddStruct(g: Image, n: Memory, q: seq<Ref>, z: seq<Ref>, i: nat, t: Ref, node: Node)
    requires Struct(g, q, z, NULL) && i < 64 && g.slots[i] == NULL && t != NULL && t !in Tasks(g.slots)
    requires Stored(g.mem, n, t, node) && node.owner == g.self && node.next == NULL
    ensures Struct(g.(mem := n, slots := g.slots[i := t], count := g.count + 1), q, z, NULL)
    ensures t !in q && t !in z
  {
    FillSlot(g.slots, i, t);
    LinkedFrame(g.mem, n, q, g.readyHead);
    LinkedFrame(g.mem, n, z, g.sleepHead);
  }

  lemma AddAbs(g: Image, n: Memory, q: seq<Ref>, z: seq<Ref>, i: nat, t: Ref, node: Node)
    requires Struct(g, q, z, NULL) && i < 64 && g.slots[i] == NULL && t != NULL && t !in Tasks(g.slots)
    requires Stored(g.mem, n, t, node)
    ensures Abs(g.(mem := n, slots := g.slots[i := t], count := g.count + 1), q, z) == Put(Abs(g, q, z), t, InfoOf(node))
  {
    FillSlot(g.slots, i, t);
  }

  lemma RemoveStruct(g: Image, n: Memory, q: seq<Ref>, z: seq<Ref>, i: nat)
    requires Struct(g, q, z, NULL) && i < 64 && g.slots[i] != NULL
    requires g.slots[i] !in q && g.slots[i] !in z && g.slots[i] != g.current && g.slots[i] != g.idle
    requires Stored(g.mem, n, g.slots[i], Zeroed)
    ensures g.count > 0 && Struct(g.(mem := n, slots := g.slots[i := NULL], count := g.count - 1), q, z, NULL)
  {
    ClearSlot(g.slots, i);
    assert g.slots[i] in Tasks(g.slots);
    LinkedFrame(g.mem, n, q, g.readyHead);
    LinkedFrame(g.mem, n, z, g.sleepHead);
  }

  lemma RemoveAbs(g: Image, n: Memory, q: seq<Ref>, z: seq<Ref>, i: nat, count: nat)
    requires Struct(g, q, z, NULL) && i < 64 && g.slots[i] != NULL && Stored(g.mem, n, g.slots[i], Zeroed)
    ensures Abs(g.(mem := n, slots := g.slots[i := NULL], count := count), q, z) == Remove(Abs(g, q, z), g.slots[i])
  {
    ClearSlot(g.slots, i);
  }
}
