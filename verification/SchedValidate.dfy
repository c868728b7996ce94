/**
  What `sched_core_validate` inspects, and why that is the whole invariant: the registry scan counts READY and
  SLEEPING tasks, and a walk of exactly that many links ending in NULL can only be a duplicate-free listing
  of them all.
*/
module SchedValidate {
  import opened SchedSpec
  import opened SchedNodes
  import opened SchedImage

  // ---------------------------------------------------------------- the checks

  predicate TaskPass(g: Image, t: Ref) {
    var n := At(g.mem, t);
    && n.owner == g.self && n.id < g.nextId && n.quantumLeft <= g.quantum
    && (t != g.current ==> n.depth == 0)
    && (if t == g.idle
        then n.id == 0 && n.next == NULL && n.wake == 0 && n.state == (if t == g.current then Running else Ready)
        else n.id != 0)
    && match n.state
       case Running => t == g.current && n.next == NULL && n.wake == 0
       case Ready => n.wake == 0
       case Sleeping => g.now < n.wake && n.depth == 0
       case _ => n.next == NULL && n.wake == 0 && n.depth == 0
  }

  /** The tasks in two slots are two tasks, with two ids. */
  predicate Apart(g: Image, j: nat, i: nat)
    requires j < 64 && i < 64
  {
    g.slots[j] != NULL ==> g.slots[j] != g.slots[i] && At(g.mem, g.slots[j]).id != At(g.mem, g.slots[i]).id
  }

  ghost predicate SlotPass(g: Image, i: nat)
    requires i < 64
  {
    g.slots[i] != NULL ==> TaskPass(g, g.slots[i]) && forall j {:trigger Apart(g, j, i)} | 0 <= j < i :: Apart(g, j, i)
  }

  ghost function ReadySet(g: Image, S: set<Ref>): set<Ref> { set t | t in S && t != g.idle && At(g.mem, t).state == Ready }

  ghost function SleepSet(g: Image, S: set<Ref>): set<Ref> { set t | t in S && At(g.mem, t).state == Sleeping }

  ghost predicate ReadyWalk(g: Image, p: Ref, last: Ref, n: nat)
    decreases n
  {
    if n == 0 then p == NULL && last == g.readyTail
    else p in ReadySet(g, Tasks(g.slots)) && ReadyWalk(g, At(g.mem, p).next, p, n - 1)
  }

  ghost predicate SleepWalk(g: Image, p: Ref, deadline: nat, n: nat)
    decreases n
  {
    if n == 0 then p == NULL
    else
      && p in SleepSet(g, Tasks(g.slots)) && deadline <= At(g.mem, p).wake
      && SleepWalk(g, At(g.mem, p).next, At(g.mem, p).wake, n - 1)
  }

  ghost predicate Checks(g: Image) {
    var S := Tasks(g.slots);
    && g.self != NULL && g.initialized && g.quantum != 0 && g.nextId >= 2
    && g.idle in S && g.current in S
    && (forall i {:trigger SlotPass(g, i)} | 0 <= i < 64 :: SlotPass(g, i))
    && |S| == g.count <= 64
    && (At(g.mem, g.current).state != Running ==> g.resched)
    && ReadyWalk(g, g.readyHead, NULL, |ReadySet(g, S)|)
    && SleepWalk(g, g.sleepHead, 0, |SleepSet(g, S)|)
  }

  // ---------------------------------------------------------------- counted walks

  ghost function Follow(m: Memory, p: Ref, n: nat): (q: seq<Ref>)
    ensures |q| == n
    decreases n
  {
    if n == 0 then [] else [p] + Follow(m, At(m, p).next, n - 1)
  }

  lemma LinkedCons(m: Memory, q: seq<Ref>, p: Ref)
    requires p != NULL && Linked(m, q, At(m, p).next)
    ensures Linked(m, [p] + q, p)
  {
    var r := [p] + q;
    forall i {:trigger LinkOk(m, r, i)} | 0 <= i < |r| ensures LinkOk(m, r, i) { assert i > 0 ==> LinkOk(m, q, i - 1); }
  }

  lemma {:induction false} LinkedDrop(m: Memory, q: seq<Ref>, head: Ref, k: nat)
    requires Linked(m, q, head) && k < |q|
    ensures Linked(m, q[k..], q[k])
  {
    if k == 0 {
      assert q[0..] == q;
    } else {
      LinkedTail(m, q, head);
      assert LinkOk(m, q, 0);
      LinkedDrop(m, q[1..], At(m, head).next, k - 1);
      assert q[1..][k - 1..] == q[k..];
    }
  }

  /** A list that ends cannot pass the same node twice. */
  lemma LinkedDistinct(m: Memory, q: seq<Ref>, head: Ref)
    requires Linked(m, q, head)
    ensures Distinct(q)
  {
    forall i, j | 0 <= i < j < |q| ensures q[i] != q[j] {
      if q[i] == q[j] {
        LinkedDrop(m, q, head, i);
        LinkedDrop(m, q, head, j);
        LinkedUnique(m, q[i..], q[j..], q[i]);
      }
    }
  }

  ghost function Elements(q: seq<Ref>): set<Ref> { set t | t in q }

  lemma {:induction false} DistinctSize(q: seq<Ref>)
    requires Distinct(q)
    ensures |Elements(q)| == |q|
  {
    if q != [] {
      var rest := q[1..];
      DistinctSize(rest);
      assert q == [q[0]] + rest;
      assert Elements(q) == Elements(rest) + {q[0]};
      assert q[0] !in rest;
    }
  }

  lemma SubsetOfSameSize(a: set<Ref>, b: set<Ref>)
    requires a <= b && |a| == |b|
    ensures a == b
  {
    assert b == a + (b - a);
    assert |b - a| == 0;
  }

  /** A duplicate-free listing of |S| members of S lists them all. */
  lemma ListsAll(q: seq<Ref>, S: set<Ref>)
    requires Distinct(q) && |q| == |S| && forall t | t in q :: t in S
    ensures forall t | t in S :: t in q
  {
    DistinctSize(q);
    SubsetOfSameSize(Elements(q), S);
  }

  lemma ListedSize(q: seq<Ref>, S: set<Ref>)
    requires Distinct(q) && forall t :: t in q <==> t in S
    ensures |q| == |S|
  {
    DistinctSize(q);
    assert S == Elements(q);
  }

  lemma {:induction false} ReadyWalkLinked(g: Image, p: Ref, last: Ref, n: nat)
    requires ReadyWalk(g, p, last, n)
    ensures var q := Follow(g.mem, p, n);
      && Linked(g.mem, q, p)
      && (forall t | t in q :: t in ReadySet(g, Tasks(g.slots)))
      && g.readyTail == if q == [] then last else q[n - 1]
    decreases n
  {
    if n > 0 {
      var p' := At(g.mem, p).next;
      ReadyWalkLinked(g, p', p, n - 1);
      LinkedCons(g.mem, Follow(g.mem, p', n - 1), p);
    }
  }

  lemma {:induction false} LinkedReadyWalk(g: Image, q: seq<Ref>, p: Ref, last: Ref)
    requires Linked(g.mem, q, p) && forall t | t in q :: t in ReadySet(g, Tasks(g.slots))
    requires g.readyTail == if q == [] then last else q[|q| - 1]
    ensures ReadyWalk(g, p, last, |q|)
    decreases |q|
  {
    if q != [] {
      LinkedTail(g.mem, q, p);
      LinkedReadyWalk(g, q[1..], At(g.mem, p).next, p);
    }
  }

  ghost predicate Rising(m: Memory, q: seq<Ref>, deadline: nat) {
    && (forall i | 0 <= i < |q| :: deadline <= At(m, q[i]).wake)
    && forall i, j | 0 <= i < j < |q| :: At(m, q[i]).wake <= At(m, q[j]).wake
  }

  lemma {:induction false} SleepWalkLinked(g: Image, p: Ref, deadline: nat, n: nat)
    requires SleepWalk(g, p, deadline, n)
    ensures var q := Follow(g.mem, p, n);
      && Linked(g.mem, q, p)
      && (forall t | t in q :: t in SleepSet(g, Tasks(g.slots)))
      && Rising(g.mem, q, deadline)
    decreases n
  {
    if n > 0 {
      var p' := At(g.mem, p).next;
      SleepWalkLinked(g, p', At(g.mem, p).wake, n - 1);
      LinkedCons(g.mem, Follow(g.mem, p', n - 1), p);
    }
  }

  lemma {:induction false} LinkedSleepWalk(g: Image, q: seq<Ref>, p: Ref, deadline: nat)
    requires Linked(g.mem, q, p) && forall t | t in q :: t in SleepSet(g, Tasks(g.slots))
    requires Rising(g.mem, q, deadline)
    ensures SleepWalk(g, p, deadline, |q|)
    decreases |q|
  {
    if q != [] {
      LinkedTail(g.mem, q, p);
      LinkedSleepWalk(g, q[1..], At(g.mem, p).next, At(g.mem, p).wake);
    }
  }

  // ---------------------------------------------------------------- the checks are the invariant

  lemma SlotsApart(g: Image, i: nat, j: nat)
    requires forall i {:trigger SlotPass(g, i)} | 0 <= i < 64 :: SlotPass(g, i)
    requires i < 64 && j < 64 && i != j && g.slots[i] != NULL && g.slots[j] != NULL
    ensures g.slots[i] != g.slots[j] && At(g.mem, g.slots[i]).id != At(g.mem, g.slots[j]).id
  {
    assert SlotPass(g, i) && SlotPass(g, j);
    assert if i < j then Apart(g, i, j) else Apart(g, j, i);
  }

  lemma ChecksRegistry(g: Image)
    requires Checks(g)
    ensures RegistryOk(g.mem, g.slots, g.count, g.self)
    ensures forall t | t in Tasks(g.slots) :: TaskPass(g, t)
    ensures forall t, u | t in Tasks(g.slots) && u in Tasks(g.slots) && t != u :: At(g.mem, t).id != At(g.mem, u).id
  {
    hide ReadyWalk, SleepWalk;
    forall i {:trigger SlotOk(g.slots, i)} | 0 <= i < 64 ensures SlotOk(g.slots, i) {
      forall j | i < j < 64 && g.slots[i] != NULL ensures g.slots[j] != g.slots[i] {
        if g.slots[j] != NULL { SlotsApart(g, i, j); }
      }
    }
    forall t | t in Tasks(g.slots) ensures TaskPass(g, t) {
      var i :| 0 <= i < 64 && g.slots[i] == t;
      assert SlotPass(g, i);
    }
    forall t, u | t in Tasks(g.slots) && u in Tasks(g.slots) && t != u ensures At(g.mem, t).id != At(g.mem, u).id {
      var i :| 0 <= i < 64 && g.slots[i] == t;
      var j :| 0 <= j < 64 && g.slots[j] == u;
      SlotsApart(g, i, j);
    }
  }

  lemma ChecksQueues(g: Image) returns (q: seq<Ref>, z: seq<Ref>)
    requires Checks(g)
    ensures Linked(g.mem, q, g.readyHead) && g.readyTail == (if q == [] then NULL else q[|q| - 1])
    ensures Linked(g.mem, z, g.sleepHead) && Rising(g.mem, z, 0)
    ensures Distinct(q) && forall t :: t in q <==> t in ReadySet(g, Tasks(g.slots))
    ensures Distinct(z) && forall t :: t in z <==> t in SleepSet(g, Tasks(g.slots))
  {
    var R, Z := ReadySet(g, Tasks(g.slots)), SleepSet(g, Tasks(g.slots));
    q, z := Follow(g.mem, g.readyHead, |R|), Follow(g.mem, g.sleepHead, |Z|);
    ReadyWalkLinked(g, g.readyHead, NULL, |R|);
    SleepWalkLinked(g, g.sleepHead, 0, |Z|);
    LinkedDistinct(g.mem, q, g.readyHead);
    LinkedDistinct(g.mem, z, g.sleepHead);
    ListsAll(q, R);
    ListsAll(z, Z);
  }

  /** Every registered task passed and the queues list exactly the READY and the SLEEPING ones. */
  ghost predicate Listed(g: Image, q: seq<Ref>, z: seq<Ref>) {
    var S := Tasks(g.slots);
    && (forall t | t in S :: TaskPass(g, t))
    && (forall t, u | t in S && u in S && t != u :: At(g.mem, t).id != At(g.mem, u).id)
    && (forall t :: t in q <==> t in ReadySet(g, S))
    && (forall t :: t in z <==> t in SleepSet(g, S))
  }

  lemma ListedTaskOk(g: Image, q: seq<Ref>, z: seq<Ref>, t: Ref)
    requires Listed(g, q, z) && t in Tasks(g.slots)
    ensures TaskOk(Abs(g, q, z), g.now, t)
  {
    assert TaskPass(g, t);
  }

  lemma ListedValid(g: Image, q: seq<Ref>, z: seq<Ref>)
    requires Listed(g, q, z) && Distinct(q) && Distinct(z) && Rising(g.mem, z, 0)
    requires 0 < g.quantum && 2 <= g.nextId && |Tasks(g.slots)| <= 64
    requires g.current in Tasks(g.slots) && g.idle in Tasks(g.slots)
    requires At(g.mem, g.current).state != Running ==> g.resched
    ensures Valid(Abs(g, q, z))
  {
    hide TaskPass;
    var s := Abs(g, q, z);
    assert s.info.Keys == Tasks(g.slots);
    forall t {:trigger TaskOk(s, s.now, t)} | t in s.info ensures TaskOk(s, s.now, t) { ListedTaskOk(g, q, z, t); }
    hide TaskOk;
  }

  lemma ListedLinks(g: Image, q: seq<Ref>, z: seq<Ref>)
    requires Listed(g, q, z)
    ensures forall t | t in Tasks(g.slots) && t !in q && t !in z :: At(g.mem, t).next == NULL
  {
    forall t | t in Tasks(g.slots) && t !in q && t !in z ensures At(g.mem, t).next == NULL { assert TaskPass(g, t); }
  }

  lemma ChecksSound(g: Image)
    requires Checks(g)
    ensures WellFormed(g)
  {
    hide Valid, ReadyWalk, SleepWalk, SlotPass, TaskPass, Linked, Rising;
    ChecksRegistry(g);
    var q, z := ChecksQueues(g);
    ListedValid(g, q, z);
    assert QueuesOk(g.mem, Tasks(g.slots), q, z, NULL) by { ListedLinks(g, q, z); }
    assert Rep(g, q, z);
  }

  lemma ValidTaskPass(g: Image, q: seq<Ref>, z: seq<Ref>, t: Ref)
    requires Rep(g, q, z) && t in Tasks(g.slots)
    ensures TaskPass(g, t)
    ensures t in q <==> t in ReadySet(g, Tasks(g.slots))
    ensures t in z <==> t in SleepSet(g, Tasks(g.slots))
  {
    hide Linked, Distinct;
    var s := Abs(g, q, z);
    assert s.info[t] == InfoOf(At(g.mem, t));
    assert TaskOk(s, s.now, t);
  }

  lemma ValidIds(g: Image, q: seq<Ref>, z: seq<Ref>, t: Ref, u: Ref)
    requires Rep(g, q, z) && t in Tasks(g.slots) && u in Tasks(g.slots) && t != u
    ensures At(g.mem, t).id != At(g.mem, u).id
  {
    hide Struct;
    var s := Abs(g, q, z);
    assert s.info[t] == InfoOf(At(g.mem, t)) && s.info[u] == InfoOf(At(g.mem, u));
    assert TaskOk(s, s.now, t);
  }

  lemma ValidListed(g: Image, q: seq<Ref>, z: seq<Ref>)
    requires Rep(g, q, z)
    ensures Listed(g, q, z) && Rising(g.mem, z, 0)
    ensures At(g.mem, g.current).state != Running ==> g.resched
    ensures |Tasks(g.slots)| <= 64 && 0 < g.quantum && 2 <= g.nextId
  {
    hide Linked, TaskPass, TaskOk, RegistryOk;
    var s, S := Abs(g, q, z), Tasks(g.slots);
    assert s.info.Keys == S && forall t | t in S :: s.info[t] == InfoOf(At(g.mem, t));
    assert |s.info| == |s.info.Keys|;
    forall t | t in S ensures TaskPass(g, t) { ValidTaskPass(g, q, z, t); }
    forall t, u | t in S && u in S && t != u ensures At(g.mem, t).id != At(g.mem, u).id { ValidIds(g, q, z, t, u); }
    forall t ensures (t in q <==> t in ReadySet(g, S)) && (t in z <==> t in SleepSet(g, S)) {
      if t in S { ValidTaskPass(g, q, z, t); }
    }
  }

  lemma ListedSlots(g: Image, q: seq<Ref>, z: seq<Ref>, i: nat)
    requires Listed(g, q, z) && i < 64 && forall i {:trigger SlotOk(g.slots, i)} | 0 <= i < 64 :: SlotOk(g.slots, i)
    ensures SlotPass(g, i)
  {
    forall j {:trigger Apart(g, j, i)} | 0 <= j < i && g.slots[i] != NULL ensures Apart(g, j, i) {
      assert SlotOk(g.slots, j) && g.slots[i] in g.slots[j + 1..];
    }
  }

  lemma ListedWalks(g: Image, q: seq<Ref>, z: seq<Ref>)
    requires Listed(g, q, z) && Distinct(q) && Distinct(z) && Rising(g.mem, z, 0)
    requires Linked(g.mem, q, g.readyHead) && g.readyTail == (if q == [] then NULL else q[|q| - 1])
    requires Linked(g.mem, z, g.sleepHead)
    ensures ReadyWalk(g, g.readyHead, NULL, |ReadySet(g, Tasks(g.slots))|)
    ensures SleepWalk(g, g.sleepHead, 0, |SleepSet(g, Tasks(g.slots))|)
  {
    hide TaskPass;
    ListedSize(q, ReadySet(g, Tasks(g.slots)));
    ListedSize(z, SleepSet(g, Tasks(g.slots)));
    LinkedReadyWalk(g, q, g.readyHead, NULL);
    LinkedSleepWalk(g, z, g.sleepHead, 0);
  }

  lemma ChecksComplete(g: Image)
    requires WellFormed(g)
    ensures Checks(g)
  {
    hide Valid, Listed, SlotPass, ReadyWalk, SleepWalk, Linked, Rising;
    var q, z :| Rep(g, q, z);
    ValidListed(g, q, z);
    ListedWalks(g, q, z);
    forall i {:trigger SlotPass(g, i)} | 0 <= i < 64 ensures SlotPass(g, i) { ListedSlots(g, q, z, i); }
  }
}
