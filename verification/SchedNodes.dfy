/**
  Caller-owned task nodes of kernel/core/sched_core.c, linked through one `next` field. Nodes live in memory
  addressed by `Ref`; NULL is address 0.
*/
module SchedNodes {
  import opened SchedSpec

  type Ref = nat
  const NULL: Ref := 0

  /** struct sched_task */
  datatype Node = Node(owner: Ref, id: nat, state: State, next: Ref, wake: nat, runTicks: nat,
                       quantumLeft: nat, depth: nat)

  type Memory = map<Ref, Node>

  const Zeroed := Node(NULL, 0, Running, NULL, 0, 0, 0, 0)

  function At(m: Memory, p: Ref): Node { if p in m then m[p] else Zeroed }

  type Registry = s: seq<Ref> | |s| == MAX_TASKS witness seq(64, i => 0)

  /** The registered tasks. */
  ghost function Tasks(slots: seq<Ref>): set<Ref> { set t | t in slots && t != NULL }

  ghost function InfoOf(n: Node): Info { Info(n.id, n.state, n.wake, n.runTicks, n.quantumLeft, n.depth) }

  ghost function Table(m: Memory, S: set<Ref>): map<Ref, Info> { map t | t in S :: InfoOf(At(m, t)) }

  lemma TablePut(m: Memory, n: Memory, S: set<Ref>, t: Ref)
    requires t in S && forall u | u in S && u != t :: InfoOf(At(n, u)) == InfoOf(At(m, u))
    ensures Table(n, S) == Table(m, S)[t := InfoOf(At(n, t))]
    ensures t in Table(m, S) && Table(m, S)[t] == InfoOf(At(m, t))
  {
  }

  lemma TableAt(m: Memory, S: set<Ref>, t: Ref)
    requires t in S
    ensures t in Table(m, S) && Table(m, S)[t] == InfoOf(At(m, t))
  {
  }

  // ---------------------------------------------------------------- linked queues

  ghost predicate LinkOk(m: Memory, q: seq<Ref>, i: nat)
    requires i < |q|
  {
    At(m, q[i]).next == if i + 1 < |q| then q[i + 1] else NULL
  }

  /** Following `next` from `head` visits exactly `q` and ends in NULL. */
  ghost predicate Linked(m: Memory, q: seq<Ref>, head: Ref) {
    && head == (if q == [] then NULL else q[0])
    && NULL !in q
    && forall i {:trigger LinkOk(m, q, i)} | 0 <= i < |q| :: LinkOk(m, q, i)
  }

  lemma LinkedFrame(m: Memory, n: Memory, q: seq<Ref>, head: Ref)
    requires Linked(m, q, head) && forall t | t in q :: At(n, t).next == At(m, t).next
    ensures Linked(n, q, head)
  {
    forall i {:trigger LinkOk(n, q, i)} | 0 <= i < |q| ensures LinkOk(n, q, i) { assert LinkOk(m, q, i); }
  }

  lemma LinkedTail(m: Memory, q: seq<Ref>, head: Ref)
    requires Linked(m, q, head) && q != []
    ensures Linked(m, q[1..], At(m, head).next)
  {
    assert LinkOk(m, q, 0);
    forall i {:trigger LinkOk(m, q[1..], i)} | 0 <= i < |q[1..]| ensures LinkOk(m, q[1..], i) { assert LinkOk(m, q, i + 1); }
  }

  /** A NULL-terminated list is determined by its head. */
  lemma {:induction false} LinkedUnique(m: Memory, q: seq<Ref>, r: seq<Ref>, head: Ref)
    requires Linked(m, q, head) && Linked(m, r, head)
    ensures q == r
    decreases |q|
  {
    if q != [] {
      assert r != [] && q[0] == r[0];
      LinkedTail(m, q, head);
      LinkedTail(m, r, head);
      LinkedUnique(m, q[1..], r[1..], At(m, head).next);
      assert q == [q[0]] + q[1..] && r == [r[0]] + r[1..];
    }
  }

  /** Appending at the tail: the old last node now links to the new one. */
  lemma LinkedAppend(m: Memory, n: Memory, q: seq<Ref>, head: Ref, t: Ref)
    requires Linked(m, q, head) && Distinct(q) && t !in q && t != NULL
    requires At(n, t).next == NULL
    requires forall i | 0 <= i < |q| :: At(n, q[i]).next == if i == |q| - 1 then t else At(m, q[i]).next
    ensures Linked(n, q + [t], if q == [] then t else head)
  {
    var r := q + [t];
    forall i {:trigger LinkOk(n, r, i)} | 0 <= i < |r| ensures LinkOk(n, r, i) {
      if i < |q| { assert LinkOk(m, q, i); }
    }
  }

  /** Linking `t` in at place `k`. */
  lemma LinkedInsert(m: Memory, n: Memory, q: seq<Ref>, head: Ref, t: Ref, k: nat)
    requires Linked(m, q, head) && Distinct(q) && t !in q && t != NULL && k <= |q|
    requires At(n, t).next == if k < |q| then q[k] else NULL
    requires forall i | 0 <= i < |q| :: At(n, q[i]).next == if i == k - 1 then t else At(m, q[i]).next
    ensures Linked(n, q[..k] + [t] + q[k..], if k == 0 then t else head)
  {
    var r := q[..k] + [t] + q[k..];
    forall i {:trigger LinkOk(n, r, i)} | 0 <= i < |r| ensures LinkOk(n, r, i) {
      if i != k { assert LinkOk(m, q, if i < k then i else i - 1); }
    }
  }

  /** Bypassing the node at place `k`. */
  lemma LinkedRemove(m: Memory, n: Memory, q: seq<Ref>, head: Ref, k: nat)
    requires Linked(m, q, head) && Distinct(q) && k < |q|
    requires forall i | 0 <= i < |q| && i != k :: At(n, q[i]).next == if i == k - 1 then At(m, q[k]).next else At(m, q[i]).next
    ensures Linked(n, q[..k] + q[k + 1..], if k == 0 then At(m, q[0]).next else head)
  {
    var r := q[..k] + q[k + 1..];
    assert LinkOk(m, q, k);
    forall i {:trigger LinkOk(n, r, i)} | 0 <= i < |r| ensures LinkOk(n, r, i) {
      assert LinkOk(m, q, if i < k then i else i + 1);
    }
  }
}
