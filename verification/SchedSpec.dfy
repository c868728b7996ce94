/**
  The scheduling policy of kernel/core/sched_core.c on plain values: the READY queue and the sleepers are
  sequences and the task table is a map, so each operation says what it does to the queues as a whole.
  `T` is what names a task; the intrusive implementation instantiates it with task nodes.
*/
module SchedSpec {

  const MAX_TASKS: nat := 64
  const UINT32_MAX: nat := 0xFFFF_FFFF
  const UINT64_MAX: nat := 0xFFFF_FFFF_FFFF_FFFF

  datatype State = Running | Ready | Blocked | Sleeping | Zombie

  datatype Info = Info(id: nat, state: State, wake: nat, runTicks: nat, quantumLeft: nat, depth: nat)

  datatype Sched<T(==)> = Sched(
    now: nat, nextId: nat, ticks: nat, switches: nat, quantum: nat, resched: bool,
    current: T, idle: T, ready: seq<T>, sleepers: seq<T>, info: map<T, Info>)

  function Bump(counter: nat): nat { if counter == UINT64_MAX then counter else counter + 1 }

  // ---------------------------------------------------------------- the invariant

  ghost predicate Distinct<T>(q: seq<T>) { forall i, j | 0 <= i < j < |q| :: q[i] != q[j] }

  ghost predicate OwnId<T>(s: Sched<T>, t: T)
    requires t in s.info
  {
    forall u | u in s.info && u != t :: s.info[u].id != s.info[t].id
  }

  /** What one task's state permits and in which queue it is; a sleeper's deadline lies after `floor`. */
  ghost predicate TaskOk<T>(s: Sched<T>, floor: nat, t: T)
    requires t in s.info
  {
    var i := s.info[t];
    && i.id < s.nextId
    && (i.id == 0 <==> t == s.idle)
    && i.quantumLeft <= s.quantum
    && (t != s.current ==> i.depth == 0)
    && (t == s.idle ==> i.state == if t == s.current then Running else Ready)
    && (i.state == Running ==> t == s.current)
    && (i.state == Sleeping || i.state == Blocked || i.state == Zombie ==> i.depth == 0)
    && (if i.state == Sleeping then floor < i.wake else i.wake == 0)
    && OwnId(s, t)
    && (t in s.ready <==> t != s.idle && i.state == Ready)
    && (t in s.sleepers <==> i.state == Sleeping)
  }

  /** Both queues list registered tasks, each at most once. */
  ghost predicate Queues<T>(s: Sched<T>) {
    && Distinct(s.ready) && Distinct(s.sleepers)
    && (forall t | t in s.ready :: t in s.info)
    && (forall t | t in s.sleepers :: t in s.info)
  }

  ghost predicate Ordered<T>(s: Sched<T>)
    requires forall t | t in s.sleepers :: t in s.info
  {
    forall i, j | 0 <= i < j < |s.sleepers| :: s.info[s.sleepers[i]].wake <= s.info[s.sleepers[j]].wake
  }

  ghost predicate ValidFrom<T>(s: Sched<T>, floor: nat) {
    && 0 < s.quantum && 2 <= s.nextId && |s.info| <= MAX_TASKS
    && s.current in s.info && s.idle in s.info
    && (forall t {:trigger TaskOk(s, floor, t)} | t in s.info :: TaskOk(s, floor, t))
    && Queues(s)
    && Ordered(s)
    && (s.info[s.current].state != Running ==> s.resched)
  }

  /** Everything `sched_core_validate` checks, declaratively: in particular every deadline is still to come. */
  ghost predicate Valid<T>(s: Sched<T>) { ValidFrom(s, s.now) }

  /** No wakeup is lost on an idle processor: it has been asked to reschedule. */
  ghost predicate Nudged<T>(s: Sched<T>) {
    s.current == s.idle && s.ready != [] ==> s.resched
  }

  // ---------------------------------------------------------------- the operations

  function Put<T(==)>(s: Sched<T>, t: T, i: Info): Sched<T> { s.(info := s.info[t := i]) }

  function ReadyPush<T(==)>(s: Sched<T>, t: T): Sched<T>
    requires t in s.info && s.current in s.info
  {
    var s' := Put(s, t, s.info[t].(state := Ready, wake := 0)).(ready := s.ready + [t]);
    s'.(resched := s'.resched || s'.current == s'.idle || s'.info[s'.current].state != Running)
  }

  /** NULL owner is the caller's business; the registry must have room and an id left. */
  predicate CanAdd<T(==)>(s: Sched<T>) { |s.info| != MAX_TASKS && s.nextId != UINT64_MAX }

  function Add<T(==)>(s: Sched<T>, t: T): Sched<T>
    requires t !in s.info && s.current in s.info
  {
    var s' := Put(s, t, Info(s.nextId, Ready, 0, 0, s.quantum, 0)).(nextId := s.nextId + 1);
    ReadyPush(s', t)
  }

  /** Charge the tick to the running task. */
  function Charge<T(==)>(s: Sched<T>): Sched<T>
    requires s.current in s.info
  {
    var i := s.info[s.current];
    if i.state != Running then s
    else if s.current == s.idle then Put(s, s.current, i.(runTicks := Bump(i.runTicks)))
    else
      var left := if i.quantumLeft == 0 then 0 else i.quantumLeft - 1;
      Put(s, s.current, i.(runTicks := Bump(i.runTicks), quantumLeft := left)).(resched := s.resched || left == 0)
  }

  /** Move every sleeper that is due, front first. */
  function WakeDue<T(==)>(s: Sched<T>): Sched<T>
    requires s.current in s.info && forall t | t in s.sleepers :: t in s.info
    decreases |s.sleepers|
  {
    if s.sleepers == [] || s.now < s.info[s.sleepers[0]].wake then s
    else
      var t := s.sleepers[0];
      assert forall u | u in s.sleepers[1..] :: u in s.sleepers;
      WakeDue(ReadyPush(s.(sleepers := s.sleepers[1..]), t))
  }

  function Tick<T(==)>(s: Sched<T>, now: nat): Sched<T>
    requires s.current in s.info && forall t | t in s.sleepers :: t in s.info
  {
    WakeDue(Charge(s.(now := now, ticks := Bump(s.ticks))))
  }

  /** Whether `select` keeps the current task. */
  predicate Keeps<T(==)>(s: Sched<T>, force: bool)
    requires s.current in s.info
  {
    var i := s.info[s.current];
    i.depth != 0 || (!force && !s.resched && i.state == Running)
  }

  /** The running task steps back: idle just becomes READY, another joins the queue. */
  function StepBack<T(==)>(s: Sched<T>): Sched<T>
    requires s.current in s.info
  {
    var i := s.info[s.current];
    if i.state != Running then s
    else if s.current == s.idle then Put(s, s.current, i.(state := Ready))
    else ReadyPush(s, s.current)
  }

  /** The queue's head, or idle if it is empty, starts running with a fresh quantum. */
  function Dispatch<T(==)>(s: Sched<T>): Sched<T>
    requires s.idle in s.info && forall t | t in s.ready :: t in s.info
  {
    var next := if s.ready != [] then s.ready[0] else s.idle;
    var rest := if s.ready != [] then s.ready[1..] else [];
    Put(s, next, s.info[next].(state := Running, wake := 0, quantumLeft := s.quantum))
      .(ready := rest, current := next, resched := false,
        switches := if next != s.current then Bump(s.switches) else s.switches)
  }

  function Select<T(==)>(s: Sched<T>, force: bool): Sched<T>
    requires s.current in s.info && s.idle in s.info && forall t | t in s.ready :: t in s.info
  {
    if Keeps(s, force) then s else Dispatch(StepBack(s))
  }

  predicate CanWait<T(==)>(s: Sched<T>)
    requires s.current in s.info
  {
    s.current != s.idle && s.info[s.current].state == Running && s.info[s.current].depth == 0
  }

  /** Where a deadline belongs: after every sleeper due no later. */
  function Slot<T(==)>(s: Sched<T>, wake: nat, from: nat): (k: nat)
    requires from <= |s.sleepers| && forall t | t in s.sleepers :: t in s.info
    ensures from <= k <= |s.sleepers|
    decreases |s.sleepers| - from
  {
    if from == |s.sleepers| || wake < s.info[s.sleepers[from]].wake then from else Slot(s, wake, from + 1)
  }

  function Sleep<T(==)>(s: Sched<T>, delay: nat): Sched<T>
    requires s.current in s.info && forall t | t in s.sleepers :: t in s.info
  {
    var wake := s.now + delay;
    var k := Slot(s, wake, 0);
    Put(s, s.current, s.info[s.current].(state := Sleeping, wake := wake))
      .(sleepers := s.sleepers[..k] + [s.current] + s.sleepers[k..], resched := true)
  }

  function Park<T(==)>(s: Sched<T>, state: State): Sched<T>
    requires s.current in s.info
  {
    Put(s, s.current, s.info[s.current].(state := state)).(resched := true)
  }

  predicate CanWake<T(==)>(s: Sched<T>, t: T) {
    t in s.info && (s.info[t].state == Blocked || s.info[t].state == Sleeping)
  }

  /** The first place of `t` at or after `from`. */
  function IndexOf<T(==)>(q: seq<T>, t: T, from: nat): (k: nat)
    requires from <= |q|
    ensures from <= k <= |q| && (k < |q| ==> q[k] == t) && t !in q[from..k]
    decreases |q| - from
  {
    if from == |q| || q[from] == t then from else IndexOf(q, t, from + 1)
  }

  function Without<T(==)>(q: seq<T>, t: T): seq<T> {
    var k := IndexOf(q, t, 0);
    if k < |q| then q[..k] + q[k + 1..] else q
  }

  function Wake<T(==)>(s: Sched<T>, t: T): Sched<T>
    requires t in s.info && s.current in s.info
  {
    ReadyPush(if s.info[t].state == Sleeping then s.(sleepers := Without(s.sleepers, t)) else s, t)
  }

  predicate CanRemove<T(==)>(s: Sched<T>, t: T) {
    t in s.info && t != s.current && t != s.idle && s.info[t].state == Zombie
  }

  function Remove<T(==)>(s: Sched<T>, t: T): Sched<T> { s.(info := s.info - {t}) }

  function SetDepth<T(==)>(s: Sched<T>, depth: nat): Sched<T>
    requires s.current in s.info
  {
    Put(s, s.current, s.info[s.current].(depth := depth))
  }
}
