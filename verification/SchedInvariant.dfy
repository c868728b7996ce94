/** Every operation of the scheduling policy keeps the validator's invariant. */
module SchedInvariant {
  import opened SchedSpec

  /** Valid but for the task `t`, which is in neither queue and about to become READY. */
  ghost predicate Pushable<T>(s: Sched<T>, floor: nat, t: T) {
    && t in s.info && t != s.idle
    && t !in s.ready && t !in s.sleepers
    && 0 < s.quantum && 2 <= s.nextId && |s.info| <= MAX_TASKS
    && s.current in s.info && s.idle in s.info
    && (forall u {:trigger TaskOk(s, floor, u)} | u in s.info && u != t :: TaskOk(s, floor, u))
    && 0 < s.info[t].id < s.nextId && s.info[t].quantumLeft <= s.quantum && (t != s.current ==> s.info[t].depth == 0)
    && OwnId(s, t)
    && Queues(s)
    && Ordered(s)
  }

  lemma PushValid<T>(s: Sched<T>, floor: nat, t: T)
    requires Pushable(s, floor, t)
    ensures ValidFrom(ReadyPush(s, t), floor) && Nudged(ReadyPush(s, t))
  {
    var s' := ReadyPush(s, t);
    forall u {:trigger TaskOk(s', floor, u)} | u in s'.info ensures TaskOk(s', floor, u) {
      if u != t { assert TaskOk(s, floor, u); }
    }
    assert s'.info.Keys == s.info.Keys;
  }

  lemma AddValid<T>(s: Sched<T>, t: T)
    requires Valid(s) && CanAdd(s) && t !in s.info
    ensures Valid(Add(s, t)) && Nudged(Add(s, t))
    ensures Add(s, t).info[t].id == s.nextId
  {
    var m := Put(s, t, Info(s.nextId, Ready, 0, 0, s.quantum, 0)).(nextId := s.nextId + 1);
    assert m.info.Keys == s.info.Keys + {t};
    forall u {:trigger TaskOk(m, s.now, u)} | u in m.info && u != t ensures TaskOk(m, s.now, u) {
      assert TaskOk(s, s.now, u);
    }
    assert OwnId(m, t) by {
      forall u | u in m.info && u != t ensures m.info[u].id != s.nextId { assert TaskOk(s, s.now, u); }
    }
    PushValid(m, s.now, t);
  }

  lemma ChargeValid<T>(s: Sched<T>, floor: nat)
    requires ValidFrom(s, floor)
    ensures ValidFrom(Charge(s), floor) && (Nudged(s) ==> Nudged(Charge(s)))
  {
    var s' := Charge(s);
    assert s'.info.Keys == s.info.Keys;
    assert TaskOk(s, floor, s.current);
    forall u {:trigger TaskOk(s', floor, u)} | u in s'.info ensures TaskOk(s', floor, u) { assert TaskOk(s, floor, u); }
  }

  /** The first sleeper can be pushed once it has left the sleepers. */
  lemma HeadPushable<T>(s: Sched<T>, floor: nat)
    requires ValidFrom(s, floor) && s.sleepers != []
    ensures Pushable(s.(sleepers := s.sleepers[1..]), floor, s.sleepers[0])
  {
    var t, m := s.sleepers[0], s.(sleepers := s.sleepers[1..]);
    assert TaskOk(s, floor, t);
    forall u {:trigger TaskOk(m, floor, u)} | u in m.info && u != t ensures TaskOk(m, floor, u) { assert TaskOk(s, floor, u); }
  }

  lemma {:induction false} WakeDueValid<T>(s: Sched<T>, floor: nat)
    requires ValidFrom(s, floor) && floor <= s.now
    ensures Valid(WakeDue(s)) && (Nudged(s) ==> Nudged(WakeDue(s)))
    decreases |s.sleepers|
  {
    if s.sleepers == [] || s.now < s.info[s.sleepers[0]].wake {
      forall u {:trigger TaskOk(s, s.now, u)} | u in s.info ensures TaskOk(s, s.now, u) {
        assert TaskOk(s, floor, u);
        if u in s.sleepers {
          var i :| 0 <= i < |s.sleepers| && s.sleepers[i] == u;
          assert i == 0 || s.info[s.sleepers[0]].wake <= s.info[s.sleepers[i]].wake;
        }
      }
    } else {
      HeadPushable(s, floor);
      var m := s.(sleepers := s.sleepers[1..]);
      PushValid(m, floor, s.sleepers[0]);
      WakeDueValid(ReadyPush(m, s.sleepers[0]), floor);
    }
  }

  lemma TickValid<T>(s: Sched<T>, now: nat)
    requires Valid(s) && s.now <= now
    ensures Valid(Tick(s, now)) && (Nudged(s) ==> Nudged(Tick(s, now)))
  {
    var m := s.(now := now, ticks := Bump(s.ticks));
    forall u {:trigger TaskOk(m, s.now, u)} | u in m.info ensures TaskOk(m, s.now, u) { assert TaskOk(s, s.now, u); }
    ChargeValid(m, s.now);
    WakeDueValid(Charge(m), s.now);
  }

  // ---------------------------------------------------------------- choosing the next task

  /** Between stepping back and dispatch nobody runs; idle aside, READY and queued are the same thing. */
  ghost predicate Halted<T>(s: Sched<T>) {
    && 0 < s.quantum && 2 <= s.nextId && |s.info| <= MAX_TASKS && s.idle in s.info
    && (forall t {:trigger HaltedOk(s, t)} | t in s.info :: HaltedOk(s, t))
    && Queues(s)
    && Ordered(s)
  }

  ghost predicate HaltedOk<T>(s: Sched<T>, t: T)
    requires t in s.info
  {
    var i := s.info[t];
    && i.id < s.nextId && (i.id == 0 <==> t == s.idle) && i.quantumLeft <= s.quantum && i.depth == 0
    && i.state != Running && (t == s.idle ==> i.state == Ready)
    && (if i.state == Sleeping then s.now < i.wake else i.wake == 0)
    && OwnId(s, t)
    && (t in s.ready <==> t != s.idle && i.state == Ready)
    && (t in s.sleepers <==> i.state == Sleeping)
  }

  lemma StepBackHalts<T>(s: Sched<T>)
    requires Valid(s) && s.info[s.current].depth == 0
    ensures Halted(StepBack(s))
  {
    var b := StepBack(s);
    assert b.info.Keys == s.info.Keys;
    assert TaskOk(s, s.now, s.current);
    forall u {:trigger HaltedOk(b, u)} | u in b.info ensures HaltedOk(b, u) { assert TaskOk(s, s.now, u); }
  }

  lemma DispatchValid<T>(b: Sched<T>)
    requires Halted(b)
    ensures Valid(Dispatch(b)) && Nudged(Dispatch(b))
  {
    var s := Dispatch(b);
    assert s.info.Keys == b.info.Keys;
    assert HaltedOk(b, s.current);
    forall u {:trigger TaskOk(s, s.now, u)} | u in s.info ensures TaskOk(s, s.now, u) { assert HaltedOk(b, u); }
  }

  lemma SelectValid<T>(s: Sched<T>, force: bool)
    requires Valid(s)
    ensures Valid(Select(s, force)) && (Nudged(s) ==> Nudged(Select(s, force)))
  {
    if !Keeps(s, force) {
      StepBackHalts(s);
      DispatchValid(StepBack(s));
    }
  }

  // ---------------------------------------------------------------- waiting, waking, leaving

  lemma {:induction false} SlotSplits<T>(s: Sched<T>, wake: nat, from: nat)
    requires from <= |s.sleepers| && forall t | t in s.sleepers :: t in s.info
    requires Ordered(s)
    requires forall i | 0 <= i < from :: s.info[s.sleepers[i]].wake <= wake
    ensures var k := Slot(s, wake, from);
      && (forall i | 0 <= i < k :: s.info[s.sleepers[i]].wake <= wake)
      && (forall i | k <= i < |s.sleepers| :: wake < s.info[s.sleepers[i]].wake)
    decreases |s.sleepers| - from
  {
    if from < |s.sleepers| && s.info[s.sleepers[from]].wake <= wake { SlotSplits(s, wake, from + 1); }
  }

  lemma InsertMembers<T>(q: seq<T>, k: nat, t: T)
    requires k <= |q| && Distinct(q) && t !in q
    ensures Distinct(q[..k] + [t] + q[k..])
    ensures forall u :: u in q[..k] + [t] + q[k..] <==> u in q || u == t
  {
    var r := q[..k] + [t] + q[k..];
    assert q == q[..k] + q[k..];
    forall i, j | 0 <= i < j < |r| ensures r[i] != r[j] {
      assert i != k ==> r[i] == q[if i < k then i else i - 1];
      assert j != k ==> r[j] == q[if j < k then j else j - 1];
    }
  }

  ghost predicate DueIn<T>(info: map<T, Info>, t: T, u: T) { t in info && u in info && info[t].wake <= info[u].wake }

  ghost predicate InOrder<T>(info: map<T, Info>, q: seq<T>) {
    forall i, j {:trigger DueIn(info, q[i], q[j])} | 0 <= i < j < |q| :: DueIn(info, q[i], q[j])
  }

  lemma InsertInOrder<T>(info: map<T, Info>, q: seq<T>, k: nat, t: T)
    requires k <= |q| && InOrder(info, q)
    requires forall i {:trigger DueIn(info, q[i], t)} | 0 <= i < k :: DueIn(info, q[i], t)
    requires forall i {:trigger DueIn(info, t, q[i])} | k <= i < |q| :: DueIn(info, t, q[i])
    ensures InOrder(info, q[..k] + [t] + q[k..])
  {
    hide DueIn;
  }

  lemma InOrderElsewhere<T>(info: map<T, Info>, info': map<T, Info>, q: seq<T>)
    requires InOrder(info, q) && forall t | t in q :: t in info && t in info' && info'[t].wake == info[t].wake
    ensures InOrder(info', q)
  {
    forall i, j {:trigger DueIn(info', q[i], q[j])} | 0 <= i < j < |q| ensures DueIn(info', q[i], q[j]) { assert DueIn(info, q[i], q[j]); }
  }

  lemma OrderedIsInOrder<T>(s: Sched<T>)
    requires forall t | t in s.sleepers :: t in s.info
    ensures Ordered(s) <==> InOrder(s.info, s.sleepers)
  {
    if InOrder(s.info, s.sleepers) {
      forall i, j | 0 <= i < j < |s.sleepers| ensures s.info[s.sleepers[i]].wake <= s.info[s.sleepers[j]].wake {
        assert DueIn(s.info, s.sleepers[i], s.sleepers[j]);
      }
    }
  }

  lemma SleepQueues<T>(s: Sched<T>, delay: nat)
    requires Queues(s) && s.current in s.info && s.current !in s.sleepers
    ensures Queues(Sleep(s, delay))
    ensures forall u | u in s.info :: u in Sleep(s, delay).sleepers <==> u in s.sleepers || u == s.current
  {
    InsertMembers(s.sleepers, Slot(s, s.now + delay, 0), s.current);
  }

  lemma SleepOrdered<T>(s: Sched<T>, delay: nat)
    requires Queues(s) && Ordered(s) && s.current in s.info && s.current !in s.sleepers
    requires Queues(Sleep(s, delay))
    ensures Ordered(Sleep(s, delay))
  {
    hide InOrder, Distinct, Ordered, Slot;
    var t, k, s' := s.current, Slot(s, s.now + delay, 0), Sleep(s, delay);
    SlotSplits(s, s.now + delay, 0);
    OrderedIsInOrder(s);
    InOrderElsewhere(s.info, s'.info, s.sleepers);
    InsertInOrder(s'.info, s.sleepers, k, t);
    OrderedIsInOrder(s');
  }

  lemma SleepValid<T>(s: Sched<T>, delay: nat)
    requires Valid(s) && CanWait(s) && 0 < delay
    ensures Valid(Sleep(s, delay)) && (Nudged(s) ==> Nudged(Sleep(s, delay)))
  {
    var s' := Sleep(s, delay);
    assert TaskOk(s, s.now, s.current);
    SleepQueues(s, delay);
    SleepOrdered(s, delay);
    assert s'.info.Keys == s.info.Keys;
    forall u {:trigger TaskOk(s', s'.now, u)} | u in s'.info ensures TaskOk(s', s'.now, u) { assert TaskOk(s, s.now, u); }
  }

  lemma ParkValid<T>(s: Sched<T>, state: State)
    requires Valid(s) && CanWait(s) && (state == Blocked || state == Zombie)
    ensures Valid(Park(s, state)) && (Nudged(s) ==> Nudged(Park(s, state)))
  {
    var s' := Park(s, state);
    assert s'.info.Keys == s.info.Keys;
    forall u {:trigger TaskOk(s', s'.now, u)} | u in s'.info ensures TaskOk(s', s'.now, u) { assert TaskOk(s, s.now, u); }
  }

  lemma WithoutMembers<T>(q: seq<T>, t: T)
    requires Distinct(q) && t in q
    ensures Distinct(Without(q, t)) && t !in Without(q, t)
    ensures forall u | u in Without(q, t) :: u in q
    ensures forall u | u in q && u != t :: u in Without(q, t)
  {
    var k, r := IndexOf(q, t, 0), Without(q, t);
    forall u | u in q && u != t ensures u in r {
      var i :| 0 <= i < |q| && q[i] == u;
      assert r[if i < k then i else i - 1] == u;
    }
  }

  /** Waking a sleeper takes it out of the sleepers and leaves the others in order. */
  lemma UnlistPushable<T>(s: Sched<T>, t: T)
    requires Valid(s) && t in s.info && s.info[t].state == Sleeping
    ensures Pushable(s.(sleepers := Without(s.sleepers, t)), s.now, t)
  {
    var m := s.(sleepers := Without(s.sleepers, t));
    assert TaskOk(s, s.now, t);
    WithoutMembers(s.sleepers, t);
    forall u {:trigger TaskOk(m, m.now, u)} | u in m.info && u != t ensures TaskOk(m, m.now, u) { assert TaskOk(s, s.now, u); }
  }

  lemma WakeValid<T>(s: Sched<T>, t: T)
    requires Valid(s) && CanWake(s, t)
    ensures Valid(Wake(s, t)) && Nudged(Wake(s, t))
  {
    assert TaskOk(s, s.now, t);
    if s.info[t].state == Sleeping {
      UnlistPushable(s, t);
      PushValid(s.(sleepers := Without(s.sleepers, t)), s.now, t);
    } else {
      PushValid(s, s.now, t);
    }
  }

  lemma RemoveValid<T>(s: Sched<T>, t: T)
    requires Valid(s) && CanRemove(s, t)
    ensures Valid(Remove(s, t)) && (Nudged(s) ==> Nudged(Remove(s, t)))
  {
    var s' := Remove(s, t);
    assert TaskOk(s, s.now, t);
    assert s'.info.Keys == s.info.Keys - {t};
    forall u {:trigger TaskOk(s', s'.now, u)} | u in s'.info ensures TaskOk(s', s'.now, u) { assert TaskOk(s, s.now, u); }
  }

  lemma DepthValid<T>(s: Sched<T>, depth: nat)
    requires Valid(s) && s.info[s.current].state == Running
    ensures Valid(SetDepth(s, depth)) && (Nudged(s) ==> Nudged(SetDepth(s, depth)))
  {
    var s' := SetDepth(s, depth);
    assert s'.info.Keys == s.info.Keys;
    forall u {:trigger TaskOk(s', s'.now, u)} | u in s'.info ensures TaskOk(s', s'.now, u) { assert TaskOk(s, s.now, u); }
  }
}
