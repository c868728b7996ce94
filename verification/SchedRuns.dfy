/**
  Whole runs of the scheduling policy: any interleaving of timer interrupts, yields, sleeps, blocks, wakes,
  exits, additions, removals and preemption brackets.
*/
module SchedRuns {
  import opened SchedSpec
  import opened SchedInvariant

  /** `Timer` is the interrupt path: a tick, then a select that is not forced. `Select(true)` is a yield. */
  datatype Event<T> =
    | TickOnly(at: nat)
    | Timer(at: nat)
    | Choose(force: bool)
    | Join(t: T)
    | Doze(delay: nat)
    | Halt
    | Quit
    | Rouse(t: T)
    | Reap(t: T)
    | PreemptOff
    | PreemptOn

  ghost predicate Good<T>(s: Sched<T>) { Valid(s) && Nudged(s) }

  /** One event; an operation whose guard refuses it changes nothing. Every event keeps the invariant. */
  ghost function Step<T>(s: Sched<T>, e: Event<T>): (s': Sched<T>)
    requires Good(s)
    ensures Good(s')
  {
    match e
    case TickOnly(at) => if at < s.now then s else TickValid(s, at); Tick(s, at)
    case Timer(at) =>
      if at < s.now then SelectValid(s, false); Select(s, false)
      else TickValid(s, at); SelectValid(Tick(s, at), false); Select(Tick(s, at), false)
    case Choose(force) => SelectValid(s, force); Select(s, force)
    case Join(t) => if t in s.info || !CanAdd(s) then s else AddValid(s, t); Add(s, t)
    case Doze(delay) =>
      if !CanWait(s) || delay == 0 || delay > UINT64_MAX - s.now then s else SleepValid(s, delay); Sleep(s, delay)
    case Halt => if CanWait(s) then ParkValid(s, Blocked); Park(s, Blocked) else s
    case Quit => if CanWait(s) then ParkValid(s, Zombie); Park(s, Zombie) else s
    case Rouse(t) => if CanWake(s, t) then WakeValid(s, t); Wake(s, t) else s
    case Reap(t) => if CanRemove(s, t) then RemoveValid(s, t); Remove(s, t) else s
    case PreemptOff =>
      var i := s.info[s.current];
      if i.state != Running || i.depth == UINT32_MAX then s else DepthValid(s, i.depth + 1); SetDepth(s, i.depth + 1)
    case PreemptOn =>
      var i := s.info[s.current];
      if i.state != Running || i.depth == 0 then s else DepthValid(s, i.depth - 1); SetDepth(s, i.depth - 1)
  }

  ghost function Run<T>(s: Sched<T>, es: seq<Event<T>>): (s': Sched<T>)
    requires Good(s)
    ensures Good(s')
    decreases |es|
  {
    if es == [] then s else Run(Step(s, es[0]), es[1..])
  }

  // ---------------------------------------------------------------- what a tick wakes

  ghost predicate Woken<T>(s: Sched<T>, s': Sched<T>, k: nat) {
    && k <= |s.sleepers| && s'.info.Keys == s.info.Keys
    && s'.ready == s.ready + s.sleepers[..k] && s'.sleepers == s.sleepers[k..]
    && s'.current == s.current && s'.idle == s.idle && s'.now == s.now && s'.quantum == s.quantum && s'.nextId == s.nextId
    && (forall t | t in s.info ::
          s'.info[t] == if t in s.sleepers[..k] then s.info[t].(state := Ready, wake := 0) else s.info[t])
  }

  lemma WokenCons<T>(s: Sched<T>, r: Sched<T>, j: nat)
    requires s.sleepers != [] && s.current in s.info && Queues(s)
    requires Woken(ReadyPush(s.(sleepers := s.sleepers[1..]), s.sleepers[0]), r, j)
    ensures Woken(s, r, j + 1)
  {
    var t := s.sleepers[0];
    var p := ReadyPush(s.(sleepers := s.sleepers[1..]), t);
    assert p.info.Keys == s.info.Keys;
    assert s.sleepers[..j + 1] == [t] + p.sleepers[..j];
    assert s.ready + s.sleepers[..j + 1] == s.ready + [t] + p.sleepers[..j];
    assert t !in p.sleepers;
    forall u | u in s.info
      ensures r.info[u] == if u in s.sleepers[..j + 1] then s.info[u].(state := Ready, wake := 0) else s.info[u]
    {
      assert u in p.sleepers[..j] ==> u in p.sleepers;
    }
  }

  /** Waking the due sleepers moves a prefix of them, in order, to the end of the queue. */
  lemma {:induction false} WakeDueSplits<T>(s: Sched<T>, floor: nat) returns (k: nat)
    requires ValidFrom(s, floor)
    ensures Woken(s, WakeDue(s), k)
    ensures forall i | 0 <= i < k :: s.info[s.sleepers[i]].wake <= s.now
    ensures forall i | k <= i < |s.sleepers| :: s.now < s.info[s.sleepers[i]].wake
    ensures s.resched ==> WakeDue(s).resched
    decreases |s.sleepers|
  {
    if s.sleepers == [] || s.now < s.info[s.sleepers[0]].wake {
      k := 0;
    } else {
      var t, m := s.sleepers[0], s.(sleepers := s.sleepers[1..]);
      HeadPushable(s, floor);
      PushValid(m, floor, t);
      var p := ReadyPush(m, t);
      forall i | 0 <= i < |p.sleepers| ensures p.info[p.sleepers[i]] == s.info[s.sleepers[i + 1]] {}
      hide ValidFrom, Pushable, Woken;
      var j := WakeDueSplits(p, floor);
      k := j + 1;
      assert WakeDue(s) == WakeDue(p);
      WokenCons(s, WakeDue(p), j);
      forall i | 0 <= i < k ensures s.info[s.sleepers[i]].wake <= s.now {
        if 0 < i { assert p.info[p.sleepers[i - 1]].wake <= p.now; }
      }
      forall i | k <= i < |s.sleepers| ensures s.now < s.info[s.sleepers[i]].wake {
        assert p.now < p.info[p.sleepers[i - 1]].wake;
      }
    }
  }

  /** The tick before anyone wakes: only the clock, the counters and the running task's account move. */
  ghost function Charged<T>(s: Sched<T>, at: nat): Sched<T>
    requires s.current in s.info
  {
    Charge(s.(now := at, ticks := Bump(s.ticks)))
  }

  lemma ChargedKeeps<T>(s: Sched<T>, at: nat)
    requires Good(s) && s.now <= at
    ensures var c := Charged(s, at);
      && ValidFrom(c, s.now) && Nudged(c)
      && c.ready == s.ready && c.sleepers == s.sleepers && c.current == s.current && c.idle == s.idle
      && c.quantum == s.quantum && c.now == at && c.nextId == s.nextId && c.info.Keys == s.info.Keys
      && (forall t | t in s.info && t != s.current :: c.info[t] == s.info[t])
      && c.info[s.current].(runTicks := 0, quantumLeft := 0) == s.info[s.current].(runTicks := 0, quantumLeft := 0)
    ensures s.current !in s.sleepers || s.info[s.current].state == Sleeping
  {
    var m := s.(now := at, ticks := Bump(s.ticks));
    forall u {:trigger TaskOk(m, s.now, u)} | u in m.info ensures TaskOk(m, s.now, u) { assert TaskOk(s, s.now, u); }
    ChargeValid(m, s.now);
    assert TaskOk(s, s.now, s.current);
  }

  /**
    A tick makes READY exactly the sleepers whose deadline it reaches: earliest deadline first, equal deadlines
    in the order they fell asleep, all behind the tasks already waiting. The others keep sleeping.
  */
  lemma TickWakes<T>(s: Sched<T>, at: nat) returns (k: nat)
    requires Good(s) && s.now <= at
    ensures k <= |s.sleepers|
    ensures Tick(s, at).ready == s.ready + s.sleepers[..k] && Tick(s, at).sleepers == s.sleepers[k..]
    ensures forall i | 0 <= i < k :: s.info[s.sleepers[i]].wake <= at
    ensures forall i | k <= i < |s.sleepers| :: at < s.info[s.sleepers[i]].wake
    ensures Woken(Charged(s, at), Tick(s, at), k)
    ensures Charged(s, at).resched ==> Tick(s, at).resched
  {
    ChargedKeeps(s, at);
    k := WakeDueSplits(Charged(s, at), s.now);
    forall i | 0 <= i < |s.sleepers| ensures Charged(s, at).info[s.sleepers[i]].wake == s.info[s.sleepers[i]].wake {
      assert s.sleepers[i] in s.info;
    }
  }

  // ---------------------------------------------------------------- bounded waiting

  /** How many more timer interrupts the current turn can last while someone waits. */
  ghost function Turn<T>(s: Sched<T>): nat
    requires s.current in s.info
  {
    var i := s.info[s.current];
    if s.current == s.idle || i.state != Running || i.quantumLeft == 0 then 1 else i.quantumLeft
  }

  /** An upper bound on the timer interrupts before the waiting task `t` runs. */
  ghost function Budget<T>(s: Sched<T>, t: T): nat
    requires s.current in s.info && t in s.ready
  {
    IndexOf(s.ready, t, 0) * s.quantum + Turn(s)
  }

  ghost predicate Preemptible<T>(s: Sched<T>)
    requires s.current in s.info
  {
    s.info[s.current].depth == 0
  }

  ghost predicate Runs<T>(s: Sched<T>, t: T)
    requires s.current in s.info
  {
    s.current == t && s.info[t].state == Running
  }

  /** `t` runs now, or its bound has dropped by `spent`. */
  ghost predicate Advanced<T>(s: Sched<T>, s': Sched<T>, t: T, spent: nat)
    requires s.current in s.info && t in s.ready && s'.current in s'.info
  {
    || Runs(s', t)
    || (t in s'.ready && Budget(s', t) + spent <= Budget(s, t) && s'.quantum == s.quantum && Preemptible(s'))
  }

  lemma {:induction false} IndexUnique<T>(q: seq<T>, t: T, from: nat, k: nat)
    requires from <= k < |q| && q[k] == t && Distinct(q)
    ensures IndexOf(q, t, from) == k
    decreases |q| - from
  {
    if from < k { IndexUnique(q, t, from + 1, k); }
  }

  /** Joining at the tail never delays those already waiting. */
  lemma WaitBehind<T>(s: Sched<T>, s': Sched<T>, t: T)
    requires Valid(s) && Valid(s') && t in s.ready && s.ready <= s'.ready
    requires s'.quantum == s.quantum && Turn(s') <= Turn(s) && Preemptible(s')
    ensures Advanced(s, s', t, 0)
  {
    var k := IndexOf(s.ready, t, 0);
    assert s'.ready[k] == t;
    IndexUnique(s'.ready, t, 0, k);
  }

  /** A switch takes the head of the queue, so everyone behind moves up a whole turn. */
  lemma SwitchAdvances<T>(s: Sched<T>, force: bool, t: T)
    requires Good(s) && t in s.ready && !Keeps(s, force)
    ensures Good(Select(s, force)) && Advanced(s, Select(s, force), t, Turn(s))
  {
    SelectValid(s, force);
    var b, s' := StepBack(s), Select(s, force);
    assert s.ready <= b.ready;
    assert TaskOk(s, s.now, s.ready[0]) && b.ready[0] == s.ready[0];
    var k := IndexOf(s.ready, t, 0);
    if k != 0 {
      assert s'.ready[k - 1] == t;
      IndexUnique(s'.ready, t, 0, k - 1);
      assert TaskOk(s', s'.now, s'.current);
      assert (k - 1) * s.quantum + s.quantum == k * s.quantum;
    }
  }

  lemma SelectAdvances<T>(s: Sched<T>, force: bool, t: T)
    requires Good(s) && t in s.ready && Preemptible(s)
    ensures Good(Select(s, force)) && Advanced(s, Select(s, force), t, 0)
  {
    if !Keeps(s, force) { SwitchAdvances(s, force, t); }
  }

  /** A tick shortens the running turn by one, or asks for a switch when the turn is over. */
  lemma TickAdvances<T>(s: Sched<T>, at: nat, t: T)
    requires Good(s) && t in s.ready && Preemptible(s) && s.now <= at
    ensures Good(Tick(s, at)) && Advanced(s, Tick(s, at), t, 0) && t in Tick(s, at).ready
    ensures Tick(s, at).current == s.current && Preemptible(Tick(s, at))
    ensures Tick(s, at).resched || Advanced(s, Tick(s, at), t, 1)
  {
    TickValid(s, at);
    ChargedKeeps(s, at);
    var k := TickWakes(s, at);
    var c, s' := Charged(s, at), Tick(s, at);
    assert TaskOk(s, s.now, s.current) && TaskOk(s', s'.now, s'.current);
    hide TaskOk, Ordered, WakeDue, Tick;
    assert s'.info[s.current].quantumLeft == c.info[s.current].quantumLeft && s'.info[s.current].depth == 0;
    assert Turn(s') <= Turn(s);
    WaitBehind(s, s', t);
    IndexUnique(s'.ready, t, 0, IndexOf(s.ready, t, 0));
  }

  lemma TimerAdvances<T>(s: Sched<T>, at: nat, t: T)
    requires Good(s) && t in s.ready && Preemptible(s) && s.now <= at
    ensures Advanced(s, Step(s, Timer(at)), t, 1)
  {
    TickAdvances(s, at, t);
    var m := Tick(s, at);
    assert TaskOk(m, m.now, t);
    if Keeps(m, false) {
      SelectAdvances(m, false, t);
    } else {
      SwitchAdvances(m, false, t);
    }
  }

  ghost predicate Preempts<T>(e: Event<T>) { e.PreemptOff? || e.PreemptOn? }

  /** No event but preemption brackets can set a waiting task back. */
  lemma EventAdvances<T>(s: Sched<T>, e: Event<T>, t: T)
    requires Good(s) && t in s.ready && Preemptible(s) && !Preempts(e)
    requires e.Timer? ==> s.now <= e.at
    ensures Advanced(s, Step(s, e), t, if e.Timer? then 1 else 0)
  {
    match e
    case TickOnly(at) => if s.now <= at { TickAdvances(s, at, t); }
    case Timer(at) => TimerAdvances(s, at, t);
    case Choose(force) => SelectAdvances(s, force, t);
    case Join(u) => if u !in s.info && CanAdd(s) { WaitBehind(s, Step(s, e), t); }
    case Doze(delay) =>
      if CanWait(s) && 0 < delay <= UINT64_MAX - s.now { WaitBehind(s, Step(s, e), t); }
    case Halt => if CanWait(s) { WaitBehind(s, Step(s, e), t); }
    case Quit => if CanWait(s) { WaitBehind(s, Step(s, e), t); }
    case Rouse(u) => if CanWake(s, u) { WaitBehind(s, Step(s, e), t); }
    case Reap(u) => if CanRemove(s, u) { WaitBehind(s, Step(s, e), t); }
  }

  ghost function Timers<T>(es: seq<Event<T>>): nat {
    if es == [] then 0 else (if es[0].Timer? then 1 else 0) + Timers(es[1..])
  }

  /** Preemption stays enabled and every timer interrupt carries the clock forward. */
  ghost predicate Regular<T>(s: Sched<T>, es: seq<Event<T>>)
    requires Good(s)
    decreases |es|
  {
    es == [] || (!Preempts(es[0]) && (es[0].Timer? ==> s.now <= es[0].at) && Regular(Step(s, es[0]), es[1..]))
  }

  lemma RunCons<T>(s: Sched<T>, es: seq<Event<T>>, n: nat)
    requires Good(s) && n < |es|
    ensures Run(s, es[..n + 1]) == Run(Step(s, es[0]), es[1..][..n])
    ensures Timers(es[..n + 1]) == (if es[0].Timer? then 1 else 0) + Timers(es[1..][..n])
    ensures n == 0 ==> Run(s, es[..1]) == Step(s, es[0]) && Timers(es[..1]) == if es[0].Timer? then 1 else 0
  {
    hide Step, Good;
    assert es[..n + 1][1..] == es[1..][..n];
  }

  lemma {:induction false} RunsWithinBudget<T>(s: Sched<T>, es: seq<Event<T>>, t: T) returns (n: nat)
    requires Good(s) && t in s.ready && Preemptible(s) && Regular(s, es)
    requires Budget(s, t) <= Timers(es)
    ensures n <= |es| && Runs(Run(s, es[..n]), t) && Timers(es[..n]) <= Budget(s, t)
    decreases |es|
  {
    assert 1 <= Budget(s, t);
    hide Step, Valid, Nudged, Budget, Turn;
    var s' := Step(s, es[0]);
    EventAdvances(s, es[0], t);
    if Runs(s', t) {
      n := 1;
      RunCons(s, es, 0);
    } else {
      var m := RunsWithinBudget(s', es[1..], t);
      n := m + 1;
      RunCons(s, es, m);
    }
  }

  /**
    Bounded waiting: a task at position k of the READY queue is running within (k + 1) quanta of timer
    interrupts, whatever else happens in between.
  */
  lemma BoundedWaiting<T>(s: Sched<T>, es: seq<Event<T>>, k: nat) returns (n: nat)
    requires Good(s) && k < |s.ready| && Preemptible(s) && Regular(s, es)
    requires (k + 1) * s.quantum <= Timers(es)
    ensures n <= |es| && Runs(Run(s, es[..n]), s.ready[k]) && Timers(es[..n]) <= (k + 1) * s.quantum
  {
    var t := s.ready[k];
    IndexUnique(s.ready, t, 0, k);
    assert TaskOk(s, s.now, s.current);
    assert (k + 1) * s.quantum == k * s.quantum + s.quantum;
    n := RunsWithinBudget(s, es, t);
  }

  // ---------------------------------------------------------------- no lost wakeups

  ghost predicate Asleep<T>(s: Sched<T>, t: T, deadline: nat) {
    t in s.info && s.info[t].state == Sleeping && s.info[t].wake == deadline
  }

  ghost predicate Awake<T>(s: Sched<T>, t: T) {
    t in s.info && (s.info[t].state == Ready || s.info[t].state == Running)
  }

  lemma TickSleeper<T>(s: Sched<T>, at: nat, t: T)
    requires Good(s) && s.now <= at && t in s.sleepers
    ensures var d := s.info[t].wake;
      if at < d then Asleep(Tick(s, at), t, d) else Awake(Tick(s, at), t) && t in Tick(s, at).ready
  {
    TickValid(s, at);
    ChargedKeeps(s, at);
    var k := TickWakes(s, at);
    assert TaskOk(s, s.now, t) && TaskOk(s, s.now, s.current);
    var i :| 0 <= i < |s.sleepers| && s.sleepers[i] == t;
    if i < k {
      assert s.sleepers[..k][i] == t;
    } else {
      assert Tick(s, at).sleepers[i - k] == t;
      assert t !in s.sleepers[..k];
    }
  }

  lemma SelectSleeper<T>(s: Sched<T>, force: bool, t: T)
    requires Good(s) && t in s.info
    ensures Asleep(s, t, s.info[t].wake) ==> Asleep(Select(s, force), t, s.info[t].wake)
    ensures Awake(s, t) ==> Awake(Select(s, force), t)
  {
    assert TaskOk(s, s.now, t) && TaskOk(s, s.now, s.current) && TaskOk(s, s.now, s.idle);
    if !Keeps(s, force) && StepBack(s).ready != [] {
      var b := StepBack(s);
      if t == b.ready[0] && t in s.ready { assert TaskOk(s, s.now, t); }
      assert b.ready[0] == t ==> t in s.ready || t == s.current;
    }
  }

  lemma EventClock<T>(s: Sched<T>, e: Event<T>)
    requires Good(s)
    ensures s.now <= Step(s, e).now
  {
    match e
    case TickOnly(at) => if s.now <= at { TickClock(s, at); }
    case Timer(at) => if s.now <= at { TickClock(s, at); TickValid(s, at); SelectClock(Tick(s, at), false); }
    case _ =>
  }

  lemma {:induction false} ClockForward<T>(s: Sched<T>, es: seq<Event<T>>)
    requires Good(s)
    ensures s.now <= Run(s, es).now
    decreases |es|
  {
    hide Step;
    if es != [] {
      EventClock(s, es[0]);
      ClockForward(Step(s, es[0]), es[1..]);
    }
  }

  /** One event keeps a sleeper asleep, or reaches its deadline and wakes it, or is its explicit wake. */
  lemma EventSleeper<T>(s: Sched<T>, e: Event<T>, t: T)
    requires Good(s) && t in s.sleepers && e != Rouse(t)
    ensures s.now <= Step(s, e).now
    ensures var d := s.info[t].wake; if Step(s, e).now < d then Asleep(Step(s, e), t, d) else Awake(Step(s, e), t)
  {
    assert TaskOk(s, s.now, t);
    match e
    case TickOnly(at) => if s.now <= at { TickSleeper(s, at, t); TickClock(s, at); }
    case Timer(at) =>
      if s.now <= at {
        TickSleeper(s, at, t);
        TickClock(s, at);
        TickValid(s, at);
        SelectSleeper(Tick(s, at), false, t);
        SelectClock(Tick(s, at), false);
      } else {
        SelectSleeper(s, false, t);
        SelectClock(s, false);
      }
    case Choose(force) => SelectSleeper(s, force, t); SelectClock(s, force);
    case _ =>
  }

  lemma TickClock<T>(s: Sched<T>, at: nat)
    requires Good(s) && s.now <= at
    ensures Tick(s, at).now == at
  {
    ChargedKeeps(s, at);
    var k := TickWakes(s, at);
  }

  lemma SelectClock<T>(s: Sched<T>, force: bool)
    requires Good(s)
    ensures Select(s, force).now == s.now
  {
  }

  /**
    A sleeper that nobody wakes stays asleep, deadline unchanged, until the event that carries the clock to its
    deadline, and that very event makes it READY (or lets it run at once).
  */
  lemma {:induction false} NoLostWakeup<T>(s: Sched<T>, es: seq<Event<T>>, t: T)
    requires Good(s) && t in s.sleepers && Rouse(t) !in es
    ensures var d := s.info[t].wake;
      if Run(s, es).now < d then Asleep(Run(s, es), t, d) else exists n | 0 < n <= |es| :: WokenBy(s, es, n, t, d)
    decreases |es|
  {
    hide Step, Run, WokenBy, Good, Asleep;
    SleeperWaits(s, t);
    var d := s.info[t].wake;
    if es == [] {
      RunNothing(s, es);
    } else {
      var s', rest := Step(s, es[0]), es[1..];
      EventSleeper(s, es[0], t);
      assert Run(s, es) == Run(s', rest) by { RunFirst(s, es); }
      if s'.now < d {
        StillListed(s', t, d);
        NoLostWakeup(s', rest, t);
        if d <= Run(s, es).now {
          var n :| 0 < n <= |rest| && WokenBy(s', rest, n, t, d);
          WokenLater(s, es, n, t, d);
        }
      } else {
        WokenNow(s, es, t, d);
        ClockForward(s', rest);
      }
    }
  }

  /** Event `n` carries the clock to the deadline and wakes the task, which slept until then. */
  ghost predicate WokenBy<T>(s: Sched<T>, es: seq<Event<T>>, n: nat, t: T, d: nat)
    requires Good(s) && 0 < n <= |es|
  {
    Asleep(Run(s, es[..n - 1]), t, d) && Run(s, es[..n - 1]).now < d <= Run(s, es[..n]).now && Awake(Run(s, es[..n]), t)
  }

  lemma RunFirst<T>(s: Sched<T>, es: seq<Event<T>>)
    requires Good(s) && es != []
    ensures Run(s, es) == Run(Step(s, es[0]), es[1..])
  {
    hide Step;
  }

  lemma RunNothing<T>(s: Sched<T>, es: seq<Event<T>>)
    requires Good(s) && es == []
    ensures Run(s, es) == s
  {
  }

  lemma SleeperWaits<T>(s: Sched<T>, t: T)
    requires Good(s) && t in s.sleepers
    ensures t in s.info && s.now < s.info[t].wake && Asleep(s, t, s.info[t].wake)
  {
    assert TaskOk(s, s.now, t);
  }

  lemma StillListed<T>(s: Sched<T>, t: T, d: nat)
    requires Good(s) && Asleep(s, t, d)
    ensures t in s.sleepers && s.info[t].wake == d
  {
    assert TaskOk(s, s.now, t);
  }

  lemma WokenLater<T>(s: Sched<T>, es: seq<Event<T>>, n: nat, t: T, d: nat)
    requires Good(s) && es != [] && 0 < n <= |es| - 1 && WokenBy(Step(s, es[0]), es[1..], n, t, d)
    ensures WokenBy(s, es, n + 1, t, d)
  {
    hide Step, Good, Run, Asleep, Awake;
    RunCons(s, es, n - 1);
    RunCons(s, es, n);
  }

  lemma WokenNow<T>(s: Sched<T>, es: seq<Event<T>>, t: T, d: nat)
    requires Good(s) && es != [] && Asleep(s, t, d) && s.now < d <= Step(s, es[0]).now && Awake(Step(s, es[0]), t)
    ensures WokenBy(s, es, 1, t, d)
  {
    hide Step, Good, Asleep, Awake;
    RunCons(s, es, 0);
    assert es[..0] == [];
  }

  /** A new sleeper queues behind every equal or earlier deadline and ahead of every later one. */
  lemma SleepersByDeadline<T>(s: Sched<T>, delay: nat) returns (k: nat)
    requires Good(s) && CanWait(s) && 0 < delay <= UINT64_MAX - s.now
    ensures k <= |s.sleepers|
    ensures Step(s, Doze(delay)).sleepers == s.sleepers[..k] + [s.current] + s.sleepers[k..]
    ensures forall i | 0 <= i < k :: s.info[s.sleepers[i]].wake <= s.now + delay
    ensures forall i | k <= i < |s.sleepers| :: s.now + delay < s.info[s.sleepers[i]].wake
  {
    SlotSplits(s, s.now + delay, 0);
    k := Slot(s, s.now + delay, 0);
  }

  // ---------------------------------------------------------------- identities

  /** Whoever is registered after an event either already was, under the same id, or got an id never given out. */
  ghost predicate KnownOrNew<T>(s: Sched<T>, s': Sched<T>) {
    && s.nextId <= s'.nextId
    && forall u | u in s'.info :: (u in s.info && s.info[u].id == s'.info[u].id) || s.nextId <= s'.info[u].id
  }

  lemma TickIds<T>(s: Sched<T>, at: nat)
    requires Good(s) && s.now <= at
    ensures Good(Tick(s, at)) && KnownOrNew(s, Tick(s, at)) && KnownOrNew(s, Select(Tick(s, at), false))
  {
    ChargedKeeps(s, at);
    var k := TickWakes(s, at);
    TickValid(s, at);
    SelectIds(Tick(s, at), false);
  }

  lemma SelectIds<T>(s: Sched<T>, force: bool)
    requires Good(s)
    ensures KnownOrNew(s, Select(s, force))
  {
  }

  lemma EventIds<T>(s: Sched<T>, e: Event<T>)
    requires Good(s)
    ensures KnownOrNew(s, Step(s, e))
  {
    match e
    case TickOnly(at) => if s.now <= at { TickIds(s, at); }
    case Timer(at) => if s.now <= at { TickIds(s, at); } else { SelectIds(s, false); }
    case Choose(force) => SelectIds(s, force);
    case _ =>
  }

  lemma {:induction false} RunIds<T>(s: Sched<T>, es: seq<Event<T>>)
    requires Good(s)
    ensures KnownOrNew(s, Run(s, es))
    decreases |es|
  {
    hide Step;
    if es != [] {
      EventIds(s, es[0]);
      RunIds(Step(s, es[0]), es[1..]);
    }
  }

  /** Ids are never reused: an id given out before and held by nobody is never held again, and a held one stays with its task. */
  lemma IdsNeverReused<T>(s: Sched<T>, es: seq<Event<T>>, u: T)
    requires Good(s) && u in Run(s, es).info && Run(s, es).info[u].id < s.nextId
    ensures u in s.info && s.info[u].id == Run(s, es).info[u].id
  {
    RunIds(s, es);
  }

  /** Once a task is gone, so is its id, for all time. */
  lemma IdsGone<T>(s: Sched<T>, es: seq<Event<T>>, fs: seq<Event<T>>, t: T, u: T)
    requires Good(s) && t in s.info && u in Run(Run(s, es), fs).info
    requires forall v | v in Run(s, es).info :: Run(s, es).info[v].id != s.info[t].id
    ensures Run(Run(s, es), fs).info[u].id != s.info[t].id
  {
    RunIds(s, es);
    assert TaskOk(s, s.now, t);
    if Run(Run(s, es), fs).info[u].id == s.info[t].id { IdsNeverReused(Run(s, es), fs, u); }
  }
}
