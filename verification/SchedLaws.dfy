/**
  What each operation of the scheduling policy does to the queues and to every task, told without the operation's own
  steps, and what that makes of a task over whole runs: why its state changes, when it runs, when it cannot.
*/
module SchedLaws {
  import opened SchedSpec
  import opened SchedInvariant
  import opened SchedRuns

  // ---------------------------------------------------------------- one operation

  /** Whether the current task holds the processor and is one that queues. */
  ghost predicate Busy<T>(s: Sched<T>)
    requires s.current in s.info
  {
    s.info[s.current].state == Running && s.current != s.idle
  }

  /**
    Waking succeeds exactly on a blocked or sleeping task. It joins READY at the tail, leaves the sleepers, whose order
    stays, and nothing else is known differently but that the processor may have to switch.
  */
  lemma RouseLaw<T>(s: Sched<T>, t: T) returns (a: seq<T>, b: seq<T>)
    requires Good(s)
    ensures !(t in s.info && s.info[t].state in {Blocked, Sleeping}) ==> Step(s, Rouse(t)) == s
    ensures t in s.info && s.info[t].state in {Blocked, Sleeping} ==>
      && s.sleepers == a + (if s.info[t].state == Sleeping then [t] else []) + b && t !in a + b && t !in s.ready
      && Step(s, Rouse(t)) == s.(ready := s.ready + [t], sleepers := a + b, info := s.info[t := s.info[t].(state := Ready, wake := 0)],
                                 resched := s.resched || !Busy(s))
  {
    a, b := s.sleepers, [];
    if CanWake(s, t) {
      assert TaskOk(s, s.now, t) && TaskOk(s, s.now, s.current);
      if s.info[t].state == Sleeping {
        var k := IndexOf(s.sleepers, t, 0);
        a, b := s.sleepers[..k], s.sleepers[k + 1..];
        assert s.sleepers == a + [t] + b;
        WithoutMembers(s.sleepers, t);
      }
      assert s.sleepers == a + (if s.info[t].state == Sleeping then [t] else []) + b;
    }
  }

  /** The tasks that take turns, first the one whose turn it is. */
  ghost function Line<T>(s: Sched<T>): seq<T>
    requires s.current in s.info
  {
    (if Busy(s) then [s.current] else []) + s.ready
  }

  /** The tasks waiting for a turn once the running one has had its own. */
  ghost function Waiters<T>(s: Sched<T>): seq<T>
    requires s.current in s.info
  {
    s.ready + if Busy(s) then [s.current] else []
  }

  /** What a switch does, whichever way it comes about. */
  ghost predicate Switched<T>(s: Sched<T>, s': Sched<T>)
    requires s.current in s.info
  {
    && s'.info.Keys == s.info.Keys && s'.current in s.info
    && Line(s') == Waiters(s) && (s'.current == s.idle <==> Waiters(s) == [])
    && s'.info[s'.current] == s.info[s'.current].(state := Running, quantumLeft := s.quantum)
    && (forall u | u in s.info && u != s'.current :: s'.info[u] == if s.info[u].state == Running then s.info[u].(state := State.Ready) else s.info[u])
    && s' == s.(ready := s'.ready, current := s'.current, info := s'.info, resched := false,
                switches := if s'.current == s.current then s.switches else Bump(s.switches))
  }

  /** With nobody running, dispatch takes the head of the queue, or idle. */
  lemma DispatchLaw<T>(b: Sched<T>)
    requires b.idle in b.info && b.idle !in b.ready && forall t | t in b.ready :: t in b.info
    ensures var s' := Dispatch(b);
      && s'.info.Keys == b.info.Keys && s'.current in b.info && Line(s') == b.ready && (s'.current == b.idle <==> b.ready == [])
      && s'.info == b.info[s'.current := b.info[s'.current].(state := Running, wake := 0, quantumLeft := b.quantum)]
      && s' == b.(ready := s'.ready, current := s'.current, info := s'.info, resched := false,
                  switches := if s'.current == b.current then b.switches else Bump(b.switches))
  {
    var s' := Dispatch(b);
    assert s'.info.Keys == b.info.Keys;
    if b.ready != [] { assert Line(s') == [b.ready[0]] + b.ready[1..]; }
  }

  /** Stepping back leaves everyone but a running task as they were. */
  lemma StepBackLaw<T>(s: Sched<T>)
    requires Good(s) && Preemptible(s)
    ensures var b := StepBack(s);
      && b.ready == Waiters(s) && b.idle !in b.ready && b.info.Keys == s.info.Keys && (forall u | u in b.ready :: u in b.info)
      && (forall u | u in s.info :: b.info[u] == (if s.info[u].state == Running then s.info[u].(state := State.Ready) else s.info[u]))
      && b == s.(ready := b.ready, info := b.info, resched := b.resched)
  {
    assert TaskOk(s, s.now, s.current) && TaskOk(s, s.now, s.idle);
    forall u | u in s.info ensures s.info[u].state == Running ==> u == s.current { assert TaskOk(s, s.now, u); }
  }

  /**
    A switch hands the processor, with a full quantum, to the first of those waiting, the running task being last of them,
    or to idle when nobody waits; it is refused exactly while preemption is off, or when nobody asks for it.
  */
  lemma SwitchLaw<T>(s: Sched<T>, force: bool)
    requires Good(s)
    ensures var i := s.info[s.current];
      if i.depth != 0 || (!force && !s.resched && i.state == Running) then Step(s, Choose(force)) == s else Switched(s, Step(s, Choose(force)))
  {
    if !Keeps(s, force) {
      StepBackLaw(s);
      DispatchLaw(StepBack(s));
      NextIsReady(s, Select(s, force).current);
      hide StepBack, Dispatch, TaskOk, Line, Waiters;
      assert Switched(s, Select(s, force));
    }
  }

  lemma NextIsReady<T>(s: Sched<T>, t: T)
    requires Good(s) && t in s.info && (t == s.idle || t in Waiters(s))
    ensures s.info[t].wake == 0 && (s.info[t].state == State.Ready || s.info[t].state == Running)
  {
    assert TaskOk(s, s.now, t);
  }

  /** A forced switch with preemption on runs the head of READY. */
  lemma HeadRuns<T>(s: Sched<T>, force: bool)
    requires Good(s) && s.ready != [] && Preemptible(s) && (force || s.resched || s.info[s.current].state != Running)
    ensures Runs(Step(s, Choose(force)), s.ready[0])
    ensures Step(s, Choose(force)).ready == s.ready[1..] + if Busy(s) then [s.current] else []
  {
    SwitchLaw(s, force);
    var s' := Step(s, Choose(force));
    assert Line(s')[0] == s.ready[0] && Line(s')[1..] == s'.ready;
  }

  /** A task that parks, which it may while it runs, is not idle and has no bracket open, keeps everything but its state, and nobody else notices. */
  lemma ParkLaw<T>(s: Sched<T>, e: Event<T>)
    requires Good(s) && (e.Halt? || e.Quit?)
    ensures CanWait(s) <==> Busy(s) && Preemptible(s)
    ensures !CanWait(s) ==> Step(s, e) == s
    ensures CanWait(s) ==> Step(s, e) == s.(info := s.info[s.current := s.info[s.current].(state := if e.Halt? then Blocked else Zombie)], resched := true)
    ensures CanWait(s) ==> s.current !in Step(s, e).ready + Step(s, e).sleepers
  {
    assert TaskOk(s, s.now, s.current);
  }

  /** A task that sleeps is due `delay` ticks from now; nobody else notices. */
  lemma DozeLaw<T>(s: Sched<T>, delay: nat)
    requires Good(s)
    ensures var s', t := Step(s, Doze(delay)), s.current;
      if !CanWait(s) || delay == 0 || s.now + delay > UINT64_MAX then s' == s
      else s' == s.(info := s.info[t := s.info[t].(state := Sleeping, wake := s.now + delay)], sleepers := s'.sleepers, resched := true)
           && t in s'.sleepers
  {
    var s' := Step(s, Doze(delay));
    if CanWait(s) && 0 < delay <= UINT64_MAX - s.now { assert TaskOk(s', s'.now, s.current); }
  }

  /** A new task queues behind all others with a full quantum and an id of its own; it is refused exactly when there is no room or no id. */
  lemma JoinLaw<T>(s: Sched<T>, t: T)
    requires Good(s)
    ensures var s' := Step(s, Join(t));
      if t in s.info || |s.info| == MAX_TASKS || s.nextId == UINT64_MAX then s' == s
      else s' == s.(info := s.info[t := Info(s.nextId, State.Ready, 0, 0, s.quantum, 0)], nextId := s.nextId + 1, ready := s.ready + [t],
                    resched := s.resched || !Busy(s))
  {
    if t !in s.info && CanAdd(s) { assert s.current != t; }
  }

  /** A zombie can be reaped once it is no longer current, and then only it is gone. */
  lemma ReapLaw<T>(s: Sched<T>, t: T)
    requires Good(s)
    ensures Step(s, Reap(t)) == if t in s.info && s.info[t].state == Zombie && t != s.current then s.(info := s.info - {t}) else s
  {
    if t in s.info { assert TaskOk(s, s.now, t); }
  }

  /** Opening and closing a bracket add and take one level; closing undoes opening. */
  lemma BracketLaw<T>(s: Sched<T>)
    requires Good(s)
    ensures var d := s.info[s.current].depth;
      if !Runs(s, s.current) then Step(s, PreemptOff) == s && Step(s, PreemptOn) == s
      else
        && (if d == 0xFFFF_FFFF then Step(s, PreemptOff) == s
            else Step(s, PreemptOff).info[s.current].depth == d + 1 && Step(Step(s, PreemptOff), PreemptOn) == s)
        && (if d == 0 then Step(s, PreemptOn) == s
            else Step(s, PreemptOn).info[s.current].depth == d - 1 && (d <= 0xFFFF_FFFF ==> Step(Step(s, PreemptOn), PreemptOff) == s))
  {
    var d := s.info[s.current].depth;
    if Runs(s, s.current) {
      if d < UINT32_MAX { assert s.info[s.current := s.info[s.current].(depth := d + 1)][s.current := s.info[s.current]] == s.info; }
      if 0 < d { assert s.info[s.current := s.info[s.current].(depth := d - 1)][s.current := s.info[s.current]] == s.info; }
    }
  }

  // ---------------------------------------------------------------- yields go round

  ghost function Yields<T>(n: nat): seq<Event<T>> { seq(n, i => Choose(true)) }

  ghost function Rotated<T>(q: seq<T>, n: nat): seq<T>
    requires n <= |q|
  {
    q[n..] + q[..n]
  }

  /**
    Round robin: with preemption on, the tasks that take turns run in the order of the queue, and after as many yields
    as there are of them everyone has run once and the queue is as it was.
  */
  lemma {:induction false} YieldsGoRound<T>(s: Sched<T>, n: nat)
    requires Good(s) && Preemptible(s) && Busy(s) && n <= |Line(s)|
    ensures var r := Run(s, Yields(n)); Busy(r) && Preemptible(r) && Line(r) == Rotated(Line(s), n)
    decreases n
  {
    hide Step, TaskOk, Queues, Ordered, SchedSpec.Select;
    if n == 0 {
      assert Yields<T>(0) == [];
      assert Rotated(Line(s), 0) == Line(s);
    } else {
      var r := Run(s, Yields(n - 1));
      YieldsGoRound(s, n - 1);
      YieldsMore(s, n - 1);
      OneYield(r);
      var q, p := Line(s), Rotated(Line(s), n - 1);
      assert p[0] == q[n - 1];
      assert p[1..] + [p[0]] == Rotated(q, n);
    }
  }

  lemma OneYield<T>(s: Sched<T>)
    requires Good(s) && Preemptible(s) && Busy(s)
    ensures var r := Step(s, Choose(true)); Busy(r) && Preemptible(r) && Line(r) == Line(s)[1..] + [Line(s)[0]]
  {
    hide SchedSpec.Select;
    SwitchLaw(s, true);
    var r := Step(s, Choose(true));
    assert Line(s)[1..] == s.ready;
    assert r.current in s.ready || r.current == s.current by { assert Line(r)[0] == Waiters(s)[0]; }
    assert TaskOk(s, s.now, r.current);
  }

  lemma YieldsMore<T>(s: Sched<T>, n: nat)
    requires Good(s)
    ensures Run(s, Yields(n + 1)) == Step(Run(s, Yields(n)), Choose(true))
  {
    hide Step, Good;
    assert Yields<T>(n + 1) == Yields(n) + [Choose(true)];
    RunLast(s, Yields(n), Choose(true));
  }

  lemma {:induction false} RunLast<T>(s: Sched<T>, es: seq<Event<T>>, e: Event<T>)
    requires Good(s)
    ensures Run(s, es + [e]) == Step(Run(s, es), e)
    decreases |es|
  {
    hide Good, Step;
    if es != [] {
      assert (es + [e])[1..] == es[1..] + [e];
      RunLast(Step(s, es[0]), es[1..], e);
    } else {
      assert Run(Step(s, e), []) == Step(s, e);
      assert (es + [e])[1..] == [];
    }
  }

  // ---------------------------------------------------------------- why a task's state changes

  /** The life of a task: which event takes it from one state to another; `due` says the clock has reached its deadline. */
  ghost predicate MayMove<T>(e: Event<T>, t: T, from: State, to: State, due: bool) {
    match from
    case Running => (to == State.Ready && (e.Timer? || e.Choose?)) || (to == Blocked && e.Halt?) || (to == Sleeping && e.Doze?) || (to == Zombie && e.Quit?)
    case Ready => to == Running && (e.Timer? || e.Choose?)
    case Blocked => to == State.Ready && e == Rouse(t)
    case Sleeping => (to == State.Ready && (e == Rouse(t) || due)) || (to == Running && due && e.Timer?)
    case Zombie => false
  }

  ghost predicate Moved<T>(s: Sched<T>, s': Sched<T>, e: Event<T>, t: T)
    requires t in s.info
  {
    if t in s'.info then s'.info[t].id == s.info[t].id && (s'.info[t].state == s.info[t].state || MayMove(e, t, s.info[t].state, s'.info[t].state, s.info[t].wake <= s'.now))
    else e == Reap(t) && s.info[t].state == Zombie && t != s.current
  }

  lemma TickMoves<T>(s: Sched<T>, at: nat, t: T)
    requires Good(s) && s.now <= at && t in s.info
    ensures var s' := Tick(s, at);
      && t in s'.info && s'.info[t].id == s.info[t].id && s'.now == at
      && (s'.info[t].state == s.info[t].state || (s.info[t].state == Sleeping && s'.info[t].state == State.Ready && s.info[t].wake <= at))
  {
    ChargedKeeps(s, at);
    var k := TickWakes(s, at);
    assert TaskOk(s, s.now, t);
    if t in s.sleepers[..k] {
      var i :| 0 <= i < k && s.sleepers[i] == t;
    }
  }

  lemma SelectMoves<T>(s: Sched<T>, force: bool, t: T)
    requires Good(s) && t in s.info
    ensures var s' := Select(s, force);
      && t in s'.info && s'.info[t].id == s.info[t].id && s'.now == s.now
      && (s'.info[t].state == s.info[t].state || (s.info[t].state == State.Ready && s'.info[t].state == Running)
          || (s.info[t].state == Running && s'.info[t].state == State.Ready))
  {
    SwitchLaw(s, force);
    var s' := Step(s, Choose(force));
    if !Keeps(s, force) && t == s'.current {
      assert t != s.idle ==> Line(s')[0] == t && t in Waiters(s);
      NextIsReady(s, t);
    }
  }

  lemma TimerMoves<T>(s: Sched<T>, at: nat, t: T)
    requires Good(s) && t in s.info
    ensures Moved(s, Step(s, Timer(at)), Timer(at), t)
  {
    hide SchedSpec.Select, SchedSpec.Tick, TaskOk, Nudged;
    if s.now <= at {
      TickMoves(s, at, t);
      TickValid(s, at);
      SelectMoves(Tick(s, at), false, t);
    } else {
      SelectMoves(s, false, t);
    }
  }

  lemma RouseMoves<T>(s: Sched<T>, u: T, t: T)
    requires Good(s) && t in s.info
    ensures Moved(s, Step(s, Rouse(u)), Rouse(u), t)
  {
    var a, b := RouseLaw(s, u);
    hide Step, Valid, Nudged;
  }

  lemma JoinMoves<T>(s: Sched<T>, u: T, t: T)
    requires Good(s) && t in s.info
    ensures Moved(s, Step(s, Join(u)), Join(u), t)
  {
    hide TaskOk, Nudged, Queues, Ordered;
  }

  lemma DozeMoves<T>(s: Sched<T>, delay: nat, t: T)
    requires Good(s) && t in s.info
    ensures Moved(s, Step(s, Doze(delay)), Doze(delay), t)
  {
    hide TaskOk, Nudged, Queues, Ordered;
  }

  /** Every change of a task's state has its cause, and a task leaves only as a reaped zombie. */
  lemma EventMoves<T>(s: Sched<T>, e: Event<T>, t: T)
    requires Good(s) && t in s.info
    ensures Moved(s, Step(s, e), e, t)
  {
    hide SchedSpec.Select, SchedSpec.Tick, TaskOk, Nudged, SchedSpec.Wake, Queues, Ordered, SchedSpec.Sleep, SchedSpec.Add;
    match e
    case TickOnly(at) => if s.now <= at { TickMoves(s, at, t); }
    case Timer(at) => TimerMoves(s, at, t);
    case Choose(force) => SelectMoves(s, force, t);
    case Rouse(u) => RouseMoves(s, u, t);
    case Join(u) => JoinMoves(s, u, t);
    case Doze(delay) => DozeMoves(s, delay, t);
    case _ =>
  }

  // ---------------------------------------------------------------- parked tasks over whole runs

  /** A blocked task stays blocked, and so does not run, until somebody rouses it. */
  lemma {:induction false} BlockedUntilRoused<T>(s: Sched<T>, es: seq<Event<T>>, t: T)
    requires Good(s) && t in s.info && s.info[t].state == Blocked && Rouse(t) !in es
    ensures var r := Run(s, es); t in r.info && r.info[t].state == Blocked && r.info[t].id == s.info[t].id && !Runs(r, t)
    decreases |es|
  {
    hide Step, Good;
    if es != [] {
      EventMoves(s, es[0], t);
      BlockedUntilRoused(Step(s, es[0]), es[1..], t);
    }
  }

  ghost predicate OnlyZombie<T>(s: Sched<T>, id: nat, t: T) {
    forall u | u in s.info && s.info[u].id == id :: u == t && s.info[u].state == Zombie
  }

  /** A task that has exited never runs again: whoever bears its id is a zombie. */
  lemma {:induction false} ZombieForGood<T>(s: Sched<T>, es: seq<Event<T>>, t: T)
    requires Good(s) && t in s.info && s.info[t].state == Zombie
    ensures OnlyZombie(Run(s, es), s.info[t].id, t)
    ensures Reap(t) !in es ==> t in Run(s, es).info && Run(s, es).info[t].id == s.info[t].id
    decreases |es|
  {
    hide Step, Good;
    var r := Run(s, es);
    if es != [] {
      var s' := Step(s, es[0]);
      EventMoves(s, es[0], t);
      if t in s'.info {
        ZombieForGood(s', es[1..], t);
        assert r == Run(s', es[1..]);
      } else {
        forall u | u in r.info ensures r.info[u].id != s.info[t].id { GoneForGood(s, es[0], es[1..], t, u); }
      }
    } else {
      forall u | u in r.info && r.info[u].id == s.info[t].id ensures u == t { OneBearer(s, t, u); }
    }
  }

  lemma OneBearer<T>(s: Sched<T>, t: T, u: T)
    requires Good(s) && t in s.info && u in s.info && s.info[u].id == s.info[t].id
    ensures u == t
  {
    assert TaskOk(s, s.now, t);
  }

  lemma GoneForGood<T>(s: Sched<T>, e: Event<T>, es: seq<Event<T>>, t: T, u: T)
    requires Good(s) && t in s.info && t !in Step(s, e).info && u in Run(Step(s, e), es).info
    ensures Run(Step(s, e), es).info[u].id != s.info[t].id
  {
    hide Step, Good;
    var s' := Step(s, e);
    EventIds(s, e);
    IdGiven(s, t);
    if Run(s', es).info[u].id == s.info[t].id {
      IdsNeverReused(s', es, u);
      OneBearer(s, t, u);
      assert false;
    }
  }

  lemma IdGiven<T>(s: Sched<T>, t: T)
    requires Good(s) && t in s.info
    ensures s.info[t].id < s.nextId
  {
    assert TaskOk(s, s.now, t);
  }

  /** A task that blocks or exits does not run again before it is roused, if ever. */
  lemma ParkedDoesNotRun<T>(s: Sched<T>, e: Event<T>, es: seq<Event<T>>)
    requires Good(s) && CanWait(s) && (e.Halt? || e.Quit?)
    requires e.Halt? ==> Rouse(s.current) !in es
    requires e.Quit? ==> Reap(s.current) !in es
    ensures var r := Run(s, [e] + es);
      && !Runs(r, s.current)
      && s.current in r.info && r.info[s.current].state == (if e.Halt? then Blocked else Zombie)
  {
    hide Step, Good;
    ParkLaw(s, e);
    assert ([e] + es)[1..] == es && ([e] + es)[0] == e;
    if e.Halt? { BlockedUntilRoused(Step(s, e), es, s.current); } else { ZombieForGood(Step(s, e), es, s.current); }
  }

  /** A task that is roused runs within a quantum for each task ahead of it and one more, while preemption stays on. */
  lemma RousedRuns<T>(s: Sched<T>, t: T, es: seq<Event<T>>) returns (n: nat)
    requires Good(s) && CanWake(s, t) && Preemptible(s) && Regular(Step(s, Rouse(t)), es)
    requires (|s.ready| + 1) * s.quantum <= Timers(es)
    ensures n <= |es| && Runs(Run(s, [Rouse(t)] + es[..n]), t) && Timers(es[..n]) <= (|s.ready| + 1) * s.quantum
  {
    var s' := Step(s, Rouse(t));
    var a, b := RouseLaw(s, t);
    hide Step, Good;
    n := BoundedWaiting(s', es, |s.ready|);
    assert ([Rouse(t)] + es[..n])[1..] == es[..n];
  }

  /** And so does a task that joins. */
  lemma JoinedRuns<T>(s: Sched<T>, t: T, es: seq<Event<T>>) returns (n: nat)
    requires Good(s) && t !in s.info && CanAdd(s) && Preemptible(s) && Regular(Step(s, Join(t)), es)
    requires (|s.ready| + 1) * s.quantum <= Timers(es)
    ensures n <= |es| && Runs(Run(s, [Join(t)] + es[..n]), t) && Timers(es[..n]) <= (|s.ready| + 1) * s.quantum
  {
    var s' := Step(s, Join(t));
    JoinLaw(s, t);
    hide Step, Good;
    n := BoundedWaiting(s', es, |s.ready|);
    assert ([Join(t)] + es[..n])[1..] == es[..n];
  }

  /** A task that goes to sleep for `delay` ticks, and that nobody rouses, sleeps until the clock gets there and not after. */
  lemma DozesUntilDue<T>(s: Sched<T>, delay: nat, es: seq<Event<T>>)
    requires Good(s) && CanWait(s) && 0 < delay <= UINT64_MAX - s.now && Rouse(s.current) !in es
    ensures var s', d := Step(s, Doze(delay)), s.now + delay;
      if Run(s', es).now < d then Asleep(Run(s', es), s.current, d) else exists n | 0 < n <= |es| :: WokenBy(s', es, n, s.current, d)
  {
    hide Step, Good, Run, WokenBy, Asleep, CanWait;
    var s', t := Step(s, Doze(delay)), s.current;
    assert t in s'.sleepers && t in s'.info && s'.info[t].wake == s.now + delay by { DozeLaw(s, delay); }
    NoLostWakeup(s', es, t);
  }

  // ---------------------------------------------------------------- turns and accounts

  /** An event that counts as a tick of the clock. */
  ghost predicate Ticks<T>(s: Sched<T>, e: Event<T>) { (e.TickOnly? || e.Timer?) && s.now <= e.at }

  ghost function TicksIn<T>(s: Sched<T>, es: seq<Event<T>>): nat
    requires Good(s)
    decreases |es|
  {
    if es == [] then 0 else (if Ticks(s, es[0]) then 1 else 0) + TicksIn(Step(s, es[0]), es[1..])
  }

  /** The ticks of a run that find `t` running. */
  ghost function TicksOf<T>(s: Sched<T>, es: seq<Event<T>>, t: T): nat
    requires Good(s)
    decreases |es|
  {
    if es == [] then 0 else (if Ticks(s, es[0]) && Runs(s, t) then 1 else 0) + TicksOf(Step(s, es[0]), es[1..], t)
  }

  ghost function Capped(n: nat): nat { if n <= UINT64_MAX then n else UINT64_MAX }

  ghost predicate Counted<T>(s: Sched<T>, s': Sched<T>, t: T, all: nat, own: nat)
    requires t in s.info && t in s'.info
  {
    s'.ticks == Capped(s.ticks + all) && s'.info[t].runTicks == Capped(s.info[t].runTicks + own)
  }

  ghost predicate InRange<T>(s: Sched<T>, t: T)
    requires t in s.info
  {
    s.ticks <= UINT64_MAX && s.info[t].runTicks <= UINT64_MAX
  }

  lemma TickCounts<T>(s: Sched<T>, at: nat, t: T)
    requires Good(s) && s.now <= at && t in s.info && InRange(s, t)
    ensures t in Tick(s, at).info && Counted(s, Tick(s, at), t, 1, if Runs(s, t) then 1 else 0)
  {
    ChargedKeeps(s, at);
    var k := TickWakes(s, at);
    assert TaskOk(s, s.now, t) && TaskOk(s, s.now, s.current);
    hide TaskOk, Ordered, Queues, WakeDue;
    WakeDueTicks(Charged(s, at), s.now);
  }

  lemma {:induction false} WakeDueTicks<T>(s: Sched<T>, floor: nat)
    requires ValidFrom(s, floor)
    ensures WakeDue(s).ticks == s.ticks && WakeDue(s).switches == s.switches && WakeDue(s).idle == s.idle
    ensures WakeDue(s).resched <==> s.resched || (!Busy(s) && WakeDue(s).ready != s.ready)
    ensures s.ready <= WakeDue(s).ready
    decreases |s.sleepers|
  {
    if s.sleepers != [] && s.info[s.sleepers[0]].wake <= s.now {
      var t, m := s.sleepers[0], s.(sleepers := s.sleepers[1..]);
      assert TaskOk(s, floor, t);
      HeadPushable(s, floor);
      PushValid(m, floor, t);
      WakeDueTicks(ReadyPush(m, t), floor);
    }
  }

  lemma SelectCounts<T>(s: Sched<T>, force: bool, t: T)
    requires Good(s) && t in s.info && InRange(s, t)
    ensures t in Select(s, force).info && Counted(s, Select(s, force), t, 0, 0)
  {
    SwitchLaw(s, force);
  }

  lemma EventCounts<T>(s: Sched<T>, e: Event<T>, t: T)
    requires Good(s) && t in s.info && t in Step(s, e).info && InRange(s, t)
    ensures Counted(s, Step(s, e), t, if Ticks(s, e) then 1 else 0, if Ticks(s, e) && Runs(s, t) then 1 else 0)
  {
    hide SchedSpec.Select, SchedSpec.Tick, TaskOk, Nudged, SchedSpec.Wake, Ordered, SchedSpec.Sleep, SchedSpec.Add;
    match e
    case TickOnly(at) => if s.now <= at { TickCounts(s, at, t); }
    case Timer(at) =>
      if s.now <= at {
        TickCounts(s, at, t);
        TickValid(s, at);
        SelectCounts(Tick(s, at), false, t);
      } else {
        SelectCounts(s, false, t);
      }
    case Choose(force) => SelectCounts(s, force, t);
    case Rouse(u) => var a, b := RouseLaw(s, u);
    case Join(u) => JoinLaw(s, u);
    case Doze(delay) => DozeLaw(s, delay);
    case _ =>
  }

  /** The accounts are right: the clock counter has every tick of a run, and a task's own account the ticks that found it running. */
  lemma {:induction false} AccountsBalance<T>(s: Sched<T>, es: seq<Event<T>>, t: T)
    requires Good(s) && t in s.info && InRange(s, t) && Reap(t) !in es
    ensures t in Run(s, es).info && Counted(s, Run(s, es), t, TicksIn(s, es), TicksOf(s, es, t))
    decreases |es|
  {
    hide Step, Good;
    if es != [] {
      EventMoves(s, es[0], t);
      EventCounts(s, es[0], t);
      AccountsBalance(Step(s, es[0]), es[1..], t);
    }
  }

  /** An event by which the running task gives up its turn. */
  ghost predicate Yielding<T>(e: Event<T>) { (e.Choose? && e.force) || e.Doze? || e.Halt? || e.Quit? }

  ghost predicate Willing<T>(es: seq<Event<T>>) { forall e | e in es :: !Yielding(e) }

  /** In the middle of a turn: a task runs, nobody has asked for a switch, and `left` ticks remain. */
  ghost predicate MidTurn<T>(s: Sched<T>, t: T, left: nat)
    requires s.current in s.info
  {
    s.current == t && Busy(s) && !s.resched && s.info[t].quantumLeft == left
  }

  lemma TickTurn<T>(s: Sched<T>, at: nat)
    requires Good(s) && s.now <= at && Busy(s) && !s.resched && 0 < s.info[s.current].quantumLeft
    ensures var r, left := Tick(s, at), s.info[s.current].quantumLeft - 1;
      && s.current in r.info && r.current == s.current && Busy(r) && r.info[s.current].quantumLeft == left && (r.resched <==> left == 0)
  {
    ChargedKeeps(s, at);
    var k := TickWakes(s, at);
    assert TaskOk(s, s.now, s.current);
    WakeDueTicks(Charged(s, at), s.now);
  }

  lemma EventTurn<T>(s: Sched<T>, e: Event<T>, t: T, left: nat)
    requires Good(s) && MidTurn(s, t, left) && !Yielding(e) && (if Ticks(s, e) then 1 else 0) < left
    ensures MidTurn(Step(s, e), t, left - if Ticks(s, e) then 1 else 0)
  {
    hide SchedSpec.Tick, TaskOk, Nudged, SchedSpec.Wake, Queues, Ordered, SchedSpec.Sleep, SchedSpec.Add;
    match e
    case TickOnly(at) => if s.now <= at { TickTurn(s, at); }
    case Timer(at) => if s.now <= at { TickTurn(s, at); TickValid(s, at); }
    case Rouse(u) => var a, b := RouseLaw(s, u); assert TaskOk(s, s.now, t);
    case Join(u) => JoinLaw(s, u);
    case _ =>
  }

  /** A turn is not cut short: until its quantum is used up, only the running task itself can give up the processor. */
  lemma {:induction false} FullQuantum<T>(s: Sched<T>, es: seq<Event<T>>, t: T, left: nat)
    requires Good(s) && MidTurn(s, t, left) && Willing(es) && TicksIn(s, es) < left
    ensures MidTurn(Run(s, es), t, left - TicksIn(s, es))
    decreases |es|
  {
    hide Step, Good;
    if es != [] {
      EventTurn(s, es[0], t, left);
      FullQuantum(Step(s, es[0]), es[1..], t, left - if Ticks(s, es[0]) then 1 else 0);
    }
  }

  /** And at the tick that uses it up, the next in READY takes over. */
  lemma TurnEnds<T>(s: Sched<T>, at: nat, t: T)
    requires Good(s) && MidTurn(s, t, 1) && Preemptible(s) && s.now <= at && s.ready != []
    ensures Runs(Step(s, Timer(at)), s.ready[0])
  {
    TickTurn(s, at);
    TickHeld(s, at);
    TickValid(s, at);
    HeadRuns(Tick(s, at), false);
  }

  // ---------------------------------------------------------------- preemption brackets

  /** Whether an event closes the current task's last preemption bracket. */
  ghost predicate Releases<T>(s: Sched<T>, e: Event<T>)
    requires s.current in s.info
  {
    e.PreemptOn? && s.info[s.current].depth == 1
  }

  /** Whether no event of the run closes it. */
  ghost predicate Held<T>(s: Sched<T>, es: seq<Event<T>>)
    requires Good(s)
    decreases |es|
  {
    es == [] || (!Releases(s, es[0]) && Held(Step(s, es[0]), es[1..]))
  }

  lemma EventHeld<T>(s: Sched<T>, e: Event<T>)
    requires Good(s) && Runs(s, s.current) && !Preemptible(s) && !Releases(s, e)
    ensures Runs(Step(s, e), s.current) && !Preemptible(Step(s, e)) && s.ready <= Step(s, e).ready
  {
    hide SchedSpec.Tick;
    assert TaskOk(s, s.now, s.current);
    match e
    case TickOnly(at) => if s.now <= at { TickHeld(s, at); }
    case Timer(at) => if s.now <= at { TickHeld(s, at); TickValid(s, at); }
    case Rouse(t) => var a, b := RouseLaw(s, t);
    case _ =>
  }

  lemma TickHeld<T>(s: Sched<T>, at: nat)
    requires Good(s) && Runs(s, s.current) && s.now <= at
    ensures var r := Tick(s, at); s.current == r.current && s.current in r.info && Runs(r, s.current) && r.info[s.current].depth == s.info[s.current].depth && s.ready <= r.ready
  {
    ChargedKeeps(s, at);
    var k := TickWakes(s, at);
    assert TaskOk(s, s.now, s.current);
  }

  /** Between its preemption brackets a task runs on, whatever happens: nothing takes the processor from it, nobody ahead in READY leaves. */
  lemma {:induction false} RunsWhileHeld<T>(s: Sched<T>, es: seq<Event<T>>)
    requires Good(s) && Runs(s, s.current) && !Preemptible(s) && Held(s, es)
    ensures Runs(Run(s, es), s.current) && !Preemptible(Run(s, es)) && s.ready <= Run(s, es).ready
    decreases |es|
  {
    hide Step, Good;
    if es != [] {
      EventHeld(s, es[0]);
      RunsWhileHeld(Step(s, es[0]), es[1..]);
    }
  }
}
