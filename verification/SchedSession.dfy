/**
  Whole runs of the implementation: a core driven by any sequence of events stays well-formed and shows exactly the
  run of the policy, so what holds of every run of the policy holds of the linked lists.
*/
module SchedSession {
  import opened SchedSpec
  import opened SchedInvariant
  import opened SchedNodes
  import opened SchedImage
  import opened SchedCore
  import opened SchedRuns
  import opened SchedLaws

  ghost predicate Ready(core: Core)
    reads core
  {
    WellFormed(core.Img()) && Good(View(core.Img()))
  }

  /** A core fresh from `Init` starts a run, at the beginning of the bootstrap task's first turn, with nobody waiting. */
  lemma FreshGood(idle: Ref, bootstrap: Ref, quantum: nat, now: nat)
    requires idle != bootstrap && quantum != 0
    ensures var s := Fresh(idle, bootstrap, quantum, now);
      && Good(s) && MidTurn(s, bootstrap, quantum) && Preemptible(s) && s.idle == idle && s.now == now && s.quantum == quantum
      && Line(s) == [bootstrap] && s.sleepers == [] && s.info.Keys == {idle, bootstrap} && s.nextId == 2
      && s.ticks == s.switches == s.info[idle].runTicks == s.info[bootstrap].runTicks == 0
  {
    var s := Fresh(idle, bootstrap, quantum, now);
    assert s.info.Keys == {idle, bootstrap};
    assert TaskOk(s, s.now, idle) && TaskOk(s, s.now, bootstrap);
  }

  /** What a view says about the current node. */
  lemma ViewCurrent(g: Image)
    requires WellFormed(g)
    ensures View(g).current == g.current && View(g).now == g.now && View(g).idle == g.idle
    ensures g.current in View(g).info && View(g).info[g.current] == InfoOf(At(g.mem, g.current))
  {
    var q, z :| Rep(g, q, z);
    ViewIs(g, q, z);
    TableAt(g.mem, Tasks(g.slots), g.current);
  }

  lemma OwnedHere(g: Image, t: Ref)
    requires WellFormed(g) && t in View(g).info
    ensures t != NULL && At(g.mem, t).owner != NULL
  {
    var q, z :| Rep(g, q, z);
    ViewIs(g, q, z);
  }

  /** An addition the core refuses: no node, a node that has an owner, or no room. */
  ghost predicate Refuses(g: Image, e: Event<Ref>)
    requires WellFormed(g)
  {
    e.Join? && (e.t == NULL || At(g.mem, e.t).owner != NULL || !CanAdd(View(g)))
  }

  /** One event on the core is one step of the policy, unless it is an addition the core refuses. */
  method Play(core: Core, e: Event<Ref>) returns (taken: bool)
    requires Ready(core)
    modifies core
    ensures Ready(core)
    ensures !taken ==> unchanged(core) && e.Join? && Refuses(old(core.Img()), e)
    ensures taken ==> View(core.Img()) == Step(View(old(core.Img())), e)
  {
    hide WellFormed, Valid, View, Core.Img, Nudged, Tick, Select, Sleep, Park, SchedSpec.Wake, Remove, Add, SetDepth;
    ghost var g := core.Img();
    ViewCurrent(g);
    assert g == Image(core.self, core.mem, core.slots, core.taskCount, core.current, core.idle, core.readyHead,
                      core.readyTail, core.sleepHead, core.now, core.nextId, core.ticks, core.switches,
                      core.quantumTicks, core.reschedule, core.initialized) by { ImgIs(core); }
    taken := true;
    match e {
      case TickOnly(at) => var ok := core.Tick(at);
      case Timer(at) =>
        var ok := core.Tick(at);
        var next := core.Select(false);
      case Choose(force) => var next := core.Select(force);
      case Join(t) =>
        ghost var s := View(g);
        if t in s.info { OwnedHere(g, t); }
        taken := core.Add(t);
      case Doze(delay) => var ok := core.SleepCurrent(delay);
      case Halt => var ok := core.BlockCurrent();
      case Quit => var ok := core.ExitCurrent();
      case Rouse(t) => var ok := core.Wake(t);
      case Reap(t) => var ok := core.RemoveZombie(t);
      case PreemptOff => var ok := core.PreemptDisable();
      case PreemptOn => var ok := core.PreemptEnable();
    }
    assert Good(Step(View(g), e));
    assert !taken ==> core.Img() == g;
  }

  lemma ImgIs(core: Core)
    ensures core.Img() == Image(core.self, core.mem, core.slots, core.taskCount, core.current, core.idle, core.readyHead,
                      core.readyTail, core.sleepHead, core.now, core.nextId, core.ticks, core.switches,
                      core.quantumTicks, core.reschedule, core.initialized)
  {
  }

  // ---------------------------------------------------------------- the run, event by event

  /** The clock after an event. */
  function NowAfter(now: nat, e: Event<Ref>): nat {
    match e
    case TickOnly(at) => if now <= at then at else now
    case Timer(at) => if now <= at then at else now
    case _ => now
  }

  lemma StepClock(s: Sched<Ref>, e: Event<Ref>)
    requires Good(s)
    ensures Step(s, e).now == NowAfter(s.now, e)
  {
    match e
    case TickOnly(at) => if s.now <= at { TickClock(s, at); }
    case Timer(at) => if s.now <= at { TickClock(s, at); TickValid(s, at); }
    case _ =>
  }

  /** Preemption stays enabled, and every timer interrupt brings a clock that has not gone back. */
  ghost predicate Steady(now: nat, events: seq<Event<Ref>>)
    decreases |events|
  {
    events == [] || (!Preempts(events[0]) && (events[0].Timer? ==> now <= events[0].at) && Steady(NowAfter(now, events[0]), events[1..]))
  }

  lemma {:induction false} RegularSnoc(s: Sched<Ref>, es: seq<Event<Ref>>, e: Event<Ref>)
    requires Good(s) && Regular(s, es) && !Preempts(e) && (e.Timer? ==> Run(s, es).now <= e.at)
    ensures Regular(s, es + [e])
    decreases |es|
  {
    hide Good, Step;
    if es != [] {
      assert (es + [e])[1..] == es[1..] + [e];
      RegularSnoc(Step(s, es[0]), es[1..], e);
    } else {
      assert (es + [e])[1..] == [];
    }
  }

  lemma {:induction false} TimersSnoc(es: seq<Event<Ref>>, e: Event<Ref>)
    ensures Timers(es + [e]) == Timers(es) + if e.Timer? then 1 else 0
    decreases |es|
  {
    if es != [] {
      assert (es + [e])[1..] == es[1..] + [e];
      TimersSnoc(es[1..], e);
    } else {
      assert (es + [e])[1..] == [];
    }
  }

  /**
    Event `j` takes the core from `images[j]` to `images[j + 1]`, the policy's states after `marks[j]` and `marks[j + 1]`
    events: it is the next event of the policy's run, or an addition the core refuses. `current` and `state` are what the
    core was running then.
  */
  ghost predicate TrackedAt(s: Sched<Ref>, events: seq<Event<Ref>>, taken: seq<Event<Ref>>, marks: seq<nat>, images: seq<Image>, current: Ref, state: State, j: nat)
    requires Good(s) && j + 1 < |marks| && j < |events| && j + 1 < |images|
  {
    && marks[j] <= marks[j + 1] <= |taken| && WellFormed(images[j]) && WellFormed(images[j + 1])
    && View(images[j + 1]) == Run(s, taken[..marks[j + 1]]) && Timers(taken[..marks[j + 1]]) == Timers(events[..j + 1])
    && current == images[j + 1].current && state == At(images[j + 1].mem, current).state
    && (if marks[j + 1] == marks[j] then images[j + 1] == images[j] && Refuses(images[j], events[j])
        else marks[j + 1] == marks[j] + 1 && taken[marks[j]] == events[j])
  }

  ghost predicate Tracked(s: Sched<Ref>, events: seq<Event<Ref>>, taken: seq<Event<Ref>>, marks: seq<nat>, images: seq<Image>, currents: seq<Ref>, states: seq<State>)
    requires Good(s)
  {
    && |marks| == |images| == |currents| + 1 && |states| == |currents| <= |events| && marks[0] == 0 && marks[|currents|] == |taken|
    && forall j {:trigger TrackedAt(s, events, taken, marks, images, currents[j], states[j], j)} | 0 <= j < |currents| ::
      TrackedAt(s, events, taken, marks, images, currents[j], states[j], j)
  }

  lemma TrackMore(s: Sched<Ref>, events: seq<Event<Ref>>, taken: seq<Event<Ref>>, taken': seq<Event<Ref>>, marks: seq<nat>, images: seq<Image>,
                  currents: seq<Ref>, states: seq<State>, g: Image)
    requires Good(s) && Tracked(s, events, taken, marks, images, currents, states) && |currents| < |events| && WellFormed(g) && WellFormed(images[|currents|])
    requires taken' == taken + [events[|currents|]] || (taken' == taken && g == images[|currents|] && Refuses(g, events[|currents|]))
    requires View(g) == Run(s, taken') && Timers(taken') == Timers(events[..|currents| + 1])
    ensures Tracked(s, events, taken', marks + [|taken'|], images + [g], currents + [g.current], states + [At(g.mem, g.current).state])
  {
    hide Good, Run, Timers, WellFormed, View, Refuses;
    var k, ms, gs, cs, ts := |currents|, marks + [|taken'|], images + [g], currents + [g.current], states + [At(g.mem, g.current).state];
    assert taken'[..|taken'|] == taken';
    forall j {:trigger TrackedAt(s, events, taken', ms, gs, cs[j], ts[j], j)} | 0 <= j < |cs| ensures TrackedAt(s, events, taken', ms, gs, cs[j], ts[j], j) {
      if j < k {
        assert TrackedAt(s, events, taken, marks, images, currents[j], states[j], j);
        assert taken'[..marks[j + 1]] == taken[..marks[j + 1]];
      }
    }
  }

  /** Any sequence of events leaves the core well-formed, at the end of the policy's run, having run what the policy ran. */
  method Drive(core: Core, events: seq<Event<Ref>>)
    returns (currents: seq<Ref>, states: seq<State>, ghost taken: seq<Event<Ref>>, ghost marks: seq<nat>, ghost images: seq<Image>)
    requires Ready(core)
    modifies core
    ensures Ready(core) && |currents| == |states| == |events| && |images| == |events| + 1
    ensures images[0] == old(core.Img()) && images[|events|] == core.Img() && View(core.Img()) == Run(View(old(core.Img())), taken)
    ensures Tracked(View(old(core.Img())), events, taken, marks, images, currents, states) && Timers(taken) == Timers(events)
    ensures Steady(View(old(core.Img())).now, events) ==> Regular(View(old(core.Img())), taken)
    ensures forall e | e in taken :: e in events
  {
    hide WellFormed, Good, View, Core.Img, Step, Run, Tracked, Timers, Regular, Steady, Refuses;
    currents, states, taken, marks, images := [], [], [], [0], [core.Img()];
    ghost var s := View(core.Img());
    StartRun(s, core.Img(), events);
    for k := 0 to |events|
      invariant Ready(core) && View(core.Img()) == Run(s, taken) && |currents| == |states| == k
      invariant forall e | e in taken :: e in events
      invariant |images| == k + 1 && images[0] == old(core.Img()) && images[k] == core.Img()
      invariant Tracked(s, events, taken, marks, images, currents, states) && Timers(taken) == Timers(events[..k])
      invariant Steady(s.now, events) ==> Regular(s, taken) && Steady(View(core.Img()).now, events[k..])
    {
      ghost var g := core.Img();
      var played := Play(core, events[k]);
      if !played { assert core.Img() == g; }
      ghost var after := if played then taken + [events[k]] else taken;
      NextEvent(s, View(g), events, k, taken, after, played);
      TrackMore(s, events, taken, after, marks, images, currents, states, core.Img());
      ImgIs(core);
      currents, states := currents + [core.current], states + [At(core.mem, core.current).state];
      taken, marks, images := after, marks + [|after|], images + [core.Img()];
    }
    assert events[..|events|] == events;
  }

  lemma StartRun(s: Sched<Ref>, g: Image, events: seq<Event<Ref>>)
    requires Good(s)
    ensures Run(s, []) == s && Tracked(s, events, [], [0], [g], [], []) && Timers<Ref>([]) == 0 && Regular(s, [])
    ensures Timers(events[..0]) == 0 && events[0..] == events
  {
  }

  /** One more event, taken or refused. */
  lemma NextEvent(s: Sched<Ref>, before: Sched<Ref>, events: seq<Event<Ref>>, k: nat, taken: seq<Event<Ref>>, after: seq<Event<Ref>>, played: bool)
    requires Good(s) && k < |events| && before == Run(s, taken) && Timers(taken) == Timers(events[..k])
    requires after == (if played then taken + [events[k]] else taken) && (!played ==> events[k].Join?)
    ensures Timers(after) == Timers(events[..k + 1]) && (played ==> Run(s, after) == Step(before, events[k]))
    ensures Regular(s, taken) && Steady(before.now, events[k..]) ==>
      Regular(s, after) && Steady((if played then Step(before, events[k]) else before).now, events[k + 1..])
  {
    hide Good, Step, Run, Regular;
    var e := events[k];
    assert events[..k + 1][..k] == events[..k] && events[..k + 1] == events[..k] + [e];
    TimersSnoc(events[..k], e);
    assert events[k..][1..] == events[k + 1..] && events[k..][0] == e;
    if played {
      RunLast(s, taken, e);
      assert after[..|taken|] == taken;
      TimersSnoc(taken, e);
      StepClock(before, e);
      if Regular(s, taken) && Steady(before.now, events[k..]) { RegularSnoc(s, taken, e); }
    }
  }

  /** Every length a run passes through is reached by some event. */
  lemma {:induction false} Reached(marks: seq<nat>, n: nat) returns (j: nat)
    requires |marks| > 0 && marks[0] == 0 && 0 < n <= marks[|marks| - 1] && forall j | 0 <= j < |marks| - 1 :: marks[j + 1] <= marks[j] + 1
    ensures j + 1 < |marks| && marks[j + 1] == n
    decreases |marks|
  {
    j := |marks| - 2;
    if marks[|marks| - 1] != n { j := Reached(marks[..|marks| - 1], n); }
  }

  /**
    Bounded waiting on the linked lists: the task at position k of the READY queue is what the core is running at some
    event within (k + 1) quanta of timer interrupts.
  */
  method Serve(core: Core, events: seq<Event<Ref>>, ghost k: nat) returns (currents: seq<Ref>, states: seq<State>, ghost i: nat)
    requires Ready(core) && k < |View(core.Img()).ready| && Preemptible(View(core.Img()))
    requires Steady(View(core.Img()).now, events) && (k + 1) * View(core.Img()).quantum <= Timers(events)
    modifies core
    ensures Ready(core) && |currents| == |states| == |events|
    ensures i < |events| && currents[i] == old(View(core.Img()).ready[k]) && states[i] == Running
    ensures Timers(events[..i + 1]) <= (k + 1) * old(View(core.Img()).quantum)
  {
    hide WellFormed, Good, View, Core.Img, Run, Timers, Regular, Steady, Preemptible, TrackedAt;
    ghost var s, taken, marks, images := View(core.Img()), [], [], [];
    currents, states, taken, marks, images := Drive(core, events);
    ghost var n := BoundedWaiting(s, taken, k);
    i := Served(s, events, taken, marks, images, currents, states, k, n);
  }

  lemma Served(s: Sched<Ref>, events: seq<Event<Ref>>, taken: seq<Event<Ref>>, marks: seq<nat>, images: seq<Image>, currents: seq<Ref>, states: seq<State>,
               k: nat, n: nat)
    returns (i: nat)
    requires Good(s) && Tracked(s, events, taken, marks, images, currents, states) && k < |s.ready|
    requires n <= |taken| && Runs(Run(s, taken[..n]), s.ready[k]) && Timers(taken[..n]) <= (k + 1) * s.quantum
    ensures i < |currents| <= |events| && currents[i] == s.ready[k] && states[i] == Running && Timers(events[..i + 1]) <= (k + 1) * s.quantum
  {
    hide Run, Timers, Good, View, WellFormed, Refuses;
    if n == 0 { StillWaiting(s, taken, k); }
    forall j | 0 <= j < |marks| - 1 ensures marks[j + 1] <= marks[j] + 1 { assert TrackedAt(s, events, taken, marks, images, currents[j], states[j], j); }
    i := Reached(marks, n);
    assert TrackedAt(s, events, taken, marks, images, currents[i], states[i], i);
    ViewCurrent(images[i + 1]);
  }

  lemma StillWaiting(s: Sched<Ref>, taken: seq<Event<Ref>>, k: nat)
    requires Good(s) && k < |s.ready|
    ensures !Runs(Run(s, taken[..0]), s.ready[k])
  {
    assert taken[..0] == [];
    WaitingIsNotRunning(s, k);
  }

  /** A task in the queue is not running. */
  lemma WaitingIsNotRunning(s: Sched<Ref>, k: nat)
    requires Good(s) && k < |s.ready|
    ensures Run(s, []) == s && !Runs(s, s.ready[k])
  {
    assert TaskOk(s, s.now, s.ready[k]) && TaskOk(s, s.now, s.current);
  }

  /** A core that wakes a task is running it at some event within a quantum for each task ahead of it and one more. */
  method Awaken(core: Core, task: Ref, events: seq<Event<Ref>>) returns (ok: bool, currents: seq<Ref>, states: seq<State>, ghost i: nat)
    requires Ready(core) && Preemptible(View(core.Img()))
    requires Steady(View(core.Img()).now, events) && (|View(core.Img()).ready| + 1) * View(core.Img()).quantum <= Timers(events)
    modifies core
    ensures ok <==> CanWake(View(old(core.Img())), task)
    ensures !ok ==> unchanged(core)
    ensures ok ==> Ready(core) && |currents| == |states| == |events| && i < |events| && currents[i] == task && states[i] == Running
    ensures ok ==> Timers(events[..i + 1]) <= (|old(View(core.Img())).ready| + 1) * old(View(core.Img())).quantum
  {
    hide WellFormed, Good, View, Core.Img, Timers, Steady, CanWake, SchedSpec.Wake;
    ghost var s := View(core.Img());
    currents, states, i := [], [], 0;
    ok := core.Wake(task);
    if ok {
      WokenWaits(s, task);
      currents, states, i := Serve(core, events, |s.ready|);
    }
  }

  lemma WokenWaits(s: Sched<Ref>, t: Ref)
    requires Good(s) && CanWake(s, t) && Preemptible(s)
    ensures var s' := SchedSpec.Wake(s, t);
      Good(s') && s'.ready == s.ready + [t] && s'.now == s.now && s'.quantum == s.quantum && Preemptible(s')
  {
    assert SchedSpec.Wake(s, t) == Step(s, Rouse(t));
    var a, b := RouseLaw(s, t);
  }

  /** A core whose current task blocks does not run it at any event, unless somebody rouses it. */
  method Suspend(core: Core, events: seq<Event<Ref>>) returns (ok: bool, currents: seq<Ref>, states: seq<State>)
    requires Ready(core)
    modifies core
    ensures ok <==> CanWait(View(old(core.Img())))
    ensures !ok ==> unchanged(core)
    ensures ok ==> Ready(core) && |currents| == |states| == |events|
    ensures ok && Rouse(old(core.current)) !in events ==> forall j | 0 <= j < |events| :: currents[j] == old(core.current) ==> states[j] == Blocked
  {
    hide WellFormed, Good, View, Core.Img, Timers, Steady, Park, Regular, Run, Tracked;
    ghost var s, t := View(core.Img()), core.current;
    ViewCurrent(core.Img());
    ImgIs(core);
    currents, states := [], [];
    ok := core.BlockCurrent();
    if ok {
      ParkedHere(s, t);
      ghost var taken, marks, images;
      currents, states, taken, marks, images := Drive(core, events);
      if Rouse(t) !in events { StaysParked(Park(s, Blocked), events, taken, marks, images, currents, states, t); }
    }
  }

  lemma ParkedHere(s: Sched<Ref>, t: Ref)
    requires Good(s) && CanWait(s)
    ensures s.current == t ==> Good(Park(s, Blocked)) && t in Park(s, Blocked).info && Park(s, Blocked).info[t].state == Blocked
  {
    ParkValid(s, Blocked);
  }

  lemma StaysParked(s: Sched<Ref>, events: seq<Event<Ref>>, taken: seq<Event<Ref>>, marks: seq<nat>, images: seq<Image>,
                    currents: seq<Ref>, states: seq<State>, t: Ref)
    requires Good(s) && t in s.info && s.info[t].state == Blocked && Rouse(t) !in taken
    requires Tracked(s, events, taken, marks, images, currents, states)
    ensures forall j | 0 <= j < |currents| :: currents[j] == t ==> states[j] == Blocked
  {
    hide Good, Run, View, WellFormed, Timers, Refuses;
    forall j | 0 <= j < |currents| ensures currents[j] == t ==> states[j] == Blocked {
      assert TrackedAt(s, events, taken, marks, images, currents[j], states[j], j);
      BlockedUntilRoused(s, taken[..marks[j + 1]], t);
      ViewCurrent(images[j + 1]);
    }
  }

  /** From birth: a core that `Init` accepts goes through the policy's run from the fresh state, whatever happens. */
  method Lifetime(core: Core, idleTask: Ref, bootstrap: Ref, quantum: nat, time: nat, events: seq<Event<Ref>>)
    returns (born: bool, currents: seq<Ref>, states: seq<State>, ghost taken: seq<Event<Ref>>, ghost marks: seq<nat>, ghost images: seq<Image>)
    modifies core
    ensures born <==> && core.self != NULL && !old(core.initialized) && idleTask != NULL && bootstrap != NULL && idleTask != bootstrap
                      && At(old(core.mem), idleTask).owner == NULL && At(old(core.mem), bootstrap).owner == NULL && quantum != 0
    ensures !born ==> unchanged(core)
    ensures born ==> Ready(core) && Good(Fresh(idleTask, bootstrap, quantum, time)) && View(core.Img()) == Run(Fresh(idleTask, bootstrap, quantum, time), taken)
    ensures born ==> Tracked(Fresh(idleTask, bootstrap, quantum, time), events, taken, marks, images, currents, states) && |currents| == |events|
  {
    hide WellFormed, Good, View, Core.Img, Run, Tracked, Fresh, Timers, Regular, Steady;
    currents, states, taken, marks, images := [], [], [], [], [];
    born := core.Init(idleTask, bootstrap, quantum, time);
    if born {
      FreshGood(idleTask, bootstrap, quantum, time);
      currents, states, taken, marks, images := Drive(core, events);
    }
  }
}
