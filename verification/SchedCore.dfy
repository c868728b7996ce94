/**
  The intrusive implementation in kernel/core/sched_core.c: a READY FIFO with head and tail, a deadline-ordered
  sleep list and a registry of 64 slots over caller-owned nodes. Every operation first validates, refuses a core
  that is not well-formed without touching it, and otherwise refines the policy on values.
*/
module SchedCore {
  import opened SchedSpec
  import opened SchedInvariant
  import opened SchedNodes
  import opened SchedImage
  import opened SchedValidate

  ghost function RunSet(g: Image, S: set<Ref>): set<Ref> { set t | t in S && At(g.mem, t).state == Running }

  lemma ScannedSlot(g: Image, i: nat)
    requires i < 64 && SlotPass(g, i)
    ensures var S, S', t := Tasks(g.slots[..i]), Tasks(g.slots[..i + 1]), g.slots[i];
      if t == NULL then S' == S else S' == S + {t} && t !in S
  {
    assert g.slots[..i + 1] == g.slots[..i] + [g.slots[i]];
    if g.slots[i] != NULL {
      forall j | 0 <= j < i ensures g.slots[j] != g.slots[i] { assert Apart(g, j, i); }
    }
  }

  lemma OneMoreReady(g: Image, S: set<Ref>, t: Ref)
    requires t !in S
    ensures |ReadySet(g, S + {t})| == |ReadySet(g, S)| + if t != g.idle && At(g.mem, t).state == Ready then 1 else 0
  {
    if t != g.idle && At(g.mem, t).state == Ready {
      assert ReadySet(g, S + {t}) == ReadySet(g, S) + {t};
    } else {
      assert ReadySet(g, S + {t}) == ReadySet(g, S);
    }
  }

  lemma OneMoreSleeper(g: Image, S: set<Ref>, t: Ref)
    requires t !in S
    ensures |SleepSet(g, S + {t})| == |SleepSet(g, S)| + if At(g.mem, t).state == Sleeping then 1 else 0
  {
    if At(g.mem, t).state == Sleeping {
      assert SleepSet(g, S + {t}) == SleepSet(g, S) + {t};
    } else {
      assert SleepSet(g, S + {t}) == SleepSet(g, S);
    }
  }

  lemma OneMoreRunning(g: Image, S: set<Ref>, t: Ref)
    requires t !in S
    ensures |RunSet(g, S + {t})| == |RunSet(g, S)| + if At(g.mem, t).state == Running then 1 else 0
  {
    if At(g.mem, t).state == Running {
      assert RunSet(g, S + {t}) == RunSet(g, S) + {t};
    } else {
      assert RunSet(g, S + {t}) == RunSet(g, S);
    }
  }

  /** One slot more has been scanned. */
  lemma CountStep(g: Image, i: nat)
    requires i < 64 && SlotPass(g, i)
    ensures var S, S' := Tasks(g.slots[..i]), Tasks(g.slots[..i + 1]);
      var t := g.slots[i];
      && |S'| == |S| + (if t != NULL then 1 else 0)
      && |ReadySet(g, S')| == |ReadySet(g, S)| + (if t != NULL && t != g.idle && At(g.mem, t).state == Ready then 1 else 0)
      && |SleepSet(g, S')| == |SleepSet(g, S)| + (if t != NULL && At(g.mem, t).state == Sleeping then 1 else 0)
      && |RunSet(g, S')| == |RunSet(g, S)| + (if t != NULL && At(g.mem, t).state == Running then 1 else 0)
  {
    hide Tasks, ReadySet, SleepSet, RunSet, SlotPass;
    ScannedSlot(g, i);
    if g.slots[i] != NULL {
      OneMoreReady(g, Tasks(g.slots[..i]), g.slots[i]);
      OneMoreSleeper(g, Tasks(g.slots[..i]), g.slots[i]);
      OneMoreRunning(g, Tasks(g.slots[..i]), g.slots[i]);
    }
  }

  /** Only the current task can be RUNNING, so the running count is settled by its state. */
  lemma OneRuns(g: Image)
    requires g.current in Tasks(g.slots) && forall i {:trigger SlotPass(g, i)} | 0 <= i < 64 :: SlotPass(g, i)
    ensures |RunSet(g, Tasks(g.slots))| == if At(g.mem, g.current).state == Running then 1 else 0
  {
    forall t | t in RunSet(g, Tasks(g.slots)) ensures t == g.current {
      var i :| 0 <= i < 64 && g.slots[i] == t;
      assert SlotPass(g, i);
    }
    var one, none := {g.current}, {};
    assert RunSet(g, Tasks(g.slots)) == if At(g.mem, g.current).state == Running then one else none;
  }

  function FirstSlots(a: Ref, b: Ref): (slots: Registry)
    ensures slots[0] == a && slots[1] == b && forall i | 2 <= i < 64 :: slots[i] == NULL
  {
    seq(64, i => if i == 0 then a else if i == 1 then b else NULL)
  }

  class Core {
    const self: Ref
    var mem: Memory
    var slots: Registry
    var current: Ref
    var idle: Ref
    var readyHead: Ref
    var readyTail: Ref
    var sleepHead: Ref
    var now: nat
    var nextId: nat
    var ticks: nat
    var switches: nat
    var taskCount: nat
    var quantumTicks: nat
    var reschedule: bool
    var initialized: bool

    /** A zeroed core at `address`; the memory around it is arbitrary. */
    constructor (address: Ref, memory: Memory)
      ensures self == address && !initialized && mem == memory
    {
      self, mem, slots, current, idle := address, memory, seq(64, i => NULL), NULL, NULL;
      readyHead, readyTail, sleepHead, now, nextId, ticks, switches := NULL, NULL, NULL, 0, 0, 0, 0;
      taskCount, quantumTicks, reschedule, initialized := 0, 0, false, false;
    }

    ghost function Img(): Image
      reads this
    {
      Image(self, mem, slots, taskCount, current, idle, readyHead, readyTail, sleepHead,
            now, nextId, ticks, switches, quantumTicks, reschedule, initialized)
    }

    // -------------------------------------------------------------- validation

    method TaskSlot(task: Ref) returns (slot: nat)
      ensures slot <= 64 && (slot < 64 <==> task in Tasks(slots))
      ensures slot < 64 ==> slots[slot] == task
    {
      if task != NULL {
        slot := 0;
        while slot < 64
          invariant slot <= 64 && task !in slots[..slot]
        {
          if slots[slot] == task { return; }
          slot := slot + 1;
        }
      }
      return 64;
    }

    method CheckTask(task: Ref) returns (ok: bool)
      ensures ok <==> TaskPass(Img(), task)
    {
      var n := At(mem, task);
      if n.owner != self || n.id >= nextId || n.quantumLeft > quantumTicks || (task != current && n.depth != 0) {
        return false;
      }
      if task == idle {
        if n.id != 0 || n.next != NULL || n.wake != 0 || n.state != (if task == current then Running else Ready) {
          return false;
        }
      } else if n.id == 0 {
        return false;
      }
      if n.state == Running {
        return task == current && n.next == NULL && n.wake == 0;
      } else if n.state == Ready {
        return n.wake == 0;
      } else if n.state == Sleeping {
        return n.wake > now && n.depth == 0;
      }
      return n.next == NULL && n.wake == 0 && n.depth == 0;
    }

    method CheckSlot(i: nat) returns (ok: bool)
      requires i < 64 && slots[i] != NULL
      ensures ok <==> SlotPass(Img(), i)
    {
      hide TaskPass;
      ok := CheckTask(slots[i]);
      if !ok { return; }
      var j := 0;
      while j < i
        invariant j <= i && forall k {:trigger Apart(Img(), k, i)} | 0 <= k < j :: Apart(Img(), k, i)
      {
        if slots[j] != NULL && (slots[j] == slots[i] || At(mem, slots[j]).id == At(mem, slots[i]).id) {
          assert !Apart(Img(), j, i);
          return false;
        }
        j := j + 1;
      }
    }

    method Scan() returns (ok: bool, count: nat, ready: nat, sleeping: nat, running: nat)
      ensures ok <==> forall i {:trigger SlotPass(Img(), i)} | 0 <= i < 64 :: SlotPass(Img(), i)
      ensures ok ==> count == |Tasks(slots)| && ready == |ReadySet(Img(), Tasks(slots))|
      ensures ok ==> sleeping == |SleepSet(Img(), Tasks(slots))| && running == |RunSet(Img(), Tasks(slots))|
    {
      hide ReadySet, SleepSet, RunSet;
      ok, count, ready, sleeping, running := true, 0, 0, 0, 0;
      var i := 0;
      EmptySets(Img());
      while i < 64
        invariant i <= 64 && forall k {:trigger SlotPass(Img(), k)} | 0 <= k < i :: SlotPass(Img(), k)
        invariant count == |Tasks(slots[..i])|
        invariant ready == |ReadySet(Img(), Tasks(slots[..i]))| && sleeping == |SleepSet(Img(), Tasks(slots[..i]))|
        invariant running == |RunSet(Img(), Tasks(slots[..i]))|
      {
        hide SlotPass, Tasks;
        var task := slots[i];
        if task != NULL {
          ok := CheckSlot(i);
          if !ok { return; }
          count := count + 1;
          if At(mem, task).state == Ready && task != idle {
            ready := ready + 1;
          } else if At(mem, task).state == Sleeping {
            sleeping := sleeping + 1;
          } else if At(mem, task).state == Running {
            running := running + 1;
          }
        } else {
          assert SlotPass(Img(), i) by { NullPasses(Img(), i); }
        }
        CountStep(Img(), i);
        i := i + 1;
      }
      assert slots[..64] == slots;
    }

    method WalkReady(n: nat) returns (ok: bool)
      ensures ok <==> ReadyWalk(Img(), readyHead, NULL, n)
    {
      var task, last, i := readyHead, NULL, 0;
      while i < n
        invariant i <= n && (ReadyWalk(Img(), readyHead, NULL, n) <==> ReadyWalk(Img(), task, last, n - i))
      {
        var slot := TaskSlot(task);
        if slot == 64 || task == idle || At(mem, task).state != Ready { return false; }
        last, task := task, At(mem, task).next;
        i := i + 1;
      }
      return task == NULL && last == readyTail;
    }

    method WalkSleepers(n: nat) returns (ok: bool)
      ensures ok <==> SleepWalk(Img(), sleepHead, 0, n)
    {
      var task, deadline, i := sleepHead, 0, 0;
      while i < n
        invariant i <= n && (SleepWalk(Img(), sleepHead, 0, n) <==> SleepWalk(Img(), task, deadline, n - i))
      {
        var slot := TaskSlot(task);
        if slot == 64 || At(mem, task).state != Sleeping || At(mem, task).wake < deadline { return false; }
        deadline, task := At(mem, task).wake, At(mem, task).next;
        i := i + 1;
      }
      return task == NULL;
    }

    method Validate() returns (ok: bool)
      ensures ok <==> WellFormed(Img())
    {
      hide WellFormed, ReadySet, SleepSet, RunSet, ReadyWalk, SleepWalk, SlotPass, Tasks;
      assert WellFormed(Img()) <==> Checks(Img()) by {
        if Checks(Img()) { ChecksSound(Img()); }
        if WellFormed(Img()) { ChecksComplete(Img()); }
      }
      assert Checks(Img()) ==> taskCount != 0 by { if Checks(Img()) { NonEmpty(Tasks(slots), idle); } }
      if self == NULL || !initialized || quantumTicks == 0 || taskCount == 0 || taskCount > 64 || nextId < 2 {
        return false;
      }
      var slot := TaskSlot(idle);
      if slot == 64 { return false; }
      slot := TaskSlot(current);
      if slot == 64 { return false; }
      var pass, count, ready, sleeping, running := Scan();
      if !pass { return false; }
      OneRuns(Img());
      if count != taskCount || running != (if At(mem, current).state == Running then 1 else 0) ||
         (running == 0 && !reschedule) {
        return false;
      }
      ok := WalkReady(ready);
      if !ok { return; }
      ok := WalkSleepers(sleeping);
    }

    // -------------------------------------------------------------- READY queue

    /** Mark `task` READY and hang it on the tail. */
    method LinkTail(task: Ref, ghost q: seq<Ref>)
      requires task != NULL && task !in q && NULL !in q && readyTail == if q == [] then NULL else q[|q| - 1]
      modifies this`mem, this`readyHead, this`readyTail
      ensures readyTail == task && readyHead == if q == [] then task else old(readyHead)
      ensures Hung(old(mem), mem, q, task)
    {
      assert q != [] ==> q[|q| - 1] in q;
      mem := mem[task := At(mem, task).(next := NULL, state := Ready, wake := 0)];
      if readyTail != NULL {
        mem := mem[readyTail := At(mem, readyTail).(next := task)];
      } else {
        readyHead := task;
      }
      readyTail := task;
    }

    method ReadyPush(task: Ref, ghost q: seq<Ref>, ghost z: seq<Ref>, ghost x: Ref)
      requires Struct(Img(), q, z, x) && task in Tasks(slots) && task !in q && task !in z && (x == NULL || x == task)
      modifies this`mem, this`readyHead, this`readyTail, this`reschedule
      ensures Struct(Img(), q + [task], z, NULL)
      ensures task in Abs(old(Img()), q, z).info && current in Abs(old(Img()), q, z).info
      ensures Abs(Img(), q + [task], z) == SchedSpec.ReadyPush(Abs(old(Img()), q, z), task)
    {
      hide Struct, Tasks, Table, Hung, SchedSpec.ReadyPush;
      ghost var g, s := Img(), Abs(Img(), q, z);
      StructBasics(g, q, z, x);
      LinkTail(task, q);
      ghost var h := Img();
      assert Struct(h, q + [task], z, NULL) by { PushStruct(g, mem, q, z, x, task); }
      reschedule := reschedule || current == idle || At(mem, current).state != Running;
      assert Struct(Img(), q + [task], z, NULL) by { StructFrame(h, Img(), q + [task], z, NULL); }
      assert Abs(Img(), q + [task], z) == SchedSpec.ReadyPush(s, task) by { PushAbs(s, g.mem, mem, Tasks(slots), task, reschedule); }
    }

    // -------------------------------------------------------------- the clock

    method ChargeCurrent(ghost q: seq<Ref>, ghost z: seq<Ref>)
      requires Struct(Img(), q, z, NULL)
      modifies this`mem, this`reschedule
      ensures Struct(Img(), q, z, NULL) && current in Abs(old(Img()), q, z).info
      ensures Abs(Img(), q, z) == Charge(Abs(old(Img()), q, z))
    {
      hide Struct, Tasks, Table, Stored;
      ghost var g := Img();
      StructBasics(g, q, z, NULL);
      var task := At(mem, current);
      if task.state == Running {
        task := task.(runTicks := Bump(task.runTicks));
        if current != idle {
          if task.quantumLeft != 0 { task := task.(quantumLeft := task.quantumLeft - 1); }
          if task.quantumLeft == 0 { reschedule := true; }
        }
        Store(current, task);
        TouchStruct(g, mem, q, z, NULL, current, task);
        StructFrame(g.(mem := mem), Img(), q, z, NULL);
        TouchAbs(g, mem, q, z, current, task);
      }
    }

    method Store(task: Ref, node: Node)
      modifies this`mem
      ensures Stored(old(mem), mem, task, node)
    {
      mem := mem[task := node];
    }

    /** Move the first sleeper to the READY queue. */
    method WakeFirst(ghost q: seq<Ref>, ghost z: seq<Ref>)
      requires Struct(Img(), q, z, NULL) && z != []
      modifies this`mem, this`readyHead, this`readyTail, this`reschedule, this`sleepHead
      ensures Struct(Img(), q + [z[0]], z[1..], NULL)
      ensures z[0] in Abs(old(Img()), q, z).info && current in Abs(old(Img()), q, z).info
      ensures Abs(Img(), q + [z[0]], z[1..]) ==
              SchedSpec.ReadyPush(Abs(old(Img()), q, z).(sleepers := z[1..]), z[0])
    {
      hide Struct, Tasks, Table, SchedSpec.ReadyPush;
      StructBasics(Img(), q, z, NULL);
      PopSleeper(Img(), q, z);
      var task := sleepHead;
      sleepHead := At(mem, task).next;
      ReadyPush(task, q, z[1..], task);
    }

    method WakeSleepers(ghost q: seq<Ref>, ghost z: seq<Ref>) returns (ghost q': seq<Ref>, ghost z': seq<Ref>)
      requires Struct(Img(), q, z, NULL)
      modifies this`mem, this`readyHead, this`readyTail, this`reschedule, this`sleepHead
      ensures Struct(Img(), q', z', NULL)
      ensures WakeDue.requires(Abs(old(Img()), q, z))
      ensures Abs(Img(), q', z') == WakeDue(Abs(old(Img()), q, z))
    {
      hide Struct, Tasks, Table, SchedSpec.ReadyPush;
      q', z' := q, z;
      StructBasics(Img(), q, z, NULL);
      ghost var s := Abs(Img(), q, z);
      while sleepHead != NULL && At(mem, sleepHead).wake <= now
        invariant Struct(Img(), q', z', NULL) && WakeDue.requires(Abs(Img(), q', z'))
        invariant WakeDue(Abs(Img(), q', z')) == WakeDue(s)
        decreases |z'|
      {
        StructBasics(Img(), q', z', NULL);
        WakeFirst(q', z');
        q', z' := q' + [z'[0]], z'[1..];
        StructBasics(Img(), q', z', NULL);
      }
      StructBasics(Img(), q', z', NULL);
    }

    method Tick(time: nat) returns (ok: bool)
      modifies this
      ensures ok <==> old(WellFormed(Img())) && old(now) <= time
      ensures !ok ==> unchanged(this)
      ensures ok ==> WellFormed(Img()) && View(Img()) == SchedSpec.Tick(View(old(Img())), time)
    {
      hide Struct, Tasks, Table, Charge, WakeDue, ValidFrom;
      ok := Validate();
      if !ok || time < now { return false; }
      ghost var q, z :| Rep(Img(), q, z);
      ViewIs(Img(), q, z);
      ghost var g, s := Img(), View(Img());
      TickValid(s, time);
      now := time;
      ticks := Bump(ticks);
      StructFrame(g, Img(), q, z, NULL);
      assert Abs(Img(), q, z) == s.(now := time, ticks := Bump(s.ticks));
      ChargeCurrent(q, z);
      ghost var q', z' := WakeSleepers(q, z);
      ViewIs(Img(), q', z');
      ok := true;
    }

    // -------------------------------------------------------------- switching

    method StepAside(ghost q: seq<Ref>, ghost z: seq<Ref>) returns (ghost q': seq<Ref>)
      requires Rep(Img(), q, z)
      modifies this`mem, this`readyHead, this`readyTail, this`reschedule
      ensures Struct(Img(), q', z, NULL) && current in Abs(old(Img()), q, z).info
      ensures Abs(Img(), q', z) == StepBack(Abs(old(Img()), q, z))
    {
      hide Struct, Tasks, Table, Stored, SchedSpec.ReadyPush;
      ghost var g, s := Img(), Abs(Img(), q, z);
      StructBasics(g, q, z, NULL);
      assert TaskOk(s, s.now, current);
      q' := q;
      var old_ := At(mem, current);
      if old_.state == Running {
        if current == idle {
          Store(current, old_.(state := Ready));
          TouchStruct(g, mem, q, z, NULL, current, old_.(state := Ready));
          TouchAbs(g, mem, q, z, current, old_.(state := Ready));
        } else {
          ReadyPush(current, q, z, NULL);
          q' := q + [current];
        }
      }
    }

    /** Unlink the head of the READY list, or settle for idle. */
    method TakeNext(ghost q: seq<Ref>) returns (next: Ref)
      requires NULL !in q && readyHead == if q == [] then NULL else q[0]
      requires q == [] ==> readyTail == NULL
      modifies this`readyHead, this`readyTail
      ensures next == Next(Img(), q)
      ensures readyHead == if q == [] then NULL else At(mem, q[0]).next
      ensures readyTail == if readyHead == NULL then NULL else old(readyTail)
    {
      next := readyHead;
      if next != NULL {
        readyHead := At(mem, next).next;
        if readyHead == NULL { readyTail := NULL; }
      } else {
        next := idle;
      }
    }

    /** `next` runs with a fresh quantum. */
    method MakeCurrent(next: Ref)
      modifies this`mem, this`reschedule, this`current, this`switches
      ensures Stored(old(mem), mem, next, Started(old(Img()), next))
      ensures current == next && !reschedule
      ensures switches == if next != old(current) then Bump(old(switches)) else old(switches)
    {
      mem := mem[next := At(mem, next).(next := NULL, state := Running, wake := 0, quantumLeft := quantumTicks)];
      if next != current { switches := Bump(switches); }
      current, reschedule := next, false;
    }

    method RunNext(ghost q: seq<Ref>, ghost z: seq<Ref>)
      requires Struct(Img(), q, z, NULL) && idle !in z
      modifies this`mem, this`readyHead, this`readyTail, this`reschedule, this`current, this`switches
      ensures Struct(Img(), Rest(q), z, NULL) && Dispatch.requires(Abs(old(Img()), q, z))
      ensures Abs(Img(), Rest(q), z) == Dispatch(Abs(old(Img()), q, z))
    {
      hide Struct, Tasks, Table, Stored, Dispatch, Rest;
      ghost var g := Img();
      StructBasics(g, q, z, NULL);
      var next := TakeNext(q);
      MakeCurrent(next);
      assert Dispatched(g, Img(), q);
      DispatchStruct(g, Img(), q, z);
      DispatchAbs(g, Img(), q, z);
    }

    method Select(force: bool) returns (next: Ref)
      modifies this
      ensures next != NULL <==> old(WellFormed(Img()))
      ensures next == NULL ==> unchanged(this)
      ensures next != NULL ==> next == current && WellFormed(Img())
      ensures next != NULL ==> View(Img()) == SchedSpec.Select(View(old(Img())), force)
    {
      hide Struct, Tasks, Table, StepBack, Dispatch, ValidFrom, Halted;
      var ok := Validate();
      if !ok { return NULL; }
      ghost var q, z :| Rep(Img(), q, z);
      ViewIs(Img(), q, z);
      ghost var s := View(Img());
      StructBasics(Img(), q, z, NULL);
      SelectValid(s, force);
      if At(mem, current).depth != 0 || (!force && !reschedule && At(mem, current).state == Running) {
        return current;
      }
      StepBackHalts(s);
      ghost var q' := StepAside(q, z);
      assert idle !in z by { HaltedIdle(StepBack(s)); }
      RunNext(q', z);
      ViewIs(Img(), Rest(q'), z);
      StructBasics(Img(), Rest(q'), z, NULL);
      next := current;
    }

    // -------------------------------------------------------------- waiting and waking

    predicate CurrentWaits()
      reads this
    {
      current != idle && At(mem, current).state == Running && At(mem, current).depth == 0
    }

    /** Where the deadline goes: the node whose link changes (NULL for the list head) and what it links to. */
    method FindSlot(wake: nat, ghost z: seq<Ref>, ghost s: Sched<Ref>) returns (prior: Ref, at: Ref, ghost k: nat)
      requires Linked(mem, z, sleepHead) && s.sleepers == z
      requires forall t | t in z :: t in s.info && s.info[t].wake == At(mem, t).wake
      ensures k == Slot(s, wake, 0) && prior == Prior(z, k) && at == if k < |z| then z[k] else NULL
    {
      prior, at, k := NULL, sleepHead, 0;
      while at != NULL && At(mem, at).wake <= wake
        invariant k <= |z| && Slot(s, wake, 0) == Slot(s, wake, k)
        invariant prior == Prior(z, k) && at == if k < |z| then z[k] else NULL
        decreases |z| - k
      {
        assert LinkOk(mem, z, k);
        prior, at, k := at, At(mem, at).next, k + 1;
      }
    }

    /** `*link = to`, through the head when `prior` is NULL. */
    method Relink(prior: Ref, to: Ref)
      modifies this`mem, this`sleepHead
      ensures Relinked(old(mem), mem, prior, to)
      ensures sleepHead == if prior == NULL then to else old(sleepHead)
    {
      if prior == NULL {
        sleepHead := to;
      } else {
        mem := mem[prior := At(mem, prior).(next := to)];
      }
    }

    /** The current task's node says when to wake it and what follows it; nothing points to it yet. */
    method MarkSleeping(wake: nat, at: Ref, ghost q: seq<Ref>, ghost z: seq<Ref>)
      requires Struct(Img(), q, z, NULL) && current !in q && current !in z
      modifies this`mem
      ensures Struct(Img(), q, z, current) && At(mem, current) == old(At(mem, current)).(wake := wake, state := Sleeping, next := at)
      ensures Stored(old(mem), mem, current, At(mem, current))
    {
      hide Struct, Tasks, Table, Stored, Linked;
      ghost var g := Img();
      StructBasics(g, q, z, NULL);
      var node := At(mem, current).(wake := wake, state := Sleeping, next := at);
      Store(current, node);
      assert Struct(Img(), q, z, current) by { UnlinkedStruct(g, mem, q, z, current, node); }
      assert At(mem, current) == node by { StoredAt(g.mem, mem, current, node); }
    }

    /** Hang the marked task in at position `k`, and ask for a switch. */
    method HangIn(prior: Ref, ghost k: nat, ghost q: seq<Ref>, ghost z: seq<Ref>)
      requires Struct(Img(), q, z, current) && current !in q && current !in z && current in Tasks(slots) && k <= |z|
      requires prior == Prior(z, k) && At(mem, current).next == if k < |z| then z[k] else NULL
      modifies this`mem, this`sleepHead, this`reschedule
      ensures Struct(Img(), q, z[..k] + [current] + z[k..], NULL)
      ensures Abs(Img(), q, z) == Abs(old(Img()), q, z).(resched := true)
    {
      hide Struct, Tasks, Table, Relinked;
      ghost var h := Img();
      StructBasics(h, q, z, current);
      Relink(prior, current);
      assert Struct(Img(), q, z[..k] + [current] + z[k..], NULL) by { InsertSleeper(h, mem, q, z, k, current); }
      RelinkAbs(h, mem, q, z, prior, current, sleepHead);
      ghost var i := Img();
      reschedule := true;
      StructFrame(i, Img(), q, z[..k] + [current] + z[k..], NULL);
    }

    method Enlist(delay: nat, ghost q: seq<Ref>, ghost z: seq<Ref>) returns (ghost z': seq<Ref>)
      requires Struct(Img(), q, z, NULL) && current !in q && current !in z
      modifies this`mem, this`sleepHead, this`reschedule
      ensures Struct(Img(), q, z', NULL) && Sleep.requires(Abs(old(Img()), q, z), delay)
      ensures Abs(Img(), q, z') == Sleep(Abs(old(Img()), q, z), delay)
    {
      hide Struct, Tasks, Table, Stored, Linked, Slot, Put, Prior;
      ghost var g, s := Img(), Abs(Img(), q, z);
      StructBasics(g, q, z, NULL);
      assert Linked(mem, z, sleepHead) by { StructLinked(g, q, z, NULL); }
      var prior, at;
      ghost var k;
      prior, at, k := FindSlot(now + delay, z, s);
      MarkSleeping(now + delay, at, q, z);
      TouchAbs(g, mem, q, z, current, At(mem, current));
      HangIn(prior, k, q, z);
      z' := z[..k] + [current] + z[k..];
    }

    method SleepCurrent(delay: nat) returns (ok: bool)
      modifies this
      ensures ok <==> old(WellFormed(Img()) && CurrentWaits()) && 0 < delay <= UINT64_MAX - old(now)
      ensures !ok ==> unchanged(this)
      ensures ok ==> WellFormed(Img()) && View(Img()) == Sleep(View(old(Img())), delay)
    {
      hide Struct, Tasks, Table, Sleep, ValidFrom;
      ok := Validate();
      if !ok || !CurrentWaits() || delay == 0 || delay > UINT64_MAX - now { return false; }
      ghost var q, z :| Rep(Img(), q, z);
      ViewIs(Img(), q, z);
      ghost var s := View(Img());
      StructBasics(Img(), q, z, NULL);
      WaiterQueues(s);
      SleepValid(s, delay);
      ghost var z' := Enlist(delay, q, z);
      ViewIs(Img(), q, z');
      ok := true;
    }

    method ParkCurrent(state: State) returns (ok: bool)
      requires state == Blocked || state == Zombie
      modifies this
      ensures ok <==> old(WellFormed(Img()) && CurrentWaits())
      ensures !ok ==> unchanged(this)
      ensures ok ==> WellFormed(Img()) && View(Img()) == Park(View(old(Img())), state)
    {
      hide Struct, Tasks, Table, ValidFrom, Stored;
      ok := Validate();
      if !ok || !CurrentWaits() { return false; }
      ghost var q, z :| Rep(Img(), q, z);
      ViewIs(Img(), q, z);
      ghost var g, s := Img(), View(Img());
      StructBasics(g, q, z, NULL);
      ParkValid(s, state);
      var node := At(mem, current).(state := state);
      Store(current, node);
      TouchStruct(g, mem, q, z, NULL, current, node);
      TouchAbs(g, mem, q, z, current, node);
      reschedule := true;
      StructFrame(g.(mem := mem), Img(), q, z, NULL);
      ViewIs(Img(), q, z);
    }

    method BlockCurrent() returns (ok: bool)
      modifies this
      ensures ok <==> old(WellFormed(Img()) && CurrentWaits())
      ensures !ok ==> unchanged(this)
      ensures ok ==> WellFormed(Img()) && View(Img()) == Park(View(old(Img())), Blocked)
    {
      ok := ParkCurrent(Blocked);
    }

    method ExitCurrent() returns (ok: bool)
      modifies this
      ensures ok <==> old(WellFormed(Img()) && CurrentWaits())
      ensures !ok ==> unchanged(this)
      ensures ok ==> WellFormed(Img()) && View(Img()) == Park(View(old(Img())), Zombie)
    {
      ok := ParkCurrent(Zombie);
    }

    method FindLink(task: Ref, ghost z: seq<Ref>) returns (prior: Ref)
      requires Linked(mem, z, sleepHead) && task in z
      ensures prior == Prior(z, IndexOf(z, task, 0))
    {
      var at := sleepHead;
      prior := NULL;
      ghost var k := 0;
      while at != task
        invariant k < |z| && IndexOf(z, task, 0) == IndexOf(z, task, k) && task !in z[..k]
        invariant prior == Prior(z, k) && at == z[k]
        decreases |z| - k
      {
        assert LinkOk(mem, z, k);
        assert z[..k + 1] == z[..k] + [z[k]];
        prior, at, k := at, At(mem, at).next, k + 1;
      }
    }

    method Unlist(task: Ref, ghost q: seq<Ref>, ghost z: seq<Ref>)
      requires Struct(Img(), q, z, NULL) && task in z
      modifies this`mem, this`sleepHead
      ensures Struct(Img(), q, Without(z, task), task) && task !in q && task !in Without(z, task)
      ensures Abs(Img(), q, Without(z, task)) == Abs(old(Img()), q, z).(sleepers := Without(z, task))
    {
      hide Struct, Tasks, Table, Relinked, Linked, Without;
      ghost var g := Img();
      assert Linked(mem, z, sleepHead) && NULL !in z by { StructLinked(g, q, z, NULL); }
      var prior := FindLink(task, z);
      Relink(prior, At(mem, task).next);
      RemoveSleeper(g, mem, q, z, task);
      RelinkAbs(g, mem, q, z, prior, At(g.mem, task).next, sleepHead);
    }

    method Wake(task: Ref) returns (ok: bool)
      modifies this
      ensures ok <==> old(WellFormed(Img())) && CanWake(View(old(Img())), task)
      ensures !ok ==> unchanged(this)
      ensures ok ==> WellFormed(Img()) && View(Img()) == SchedSpec.Wake(View(old(Img())), task)
    {
      hide Struct, Tasks, Table, ValidFrom, SchedSpec.ReadyPush, Without, TaskOk;
      ok := Validate();
      if !ok { return; }
      ghost var q, z :| Rep(Img(), q, z);
      ViewIs(Img(), q, z);
      ghost var s := View(Img());
      StructBasics(Img(), q, z, NULL);
      var slot := TaskSlot(task);
      if slot == 64 || (At(mem, task).state != Blocked && At(mem, task).state != Sleeping) { return false; }
      WakeValid(s, task);
      SleeperQueues(s, task);
      ghost var x := NULL;
      if At(mem, task).state == Sleeping {
        Unlist(task, q, z);
        z, x := Without(z, task), task;
      }
      ReadyPush(task, q, z, x);
      ViewIs(Img(), q + [task], z);
    }

    // -------------------------------------------------------------- registering and leaving

    method ResetQueues(idleTask: Ref, bootstrap: Ref)
      modifies this`current, this`idle, this`readyHead, this`readyTail, this`sleepHead, this`slots, this`taskCount
      ensures current == bootstrap && idle == idleTask && readyHead == readyTail == sleepHead == NULL && taskCount == 2
      ensures slots[0] == idleTask && slots[1] == bootstrap && forall i | 2 <= i < 64 :: slots[i] == NULL
    {
      hide FirstSlots;
      current, idle, readyHead, readyTail, sleepHead := bootstrap, idleTask, NULL, NULL, NULL;
      slots, taskCount := FirstSlots(idleTask, bootstrap), 2;
    }

    method ResetCounters(quantum: nat, time: nat)
      modifies this`now, this`nextId, this`ticks, this`switches, this`quantumTicks, this`reschedule, this`initialized
      ensures now == time && nextId == 2 && ticks == 0 && switches == 0 && quantumTicks == quantum
      ensures !reschedule && initialized
    {
      now, nextId, ticks, switches, quantumTicks, reschedule, initialized := time, 2, 0, 0, quantum, false, true;
    }

    /** The two tasks a core starts with: idle, READY with id 0, and the bootstrap task, RUNNING with id 1. */
    method Init(idleTask: Ref, bootstrap: Ref, quantum: nat, time: nat) returns (ok: bool)
      modifies this
      ensures ok <==> && self != NULL && !old(initialized) && idleTask != NULL && bootstrap != NULL
                      && idleTask != bootstrap && At(old(mem), idleTask).owner == NULL
                      && At(old(mem), bootstrap).owner == NULL && quantum != 0
      ensures !ok ==> unchanged(this)
      ensures ok ==> WellFormed(Img()) && View(Img()) == Fresh(idleTask, bootstrap, quantum, time)
    {
      hide Rep, WellFormed, View, Abs;
      if self == NULL || initialized || idleTask == NULL || bootstrap == NULL || idleTask == bootstrap
         || At(mem, idleTask).owner != NULL || At(mem, bootstrap).owner != NULL || quantum == 0 {
        return false;
      }
      ResetQueues(idleTask, bootstrap);
      ResetCounters(quantum, time);
      Store(idleTask, Node(self, 0, Ready, NULL, 0, 0, quantum, 0));
      Store(bootstrap, Node(self, 1, Running, NULL, 0, 0, quantum, 0));
      FreshRep(Img());
      ViewIs(Img(), [], []);
      ok := true;
    }

    method FreeSlot() returns (slot: nat)
      requires exists i | 0 <= i < 64 :: slots[i] == NULL
      ensures slot < 64 && slots[slot] == NULL
    {
      slot := 0;
      while slots[slot] != NULL
        invariant slot < 64 && exists i | slot <= i < 64 :: slots[i] == NULL
        decreases 64 - slot
      {
        slot := slot + 1;
      }
    }

    method Register(task: Ref, node: Node, ghost q: seq<Ref>, ghost z: seq<Ref>)
      requires Struct(Img(), q, z, NULL) && taskCount < 64 && task != NULL && task !in Tasks(slots)
      requires node.owner == self && node.next == NULL
      modifies this`mem, this`slots, this`taskCount
      ensures Struct(Img(), q, z, NULL) && task in Tasks(slots) && task !in q && task !in z
      ensures Abs(Img(), q, z) == Put(Abs(old(Img()), q, z), task, InfoOf(node))
    {
      ghost var g := Img();
      assert exists i | 0 <= i < 64 :: slots[i] == NULL by {
        if NULL !in slots { FullRegistry(slots); }
      }
      hide Struct, Table, Stored;
      var slot := FreeSlot();
      Store(task, node);
      slots := slots[slot := task];
      taskCount := taskCount + 1;
      AddStruct(g, mem, q, z, slot, task, node);
      AddAbs(g, mem, q, z, slot, task, node);
      assert slots[slot] == task;
    }

    method Add(task: Ref) returns (ok: bool)
      modifies this
      ensures ok <==> && old(WellFormed(Img())) && task != NULL && At(old(mem), task).owner == NULL
                      && CanAdd(View(old(Img())))
      ensures !ok ==> unchanged(this)
      ensures ok ==> task !in View(old(Img())).info && WellFormed(Img())
      ensures ok ==> View(Img()) == SchedSpec.Add(View(old(Img())), task)
    {
      hide Struct, Tasks, Table, ValidFrom, SchedSpec.ReadyPush;
      ok := Validate();
      if !ok { return; }
      ghost var q, z :| Rep(Img(), q, z);
      ViewIs(Img(), q, z);
      ghost var s := View(Img());
      StructBasics(Img(), q, z, NULL);
      RegistrySize(Img(), q, z);
      if task == NULL || At(mem, task).owner != NULL || taskCount == MAX_TASKS || nextId == UINT64_MAX {
        return false;
      }
      AddValid(s, task);
      Register(task, Node(self, nextId, Ready, NULL, 0, 0, quantumTicks, 0), q, z);
      ghost var g := Img();
      nextId := nextId + 1;
      StructFrame(g, Img(), q, z, NULL);
      ReadyPush(task, q, z, NULL);
      ViewIs(Img(), q + [task], z);
    }

    method Deregister(slot: nat, ghost q: seq<Ref>, ghost z: seq<Ref>)
      requires Struct(Img(), q, z, NULL) && slot < 64 && slots[slot] != NULL
      requires slots[slot] !in q && slots[slot] !in z && slots[slot] != current && slots[slot] != idle
      modifies this`mem, this`slots, this`taskCount
      ensures Struct(Img(), q, z, NULL) && At(mem, old(slots)[slot]).owner == NULL
      ensures Abs(Img(), q, z) == Remove(Abs(old(Img()), q, z), old(slots)[slot])
    {
      hide Struct, Tasks, Table, Stored;
      ghost var g := Img();
      var task := slots[slot];
      Store(task, Zeroed);
      StoredAt(g.mem, mem, task, Zeroed);
      RemoveStruct(g, mem, q, z, slot);
      slots := slots[slot := NULL];
      taskCount := taskCount - 1;
      RemoveAbs(g, mem, q, z, slot, taskCount);
    }

    method RemoveZombie(task: Ref) returns (ok: bool)
      modifies this
      ensures ok <==> old(WellFormed(Img())) && CanRemove(View(old(Img())), task)
      ensures !ok ==> unchanged(this)
      ensures ok ==> At(mem, task).owner == NULL && WellFormed(Img())
      ensures ok ==> View(Img()) == Remove(View(old(Img())), task)
    {
      hide Struct, Tasks, Table, ValidFrom, Remove;
      ok := Validate();
      if !ok { return; }
      ghost var q, z :| Rep(Img(), q, z);
      ViewIs(Img(), q, z);
      ghost var s := View(Img());
      StructBasics(Img(), q, z, NULL);
      var slot := TaskSlot(task);
      if slot == 64 || task == current || task == idle || At(mem, task).state != Zombie { return false; }
      RemoveValid(s, task);
      ZombieQueues(s, task);
      Deregister(slot, q, z);
      ViewIs(Img(), q, z);
    }

    // -------------------------------------------------------------- preemption

    method SetDepth(depth: nat, ghost q: seq<Ref>, ghost z: seq<Ref>)
      requires Rep(Img(), q, z) && At(mem, current).state == Running
      modifies this`mem
      ensures WellFormed(old(Img())) && WellFormed(Img())
      ensures View(Img()) == SchedSpec.SetDepth(View(old(Img())), depth)
    {
      hide Struct, Tasks, Table, ValidFrom, Stored;
      ViewIs(Img(), q, z);
      ghost var g := Img();
      StructBasics(g, q, z, NULL);
      DepthValid(View(g), depth);
      var node := At(mem, current).(depth := depth);
      Store(current, node);
      TouchStruct(g, mem, q, z, NULL, current, node);
      TouchAbs(g, mem, q, z, current, node);
      ViewIs(Img(), q, z);
    }

    method PreemptDisable() returns (ok: bool)
      modifies this
      ensures ok <==> old(WellFormed(Img()) && At(mem, current).state == Running && At(mem, current).depth != UINT32_MAX)
      ensures !ok ==> unchanged(this)
      ensures ok ==> WellFormed(Img()) && View(Img()) == SchedSpec.SetDepth(View(old(Img())), old(At(mem, current).depth) + 1)
    {
      hide Rep;
      ok := Validate();
      if !ok || At(mem, current).state != Running || At(mem, current).depth == UINT32_MAX { return false; }
      ghost var q, z :| Rep(Img(), q, z);
      SetDepth(At(mem, current).depth + 1, q, z);
    }

    method PreemptEnable() returns (ok: bool)
      modifies this
      ensures ok <==> old(WellFormed(Img()) && At(mem, current).state == Running && At(mem, current).depth != 0)
      ensures !ok ==> unchanged(this)
      ensures ok ==> WellFormed(Img()) && View(Img()) == SchedSpec.SetDepth(View(old(Img())), old(At(mem, current).depth) - 1)
    {
      hide Rep;
      ok := Validate();
      if !ok || At(mem, current).state != Running || At(mem, current).depth == 0 { return false; }
      ghost var q, z :| Rep(Img(), q, z);
      SetDepth(At(mem, current).depth - 1, q, z);
    }

    method ReschedulePending() returns (pending: bool)
      ensures pending <==> WellFormed(Img()) && View(Img()).resched && At(mem, current).depth == 0
    {
      pending := Validate();
      if pending {
        ghost var q, z :| Rep(Img(), q, z);
        ViewIs(Img(), q, z);
        pending := reschedule && At(mem, current).depth == 0;
      }
    }
  }

  ghost function Fresh(idle: Ref, bootstrap: Ref, quantum: nat, now: nat): Sched<Ref> {
    Sched(now, 2, 0, 0, quantum, false, bootstrap, idle, [], [],
          map[idle := Info(0, Ready, 0, 0, quantum, 0), bootstrap := Info(1, Running, 0, 0, quantum, 0)])
  }

  lemma FreshTasks(slots: seq<Ref>, a: Ref, b: Ref)
    requires |slots| == 64 && slots[0] == a && slots[1] == b && a != NULL && b != NULL
    requires forall i | 2 <= i < 64 :: slots[i] == NULL
    ensures Tasks(slots) == {a, b}
  {
  }

  lemma FreshRep(g: Image)
    requires g.self != NULL && g.initialized && g.quantum != 0 && g.nextId == 2 && g.count == 2 && !g.resched
    requires g.ticks == 0 && g.switches == 0 && g.readyHead == NULL && g.readyTail == NULL && g.sleepHead == NULL
    requires g.slots[0] == g.idle != NULL && g.slots[1] == g.current != NULL && g.idle != g.current
    requires forall i | 2 <= i < 64 :: g.slots[i] == NULL
    requires At(g.mem, g.idle) == Node(g.self, 0, Ready, NULL, 0, 0, g.quantum, 0)
    requires At(g.mem, g.current) == Node(g.self, 1, Running, NULL, 0, 0, g.quantum, 0)
    ensures Rep(g, [], []) && Abs(g, [], []) == Fresh(g.idle, g.current, g.quantum, g.now)
  {
    FreshTasks(g.slots, g.idle, g.current);
    forall i {:trigger SlotOk(g.slots, i)} | 0 <= i < 64 ensures SlotOk(g.slots, i) {
    }
    assert Tasks(g.slots) == {g.idle, g.current};
    var s := Abs(g, [], []);
    assert s.info == Fresh(g.idle, g.current, g.quantum, g.now).info;
    assert TaskOk(s, s.now, g.idle) && TaskOk(s, s.now, g.current);
  }

  lemma RegistrySize(g: Image, q: seq<Ref>, z: seq<Ref>)
    requires Rep(g, q, z)
    ensures g.count == |Abs(g, q, z).info| <= 64 && forall t | t in Tasks(g.slots) :: At(g.mem, t).owner != NULL
  {
    assert |Table(g.mem, Tasks(g.slots))| == |Table(g.mem, Tasks(g.slots)).Keys|;
    assert Table(g.mem, Tasks(g.slots)).Keys == Tasks(g.slots);
  }

  lemma ZombieQueues<T>(s: Sched<T>, t: T)
    requires Valid(s) && CanRemove(s, t)
    ensures t !in s.ready && t !in s.sleepers
  {
    assert TaskOk(s, s.now, t);
  }

  lemma WaiterQueues<T>(s: Sched<T>)
    requires Valid(s) && s.info[s.current].state == Running
    ensures s.current !in s.ready && s.current !in s.sleepers
  {
    assert TaskOk(s, s.now, s.current);
  }

  lemma SleeperQueues<T>(s: Sched<T>, t: T)
    requires Valid(s) && CanWake(s, t)
    ensures t !in s.ready && (t in s.sleepers <==> s.info[t].state == Sleeping)
  {
    assert TaskOk(s, s.now, t);
  }

  lemma HaltedIdle<T>(s: Sched<T>)
    requires Halted(s)
    ensures s.idle !in s.ready && s.idle !in s.sleepers
  {
    assert HaltedOk(s, s.idle);
  }

  lemma NonEmpty(S: set<Ref>, t: Ref)
    requires t in S
    ensures |S| != 0
  {
  }

  lemma NullPasses(g: Image, i: nat)
    requires i < 64 && g.slots[i] == NULL
    ensures SlotPass(g, i)
  {
  }

  lemma EmptySets(g: Image)
    ensures Tasks(g.slots[..0]) == {} && ReadySet(g, {}) == {} && SleepSet(g, {}) == {} && RunSet(g, {}) == {}
  {
  }
}
