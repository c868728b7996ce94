/**
  Whole runs of the frame allocator: what the callers of kernel/memory/pmm_core.c are handed, give back and take out of
  circulation, over any sequence of calls.
*/
module PmmRuns {
  import opened MemoryMap
  import opened PmmCore
  import opened PmmInit

  datatype Call = Alloc(count: nat) | Free(phys: nat, count: nat) | Reserve(phys: nat, bytes: nat) | Pin(phys: nat)

  /** What a call answers; `phys` is meant for an allocation that succeeded. */
  datatype Reply = Reply(ok: bool, phys: nat)

  /** The allocator as its callers know it. */
  datatype Pool = Pool(span: nat, eligible: set<nat>, free: set<nat>)

  ghost function View(pmm: Pmm): Pool
    reads pmm
  {
    Pool(pmm.plan.span, pmm.Eligible(), pmm.Free())
  }

  /** The frames the caller gets. */
  ghost function Handed(call: Call, reply: Reply): set<nat> {
    if call.Alloc? && reply.ok then Run(reply.phys / PAGE, call.count) else {}
  }

  /** The frames the caller gives back. */
  ghost function Returned(call: Call, reply: Reply): set<nat> {
    if call.Free? && reply.ok then Run(call.phys / PAGE, call.count) else {}
  }

  /** The frames taken out of circulation. */
  ghost function Lost(span: nat, call: Call, reply: Reply): set<nat> {
    if !reply.ok then {}
    else if call.Reserve? then Touches(span, call.phys, call.bytes)
    else if call.Pin? then {call.phys / PAGE}
    else {}
  }

  /** When a call succeeds. */
  ghost predicate Grantable(call: Call, a: Pool) {
    match call
    case Alloc(count) => count != 0 && exists s: nat {:trigger Run(s, count)} :: Run(s, count) <= a.free
    case Free(phys, count) => count != 0 && Aligned(phys) && Run(phys / PAGE, count) <= a.eligible - a.free
    case Reserve(phys, bytes) =>
      bytes != 0 && phys + bytes <= UINT64_MAX - (PAGE - 1) && Touches(a.span, phys, bytes) !! a.eligible - a.free
    case Pin(phys) => Aligned(phys) && phys / PAGE in a.eligible - a.free
  }

  /** One call leads from `a` to `b` and answers `reply`. */
  ghost predicate Effect(call: Call, reply: Reply, a: Pool, b: Pool) {
    && (reply.ok <==> Grantable(call, a))
    && Handed(call, reply) <= a.free && Returned(call, reply) <= a.eligible - a.free
    && b.span == a.span && b.eligible == a.eligible - Lost(a.span, call, reply)
    && b.free == a.free - Handed(call, reply) + Returned(call, reply) - Lost(a.span, call, reply)
  }

  // ---------------------------------------------------------------- the calls

  lemma HasRunIsFree(pmm: Pmm, count: nat)
    requires count != 0
    ensures pmm.HasRun(count) <==> exists s: nat {:trigger Run(s, count)} :: Run(s, count) <= pmm.Free()
  {
    hide FreeRun;
    if pmm.HasRun(count) {
      var s: nat :| s + count <= pmm.plan.span && FreeRun(pmm.occupied, s, count);
      FreeRunIsClear(pmm.occupied, pmm.plan.span, s, count);
      assert Run(s, count) <= pmm.Free();
    }
    if s: nat :| Run(s, count) <= pmm.Free() {
      assert s + count - 1 in Run(s, count);
      FreeRunIsClear(pmm.occupied, pmm.plan.span, s, count);
      assert FreeRun(pmm.occupied, s, count);
    }
  }

  lemma HeldInRange(pmm: Pmm, phys: nat, count: nat)
    requires pmm.initialized && count != 0 && Run(phys / PAGE, count) <= pmm.Held() && Aligned(phys)
    ensures pmm.InRange(phys, count)
  {
    assert phys / PAGE in Run(phys / PAGE, count) && phys / PAGE + count - 1 in Run(phys / PAGE, count);
  }

  method DoAlloc(pmm: Pmm, count: nat) returns (reply: Reply)
    requires pmm.Valid() && pmm.initialized
    modifies pmm
    ensures pmm.Valid() && pmm.initialized && Effect(Alloc(count), reply, old(View(pmm)), View(pmm))
  {
    hide Clear, Marked, Run, Pmm.HasRun, Touches, Pmm.Valid;
    if count != 0 { HasRunIsFree(pmm, count); }
    var ok, phys := pmm.AllocPages(count);
    reply := Reply(ok, phys);
  }

  method DoFree(pmm: Pmm, phys: nat, count: nat) returns (reply: Reply)
    requires pmm.Valid() && pmm.initialized
    modifies pmm
    ensures pmm.Valid() && pmm.initialized && Effect(Free(phys, count), reply, old(View(pmm)), View(pmm))
  {
    hide Clear, Marked, Run, Touches, Pmm.Valid;
    if count != 0 && Aligned(phys) && Run(phys / PAGE, count) <= pmm.Held() { HeldInRange(pmm, phys, count); }
    var ok := pmm.FreePages(phys, count);
    reply := Reply(ok, 0);
  }

  method DoReserve(pmm: Pmm, phys: nat, bytes: nat) returns (reply: Reply)
    requires pmm.Valid() && pmm.initialized
    modifies pmm
    ensures pmm.Valid() && pmm.initialized && Effect(Reserve(phys, bytes), reply, old(View(pmm)), View(pmm))
  {
    hide Clear, Marked, Run, Touches, Pmm.Valid;
    var ok := pmm.ReserveRange(phys, bytes);
    reply := Reply(ok, 0);
  }

  method DoPin(pmm: Pmm, phys: nat) returns (reply: Reply)
    requires pmm.Valid() && pmm.initialized
    modifies pmm
    ensures pmm.Valid() && pmm.initialized && Effect(Pin(phys), reply, old(View(pmm)), View(pmm))
  {
    hide Clear, Marked, Run, Touches, Pmm.Valid;
    var ok := pmm.PinPage(phys);
    reply := Reply(ok, 0);
  }

  method Execute(pmm: Pmm, call: Call) returns (reply: Reply)
    requires pmm.Valid() && pmm.initialized
    modifies pmm
    ensures pmm.Valid() && pmm.initialized && Effect(call, reply, old(View(pmm)), View(pmm))
  {
    hide Effect, View, Pmm.Valid;
    match call {
      case Alloc(count) => reply := DoAlloc(pmm, count);
      case Free(phys, count) => reply := DoFree(pmm, phys, count);
      case Reserve(phys, bytes) => reply := DoReserve(pmm, phys, bytes);
      case Pin(phys) => reply := DoPin(pmm, phys);
    }
  }

  // ---------------------------------------------------------------- histories

  ghost predicate EffectAt(calls: seq<Call>, replies: seq<Reply>, states: seq<Pool>, i: nat)
    requires |replies| == |calls| && |states| == |calls| + 1 && i < |calls|
  {
    Effect(calls[i], replies[i], states[i], states[i + 1])
  }

  /** `states` are the pools before, between and after the calls. */
  ghost predicate History(calls: seq<Call>, replies: seq<Reply>, states: seq<Pool>) {
    && |replies| == |calls| && |states| == |calls| + 1 && states[0].free <= states[0].eligible
    && forall i {:trigger EffectAt(calls, replies, states, i)} | 0 <= i < |calls| :: EffectAt(calls, replies, states, i)
  }

  lemma {:induction false} Shrinks(calls: seq<Call>, replies: seq<Reply>, states: seq<Pool>, i: nat, j: nat)
    requires History(calls, replies, states) && i <= j <= |calls|
    ensures states[j].free <= states[j].eligible <= states[i].eligible && states[j].span == states[0].span
    decreases j
  {
    hide Handed, Returned, Lost, Grantable;
    if j > 0 {
      assert EffectAt(calls, replies, states, j - 1);
      Shrinks(calls, replies, states, if i < j then i else j - 1, j - 1);
    }
  }

  /** A frame that is not eligible at some point is in no run handed out from there on. */
  lemma NeverAgain(calls: seq<Call>, replies: seq<Reply>, states: seq<Pool>, i: nat, j: nat)
    requires History(calls, replies, states) && i <= j < |calls|
    ensures Handed(calls[j], replies[j]) <= states[i].eligible
  {
    hide Handed, Returned, Lost, Grantable;
    Shrinks(calls, replies, states, i, j);
    assert EffectAt(calls, replies, states, j);
  }

  /** What a reservation or a pin takes out of circulation is never handed out again. */
  lemma LostForever(calls: seq<Call>, replies: seq<Reply>, states: seq<Pool>, i: nat, j: nat)
    requires History(calls, replies, states) && i < j < |calls|
    ensures Lost(states[0].span, calls[i], replies[i]) !! Handed(calls[j], replies[j])
  {
    hide Handed, Returned, Lost, Grantable;
    assert EffectAt(calls, replies, states, i);
    Shrinks(calls, replies, states, i, i);
    NeverAgain(calls, replies, states, i + 1, j);
  }

  /** A frame handed out stays out of the free frames until it is returned. */
  lemma {:induction false} StaysOut(calls: seq<Call>, replies: seq<Reply>, states: seq<Pool>, i: nat, j: nat, f: nat)
    requires History(calls, replies, states) && i < j <= |calls| && f in Handed(calls[i], replies[i])
    requires forall k | i < k < j :: f !in Returned(calls[k], replies[k])
    ensures f !in states[j].free
    decreases j
  {
    assert EffectAt(calls, replies, states, j - 1);
    if i < j - 1 { StaysOut(calls, replies, states, i, j - 1, f); }
  }

  /** No frame has two owners: between two calls that hand it out, somebody gave it back. */
  lemma GivenBack(calls: seq<Call>, replies: seq<Reply>, states: seq<Pool>, i: nat, j: nat, f: nat)
    requires History(calls, replies, states) && i < j < |calls|
    requires f in Handed(calls[i], replies[i]) && f in Handed(calls[j], replies[j])
    ensures exists k | i < k < j :: f in Returned(calls[k], replies[k])
  {
    hide Handed, Returned, Lost, Grantable;
    assert EffectAt(calls, replies, states, j);
    if forall k | i < k < j :: f !in Returned(calls[k], replies[k]) { StaysOut(calls, replies, states, i, j, f); }
  }

  lemma HistoryMore(calls: seq<Call>, replies: seq<Reply>, states: seq<Pool>, call: Call, reply: Reply, b: Pool)
    requires History(calls, replies, states) && Effect(call, reply, states[|calls|], b)
    ensures History(calls + [call], replies + [reply], states + [b])
  {
    hide Effect;
    var cs, rs, ss := calls + [call], replies + [reply], states + [b];
    forall i {:trigger EffectAt(cs, rs, ss, i)} | 0 <= i < |cs| ensures EffectAt(cs, rs, ss, i) {
      if i < |calls| { assert EffectAt(calls, replies, states, i); }
    }
  }

  /** Any sequence of calls, answered one after the other. */
  method Session(pmm: Pmm, calls: seq<Call>) returns (replies: seq<Reply>, ghost states: seq<Pool>)
    requires pmm.Valid() && pmm.initialized
    modifies pmm
    ensures pmm.Valid() && pmm.initialized && History(calls, replies, states)
    ensures states[0] == old(View(pmm)) && states[|calls|] == View(pmm)
  {
    hide Effect, History, View;
    replies, states := [], [View(pmm)];
    assert History([], [], states) && |states| == 1 by { HistoryStart(pmm); }
    assert calls[..0] == [];
    for k := 0 to |calls|
      invariant pmm.Valid() && pmm.initialized && History(calls[..k], replies, states)
      invariant |states| == k + 1 && states[0] == old(View(pmm)) && states[k] == View(pmm)
    {
      var reply := Execute(pmm, calls[k]);
      HistoryMore(calls[..k], replies, states, calls[k], reply, View(pmm));
      assert calls[..k] + [calls[k]] == calls[..k + 1];
      replies, states := replies + [reply], states + [View(pmm)];
    }
    assert calls[..|calls|] == calls;
  }

  lemma HistoryStart(pmm: Pmm)
    requires pmm.Valid() && pmm.initialized
    ensures History([], [], [View(pmm)])
  {
  }

  /**
    From boot on: no call ever hands out page zero, a frame of the bitmaps, or a frame the memory map does not call
    usable, whatever the calls and their order.
  */
  method Lifetime(pmm: Pmm, regions: seq<Region>, usable: nat, plan: Plan, calls: seq<Call>)
    returns (up: bool, replies: seq<Reply>, ghost states: seq<Pool>)
    requires pmm.Valid() && !pmm.initialized && Built(regions, usable)
    modifies pmm
    ensures up <==> PlanOk(regions, plan)
    ensures up ==> History(calls, replies, states) && states[|calls|] == View(pmm)
    ensures up ==> states[0].free == states[0].eligible == UsableFrames(regions) - {0} - StorageFrames(plan)
    ensures up ==> forall j | 0 <= j < |calls| ::
      var run := Handed(calls[j], replies[j]); 0 !in run && run <= UsableFrames(regions) && run !! StorageFrames(plan)
  {
    hide PlanOk, Built, UsableFrames, StorageFrames, Handed, History, Clear, Marked, Pmm.Valid;
    replies, states := [], [];
    up := Init(pmm, regions, usable, plan);
    if !up { return; }
    replies, states := Session(pmm, calls);
    assert |replies| == |calls| && |states| == |calls| + 1 by { HistorySizes(calls, replies, states); }
    forall j | 0 <= j < |calls|
      ensures Handed(calls[j], replies[j]) <= UsableFrames(regions) - {0} - StorageFrames(plan)
    {
      NeverAgain(calls, replies, states, 0, j);
    }
  }

  lemma HistorySizes(calls: seq<Call>, replies: seq<Reply>, states: seq<Pool>)
    requires History(calls, replies, states)
    ensures |replies| == |calls| && |states| == |calls| + 1
  {
  }
}
