/**
  The callbacks a process gives its page tables (kernel/memory/user_vm.c): which frames may be read as tables, and how
  table frames are acquired, returned and committed against the frame allocator.
*/
module TableLedger {
  import opened MemoryMap
  import opened PageTable
  import opened PmmCore
  import L = FrameLedger

  type Slots = seq<L.Slot<bool>>

  const TABLE_LIMIT: nat := 64

  /** One acquisition: a vacant slot other than the root's takes an unpublished frame. */
  ghost predicate Step(a: Slots, b: Slots, f: Frame) {
    exists i {:trigger b[i]} | 0 < i < |a| && i < |b| :: a[i].Vacant? && b == a[i := L.Taken(f, false)]
  }

  /** Frames acquired but not yet published. */
  ghost function Pending(slots: Slots): set<Frame> {
    set i | 0 <= i < |slots| && slots[i].Taken? && !slots[i].tag :: slots[i].frame
  }

  lemma StepPending(a: Slots, b: Slots, f: Frame)
    requires Step(a, b, f)
    ensures Pending(b) == Pending(a) + {f} && |b| == |a| && b[0] == a[0]
  {
    var i :| 0 < i < |a| && a[i].Vacant? && b == a[i := L.Taken(f, false)];
    forall g | g in Pending(a) ensures g in Pending(b) {
      var k :| 0 <= k < |a| && a[k].Taken? && !a[k].tag && a[k].frame == g;
      assert b[k] == a[k];
    }
    assert b[i].frame == f;
  }

  lemma CommitPending(a: Slots, i: nat)
    requires L.Distinct(a) && i < |a| && a[i].Taken?
    ensures Pending(a[i := a[i].(tag := true)]) == Pending(a) - {a[i].frame}
  {
    var b, f := a[i := a[i].(tag := true)], a[i].frame;
    forall g | g in Pending(a) && g != f ensures g in Pending(b) {
      var k :| 0 <= k < |a| && a[k].Taken? && !a[k].tag && a[k].frame == g;
      assert b[k] == a[k];
    }
    forall k | 0 <= k < |b| && b[k].Taken? && !b[k].tag ensures b[k].frame != f { L.FramesApart(a, i, k); }
  }

  ghost function Elems(frames: seq<Frame>): set<Frame> { set f | f in frames }

  lemma NoElems(frames: seq<Frame>)
    ensures frames == [] ==> Elems(frames) == {}
  {
  }

  lemma ElemsFrom(frames: seq<Frame>, n: nat)
    requires n < |frames|
    ensures Elems(frames[n..]) == Elems(frames[n + 1..]) + {frames[n]}
    ensures Elems(frames[..n + 1]) == Elems(frames[..n]) + {frames[n]}
  {
    assert frames[n..] == [frames[n]] + frames[n + 1..];
    assert frames[..n + 1] == frames[..n] + [frames[n]];
  }

  /** A pile of acquisitions, from the ledger before the first to the ledger now. */
  ghost predicate Piled(history: seq<Slots>, frames: seq<Frame>) {
    && |history| == |frames| + 1
    && (forall k | 0 <= k < |history| :: |history[k]| == TABLE_LIMIT && L.Distinct(history[k]))
    && (forall k | 0 <= k < |frames| :: Step(history[k], history[k + 1], frames[k]))
  }

  /** The frames read the same outside `touched`. */
  ghost predicate SameOutside(m: Memory, n: Memory, touched: set<Frame>) {
    forall f, i {:trigger At(n, f, i)} | f !in touched :: At(n, f, i) == At(m, f, i)
  }

  ghost predicate Wrote(m: Memory, n: Memory, at: Loc, e: Entry) {
    forall f, i {:trigger At(n, f, i)} :: At(n, f, i) == if Loc(f, i) == at then e else At(m, f, i)
  }

  // ---------------------------------------------------------------- the record of stores

  ghost predicate AgreeOn(m: Memory, n: Memory, frames: set<Frame>) {
    forall f, i {:trigger At(n, f, i)} | f in frames && 0 <= i < 512 :: At(n, f, i) == At(m, f, i)
  }

  /** Tables in `frames` read the same but for the entry `at`. */
  ghost predicate AgreeBut(m: Memory, n: Memory, frames: set<Frame>, at: Loc) {
    forall f, i {:trigger At(n, f, i)} | f in frames && 0 <= i < 512 && Loc(f, i) != at :: At(n, f, i) == At(m, f, i)
  }

  lemma AgreeThenWrote(m: Memory, u: Memory, n: Memory, frames: set<Frame>, at: Loc, e: Entry)
    requires AgreeOn(m, u, frames) && Wrote(u, n, at, e)
    ensures AgreeBut(m, n, frames, at)
  {
  }

  /** At most one entry differs. */
  ghost predicate OneStore(m: Memory, n: Memory) {
    exists at: Loc, e: Entry {:trigger Wrote(m, n, at, e)} :: Wrote(m, n, at, e)
  }

  ghost predicate SilentAt(log: seq<Memory>, i: nat, m: Memory, frames: set<Frame>)
    requires 0 < i < |log|
  {
    OneStore(log[i - 1], log[i]) && AgreeOn(m, log[i], frames)
  }

  /** Every store since `log0` left the tables in `frames` as they are in `m`; none is missing from the record. */
  ghost predicate Silent(log0: seq<Memory>, log: seq<Memory>, m: Memory, frames: set<Frame>) {
    && log0 != [] && |log0| <= |log| && log[..|log0|] == log0
    && forall i {:trigger SilentAt(log, i, m, frames)} | |log0| <= i < |log| :: SilentAt(log, i, m, frames)
  }

  lemma SilentStart(log: seq<Memory>, m: Memory, frames: set<Frame>)
    requires log != []
    ensures Silent(log, log, m, frames)
  {
  }

  lemma SilentMore(log0: seq<Memory>, log: seq<Memory>, m: Memory, frames: set<Frame>, n: Memory)
    requires Silent(log0, log, m, frames) && OneStore(log[|log| - 1], n) && AgreeOn(m, n, frames)
    ensures Silent(log0, log + [n], m, frames)
  {
    hide OneStore, AgreeOn;
    var r := log + [n];
    assert r[..|log0|] == log[..|log0|];
    forall i {:trigger SilentAt(r, i, m, frames)} | |log0| <= i < |r| ensures SilentAt(r, i, m, frames) {
      if i < |log| { assert SilentAt(log, i, m, frames); }
    }
  }

  class Tables {
    const pmm: Pmm
    /** Frames without an alias in the direct map. */
    const hidden: set<Frame>
    var slots: Slots
    var count: nat
    var mem: Memory
    /** The tables after each store, the latest last. */
    ghost var log: seq<Memory>

    constructor (pmm: Pmm, hidden: set<Frame>, mem: Memory)
      ensures this.pmm == pmm && this.hidden == hidden && this.mem == mem
      ensures |slots| == TABLE_LIMIT && count == 0 && forall i | 0 <= i < TABLE_LIMIT :: slots[i].Vacant?
    {
      this.pmm, this.hidden, this.mem := pmm, hidden, mem;
      slots, count := seq(TABLE_LIMIT, i => L.Vacant), 0;
      log := [mem];
    }

    /** No store is missing from the record. */
    ghost predicate Logged()
      reads this
    {
      log != [] && log[|log| - 1] == mem
    }

    ghost function Frames(): set<Frame>
      reads this
    {
      L.Owned(slots)
    }

    ghost predicate Valid()
      reads this, pmm
    {
      && pmm.Valid() && pmm.initialized && Logged()
      && |slots| == TABLE_LIMIT && L.Distinct(slots) && count == |Frames()| && Frames() <= pmm.Held()
    }

    /** The frames the table callback gives access to. */
    ghost function Reach(): set<Frame>
      reads this, pmm
    {
      Frames() * pmm.Held() - hidden
    }

    method TableAccess(f: Frame) returns (ok: bool)
      requires pmm.Valid() && pmm.initialized
      ensures ok <==> f in Reach()
    {
      var slot := L.FindFrame(slots, f);
      assert Aligned(f * PAGE) && f * PAGE / PAGE == f;
      var held := pmm.IsAllocatedPage(f * PAGE);
      ok := slot != |slots| && held && f !in hidden;
    }

    /** A frame is acquired exactly when a slot and a free frame are left. */
    method TableAllocate() returns (ok: bool, f: Frame)
      requires Valid() && slots[0].Taken?
      modifies this`slots, this`count, pmm
      ensures Valid() && pmm.Eligible() == old(pmm.Eligible())
      ensures ok <==> old(count) < TABLE_LIMIT && old(pmm.Free()) != {}
      ensures !ok ==> unchanged(this) && unchanged(pmm)
      ensures ok ==> f in old(pmm.Free()) && pmm.Free() == old(pmm.Free()) - {f}
      ensures ok ==> Step(old(slots), slots, f) && Frames() == old(Frames()) + {f} && count == old(count) + 1
    {
      hide L.Distinct, L.Owned, Clear, Marked;
      ok, f := false, 0;
      if count >= TABLE_LIMIT { return; }
      var slot := L.FirstVacant(slots, 1);
      if slot == TABLE_LIMIT {
        L.FullSize(slots);
        assert false;
        return;
      }
      var phys;
      ok, phys := pmm.AllocPage();
      if !ok { return; }
      f := phys / PAGE;
      L.Fill(slots, slot, f, false);
      slots := slots[slot := L.Taken(f, false)];
      assert slots[slot] == L.Taken(f, false);
      count := count + 1;
    }

    /** The latest acquisition undone: slots and free frames are what they were before it. */
    method TableRelease(f: Frame, ghost before: Slots)
      requires Valid() && |before| == |slots| && L.Distinct(before) && Step(before, slots, f)
      modifies this`slots, this`count, pmm
      ensures Valid() && slots == before && count == old(count) - 1
      ensures pmm.Free() == old(pmm.Free()) + {f} && pmm.Eligible() == old(pmm.Eligible())
    {
      hide L.Owned, Clear, Marked;
      ghost var i :| 0 < i < |before| && before[i].Vacant? && slots == before[i := L.Taken(f, false)];
      L.OwnedAt(slots, i);
      var slot := L.FindFrame(slots, f);
      if slot != i { L.FramesApart(slots, slot, i); }
      if slot == 0 || slot == |slots| || slots[slot].tag {
        assert false;
      }
      L.Vacate(slots, slot);
      ReleaseFrame(f);
      slots := slots[slot := L.Vacant];
      assert slots == before;
      count := count - 1;
    }

    /** The kernel panics if the allocator refuses; it does not. */
    method ReleaseFrame(f: Frame)
      requires pmm.Valid() && pmm.initialized && f in pmm.Held()
      modifies pmm
      ensures pmm.Valid() && pmm.initialized
      ensures pmm.Free() == old(pmm.Free()) + {f} && pmm.Eligible() == old(pmm.Eligible())
    {
      assert Run(f, 1) == {f};
      assert Aligned(f * PAGE) && f * PAGE / PAGE == f;
      var ok := pmm.FreePages(f * PAGE, 1);
      if !ok {
        assert false;
      }
    }

    method TableCommit(f: Frame)
      requires Valid() && f in Pending(slots) && slots[0].Taken? && slots[0].tag
      modifies this`slots
      ensures Valid() && Frames() == old(Frames()) && slots[0] == old(slots[0])
      ensures Pending(slots) == old(Pending(slots)) - {f}
    {
      ghost var i :| 0 <= i < |slots| && slots[i].Taken? && !slots[i].tag && slots[i].frame == f;
      L.OwnedAt(slots, i);
      var slot := L.FindFrame(slots, f);
      if slot != i { L.FramesApart(slots, slot, i); }
      if slot == 0 || slot == |slots| || slots[slot].tag {
        assert false;
      }
      L.Retag(slots, slot, true);
      CommitPending(slots, slot);
      slots := slots[slot := slots[slot].(tag := true)];
    }

    /** Return every frame of the pile, latest first. */
    method Rollback(frames: seq<Frame>, ghost history: seq<Slots>)
      requires Valid() && Piled(history, frames) && slots == history[|frames|] && |frames| <= count
      modifies this`slots, this`count, pmm
      ensures Valid() && slots == history[0] && count == old(count) - |frames|
      ensures pmm.Free() == old(pmm.Free()) + Elems(frames) && pmm.Eligible() == old(pmm.Eligible())
    {
      hide L.Distinct, L.Owned, Clear, Marked, Step, Elems;
      var n: nat := |frames|;
      assert Elems(frames[n..]) == {} by { NoElems(frames[n..]); }
      while n != 0
        invariant 0 <= n <= |frames| && Valid() && slots == history[n] && count == old(count) - (|frames| - n)
        invariant pmm.Eligible() == old(pmm.Eligible())
        invariant pmm.Free() == old(pmm.Free()) + Elems(frames[n..])
      {
        n := n - 1;
        assert Step(history[n], history[n + 1], frames[n]);
        TableRelease(frames[n], history[n]);
        ElemsFrom(frames, n);
      }
      assert frames[0..] == frames;
    }

    /** Zero a table, entry by entry; it is none of `frames`. */
    method ClearTable(f: Frame, ghost log0: seq<Memory>, ghost m: Memory, ghost frames: set<Frame>)
      requires Logged() && Silent(log0, log, m, frames) && AgreeOn(m, mem, frames) && f !in frames
      modifies this`mem, this`log
      ensures Logged() && Silent(log0, log, m, frames) && AgreeOn(m, mem, frames)
      ensures SameOutside(old(mem), mem, {f}) && forall i {:trigger At(mem, f, i)} | 0 <= i < 512 :: At(mem, f, i) == Zero
    {
      hide Silent, AgreeOn;
      var i := 0;
      while i < 512
        invariant i <= 512 && Logged() && Silent(log0, log, m, frames) && AgreeOn(m, mem, frames)
        invariant SameOutside(old(mem), mem, {f}) && forall j {:trigger At(mem, f, j)} | 0 <= j < i :: At(mem, f, j) == Zero
      {
        StoreApart(f, i, Zero, log0, m, frames);
        i := i + 1;
      }
    }

    method Store(f: Frame, i: nat, e: Entry)
      requires Logged()
      modifies this`mem, this`log
      ensures Logged() && Wrote(old(mem), mem, Loc(f, i), e) && log == old(log) + [mem]
    {
      mem := mem[Loc(f, i) := e];
      log := log + [mem];
    }

    /** A store outside `frames`. */
    method StoreApart(f: Frame, i: nat, e: Entry, ghost log0: seq<Memory>, ghost m: Memory, ghost frames: set<Frame>)
      requires Logged() && Silent(log0, log, m, frames) && AgreeOn(m, mem, frames) && f !in frames
      modifies this`mem, this`log
      ensures Logged() && Silent(log0, log, m, frames) && AgreeOn(m, mem, frames)
      ensures Wrote(old(mem), mem, Loc(f, i), e)
    {
      hide Silent;
      Store(f, i, e);
      assert OneStore(old(mem), mem);
      SilentMore(log0, old(log), m, frames, mem);
    }
  }
}
