/**
  The physical frame allocator of kernel/memory/pmm_core.c: two bitmaps, a count of free frames and a next-fit
  cursor. A frame is free, held (eligible and occupied) or permanently unavailable (not eligible).
*/
module PmmCore {
  import opened MemoryMap
  import opened PmmBitmap

  // ---------------------------------------------------------------- sets of frames

  predicate Within(f: nat, first: nat, count: nat) { first <= f < first + count }

  ghost function Run(first: nat, count: nat): set<nat> {
    set f: nat {:trigger Within(f, first, count)} | first <= f < first + count && Within(f, first, count)
  }

  ghost function Between(first: nat, end: nat): set<nat> { if first <= end then Run(first, end - first) else {} }

  /** The frames below `span` that a byte range touches. */
  ghost function Touches(span: nat, phys: nat, bytes: nat): set<nat> {
    set f: nat {:trigger Within(f, 0, span)} | f < span && Within(f, 0, span) && f * PAGE < phys + bytes && phys < (f + 1) * PAGE
  }

  lemma {:induction false} RunSize(first: nat, count: nat)
    ensures |Run(first, count)| == count
    decreases count
  {
    if count > 0 {
      RunSize(first, count - 1);
      assert Run(first, count) == Run(first, count - 1) + {first + count - 1};
    }
  }

  lemma Removed(a: set<nat>, b: set<nat>)
    requires b <= a
    ensures |a - b| == |a| - |b|
  {
    assert a == (a - b) + b;
  }

  lemma Added(a: set<nat>, b: set<nat>)
    requires a !! b
    ensures |a + b| == |a| + |b|
  {
  }

  ghost function Clear(b: Bitmap, span: nat): set<nat> { set f | 0 <= f < span && !Test(b, f) }

  ghost function Marked(b: Bitmap, span: nat): set<nat> { set f | 0 <= f < span && Test(b, f) }

  ghost predicate FreeRun(occupied: Bitmap, first: nat, count: nat) {
    forall f: nat {:trigger Test(occupied, f)} | first <= f < first + count :: !Test(occupied, f)
  }

  ghost predicate LowestRun(occupied: Bitmap, span: nat, start: nat, count: nat, first: nat) {
    && start <= first && first + count <= span && FreeRun(occupied, first, count)
    && forall s {:trigger FreeRun(occupied, s, count)} | start <= s < first :: !FreeRun(occupied, s, count)
  }

  ghost predicate NoRun(occupied: Bitmap, span: nat, start: nat, count: nat) {
    forall s {:trigger FreeRun(occupied, s, count)} | start <= s && s + count <= span :: !FreeRun(occupied, s, count)
  }

  /** The lowest run at or after the cursor, or failing that the lowest of all. */
  ghost predicate NextFit(occupied: Bitmap, span: nat, cursor: nat, count: nat, first: nat) {
    || LowestRun(occupied, span, cursor, count, first)
    || (NoRun(occupied, span, cursor, count) && LowestRun(occupied, span, 0, count, first))
  }

  lemma FreeRunIsClear(occupied: Bitmap, span: nat, first: nat, count: nat)
    requires first + count <= span
    ensures FreeRun(occupied, first, count) <==> Run(first, count) <= Clear(occupied, span)
  {
    hide Test;
    if Run(first, count) <= Clear(occupied, span) {
      forall f: nat {:trigger Test(occupied, f)} | first <= f < first + count ensures !Test(occupied, f) {
        assert f in Run(first, count);
      }
    }
  }

  lemma PaintedClear(b: Bitmap, c: Bitmap, span: nat, first: nat, count: nat)
    requires Painted(b, c, first, first + count, true)
    ensures Clear(c, span) == Clear(b, span) - Run(first, count)
    ensures first + count <= span ==> Marked(c, span) == Marked(b, span) + Run(first, count)
  {
    hide Test;
  }

  lemma ErasedClear(b: Bitmap, c: Bitmap, span: nat, first: nat, count: nat)
    requires Painted(b, c, first, first + count, false) && first + count <= span
    ensures Clear(c, span) == Clear(b, span) + Run(first, count)
    ensures Marked(c, span) == Marked(b, span) - Run(first, count)
  {
    hide Test;
  }

  datatype Plan = Plan(storagePhys: nat, storageBytes: nat, bitmapBytes: nat, span: nat)

  lemma MinusNext(A: set<nat>, B: set<nat>, C: set<nat>, f: nat)
    requires C == B + {f}
    ensures A - C == (A - B) - {f}
  {
  }

  lemma BetweenNext(first: nat, frame: nat)
    requires first <= frame
    ensures Between(first, frame + 1) == Between(first, frame) + {frame}
  {
  }

  lemma NothingBetween(first: nat, end: nat)
    ensures Between(first, first) == {} && (end <= first ==> Between(first, end) == {})
  {
  }

  lemma MarkedTest(b: Bitmap, span: nat, f: nat)
    requires f < span
    ensures f in Marked(b, span) <==> Test(b, f)
  {
  }

  /** Where the search goes on: the end of the map is its beginning. */
  function Onward(end: nat, span: nat): nat { if end == span then 0 else end }

  class Pmm {
    var eligible: Bitmap
    var occupied: Bitmap
    var plan: Plan
    var totalFrames: nat
    var freeFrames: nat
    var cursor: nat
    var initialized: bool

    constructor ()
      ensures !initialized && Valid()
    {
      eligible, occupied, plan, totalFrames, freeFrames, cursor, initialized := [], [], Plan(0, 0, 0, 0), 0, 0, 0, false;
    }

    ghost function Free(): set<nat>
      reads this
    {
      Clear(occupied, plan.span)
    }

    ghost function Eligible(): set<nat>
      reads this
    {
      Marked(eligible, plan.span)
    }

    /** Allocated and releasable. */
    ghost function Held(): set<nat>
      reads this
    {
      Eligible() - Free()
    }

    /** The count is the number of clear occupancy bits, and only eligible frames are free. */
    ghost predicate Valid()
      reads this
    {
      initialized ==>
        && |eligible| == |occupied| && Covers(occupied, plan.span)
        && cursor < plan.span && plan.span * PAGE <= UINT64_MAX
        && freeFrames == |Free()| && Free() <= Eligible()
    }

    lemma FreeEligible()
      requires initialized && Valid()
      ensures Free() <= Eligible()
    {
    }

    // -------------------------------------------------------------- allocation

    /** The first free run at or after `start`, if there is one. */
    method FindRun(start: nat, count: nat) returns (ok: bool, first: nat)
      requires 0 < count && start <= plan.span
      ensures if ok then LowestRun(occupied, plan.span, start, count, first) else NoRun(occupied, plan.span, start, count)
    {
      hide Test;
      var run, frame := 0, start;
      while frame < plan.span
        invariant start <= frame <= plan.span && run < count && run <= frame - start
        invariant FreeRun(occupied, frame - run, run)
        invariant frame - run == start || Test(occupied, frame - run - 1)
        invariant forall s {:trigger FreeRun(occupied, s, count)} | start <= s && s + count <= frame :: !FreeRun(occupied, s, count)
      {
        if !Test(occupied, frame) {
          run := run + 1;
          if run == count { return true, frame - (count - 1); }
        } else {
          run := 0;
        }
        frame := frame + 1;
      }
      return false, 0;
    }

    ghost predicate HasRun(count: nat)
      reads this
    {
      exists s {:trigger FreeRun(occupied, s, count)} :: 0 <= s && s + count <= plan.span && FreeRun(occupied, s, count)
    }

    lemma RunNeedsRoom(count: nat)
      requires initialized && Valid() && HasRun(count)
      ensures count <= freeFrames
    {
      var s :| 0 <= s && s + count <= plan.span && FreeRun(occupied, s, count);
      FreeRunIsClear(occupied, plan.span, s, count);
      RunSize(s, count);
      Removed(Free(), Run(s, count));
    }

    method Take(first: nat, count: nat)
      requires initialized && Valid() && 0 < count && first + count <= plan.span && FreeRun(occupied, first, count)
      modifies this`occupied, this`freeFrames, this`cursor
      ensures Valid() && Run(first, count) <= old(Free()) && Free() == old(Free()) - Run(first, count)
      ensures |occupied| == |old(occupied)| && cursor == Onward(first + count, plan.span)
    {
      hide Test, Marked, Clear, Run, Painted;
      FreeRunIsClear(occupied, plan.span, first, count);
      RunSize(first, count);
      Removed(Free(), Run(first, count));
      var after := Paint(occupied, first, first + count, true);
      PaintedClear(occupied, after, plan.span, first, count);
      PaintedSize(occupied, after, first, first + count, true);
      occupied := after;
      freeFrames := freeFrames - count;
      cursor := if first + count == plan.span then 0 else first + count;
    }

    /** Next fit: succeeds exactly when some run of `count` free frames exists, hands out the first from the cursor on, and goes on behind it. */
    method AllocPages(count: nat) returns (ok: bool, phys: nat)
      requires Valid()
      modifies this`occupied, this`freeFrames, this`cursor
      ensures Valid()
      ensures ok <==> initialized && count != 0 && old(HasRun(count))
      ensures !ok ==> unchanged(this)
      ensures ok ==> Aligned(phys) && Run(phys / PAGE, count) <= old(Free()) && Free() == old(Free()) - Run(phys / PAGE, count)
      ensures ok ==> NextFit(old(occupied), plan.span, old(cursor), count, phys / PAGE) && cursor == Onward(phys / PAGE + count, plan.span)
    {
      hide FreeRun, Clear, Marked, Run;
      phys := 0;
      if !initialized || count == 0 { return false, 0; }
      if count > freeFrames {
        if HasRun(count) { RunNeedsRoom(count); }
        return false, 0;
      }
      var first;
      ok, first := FindRun(cursor, count);
      if !ok && cursor != 0 {
        ok, first := FindRun(0, count);
      }
      if !ok { return false, 0; }
      Take(first, count);
      phys := first * PAGE;
      assert phys / PAGE == first && Aligned(phys);
    }

    method AllocPage() returns (ok: bool, phys: nat)
      requires Valid()
      modifies this`occupied, this`freeFrames, this`cursor
      ensures Valid()
      ensures ok <==> initialized && old(Free()) != {}
      ensures !ok ==> unchanged(this)
      ensures ok ==> Aligned(phys) && phys / PAGE in old(Free()) && Free() == old(Free()) - {phys / PAGE}
      ensures ok ==> NextFit(old(occupied), plan.span, old(cursor), 1, phys / PAGE) && cursor == Onward(phys / PAGE + 1, plan.span)
    {
      ok, phys := AllocPages(1);
      assert ok ==> Run(phys / PAGE, 1) == {phys / PAGE};
      if Free() != {} && initialized && !ok {
        ghost var f :| f in Free();
        assert FreeRun(occupied, f, 1);
      }
    }

    // -------------------------------------------------------------- release

    predicate InRange(phys: nat, count: nat)
      reads this
    {
      initialized && count != 0 && Aligned(phys) && phys / PAGE < plan.span && count <= plan.span - phys / PAGE
    }

    method AllHeld(first: nat, end: nat) returns (ok: bool)
      requires first <= end <= plan.span
      ensures ok <==> forall f: nat | first <= f < end :: Test(eligible, f) && Test(occupied, f)
    {
      hide Test;
      var frame := first;
      while frame < end
        invariant first <= frame <= end && forall f: nat | first <= f < frame :: Test(eligible, f) && Test(occupied, f)
      {
        if !Test(eligible, frame) || !Test(occupied, frame) { return false; }
        frame := frame + 1;
      }
      return true;
    }

    lemma HeldRun(first: nat, count: nat)
      requires first + count <= plan.span
      ensures (forall f: nat | first <= f < first + count :: Test(eligible, f) && Test(occupied, f)) <==> Run(first, count) <= Held()
    {
      hide Test;
      if Run(first, count) <= Held() {
        forall f: nat | first <= f < first + count ensures Test(eligible, f) && Test(occupied, f) {
          assert f in Run(first, count);
        }
      }
    }

    /** A range is released exactly when every frame of it is held; otherwise nothing changes. */
    method FreePages(phys: nat, count: nat) returns (ok: bool)
      requires Valid()
      modifies this`occupied, this`freeFrames
      ensures Valid()
      ensures ok <==> InRange(phys, count) && Run(phys / PAGE, count) <= old(Held())
      ensures !ok ==> unchanged(this)
      ensures ok ==> Free() == old(Free()) + Run(phys / PAGE, count) && |occupied| == |old(occupied)|
    {
      hide Test, Clear, Marked, Run, Painted, FreeRun;
      if !InRange(phys, count) { return false; }
      var first := phys / PAGE;
      HeldRun(first, count);
      ok := AllHeld(first, first + count);
      if !ok { return; }
      RunSize(first, count);
      Added(Free(), Run(first, count));
      var after := Paint(occupied, first, first + count, false);
      ErasedClear(occupied, after, plan.span, first, count);
      PaintedSize(occupied, after, first, first + count, false);
      occupied := after;
      freeFrames := freeFrames + count;
    }

    // -------------------------------------------------------------- permanent reservations

    /** Frames `first..end` lose their eligibility and become occupied. */
    method Retire(first: nat, end: nat)
      requires initialized && Valid() && end <= plan.span
      requires forall f: nat | first <= f < end :: !(Test(eligible, f) && Test(occupied, f))
      modifies this`eligible, this`occupied, this`freeFrames
      ensures Valid() && |occupied| == |old(occupied)|
      ensures Free() == old(Free()) - Between(first, end) && Eligible() == old(Eligible()) - Between(first, end)
    {
      hide Test, Clear, Marked, Between, Valid;
      NothingBetween(first, end);
      ghost var free, eligibles := Free(), Eligible();
      var frame := first;
      while frame < end
        invariant first <= frame && (frame <= end || frame == first) && Valid() && |occupied| == |old(occupied)|
        invariant Free() == free - Between(first, frame) && Eligible() == eligibles - Between(first, frame)
        invariant forall f: nat | frame <= f < end :: !(Test(eligible, f) && Test(occupied, f))
      {
        BetweenNext(first, frame);
        MinusNext(free, Between(first, frame), Between(first, frame + 1), frame);
        MinusNext(eligibles, Between(first, frame), Between(first, frame + 1), frame);
        RetireFrame(frame, end);
        frame := frame + 1;
      }
    }

    method RetireFrame(frame: nat, ghost end: nat)
      requires initialized && Valid() && frame < end <= plan.span
      requires forall f: nat | frame <= f < end :: !(Test(eligible, f) && Test(occupied, f))
      modifies this`eligible, this`occupied, this`freeFrames
      ensures Valid() && |occupied| == |old(occupied)|
      ensures Free() == old(Free()) - {frame} && Eligible() == old(Eligible()) - {frame}
      ensures forall f: nat | frame < f < end :: !(Test(eligible, f) && Test(occupied, f))
    {
      hide Test, Clear, Marked;
      MarkedTest(eligible, plan.span, frame);
      if Test(eligible, frame) { RetireOne(frame, end); }
    }

    method RetireOne(frame: nat, ghost end: nat)
      requires initialized && Valid() && frame < plan.span && Test(eligible, frame) && !Test(occupied, frame)
      requires forall f: nat | frame <= f < end :: !(Test(eligible, f) && Test(occupied, f))
      modifies this`eligible, this`occupied, this`freeFrames
      ensures Valid() && |occupied| == |old(occupied)|
      ensures Free() == old(Free()) - {frame} && Eligible() == old(Eligible()) - {frame}
      ensures forall f: nat | frame < f < end :: !(Test(eligible, f) && Test(occupied, f))
    {
      hide Test, Put;
      ghost var e, o := eligible, occupied;
      eligible := Put(eligible, frame, false);
      occupied := Put(occupied, frame, true);
      PutTest(e, frame, false, frame);
      PutTest(o, frame, true, frame);
      forall g: nat {:trigger Test(eligible, g)} ensures Test(eligible, g) == if g == frame then false else Test(e, g) { PutTest(e, frame, false, g); }
      forall g: nat {:trigger Test(occupied, g)} ensures Test(occupied, g) == if g == frame then true else Test(o, g) { PutTest(o, frame, true, g); }
      assert Clear(occupied, plan.span) == Clear(o, plan.span) - {frame};
      Removed(Clear(o, plan.span), {frame});
      assert Marked(eligible, plan.span) == Marked(e, plan.span) - {frame};
      freeFrames := freeFrames - 1;
    }

    method AnyHeld(first: nat, end: nat) returns (found: bool)
      requires end <= plan.span
      ensures found <==> exists f: nat | first <= f < end :: Test(eligible, f) && Test(occupied, f)
    {
      hide Test;
      var frame := first;
      while frame < end
        invariant first <= frame && forall f: nat | first <= f < frame && f < end :: !(Test(eligible, f) && Test(occupied, f))
      {
        if Test(eligible, frame) && Test(occupied, frame) { return true; }
        frame := frame + 1;
      }
      return false;
    }

    ghost function Touched(phys: nat, bytes: nat): set<nat>
      reads this
    {
      Touches(plan.span, phys, bytes)
    }

    lemma TouchedIsBetween(phys: nat, bytes: nat, end: nat)
      requires 0 < bytes && AlignUp(phys + bytes).Some?
      requires end == if AlignUp(phys + bytes).value / PAGE > plan.span then plan.span else AlignUp(phys + bytes).value / PAGE
      ensures Touched(phys, bytes) == Between(phys / PAGE, end)
    {
    }

    /** Reserving fails, changing nothing, if any touched frame is allocated; otherwise all of them are gone for good. */
    method ReserveRange(phys: nat, bytes: nat) returns (ok: bool)
      requires Valid()
      modifies this`eligible, this`occupied, this`freeFrames
      ensures Valid()
      ensures ok <==> && initialized && bytes != 0 && phys + bytes <= UINT64_MAX - (PAGE - 1)
                      && old(Touched(phys, bytes)) !! old(Held())
      ensures !ok ==> unchanged(this)
      ensures ok ==> Free() == old(Free()) - Touched(phys, bytes) && Eligible() == old(Eligible()) - Touched(phys, bytes)
    {
      hide Test, AlignDown;
      if !initialized || bytes == 0 || bytes > UINT64_MAX - phys { return false; }
      var endAddress := AlignUp(phys + bytes);
      if endAddress.None? { return false; }
      var first, end := phys / PAGE, endAddress.value / PAGE;
      if end > plan.span { end := plan.span; }
      TouchedIsBetween(phys, bytes, end);
      var held := AnyHeld(first, end);
      HeldBetween(first, end);
      hide Clear, Marked, Between;
      if held { return false; }
      Retire(first, end);
      ok := true;
    }

    lemma HeldBetween(first: nat, end: nat)
      requires end <= plan.span
      ensures (exists f: nat | first <= f < end :: Test(eligible, f) && Test(occupied, f)) <==> !(Between(first, end) !! Held())
    {
      hide Test;
      if f: nat :| first <= f < end && Test(eligible, f) && Test(occupied, f) {
        assert f in Between(first, end) && f in Held();
      }
      if !(Between(first, end) !! Held()) {
        var f :| f in Between(first, end) && f in Held();
      }
    }

    /** A held frame becomes permanent: it stays used, and can be neither freed nor pinned again. */
    method PinPage(phys: nat) returns (ok: bool)
      requires Valid()
      modifies this`eligible
      ensures Valid()
      ensures ok <==> initialized && Aligned(phys) && phys / PAGE in old(Held())
      ensures !ok ==> unchanged(this)
      ensures Free() == old(Free())
      ensures ok ==> Eligible() == old(Eligible()) - {phys / PAGE}
    {
      hide Test, Put;
      var first := phys / PAGE;
      if !InRange(phys, 1) || !Test(eligible, first) || !Test(occupied, first) { return false; }
      ghost var e := eligible;
      eligible := Put(eligible, first, false);
      PutTest(e, first, false, first);
      forall g: nat {:trigger Test(eligible, g)} ensures Test(eligible, g) == if g == first then false else Test(e, g) { PutTest(e, first, false, g); }
      assert Marked(eligible, plan.span) == Marked(e, plan.span) - {first};
      ok := true;
    }

    method IsAllocatedPage(phys: nat) returns (held: bool)
      requires Valid()
      ensures held <==> initialized && Aligned(phys) && phys / PAGE in Held()
    {
      held := InRange(phys, 1) && Test(eligible, phys / PAGE) && Test(occupied, phys / PAGE);
    }
  }

  lemma PaintedSize(b: Bitmap, c: Bitmap, first: nat, end: nat, value: bool)
    requires Painted(b, c, first, end, value)
    ensures |c| == |b|
  {
  }
}
