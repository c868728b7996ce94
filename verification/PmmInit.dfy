/**
  Bringing the frame allocator up from a boot memory map: `pmm_plan` and `pmm_core_init` of
  kernel/memory/pmm_core.c.
*/
module PmmInit {
  import opened Octets
  import opened MemoryMap
  import opened PmmBitmap
  import opened PmmCore

  /** The map came out of `memory_map_add`. */
  ghost predicate Built(regions: seq<Region>, usable: nat) {
    MapOk(regions, usable, TotalBytes(regions, BootloaderReclaimable))
  }

  // ---------------------------------------------------------------- usable frames

  ghost function RegionFrames(r: Region): set<nat> {
    if r.kind == Usable then Run(r.base / PAGE, r.length / PAGE) else {}
  }

  ghost function UsableFrames(regions: seq<Region>): set<nat> {
    if regions == [] then {}
    else UsableFrames(regions[..|regions| - 1]) + RegionFrames(regions[|regions| - 1])
  }

  /** One past the last usable byte. */
  ghost function LastEnd(regions: seq<Region>): nat {
    if regions == [] then 0
    else
      var last, rest := regions[|regions| - 1], LastEnd(regions[..|regions| - 1]);
      if last.kind == Usable && last.End() > rest then last.End() else rest
  }

  lemma {:induction false} UsableOwner(regions: seq<Region>, f: nat) returns (i: nat)
    requires f in UsableFrames(regions)
    ensures i < |regions| && f in RegionFrames(regions[i])
  {
    if f in RegionFrames(regions[|regions| - 1]) {
      i := |regions| - 1;
    } else {
      i := UsableOwner(regions[..|regions| - 1], f);
    }
  }

  lemma FrameBytes(r: Region, f: nat)
    requires RegionOk(r) && f in RegionFrames(r)
    ensures r.kind == Usable && r.base <= f * PAGE && (f + 1) * PAGE <= r.End()
  {
  }

  lemma UsableApart(a: Region, b: Region)
    requires RegionOk(a) && RegionOk(b) && !Clash(a, b)
    ensures RegionFrames(a) !! RegionFrames(b)
  {
    forall f | f in RegionFrames(a) && f in RegionFrames(b) ensures false {
      FrameBytes(a, f);
      FrameBytes(b, f);
    }
  }

  lemma BuiltPrefix(regions: seq<Region>, usable: nat)
    requires Built(regions, usable) && regions != []
    ensures Built(regions[..|regions| - 1], TotalBytes(regions[..|regions| - 1], Usable))
  {
  }

  /** Exclusive regions do not share frames, so the bytes counted are the frames there are. */
  lemma {:induction false} UsableSize(regions: seq<Region>, usable: nat)
    requires Built(regions, usable)
    ensures Aligned(usable) && |UsableFrames(regions)| == usable / PAGE
    decreases |regions|
  {
    if regions != [] {
      var n := |regions| - 1;
      var rest, last := regions[..n], regions[n];
      BuiltPrefix(regions, usable);
      UsableSize(rest, TotalBytes(rest, Usable));
      LastApart(regions, usable);
      Added(UsableFrames(rest), RegionFrames(last));
      RunSize(last.base / PAGE, last.length / PAGE);
      SumOfPages(TotalBytes(rest, Usable), last.length);
    }
  }

  lemma LastApart(regions: seq<Region>, usable: nat)
    requires Built(regions, usable) && regions != []
    ensures UsableFrames(regions[..|regions| - 1]) !! RegionFrames(regions[|regions| - 1])
  {
    hide RegionFrames, Clash, RegionOk, TotalBytes;
    var n := |regions| - 1;
    forall f | f in UsableFrames(regions[..n]) && f in RegionFrames(regions[n]) ensures false {
      var i := UsableOwner(regions[..n], f);
      UsableApart(regions[n], regions[i]);
    }
  }

  lemma SumOfPages(a: nat, b: nat)
    ensures Aligned(a) && Aligned(b) ==> Aligned(a + b) && (a + b) / PAGE == a / PAGE + b / PAGE
  {
  }

  lemma {:induction false} UsableBelow(regions: seq<Region>, usable: nat)
    requires Built(regions, usable)
    ensures Aligned(LastEnd(regions)) && LastEnd(regions) <= UINT64_MAX
    ensures forall f | f in UsableFrames(regions) :: (f + 1) * PAGE <= LastEnd(regions)
    decreases |regions|
  {
    if regions != [] {
      var n := |regions| - 1;
      BuiltPrefix(regions, usable);
      UsableBelow(regions[..n], TotalBytes(regions[..n], Usable));
      assert RegionOk(regions[n]);
      SumOfPages(regions[n].base, regions[n].length);
      forall f | f in RegionFrames(regions[n]) ensures (f + 1) * PAGE <= regions[n].End() { FrameBytes(regions[n], f); }
    }
  }

  // ---------------------------------------------------------------- the plan

  function BitmapBytes(span: nat): nat { span / 8 + if span % 8 != 0 then 1 else 0 }

  /** Page zero is never used for storage. */
  function Start(r: Region): nat { if r.base == 0 then PAGE else r.base }

  predicate Roomy(r: Region, bytes: nat) { r.kind == Usable && Start(r) <= r.End() && bytes <= r.End() - Start(r) }

  ghost predicate PlanOk(regions: seq<Region>, p: Plan) {
    && p.span == LastEnd(regions) / PAGE && LastEnd(regions) != 0
    && p.bitmapBytes == BitmapBytes(p.span) && AlignUp(2 * p.bitmapBytes) == Some(p.storageBytes)
    && exists i | 0 <= i < |regions| :: FirstRoomy(regions, i, p.storageBytes) && p.storagePhys == Start(regions[i])
  }

  ghost predicate FirstRoomy(regions: seq<Region>, i: nat, bytes: nat)
    requires i < |regions|
  {
    Roomy(regions[i], bytes) && forall j | 0 <= j < i :: !Roomy(regions[j], bytes)
  }

  lemma PlanUnique(regions: seq<Region>, p: Plan, q: Plan)
    requires PlanOk(regions, p) && PlanOk(regions, q)
    ensures p == q
  {
    var i :| 0 <= i < |regions| && FirstRoomy(regions, i, p.storageBytes) && p.storagePhys == Start(regions[i]);
    var j :| 0 <= j < |regions| && FirstRoomy(regions, j, q.storageBytes) && q.storagePhys == Start(regions[j]);
  }

  ghost predicate Plannable(regions: seq<Region>) {
    && LastEnd(regions) != 0
    && AlignUp(2 * BitmapBytes(LastEnd(regions) / PAGE)).Some?
    && exists i | 0 <= i < |regions| :: Roomy(regions[i], AlignUp(2 * BitmapBytes(LastEnd(regions) / PAGE)).value)
  }

  /** The checks of the first pass, and what it adds up. */
  method Survey(regions: seq<Region>, usable: nat) returns (ok: bool, lastEnd: nat)
    ensures ok ==> lastEnd == LastEnd(regions) != 0 && usable == TotalBytes(regions, Usable)
    ensures Built(regions, usable) && LastEnd(regions) != 0 ==> ok
  {
    hide Aligned, Disjoint;
    if |regions| == 0 || |regions| > REGION_LIMIT { return false, 0; }
    lastEnd := 0;
    var bytes, i := 0, 0;
    while i < |regions|
      invariant i <= |regions| && lastEnd == LastEnd(regions[..i]) && bytes == TotalBytes(regions[..i], Usable)
    {
      var r := regions[i];
      assert regions[..i + 1][..i] == regions[..i];
      if Built(regions, usable) { BytesBelow(regions, i + 1); }
      if r.length == 0 || r.length > UINT64_MAX - r.base || (i != 0 && r.base < regions[i - 1].base) { return false, 0; }
      if r.kind == Usable {
        if !Aligned(r.base) || !Aligned(r.length) || r.length > UINT64_MAX - bytes { return false, 0; }
        if r.End() > lastEnd { lastEnd := r.End(); }
        bytes := bytes + r.length;
      }
      i := i + 1;
    }
    assert regions[..|regions|] == regions;
    ok := lastEnd != 0 && bytes == usable;
  }

  lemma {:induction false} BytesBelow(regions: seq<Region>, i: nat)
    requires i <= |regions|
    ensures TotalBytes(regions[..i], Usable) <= TotalBytes(regions, Usable)
    decreases |regions|
  {
    if i < |regions| {
      BytesBelow(regions[..|regions| - 1], i);
      assert regions[..|regions| - 1][..i] == regions[..i];
    } else {
      assert regions[..i] == regions;
    }
  }

  /** Storage for both bitmaps is found exactly when some usable region has room for it past page zero. */
  method MakePlan(regions: seq<Region>, usable: nat) returns (ok: bool, plan: Plan)
    ensures ok ==> PlanOk(regions, plan) && usable == TotalBytes(regions, Usable)
    ensures Built(regions, usable) ==> (ok <==> Plannable(regions))
  {
    hide Built, LastEnd, TotalBytes, AlignUp, AlignDown;
    plan := Plan(0, 0, 0, 0);
    var lastEnd;
    ok, lastEnd := Survey(regions, usable);
    if !ok { return; }
    var span := lastEnd / PAGE;
    var bitmap := BitmapBytes(span);
    if bitmap > UINT64_MAX / 2 {
      TooLong(2 * bitmap);
      return false, plan;
    }
    var storage := AlignUp(bitmap * 2);
    if storage.None? { return false, plan; }
    var i := 0;
    while i < |regions|
      invariant i <= |regions| && forall j | 0 <= j < i :: !Roomy(regions[j], storage.value)
    {
      if Roomy(regions[i], storage.value) {
        assert FirstRoomy(regions, i, storage.value);
        return true, Plan(Start(regions[i]), storage.value, bitmap, span);
      }
      i := i + 1;
    }
    ok := false;
  }

  lemma TooLong(x: nat)
    requires x > UINT64_MAX
    ensures AlignUp(x).None?
  {
  }

  // ---------------------------------------------------------------- initialization

  /** Every frame of a usable region eligible and clear, every other frame neither. */
  method PaintUsable(regions: seq<Region>, usable: nat, size: nat) returns (eligible: Bitmap, occupied: Bitmap)
    requires Built(regions, usable) && LastEnd(regions) / PAGE <= 8 * size
    ensures |eligible| == |occupied| == size
    ensures forall f: nat {:trigger Test(eligible, f)} :: Test(eligible, f) <==> f in UsableFrames(regions)
    ensures forall f: nat {:trigger Test(occupied, f)} | f < 8 * size :: Test(occupied, f) <==> f !in UsableFrames(regions)
  {
    hide Test, Painted, RegionFrames;
    eligible, occupied := seq(size, i => 0), seq(size, i => 255);
    assert (forall f: nat {:trigger Test(eligible, f)} :: !Test(eligible, f)) &&
           (forall f: nat {:trigger Test(occupied, f)} | f < 8 * size :: Test(occupied, f)) by {
      BlankBits(eligible, occupied, size);
    }
    var i := 0;
    while i < |regions|
      invariant i <= |regions| && |eligible| == |occupied| == size
      invariant forall f: nat {:trigger Test(eligible, f)} :: Test(eligible, f) <==> f in UsableFrames(regions[..i])
      invariant forall f: nat {:trigger Test(occupied, f)} | f < 8 * size :: Test(occupied, f) <==> f !in UsableFrames(regions[..i])
    {
      var r := regions[i];
      assert regions[..i + 1][..i] == regions[..i];
      RegionSpan(regions, usable, i);
      if r.kind == Usable {
        var e := Paint(eligible, r.base / PAGE, r.End() / PAGE, true);
        var o := Paint(occupied, r.base / PAGE, r.End() / PAGE, false);
        PaintedRegion(eligible, e, r, true);
        PaintedRegion(occupied, o, r, false);
        eligible, occupied := e, o;
      }
      i := i + 1;
    }
    assert regions[..|regions|] == regions;
  }

  lemma BlankBits(e: Bitmap, o: Bitmap, size: nat)
    requires |e| == |o| == size && forall i | 0 <= i < size :: e[i] == 0 && o[i] == 255
    ensures forall f: nat {:trigger Test(e, f)} :: !Test(e, f)
    ensures forall f: nat {:trigger Test(o, f)} | f < 8 * size :: Test(o, f)
  {
    forall f: nat {:trigger Test(o, f)} | f < 8 * size ensures Test(o, f) { assert f / 8 < size; }
  }

  lemma PaintedRegion(b: Bitmap, c: Bitmap, r: Region, value: bool)
    requires RegionOk(r) && r.kind == Usable && Painted(b, c, r.base / PAGE, r.End() / PAGE, value)
    ensures |c| == |b|
    ensures forall f: nat {:trigger Test(c, f)} :: Test(c, f) == if f in RegionFrames(r) then value else Test(b, f)
  {
    SumOfPages(r.base, r.length);
  }

  lemma RegionSpan(regions: seq<Region>, usable: nat, i: nat)
    requires Built(regions, usable) && i < |regions|
    ensures RegionOk(regions[i])
    ensures regions[i].kind == Usable ==> regions[i].base / PAGE <= regions[i].End() / PAGE <= LastEnd(regions) / PAGE
    ensures regions[i].kind != Usable ==> RegionFrames(regions[i]) == {}
  {
    if regions[i].kind == Usable { EndBelow(regions, i); }
  }

  lemma {:induction false} EndBelow(regions: seq<Region>, i: nat)
    requires i < |regions| && regions[i].kind == Usable
    ensures regions[i].End() <= LastEnd(regions)
    decreases |regions|
  {
    if i < |regions| - 1 { EndBelow(regions[..|regions| - 1], i); }
  }

  ghost function StorageFrames(p: Plan): set<nat> { Run(p.storagePhys / PAGE, p.storageBytes / PAGE) }

  /** The storage is whole pages of usable memory, not page zero. */
  lemma PlanStorage(regions: seq<Region>, usable: nat, p: Plan)
    requires Built(regions, usable) && PlanOk(regions, p)
    ensures Aligned(p.storagePhys) && Aligned(p.storageBytes) && 0 < p.storageBytes && PAGE <= p.storagePhys
    ensures p.storagePhys + p.storageBytes <= LastEnd(regions) && p.storagePhys + p.storageBytes <= UINT64_MAX - (PAGE - 1)
    ensures 0 < p.span <= 8 * p.bitmapBytes && p.span * PAGE == LastEnd(regions) <= UINT64_MAX
  {
    hide Aligned, AlignUp, BitmapBytes, UsableFrames, LastEnd, TotalBytes;
    UsableBelow(regions, usable);
    LastPage(LastEnd(regions));
    BitmapCovers(p.span);
    var i :| 0 <= i < |regions| && FirstRoomy(regions, i, p.storageBytes) && p.storagePhys == Start(regions[i]);
    RegionSpan(regions, usable, i);
    EndBelow(regions, i);
    StartAligned(regions[i]);
  }

  lemma BitmapCovers(span: nat)
    ensures span <= 8 * BitmapBytes(span)
  {
  }

  lemma StartAligned(r: Region)
    requires RegionOk(r) && r.kind == Usable
    ensures Aligned(Start(r)) && PAGE <= Start(r)
  {
  }

  lemma LastPage(x: nat)
    requires Aligned(x) && x <= UINT64_MAX
    ensures x <= UINT64_MAX - (PAGE - 1) && x / PAGE * PAGE == x && (x != 0 ==> 0 < x / PAGE)
  {
  }

  lemma WholePages(pmm: Pmm, phys: nat, bytes: nat)
    requires Aligned(phys) && Aligned(bytes) && phys + bytes <= pmm.plan.span * PAGE
    ensures pmm.Touched(phys, bytes) == Run(phys / PAGE, bytes / PAGE)
  {
    forall f: nat {:trigger Within(f, 0, pmm.plan.span)}
      ensures f in pmm.Touched(phys, bytes) <==> f in Run(phys / PAGE, bytes / PAGE)
    {
      assert Within(f, 0, pmm.plan.span) <==> f < pmm.plan.span;
      PageOf(f, phys, bytes);
    }
  }

  lemma PageOf(f: nat, phys: nat, bytes: nat)
    requires Aligned(phys) && Aligned(bytes)
    ensures (f * PAGE < phys + bytes && phys < (f + 1) * PAGE) <==> phys / PAGE <= f < phys / PAGE + bytes / PAGE
  {
  }

  method Bring(pmm: Pmm, regions: seq<Region>, usable: nat, plan: Plan)
    requires Built(regions, usable) && PlanOk(regions, plan)
    modifies pmm
    ensures pmm.initialized && pmm.Valid() && pmm.plan == plan && pmm.totalFrames == usable / PAGE
    ensures pmm.Free() == pmm.Eligible() == UsableFrames(regions)
  {
    PlanStorage(regions, usable, plan);
    UsableSize(regions, usable);
    UsableBelow(regions, usable);
    hide Test, PlanOk, Built, UsableFrames;
    var e, o := PaintUsable(regions, usable, plan.bitmapBytes);
    pmm.eligible, pmm.occupied, pmm.plan, pmm.cursor, pmm.initialized := e, o, plan, 0, true;
    pmm.totalFrames, pmm.freeFrames := usable / PAGE, usable / PAGE;
    assert Marked(e, plan.span) == UsableFrames(regions);
    assert Clear(o, plan.span) == UsableFrames(regions);
  }

  /** The allocator starts with exactly the usable frames minus page zero and its own bitmaps. */
  method Init(pmm: Pmm, regions: seq<Region>, usable: nat, plan: Plan) returns (ok: bool)
    requires pmm.Valid() && Built(regions, usable)
    modifies pmm
    ensures pmm.Valid()
    ensures ok <==> !old(pmm.initialized) && PlanOk(regions, plan)
    ensures !ok ==> unchanged(pmm)
    ensures ok ==> pmm.initialized && pmm.plan == plan && pmm.totalFrames == |UsableFrames(regions)|
    ensures ok ==> pmm.Free() == pmm.Eligible() == UsableFrames(regions) - {0} - StorageFrames(plan)
  {
    hide PlanOk, Built, Plannable, UsableFrames, Clear, Marked, Run;
    assert PlanOk(regions, plan) ==> Plannable(regions) by { PlanPlannable(regions, plan); }
    var expected;
    ok, expected := MakePlan(regions, usable);
    if PlanOk(regions, plan) { PlanUnique(regions, plan, expected); }
    if pmm.initialized || !ok || plan != expected { return false; }
    Bring(pmm, regions, usable, plan);
    UsableSize(regions, usable);
    PlanStorage(regions, usable, plan);
    WholePages(pmm, 0, PAGE);
    WholePages(pmm, plan.storagePhys, plan.storageBytes);
    assert pmm.Held() == {};
    var reserved := pmm.ReserveRange(0, PAGE);
    assert pmm.Held() == {};
    assert pmm.Touched(plan.storagePhys, plan.storageBytes) == StorageFrames(plan) by { WholePages(pmm, plan.storagePhys, plan.storageBytes); }
    reserved := pmm.ReserveRange(plan.storagePhys, plan.storageBytes);
    assert Run(0, 1) == {0} by { FirstFrame(); }
    assert pmm.Touched(plan.storagePhys, plan.storageBytes) == StorageFrames(plan) by { WholePages(pmm, plan.storagePhys, plan.storageBytes); }
    ok := true;
  }

  lemma PlanPlannable(regions: seq<Region>, p: Plan)
    ensures PlanOk(regions, p) ==> Plannable(regions)
  {
    if PlanOk(regions, p) {
      var i :| 0 <= i < |regions| && FirstRoomy(regions, i, p.storageBytes) && p.storagePhys == Start(regions[i]);
      assert Roomy(regions[i], p.storageBytes);
    }
  }

  lemma FirstFrame()
    ensures Run(0, 1) == {0}
  {
  }
}
