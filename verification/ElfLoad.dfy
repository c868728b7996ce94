/**
  Loading an executable into a fresh process (kernel/core/elf_load.c): what memory looks like afterwards, byte by byte,
  and what is left behind when loading fails.
*/
module ElfLoad {
  import opened Octets
  import opened MemoryMap
  import opened PageTable
  import opened VmmCore
  import opened UserVmSpec
  import opened UserCopySpec
  import opened UserVm
  import opened UserCells
  import opened Elf
  import opened ElfBudget

  const ARG_MAX: nat := 256
  const ARGUMENT: nat := STACK_TOP - ARG_MAX

  // ---------------------------------------------------------------- the picture

  /** The byte of an address in a segment of which `copied` bytes have arrived. */
  ghost function FileByte(s: Segment, image: Bytes, copied: nat, x: nat): Octet {
    if s.address <= x < s.address + copied && s.offset + (x - s.address) < |image| then image[s.offset + (x - s.address)] else 0
  }

  /** A segment in progress over what was there before. */
  ghost function Partial(below: Cell, s: Segment, image: Bytes, mapped: nat, copied: nat, closed: nat, x: nat): Cell {
    if s.pageStart <= x < mapped
    then Cell(AccessFlags(if x < closed then s.access else 1), FileByte(s, image, copied, x))
    else below
  }

  /** Memory after loading the segments in order. */
  ghost function Built(segments: seq<Segment>, image: Bytes, x: nat): Cell {
    if segments == [] then Hole
    else
      var n := |segments| - 1;
      Partial(Built(segments[..n], image, x), segments[n], image, segments[n].pageEnd, segments[n].fileSize, segments[n].pageEnd, x)
  }

  /** The stack with its `pages` topmost pages present. */
  ghost function Stacked(below: Cell, pages: nat, x: nat): Cell {
    if STACK_TOP - pages * PAGE <= x < STACK_TOP then Cell(AccessFlags(1), 0) else below
  }

  /** The argument and its terminating zero, over the stack. */
  ghost function Final(segments: seq<Segment>, image: Bytes, argument: Bytes, x: nat): Cell {
    if ARGUMENT <= x < ARGUMENT + |argument| then Cell(AccessFlags(1), argument[x - ARGUMENT])
    else Stacked(Built(segments, image, x), STACK_PAGES, x)
  }

  /** A segment's own pages show the segment: no later segment covers them. */
  lemma {:induction false} BuiltAt(segments: seq<Segment>, image: Bytes, i: nat, x: nat)
    requires SegmentsOk(|image|, segments) && i < |segments| && segments[i].pageStart <= x < segments[i].pageEnd
    ensures Built(segments, image, x) == Cell(AccessFlags(segments[i].access), FileByte(segments[i], image, segments[i].fileSize, x))
    decreases |segments|
  {
    var n := |segments| - 1;
    if i < n {
      assert Apart(segments[n], segments[i]);
      BuiltAt(segments[..n], image, i, x);
    }
  }

  lemma {:induction false} BuiltNowhere(segments: seq<Segment>, image: Bytes, x: nat)
    requires forall i | 0 <= i < |segments| :: !(segments[i].pageStart <= x < segments[i].pageEnd)
    ensures Built(segments, image, x) == Hole
    decreases |segments|
  {
    if segments != [] { BuiltNowhere(segments[..|segments| - 1], image, x); }
  }

  /** The page below the stack is missing. */
  lemma GuardPage(segments: seq<Segment>, image: Bytes, argument: Bytes, x: nat)
    requires SegmentsOk(|image|, segments) && STACK_GUARD <= x < STACK_BASE
    ensures Final(segments, image, argument, x) == Hole
  {
    hide Built, AllApart;
    forall i | 0 <= i < |segments| ensures !(segments[i].pageStart <= x < segments[i].pageEnd) {
      assert SegmentOk(|image|, segments[i]);
    }
    BuiltNowhere(segments, image, x);
  }

  /** A segment's pages hold its file bytes and zeros around them, with the rights it asked for. */
  lemma SegmentShown(segments: seq<Segment>, image: Bytes, argument: Bytes, i: nat, x: nat)
    requires SegmentsOk(|image|, segments) && i < |segments| && segments[i].pageStart <= x < segments[i].pageEnd && |argument| <= ARG_MAX
    ensures Final(segments, image, argument, x) ==
      var s := segments[i];
      Cell(AccessFlags(s.access), if s.address <= x < s.address + s.fileSize then image[s.offset + (x - s.address)] else 0)
  {
    hide Built, AllApart;
    assert SegmentOk(|image|, segments[i]);
    BuiltAt(segments, image, i, x);
  }

  /** Execution starts on a byte of the file that may be executed and not written. */
  lemma EntryPoint(segments: seq<Segment>, image: Bytes, argument: Bytes, entry: nat) returns (i: nat)
    requires SegmentsOk(|image|, segments) && Enters(segments, entry) && |argument| <= ARG_MAX
    ensures i < |segments| && InFile(segments[i], entry) && segments[i].offset + (entry - segments[i].address) < |image|
    ensures Final(segments, image, argument, entry) == Cell(AccessFlags(2), image[segments[i].offset + (entry - segments[i].address)])
  {
    hide Built, AllApart, Final;
    i :| 0 <= i < |segments| && segments[i].access == 2 && InFile(segments[i], entry);
    assert SegmentOk(|image|, segments[i]);
    SegmentShown(segments, image, argument, i, entry);
  }

  // ---------------------------------------------------------------- what each operation does to the picture

  /** The picture of a process matches a segment in progress over `done`. */
  ghost predicate Shows(v: Space, ram: Ram, done: seq<Segment>, s: Segment, image: Bytes, mapped: nat, copied: nat, closed: nat) {
    forall x: nat {:trigger CellOf(v, ram, x)} | x < USER_END :: CellOf(v, ram, x) == Partial(Built(done, image, x), s, image, mapped, copied, closed, x)
  }

  ghost predicate ShowsBuilt(v: Space, ram: Ram, done: seq<Segment>, image: Bytes) {
    forall x: nat {:trigger CellOf(v, ram, x)} | x < USER_END :: CellOf(v, ram, x) == Built(done, image, x)
  }

  lemma ShowsMapped(v: Space, t: Space, pages: Pages, va: nat, f: Frame, ram0: Ram, ram: Ram, done: seq<Segment>, s: Segment, image: Bytes)
    requires Agrees(v, pages) && f !in L.Owned(pages) && Translate(v, va) == Absent && Aligned(va) && s.pageStart <= va
    requires Remaps(v, t, va, f * PAGE, AccessFlags(1)) && RamZero(ram, f) && RamSame(ram0, ram, {f})
    requires Shows(v, ram0, done, s, image, va, 0, s.pageStart)
    ensures Shows(t, ram, done, s, image, va + PAGE, 0, s.pageStart)
  {
    hide Translate, Agrees, RamZero, RamSame, Remaps, Built, CellOf, AccessFlags;
    forall x: nat {:trigger CellOf(t, ram, x)} | x < USER_END
      ensures CellOf(t, ram, x) == Partial(Built(done, image, x), s, image, va + PAGE, 0, s.pageStart, x)
    {
      GainedCell(v, t, pages, va, 1, f, ram0, ram, x);
    }
  }

  lemma ShowsCopied(v: Space, ram0: Ram, ram: Ram, done: seq<Segment>, s: Segment, image: Bytes, copied: nat, n: nat)
    requires SegmentOk(|image|, s) && copied + n <= s.fileSize && Shows(v, ram0, done, s, image, s.pageEnd, copied, s.pageStart)
    requires Written(v, ram0, ram, s.address + copied, image[s.offset + copied..s.offset + copied + n], n)
    ensures Shows(v, ram, done, s, image, s.pageEnd, copied + n, s.pageStart)
  {
    hide Translate, Written, Built, CellOf, AccessFlags;
    forall x: nat {:trigger CellOf(v, ram, x)} | x < USER_END
      ensures CellOf(v, ram, x) == Partial(Built(done, image, x), s, image, s.pageEnd, copied + n, s.pageStart, x)
    {
      WrittenCell(v, ram0, ram, s.address + copied, image[s.offset + copied..s.offset + copied + n], x);
    }
  }

  lemma ShowsClosed(v: Space, t: Space, ram: Ram, done: seq<Segment>, s: Segment, image: Bytes, va: nat)
    requires Aligned(va) && s.pageStart <= va < va + PAGE <= s.pageEnd && Reprotects(v, t, va, AccessFlags(s.access))
    requires Shows(v, ram, done, s, image, s.pageEnd, s.fileSize, va)
    ensures Shows(t, ram, done, s, image, s.pageEnd, s.fileSize, va + PAGE)
  {
    hide Translate, Reprotects, Built, CellOf, AccessFlags, Permitted;
    Regranted(s.access);
    forall x: nat {:trigger CellOf(t, ram, x)} | x < USER_END
      ensures CellOf(t, ram, x) == Partial(Built(done, image, x), s, image, s.pageEnd, s.fileSize, va + PAGE, x)
    {
      ClosedCell(v, t, ram, va, s.access, x);
    }
  }

  // ---------------------------------------------------------------- segments

  /** The process lives, on frames of `pool` only, the rest of the pool is free, and `upper` is the kernel's half of its root. */
  ghost predicate Holds(vm: Vm, pool: set<Frame>, upper: seq<Entry>)
    reads vm, vm.space, vm.space.ctx, vm.space.ctx.pmm
  {
    vm.initialized && vm.Live() && vm.Owned() <= pool && vm.space.ctx.pmm.Free() == pool - vm.Owned() && KernelHalf(vm.space.ctx.mem, vm.space.root, upper)
  }

  lemma PoolGain(owned: set<Frame>, free: set<Frame>, owned': set<Frame>, free': set<Frame>, pool: set<Frame>)
    requires owned <= pool && free == pool - owned && owned <= owned' <= owned + free && free' == free - owned'
    ensures owned' <= pool && free' == pool - owned'
  {
  }

  /** Pages and tables taken so far. */
  ghost predicate Spent(vm: Vm, pages: nat, regions: nat)
    reads vm, vm.space, vm.space.ctx
  {
    vm.pageCount == pages && vm.space.ctx.count <= 1 + 3 * regions
  }

  lemma HoldsCount(vm: Vm, pool: set<Frame>, upper: seq<Entry>)
    requires Holds(vm, pool, upper)
    ensures vm.space.ctx.pmm.Free() <= pool && |vm.space.ctx.pmm.Free()| + vm.pageCount + vm.space.ctx.count == |pool|
  {
    hide L.Distinct, Agrees, PagesOk, Open, L.Owned;
    var data, tables, free := L.Owned(vm.pages), vm.space.ctx.Frames(), vm.space.ctx.pmm.Free();
    assert |data + tables| == |data| + |tables|;
    assert pool == free + (data + tables);
  }

  /** One page, zeroed and writable; failure for want of frames or tables. */
  method MapPage(vm: Vm, va: nat, ghost pool: set<Frame>, ghost upper: seq<Entry>) returns (good: bool, ghost f: Frame)
    requires Holds(vm, pool, upper)
    modifies vm, vm.space.ctx, vm.space.ctx.pmm
    ensures Holds(vm, pool, upper)
    ensures good ==> Aligned(va) && Translate(old(vm.space.View()), va) == Absent && f !in old(L.Owned(vm.pages))
    ensures good ==> Remaps(old(vm.space.View()), vm.space.View(), va, f * PAGE, AccessFlags(1))
    ensures good ==> RamZero(vm.ram, f) && RamSame(old(vm.ram), vm.ram, {f}) && old(Agrees(vm.space.View(), vm.pages))
    ensures good ==> vm.pageCount == old(vm.pageCount) + 1 && vm.space.ctx.count == old(vm.space.ctx.count) + Missing(old(vm.space.View()), va)
    ensures !good && Aligned(va) && ValidAddress(va) && old(vm.pageCount) < PAGE_LIMIT && Translate(old(vm.space.View()), va) == Absent ==>
      Short(Missing(old(vm.space.View()), va), vm.space.limit, vm.space.ctx.hidden, old(vm.space.ctx.count), old(vm.space.ctx.pmm.Free()))
  {
    hide Agrees, L.Owned, Translate, Remaps, RamZero, RamSame, AccessFlags, AddressSpace.Shaped, Vm.Paid, Missing, Short, Open;
    ghost var owned, free := vm.Owned(), vm.space.ctx.pmm.Free();
    vm.LiveReady();
    good, f := vm.AllocPage(va, 1);
    if good { PoolGain(owned, free, vm.Owned(), vm.space.ctx.pmm.Free(), pool); }
  }

  /** What a page costs: nothing but its frame if its neighbour is there, three tables at most otherwise. */
  ghost predicate Affordable(vm: Vm, va: nat, near: bool, pages: nat, regions: nat)
    reads vm, vm.space, vm.space.ctx, vm.space.ctx.pmm
  {
    && Aligned(va) && ValidAddress(va) && Translate(vm.space.View(), va) == Absent && Spent(vm, pages, regions) && pages < PAGE_LIMIT
    && (near ==> Missing(vm.space.View(), va) == 0)
  }

  /** One page of the budget. */
  method SpendPage(vm: Vm, va: nat, near: bool, ghost pool: set<Frame>, ghost upper: seq<Entry>, ghost pages: nat, ghost regions: nat, ghost P: nat, ghost R: nat)
    returns (good: bool, ghost f: Frame)
    requires Holds(vm, pool, upper) && Affordable(vm, va, near, pages, regions) && pages < P && (if near then regions else regions + 1) <= R
    modifies vm, vm.space.ctx, vm.space.ctx.pmm
    ensures Holds(vm, pool, upper)
    ensures good ==> f !in old(L.Owned(vm.pages)) && Translate(old(vm.space.View()), va) == Absent
    ensures good ==> Remaps(old(vm.space.View()), vm.space.View(), va, f * PAGE, AccessFlags(1))
    ensures good ==> RamZero(vm.ram, f) && RamSame(old(vm.ram), vm.ram, {f}) && old(Agrees(vm.space.View(), vm.pages))
    ensures good ==> Spent(vm, pages + 1, if near then regions else regions + 1)
    ensures !good ==> Cramped(vm.space.limit, vm.space.ctx.hidden, pool, P, R)
  {
    hide Holds, Agrees, L.Owned, Translate, Remaps, RamZero, RamSame, AccessFlags, Missing, Short, Cramped;
    ghost var v, count, free := vm.space.View(), vm.space.ctx.count, vm.space.ctx.pmm.Free();
    HoldsCount(vm, pool, upper);
    MissingBound(v, va);
    good, f := MapPage(vm, va, pool, upper);
    if !good { ShortCramped(vm.space.limit, vm.space.ctx.hidden, pool, free, Missing(v, va), pages, count, P, R); }
  }

  lemma ShowsStart(v: Space, ram: Ram, done: seq<Segment>, s: Segment, image: Bytes)
    requires ShowsBuilt(v, ram, done, image)
    ensures Shows(v, ram, done, s, image, s.pageStart, 0, s.pageStart)
  {
    hide CellOf, Built;
  }

  lemma ShowsEnd(v: Space, ram: Ram, done: seq<Segment>, s: Segment, image: Bytes)
    requires Shows(v, ram, done, s, image, s.pageEnd, s.fileSize, s.pageEnd)
    ensures ShowsBuilt(v, ram, done + [s], image)
  {
    hide CellOf, AccessFlags;
    assert (done + [s])[..|done|] == done;
  }

  lemma NextPage(va: nat, end: nat)
    requires Aligned(va) && Aligned(end) && va < end
    ensures Aligned(va + PAGE) && va + PAGE <= end
  {
  }

  /** Where the next page of a segment goes there is nothing yet; its neighbour below is there, except at the start or a boundary. */
  lemma NextAffordable(vm: Vm, pool: set<Frame>, upper: seq<Entry>, done: seq<Segment>, s: Segment, image: Bytes, va: nat, pages: nat, regions: nat)
    requires Holds(vm, pool, upper) && SegmentOk(|image|, s) && (forall i | 0 <= i < |done| :: Apart(s, done[i])) && s.pageStart <= va < s.pageEnd && Aligned(va)
    requires Shows(vm.space.View(), vm.ram, done, s, image, va, 0, s.pageStart) && Spent(vm, pages, regions) && pages < PAGE_LIMIT
    ensures Affordable(vm, va, va != s.pageStart && va % REGION != 0, pages, regions)
  {
    hide Translate, Vm.Paid, AddressSpace.Shaped, Open, Built, UserByte, Missing, Spent;
    var v := vm.space.View();
    BuiltNowhere(done, image, va);
    assert CellOf(v, vm.ram, va) == Hole;
    assert Consistent(Translate(v, va), vm.pages, va);
    TouchedMore(s.pageStart, va);
    if va != s.pageStart && va % REGION != 0 {
      assert CellOf(v, vm.ram, va - PAGE).Cell?;
      Neighbour(v, vm.pages, va, va - PAGE);
    }
  }

  method MapPages(vm: Vm, s: Segment, ghost done: seq<Segment>, ghost image: Bytes, ghost pool: set<Frame>, ghost upper: seq<Entry>, ghost P: nat, ghost R: nat) returns (good: bool)
    requires Holds(vm, pool, upper) && SegmentOk(|image|, s) && ShowsBuilt(vm.space.View(), vm.ram, done, image)
    requires (forall i | 0 <= i < |done| :: Apart(s, done[i])) && Spent(vm, Elf.Pages(done), Regions(done))
    requires Elf.Pages(done + [s]) <= P <= PAGE_LIMIT && Regions(done + [s]) <= R
    modifies vm, vm.space.ctx, vm.space.ctx.pmm
    ensures Holds(vm, pool, upper)
    ensures good ==> Shows(vm.space.View(), vm.ram, done, s, image, s.pageEnd, 0, s.pageStart)
    ensures good ==> Spent(vm, Elf.Pages(done + [s]), Regions(done + [s]))
    ensures !good ==> Cramped(vm.space.limit, vm.space.ctx.hidden, pool, P, R)
  {
    hide Holds, Shows, ShowsBuilt, Agrees, L.Owned, Translate, Remaps, RamZero, RamSame, Spent, Affordable, Touched, Regions, Elf.Pages, Cramped;
    ShowsStart(vm.space.View(), vm.ram, done, s, image);
    PagesMore(done, s);
    RegionsMore(done, s);
    ghost var pages, regions := Elf.Pages(done), Regions(done);
    NoneTouched(s.pageStart);
    good := true;
    var va := s.pageStart;
    while good && va < s.pageEnd
      invariant Holds(vm, pool, upper) && va <= s.pageEnd && Aligned(va) && s.pageStart <= va
      invariant good ==> Shows(vm.space.View(), vm.ram, done, s, image, va, 0, s.pageStart)
      invariant good ==> Spent(vm, pages + (va - s.pageStart) / PAGE, regions + Touched(s.pageStart, va))
      invariant !good ==> Cramped(vm.space.limit, vm.space.ctx.hidden, pool, P, R)
      decreases s.pageEnd - va
    {
      ghost var v, listed, ram, f := vm.space.View(), vm.pages, vm.ram, 0;
      PageRoom(s, va);
      ghost var n, r := pages + (va - s.pageStart) / PAGE, regions + Touched(s.pageStart, va);
      TouchedMore(s.pageStart, va);
      NextAffordable(vm, pool, upper, done, s, image, va, n, r);
      good, f := SpendPage(vm, va, va != s.pageStart && va % REGION != 0, pool, upper, n, r, P, R);
      if good { ShowsMapped(v, vm.space.View(), listed, va, f, ram, vm.ram, done, s, image); }
      va := va + PAGE;
    }
  }

  lemma NoneTouched(first: nat)
    ensures Touched(first, first) == 0
  {
  }

  lemma PageRoom(s: Segment, va: nat)
    requires Aligned(va) && Aligned(s.pageStart) && Aligned(s.pageEnd) && s.pageStart <= va < s.pageEnd
    ensures Aligned(va + PAGE) && va + PAGE <= s.pageEnd && (va - s.pageStart) / PAGE < PageCount(s)
    ensures (va + PAGE - s.pageStart) / PAGE == (va - s.pageStart) / PAGE + 1
    ensures Touched(s.pageStart, va + PAGE) <= Touched(s.pageStart, s.pageEnd)
  {
  }

  /** The pages of a segment in progress accept the copy. */
  lemma ShowsWritable(v: Space, ram: Ram, done: seq<Segment>, s: Segment, image: Bytes, copied: nat, n: nat)
    requires SegmentOk(|image|, s) && copied + n <= s.fileSize && Shows(v, ram, done, s, image, s.pageEnd, copied, s.pageStart)
    requires n <= COPY_LIMIT
    ensures CopyGuard(v, s.address + copied, n, true)
  {
    hide Translate, Built, UserByte;
    var virt := s.address + copied;
    forall x: nat {:trigger Translate(v, x)} | virt <= x < virt + n ensures Translate(v, x).Mapped? && Translate(v, x).flags.writable {
      assert CellOf(v, ram, x).Cell?;
    }
  }

  /** Copying a segment's file bytes never fails. */
  method CopySegment(vm: Vm, s: Segment, image: Bytes, ghost done: seq<Segment>, ghost pool: set<Frame>, ghost upper: seq<Entry>) returns (good: bool)
    requires Holds(vm, pool, upper) && SegmentOk(|image|, s) && Shows(vm.space.View(), vm.ram, done, s, image, s.pageEnd, 0, s.pageStart)
    modifies vm`ram
    ensures Holds(vm, pool, upper) && good
    ensures Shows(vm.space.View(), vm.ram, done, s, image, s.pageEnd, s.fileSize, s.pageStart)
  {
    hide Shows, L.Owned, Translate, Written, CopyGuard, Vm.Paid, AddressSpace.Shaped, Agrees;
    good := true;
    ghost var v := vm.space.View();
    var copied := 0;
    while good && copied < s.fileSize
      invariant Holds(vm, pool, upper) && copied <= s.fileSize && good && vm.space.View() == v
      invariant Shows(v, vm.ram, done, s, image, s.pageEnd, copied, s.pageStart)
      decreases s.fileSize - copied
    {
      var left := s.fileSize - copied;
      var n := if left < COPY_LIMIT then left else COPY_LIMIT;
      var data := image[s.offset + copied..s.offset + copied + n];
      ghost var ram := vm.ram;
      ShowsWritable(v, ram, done, s, image, copied, n);
      good := vm.CopyTo(s.address + copied, data);
      ShowsCopied(v, ram, vm.ram, done, s, image, copied, n);
      copied := copied + n;
    }
  }

  /** Every page of a segment in progress can be given its final rights. */
  lemma ShowsPresent(v: Space, ram: Ram, done: seq<Segment>, s: Segment, image: Bytes, va: nat)
    requires SegmentOk(|image|, s) && Shows(v, ram, done, s, image, s.pageEnd, s.fileSize, va) && s.pageStart <= va < s.pageEnd
    ensures ValidAddress(va) && ValidAccess(s.access) && Translate(v, va).Mapped?
  {
    hide Translate, Built, UserByte;
    assert CellOf(v, ram, va).Cell?;
  }

  /** Setting the final rights never fails. */
  method ClosePages(vm: Vm, s: Segment, ghost done: seq<Segment>, ghost image: Bytes, ghost pool: set<Frame>, ghost upper: seq<Entry>) returns (good: bool)
    requires Holds(vm, pool, upper) && SegmentOk(|image|, s) && Shows(vm.space.View(), vm.ram, done, s, image, s.pageEnd, s.fileSize, s.pageStart)
    modifies vm.space.ctx
    ensures Holds(vm, pool, upper) && good && vm.space.ctx.count == old(vm.space.ctx.count)
    ensures ShowsBuilt(vm.space.View(), vm.ram, done + [s], image)
  {
    hide Shows, ShowsBuilt, L.Owned, Translate, Reprotects, Vm.Paid, AddressSpace.Shaped, Agrees, Open;
    good := true;
    var va := s.pageStart;
    while good && va < s.pageEnd
      invariant Holds(vm, pool, upper) && s.pageStart <= va <= s.pageEnd && Aligned(va) && good && vm.space.ctx.count == old(vm.space.ctx.count)
      invariant Shows(vm.space.View(), vm.ram, done, s, image, s.pageEnd, s.fileSize, va)
      decreases s.pageEnd - va
    {
      ghost var v := vm.space.View();
      ShowsPresent(v, vm.ram, done, s, image, va);
      good := vm.ProtectPage(va, s.access);
      NextPage(va, s.pageEnd);
      ShowsClosed(v, vm.space.View(), vm.ram, done, s, image, va);
      va := va + PAGE;
    }
    ShowsEnd(vm.space.View(), vm.ram, done, s, image);
  }

  method LoadSegment(vm: Vm, s: Segment, image: Bytes, ghost done: seq<Segment>, ghost pool: set<Frame>, ghost upper: seq<Entry>, ghost P: nat, ghost R: nat) returns (good: bool)
    requires Holds(vm, pool, upper) && SegmentOk(|image|, s) && ShowsBuilt(vm.space.View(), vm.ram, done, image)
    requires (forall i | 0 <= i < |done| :: Apart(s, done[i])) && Spent(vm, Elf.Pages(done), Regions(done))
    requires Elf.Pages(done + [s]) <= P <= PAGE_LIMIT && Regions(done + [s]) <= R
    modifies vm, vm.space.ctx, vm.space.ctx.pmm
    ensures Holds(vm, pool, upper)
    ensures good ==> ShowsBuilt(vm.space.View(), vm.ram, done + [s], image) && Spent(vm, Elf.Pages(done + [s]), Regions(done + [s]))
    ensures !good ==> Cramped(vm.space.limit, vm.space.ctx.hidden, pool, P, R)
  {
    hide Holds, Shows, ShowsBuilt, SegmentOk, Elf.Pages, Regions, Cramped;
    good := MapPages(vm, s, done, image, pool, upper, P, R);
    if good { good := CopySegment(vm, s, image, done, pool, upper); }
    if good { good := ClosePages(vm, s, done, image, pool, upper); }
  }

  method LoadSegments(vm: Vm, segments: seq<Segment>, image: Bytes, ghost pool: set<Frame>, ghost upper: seq<Entry>, ghost P: nat, ghost R: nat) returns (good: bool)
    requires Holds(vm, pool, upper) && SegmentsOk(|image|, segments) && ShowsBuilt(vm.space.View(), vm.ram, [], image) && Spent(vm, 0, 0)
    requires Elf.Pages(segments) <= P <= PAGE_LIMIT && Regions(segments) <= R
    modifies vm, vm.space.ctx, vm.space.ctx.pmm
    ensures Holds(vm, pool, upper)
    ensures good ==> ShowsBuilt(vm.space.View(), vm.ram, segments, image) && Spent(vm, Elf.Pages(segments), Regions(segments))
    ensures !good ==> Cramped(vm.space.limit, vm.space.ctx.hidden, pool, P, R)
  {
    hide Holds, Shows, ShowsBuilt, SegmentOk, Elf.Pages, Regions, Cramped, Apart, Spent;
    good := true;
    NothingLoaded();
    assert segments[..0] == [];
    var i := 0;
    while good && i < |segments|
      invariant Holds(vm, pool, upper) && i <= |segments|
      invariant good ==> ShowsBuilt(vm.space.View(), vm.ram, segments[..i], image) && Spent(vm, Elf.Pages(segments[..i]), Regions(segments[..i]))
      invariant !good ==> Cramped(vm.space.limit, vm.space.ctx.hidden, pool, P, R)
    {
      assert segments[..i] + [segments[i]] == segments[..i + 1];
      PagesPrefix(segments[..i + 1], segments);
      RegionsPrefix(segments[..i + 1], segments);
      good := LoadSegment(vm, segments[i], image, segments[..i], pool, upper, P, R);
      i := i + 1;
    }
    assert segments[..|segments|] == segments;
  }

  lemma NothingLoaded()
    ensures Elf.Pages([]) == 0 && Regions([]) == 0
  {
  }

  // ---------------------------------------------------------------- the stack

  ghost predicate ShowsStack(v: Space, ram: Ram, segments: seq<Segment>, image: Bytes, pages: nat) {
    forall x: nat {:trigger CellOf(v, ram, x)} | x < USER_END :: CellOf(v, ram, x) == Stacked(Built(segments, image, x), pages, x)
  }

  ghost predicate ShowsFinal(v: Space, ram: Ram, segments: seq<Segment>, image: Bytes, argument: Bytes) {
    forall x: nat {:trigger CellOf(v, ram, x)} | x < USER_END :: CellOf(v, ram, x) == Final(segments, image, argument, x)
  }

  lemma StackMapped(v: Space, t: Space, pages: Pages, i: nat, f: Frame, ram0: Ram, ram: Ram, segments: seq<Segment>, image: Bytes)
    requires i < STACK_PAGES && Agrees(v, pages) && f !in L.Owned(pages) && Translate(v, STACK_TOP - (i + 1) * PAGE) == Absent
    requires Remaps(v, t, STACK_TOP - (i + 1) * PAGE, f * PAGE, AccessFlags(1)) && RamZero(ram, f) && RamSame(ram0, ram, {f})
    requires ShowsStack(v, ram0, segments, image, i)
    ensures ShowsStack(t, ram, segments, image, i + 1)
  {
    hide Translate, Agrees, RamZero, RamSame, Remaps, Built, CellOf, AccessFlags;
    forall x: nat {:trigger CellOf(t, ram, x)} | x < USER_END
      ensures CellOf(t, ram, x) == Stacked(Built(segments, image, x), i + 1, x)
    {
      GainedCell(v, t, pages, STACK_TOP - (i + 1) * PAGE, 1, f, ram0, ram, x);
    }
  }

  lemma StackStart(v: Space, ram: Ram, segments: seq<Segment>, image: Bytes)
    requires ShowsBuilt(v, ram, segments, image)
    ensures ShowsStack(v, ram, segments, image, 0)
  {
    hide CellOf, Built;
  }

  /** The stack pages lie in one region that no segment covers. */
  lemma StackAffordable(vm: Vm, pool: set<Frame>, upper: seq<Entry>, segments: seq<Segment>, image: Bytes, i: nat, pages: nat, regions: nat)
    requires Holds(vm, pool, upper) && SegmentsOk(|image|, segments) && i < STACK_PAGES
    requires ShowsStack(vm.space.View(), vm.ram, segments, image, i) && Spent(vm, pages, regions) && pages < PAGE_LIMIT
    ensures Affordable(vm, STACK_TOP - (i + 1) * PAGE, i > 0, pages, regions)
  {
    hide Translate, Vm.Paid, AddressSpace.Shaped, Open, Built, UserByte, Missing, Spent, AllApart;
    var v, va := vm.space.View(), STACK_TOP - (i + 1) * PAGE;
    forall k | 0 <= k < |segments| ensures !(segments[k].pageStart <= va < segments[k].pageEnd) { assert SegmentOk(|image|, segments[k]); }
    BuiltNowhere(segments, image, va);
    assert CellOf(v, vm.ram, va) == Hole;
    assert Consistent(Translate(v, va), vm.pages, va);
    if i > 0 {
      assert CellOf(v, vm.ram, va + PAGE).Cell?;
      StackRegion(i);
      Neighbour(v, vm.pages, va, va + PAGE);
    }
  }

  lemma StackRegion(i: nat)
    requires 0 < i < STACK_PAGES
    ensures (STACK_TOP - (i + 1) * PAGE) / REGION == (STACK_TOP - i * PAGE) / REGION
  {
  }

  method MapStack(vm: Vm, ghost segments: seq<Segment>, ghost image: Bytes, ghost pool: set<Frame>, ghost upper: seq<Entry>, ghost P: nat, ghost R: nat) returns (good: bool)
    requires Holds(vm, pool, upper) && SegmentsOk(|image|, segments) && ShowsBuilt(vm.space.View(), vm.ram, segments, image)
    requires Spent(vm, Elf.Pages(segments), Regions(segments)) && Elf.Pages(segments) + STACK_PAGES <= P <= PAGE_LIMIT && Regions(segments) + 1 <= R
    modifies vm, vm.space.ctx, vm.space.ctx.pmm
    ensures Holds(vm, pool, upper)
    ensures good ==> ShowsStack(vm.space.View(), vm.ram, segments, image, STACK_PAGES)
    ensures !good ==> Cramped(vm.space.limit, vm.space.ctx.hidden, pool, P, R)
  {
    hide Holds, ShowsStack, ShowsBuilt, Agrees, L.Owned, Translate, Remaps, RamZero, RamSame, SegmentsOk, Spent, Affordable, Elf.Pages, Regions, Cramped;
    StackStart(vm.space.View(), vm.ram, segments, image);
    ghost var pages, regions := Elf.Pages(segments), Regions(segments);
    good := true;
    var i := 0;
    while good && i < STACK_PAGES
      invariant Holds(vm, pool, upper) && i <= STACK_PAGES
      invariant good ==> ShowsStack(vm.space.View(), vm.ram, segments, image, i)
      invariant good ==> Spent(vm, pages + i, if i > 0 then regions + 1 else regions)
      invariant !good ==> Cramped(vm.space.limit, vm.space.ctx.hidden, pool, P, R)
    {
      ghost var v, listed, ram, f := vm.space.View(), vm.pages, vm.ram, 0;
      StackAffordable(vm, pool, upper, segments, image, i, pages + i, if i > 0 then regions + 1 else regions);
      good, f := SpendPage(vm, STACK_TOP - (i + 1) * PAGE, i > 0, pool, upper, pages + i, if i > 0 then regions + 1 else regions, P, R);
      if good { StackMapped(v, vm.space.View(), listed, i, f, ram, vm.ram, segments, image); }
      i := i + 1;
    }
  }

  lemma ArgumentFits(v: Space, ram: Ram, segments: seq<Segment>, image: Bytes, n: nat)
    requires ShowsStack(v, ram, segments, image, STACK_PAGES) && n <= ARG_MAX
    ensures CopyGuard(v, ARGUMENT, n, true)
  {
    hide Translate, Built, UserByte;
    forall x: nat {:trigger Translate(v, x)} | ARGUMENT <= x < ARGUMENT + n ensures Translate(v, x).Mapped? && Translate(v, x).flags.writable {
      assert CellOf(v, ram, x).Cell?;
    }
  }

  lemma ArgumentShown(v: Space, ram0: Ram, ram: Ram, segments: seq<Segment>, image: Bytes, argument: Bytes)
    requires ShowsStack(v, ram0, segments, image, STACK_PAGES) && |argument| <= ARG_MAX
    requires Written(v, ram0, ram, ARGUMENT, argument, |argument|)
    ensures ShowsFinal(v, ram, segments, image, argument)
  {
    hide Translate, Written, Built, CellOf, AccessFlags;
    forall x: nat {:trigger CellOf(v, ram, x)} | x < USER_END ensures CellOf(v, ram, x) == Final(segments, image, argument, x) {
      WrittenCell(v, ram0, ram, ARGUMENT, argument, x);
    }
  }

  method CopyArgument(vm: Vm, argument: Bytes, ghost segments: seq<Segment>, ghost image: Bytes, ghost pool: set<Frame>, ghost upper: seq<Entry>) returns (good: bool)
    requires Holds(vm, pool, upper) && ShowsStack(vm.space.View(), vm.ram, segments, image, STACK_PAGES) && |argument| <= ARG_MAX
    modifies vm`ram
    ensures Holds(vm, pool, upper) && good && ShowsFinal(vm.space.View(), vm.ram, segments, image, argument)
  {
    hide ShowsStack, ShowsFinal, L.Owned, Translate, Written, CopyGuard, Vm.Paid, AddressSpace.Shaped, Agrees;
    ArgumentFits(vm.space.View(), vm.ram, segments, image, |argument|);
    ghost var v, ram := vm.space.View(), vm.ram;
    good := vm.CopyTo(ARGUMENT, argument);
    ArgumentShown(v, ram, vm.ram, segments, image, argument);
  }

  // ---------------------------------------------------------------- loading

  datatype Start = Start(entry: nat, rsp: nat, argument: nat)

  /** The length of a C string, or `ARG_MAX` if no zero byte comes earlier. */
  method ArgumentLength(argument: Bytes) returns (n: nat)
    requires |argument| >= ARG_MAX || 0 in argument
    ensures n <= ARG_MAX && n <= |argument| && 0 !in argument[..n] && (n < ARG_MAX ==> n < |argument| && argument[n] == 0)
  {
    n := 0;
    while n < ARG_MAX && argument[n] != 0
      invariant n <= ARG_MAX && n <= |argument| && 0 !in argument[..n] && (n < ARG_MAX ==> n < |argument|)
    {
      n := n + 1;
      assert argument[..n] == argument[..n - 1] + [argument[n - 1]];
      if n == |argument| { assert argument[..n] == argument; }
    }
  }

  method Populate(vm: Vm, segments: seq<Segment>, image: Bytes, argument: Bytes, ghost pool: set<Frame>, ghost upper: seq<Entry>) returns (good: bool)
    requires Holds(vm, pool, upper) && SegmentsOk(|image|, segments) && ShowsBuilt(vm.space.View(), vm.ram, [], image) && |argument| <= ARG_MAX
    requires Spent(vm, 0, 0) && Elf.Pages(segments) + STACK_PAGES <= PAGE_LIMIT
    modifies vm, vm.space.ctx, vm.space.ctx.pmm
    ensures Holds(vm, pool, upper)
    ensures good ==> ShowsFinal(vm.space.View(), vm.ram, segments, image, argument)
    ensures !good ==> Cramped(vm.space.limit, vm.space.ctx.hidden, pool, Elf.Pages(segments) + STACK_PAGES, Regions(segments) + 1)
  {
    hide Holds, ShowsStack, ShowsFinal, ShowsBuilt, SegmentsOk, Spent, Elf.Pages, Regions, Cramped;
    ghost var P, R := Elf.Pages(segments) + STACK_PAGES, Regions(segments) + 1;
    good := LoadSegments(vm, segments, image, pool, upper, P, R);
    if good { good := MapStack(vm, segments, image, pool, upper, P, R); }
    if good { good := CopyArgument(vm, argument, segments, image, pool, upper); }
  }

  /** Without a frame for the root there is none for the pages. */
  lemma RootCramped(bits: nat, hidden: set<Frame>, pool: set<Frame>, pages: nat, regions: nat)
    requires NoRoot(bits, hidden, pool) && bits >= 12
    ensures Cramped(Pow2(bits - 12), hidden, pool, pages, regions)
  {
    hide Pow2;
  }

  lemma EmptyShown(v: Space, ram: Ram, image: Bytes)
    requires LowerHalfEmpty(v)
    ensures ShowsBuilt(v, ram, [], image)
  {
    hide Translate;
  }

  /** Give everything back. */
  method Rollback(vm: Vm, ghost pool: set<Frame>, ghost upper: seq<Entry>)
    requires Holds(vm, pool, upper)
    modifies vm, vm.space, vm.space.ctx, vm.space.ctx.pmm
    ensures vm.Valid() && !vm.initialized && vm.space.ctx.pmm.Free() == pool
  {
    hide Vm.Paid, AddressSpace.Shaped, Agrees, L.Owned;
    ghost var owned := vm.Owned();
    var ok := vm.Destroy(false);
    assert pool - owned + owned == pool;
    if !ok {
      assert false;
      return;
    }
  }

  /**
    A successful load leaves exactly the planned picture in user memory, paid for from the frames that were free; a
    failed one leaves the process unborn and the allocator's free frames as they were.
  */
  method Load(vm: Vm, image: Bytes, argument: Bytes, kernel: Option<Kernel>, extended: bool) returns (r: Option<Start>)
    requires vm.Valid() && (|argument| >= ARG_MAX || 0 in argument)
    requires kernel.Some? ==> |kernel.value.upper| == 256 && Shared(kernel.value.upper) !! vm.space.ctx.pmm.Eligible()
    modifies vm, vm.space, vm.space.ctx, vm.space.ctx.pmm
    ensures vm.Valid() && vm.initialized == (old(vm.initialized) || r.Some?)
    ensures r.None? ==> vm.space.ctx.pmm.Free() == old(vm.space.ctx.pmm.Free())
    ensures old(vm.initialized) ==> unchanged(vm, vm.space, vm.space.ctx, vm.space.ctx.pmm)
    ensures r.Some? ==> !old(vm.initialized) && Loadable(image) && r.value == Start(EntryAddress(image), ARGUMENT - 16, ARGUMENT)
    ensures r.Some? ==> kernel.Some? && Holds(vm, old(vm.space.ctx.pmm.Free()), kernel.value.upper)
    ensures r.None? && Loadable(image) && 0 in argument[..if |argument| < ARG_MAX then |argument| else ARG_MAX]
            && CreateGuard(old(vm.initialized), kernel, extended) ==>
      Cramped(Pow2(kernel.value.bits - 12), vm.space.ctx.hidden, old(vm.space.ctx.pmm.Free()),
              Elf.Pages(Loads(image, Count(image))) + STACK_PAGES, Regions(Loads(image, Count(image))) + 1)
    ensures r.Some? ==> exists n: nat | n < ARG_MAX && n < |argument| && 0 !in argument[..n] && argument[n] == 0 ::
      ShowsFinal(vm.space.View(), vm.ram, Loads(image, Count(image)), image, argument[..n + 1])
  {
    hide Vm.Live, Vm.Zeroed, Loadable, Loads, ShowsFinal, ShowsBuilt, SegmentsOk, Shared, LowerHalfEmpty, Elf.Pages, Regions, Cramped, Pow2, NoRoot;
    r := None;
    if vm.initialized { return; }
    var ok, plan := Validate(image);
    if !ok { return; }
    PlanSound(image);
    var n := ArgumentLength(argument);
    if n == ARG_MAX { return; }
    ghost var pool := vm.space.ctx.pmm.Free();
    var created := vm.Create(kernel, extended);
    if !created {
      if CreateGuard(false, kernel, extended) {
        RootCramped(kernel.value.bits, vm.space.ctx.hidden, pool, Elf.Pages(plan.segments) + STACK_PAGES, Regions(plan.segments) + 1);
      }
      return;
    }
    EmptyShown(vm.space.View(), vm.ram, image);
    var good := Populate(vm, plan.segments, image, argument[..n + 1], pool, kernel.value.upper);
    if !good {
      Rollback(vm, pool, kernel.value.upper);
      return;
    }
    r := Some(Start(plan.entry, ARGUMENT - 16, ARGUMENT));
  }
}
