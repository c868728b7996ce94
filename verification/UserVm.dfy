/**
  Process address spaces of kernel/memory/user_vm.c: a private four-level tree, a ledger of data pages and a ledger of
  table frames, all paid for by the frame allocator. A branch in which the kernel would panic is proved unreachable.
*/
module UserVm {
  import opened Octets
  import opened MemoryMap
  import opened PageTable
  import opened VmmTree
  import opened VmmCore
  import opened PmmCore
  import opened TableLedger
  import opened UserVmSpec
  import opened UserCopySpec
  import L = FrameLedger

  ghost predicate RamZero(ram: Ram, f: Frame) {
    forall p: nat {:trigger Byte(ram, p)} | p / PAGE == f :: Byte(ram, p) == 0
  }

  class Vm {
    const space: AddressSpace
    var pages: Pages
    var pageCount: nat
    var initialized: bool
    /** Data frames, seen through the direct map. */
    var ram: Ram
    /** Where each table hangs, and the kernel tables shared by the upper half. */
    ghost var place: Places
    ghost var foreign: set<Frame>

    constructor (space: AddressSpace, ram: Ram)
      ensures this.space == space && this.ram == ram && !initialized && pageCount == 0
      ensures |pages| == PAGE_LIMIT && forall i | 0 <= i < |pages| :: pages[i].Vacant?
    {
      this.space, this.ram, pages, pageCount, initialized := space, ram, seq(PAGE_LIMIT, i => L.Vacant), 0, false;
      place, foreign := map[], {};
    }

    ghost predicate Zeroed()
      reads this, space, space.ctx, space.ctx.pmm
    {
      && !initialized && !space.initialized && pageCount == 0 && space.ctx.count == 0
      && |pages| == PAGE_LIMIT && (forall i | 0 <= i < |pages| :: pages[i].Vacant?)
      && |space.ctx.slots| == TABLE_LIMIT && (forall i | 0 <= i < TABLE_LIMIT :: space.ctx.slots[i].Vacant?)
      && space.ctx.pmm.Valid() && space.ctx.pmm.initialized && space.ctx.Logged()
    }

    /** Ownership: distinct data frames, held in the allocator, reachable, and none of them a table. */
    ghost predicate Paid()
      reads this, space, space.ctx, space.ctx.pmm
    {
      && PagesOk(pages) && pageCount == |L.Owned(pages)|
      && Books(L.Owned(pages), space.ctx.Frames(), space.ctx.hidden, space.ctx.pmm.Eligible(), space.ctx.pmm.Free())
    }

    ghost predicate Live()
      reads this, space, space.ctx, space.ctx.pmm
    {
      && initialized && space.Shaped(place, foreign) && space.nx && Paid() && Agrees(space.View(), pages) && Open(space.View())
    }

    ghost predicate Valid()
      reads this, space, space.ctx, space.ctx.pmm
    {
      if initialized then Live() else Zeroed()
    }

    /** Every frame this process has out of the allocator. */
    ghost function Owned(): set<Frame>
      reads this, space, space.ctx
    {
      L.Owned(pages) + space.ctx.Frames()
    }

    /** The `ready` test of the source, on the fields it reads. */
    predicate Ready()
      reads this, space, space.ctx
    {
      && initialized && space.initialized && space.nx && pageCount <= PAGE_LIMIT
      && space.ctx.count != 0 && space.ctx.count <= TABLE_LIMIT
      && |space.ctx.slots| > 0 && space.ctx.slots[0] == L.Taken(space.root, true)
    }

    lemma LiveReady()
      requires Live()
      ensures Ready() && space.ctx.pmm.Valid() && space.ctx.pmm.initialized
      ensures space.ctx.pmm.Free() !! Owned() && space.ctx.pmm.Free() <= space.ctx.pmm.Eligible()
    {
      L.OwnedAt(space.ctx.slots, 0);
      hide Tree, Agrees, TagOk, L.Distinct, Pmm.Valid;
      SlotBound(pages);
      SlotBound(space.ctx.slots);
      assert space.ctx.count != 0;
    }

    // -------------------------------------------------------------- queries

    method PageSlot(virt: nat) returns (i: nat)
      ensures i == SlotOf(pages, AlignDown(virt))
    {
      i := 0;
      while i < |pages|
        invariant i <= |pages| && forall j | 0 <= j < i && pages[j].Taken? :: pages[j].tag != AlignDown(virt)
      {
        if pages[i].Taken? && pages[i].tag == AlignDown(virt) { return; }
        i := i + 1;
      }
    }

    /** What a state needs for any operation: an allocator and ledgers of the right size. */
    ghost predicate Grounded()
      reads this, space, space.ctx, space.ctx.pmm
    {
      space.ctx.pmm.Valid() && space.ctx.pmm.initialized && |pages| == PAGE_LIMIT && |space.ctx.slots| == TABLE_LIMIT && space.ctx.Logged()
    }

    /** A query on any state whatever: an answer is given only if tables, ledger and allocator agree on it. */
    method QueryLocked(virt: nat) returns (a: Answer)
      requires Grounded()
      ensures a == if Ready() then Locked(space.View(), pages, space.ctx.pmm.Held(), virt) else Refused
    {
      hide Translate, L.Owned, Pmm.Valid, UserFlags, SlotOf, Clear, Marked;
      if !Ready() || !ValidAddress(virt) { return Refused; }
      a := space.Query(virt);
      if a.Refused? { return; }
      var slot := PageSlot(virt);
      if a.Absent? {
        if slot != |pages| { return Refused; }
      } else {
        if slot == |pages| { return Refused; }
        assert Aligned(pages[slot].frame * PAGE) && pages[slot].frame * PAGE / PAGE == pages[slot].frame;
        var held := space.ctx.pmm.IsAllocatedPage(pages[slot].frame * PAGE);
        if a.size != PAGE || AlignDown(a.physical) / PAGE != pages[slot].frame || !held || !UserFlags(a.flags) { return Refused; }
      }
    }

    lemma LiveLocked(virt: nat)
      requires Live() && ValidAddress(virt)
      ensures Locked(space.View(), pages, space.ctx.pmm.Held(), virt) == Translate(space.View(), virt)
    {
      hide Translate, L.Distinct, TagOk, Pmm.Valid, AddressSpace.Shaped, Open;
      var a, i := Translate(space.View(), virt), SlotOf(pages, AlignDown(virt));
      assert Consistent(a, pages, virt);
      if a.Mapped? {
        ListedAtAll(pages, AlignDown(virt), a.physical / PAGE);
        ListedFrame(pages, i, a, virt);
        L.OwnedAt(pages, i);
      }
    }

    lemma ValidGrounded()
      requires Valid()
      ensures Grounded()
    {
      hide Tree, Agrees, TagOk, L.Distinct, Pmm.Valid, Open;
    }

    /** On a live process every query of a user address is answered, with the translation itself. */
    method QueryLive(virt: nat) returns (a: Answer)
      requires Valid()
      ensures a == if initialized && ValidAddress(virt) then Translate(space.View(), virt) else Refused
    {
      hide Live, Translate, Locked;
      ValidGrounded();
      if initialized { LiveReady(); }
      if initialized && ValidAddress(virt) { LiveLocked(virt); }
      if !ValidAddress(virt) { NotLocked(space.View(), pages, space.ctx.pmm.Held(), virt); }
      a := QueryLocked(virt);
    }

    // -------------------------------------------------------------- pages

    /** The tables and the ledgers stand; nothing is said about the allocator's other frames. */
    ghost predicate Standing(v: Space)
      reads this, space, space.ctx, space.ctx.pmm
    {
      space.Shaped(place, foreign) && Paid() && space.View() == v
    }

    /** A data frame with an alias, or the reason there is none. */
    method TakeFrame() returns (ok: bool, f: Frame)
      requires Live()
      modifies space.ctx.pmm
      ensures Standing(old(space.View())) && space.ctx.pmm.Eligible() == old(space.ctx.pmm.Eligible())
      ensures ok ==> f in old(space.ctx.pmm.Free()) && space.ctx.pmm.Free() == old(space.ctx.pmm.Free()) - {f} && f !in space.ctx.hidden
      ensures !ok ==> space.ctx.pmm.Free() == old(space.ctx.pmm.Free())
      ensures !ok ==> space.ctx.pmm.Free() == {} || space.ctx.pmm.Free() * space.ctx.hidden != {}
    {
      hide Tree, Agrees, PagesOk, L.Distinct, L.Owned, Pmm.Valid, Pending, Clear, Marked, Books;
      LiveReady();
      ghost var data, tables, hidden := L.Owned(pages), space.ctx.Frames(), space.ctx.hidden;
      ghost var eligible, free := space.ctx.pmm.Eligible(), space.ctx.pmm.Free();
      var phys;
      ok, phys := space.ctx.pmm.AllocPage();
      f := phys / PAGE;
      if ok { BooksTake(data, tables, hidden, eligible, free, f); }
      if ok && f in space.ctx.hidden {
        space.ctx.ReleaseFrame(f);
        assert space.ctx.pmm.Free() == free;
        assert f in space.ctx.pmm.Free() * space.ctx.hidden;
        ok := false;
      }
      assert space.ctx.Reach() == old(space.ctx.Reach());
    }

    method ZeroFrame(f: Frame)
      modifies this`ram
      ensures RamSame(old(ram), ram, {f}) && RamZero(ram, f)
    {
      ram := map p | p in ram && p / PAGE != f :: ram[p];
    }

    /** What `AllocPage` asks of its arguments and of the process. */
    ghost predicate AllocGuard(virt: nat, access: nat)
      reads this, space, space.ctx, space.ctx.pmm
    {
      && initialized && Aligned(virt) && ValidAddress(virt) && ValidAccess(access)
      && pageCount < PAGE_LIMIT && Translate(space.View(), virt) == Absent
    }

    /** A frame taken for a page: out of the allocator, not yet in any ledger. */
    ghost predicate Taken(f: Frame, v: Space, free: set<Frame>)
      reads this, space, space.ctx, space.ctx.pmm
    {
      && initialized && Standing(v) && space.nx && Agrees(v, pages) && Open(v)
      && f in free && space.ctx.pmm.Free() == free - {f} && f in space.ctx.pmm.Eligible()
      && f !in space.ctx.hidden && f !in space.ctx.Frames() && f !in L.Owned(pages)
    }

    /** Returning a frame that is no table leaves the tables standing. */
    method ReleaseData(f: Frame)
      requires space.Shaped(place, foreign) && f in space.ctx.pmm.Held() && f !in space.ctx.Frames()
      modifies space.ctx.pmm
      ensures space.Shaped(place, foreign) && space.View() == old(space.View())
      ensures space.ctx.pmm.Free() == old(space.ctx.pmm.Free()) + {f} && space.ctx.pmm.Eligible() == old(space.ctx.pmm.Eligible())
    {
      hide Tree, L.Distinct, L.Owned, Pending, Clear, Marked, Pmm.Valid;
      assert space.ctx.pmm.Valid() && space.ctx.pmm.initialized by { LedgerValid(space.ctx); }
      space.ctx.ReleaseFrame(f);
      assert space.ctx.Reach() == old(space.ctx.Reach());
    }

    lemma TablesHeld()
      requires space.Shaped(place, foreign)
      ensures space.ctx.Frames() <= space.ctx.pmm.Held()
    {
    }

    method ReturnFrame(f: Frame, ghost t: Space, ghost free: set<Frame>)
      requires Taken(f, t, free)
      modifies space.ctx.pmm
      ensures Live() && space.View() == t && space.ctx.pmm.Free() == free && space.ctx.pmm.Eligible() == old(space.ctx.pmm.Eligible())
    {
      hide Agrees, PagesOk, L.Owned, Clear, Marked, Books, Open, AddressSpace.Shaped;
      TablesHeld();
      BooksReturn(L.Owned(pages), space.ctx.Frames(), space.ctx.hidden, space.ctx.pmm.Eligible(), space.ctx.pmm.Free(), f);
      ReleaseData(f);
      assert L.Owned(pages) - {f} == L.Owned(pages);
    }

    /** List the page just mapped. */
    method Enter(virt: nat, access: nat, slot: nat, f: Frame, ghost v: Space)
      requires Paid() && Agrees(v, pages)
      requires Remaps(v, space.View(), virt, f * PAGE, AccessFlags(access)) && Translate(v, virt) == Absent
      requires slot < |pages| && pages[slot].Vacant? && Aligned(virt) && ValidAddress(virt) && ValidAccess(access)
      requires f in space.ctx.pmm.Held() && f !in L.Owned(pages) && f !in space.ctx.Frames() && f !in space.ctx.hidden
      modifies this`pages, this`pageCount
      ensures Paid() && Agrees(space.View(), pages)
      ensures pages == old(pages)[slot := L.Taken(f, virt)] && L.Owned(pages) == old(L.Owned(pages)) + {f} && pageCount == old(pageCount) + 1
    {
      hide Tree, Agrees, PagesOk, L.Distinct, L.Owned, Clear, Marked, Remaps, Translate, Books;
      assert Aligned(f * PAGE) && f * PAGE / PAGE == f;
      AgreesMap(v, space.View(), pages, slot, virt, f * PAGE, AccessFlags(access));
      AbsentUnlisted(v, pages, virt);
      PagesFill(pages, slot, f, virt);
      BooksEnter(L.Owned(pages), space.ctx.Frames(), space.ctx.hidden, space.ctx.pmm.Eligible(), space.ctx.pmm.Free(), f);
      pages := pages[slot := L.Taken(f, virt)];
      pageCount := pageCount + 1;
    }

    /** The page is mapped: the tables are paid for, and the page is listed. */
    method Finish(virt: nat, access: nat, slot: nat, f: Frame, ghost v: Space, ghost free: set<Frame>, ghost tables: set<Frame>)
      requires initialized && space.Shaped(place, foreign) && space.nx && Agrees(v, pages) && Open(space.View())
      requires PagesOk(pages) && pageCount == |L.Owned(pages)|
      requires Books(L.Owned(pages), tables, space.ctx.hidden, space.ctx.pmm.Eligible(), free - {f})
      requires tables <= space.ctx.Frames() <= tables + (free - {f}) && space.ctx.pmm.Free() == free - {f} - space.ctx.Frames()
      requires Remaps(v, space.View(), virt, f * PAGE, AccessFlags(access)) && Translate(v, virt) == Absent
      requires slot < |pages| && pages[slot].Vacant? && Aligned(virt) && ValidAddress(virt) && ValidAccess(access)
      requires f in free && f in space.ctx.pmm.Eligible() && f !in L.Owned(pages) && f !in tables && f !in space.ctx.hidden
      requires free !! L.Owned(pages)
      modifies this`pages, this`pageCount
      ensures Live() && pages == old(pages)[slot := L.Taken(f, virt)] && pageCount == old(pageCount) + 1
      ensures old(L.Owned(pages)) + tables <= Owned() <= old(L.Owned(pages)) + tables + free && space.ctx.pmm.Free() == free - Owned()
    {
      hide Tree, Agrees, PagesOk, L.Distinct, L.Owned, Clear, Marked, Translate, Remaps, Books, Open, AddressSpace.Shaped, AddressSpace.View, Tables.Reach;
      ghost var data, now, left := L.Owned(pages), space.ctx.Frames(), space.ctx.pmm.Free();
      BooksTables(data, tables, now, space.ctx.hidden, space.ctx.pmm.Eligible(), free - {f}, left);
      assert f in space.ctx.pmm.Held() && f !in now;
      Enter(virt, access, slot, f, v);
      assert data + tables <= Owned() <= data + tables + free && left == free - Owned() by { GainSets(data, tables, now, free, left, f); }
    }

    /** No page: the frame goes back and everything translates as before. */
    method Undo(f: Frame, ghost v: Space, ghost free: set<Frame>)
      requires Agrees(v, pages) && SameTranslation(v, space.View())
      requires Agrees(space.View(), pages) ==> Taken(f, space.View(), free)
      modifies space.ctx.pmm
      ensures Live() && SameTranslation(v, space.View()) && space.ctx.pmm.Free() == free
      ensures space.ctx.pmm.Eligible() == old(space.ctx.pmm.Eligible())
    {
      hide Agrees, Taken, Live, SameTranslation;
      AgreesSame(v, space.View(), pages);
      ReturnFrame(f, space.View(), free);
    }

    /** Map the frame just taken, or give it back. */
    method MapTaken(virt: nat, access: nat, slot: nat, f: Frame, ghost v: Space, ghost free: set<Frame>) returns (ok: bool)
      requires Taken(f, v, free) && free !! L.Owned(pages)
      requires slot < |pages| && pages[slot].Vacant? && Aligned(virt) && ValidAddress(virt) && ValidAccess(access)
      requires Translate(v, virt) == Absent
      modifies this`pages, this`pageCount, this`place, space.ctx, space.ctx.pmm
      ensures Live() && space.ctx.pmm.Eligible() == old(space.ctx.pmm.Eligible())
      ensures ok ==> Remaps(v, space.View(), virt, f * PAGE, AccessFlags(access))
      ensures ok ==> pages == old(pages)[slot := L.Taken(f, virt)] && pageCount == old(pageCount) + 1
      ensures ok ==> space.ctx.count == old(space.ctx.count) + Missing(v, virt)
      ensures ok ==> old(Owned()) <= Owned() <= old(Owned()) + free && space.ctx.pmm.Free() == free - Owned()
      ensures !ok ==> SameTranslation(v, space.View()) && pages == old(pages) && space.ctx.slots == old(space.ctx.slots)
      ensures !ok ==> space.ctx.pmm.Free() == free && Short(Missing(v, virt), space.limit, space.ctx.hidden, old(space.ctx.count), free)
      ensures UpperKept(v.mem, space.ctx.mem, space.root)
    {
      hide Tree, Agrees, PagesOk, L.Distinct, L.Owned, Pmm.Valid, Pending, Clear, Marked, Translate, Remaps, SameTranslation, MapGuard, Quiet,
           Books, Tables.Valid, Live, Open, Gentle, Unnoticed, Scarce, Short, Missing, Walk, AgreeBut, AgreeOn, UpperKept;
      assert Aligned(f * PAGE) && f * PAGE / PAGE == f;
      ghost var tables, count := space.ctx.Frames(), space.ctx.count;
      assert space.View() == v;
      if f < space.limit { OpenGuard(v, virt, f, access); } else { ShortFrame(Missing(v, virt), space.limit, space.ctx.hidden, count, free, f); }
      ghost var place';
      ok, place' := space.Map(virt, f * PAGE, AccessFlags(access), place, foreign);
      RootKept(v, place, foreign, virt, space.ctx.mem);
      place := place';
      OpenGentle(v, space.View());
      if ok { MissingIs(v, virt, f * PAGE, AccessFlags(access)); }
      if !ok && f < space.limit { ShortMissing(v, virt, space.limit, space.ctx.hidden, count, free, f); }
      if ok {
        Finish(virt, access, slot, f, v, free, tables);
      } else {
        Undo(f, v, free);
      }
    }

    /** Nothing a process can see has changed, and it owns what it owned. */
    ghost predicate Unmoved(v: Space, pages0: Pages, slots: Slots, free: set<Frame>, ram0: Ram)
      reads this, space, space.ctx, space.ctx.pmm
    {
      && SameTranslation(v, space.View()) && pages == pages0 && space.ctx.slots == slots && space.ctx.pmm.Free() == free
      && RamSame(ram0, ram, free)
    }

    /** The new page: `f` was free, reads as zeros, and is mapped and listed at `virt`. */
    ghost predicate Gained(virt: nat, access: nat, f: Frame, v: Space, free: set<Frame>, ram0: Ram)
      reads this, space, space.ctx, space.ctx.pmm
    {
      && Remaps(v, space.View(), virt, f * PAGE, AccessFlags(access)) && f in free && ListedAs(pages, virt, f)
      && RamZero(ram, f) && RamSame(ram0, ram, {f})
    }

    method PlaceFrame(virt: nat, access: nat, slot: nat, f: Frame, ghost v: Space, ghost free: set<Frame>) returns (ok: bool)
      requires Taken(f, v, free) && free !! L.Owned(pages)
      requires slot < |pages| && pages[slot].Vacant? && Aligned(virt) && ValidAddress(virt) && ValidAccess(access)
      requires Translate(v, virt) == Absent
      modifies this`pages, this`pageCount, this`place, this`ram, space.ctx, space.ctx.pmm
      ensures Live() && space.ctx.pmm.Eligible() == old(space.ctx.pmm.Eligible())
      ensures ok ==> Gained(virt, access, f, v, free, old(ram))
      ensures ok ==> old(Owned()) <= Owned() <= old(Owned()) + free && space.ctx.pmm.Free() == free - Owned()
      ensures ok ==> pageCount == old(pageCount) + 1 && space.ctx.count == old(space.ctx.count) + Missing(v, virt)
      ensures !ok ==> Unmoved(v, old(pages), old(space.ctx.slots), free, old(ram))
      ensures !ok ==> Short(Missing(v, virt), space.limit, space.ctx.hidden, old(space.ctx.count), free)
      ensures UpperKept(v.mem, space.ctx.mem, space.root)
    {
      hide Tree, Agrees, PagesOk, L.Distinct, L.Owned, Pmm.Valid, Pending, Clear, Marked, Translate, Remaps, SameTranslation, Books, Tables.Valid,
           Live, AddressSpace.Shaped, Open, Short, Missing, UpperKept;
      ZeroFrame(f);
      assert Taken(f, v, free);
      ok := MapTaken(virt, access, slot, f, v, free);
      if ok { assert pages[slot] == L.Taken(f, virt); }
    }

    /** Map a fresh zeroed page. Every frame it takes comes out of the allocator's free frames; failure takes none. */
    method AllocPage(virt: nat, access: nat) returns (ok: bool, ghost f: Frame)
      requires Valid()
      modifies this`pages, this`pageCount, this`place, this`ram, space.ctx, space.ctx.pmm
      ensures Valid() && space.ctx.pmm.Eligible() == old(space.ctx.pmm.Eligible())
      ensures ok ==> old(AllocGuard(virt, access)) && Gained(virt, access, f, old(space.View()), old(space.ctx.pmm.Free()), old(ram))
      ensures ok ==> old(Owned()) <= Owned() <= old(Owned()) + old(space.ctx.pmm.Free())
      ensures ok ==> space.ctx.pmm.Free() == old(space.ctx.pmm.Free()) - Owned()
      ensures ok ==> pageCount == old(pageCount) + 1 && space.ctx.count == old(space.ctx.count) + Missing(old(space.View()), virt)
      ensures !ok ==> Unmoved(old(space.View()), old(pages), old(space.ctx.slots), old(space.ctx.pmm.Free()), old(ram))
      ensures !ok && old(AllocGuard(virt, access)) ==>
        Short(Missing(old(space.View()), virt), space.limit, space.ctx.hidden, old(space.ctx.count), old(space.ctx.pmm.Free()))
      ensures UpperKept(old(space.ctx.mem), space.ctx.mem, space.root)
    {
      hide Tree, Agrees, TagOk, L.Distinct, L.Owned, Pmm.Valid, Pending, Clear, Marked, Translate, Remaps, Books, Tables.Valid, RamSame, Gained,
           Open, Short, Missing, UpperKept;
      ok, f := false, 0;
      SameUpper(space.ctx.mem, space.root);
      assert RamSame(ram, ram, space.ctx.pmm.Free()) by { RamSelf(ram, space.ctx.pmm.Free()); }
      if initialized { LiveReady(); }
      if !Ready() || !Aligned(virt) || !ValidAccess(access) || pageCount == PAGE_LIMIT { return; }
      var a := QueryLive(virt);
      if !a.Absent? { return; }
      var slot := L.FirstVacant(pages, 0);
      if slot == PAGE_LIMIT {
        L.FullSize(pages);
        assert false;
        return;
      }
      ghost var v, free := space.View(), space.ctx.pmm.Free();
      var got, frame := TakeFrame();
      if !got {
        ShortNone(v, virt, space.limit, space.ctx.hidden, space.ctx.count, free);
        return;
      }
      f := frame;
      assert Taken(frame, v, free);
      hide AddressSpace.Shaped, Paid, PagesOk;
      ok := PlaceFrame(virt, access, slot, frame, v, free);
    }

    /** Drop the page just unmapped from the ledger and return its frame. */
    method Retire(virt: nat, slot: nat, ghost v: Space)
      requires initialized && space.Shaped(place, foreign) && space.nx && Paid() && Agrees(v, pages) && Open(space.View())
      requires Erases(v, space.View(), virt) && slot < |pages| && pages[slot].Taken? && pages[slot].tag == virt
      modifies this`pages, this`pageCount, space.ctx.pmm
      ensures Live() && space.View() == old(space.View()) && pages == old(pages)[slot := L.Vacant]
      ensures L.Owned(pages) == old(L.Owned(pages)) - {old(pages)[slot].frame} && old(pages)[slot].frame !in space.ctx.Frames()
      ensures space.ctx.pmm.Free() == old(space.ctx.pmm.Free()) + {old(pages)[slot].frame} && space.ctx.pmm.Eligible() == old(space.ctx.pmm.Eligible())
    {
      hide Agrees, PagesOk, L.Owned, Clear, Marked, Erases, Books, Open, AddressSpace.Shaped;
      ghost var f, data, t := pages[slot].frame, L.Owned(pages), space.View();
      TablesHeld();
      L.OwnedAt(pages, slot);
      PagesVacate(pages, slot);
      AgreesUnmap(v, t, pages, slot, virt);
      BooksOwned(data, space.ctx.Frames(), space.ctx.hidden, space.ctx.pmm.Eligible(), space.ctx.pmm.Free(), f);
      BooksReturn(data, space.ctx.Frames(), space.ctx.hidden, space.ctx.pmm.Eligible(), space.ctx.pmm.Free(), f);
      ReleaseData(pages[slot].frame);
      pages := pages[slot := L.Vacant];
      pageCount := pageCount - 1;
    }

    /** Unmap a page and free its frame; tables stay until the process is destroyed. */
    method UnmapPage(virt: nat) returns (ok: bool)
      requires Valid()
      modifies this`pages, this`pageCount, space.ctx, space.ctx.pmm
      ensures Valid() && space.ctx.pmm.Eligible() == old(space.ctx.pmm.Eligible())
      ensures ok <==> old(initialized) && Aligned(virt) && ValidAddress(virt) && Translate(old(space.View()), virt).Mapped?
      ensures ok ==> Erases(old(space.View()), space.View(), virt) && space.ctx.slots == old(space.ctx.slots)
      ensures ok ==> var f := Translate(old(space.View()), virt).physical / PAGE;
        f in old(Owned()) && Owned() == old(Owned()) - {f} && space.ctx.pmm.Free() == old(space.ctx.pmm.Free()) + {f}
      ensures !ok ==> unchanged(this, space.ctx, space.ctx.pmm)
      ensures UpperKept(old(space.ctx.mem), space.ctx.mem, space.root)
    {
      hide Tree, TagOk, L.Distinct, L.Owned, Pmm.Valid, Pending, Clear, Marked, Erases, Translate, Books, Open, Gentle, AgreeBut, UpperKept, Walk;
      ok := false;
      SameUpper(space.ctx.mem, space.root);
      if !Aligned(virt) { return; }
      var a := QueryLive(virt);
      if !a.Mapped? { return; }
      ghost var v := space.View();
      assert Consistent(a, pages, virt);
      ok := space.Unmap(virt, place, foreign);
      if !ok {
        assert false;
        return;
      }
      OpenGentle(v, space.View());
      MappedStops(v, virt);
      RootKept(v, place, foreign, virt, space.ctx.mem);
      var slot := PageSlot(virt);
      SamePage(virt, virt);
      ListedFrame(pages, slot, a, virt);
      L.OwnedAt(pages, slot);
      hide Agrees, PagesOk, AddressSpace.Shaped, AddressSpace.View;
      Retire(virt, slot, v);
    }

    /** Change the rights of a mapped page; its frame and contents stay. */
    method ProtectPage(virt: nat, access: nat) returns (ok: bool)
      requires Valid()
      modifies space.ctx
      ensures Valid() && space.ctx.slots == old(space.ctx.slots) && space.ctx.count == old(space.ctx.count)
      ensures ok <==> old(initialized) && Aligned(virt) && ValidAddress(virt) && ValidAccess(access) && Translate(old(space.View()), virt).Mapped?
      ensures ok ==> Reprotects(old(space.View()), space.View(), virt, AccessFlags(access))
      ensures !ok ==> unchanged(space.ctx)
      ensures UpperKept(old(space.ctx.mem), space.ctx.mem, space.root)
    {
      hide Tree, TagOk, L.Distinct, L.Owned, Pmm.Valid, Pending, Clear, Marked, Reprotects, Translate, Books, PagesOk, Agrees, Open, Gentle, Walk, AgreeBut, UpperKept;
      ok := false;
      SameUpper(space.ctx.mem, space.root);
      if !Aligned(virt) || !ValidAccess(access) { return; }
      var a := QueryLive(virt);
      if !a.Mapped? { return; }
      ghost var v := space.View();
      OpenAllows(v, pages, virt, access);
      ok := space.Protect(virt, AccessFlags(access), place, foreign);
      AgreesProtect(v, space.View(), pages, virt, access);
      RootKept(v, place, foreign, virt, space.ctx.mem);
      OpenGentle(v, space.View());
    }

    // -------------------------------------------------------------- copies

    /** What the preflight loop has covered after `done` bytes. */
    ghost predicate Covered(chunks: seq<Chunk>, virt: nat, bytes: nat, write: bool, done: nat)
      reads this, space, space.ctx, space.ctx.pmm
    {
      && done <= bytes && Laid(space.View(), chunks, virt) && Total(chunks) == done && Accessible(space.View(), virt, done, write)
      && |chunks| <= COPY_CHUNKS && (chunks == [] ==> done == 0)
      && (chunks != [] && done < bytes ==> done > (|chunks| - 1) * PAGE && Aligned(virt + done))
    }

    /** One page of the preflight. */
    method NextChunk(chunks: seq<Chunk>, virt: nat, bytes: nat, write: bool, done: nat) returns (ok: bool, c: Chunk)
      requires Live() && ValidAddress(virt) && bytes <= USER_END - virt && bytes <= COPY_LIMIT && done < bytes
      requires Covered(chunks, virt, bytes, write, done)
      ensures ok ==> c.bytes > 0 && Covered(chunks + [c], virt, bytes, write, done + c.bytes)
      ensures !ok ==> !Accessible(space.View(), virt, bytes, write)
    {
      hide Translate, Laid, Straight, Accessible, Agrees, PagesOk, AddressSpace.Shaped, Paid, Open;
      ghost var v := space.View();
      c := Chunk(0, 0);
      if |chunks| == COPY_CHUNKS {
        assert false;
        return false, c;
      }
      var a := QueryLive(virt + done);
      if !a.Mapped? || (write && !a.flags.writable) {
        AccessibleAll(v, virt, bytes, virt + done, write);
        return false, c;
      }
      var n := ChunkBytes(virt + done, bytes - done);
      ChunkStraight(v, pages, virt + done, bytes - done, write);
      AccessibleMore(v, virt, done, n, write);
      c := Chunk(a.physical, n);
      LaidMore(v, chunks, virt, c);
      assert chunks != [] && n < bytes - done ==> n == PAGE;
      ok := true;
    }

    /** Every page is checked before any byte moves. The chunk limit never rejects a permitted copy. */
    method CopyPreflight(virt: nat, bytes: nat, write: bool) returns (ok: bool, chunks: seq<Chunk>)
      requires Valid()
      ensures ok <==> initialized && CopyGuard(space.View(), virt, bytes, write)
      ensures ok ==> Laid(space.View(), chunks, virt) && Total(chunks) == bytes && |chunks| <= COPY_CHUNKS && (bytes == 0 ==> chunks == [])
    {
      hide Live, Laid, Accessible, Translate;
      ok, chunks := false, [];
      if initialized { LiveReady(); }
      if !Ready() || bytes > COPY_LIMIT { return; }
      if bytes == 0 {
        assert Laid(space.View(), [], virt) by { LaidNothing(space.View(), virt); }
        return true, [];
      }
      if !ValidAddress(virt) || bytes > USER_END - virt { return; }
      var done := 0;
      assert Covered([], virt, bytes, write, 0) by { LaidNothing(space.View(), virt); NothingAccessible(space.View(), virt, write); }
      while done < bytes
        invariant Covered(chunks, virt, bytes, write, done)
      {
        var c;
        ok, c := NextChunk(chunks, virt, bytes, write, done);
        if !ok { return; }
        chunks, done := chunks + [c], done + c.bytes;
      }
      ok := true;
    }

    /** A permitted copy delivers the bytes of the range; a refused one delivers nothing. */
    method CopyFrom(virt: nat, bytes: nat) returns (ok: bool, data: seq<Octet>)
      requires Valid()
      ensures ok <==> initialized && CopyGuard(space.View(), virt, bytes, false)
      ensures ok ==> |data| == bytes && Loaded(space.View(), ram, virt, data)
    {
      hide Live, Laid, Translate, Straight, Total, CopyGuard;
      data := [];
      var chunks;
      ok, chunks := CopyPreflight(virt, bytes, false);
      if !ok { return; }
      ghost var v := space.View();
      assert Total(chunks[..0]) == 0 by { TotalNothing(chunks[..0]); }
      var i := 0;
      while i < |chunks|
        invariant i <= |chunks| && |data| == Total(chunks[..i]) && Loaded(v, ram, virt, data)
      {
        LaidAt(v, chunks, virt, i);
        LoadedMore(v, ram, virt, data, chunks[i].phys, chunks[i].bytes);
        data := data + Load(ram, chunks[i].phys, chunks[i].bytes);
        i := i + 1;
      }
      assert chunks[..|chunks|] == chunks;
    }

    /** A permitted copy writes the range and no other user byte; a refused one changes nothing. */
    method CopyTo(virt: nat, data: seq<Octet>) returns (ok: bool)
      requires Valid()
      modifies this`ram
      ensures Valid() && (ok <==> initialized && CopyGuard(space.View(), virt, |data|, true))
      ensures ok ==> Written(space.View(), old(ram), ram, virt, data, |data|) && RamSame(old(ram), ram, L.Owned(pages))
      ensures !ok ==> unchanged(this)
    {
      hide Laid, Translate, Straight, Total, Written, L.Owned, Agrees, PagesOk, Books, AddressSpace.Shaped, RamSame;
      var chunks;
      ok, chunks := CopyPreflight(virt, |data|, true);
      if !ok { return; }
      ghost var v := space.View();
      assert Total(chunks[..0]) == 0 by { TotalNothing(chunks[..0]); }
      WrittenNothing(v, ram, virt, data);
      assert RamSame(ram, ram, L.Owned(pages)) by { RamSelf(ram, L.Owned(pages)); }
      var i, done := 0, 0;
      while i < |chunks|
        invariant i <= |chunks| && done == Total(chunks[..i]) <= |data| && Valid()
        invariant Written(v, old(ram), ram, virt, data, done) && RamSame(old(ram), ram, L.Owned(pages))
      {
        LaidAt(v, chunks, virt, i);
        var n := chunks[i].bytes;
        WrittenMore(v, pages, old(ram), ram, virt, data, done, chunks[i].phys, n);
        BlitOwned(v, pages, old(ram), ram, virt + done, chunks[i].phys, data[done..done + n]);
        ram := Blit(ram, chunks[i].phys, data[done..done + n]);
        done := done + n;
        i := i + 1;
      }
      assert chunks[..|chunks|] == chunks;
    }

    // -------------------------------------------------------------- destruction

    /** The table half of the audit, with its search for duplicates. */
    method TablesValid() returns (ok: bool)
      requires Grounded()
      ensures ok <==> TablesAudited(space.ctx.slots, space.ctx.pmm.Held(), space.ctx.count)
    {
      hide L.Owned, L.Count, Pmm.Valid, Clear, Marked;
      var slots := space.ctx.slots;
      ghost var held := space.ctx.pmm.Held();
      var tables, i := 0, 0;
      NoneCounted(slots[..0]);
      while i < TABLE_LIMIT
        invariant i <= TABLE_LIMIT && tables == L.Count(slots[..i])
        invariant forall k {:trigger TableAudited(slots, held, k)} | 0 <= k < i :: TableAudited(slots, held, k)
      {
        L.CountMore(slots, i);
        if slots[i].Taken? {
          var pass := TableValid(i);
          if !pass { return false; }
          tables := tables + 1;
        }
        i := i + 1;
      }
      assert slots[..TABLE_LIMIT] == slots;
      ok := tables == space.ctx.count;
    }

    method TableValid(i: nat) returns (ok: bool)
      requires Grounded() && i < |space.ctx.slots| && space.ctx.slots[i].Taken?
      ensures ok <==> TableAudited(space.ctx.slots, space.ctx.pmm.Held(), i)
    {
      hide Pmm.Valid, Clear, Marked;
      var f := space.ctx.slots[i].frame;
      assert Aligned(f * PAGE) && f * PAGE / PAGE == f;
      var held := space.ctx.pmm.IsAllocatedPage(f * PAGE);
      if !space.ctx.slots[i].tag || !held { return false; }
      var j := 0;
      while j < i
        invariant j <= i && forall k | 0 <= k < j && space.ctx.slots[k].Taken? :: space.ctx.slots[k].frame != f
      {
        if space.ctx.slots[j].Taken? && space.ctx.slots[j].frame == f { return false; }
        j := j + 1;
      }
      ok := true;
    }

    method PageValid(i: nat) returns (ok: bool)
      requires Grounded() && Ready() && i < |pages| && pages[i].Taken?
      ensures ok <==> PageAudited(space.View(), pages, space.ctx.slots, space.ctx.pmm.Held(), i)
    {
      hide Pmm.Valid, Clear, Marked, L.Owned, Locked, AddressSpace.View;
      var page, f := pages[i].tag, pages[i].frame;
      var slot := L.FindFrame(space.ctx.slots, f);
      var a := QueryLocked(page);
      if !Aligned(page) || slot != |space.ctx.slots| || !a.Mapped? || a.physical != f * PAGE { return false; }
      var j := 0;
      while j < i
        invariant j <= i && forall k | 0 <= k < j && pages[k].Taken? :: pages[k].frame != f && pages[k].tag != page
      {
        if pages[j].Taken? && (pages[j].frame == f || pages[j].tag == page) { return false; }
        j := j + 1;
      }
      ok := true;
    }

    /** What `ownership_valid` accepts. */
    ghost predicate Audited()
      reads this, space, space.ctx, space.ctx.pmm
    {
      && TablesAudited(space.ctx.slots, space.ctx.pmm.Held(), space.ctx.count)
      && PagesAudited(space.View(), pages, space.ctx.slots, space.ctx.pmm.Held(), pageCount)
    }

    /** The audit, on any ready state. */
    method OwnershipValid() returns (ok: bool)
      requires Grounded() && Ready()
      ensures ok <==> Audited()
    {
      hide Pmm.Valid, Clear, Marked, L.Owned, L.Count, PageAudited, TablesAudited, AddressSpace.View;
      ok := TablesValid();
      if !ok { return; }
      ghost var v, held := space.View(), space.ctx.pmm.Held();
      var count, i := 0, 0;
      NoneCounted(pages[..0]);
      while i < |pages|
        invariant i <= |pages| && count == L.Count(pages[..i])
        invariant forall k {:trigger PageAudited(v, pages, space.ctx.slots, held, k)} | 0 <= k < i :: PageAudited(v, pages, space.ctx.slots, held, k)
      {
        L.CountMore(pages, i);
        if pages[i].Taken? {
          ok := PageValid(i);
          if !ok { return; }
          count := count + 1;
        } else {
          VacantAudited(v, pages, space.ctx.slots, held, i);
        }
        i := i + 1;
      }
      assert pages[..|pages|] == pages;
      ok := count == pageCount;
    }

    /** A process that got where it is through these operations passes the audit. */
    lemma LiveAudited()
      requires Live()
      ensures Audited()
    {
      hide Tree, Agrees, TagOk, L.Distinct, Pmm.Valid, Open, Pending;
      var slots, held, v := space.ctx.slots, space.ctx.pmm.Held(), space.View();
      L.CountOwned(slots);
      L.CountOwned(pages);
      forall i {:trigger TableAudited(slots, held, i)} | 0 <= i < |slots| ensures TableAudited(slots, held, i) { LiveTable(i); }
      forall i {:trigger PageAudited(v, pages, slots, held, i)} | 0 <= i < |pages| ensures PageAudited(v, pages, slots, held, i) { LivePage(i); }
    }

    lemma LiveTable(i: nat)
      requires Live() && i < |space.ctx.slots|
      ensures TableAudited(space.ctx.slots, space.ctx.pmm.Held(), i)
    {
      hide Tree, Agrees, PagesOk, L.Distinct, Pmm.Valid, Open;
      var slots := space.ctx.slots;
      if slots[i].Taken? {
        L.OwnedAt(slots, i);
        PendingAt(slots, i);
        forall j | 0 <= j < i && slots[j].Taken? ensures slots[j].frame != slots[i].frame { L.FramesApart(slots, j, i); }
      }
    }

    lemma LivePage(i: nat)
      requires Live() && i < |pages|
      ensures PageAudited(space.View(), pages, space.ctx.slots, space.ctx.pmm.Held(), i)
    {
      hide Tree, L.Distinct, Translate, Pmm.Valid, Pending, Open, Locked;
      if pages[i].Taken? {
        var v, page := space.View(), pages[i].tag;
        assert TagOk(pages, i);
        L.OwnedAt(pages, i);
        SamePage(page, page);
        assert Consistent(Translate(v, page), pages, page);
        ListedFrame(pages, i, Translate(v, page), page);
        WholePage(Translate(v, page).physical);
        LiveLocked(page);
        forall j | 0 <= j < i && pages[j].Taken? ensures pages[j].frame != pages[i].frame && pages[j].tag != page { PagesApart(pages, j, i); }
      }
    }

    /** The data frames go back one by one; the kernel would panic if one were not held. */
    method ReleasePages()
      requires space.ctx.pmm.Valid() && space.ctx.pmm.initialized && L.Distinct(pages) && L.Owned(pages) <= space.ctx.pmm.Held()
      modifies space.ctx.pmm
      ensures space.ctx.pmm.Valid() && space.ctx.pmm.initialized
      ensures space.ctx.pmm.Free() == old(space.ctx.pmm.Free()) + L.Owned(pages) && space.ctx.pmm.Eligible() == old(space.ctx.pmm.Eligible())
    {
      hide L.Distinct, L.Owned, Pmm.Valid, Clear, Marked;
      NoneOwned(pages[..0]);
      var i := 0;
      while i < |pages|
        invariant i <= |pages| && space.ctx.pmm.Valid() && space.ctx.pmm.initialized
        invariant space.ctx.pmm.Free() == old(space.ctx.pmm.Free()) + L.Owned(pages[..i]) && space.ctx.pmm.Eligible() == old(space.ctx.pmm.Eligible())
      {
        L.Prefix(pages, i);
        if pages[i].Taken? {
          L.OwnedAt(pages, i);
          space.ctx.ReleaseFrame(pages[i].frame);
        }
        i := i + 1;
      }
      assert pages[..|pages|] == pages;
    }

    /** The tables follow, the root last. */
    method ReleaseTables()
      requires space.ctx.pmm.Valid() && space.ctx.pmm.initialized && L.Distinct(space.ctx.slots) && space.ctx.Frames() <= space.ctx.pmm.Held()
      modifies space.ctx.pmm
      ensures space.ctx.pmm.Valid() && space.ctx.pmm.initialized
      ensures space.ctx.pmm.Free() == old(space.ctx.pmm.Free()) + space.ctx.Frames() && space.ctx.pmm.Eligible() == old(space.ctx.pmm.Eligible())
    {
      hide L.Distinct, L.Owned, Pmm.Valid, Clear, Marked;
      var slots := space.ctx.slots;
      NoneOwned(slots[|slots|..]);
      var i: nat := |slots|;
      while i > 0
        invariant 0 <= i <= |slots| && space.ctx.pmm.Valid() && space.ctx.pmm.initialized
        invariant space.ctx.pmm.Free() == old(space.ctx.pmm.Free()) + L.Owned(slots[i..]) && space.ctx.pmm.Eligible() == old(space.ctx.pmm.Eligible())
      {
        i := i - 1;
        L.Suffix(slots, i);
        if slots[i].Taken? {
          L.OwnedAt(slots, i);
          space.ctx.ReleaseFrame(slots[i].frame);
        }
      }
      assert slots[0..] == slots;
    }

    method Erase()
      requires space.ctx.pmm.Valid() && space.ctx.pmm.initialized && space.ctx.Logged()
      modifies this`pages, this`pageCount, this`initialized, space, space.ctx`slots, space.ctx`count
      ensures Zeroed()
    {
      pages, pageCount, initialized := seq(PAGE_LIMIT, i => L.Vacant), 0, false;
      space.root, space.limit, space.nx, space.initialized := 0, 0, false, false;
      space.ctx.slots, space.ctx.count := seq(TABLE_LIMIT, i => L.Vacant), 0;
    }

    lemma LiveBooks()
      requires Live()
      ensures L.Distinct(pages) && L.Distinct(space.ctx.slots) && L.Owned(pages) !! space.ctx.Frames()
      ensures L.Owned(pages) <= space.ctx.pmm.Held() && space.ctx.Frames() <= space.ctx.pmm.Held()
      ensures space.ctx.pmm.Valid() && space.ctx.pmm.initialized && space.ctx.Logged()
    {
      hide Tree, Agrees, TagOk, Pmm.Valid;
    }

    /**
      Destruction, from any state: it goes through exactly when the process is ready, inactive and passes the audit, and
      then no release can fail and every frame the ledgers list is free again.
    */
    method Reclaim(active: bool) returns (ok: bool)
      requires Grounded()
      modifies this`pages, this`pageCount, this`initialized, space, space.ctx, space.ctx.pmm
      ensures space.ctx.pmm.Eligible() == old(space.ctx.pmm.Eligible())
      ensures ok <==> old(Ready()) && !active && old(Audited())
      ensures ok ==> Zeroed() && space.ctx.pmm.Free() == old(space.ctx.pmm.Free()) + old(Owned())
      ensures !ok ==> unchanged(this, space, space.ctx, space.ctx.pmm)
    {
      hide L.Distinct, L.Owned, L.Count, Pmm.Valid, Clear, Marked, TablesAudited, PagesAudited, AddressSpace.View;
      ok := false;
      if !Ready() || active { return; }
      ok := OwnershipValid();
      if !ok { return; }
      AuditSound(space.View(), pages, space.ctx.slots, space.ctx.pmm.Held(), space.ctx.count, pageCount);
      ReleasePages();
      ReleaseTables();
      Erase();
    }

    /** An inactive process can always be destroyed, and every frame it owned is free again. */
    method Destroy(active: bool) returns (ok: bool)
      requires Valid()
      modifies this`pages, this`pageCount, this`initialized, space, space.ctx, space.ctx.pmm
      ensures Valid() && space.ctx.pmm.Eligible() == old(space.ctx.pmm.Eligible())
      ensures ok <==> old(initialized) && !active
      ensures ok ==> !initialized && space.ctx.pmm.Free() == old(space.ctx.pmm.Free()) + old(Owned())
      ensures !ok ==> unchanged(this, space, space.ctx, space.ctx.pmm)
    {
      hide Live, Audited, L.Owned, Clear, Marked;
      ValidGrounded();
      if initialized {
        LiveReady();
        LiveAudited();
      }
      ok := Reclaim(active);
    }

    // -------------------------------------------------------------- creation

    /** Undo a creation that got as far as the root frame. */
    method Discard(f: Frame, ghost free: set<Frame>)
      requires space.ctx.pmm.Valid() && space.ctx.pmm.initialized && space.ctx.Logged()
      requires f in space.ctx.pmm.Held() && space.ctx.pmm.Free() + {f} == free
      modifies this`pages, this`pageCount, this`initialized, space, space.ctx`slots, space.ctx`count, space.ctx.pmm
      ensures Zeroed() && space.ctx.pmm.Free() == free && space.ctx.pmm.Eligible() == old(space.ctx.pmm.Eligible())
    {
      space.ctx.ReleaseFrame(f);
      Erase();
    }

    /** The lower half of a new root is empty; the upper half shares the kernel's entries without USER. */
    method WriteRoot(f: Frame, upper: seq<Entry>)
      requires |upper| == 256 && space.ctx.Logged()
      modifies space.ctx`mem, space.ctx`log
      ensures space.ctx.Logged() && RootWritten(space.ctx.mem, f, upper)
    {
      SilentStart(space.ctx.log, space.ctx.mem, {});
      space.ctx.ClearTable(f, space.ctx.log, space.ctx.mem, {});
      var i := 0;
      while i < 256
        invariant i <= 256 && space.ctx.Logged()
        invariant forall j {:trigger At(space.ctx.mem, f, j)} | 0 <= j < 512 ::
          At(space.ctx.mem, f, j) == if 256 <= j < 256 + i then upper[j - 256].(user := false) else Zero
      {
        space.ctx.Store(f, 256 + i, upper[i].(user := false));
        i := i + 1;
      }
    }

    /** The private root has its slot. */
    method OpenLedger(f: Frame)
      requires |space.ctx.slots| == TABLE_LIMIT && (forall i | 0 <= i < TABLE_LIMIT :: space.ctx.slots[i].Vacant?)
      requires space.ctx.pmm.Valid() && space.ctx.pmm.initialized && f in space.ctx.pmm.Held() && space.ctx.Logged()
      modifies space.ctx`slots, space.ctx`count
      ensures space.ctx.Valid() && space.ctx.slots[0] == L.Taken(f, true) && space.ctx.count == 1
      ensures space.ctx.Frames() == {f} && Pending(space.ctx.slots) == {}
    {
      hide Pmm.Valid, Clear, Marked;
      NoFrames(space.ctx.slots);
      L.Fill(space.ctx.slots, 0, f, true);
      space.ctx.slots := space.ctx.slots[0 := L.Taken(f, true)];
      space.ctx.count := 1;
    }

    /** The root is in place: the process is live, with an empty lower half. */
    method GoLive(f: Frame, upper: seq<Entry>)
      requires |upper| == 256 && Shared(upper) !! space.ctx.pmm.Eligible() && RootWritten(space.ctx.mem, f, upper)
      requires space.initialized && space.root == f && space.nx
      requires space.ctx.Valid() && space.ctx.slots[0] == L.Taken(f, true) && space.ctx.Frames() == {f} && Pending(space.ctx.slots) == {}
      requires f in space.ctx.Reach() && |pages| == PAGE_LIMIT && (forall i | 0 <= i < |pages| :: pages[i].Vacant?) && pageCount == 0
      modifies this`initialized, this`place, this`foreign
      ensures initialized && Live() && Owned() == {f} && LowerHalfEmpty(space.View())
    {
      hide Pmm.Valid, Clear, Marked, Pending, L.Distinct, L.Owned, Translate, Tree, PagesOk, Agrees, Open, Books, LowerHalfEmpty;
      place, foreign, initialized := map[f := []], Shared(upper), true;
      assert space.ctx.Reach() == {f};
      RootTree(space.View(), f, upper);
      assert PagesOk(pages) && L.Owned(pages) == {} by { NoFrames(pages); NoPages(pages); }
      space.ctx.pmm.FreeEligible();
      assert Books({}, {f}, space.ctx.hidden, space.ctx.pmm.Eligible(), space.ctx.pmm.Free()) by { BooksRoot(f, space.ctx.hidden, space.ctx.pmm.Eligible(), space.ctx.pmm.Free()); }
      assert Agrees(space.View(), pages) by { EmptyAgrees(space.View(), pages); }
      assert place.Keys == {f};
    }

    /**
      Create a process. The kernel tables its upper half refers to must not be pages the allocator hands out. Failure
      leaves the object zeroed and the allocator's free frames as they were.
    */
    method Create(kernel: Option<Kernel>, extended: bool) returns (ok: bool)
      requires Valid()
      requires kernel.Some? ==> |kernel.value.upper| == 256 && Shared(kernel.value.upper) !! space.ctx.pmm.Eligible()
      modifies this, space, space.ctx, space.ctx.pmm
      ensures Valid() && space.ctx.pmm.Eligible() == old(space.ctx.pmm.Eligible())
      ensures ok ==> !old(initialized) && initialized && LowerHalfEmpty(space.View())
      ensures ok ==> Owned() <= old(space.ctx.pmm.Free()) && space.ctx.pmm.Free() == old(space.ctx.pmm.Free()) - Owned()
      ensures ok ==> CreateGuard(old(initialized), kernel, extended) && KernelHalf(space.ctx.mem, space.root, kernel.value.upper)
      ensures ok ==> kernel.value.bits >= 12 && space.limit == Pow2(kernel.value.bits - 12) && pageCount == 0 && space.ctx.count == 1
      ensures !ok ==> initialized == old(initialized) && space.ctx.pmm.Free() == old(space.ctx.pmm.Free()) && Owned() == old(Owned())
      ensures !ok && CreateGuard(old(initialized), kernel, extended) ==> NoRoot(kernel.value.bits, space.ctx.hidden, old(space.ctx.pmm.Free()))
    {
      hide Live, Pmm.Valid, Clear, Marked, Pending, L.Distinct, L.Owned, Translate, RootWritten, Shared, Pow2, KernelHalf;
      ok := false;
      if initialized || space.initialized || pageCount != 0 || space.ctx.count != 0 || kernel.None? || !kernel.value.nx || extended { return; }
      ghost var free := space.ctx.pmm.Free();
      ZeroedOwns();
      space.ctx.pmm.FreeEligible();
      var got, phys := space.ctx.pmm.AllocPage();
      if !got { return; }
      ok := Furnish(phys / PAGE, kernel.value, free);
    }

    /** Turn the frame just allocated into a root, or give it back. */
    method Furnish(f: Frame, kernel: Kernel, ghost free: set<Frame>) returns (ok: bool)
      requires |kernel.upper| == 256 && Shared(kernel.upper) !! space.ctx.pmm.Eligible()
      requires Zeroed() && f in space.ctx.pmm.Held() && f in free && space.ctx.pmm.Free() == free - {f}
      modifies this, space, space.ctx, space.ctx.pmm
      ensures Valid() && initialized == ok && space.ctx.pmm.Eligible() == old(space.ctx.pmm.Eligible())
      ensures ok ==> Owned() == {f} && LowerHalfEmpty(space.View()) && space.ctx.pmm.Free() == free - {f}
      ensures ok ==> 32 <= kernel.bits <= 52 && KernelHalf(space.ctx.mem, space.root, kernel.upper)
      ensures ok ==> kernel.bits >= 12 && space.limit == Pow2(kernel.bits - 12) && pageCount == 0 && space.ctx.count == 1
      ensures !ok ==> Owned() == {} && space.ctx.pmm.Free() == free
      ensures !ok && 32 <= kernel.bits <= 52 ==> f in space.ctx.hidden || f >= Pow2(kernel.bits - 12)
    {
      hide Live, Pmm.Valid, Clear, Marked, Pending, L.Distinct, L.Owned, Translate, RootWritten, Shared, LowerHalfEmpty, Pow2, KernelHalf;
      OpenLedger(f);
      ok := space.ctx.TableAccess(f);
      if ok {
        WriteRoot(f, kernel.upper);
        RootHalves(space.ctx.mem, f, kernel.upper);
        ok := space.Init(f, kernel.bits, true);
      }
      if ok {
        GoLive(f, kernel.upper);
      } else {
        Discard(f, free);
        ZeroedOwns();
      }
    }

    lemma ZeroedOwns()
      requires Zeroed()
      ensures Owned() == {}
    {
      NoFrames(pages);
      NoFrames(space.ctx.slots);
    }

    // -------------------------------------------------------------- other users of the allocator

    /** Someone else takes a frame. */
    method OthersTake() returns (ok: bool, f: Frame)
      requires Live()
      modifies space.ctx.pmm
      ensures Live() && space.View() == old(space.View()) && space.ctx.pmm.Eligible() == old(space.ctx.pmm.Eligible())
      ensures ok <==> old(space.ctx.pmm.Free()) != {}
      ensures ok ==> f in old(space.ctx.pmm.Free()) && f !in Owned() && space.ctx.pmm.Free() == old(space.ctx.pmm.Free()) - {f}
      ensures !ok ==> space.ctx.pmm.Free() == old(space.ctx.pmm.Free())
    {
      hide Tree, Agrees, PagesOk, L.Distinct, L.Owned, Pmm.Valid, Pending, Clear, Marked, Books;
      LiveReady();
      ghost var data, tables, hidden := L.Owned(pages), space.ctx.Frames(), space.ctx.hidden;
      ghost var eligible, free := space.ctx.pmm.Eligible(), space.ctx.pmm.Free();
      var phys;
      ok, phys := space.ctx.pmm.AllocPage();
      f := phys / PAGE;
      if ok { BooksTake(data, tables, hidden, eligible, free, f); }
      assert space.ctx.Reach() == old(space.ctx.Reach());
    }

    /** Someone else returns a frame of theirs. */
    method OthersGive(f: Frame)
      requires Live() && f in space.ctx.pmm.Held() && f !in Owned()
      modifies space.ctx.pmm
      ensures Live() && space.View() == old(space.View()) && space.ctx.pmm.Eligible() == old(space.ctx.pmm.Eligible())
      ensures space.ctx.pmm.Free() == old(space.ctx.pmm.Free()) + {f}
    {
      hide Agrees, PagesOk, L.Owned, Clear, Marked, Books, Open, AddressSpace.Shaped;
      TablesHeld();
      BooksReturn(L.Owned(pages), space.ctx.Frames(), space.ctx.hidden, space.ctx.pmm.Eligible(), space.ctx.pmm.Free(), f);
      ReleaseData(f);
      assert L.Owned(pages) - {f} == L.Owned(pages);
    }
  }

  lemma {:induction false} SlotBound<T>(slots: seq<L.Slot<T>>)
    ensures |L.Owned(slots)| <= |slots|
  {
    if slots == [] {
      assert L.Owned(slots) == {};
    } else {
      var n := |slots| - 1;
      SlotBound(slots[..n]);
      var last := if slots[n].Taken? then {slots[n].frame} else {};
      assert L.Owned(slots) == L.Owned(slots[..n]) + last by {
        forall f | f in L.Owned(slots) ensures f in L.Owned(slots[..n]) + last {
          var i :| 0 <= i < |slots| && slots[i].Taken? && slots[i].frame == f;
          assert i < n ==> slots[..n][i] == slots[i];
        }
        forall f | f in L.Owned(slots[..n]) ensures f in L.Owned(slots) {
          var i :| 0 <= i < n && slots[..n][i].Taken? && slots[..n][i].frame == f;
          assert slots[i] == slots[..n][i];
        }
      }
    }
  }

  lemma NoneOwned<T>(slots: seq<L.Slot<T>>)
    requires slots == []
    ensures L.Owned(slots) == {}
  {
  }

  lemma NoneCounted<T>(slots: seq<L.Slot<T>>)
    requires slots == []
    ensures L.Count(slots) == 0
  {
  }

  lemma NotLocked(v: Space, pages: Pages, held: set<Frame>, virt: nat)
    requires !ValidAddress(virt)
    ensures Locked(v, pages, held, virt) == Refused
  {
  }

  lemma VacantAudited(v: Space, pages: Pages, slots: Slots, held: set<Frame>, i: nat)
    requires i < |pages| && pages[i].Vacant?
    ensures PageAudited(v, pages, slots, held, i)
  {
  }

  lemma PendingAt(slots: Slots, i: nat)
    requires i < |slots| && slots[i].Taken?
    ensures slots[i].tag || slots[i].frame in Pending(slots)
  {
  }

  lemma WholePage(p: nat)
    requires Aligned(p)
    ensures p == p / PAGE * PAGE
  {
  }

  lemma PagesApart(pages: Pages, j: nat, i: nat)
    requires PagesOk(pages) && j < i < |pages| && pages[i].Taken? && pages[j].Taken?
    ensures pages[j].frame != pages[i].frame && pages[j].tag != pages[i].tag
  {
    L.FramesApart(pages, j, i);
    assert TagOk(pages, j);
  }

  ghost predicate RootWritten(m: Memory, f: Frame, upper: seq<Entry>)
    requires |upper| == 256
  {
    forall j {:trigger At(m, f, j)} | 0 <= j < 512 :: At(m, f, j) == if 256 <= j then upper[j - 256].(user := false) else Zero
  }

  /** Entries 256..511 of the root `f` are the kernel's own, without USER. */
  ghost predicate KernelHalf(m: Memory, f: Frame, upper: seq<Entry>) {
    |upper| == 256 && forall i {:trigger At(m, f, 256 + i)} {:trigger upper[i]} | 0 <= i < 256 :: At(m, f, 256 + i) == upper[i].(user := false)
  }

  lemma RootHalves(m: Memory, f: Frame, upper: seq<Entry>)
    requires |upper| == 256 && RootWritten(m, f, upper)
    ensures KernelHalf(m, f, upper)
  {
  }

  /** Entries 256..511 of the root `f` read the same. */
  ghost predicate UpperKept(m: Memory, n: Memory, f: Frame) {
    forall i {:trigger At(n, f, i)} | 256 <= i < 512 :: At(n, f, i) == At(m, f, i)
  }

  lemma SameUpper(m: Memory, f: Frame)
    ensures UpperKept(m, m, f)
  {
  }

  lemma HalfKept(m: Memory, n: Memory, f: Frame, upper: seq<Entry>)
    requires KernelHalf(m, f, upper) && UpperKept(m, n, f)
    ensures KernelHalf(n, f, upper)
  {
    forall i {:trigger upper[i]} | 0 <= i < 256 ensures At(n, f, 256 + i) == upper[i].(user := false) {
      assert At(n, f, 256 + i) == At(m, f, 256 + i);
    }
  }

  /** Where the walk of a user address stops is no entry of the root's upper half. */
  lemma RootKept(s: Space, place: Places, foreign: set<Frame>, virt: nat, n: Memory)
    requires Tree(s, place, foreign) && virt < USER_END
    ensures AgreeOn(s.mem, n, place.Keys) ==> UpperKept(s.mem, n, s.root)
    ensures Walk(s, virt).Stop? && AgreeBut(s.mem, n, place.Keys, Walk(s, virt).at) ==> UpperKept(s.mem, n, s.root)
  {
    LowerIndex(virt);
    TreeWalk(s, place, foreign, virt);
    StopPlaced(s, place, foreign, Path(virt), s.root, 4, true, true, false);
    assert s.root in place && place[s.root] == [];
    hide Tree, WalkFrom, Descend;
    if Walk(s, virt).Stop? && Walk(s, virt).at.frame == s.root {
      var o := Walk(s, virt);
      assert |Path(virt)[..4 - o.level]| == 0;
      assert o.at.index < 256;
    }
  }

  lemma MappedStops(s: Space, virt: nat)
    requires Translate(s, virt).Mapped?
    ensures Walk(s, virt).Stop?
  {
    hide Walk;
  }

  lemma NoFrames<T>(slots: seq<L.Slot<T>>)
    requires forall i | 0 <= i < |slots| :: slots[i].Vacant?
    ensures L.Owned(slots) == {} && L.Distinct(slots)
  {
    L.DistinctFrom(slots);
  }

  /** What the kernel provides for a new process: NX support, physical address bits and entries 256..511 of its root. */
  datatype Kernel = Kernel(nx: bool, bits: nat, upper: seq<Entry>)

  /** The kernel tables the upper half leads to. */
  ghost function Shared(upper: seq<Entry>): set<Frame> {
    set i | 0 <= i < |upper| && upper[i].present && !upper[i].huge :: upper[i].frame
  }

  ghost predicate LowerHalfEmpty(s: Space) {
    forall x: nat {:trigger Translate(s, x)} | x < USER_END :: Translate(s, x) == Absent
  }

  lemma LowerIndex(x: nat)
    requires x < USER_END
    ensures Canonical(x) && Index(x, 4) < 256 && Path(x)[0] == Index(x, 4)
  {
  }

  /** A root alone is a tree, and shows nothing below the kernel half. */
  lemma RootTree(s: Space, f: Frame, upper: seq<Entry>)
    requires |upper| == 256 && RootWritten(s.mem, f, upper) && s.root == f && s.reach == {f} && f !in Shared(upper)
    ensures Tree(s, map[f := []], Shared(upper)) && LowerHalfEmpty(s) && Open(s)
  {
    var place := map[f := []];
    forall i {:trigger ChildOk(s, place, Shared(upper), f, i)} | 0 <= i < 512 ensures ChildOk(s, place, Shared(upper), f, i) {
      assert At(s.mem, f, i) == if 256 <= i then upper[i - 256].(user := false) else Zero;
    }
    assert TableOk(s, place, Shared(upper), f);
    forall x: nat {:trigger Translate(s, x)} | x < USER_END ensures Translate(s, x) == Absent {
      LowerIndex(x);
      assert At(s.mem, f, Path(x)[0]) == Zero;
    }
  }

  /** A blank page on an open way meets every demand of `map`. */
  lemma OpenGuard(v: Space, virt: nat, f: Frame, access: nat)
    requires Open(v) && Translate(v, virt) == Absent && Aligned(virt) && ValidAddress(virt) && ValidAccess(access) && v.nx && f < v.limit
    ensures MapGuard(v, virt, f * PAGE, AccessFlags(access)) && Walk(v, virt).Stop?
  {
    hide WalkFrom, Path;
    assert Aligned(f * PAGE) && f * PAGE / PAGE == f;
    assert Opened(Walk(v, virt));
  }

  lemma OpenAllows(v: Space, pages: Pages, virt: nat, access: nat)
    requires Open(v) && Agrees(v, pages) && Translate(v, virt).Mapped? && ValidAddress(virt) && ValidAccess(access) && v.nx
    ensures Walk(v, virt).Stop? && ParentsAllow(Walk(v, virt), AccessFlags(access)) && FlagsOk(AccessFlags(access), v.nx)
    ensures Translate(v, virt).size == PAGE
  {
    hide WalkFrom, Path;
    assert Opened(Walk(v, virt));
    assert Consistent(Translate(v, virt), pages, virt);
  }

  lemma MissingIs(v: Space, virt: nat, phys: nat, flags: Entry)
    requires MapGuard(v, virt, phys, flags)
    ensures Walk(v, virt).Stop? && Missing(v, virt) == Walk(v, virt).level - 1
  {
    hide Walk;
  }

  lemma ShortFrame(missing: int, limit: nat, hidden: set<Frame>, count: nat, free: set<Frame>, f: Frame)
    requires f in free && f >= limit
    ensures Short(missing, limit, hidden, count, free)
  {
  }

  lemma ShortMissing(v: Space, virt: nat, limit: nat, hidden: set<Frame>, count: nat, free: set<Frame>, f: Frame)
    requires f in free && Walk(v, virt).Stop? && Walk(v, virt).level > 1 && Scarce(Walk(v, virt).level - 1, limit, hidden, count, free - {f})
    ensures Short(Missing(v, virt), limit, hidden, count, free)
  {
    hide Walk;
    ShortTables(Walk(v, virt).level - 1, limit, hidden, count, free, f);
  }

  lemma ShortNone(v: Space, virt: nat, limit: nat, hidden: set<Frame>, count: nat, free: set<Frame>)
    requires free == {} || free * hidden != {}
    ensures Short(Missing(v, virt), limit, hidden, count, free)
  {
    hide WalkFrom;
    if Walk(v, virt).Stop? { WalkLevel(v, Path(virt), v.root, 4, {}, true, true, false); }
    if free * hidden != {} { var f :| f in free * hidden; }
  }

  lemma ListedAtAll(pages: Pages, page: nat, f: Frame)
    requires ListedAs(pages, page, f)
    ensures Listed(pages, page)
  {
  }

  /** What a creation asks of its caller and its machine. */
  ghost predicate CreateGuard(initialized: bool, kernel: Option<Kernel>, extended: bool) {
    !initialized && kernel.Some? && kernel.value.nx && 32 <= kernel.value.bits <= 52 && !extended
  }

  /** No frame at all, or one that cannot be a root. */
  ghost predicate NoRoot(bits: nat, hidden: set<Frame>, free: set<Frame>) {
    free == {} || (bits >= 12 && exists f | f in free :: f in hidden || f >= Pow2(bits - 12))
  }

  lemma NoPages(pages: Pages)
    requires |pages| == PAGE_LIMIT && forall i | 0 <= i < |pages| :: pages[i].Vacant?
    ensures PagesOk(pages)
  {
    NoFrames(pages);
  }

  lemma EmptyAgrees(s: Space, pages: Pages)
    requires LowerHalfEmpty(s) && forall i | 0 <= i < |pages| :: pages[i].Vacant?
    ensures Agrees(s, pages)
  {
  }

  /** A page just gained reads as zeros, and every other user byte reads as before. */
  lemma GainedBytes(v: Space, t: Space, pages: Pages, virt: nat, access: nat, f: Frame, ram0: Ram, ram: Ram, x: nat)
    requires Agrees(v, pages) && f !in L.Owned(pages) && x < USER_END && Translate(v, virt) == Absent
    requires Remaps(v, t, virt, f * PAGE, AccessFlags(access)) && RamZero(ram, f) && RamSame(ram0, ram, {f})
    ensures UserByte(t, ram, x) == if x / PAGE == virt / PAGE then 0 else UserByte(v, ram0, x)
  {
    hide Translate;
    assert (f * PAGE + x % PAGE) / PAGE == f;
    LowerIndex(x);
    assert Consistent(Translate(v, x), pages, x);
  }

  lemma LaidNothing(s: Space, virt: nat)
    ensures Laid(s, [], virt) && Total([]) == 0
  {
  }

  lemma TotalNothing(chunks: seq<Chunk>)
    ensures chunks == [] ==> Total(chunks) == 0
  {
  }

  lemma NothingAccessible(s: Space, virt: nat, write: bool)
    ensures Accessible(s, virt, 0, write)
  {
  }

  lemma WrittenNothing(s: Space, ram: Ram, virt: nat, data: seq<Octet>)
    ensures Written(s, ram, ram, virt, data, 0)
  {
  }

  lemma RamSelf(ram: Ram, frames: set<Frame>)
    ensures RamSame(ram, ram, frames)
  {
  }

  lemma AbsentUnlisted(v: Space, pages: Pages, virt: nat)
    requires Agrees(v, pages) && Aligned(virt) && ValidAddress(virt) && Translate(v, virt) == Absent
    ensures !Listed(pages, virt)
  {
    assert Consistent(Translate(v, virt), pages, virt);
  }

  /** The one slot listing a page names the frame the page maps to. */
  lemma ListedFrame(pages: Pages, i: nat, a: Answer, x: nat)
    requires PagesOk(pages) && Consistent(a, pages, x) && a.Mapped?
    requires i < |pages| && pages[i].Taken? && pages[i].tag == AlignDown(x)
    ensures pages[i].frame == a.physical / PAGE == AlignDown(a.physical) / PAGE
  {
    var j :| 0 <= j < |pages| && pages[j] == L.Taken(a.physical / PAGE, AlignDown(x));
    OnlySlot(pages, i, j);
  }
}
