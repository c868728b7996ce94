/**
  The page-table operations of kernel/memory/vmm_core.c. `Shaped` says that the tables form a tree; query, map, unmap and
  protect are stated as what they do to the translation of every address.
*/
module VmmCore {
  import opened MemoryMap
  import opened PageTable
  import PageMeaning
  import opened VmmTree
  import opened VmmChain
  import opened PmmCore
  import opened TableLedger
  import L = FrameLedger

  function Pow2(n: nat): nat { if n == 0 then 1 else 2 * Pow2(n - 1) }

  /** PRESENT, and nothing but the permission and caching bits. */
  predicate FlagsOk(flags: Entry, nx: bool) {
    && flags.present && !flags.accessed && !flags.dirty && !flags.huge && flags.frame == 0 && flags.low == 0 && flags.high == 0
    && (flags.nx ==> nx)
  }

  /** The ancestors do not weaken the rights asked for. */
  predicate ParentsAllow(o: Outcome, flags: Entry)
    requires o.Stop?
  {
    (o.writable || !flags.writable) && (o.user || !flags.user) && (!o.nx || flags.nx)
  }

  predicate PhysicalOk(phys: nat, limit: nat) { Aligned(phys) && phys / PAGE < limit }

  /** What `map` demands: a well-formed request for an address whose entry is entirely zero. */
  ghost predicate MapGuard(s: Space, virt: nat, phys: nat, flags: Entry) {
    var o := Walk(s, virt);
    && FlagsOk(flags, s.nx) && PhysicalOk(phys, s.limit) && Aligned(virt)
    && o.Stop? && o.value == Zero && ParentsAllow(o, flags)
  }

  /** `t` translates as `s`, except that the page of `virt` maps to `phys` with exactly `flags`. */
  ghost predicate Remaps(s: Space, t: Space, virt: nat, phys: nat, flags: Entry) {
    forall x: nat {:trigger Translate(t, x)} :: Translate(t, x) ==
      if Canonical(x) && x / PAGE == virt / PAGE then Mapped(phys + x % PAGE, flags, PAGE) else Translate(s, x)
  }

  /** `t` translates as `s`, except that the page of `virt` is absent. */
  ghost predicate Erases(s: Space, t: Space, virt: nat) {
    forall x: nat {:trigger Translate(t, x)} ::
      Translate(t, x) == if Canonical(x) && x / PAGE == virt / PAGE then Absent else Translate(s, x)
  }

  /** `t` translates as `s`, except that walks of the page of `virt` find `e` where they found `o`. */
  ghost predicate Replaces(s: Space, t: Space, virt: nat, o: Outcome, e: Entry)
    requires o.Stop? && o.level == 1
  {
    forall x: nat {:trigger Translate(t, x)} ::
      Translate(t, x) == if Canonical(x) && x / PAGE == virt / PAGE then Answered(o.(value := e), x) else Translate(s, x)
  }

  function Permitted(e: Entry, flags: Entry): Entry {
    e.(present := flags.present, writable := flags.writable, user := flags.user, writeThrough := flags.writeThrough,
       cacheDisable := flags.cacheDisable, global := flags.global, nx := flags.nx)
  }

  /** `t` translates as `s`, except that the page of `virt` has the rights `flags` on the same frame. */
  ghost predicate Reprotects(s: Space, t: Space, virt: nat, flags: Entry) {
    forall x: nat {:trigger Translate(t, x)} ::
      Translate(t, x) ==
        if Canonical(x) && x / PAGE == virt / PAGE && Translate(s, x).Mapped?
        then Translate(s, x).(flags := Permitted(Translate(s, x).flags, flags))
        else Translate(s, x)
  }

  /** Unmapping undoes mapping: every address translates as before. */
  lemma MapUndone(s: Space, t: Space, u: Space, virt: nat, phys: nat, flags: Entry)
    requires Remaps(s, t, virt, phys, flags) && Erases(t, u, virt) && Translate(s, virt) == Absent && Canonical(virt)
    ensures SameTranslation(s, u)
  {
    hide Translate;
    forall x: nat {:trigger Translate(u, x)} ensures Translate(u, x) == Translate(s, x) {
      if Canonical(x) && x / PAGE == virt / PAGE { AbsentTogether(s, virt, x); }
    }
  }

  /** Addresses of one page are absent together. */
  lemma AbsentTogether(s: Space, v: nat, x: nat)
    requires Canonical(v) && Canonical(x) && v / PAGE == x / PAGE
    ensures Translate(s, v) == Absent ==> Translate(s, x) == Absent
  {
    hide WalkFrom;
    SamePath(v, x);
  }

  /** The rights of an entry, as one would ask for them. */
  function RightsOf(e: Entry): Entry {
    Zero.(present := e.present, writable := e.writable, user := e.user, writeThrough := e.writeThrough, cacheDisable := e.cacheDisable,
          global := e.global, nx := e.nx)
  }

  /** Giving a page its old rights back undoes any change of them: nothing but the rights was touched. */
  lemma ProtectUndone(s: Space, t: Space, u: Space, virt: nat, flags: Entry)
    requires Reprotects(s, t, virt, flags) && Translate(s, virt).Mapped? && Translate(s, virt).size == PAGE && Canonical(virt) && Aligned(virt)
    requires Reprotects(t, u, virt, RightsOf(Translate(s, virt).flags))
    ensures SameTranslation(s, u)
  {
    hide Translate;
    forall x: nat {:trigger Translate(u, x)} ensures Translate(u, x) == Translate(s, x) {
      if Canonical(x) && x / PAGE == virt / PAGE {
        PageMeaning.PageIsStraight(s, virt, x);
        assert Translate(t, x) == Translate(s, x).(flags := Permitted(Translate(s, x).flags, flags));
      }
    }
  }

  lemma ReplacedRights(s: Space, t: Space, virt: nat, flags: Entry)
    requires Walk(s, virt).Stop? && Walk(s, virt).level == 1 && Walk(s, virt).value.present && flags.present
    requires ParentsAllow(Walk(s, virt), flags)
    requires Replaces(s, t, virt, Walk(s, virt), Permitted(Walk(s, virt).value, flags))
    ensures Reprotects(s, t, virt, flags)
  {
    var o := Walk(s, virt);
    forall x: nat {:trigger Translate(t, x)} | Canonical(x) && x / PAGE == virt / PAGE
      ensures Translate(s, x).Mapped?
      ensures Translate(t, x) == Translate(s, x).(flags := Permitted(Translate(s, x).flags, flags))
    {
      hide WalkFrom, Path;
      SamePath(virt, x);
      assert Walk(s, x) == o;
      assert Translate(t, x) == Answered(o.(value := Permitted(o.value, flags)), x);
    }
  }

  lemma LeafValid(s: Space, virt: nat, place: Places, foreign: set<Frame>)
    requires Tree(s, place, foreign) && Canonical(virt) && Walk(s, virt).Stop? && Walk(s, virt).value.present
    ensures EntryValid(Walk(s, virt).value, Walk(s, virt).level, s.limit, s.nx)
  {
    TreeWalk(s, place, foreign, virt);
    StopPlaced(s, place, foreign, Path(virt), s.root, 4, true, true, false);
  }

  ghost predicate Blank(m: Memory, f: Frame) { forall i {:trigger At(m, f, i)} | 0 <= i < 512 :: At(m, f, i) == Zero }

  /** Frames acquired for new tables: private, cleared, and out of the allocator. */
  ghost predicate Acquired(frames: seq<Frame>, place: Places, free: set<Frame>, t: Space, left: set<Frame>, owned: set<Frame>, pending: set<Frame>) {
    && Elems(frames) <= free && left == free - Elems(frames)
    && owned == place.Keys + Elems(frames) && pending == Elems(frames)
    && (forall i, j | 0 <= i < j < |frames| :: frames[i] != frames[j])
    && (forall j {:trigger Serves(t, frames[j])} | 0 <= j < |frames| :: Serves(t, frames[j]))
  }

  ghost predicate Serves(t: Space, f: Frame) { f < t.limit && f in t.reach && Blank(t.mem, f) }

  lemma AcquiredMore(frames: seq<Frame>, place: Places, free: set<Frame>, t: Space, left: set<Frame>, owned: set<Frame>, pending: set<Frame>,
                     f: Frame, t': Space)
    requires Acquired(frames, place, free, t, left, owned, pending) && f in left && Serves(t', f)
    requires t'.limit == t.limit && t.reach <= t'.reach && SameOutside(t.mem, t'.mem, {f})
    ensures Acquired(frames + [f], place, free, t', left - {f}, owned + {f}, pending + {f})
  {
    var r := frames + [f];
    assert r[..|frames|] == frames && r[..|r|] == r;
    ElemsFrom(r, |frames|);
    assert Elems(r) == Elems(frames) + {f};
    forall j {:trigger Serves(t', r[j])} | 0 <= j < |r| ensures Serves(t', r[j]) {
      if j < |frames| {
        assert Serves(t, frames[j]) && frames[j] in Elems(frames);
      }
    }
  }

  /** Why tables could not be had: no slots, no frames, or frames the space cannot use. */
  ghost predicate Scarce(needed: nat, limit: nat, hidden: set<Frame>, count: nat, free: set<Frame>) {
    count + needed > TABLE_LIMIT || |free| < needed || exists f | f in free :: f >= limit || f in hidden
  }

  /** The leaf of a permitted request answers with the rights asked for. */
  lemma LeafAnswer(at: Loc, o: Outcome, phys: nat, flags: Entry, x: nat)
    requires o.Stop? && ParentsAllow(o, flags) && Aligned(phys) && flags.present && flags.frame == 0
    ensures Answered(Stop(at, flags.(frame := phys / PAGE), 1, o.writable, o.user, o.nx), x) == Mapped(phys + x % PAGE, flags, PAGE)
  {
    assert phys / PAGE * PAGE == phys;
  }

  class AddressSpace {
    const ctx: Tables
    var root: Frame
    var limit: nat
    var nx: bool
    var initialized: bool

    constructor (ctx: Tables)
      ensures this.ctx == ctx && !initialized
    {
      this.ctx, root, limit, nx, initialized := ctx, 0, 0, false, false;
    }

    ghost function View(): Space
      reads this, ctx, ctx.pmm
    {
      Space(ctx.mem, ctx.Reach(), root, limit, nx)
    }

    /** The owned tables form a tree below the root, and every one of them is published. */
    ghost predicate Shaped(place: Places, foreign: set<Frame>)
      reads this, ctx, ctx.pmm
    {
      && initialized && ctx.Valid() && ctx.slots[0] == L.Taken(root, true) && Pending(ctx.slots) == {}
      && Tree(View(), place, foreign) && place.Keys == ctx.Frames() && foreign !! ctx.pmm.Eligible()
    }

    method Init(rootFrame: Frame, bits: nat, nxEnabled: bool) returns (ok: bool)
      requires ctx.pmm.Valid() && ctx.pmm.initialized
      modifies this
      ensures ok <==> 32 <= bits <= 52 && rootFrame < Pow2(bits - 12) && rootFrame in ctx.Reach()
      ensures !ok ==> unchanged(this)
      ensures ok ==> initialized && root == rootFrame && limit == Pow2(bits - 12) && nx == nxEnabled
    {
      hide Pow2;
      if bits < 32 || bits > 52 { return false; }
      var max := Pow2(bits - 12);
      var access := ctx.TableAccess(rootFrame);
      if rootFrame >= max || !access { return false; }
      root, limit, nx, initialized := rootFrame, max, nxEnabled, true;
      ok := true;
    }

    // -------------------------------------------------------------- reading

    method Walk(virt: nat) returns (o: Outcome)
      requires ctx.pmm.Valid() && ctx.pmm.initialized
      ensures o == if initialized then PageTable.Walk(View(), virt) else Unsafe
    {
      hide EntryValid, Canonical, Index, Tables.Reach;
      if !initialized || !Canonical(virt) { return Unsafe; }
      var f, level, w, u, n := root, 4, true, true, false;
      var seen: set<Frame> := {};
      while level != 0
        invariant 0 <= level <= 4
        invariant level != 0 ==> PageTable.Walk(View(), virt) == WalkFrom(View(), Path(virt), f, level, seen, w, u, n)
        invariant level == 0 ==> false
      {
        var access := ctx.TableAccess(f);
        if f in seen || !access { return Unsafe; }
        seen := seen + {f};
        assert Path(virt)[4 - level] == Index(virt, level);
        var e := At(ctx.mem, f, Index(virt, level));
        if e.present && !EntryValid(e, level, limit, nx) { return Unsafe; }
        if Stops(e, level) { return Stop(Loc(f, Index(virt, level)), e, level, w, u, n); }
        f, level, w, u, n := e.frame, level - 1, w && e.writable, u && e.user, n || e.nx;
      }
      o := Unsafe;
    }

    method Query(virt: nat) returns (a: Answer)
      requires ctx.pmm.Valid() && ctx.pmm.initialized
      ensures a == if initialized then Translate(View(), virt) else Refused
    {
      hide WalkFrom;
      var o := Walk(virt);
      if o.Unsafe? { return Refused; }
      WalkLevel(View(), Path(virt), root, 4, {}, true, true, false);
      if !o.value.present { return Absent; }
      var n := Pages(o.level);
      var flags := o.value.(frame := if o.level != 1 then o.value.frame % 2 else 0);
      if !o.writable { flags := flags.(writable := false); }
      if !o.user { flags := flags.(user := false); }
      if o.nx { flags := flags.(nx := true); }
      a := Mapped(o.value.frame / n * n * PAGE + virt % (n * PAGE), flags, n * PAGE);
    }

    // -------------------------------------------------------------- changing one entry

    /** Storing `e` into the level-1 entry a walk of `virt` found. */
    method StoreLeaf(virt: nat, o: Outcome, e: Entry, ghost place: Places, ghost foreign: set<Frame>)
      requires Shaped(place, foreign) && Canonical(virt) && o == PageTable.Walk(View(), virt) && o.Stop? && o.level == 1
      requires e.present ==> EntryValid(e, 1, limit, nx)
      modifies ctx
      ensures Shaped(place, foreign) && ctx.slots == old(ctx.slots) && ctx.count == old(ctx.count)
      ensures Replaces(old(View()), View(), virt, o, e) && (e.present || e == Zero ==> Gentle(old(View()), View()))
      ensures ctx.log == old(ctx.log) + [ctx.mem] && OneStore(old(ctx.mem), ctx.mem) && AgreeBut(old(ctx.mem), ctx.mem, place.Keys, o.at)
    {
      hide Tree, EntryValid, Canonical, Path, PageTable.Walk, Translate, Answered, L.Distinct, L.Owned, Pending, Pmm.Valid, Gentle;
      ghost var s := View();
      ctx.Store(o.at.frame, o.at.index, e);
      assert Wrote(old(ctx.mem), ctx.mem, Loc(o.at.frame, o.at.index), e);
      ghost var t := View();
      assert LeafChange(s, t, place, foreign, virt, e) by { TreeBasics(s, place, foreign); }
      LeafStore(s, t, place, foreign, virt, e, 0);
      if e.present || e == Zero { LeafGentle(s, t, place, foreign, virt, e); }
      forall x: nat {:trigger Translate(t, x)}
        ensures Translate(t, x) == if Canonical(x) && x / PAGE == virt / PAGE then Answered(o.(value := e), x) else Translate(s, x)
      {
        LeafStore(s, t, place, foreign, virt, e, x);
      }
    }

    /** The page of `virt` loses its translation, and no other address notices. */
    method Unmap(virt: nat, ghost place: Places, ghost foreign: set<Frame>) returns (ok: bool)
      requires Shaped(place, foreign)
      modifies ctx
      ensures Shaped(place, foreign) && ctx.slots == old(ctx.slots) && ctx.count == old(ctx.count)
      ensures ok <==> Aligned(virt) && Translate(old(View()), virt).Mapped? && Translate(old(View()), virt).size == PAGE
      ensures !ok ==> unchanged(ctx)
      ensures ok ==> Erases(old(View()), View(), virt) && Gentle(old(View()), View()) && ctx.log == old(ctx.log) + [ctx.mem]
      ensures ok ==> AgreeBut(old(ctx.mem), ctx.mem, place.Keys, PageTable.Walk(old(View()), virt).at)
    {
      hide Tree, WalkFrom, Tables.Valid, Canonical, Path, Gentle;
      assert ctx.pmm.Valid() && ctx.pmm.initialized by { LedgerValid(ctx); }
      WalkLevel(View(), Path(virt), root, 4, {}, true, true, false);
      var o := Walk(virt);
      if !Aligned(virt) || o.Unsafe? || !o.value.present || o.level != 1 { return false; }
      StoreLeaf(virt, o, Zero, place, foreign);
      ok := true;
    }

    /** The page of `virt` keeps its frame and takes exactly `flags`; accessed, dirty, PAT and spare bits stay. */
    method Protect(virt: nat, flags: Entry, ghost place: Places, ghost foreign: set<Frame>) returns (ok: bool)
      requires Shaped(place, foreign)
      modifies ctx
      ensures Shaped(place, foreign) && ctx.slots == old(ctx.slots) && ctx.count == old(ctx.count)
      ensures ok <==> && FlagsOk(flags, nx) && Aligned(virt) && Translate(old(View()), virt).Mapped?
                      && Translate(old(View()), virt).size == PAGE && ParentsAllow(PageTable.Walk(old(View()), virt), flags)
      ensures !ok ==> unchanged(ctx)
      ensures ok ==> Reprotects(old(View()), View(), virt, flags) && Gentle(old(View()), View()) && ctx.log == old(ctx.log) + [ctx.mem]
      ensures ok ==> AgreeBut(old(ctx.mem), ctx.mem, place.Keys, PageTable.Walk(old(View()), virt).at)
    {
      hide Tree, WalkFrom, Tables.Valid, Canonical, Path, Gentle;
      assert ctx.pmm.Valid() && ctx.pmm.initialized by { LedgerValid(ctx); }
      WalkLevel(View(), Path(virt), root, 4, {}, true, true, false);
      var o := Walk(virt);
      if !FlagsOk(flags, nx) || !Aligned(virt) || o.Unsafe? || !o.value.present || o.level != 1 || !ParentsAllow(o, flags) {
        return false;
      }
      assert EntryValid(o.value, 1, limit, nx) by { LeafValid(View(), virt, place, foreign); }
      ghost var s := View();
      StoreLeaf(virt, o, Permitted(o.value, flags), place, foreign);
      ReplacedRights(s, View(), virt, flags);
      ok := true;
    }

    // -------------------------------------------------------------- mapping

    ghost predicate Holding(frames: seq<Frame>, s: Space, place: Places, foreign: set<Frame>, free: set<Frame>, log0: seq<Memory>)
      reads this, ctx, ctx.pmm
    {
      && ctx.Valid() && ctx.slots[0] == L.Taken(root, true) && foreign !! ctx.pmm.Eligible()
      && Quiet(s, View(), place, foreign) && Silent(log0, ctx.log, s.mem, place.Keys)
      && Acquired(frames, place, free, View(), ctx.pmm.Free(), ctx.Frames(), Pending(ctx.slots))
    }

    /** Access to what is owned is all that a view of the ledger depends on. */
    lemma Quieter(s: Space, place: Places, foreign: set<Frame>)
      requires ctx.Valid() && foreign !! ctx.pmm.Eligible() && place.Keys <= ctx.Frames() && place.Keys !! ctx.hidden
      requires s.root == root && s.limit == limit && s.nx == nx
      requires AgreeOn(s.mem, ctx.mem, place.Keys)
      ensures Quiet(s, View(), place, foreign)
    {
    }

    /** One more table, or the reason there is none; a frame that cannot serve is still counted as acquired. */
    method AcquireOne(ghost frames: seq<Frame>, ghost s: Space, ghost place: Places, ghost foreign: set<Frame>, ghost free: set<Frame>, ghost log0: seq<Memory>)
      returns (got: bool, usable: bool, f: Frame)
      requires Holding(frames, s, place, foreign, free, log0) && place.Keys !! ctx.hidden && place.Keys !! free
      modifies ctx, ctx.pmm
      ensures ctx.Valid() && ctx.pmm.Eligible() == old(ctx.pmm.Eligible()) && Quiet(s, View(), place, foreign)
      ensures Silent(log0, ctx.log, s.mem, place.Keys)
      ensures got <==> old(ctx.count) < TABLE_LIMIT && old(ctx.pmm.Free()) != {}
      ensures !got ==> !usable && unchanged(ctx) && unchanged(ctx.pmm)
      ensures got ==> f in old(ctx.pmm.Free()) && ctx.pmm.Free() == old(ctx.pmm.Free()) - {f} && ctx.count == old(ctx.count) + 1
      ensures got ==> Step(old(ctx.slots), ctx.slots, f)
      ensures got ==> (usable <==> f < limit && f !in ctx.hidden)
      ensures usable ==> got && Holding(frames + [f], s, place, foreign, free, log0)
    {
      hide L.Distinct, L.Owned, Pending, Pmm.Valid, Clear, Marked, Step, Acquired, Quiet, Elems, Silent;
      ghost var t, left, owned, pending := View(), ctx.pmm.Free(), ctx.Frames(), Pending(ctx.slots);
      QuietAgrees(s, t, place, foreign);
      hide AgreeOn;
      got, f := ctx.TableAllocate();
      usable := false;
      if !got { return; }
      StepPending(old(ctx.slots), ctx.slots, f);
      Quieter(s, place, foreign);
      if f >= limit { return; }
      usable := ctx.TableAccess(f);
      if !usable { return; }
      ctx.ClearTable(f, log0, s.mem, place.Keys);
      Quieter(s, place, foreign);
      AcquiredMore(frames, place, free, t, left, owned, pending, f, View());
    }

    /** Between acquisitions: what is held, and the pile that says how to give it back. */
    ghost predicate Progress(frames: seq<Frame>, history: seq<Slots>, s: Space, place: Places, foreign: set<Frame>, free: set<Frame>, log0: seq<Memory>)
      reads this, ctx, ctx.pmm
    {
      && Holding(frames, s, place, foreign, free, log0)
      && Piled(history, frames) && history[|frames|] == ctx.slots && place.Keys == L.Owned(history[0])
      && place.Keys !! ctx.hidden && place.Keys !! free && |frames| <= ctx.count
    }

    /** Nothing has happened to the ledger, nor, at any time since `log0`, to an existing table. */
    ghost predicate Restored(slots: Slots, count: int, s: Space, place: Places, foreign: set<Frame>, free: set<Frame>, log0: seq<Memory>)
      reads this, ctx, ctx.pmm
    {
      && ctx.Valid() && ctx.slots == slots && ctx.count == count && ctx.pmm.Free() == free
      && Quiet(s, View(), place, foreign) && Silent(log0, ctx.log, s.mem, place.Keys)
    }

    lemma StartProgress(place: Places, foreign: set<Frame>)
      requires Shaped(place, foreign)
      ensures Progress([], [ctx.slots], View(), place, foreign, ctx.pmm.Free(), ctx.log)
    {
      hide L.Distinct, TableOk, Pmm.Valid;
      SilentStart(ctx.log, ctx.mem, place.Keys);
      assert Elems([]) == {};
    }

    /** Give back everything acquired. */
    method Abandon(frames: seq<Frame>, ghost history: seq<Slots>, ghost s: Space, ghost place: Places, ghost foreign: set<Frame>,
                   ghost free: set<Frame>, ghost log0: seq<Memory>)
      requires ctx.Valid() && Piled(history, frames) && history[|frames|] == ctx.slots && |frames| <= ctx.count
      requires place.Keys == L.Owned(history[0]) && place.Keys !! ctx.hidden
      requires Quiet(s, View(), place, foreign) && foreign !! ctx.pmm.Eligible() && Silent(log0, ctx.log, s.mem, place.Keys)
      requires ctx.pmm.Free() + Elems(frames) == free
      modifies ctx, ctx.pmm
      ensures ctx.pmm.Eligible() == old(ctx.pmm.Eligible())
      ensures Restored(history[0], old(ctx.count) - |frames|, s, place, foreign, free, log0)
    {
      hide L.Distinct, L.Owned, Pmm.Valid, Quiet, Elems, Piled, Clear, Marked, AgreeOn, Silent;
      QuietAgrees(s, View(), place, foreign);
      ctx.Rollback(frames, history);
      Quieter(s, place, foreign);
    }

    method AcquireNext(frames: seq<Frame>, ghost history: seq<Slots>, ghost s: Space, ghost place: Places, ghost foreign: set<Frame>,
                       ghost free: set<Frame>, ghost log0: seq<Memory>)
      returns (ok: bool, f: Frame)
      requires Progress(frames, history, s, place, foreign, free, log0)
      modifies ctx, ctx.pmm
      ensures ctx.pmm.Eligible() == old(ctx.pmm.Eligible())
      ensures ok ==> Progress(frames + [f], history + [ctx.slots], s, place, foreign, free, log0) && ctx.count == old(ctx.count) + 1
      ensures !ok ==> Restored(history[0], old(ctx.count) - |frames|, s, place, foreign, free, log0)
      ensures !ok ==> Scarce(|frames| + 1, limit, ctx.hidden, old(ctx.count) - |frames|, free)
    {
      hide L.Distinct, L.Owned, Pending, Pmm.Valid, Clear, Marked, Step, Acquired, Quiet, Elems, Restored, Tables.Reach, Piled, Scarce, Silent;
      PiledSize(history, frames);
      AcquiredLeft(frames, place, free, View(), ctx.pmm.Free(), ctx.Frames(), Pending(ctx.slots));
      var got, usable;
      got, usable, f := AcquireOne(frames, s, place, foreign, free, log0);
      ok := usable;
      if !got {
        ScarceOut(|frames|, limit, ctx.hidden, ctx.count, ctx.pmm.Free(), free);
        Abandon(frames, history, s, place, foreign, free, log0);
      } else {
        if !usable { ScarceBad(|frames| + 1, limit, ctx.hidden, ctx.count - 1 - |frames|, free, f); }
        ElemsSnoc(frames, f);
        PiledMore(history, frames, ctx.slots, f);
        if !usable {
          Abandon(frames + [f], history + [ctx.slots], s, place, foreign, free, log0);
        }
      }
    }

    /** Acquire and clear `needed` tables; on any failure every frame goes back and the ledger is as before. */
    method Acquire(needed: nat, ghost place: Places, ghost foreign: set<Frame>) returns (ok: bool, frames: seq<Frame>)
      requires Shaped(place, foreign)
      modifies ctx, ctx.pmm
      ensures ctx.pmm.Eligible() == old(ctx.pmm.Eligible())
      ensures ok ==> |frames| == needed && Holding(frames, old(View()), place, foreign, old(ctx.pmm.Free()), old(ctx.log))
      ensures ok ==> ctx.count == old(ctx.count) + needed
      ensures !ok ==> Restored(old(ctx.slots), old(ctx.count), old(View()), place, foreign, old(ctx.pmm.Free()), old(ctx.log))
      ensures !ok ==> Scarce(needed, limit, ctx.hidden, old(ctx.count), old(ctx.pmm.Free()))
    {
      hide L.Distinct, L.Owned, Pending, Tables.Valid, Acquired, Quiet, Tree, Silent;
      ghost var s, free, count, log0 := View(), ctx.pmm.Free(), ctx.count, ctx.log;
      ghost var history := [ctx.slots];
      StartProgress(place, foreign);
      frames := [];
      while |frames| < needed
        invariant |frames| <= needed && Progress(frames, history, s, place, foreign, free, log0)
        invariant history[0] == old(ctx.slots) && ctx.count == count + |frames| && ctx.pmm.Eligible() == old(ctx.pmm.Eligible())
      {
        hide Piled;
        var f;
        ok, f := AcquireNext(frames, history, s, place, foreign, free, log0);
        if !ok { return false, []; }
        history, frames := history + [ctx.slots], frames + [f];
      }
      ok := true;
    }

    /** Fill the new tables, top down; none is reachable yet. */
    method FillChain(virt: nat, leaf: Entry, frames: seq<Frame>, ghost s: Space, ghost place: Places, ghost foreign: set<Frame>, ghost free: set<Frame>, ghost log0: seq<Memory>)
      requires Holding(frames, s, place, foreign, free, log0) && 1 <= |frames| <= 3 && place.Keys !! free
      requires leaf.present && EntryValid(leaf, 1, limit, nx)
      modifies ctx`mem, ctx`log
      ensures ctx.Valid() && Quiet(s, View(), place, foreign) && Chain(View(), frames, Path(virt), leaf)
      ensures Silent(log0, ctx.log, s.mem, place.Keys)
    {
      hide L.Distinct, L.Owned, Pending, Pmm.Valid, Clear, Marked, Path, EntryValid, Quiet, Silent;
      AcquiredSpread(frames, place, free, View(), ctx.pmm.Free(), ctx.Frames(), Pending(ctx.slots));
      hide Acquired, Elems;
      ghost var path := Path(virt);
      PathIndex(virt, 1);
      var i := 0;
      while i < |frames|
        invariant i <= |frames| && ctx.Valid() && Quiet(s, View(), place, foreign) && Silent(log0, ctx.log, s.mem, place.Keys)
        invariant forall j {:trigger LinkOk(ctx.mem, frames, path, leaf, j)} | 0 <= j < i :: LinkOk(ctx.mem, frames, path, leaf, j)
        invariant forall j {:trigger frames[j]} | i <= j < |frames| :: Blank(ctx.mem, frames[j])
      {
        var level := |frames| - i;
        PathIndex(virt, level);
        ghost var before, t := ctx.mem, View();
        assert AgreeOn(s.mem, ctx.mem, place.Keys) by { QuietAgrees(s, t, place, foreign); }
        ctx.StoreApart(frames[i], Index(virt, level), if level == 1 then leaf else Parent(frames[i + 1]), log0, s.mem, place.Keys);
        PrivateStore(s, t, View(), place, foreign, frames[i], path[4 - level], Link(frames, leaf, i));
        ChainStored(before, ctx.mem, frames, path, leaf, i);
        i := i + 1;
      }
    }

    method CommitAll(frames: seq<Frame>)
      requires ctx.Valid() && ctx.slots[0] == L.Taken(root, true) && Pending(ctx.slots) == Elems(frames)
      requires forall i, j | 0 <= i < j < |frames| :: frames[i] != frames[j]
      modifies ctx`slots
      ensures ctx.Valid() && ctx.slots[0] == old(ctx.slots[0]) && Pending(ctx.slots) == {} && ctx.Frames() == old(ctx.Frames())
    {
      hide L.Distinct, L.Owned, Pending, Pmm.Valid, Clear, Marked, Elems;
      var i := 0;
      assert frames[0..] == frames;
      while i < |frames|
        invariant i <= |frames| && ctx.Valid() && ctx.slots[0] == L.Taken(root, true)
        invariant ctx.Frames() == old(ctx.Frames()) && Pending(ctx.slots) == Elems(frames[i..])
      {
        RestApart(frames, i);
        ctx.TableCommit(frames[i]);
        i := i + 1;
      }
      NoElems(frames[i..]);
    }

    /** The single store that makes the new tables reachable. */
    method Attach(virt: nat, phys: nat, flags: Entry, o: Outcome, frames: seq<Frame>, ghost s: Space, ghost place: Places,
                  ghost foreign: set<Frame>)
      returns (ghost place': Places)
      requires ctx.Logged() && Tree(s, place, foreign) && Quiet(s, View(), place, foreign) && MapGuard(s, virt, phys, flags)
      requires o == PageTable.Walk(s, virt) && o.level == |frames| + 1 && Canonical(virt)
      requires Fresh(place, foreign, limit, frames) && Chain(View(), frames, Path(virt), flags.(frame := phys / PAGE))
      modifies ctx`mem, ctx`log
      ensures ctx.Logged() && ctx.log == old(ctx.log) + [ctx.mem] && OneStore(old(ctx.mem), ctx.mem)
      ensures Tree(View(), place', foreign) && Remaps(s, View(), virt, phys, flags) && Gentle(s, View())
      ensures place'.Keys == place.Keys + Elems(frames) && AgreeBut(s.mem, ctx.mem, place.Keys, o.at)
    {
      hide Path, EntryValid, Tree, Translate, PageTable.Walk, Elems, Canonical, Quiet, L.Owned, Clear, Marked, Gentle;
      ghost var u, leaf := View(), flags.(frame := phys / PAGE);
      ctx.Store(o.at.frame, o.at.index, Parent(frames[0]));
      assert Wrote(old(ctx.mem), ctx.mem, Loc(o.at.frame, o.at.index), Parent(frames[0]));
      ghost var t := View();
      QuietAgrees(s, u, place, foreign);
      AgreeThenWrote(s.mem, u.mem, ctx.mem, place.Keys, o.at, Parent(frames[0]));
      hide AgreeBut;
      PublishStore(s, u, t, place, foreign, virt, frames, leaf);
      hide Published, Chain, Fresh;
      place' := Grown(place, frames, Path(virt));
      PublishTree(s, t, place, foreign, virt, frames, leaf);
      PublishRemaps(s, t, place, foreign, virt, phys, flags, frames);
      GrownKeys(place, foreign, limit, frames, Path(virt));
    }

    /** The publishing store and the commits: `frames` become tables of the tree. */
    method Publish(virt: nat, phys: nat, flags: Entry, o: Outcome, frames: seq<Frame>, ghost s: Space, ghost place: Places,
                   ghost foreign: set<Frame>)
      returns (ghost place': Places)
      requires ctx.Valid() && initialized && ctx.slots[0] == L.Taken(root, true) && foreign !! ctx.pmm.Eligible()
      requires Tree(s, place, foreign) && Quiet(s, View(), place, foreign) && MapGuard(s, virt, phys, flags)
      requires o == PageTable.Walk(s, virt) && o.level == |frames| + 1 && Canonical(virt)
      requires Fresh(place, foreign, limit, frames) && Chain(View(), frames, Path(virt), flags.(frame := phys / PAGE))
      requires ctx.Frames() == place.Keys + Elems(frames) && Pending(ctx.slots) == Elems(frames)
      modifies ctx`slots, ctx`mem, ctx`log
      ensures Shaped(place', foreign) && Remaps(s, View(), virt, phys, flags) && Gentle(s, View()) && ctx.Frames() == old(ctx.Frames())
      ensures ctx.log == old(ctx.log) + [ctx.mem] && OneStore(old(ctx.mem), ctx.mem) && AgreeBut(s.mem, ctx.mem, place.Keys, o.at)
    {
      hide AgreeBut, L.Distinct, L.Owned, Pending, Pmm.Valid, Path, Tree, PageTable.Walk, Elems, Canonical, Quiet, Chain, Remaps, Gentle, MapGuard;
      place' := Attach(virt, phys, flags, o, frames, s, place, foreign);
      ghost var t := View();
      CommitAll(frames);
      assert View() == t;
    }

    /** The page was absent and nothing else could be in the way: one store into an existing table. */
    method MapInPlace(virt: nat, phys: nat, flags: Entry, o: Outcome, ghost place: Places, ghost foreign: set<Frame>)
      requires Shaped(place, foreign) && MapGuard(View(), virt, phys, flags) && Canonical(virt)
      requires o == PageTable.Walk(View(), virt) && o.level == 1
      modifies ctx
      ensures Shaped(place, foreign) && ctx.slots == old(ctx.slots) && ctx.count == old(ctx.count)
      ensures Remaps(old(View()), View(), virt, phys, flags) && Gentle(old(View()), View())
      ensures Unnoticed(old(View()), old(ctx.log), ctx.log, |ctx.log| - 1) && AgreeBut(old(ctx.mem), ctx.mem, place.Keys, o.at)
    {
      hide AgreeBut, Tree, PageTable.Walk, Path, Canonical, Tables.Valid, Pending, Translate, Unnoticed, OneStore, Gentle;
      LedgerValid(ctx);
      ghost var s := View();
      StoreLeaf(virt, o, flags.(frame := phys / PAGE), place, foreign);
      OnlyStore(s, old(ctx.log), ctx.log);
      forall x: nat {:trigger Translate(View(), x)}
        ensures Translate(View(), x) == if Canonical(x) && x / PAGE == virt / PAGE then Mapped(phys + x % PAGE, flags, PAGE) else Translate(s, x)
      {
        LeafAnswer(o.at, o, phys, flags, x);
      }
    }

    /** The frames in hand are fit to be tables, and the only ones not in the tree. */
    lemma HoldingFresh(frames: seq<Frame>, s: Space, place: Places, foreign: set<Frame>, free: set<Frame>, log0: seq<Memory>)
      requires Holding(frames, s, place, foreign, free, log0) && place.Keys !! free && Tree(s, place, foreign)
      ensures Fresh(place, foreign, limit, frames) && ctx.Valid() && ctx.slots[0] == L.Taken(root, true) && foreign !! ctx.pmm.Eligible()
      ensures ctx.Frames() == place.Keys + Elems(frames) && Pending(ctx.slots) == Elems(frames)
      ensures place.Keys <= ctx.Frames() <= place.Keys + free && ctx.pmm.Free() == free - ctx.Frames() && s.limit == limit && s.nx == nx
    {
      hide Tree, Pmm.Valid, Pending, L.Distinct, L.Owned, Quiet, Acquired, Clear, Marked, Elems, Silent;
      ghost var t, left, owned, pending := View(), ctx.pmm.Free(), ctx.Frames(), Pending(ctx.slots);
      AcquiredSpread(frames, place, free, t, left, owned, pending);
      AcquiredSets(frames, place, free, t, left, owned, pending);
      QuietAgrees(s, t, place, foreign);
    }

    /** Build in the acquired tables and publish them. */
    method BuildAndPublish(virt: nat, phys: nat, flags: Entry, o: Outcome, frames: seq<Frame>, ghost s: Space, ghost place: Places,
                           ghost foreign: set<Frame>, ghost free: set<Frame>, ghost log0: seq<Memory>)
      returns (ghost place': Places)
      requires initialized && Holding(frames, s, place, foreign, free, log0) && place.Keys !! free && Tree(s, place, foreign)
      requires MapGuard(s, virt, phys, flags) && Canonical(virt)
      requires o == PageTable.Walk(s, virt) && o.Stop? && 2 <= o.level <= 4 && |frames| == o.level - 1
      modifies ctx`slots, ctx`mem, ctx`log
      ensures Shaped(place', foreign) && Remaps(s, View(), virt, phys, flags) && Gentle(s, View())
      ensures place.Keys <= ctx.Frames() <= place.Keys + free && ctx.pmm.Free() == free - ctx.Frames()
      ensures LastSpeaks(log0, ctx.log, s.mem, place.Keys) && AgreeBut(s.mem, ctx.mem, place.Keys, o.at)
    {
      hide AgreeBut, Tree, PageTable.Walk, Path, Canonical, Tables.Valid, Pending, L.Distinct, L.Owned, Quiet, Remaps, Chain, Clear, Marked,
           EntryValid, Elems, Silent, OneStore, Gentle, LastSpeaks, Holding, Fresh, Tables.Reach, Shaped;
      HoldingFresh(frames, s, place, foreign, free, log0);
      assert EntryValid(flags.(frame := phys / PAGE), 1, limit, nx) by { RequestValid(phys, flags, limit, nx); }
      FillChain(virt, flags.(frame := phys / PAGE), frames, s, place, foreign, free, log0);
      hide MapGuard;
      LedgerValid(ctx);
      LastSpeaking(log0, ctx.log, s.mem, place.Keys);
      place' := Publish(virt, phys, flags, o, frames, s, place, foreign);
    }

    /** Tables are missing: acquire them, build in private, publish. */
    method MapWithTables(virt: nat, phys: nat, flags: Entry, o: Outcome, ghost place: Places, ghost foreign: set<Frame>)
      returns (ok: bool, ghost place': Places)
      requires Shaped(place, foreign) && MapGuard(View(), virt, phys, flags) && Canonical(virt)
      requires o == PageTable.Walk(View(), virt) && o.Stop? && 2 <= o.level <= 4
      modifies ctx, ctx.pmm
      ensures ctx.pmm.Eligible() == old(ctx.pmm.Eligible())
      ensures ok ==> Shaped(place', foreign) && Remaps(old(View()), View(), virt, phys, flags) && Gentle(old(View()), View())
      ensures ok ==> old(ctx.Frames()) <= ctx.Frames() <= old(ctx.Frames()) + old(ctx.pmm.Free())
      ensures ok ==> ctx.pmm.Free() == old(ctx.pmm.Free()) - ctx.Frames()
      ensures ok ==> LastSpeaks(old(ctx.log), ctx.log, old(ctx.mem), place.Keys) && ctx.count == old(ctx.count) + o.level - 1
      ensures ok ==> AgreeBut(old(ctx.mem), ctx.mem, place.Keys, o.at)
      ensures !ok ==> place' == place
      ensures !ok ==> Restored(old(ctx.slots), old(ctx.count), old(View()), place, foreign, old(ctx.pmm.Free()), old(ctx.log))
      ensures !ok ==> Scarce(o.level - 1, limit, ctx.hidden, old(ctx.count), old(ctx.pmm.Free()))
    {
      hide Tree, PageTable.Walk, Path, Canonical, Tables.Valid, Pending, L.Distinct, L.Owned, Quiet, Acquired, Remaps, Gentle, MapGuard,
           Clear, Marked, Tables.Reach, Holding, Restored, LastSpeaks, AgreeBut;
      ghost var s, free, log0 := View(), ctx.pmm.Free(), ctx.log;
      assert place.Keys !! free by { StartProgress(place, foreign); }
      var frames;
      ok, frames := Acquire(o.level - 1, place, foreign);
      place' := place;
      if !ok { return; }
      place' := BuildAndPublish(virt, phys, flags, o, frames, s, place, foreign, free, log0);
    }

    lemma RestoredShaped(slots: Slots, count: nat, s: Space, place: Places, foreign: set<Frame>, free: set<Frame>, log0: seq<Memory>)
      requires initialized && Restored(slots, count, s, place, foreign, free, log0) && Tree(s, place, foreign)
      requires |slots| > 0 && slots[0] == L.Taken(root, true) && Pending(slots) == {} && place.Keys == L.Owned(slots) && foreign !! ctx.pmm.Eligible()
      ensures Shaped(place, foreign) && SameTranslation(s, View()) && Gentle(s, View()) && AgreeOn(s.mem, ctx.mem, place.Keys)
      ensures Unnoticed(s, log0, ctx.log, |ctx.log|)
    {
      hide Tree, Silent, Unnoticed;
      QuietSame(s, View(), place, foreign);
      QuietAgrees(s, View(), place, foreign);
      SilentUnnoticed(s, log0, ctx.log, place, foreign);
    }

    /** The same, seen from outside: what a failure leaves, and what the stores show. */
    method MapMissing(virt: nat, phys: nat, flags: Entry, o: Outcome, ghost place: Places, ghost foreign: set<Frame>)
      returns (ok: bool, ghost place': Places)
      requires Shaped(place, foreign) && MapGuard(View(), virt, phys, flags) && Canonical(virt)
      requires o == PageTable.Walk(View(), virt) && o.Stop? && 2 <= o.level <= 4
      modifies ctx, ctx.pmm
      ensures ctx.pmm.Eligible() == old(ctx.pmm.Eligible()) && Shaped(place', foreign)
      ensures ok ==> Remaps(old(View()), View(), virt, phys, flags) && Gentle(old(View()), View())
      ensures ok ==> old(ctx.Frames()) <= ctx.Frames() <= old(ctx.Frames()) + old(ctx.pmm.Free())
      ensures ok ==> ctx.pmm.Free() == old(ctx.pmm.Free()) - ctx.Frames()
      ensures ok ==> Unnoticed(old(View()), old(ctx.log), ctx.log, |ctx.log| - 1) && ctx.count == old(ctx.count) + o.level - 1
      ensures ok ==> AgreeBut(old(ctx.mem), ctx.mem, place.Keys, o.at)
      ensures !ok ==> place' == place && ctx.slots == old(ctx.slots) && ctx.count == old(ctx.count)
      ensures !ok ==> ctx.pmm.Free() == old(ctx.pmm.Free()) && SameTranslation(old(View()), View()) && Gentle(old(View()), View())
      ensures !ok ==> AgreeOn(old(ctx.mem), ctx.mem, place.Keys) && Unnoticed(old(View()), old(ctx.log), ctx.log, |ctx.log|)
      ensures !ok ==> Scarce(o.level - 1, limit, ctx.hidden, old(ctx.count), old(ctx.pmm.Free()))
    {
      hide Tree, PageTable.Walk, Path, Canonical, Tables.Valid, Pending, L.Owned, Remaps, MapGuard, Clear, Marked, Gentle,
           Quiet, Silent, LastSpeaks, Unnoticed, AgreeOn, SameTranslation, Scarce, AgreeBut;
      ghost var s, slots, count, free, log0 := View(), ctx.slots, ctx.count, ctx.pmm.Free(), ctx.log;
      assert |slots| > 0 by { SlotsThere(ctx); }
      ok, place' := MapWithTables(virt, phys, flags, o, place, foreign);
      if ok {
        LastUnnoticed(s, log0, ctx.log, place, foreign);
      } else {
        RestoredShaped(slots, count, s, place, foreign, free, log0);
      }
    }

    /** A refused request leaves everything as it is. */
    lemma NothingHappened(place: Places, foreign: set<Frame>)
      requires Shaped(place, foreign)
      ensures SameTranslation(View(), View()) && Gentle(View(), View()) && AgreeOn(ctx.mem, ctx.mem, place.Keys) && Unnoticed(View(), ctx.log, ctx.log, |ctx.log|)
    {
      hide Tree, Translate;
    }

    /**
      Map the page of `virt`, which must be entirely absent. Success changes the translation of that page alone and grants
      exactly the rights asked for; failure gives every frame back and leaves every existing entry as it was. Store by
      store, all addresses translate as before up to the very last one, which makes the page appear whole.
    */
    method Map(virt: nat, phys: nat, flags: Entry, ghost place: Places, ghost foreign: set<Frame>)
      returns (ok: bool, ghost place': Places)
      requires Shaped(place, foreign)
      modifies ctx, ctx.pmm
      ensures Shaped(place', foreign) && ctx.pmm.Eligible() == old(ctx.pmm.Eligible())
      ensures ok ==> MapGuard(old(View()), virt, phys, flags) && Translate(old(View()), virt) == Absent
      ensures ok ==> Remaps(old(View()), View(), virt, phys, flags) && Gentle(old(View()), View())
      ensures ok ==> old(ctx.Frames()) <= ctx.Frames() <= old(ctx.Frames()) + old(ctx.pmm.Free())
      ensures ok ==> ctx.pmm.Free() == old(ctx.pmm.Free()) - ctx.Frames()
      ensures ok ==> Unnoticed(old(View()), old(ctx.log), ctx.log, |ctx.log| - 1)
      ensures ok ==> ctx.count == old(ctx.count) + PageTable.Walk(old(View()), virt).level - 1
      ensures ok ==> AgreeBut(old(ctx.mem), ctx.mem, place.Keys, PageTable.Walk(old(View()), virt).at)
      ensures !ok ==> place' == place && ctx.slots == old(ctx.slots) && ctx.count == old(ctx.count)
      ensures !ok ==> ctx.pmm.Free() == old(ctx.pmm.Free()) && SameTranslation(old(View()), View()) && Gentle(old(View()), View())
      ensures !ok ==> AgreeOn(old(ctx.mem), ctx.mem, place.Keys) && Unnoticed(old(View()), old(ctx.log), ctx.log, |ctx.log|)
      ensures !ok && MapGuard(old(View()), virt, phys, flags) ==>
        var o := PageTable.Walk(old(View()), virt);
        o.level > 1 && Scarce(o.level - 1, limit, ctx.hidden, old(ctx.count), old(ctx.pmm.Free()))
    {
      hide Tree, WalkFrom, Path, Tables.Valid, L.Owned, Remaps, Clear, Marked, Canonical, Scarce, Pending,
           Unnoticed, AgreeOn, SameTranslation, Gentle, AgreeBut;
      LedgerValid(ctx);
      place' := place;
      WalkLevel(View(), Path(virt), root, 4, {}, true, true, false);
      var o := Walk(virt);
      if !FlagsOk(flags, nx) || !PhysicalOk(phys, limit) || !Aligned(virt) || o.Unsafe? || o.value.present
         || o.value != Zero || !ParentsAllow(o, flags) {
        NothingHappened(place, foreign);
        return false, place';
      }
      if o.level == 1 {
        NoneTaken(place, foreign);
        MapInPlace(virt, phys, flags, o, place, foreign);
        ok := true;
      } else {
        ok, place' := MapMissing(virt, phys, flags, o, place, foreign);
      }
    }

    lemma NoneTaken(place: Places, foreign: set<Frame>)
      requires Shaped(place, foreign)
      ensures ctx.pmm.Free() == ctx.pmm.Free() - ctx.Frames()
    {
      hide Tree;
    }
  }

  lemma SlotsThere(ctx: Tables)
    requires ctx.Valid()
    ensures |ctx.slots| == TABLE_LIMIT
  {
  }

  /** Since `log0` one entry was stored at a time, and up to `end` every address translated as in `s` throughout. */
  ghost predicate Unnoticed(s: Space, log0: seq<Memory>, log: seq<Memory>, end: int) {
    && 0 < |log0| <= end <= |log| && log[..|log0|] == log0
    && (forall i {:trigger OneStore(log[i - 1], log[i])} | |log0| <= i < |log| :: OneStore(log[i - 1], log[i]))
    && (forall i {:trigger s.(mem := log[i])} | |log0| <= i < end :: SameTranslation(s, s.(mem := log[i])))
  }

  /** All stores since `log0` were silent except the last. */
  ghost predicate LastSpeaks(log0: seq<Memory>, log: seq<Memory>, m: Memory, frames: set<Frame>) {
    |log| >= 2 && Silent(log0, log[..|log| - 1], m, frames) && OneStore(log[|log| - 2], log[|log| - 1])
  }

  lemma LastSpeaking(log0: seq<Memory>, log: seq<Memory>, m: Memory, frames: set<Frame>)
    requires Silent(log0, log, m, frames)
    ensures log != [] && forall n {:trigger log + [n]} | OneStore(log[|log| - 1], n) :: LastSpeaks(log0, log + [n], m, frames)
  {
    hide OneStore, AgreeOn, SilentAt;
    forall n {:trigger log + [n]} | OneStore(log[|log| - 1], n) ensures LastSpeaks(log0, log + [n], m, frames) {
      assert (log + [n])[..|log|] == log;
    }
  }

  lemma SilentUnnoticed(s: Space, log0: seq<Memory>, log: seq<Memory>, place: Places, foreign: set<Frame>)
    requires Tree(s, place, foreign) && Silent(log0, log, s.mem, place.Keys)
    ensures Unnoticed(s, log0, log, |log|)
  {
    hide Tree, OneStore, SameTranslation, AgreeOn;
    TreeBasics(s, place, foreign);
    forall i {:trigger OneStore(log[i - 1], log[i])} | |log0| <= i < |log| ensures OneStore(log[i - 1], log[i]) {
      assert SilentAt(log, i, s.mem, place.Keys);
    }
    forall i {:trigger s.(mem := log[i])} | |log0| <= i < |log| ensures SameTranslation(s, s.(mem := log[i])) {
      assert SilentAt(log, i, s.mem, place.Keys);
      AgreeQuiet(s, log[i], place, foreign);
      QuietSame(s, s.(mem := log[i]), place, foreign);
    }
  }

  lemma AgreeQuiet(s: Space, m: Memory, place: Places, foreign: set<Frame>)
    requires place.Keys <= s.reach && s.reach !! foreign && AgreeOn(s.mem, m, place.Keys)
    ensures Quiet(s, s.(mem := m), place, foreign)
  {
  }

  lemma LastUnnoticed(s: Space, log0: seq<Memory>, log: seq<Memory>, place: Places, foreign: set<Frame>)
    requires Tree(s, place, foreign) && LastSpeaks(log0, log, s.mem, place.Keys)
    ensures Unnoticed(s, log0, log, |log| - 1)
  {
    hide Tree, OneStore, SameTranslation, Silent;
    var n := |log| - 1;
    SilentUnnoticed(s, log0, log[..n], place, foreign);
    assert log[..n][..|log0|] == log[..|log0|];
    forall i {:trigger OneStore(log[i - 1], log[i])} | |log0| <= i < |log| ensures OneStore(log[i - 1], log[i]) {
      if i < n { assert OneStore(log[..n][i - 1], log[..n][i]); }
    }
    forall i {:trigger s.(mem := log[i])} | |log0| <= i < n ensures SameTranslation(s, s.(mem := log[i])) {
      assert log[..n][i] == log[i];
    }
  }

  lemma OnlyStore(s: Space, log0: seq<Memory>, log: seq<Memory>)
    requires log0 != [] && |log| == |log0| + 1 && log[..|log0|] == log0 && OneStore(log0[|log0| - 1], log[|log0|])
    ensures Unnoticed(s, log0, log, |log| - 1)
  {
    hide OneStore;
    assert log[|log0| - 1] == log0[|log0| - 1];
  }

  lemma ElemsSnoc(frames: seq<Frame>, f: Frame)
    ensures Elems(frames + [f]) == Elems(frames) + {f}
  {
    ElemsFrom(frames + [f], |frames|);
    assert (frames + [f])[..|frames|] == frames && (frames + [f])[..|frames| + 1] == frames + [f];
  }

  lemma {:induction false} ElemsSize(frames: seq<Frame>)
    requires forall i, j | 0 <= i < j < |frames| :: frames[i] != frames[j]
    ensures |Elems(frames)| == |frames|
  {
    if frames != [] {
      var n := |frames| - 1;
      ElemsSize(frames[..n]);
      ElemsFrom(frames, n);
      assert frames[..n + 1] == frames;
    }
  }

  lemma ScarceOut(n: nat, limit: nat, hidden: set<Frame>, count: nat, left: set<Frame>, free: set<Frame>)
    requires n <= count && |free| == |left| + n && (count >= TABLE_LIMIT || left == {})
    ensures Scarce(n + 1, limit, hidden, count - n, free)
  {
  }

  lemma ScarceBad(needed: nat, limit: nat, hidden: set<Frame>, count: nat, free: set<Frame>, f: Frame)
    requires f in free && (f >= limit || f in hidden)
    ensures Scarce(needed, limit, hidden, count, free)
  {
  }

  lemma PiledSize(history: seq<Slots>, frames: seq<Frame>)
    requires Piled(history, frames)
    ensures |history| == |frames| + 1
  {
  }

  lemma PiledMore(history: seq<Slots>, frames: seq<Frame>, slots: Slots, f: Frame)
    requires Piled(history, frames) && |slots| == TABLE_LIMIT && L.Distinct(slots) && Step(history[|frames|], slots, f)
    ensures Piled(history + [slots], frames + [f])
  {
    hide Step, L.Distinct;
    var h, r := history + [slots], frames + [f];
    forall k | 0 <= k < |r| ensures Step(h[k], h[k + 1], r[k]) {
      if k < |frames| { assert Step(history[k], history[k + 1], frames[k]); }
    }
  }

  lemma AcquiredLeft(frames: seq<Frame>, place: Places, free: set<Frame>, t: Space, left: set<Frame>, owned: set<Frame>, pending: set<Frame>)
    requires Acquired(frames, place, free, t, left, owned, pending)
    ensures left + Elems(frames) == free && |free| == |left| + |frames|
    ensures Elems(frames) !! left
  {
    ElemsSize(frames);
    Added(left, Elems(frames));
  }

  lemma RestApart(frames: seq<Frame>, i: nat)
    requires i < |frames| && forall i, j | 0 <= i < j < |frames| :: frames[i] != frames[j]
    ensures frames[i] in Elems(frames[i..]) && Elems(frames[i..]) - {frames[i]} == Elems(frames[i + 1..])
  {
    ElemsFrom(frames, i);
  }

  lemma GrownKeys(place: Places, foreign: set<Frame>, limit: nat, frames: seq<Frame>, path: seq<nat>)
    requires Fresh(place, foreign, limit, frames) && |path| == 4 && |frames| <= 3
    ensures Grown(place, frames, path).Keys == place.Keys + Elems(frames)
  {
    GrownExtends(place, foreign, limit, frames, path);
  }

  /** The chain is built in tables apart from the one the publishing store goes to. */
  lemma PublishStore(s: Space, u: Space, t: Space, place: Places, foreign: set<Frame>, virt: nat, frames: seq<Frame>, leaf: Entry)
    requires Tree(s, place, foreign) && Quiet(s, u, place, foreign) && Canonical(virt)
    requires Walk(s, virt).Stop? && Walk(s, virt).value == Zero && Walk(s, virt).level == |frames| + 1
    requires Fresh(place, foreign, s.limit, frames) && Chain(u, frames, Path(virt), leaf)
    requires t == u.(mem := t.mem) && Wrote(u.mem, t.mem, Walk(s, virt).at, Parent(frames[0]))
    ensures Published(s, t, place, foreign, virt, frames, leaf)
  {
    hide Path, TableOk;
    var o := Walk(s, virt);
    TreeWalk(s, place, foreign, virt);
    StopPlaced(s, place, foreign, Path(virt), s.root, 4, true, true, false);
    forall j {:trigger LinkOk(t.mem, frames, Path(virt), leaf, j)} | 0 <= j < |frames| ensures LinkOk(t.mem, frames, Path(virt), leaf, j) {
      assert LinkOk(u.mem, frames, Path(virt), leaf, j);
    }
  }

  lemma PublishRemaps(s: Space, t: Space, place: Places, foreign: set<Frame>, virt: nat, phys: nat, flags: Entry, frames: seq<Frame>)
    requires Tree(s, place, foreign) && MapGuard(s, virt, phys, flags)
    requires Published(s, t, place, foreign, virt, frames, flags.(frame := phys / PAGE))
    ensures Remaps(s, t, virt, phys, flags) && Gentle(s, t)
  {
    assert |frames| >= 1;
    hide Path, Tree, Published, Walk, Translate;
    forall x: nat {:trigger Translate(t, x)}
      ensures Translate(t, x) == if Canonical(x) && x / PAGE == virt / PAGE then Mapped(phys + x % PAGE, flags, PAGE) else Translate(s, x)
    {
      PublishTranslate(s, t, place, foreign, virt, frames, flags.(frame := phys / PAGE), x);
      LeafAnswer(Loc(frames[|frames| - 1], Path(virt)[3]), Walk(s, virt), phys, flags, x);
    }
    forall x: nat {:trigger Walk(t, x)} ensures Gentler(Walk(s, x), Walk(t, x)) {
      PublishTranslate(s, t, place, foreign, virt, frames, flags.(frame := phys / PAGE), x);
    }
  }

  lemma RequestValid(phys: nat, flags: Entry, limit: nat, nx: bool)
    requires FlagsOk(flags, nx) && PhysicalOk(phys, limit)
    ensures EntryValid(flags.(frame := phys / PAGE), 1, limit, nx)
  {
  }

  lemma AcquiredSets(frames: seq<Frame>, place: Places, free: set<Frame>, t: Space, left: set<Frame>, owned: set<Frame>, pending: set<Frame>)
    requires Acquired(frames, place, free, t, left, owned, pending)
    ensures owned == place.Keys + Elems(frames) && pending == Elems(frames) && Elems(frames) <= free
    ensures place.Keys !! free ==> left == free - owned
  {
  }

  lemma PathIndex(virt: nat, level: nat)
    requires 1 <= level <= 4
    ensures Path(virt)[4 - level] == Index(virt, level) && Indices(Path(virt))
  {
  }

  /** What is acquired is distinct, usable and apart from what was placed. */
  lemma AcquiredSpread(frames: seq<Frame>, place: Places, free: set<Frame>, t: Space, left: set<Frame>, owned: set<Frame>, pending: set<Frame>)
    requires Acquired(frames, place, free, t, left, owned, pending) && place.Keys !! free
    ensures forall i, j | 0 <= i < j < |frames| :: frames[i] != frames[j]
    ensures forall j | 0 <= j < |frames| :: frames[j] !in place && frames[j] < t.limit && frames[j] in t.reach && Blank(t.mem, frames[j])
  {
    forall j | 0 <= j < |frames| ensures frames[j] !in place && frames[j] < t.limit && frames[j] in t.reach && Blank(t.mem, frames[j]) {
      assert Serves(t, frames[j]) && frames[j] in Elems(frames);
    }
  }

  lemma PrivateStore(s: Space, t: Space, t': Space, place: Places, foreign: set<Frame>, f: Frame, i: nat, e: Entry)
    requires Quiet(s, t, place, foreign) && f !in place
    requires t' == t.(mem := t'.mem) && Wrote(t.mem, t'.mem, Loc(f, i), e)
    ensures Quiet(s, t', place, foreign)
  {
  }

  lemma ChainStored(m: Memory, n: Memory, frames: seq<Frame>, path: seq<nat>, leaf: Entry, i: nat)
    requires Indices(path) && 1 <= |frames| <= 3 && i < |frames| && forall i, j | 0 <= i < j < |frames| :: frames[i] != frames[j]
    requires forall j {:trigger LinkOk(m, frames, path, leaf, j)} | 0 <= j < i :: LinkOk(m, frames, path, leaf, j)
    requires forall j {:trigger frames[j]} | i <= j < |frames| :: Blank(m, frames[j])
    requires Wrote(m, n, Loc(frames[i], path[4 - |frames| + i]), Link(frames, leaf, i))
    ensures forall j {:trigger LinkOk(n, frames, path, leaf, j)} | 0 <= j < i + 1 :: LinkOk(n, frames, path, leaf, j)
    ensures forall j {:trigger frames[j]} | i + 1 <= j < |frames| :: Blank(n, frames[j])
  {
    forall j {:trigger LinkOk(n, frames, path, leaf, j)} | 0 <= j < i + 1 ensures LinkOk(n, frames, path, leaf, j) {
      if j < i { assert LinkOk(m, frames, path, leaf, j); } else { assert Blank(m, frames[i]); }
    }
    forall j {:trigger frames[j]} | i + 1 <= j < |frames| ensures Blank(n, frames[j]) { assert Blank(m, frames[j]); }
  }

  lemma QuietAgrees(s: Space, t: Space, place: Places, foreign: set<Frame>)
    requires Quiet(s, t, place, foreign)
    ensures AgreeOn(s.mem, t.mem, place.Keys) && place.Keys <= t.reach
    ensures t.root == s.root && t.limit == s.limit && t.nx == s.nx
  {
  }

  lemma TreeBasics(s: Space, place: Places, foreign: set<Frame>)
    requires Tree(s, place, foreign)
    ensures place.Keys <= s.reach && s.reach !! foreign
  {
  }

  lemma LedgerValid(ctx: Tables)
    requires ctx.Valid()
    ensures ctx.pmm.Valid() && ctx.pmm.initialized && ctx.Logged()
  {
  }
}
