/**
  Growing the kernel heap's mapped prefix (kernel/memory/heap_pages.c) as a transaction over fallible callbacks. `World`
  is everything behind the callbacks; a script of answers, arbitrary and unknown to the code, decides which calls fail.
*/
module HeapPages {
  import opened MemoryMap

  const DYNAMIC_BASE: nat := 0xFFFF_C000_0000_0000
  const DYNAMIC_SIZE: nat := 0x80_0000_0000
  const TEST_SIZE: nat := 0x40_0000
  const ADDRESS_LIMIT: nat := 0x10_0000_0000_0000

  datatype Mapping = Mapping(phys: nat, nx: bool, size: nat)

  /** A frame address that fits a page-table entry. */
  predicate Nameable(phys: nat) { Aligned(phys) && phys < ADDRESS_LIMIT }

  /** An interval of whole pages in the owned part of the kernel arena. */
  predicate ValidInterval(base: nat, capacity: nat) {
    && capacity != 0 && Aligned(base) && Aligned(capacity)
    && DYNAMIC_BASE + TEST_SIZE <= base < DYNAMIC_BASE + DYNAMIC_SIZE
    && capacity <= DYNAMIC_BASE + DYNAMIC_SIZE - base
  }

  /**
    Frames, their contents and the mappings of the whole kernel, behind callbacks that may refuse. `pending` holds the
    pages mapped here whose unmapping no query has confirmed, with their frames: such a frame must not be freed.
  */
  class World {
    var owned: set<nat>
    var clean: set<nat>
    var maps: map<nat, Mapping>
    var script: seq<bool>
    var offers: seq<nat>
    ghost var pending: map<nat, nat>
    /** Pages whose unmapping was reported since they were last mapped. */
    ghost var asked: set<nat>
    /** How many query, unmap and free calls were refused. */
    ghost var refused: nat
    /** How many unmappings were reported and did not happen. */
    ghost var lied: nat
    /** How many frames were offered that no page table can name. */
    ghost var bad: nat
    /** How many alloc, zero and map calls were refused. */
    ghost var denied: nat

    constructor (maps: map<nat, Mapping>, script: seq<bool>, offers: seq<nat>)
      ensures this.maps == maps && owned == {} && clean == {} && this.script == script && this.offers == offers
      ensures pending == map[] && Valid()
    {
      owned, clean, this.maps, this.script, this.offers := {}, {}, maps, script, offers;
      pending, asked, refused, lied, bad, denied := map[], {}, 0, 0, 0, 0;
    }

    ghost predicate Valid()
      reads this
    {
      Injective(pending) && forall v: nat {:trigger pending[v]} | v in pending :: pending[v] in owned
    }

    /** How often the callbacks have broken their side of the bargain. Denying a frame, its clearing or its mapping is no fault. */
    ghost function Faults(): nat
      reads this
    {
      refused + lied + bad
    }

    /** The next answer; an exhausted script refuses. */
    method Consent() returns (yes: bool)
      modifies this`script
    {
      yes := script != [] && script[0];
      script := if script == [] then [] else script[1..];
    }

    /** A frame not handed out before, which may still violate the alignment contract; or nothing. */
    method Alloc() returns (ok: bool, phys: nat)
      modifies this`script, this`offers, this`owned, this`clean, this`denied, this`bad
      ensures denied == old(denied) + (if ok then 0 else 1) && bad == old(bad) + if ok && !Nameable(phys) then 1 else 0
      ensures ok ==> phys !in old(owned) && owned == old(owned) + {phys} && clean == old(clean) - {phys}
      ensures !ok ==> owned == old(owned) && clean == old(clean)
    {
      ok := Consent();
      phys := if offers == [] then 0 else offers[0];
      offers := if offers == [] then [] else offers[1..];
      ok := ok && phys !in owned;
      if ok { owned, clean := owned + {phys}, clean - {phys}; } else { denied := denied + 1; }
      if ok && !Nameable(phys) { bad := bad + 1; }
    }

    /** No frame may be freed while the unmapping of its page is unconfirmed. */
    method Free(phys: nat) returns (ok: bool)
      requires Spare(pending, phys)
      modifies this`script, this`owned, this`refused
      ensures owned == (if ok then old(owned) - {phys} else old(owned)) && refused == old(refused) + if ok then 0 else 1
    {
      ok := Consent();
      if ok { owned := owned - {phys}; } else { refused := refused + 1; }
    }

    method ZeroPage(phys: nat) returns (ok: bool)
      modifies this`script, this`clean, this`denied
      ensures clean == (if ok then old(clean) + {phys} else old(clean)) && denied == old(denied) + if ok then 0 else 1
    {
      ok := Consent();
      if ok { clean := clean + {phys}; } else { denied := denied + 1; }
    }

    method MapPage(virt: nat, phys: nat, nx: bool) returns (ok: bool)
      requires virt !in pending
      modifies this`script, this`maps, this`pending, this`asked, this`denied
      ensures denied == old(denied) + if ok then 0 else 1
      ensures maps == if ok then old(maps)[virt := Mapping(phys, nx, PAGE)] else old(maps)
      ensures pending == if ok then old(pending)[virt := phys] else old(pending)
    {
      ok := Consent();
      if ok { maps, pending, asked := maps[virt := Mapping(phys, nx, PAGE)], pending[virt := phys], asked - {virt}; } else { denied := denied + 1; }
    }

    /** A query that answers tells the truth; one that reports a page absent after its unmapping confirms it. */
    method Query(virt: nat) returns (ok: bool, mapped: bool, m: Mapping)
      modifies this`script, this`pending, this`refused
      ensures ok ==> (mapped <==> virt in maps) && (mapped ==> m == maps[virt])
      ensures pending == if ok && !mapped && virt in asked then old(pending) - {virt} else old(pending)
      ensures refused == old(refused) + if ok then 0 else 1
    {
      ok := Consent();
      mapped := virt in maps;
      m := if mapped then maps[virt] else Mapping(0, false, 0);
      if !ok { refused := refused + 1; } else if !mapped && virt in asked { pending := pending - {virt}; }
    }

    /** Whatever it answers, the mapping may be gone or still there. */
    method UnmapPage(virt: nat) returns (ok: bool)
      modifies this`script, this`maps, this`asked, this`refused, this`lied
      ensures lied == old(lied) + if ok && virt in maps then 1 else 0
      ensures maps == old(maps) || maps == old(maps) - {virt}
      ensures asked == (if ok then old(asked) + {virt} else old(asked) - {virt}) && refused == old(refused) + if ok then 0 else 1
    {
      ok := Consent();
      var gone := Consent();
      if gone { maps := maps - {virt}; }
      asked := if ok then asked + {virt} else asked - {virt};
      if !ok { refused := refused + 1; } else if virt in maps { lied := lied + 1; }
    }
  }

  /** No pending page uses the frame. */
  ghost predicate Spare(pending: map<nat, nat>, phys: nat) {
    forall v: nat {:trigger pending[v]} | v in pending :: pending[v] != phys
  }

  // ---------------------------------------------------------------- what a growth adds

  predicate PageIn(virt: nat, first: nat, end: nat) { Aligned(virt) && first <= virt < end }

  ghost predicate Apart(held: map<nat, nat>, v: nat)
    requires v in held
  {
    forall w: nat | w in held && w != v :: held[w] != held[v]
  }

  ghost predicate Injective(held: map<nat, nat>) { forall v: nat {:trigger Apart(held, v)} | v in held :: Apart(held, v) }

  /** The pages from `first` to `end` map to distinct frames, all of them in `held`. */
  ghost predicate Backed(maps: map<nat, Mapping>, nx: bool, first: nat, end: nat, held: map<nat, nat>) {
    && (forall v: nat {:trigger v in held} :: v in held <==> PageIn(v, first, end))
    && (forall v: nat {:trigger held[v]} | v in held :: v in maps && maps[v] == Mapping(held[v], nx, PAGE) && Aligned(held[v]))
    && Injective(held)
  }

  ghost function Frames(held: map<nat, nat>): set<nat> { set v | v in held :: held[v] }

  /** `maps` and `owned` are the given ones plus what `held` adds. */
  ghost predicate Added(maps0: map<nat, Mapping>, owned0: set<nat>, maps: map<nat, Mapping>, owned: set<nat>, held: map<nat, nat>) {
    && maps.Keys == maps0.Keys + held.Keys && maps0.Keys !! held.Keys
    && (forall v | v in maps0 :: maps[v] == maps0[v])
    && owned == owned0 + Frames(held) && owned0 !! Frames(held)
  }

  lemma HeldMore(held: map<nat, nat>, v: nat, f: nat)
    requires v !in held
    ensures Frames(held[v := f]) == Frames(held) + {f}
  {
    var h := held[v := f];
    forall g | g in Frames(held) ensures g in Frames(h) {
      var w :| w in held && held[w] == g;
      assert h[w] == g;
    }
    assert h[v] == f;
  }

  lemma HeldLess(held: map<nat, nat>, v: nat)
    requires v in held && Apart(held, v)
    ensures Frames(held - {v}) == Frames(held) - {held[v]}
  {
    var h := held - {v};
    forall g | g in Frames(held) && g != held[v] ensures g in Frames(h) {
      var w :| w in held && held[w] == g;
      assert h[w] == g;
    }
  }

  /** However cleanup went: what was there before is intact, and a page still mapped has its frame still owned. */
  ghost predicate Loose(maps0: map<nat, Mapping>, owned0: set<nat>, maps: map<nat, Mapping>, owned: set<nat>, held: map<nat, nat>) {
    && (forall v | v in maps0 :: v in maps && maps[v] == maps0[v])
    && (forall v {:trigger v in maps} | v in maps :: v in maps0 || v in held)
    && (forall v: nat {:trigger held[v]} | v in held && v in maps :: maps[v].phys == held[v] && held[v] in owned)
    && owned0 <= owned
  }

  lemma AddedIsLoose(maps0: map<nat, Mapping>, owned0: set<nat>, maps: map<nat, Mapping>, owned: set<nat>, held: map<nat, nat>, nx: bool, first: nat, end: nat)
    requires Added(maps0, owned0, maps, owned, held) && Backed(maps, nx, first, end, held)
    ensures Loose(maps0, owned0, maps, owned, held)
  {
    forall v: nat {:trigger held[v]} | v in held && v in maps ensures maps[v].phys == held[v] && held[v] in owned {}
  }

  ghost function Below(held: map<nat, nat>, end: nat): map<nat, nat> { map v | v in held && v < end :: held[v] }

  /** The pages not yet taken back are all still there. */
  ghost predicate Intact(maps: map<nat, Mapping>, nx: bool, held: map<nat, nat>, end: nat) {
    forall v: nat {:trigger held[v]} | v in held && v < end :: v in maps && maps[v] == Mapping(held[v], nx, PAGE)
  }

  lemma LooseStep(maps0: map<nat, Mapping>, owned0: set<nat>, maps: map<nat, Mapping>, owned: set<nat>,
                  maps': map<nat, Mapping>, owned': set<nat>, held: map<nat, nat>, virt: nat)
    requires Loose(maps0, owned0, maps, owned, held) && virt in held && virt in maps && virt !in maps0
    requires Apart(held, virt)
    requires held[virt] !in owned0
    requires maps' == maps || maps' == maps - {virt}
    requires owned' == owned || (owned' == owned - {held[virt]} && virt !in maps')
    ensures Loose(maps0, owned0, maps', owned', held)
  {
    assert maps[virt].phys == held[virt];
    forall v: nat {:trigger held[v]} | v in held && v in maps' ensures maps'[v].phys == held[v] && held[v] in owned' {
      assert maps[v].phys == held[v];
    }
  }

  lemma AddedStep(maps0: map<nat, Mapping>, owned0: set<nat>, maps: map<nat, Mapping>, owned: set<nat>,
                  maps': map<nat, Mapping>, owned': set<nat>, held: map<nat, nat>, virt: nat, end: nat)
    requires Added(maps0, owned0, maps, owned, Below(held, end)) && virt in held && virt < end
    requires forall v: nat | v in held && v < end :: v <= virt
    requires Apart(held, virt)
    requires maps' == maps - {virt} && owned' == owned - {held[virt]}
    ensures Added(maps0, owned0, maps', owned', Below(held, virt))
  {
    var h: map<nat, nat>, h': map<nat, nat> := Below(held, end), Below(held, virt);
    assert h' == h - {virt};
    assert Apart(h, virt);
    HeldLess(h, virt);
    assert held[virt] in Frames(h) by { assert h[virt] == held[virt]; }
  }

  /** What is pending: what was before, and the pages of `held`. */
  ghost predicate Awaited(pending0: map<nat, nat>, pending: map<nat, nat>, held: map<nat, nat>) {
    && pending.Keys == pending0.Keys + held.Keys && pending0.Keys !! held.Keys
    && (forall v | v in pending0 :: pending[v] == pending0[v]) && (forall v | v in held :: pending[v] == held[v])
  }

  /** Pages still to be taken back are still pending, and nothing else was ever dropped. */
  ghost predicate AwaitedBelow(pending0: map<nat, nat>, pending: map<nat, nat>, held: map<nat, nat>, top: nat) {
    && pending0.Keys !! held.Keys && (forall v | v in pending0 :: v in pending && pending[v] == pending0[v])
    && (forall v: nat {:trigger held[v]} | v in held && v < top :: v in pending && pending[v] == held[v])
    && (forall v {:trigger v in pending} | v in pending :: v in pending0 || v in held)
  }

  /** Half way through a rollback: the pages below `top` are still to be taken back. */
  ghost predicate Undoing(maps0: map<nat, Mapping>, owned0: set<nat>, maps: map<nat, Mapping>, owned: set<nat>, held: map<nat, nat>,
                          nx: bool, top: nat, corrupted: bool) {
    && Loose(maps0, owned0, maps, owned, held) && Intact(maps, nx, held, top)
    && (!corrupted ==> Added(maps0, owned0, maps, owned, Below(held, top)))
  }

  /** What taking back one page may do: without a confirmation its frame stays owned. */
  ghost predicate TakenBack(maps: map<nat, Mapping>, owned: set<nat>, pending: map<nat, nat>, maps': map<nat, Mapping>, owned': set<nat>,
                            pending': map<nat, nat>, virt: nat, phys: nat, corrupted: bool) {
    && (maps' == maps || maps' == maps - {virt})
    && (pending' == pending || (virt !in maps' && pending' == pending - {virt}))
    && (owned' == owned || (virt !in maps' && pending' == pending - {virt} && owned' == owned - {phys}))
    && (!corrupted ==> maps' == maps - {virt} && owned' == owned - {phys} && pending' == pending - {virt})
  }

  /** The pages of `held` fill the range, each in a frame of its own that was not there before. */
  ghost predicate Own(maps0: map<nat, Mapping>, owned0: set<nat>, held: map<nat, nat>, first: nat, end: nat) {
    && (forall v: nat {:trigger v in held} :: v in held <==> PageIn(v, first, end))
    && Injective(held)
    && (forall v: nat {:trigger held[v]} | v in held :: v !in maps0 && held[v] !in owned0 && Aligned(held[v]))
  }

  lemma UndoStep(maps0: map<nat, Mapping>, owned0: set<nat>, maps: map<nat, Mapping>, owned: set<nat>, maps': map<nat, Mapping>, owned': set<nat>,
                 pending: map<nat, nat>, pending': map<nat, nat>,
                 held: map<nat, nat>, nx: bool, first: nat, end: nat, top: nat, virt: nat, before: bool, corrupted: bool)
    requires Own(maps0, owned0, held, first, end) && Undoing(maps0, owned0, maps, owned, held, nx, top, before)
    requires virt in held && virt < top && (before ==> corrupted) && forall v: nat | v in held && v < top :: v <= virt
    requires TakenBack(maps, owned, pending, maps', owned', pending', virt, held[virt], corrupted)
    ensures Undoing(maps0, owned0, maps', owned', held, nx, virt, corrupted)
  {
    assert Apart(held, virt);
    LooseStep(maps0, owned0, maps, owned, maps', owned', held, virt);
    if !corrupted { AddedStep(maps0, owned0, maps, owned, maps', owned', held, virt, top); }
  }

  lemma AwaitStep(pending0: map<nat, nat>, pending: map<nat, nat>, pending': map<nat, nat>, held: map<nat, nat>, top: nat, virt: nat,
                  before: bool, corrupted: bool)
    requires AwaitedBelow(pending0, pending, held, top) && (!before ==> Awaited(pending0, pending, Below(held, top)))
    requires virt in held && virt < top && (before ==> corrupted) && forall v: nat | v in held && v < top :: v <= virt
    requires pending' == pending || pending' == pending - {virt}
    requires !corrupted ==> pending' == pending - {virt}
    ensures AwaitedBelow(pending0, pending', held, virt) && (!corrupted ==> Awaited(pending0, pending', Below(held, virt)))
  {
    if !corrupted {
      var h: map<nat, nat>, h': map<nat, nat> := Below(held, top), Below(held, virt);
      assert h' == h - {virt};
    }
  }

  class State {
    const world: World
    var base: nat
    var capacity: nat
    var mapped: nat
    var nx: bool
    var initialized: bool
    var corrupted: bool
    /** The frame of each page of the prefix. */
    ghost var backing: map<nat, nat>

    constructor (world: World)
      ensures this.world == world && !initialized && !corrupted && mapped == 0
    {
      this.world, base, capacity, mapped, nx, initialized, corrupted := world, 0, 0, 0, false, false, false;
      backing := map[];
    }

    /** Corrupted or not, the committed prefix is mapped page by page to frames of its own, none of which may be freed. */
    ghost predicate Prefix()
      reads this, world
    {
      && Aligned(mapped) && mapped <= capacity && ValidInterval(base, capacity)
      && Backed(world.maps, nx, base, base + mapped, backing) && Kept(backing, world.pending)
    }

    ghost predicate Valid()
      reads this, world
    {
      && world.Valid() && (initialized ==> Prefix())
      && (initialized && !corrupted ==> Known(world.pending, world.maps, base, base + capacity))
    }

    /** A new state takes over an interval in which nothing is pending. */
    method Init(base: nat, capacity: nat, nx: bool) returns (ok: bool)
      modifies this
      ensures ok <==> !old(initialized) && ValidInterval(base, capacity)
      ensures !ok ==> unchanged(this)
      ensures ok ==> initialized && !corrupted && mapped == 0 && this.base == base && this.capacity == capacity && this.nx == nx
      ensures ok && world.Valid() && Known(world.pending, world.maps, base, base + capacity) ==> Valid()
    {
      hide Known;
      if initialized || !ValidInterval(base, capacity) { return false; }
      this.base, this.capacity, this.nx, mapped, initialized, corrupted := base, capacity, nx, 0, true, false;
      backing := map[];
      NothingHeld(world.maps, world.owned, nx, base);
      ok := true;
    }

    method ReleaseFrame(phys: nat)
      requires Spare(world.pending, phys)
      modifies this`corrupted, world`script, world`owned, world`refused
      ensures world.refused >= old(world.refused) && (corrupted <==> old(corrupted) || world.refused > old(world.refused))
      ensures world.owned == old(world.owned) - {phys} || (corrupted && world.owned == old(world.owned))
    {
      var ok := world.Free(phys);
      if !ok { corrupted := true; }
    }

    /** Take back one page. Its frame is freed only after a query has confirmed that nothing maps there. */
    method RollbackPage(virt: nat)
      requires world.Valid() && virt in world.maps && virt in world.pending && world.maps[virt].phys == world.pending[virt]
      modifies this`corrupted, world`script, world`maps, world`owned, world`pending, world`asked, world`refused, world`lied
      ensures world.Valid() && (old(corrupted) ==> corrupted) && world.refused >= old(world.refused) && world.lied >= old(world.lied)
      ensures world.Faults() > old(world.Faults()) ==> corrupted
      ensures corrupted && !old(corrupted) && old(world.maps)[virt].size == PAGE && Aligned(old(world.maps)[virt].phys) ==> world.Faults() > old(world.Faults())
      ensures TakenBack(old(world.maps), old(world.owned), old(world.pending), world.maps, world.owned, world.pending, virt,
                        old(world.maps)[virt].phys, corrupted)
    {
      ghost var pending := world.pending;
      var ok, present, m := world.Query(virt);
      if !ok || !present || m.size != PAGE || !Aligned(m.phys) {
        corrupted := true;
        return;
      }
      var phys := m.phys;
      ok := world.UnmapPage(virt);
      if !ok {
        corrupted := true;
        return;
      }
      ok, present, m := world.Query(virt);
      if !ok || present {
        corrupted := true;
        return;
      }
      Dropped(pending, virt);
      ReleaseFrame(phys);
    }

    /** A growth in progress: `held` is what it has added to what was there. */
    ghost predicate Growing(maps0: map<nat, Mapping>, owned0: set<nat>, pending0: map<nat, nat>, held: map<nat, nat>, first: nat, end: nat)
      reads this, world
    {
      && world.Valid() && Added(maps0, owned0, world.maps, world.owned, held) && Backed(world.maps, nx, first, end, held)
      && Awaited(pending0, world.pending, held)
    }

    /** A growth given up: without corruption everything is exactly as before. */
    ghost predicate Retreated(maps0: map<nat, Mapping>, owned0: set<nat>, pending0: map<nat, nat>, held: map<nat, nat>)
      reads this, world
    {
      && world.Valid() && Loose(maps0, owned0, world.maps, world.owned, held) && Kept(pending0, world.pending)
      && (!corrupted ==> world.maps == maps0 && world.owned == owned0 && world.pending == pending0)
    }

    /** Undo the pages from `oldMapped` to `end`, last first. Any refused callback leaves the state corrupted. */
    method Rollback(oldMapped: nat, end: nat, ghost maps0: map<nat, Mapping>, ghost owned0: set<nat>, ghost pending0: map<nat, nat>,
                    ghost held: map<nat, nat>)
      requires Aligned(base) && Aligned(oldMapped) && Aligned(end) && oldMapped <= end
      requires Growing(maps0, owned0, pending0, held, base + oldMapped, base + end)
      modifies this`corrupted, world`script, world`maps, world`owned, world`pending, world`asked, world`refused, world`lied
      ensures world.Faults() >= old(world.Faults())
      ensures corrupted <==> old(corrupted) || world.Faults() > old(world.Faults())
      ensures Retreated(maps0, owned0, pending0, held)
    {
      hide Added, Backed, Own, Loose, Aligned, PageIn, Undoing, TakenBack, Below, Frames, Awaited, AwaitedBelow, World.Valid, Kept;
      ghost var first, last := base + oldMapped, base + end;
      StartUndo(maps0, owned0, world.maps, world.owned, held, nx, first, last, corrupted);
      StartAwait(pending0, world.pending, held, first, last);
      var at := end;
      while at > oldMapped
        invariant oldMapped <= at <= end && Aligned(at) && world.Valid()
        invariant world.Faults() >= old(world.Faults())
        invariant corrupted <==> old(corrupted) || world.Faults() > old(world.Faults())
        invariant Undoing(maps0, owned0, world.maps, world.owned, held, nx, base + at, corrupted)
        invariant AwaitedBelow(pending0, world.pending, held, base + at)
        invariant !corrupted ==> Awaited(pending0, world.pending, Below(held, base + at))
      {
        ghost var maps, owned, pending, top, before := world.maps, world.owned, world.pending, base + at, corrupted;
        LastPage(maps0, owned0, held, base, oldMapped, end, at);
        at := at - PAGE;
        StillThere(maps0, owned0, maps, owned, held, nx, first, last, top, corrupted, base + at);
        StillPending(pending0, pending, held, top, base + at);
        RollbackPage(base + at);
        UndoStep(maps0, owned0, maps, owned, world.maps, world.owned, pending, world.pending, held, nx, first, last, top, base + at, before, corrupted);
        TakenPending(maps, owned, pending, world.maps, world.owned, world.pending, base + at, held[base + at], corrupted);
        AwaitStep(pending0, pending, world.pending, held, top, base + at, before, corrupted);
      }
      Undone(maps0, owned0, world.maps, world.owned, held, nx, first, last, corrupted);
      EndAwait(pending0, world.pending, held, first, last, corrupted);
    }

    /** Give up with a frame in hand that is not mapped. */
    method Abort(phys: nat, oldMapped: nat, end: nat, ghost maps0: map<nat, Mapping>, ghost owned0: set<nat>, ghost pending0: map<nat, nat>,
                 ghost held: map<nat, nat>)
      requires Aligned(base) && Aligned(oldMapped) && Aligned(end) && oldMapped <= end && phys !in owned0 && phys !in Frames(held)
      requires Added(maps0, owned0, world.maps, world.owned - {phys}, held) && phys in world.owned
      requires Backed(world.maps, nx, base + oldMapped, base + end, held)
      requires world.Valid() && Awaited(pending0, world.pending, held) && Spare(world.pending, phys)
      modifies this`corrupted, world`script, world`maps, world`owned, world`pending, world`asked, world`refused, world`lied
      ensures world.Faults() >= old(world.Faults())
      ensures corrupted <==> old(corrupted) || world.Faults() > old(world.Faults())
      ensures Retreated(maps0, owned0, pending0, held)
    {
      hide Backed, Aligned, Awaited;
      ReleaseFrame(phys);
      ghost var more := if phys in world.owned then {phys} else {};
      assert Added(maps0, owned0 + more, world.maps, world.owned, held);
      hide Added;
      Rollback(oldMapped, end, maps0, owned0 + more, pending0, held);
    }

    ghost predicate GrowGuard(oldMapped: nat, newMapped: nat)
      reads this
    {
      && initialized && !corrupted && ValidInterval(base, capacity) && oldMapped == mapped
      && oldMapped <= newMapped <= capacity && Aligned(oldMapped) && Aligned(newMapped)
    }

    /** The whole new range is checked first: a mapping found there belongs to someone else. */
    method RangeFree(oldMapped: nat, newMapped: nat) returns (ok: bool)
      requires Aligned(base) && Aligned(oldMapped) && Aligned(newMapped) && oldMapped <= newMapped
      requires forall v: nat | v in world.pending && PageIn(v, base + oldMapped, base + newMapped) :: v in world.maps
      modifies world`script, world`pending, world`refused
      ensures world.pending == old(world.pending) && world.refused >= old(world.refused)
      ensures ok ==> Unused(world.maps, base + oldMapped, base + newMapped) && world.refused == old(world.refused)
      ensures !ok ==> !Unused(world.maps, base + oldMapped, base + newMapped) || world.refused > old(world.refused)
    {
      var offset := oldMapped;
      while offset < newMapped
        invariant oldMapped <= offset <= newMapped && Aligned(offset) && world.pending == old(world.pending)
        invariant Unused(world.maps, base + oldMapped, base + offset) && world.refused == old(world.refused)
      {
        PagesUpTo(base, oldMapped, offset, newMapped);
        var known, present, m := world.Query(base + offset);
        assert world.pending == old(world.pending) && PageIn(base + offset, base + oldMapped, base + newMapped);
        if !known || present { return false; }
        UnusedMore(world.maps, base + oldMapped, base + offset);
        offset := offset + PAGE;
      }
      ok := true;
    }

    /** One page more: a fresh, aligned, zeroed frame mapped at the end; or an orderly retreat. */
    method GrowPage(oldMapped: nat, offset: nat, ghost maps0: map<nat, Mapping>, ghost owned0: set<nat>, ghost pending0: map<nat, nat>,
                    ghost held: map<nat, nat>)
      returns (ok: bool, ghost held': map<nat, nat>)
      requires Aligned(base) && Aligned(oldMapped) && Aligned(offset) && oldMapped <= offset && base + offset !in maps0
      requires Growing(maps0, owned0, pending0, held, base + oldMapped, base + offset)
      requires Frames(held) <= world.clean && base + offset !in pending0
      modifies this`corrupted, world
      ensures ok ==> corrupted == old(corrupted) && Growing(maps0, owned0, pending0, held', base + oldMapped, base + offset + PAGE)
      ensures ok ==> Frames(held') <= world.clean && world.denied == old(world.denied)
      ensures world.denied >= old(world.denied) && (!ok ==> world.Faults() > old(world.Faults()) || world.denied > old(world.denied))
      ensures world.Faults() >= old(world.Faults())
      ensures corrupted <==> old(corrupted) || world.Faults() > old(world.Faults())
      ensures !ok ==> held' == held && Retreated(maps0, owned0, pending0, held)
    {
      hide Backed, Aligned, Awaited, Injective;
      held' := held;
      var phys;
      ok, phys := world.Alloc();
      if !ok {
        hide Added;
        Rollback(oldMapped, offset, maps0, owned0, pending0, held);
        return;
      }
      assert Added(maps0, owned0, world.maps, world.owned - {phys}, held) by { assert world.owned - {phys} == old(world.owned); }
      if !Nameable(phys) {
        corrupted := true;
        Abort(phys, oldMapped, offset, maps0, owned0, pending0, held);
        return false, held;
      }
      ok, held' := PlacePage(phys, oldMapped, offset, maps0, owned0, pending0, held);
    }

    /** Clear the frame and map it at the end of the range; or give it back, and all the others. */
    method PlacePage(phys: nat, oldMapped: nat, offset: nat, ghost maps0: map<nat, Mapping>, ghost owned0: set<nat>, ghost pending0: map<nat, nat>,
                     ghost held: map<nat, nat>)
      returns (ok: bool, ghost held': map<nat, nat>)
      requires Aligned(base) && Aligned(oldMapped) && Aligned(offset) && oldMapped <= offset && base + offset !in maps0 && base + offset !in pending0
      requires Nameable(phys) && phys !in owned0 && phys !in Frames(held) && phys in world.owned && Spare(world.pending, phys)
      requires Added(maps0, owned0, world.maps, world.owned - {phys}, held) && Backed(world.maps, nx, base + oldMapped, base + offset, held)
      requires world.Valid() && Awaited(pending0, world.pending, held) && Frames(held) <= world.clean
      modifies this`corrupted, world
      ensures ok ==> corrupted == old(corrupted) && Growing(maps0, owned0, pending0, held', base + oldMapped, base + offset + PAGE)
      ensures ok ==> Frames(held') <= world.clean && world.denied == old(world.denied)
      ensures world.denied >= old(world.denied) && (!ok ==> world.denied > old(world.denied))
      ensures world.Faults() >= old(world.Faults())
      ensures corrupted <==> old(corrupted) || world.Faults() > old(world.Faults())
      ensures !ok ==> held' == held && Retreated(maps0, owned0, pending0, held)
    {
      hide Backed, Aligned, Awaited, Injective, Added, Loose, Kept, Frames;
      held' := held;
      ghost var maps, owned, pending := world.maps, world.owned, world.pending;
      BeyondRange(pending0, pending, maps, nx, held, base + oldMapped, base + offset);
      ok := world.ZeroPage(phys);
      if ok { ok := world.MapPage(base + offset, phys, nx); }
      if !ok {
        Abort(phys, oldMapped, offset, maps0, owned0, pending0, held);
        return;
      }
      held' := held[base + offset := phys];
      assert Aligned(base + offset) by { SumAligned(base, offset); }
      assert owned - {phys} + {phys} == owned;
      Grown(maps0, owned0, maps, owned - {phys}, held, nx, base + oldMapped, base + offset, phys);
      PendingMore(pending0, pending, held, base + offset, phys);
    }

    /**
      Grow the prefix. Success adds exactly the pages of the new range, in fresh zeroed frames. A failure of alloc, zero or
      map alone leaves mappings and ownership exactly as they were: only a refused query, unmap or free, an unmapping that
      was reported and did not happen, or a frame no table can name corrupts the state, and once frames are at stake each
      of them does. A corrupted state never does anything again.
    */
    method Grow(oldMapped: nat, newMapped: nat) returns (ok: bool, ghost held: map<nat, nat>)
      requires Valid()
      modifies this`mapped, this`corrupted, this`backing, world
      ensures Valid()
      ensures ok ==> old(GrowGuard(oldMapped, newMapped)) && !corrupted && mapped == newMapped && backing == old(backing) + held
      ensures ok ==> Added(old(world.maps), old(world.owned), world.maps, world.owned, held) && Frames(held) <= world.clean
      ensures ok ==> Backed(world.maps, nx, base + oldMapped, base + newMapped, held)
      ensures !ok ==> mapped == old(mapped) && backing == old(backing)
      ensures !ok ==> Loose(old(world.maps), old(world.owned), world.maps, world.owned, held)
      ensures !ok && !corrupted ==> world.maps == old(world.maps) && world.owned == old(world.owned)
      ensures old(corrupted) ==> !ok && corrupted && world.maps == old(world.maps) && world.owned == old(world.owned)
      ensures world.Faults() >= old(world.Faults()) && world.denied >= old(world.denied)
      ensures corrupted ==> old(corrupted) || world.Faults() > old(world.Faults())
      ensures world.Faults() > old(world.Faults()) && !corrupted ==> world.offers == old(world.offers)
      ensures !ok && !old(corrupted) && world.Faults() == old(world.Faults()) ==> world.maps == old(world.maps) && world.owned == old(world.owned)
      ensures !ok && old(GrowGuard(oldMapped, newMapped)) && Unused(old(world.maps), base + oldMapped, base + newMapped) ==>
        world.Faults() > old(world.Faults()) || world.denied > old(world.denied)
    {
      hide Backed, Aligned, Frames, Awaited, Kept, Known, Injective;
      held := map[];
      ghost var maps0, owned0, pending0 := world.maps, world.owned, world.pending;
      NothingHeld(maps0, owned0, nx, base + oldMapped);
      if !initialized || corrupted || !ValidInterval(base, capacity) || oldMapped != mapped || newMapped < oldMapped
         || newMapped > capacity || !Aligned(oldMapped) || !Aligned(newMapped) {
        return false, held;
      }
      assert Aligned(base) by { IntervalAligned(base, capacity); }
      KnownWithin(pending0, maps0, base, capacity, oldMapped, newMapped);
      ok := RangeFree(oldMapped, newMapped);
      if !ok { return; }
      ok, held := GrowRange(oldMapped, newMapped, maps0, owned0, pending0);
      if ok {
        PrefixMore(maps0, owned0, world.maps, world.owned, pending0, world.pending, nx, base, capacity, oldMapped, newMapped, backing, held);
        mapped, backing := newMapped, backing + held;
      } else {
        PrefixKept(maps0, owned0, world.maps, world.owned, pending0, world.pending, nx, base, mapped, backing, held);
      }
    }

    method GrowRange(oldMapped: nat, newMapped: nat, ghost maps0: map<nat, Mapping>, ghost owned0: set<nat>, ghost pending0: map<nat, nat>)
      returns (ok: bool, ghost held: map<nat, nat>)
      requires Aligned(base) && Aligned(oldMapped) && Aligned(newMapped) && oldMapped <= newMapped && !corrupted
      requires world.Valid() && world.maps == maps0 && world.owned == owned0 && world.pending == pending0
      requires Unused(maps0, base + oldMapped, base + newMapped)
      requires forall v: nat | v in pending0 && PageIn(v, base + oldMapped, base + newMapped) :: v in maps0
      modifies this`corrupted, world
      ensures world.Faults() >= old(world.Faults())
      ensures corrupted <==> world.Faults() > old(world.Faults())
      ensures world.denied >= old(world.denied) && (!ok ==> world.Faults() > old(world.Faults()) || world.denied > old(world.denied))
      ensures ok ==> !corrupted && Growing(maps0, owned0, pending0, held, base + oldMapped, base + newMapped) && Frames(held) <= world.clean
      ensures !ok ==> Retreated(maps0, owned0, pending0, held)
    {
      hide Backed, Aligned, Frames, Awaited, Kept, World.Valid, Added, Loose;
      held := map[];
      NothingHeld(maps0, owned0, nx, base + oldMapped);
      NothingAwaited(pending0);
      var offset := oldMapped;
      while offset < newMapped
        invariant oldMapped <= offset <= newMapped && Aligned(offset) && !corrupted && world.Faults() == old(world.Faults())
        invariant world.denied == old(world.denied)
        invariant Growing(maps0, owned0, pending0, held, base + oldMapped, base + offset) && Frames(held) <= world.clean
      {
        PagesUpTo(base, oldMapped, offset, newMapped);
        ok, held := GrowPage(oldMapped, offset, maps0, owned0, pending0, held);
        if !ok { return; }
        offset := offset + PAGE;
      }
      ok := true;
    }
  }

  /** A request that continues the prefix and fits the interval. */
  predicate Fitting(request: (nat, nat), mapped: nat, capacity: nat) {
    request.0 == mapped && mapped <= request.1 <= capacity && Aligned(mapped) && Aligned(request.1)
  }

  ghost predicate AnswerOk(request: (nat, nat), ok: bool, from: nat, to: nat, capacity: nat) {
    if ok then Fitting(request, from, capacity) && to == request.1 else to == from
  }

  /** Answers move the prefix as asked, or leave it. */
  ghost predicate Answered(requests: seq<(nat, nat)>, answers: seq<bool>, sizes: seq<nat>, capacity: nat) {
    && |sizes| == |answers| + 1 && |answers| <= |requests|
    && forall i {:trigger answers[i]} | 0 <= i < |answers| :: AnswerOk(requests[i], answers[i], sizes[i], sizes[i + 1], capacity)
  }

  /** Nothing was refused: every request that fits was granted. */
  ghost predicate Granted(requests: seq<(nat, nat)>, answers: seq<bool>, sizes: seq<nat>, capacity: nat) {
    && |sizes| == |answers| + 1 && |answers| <= |requests|
    && forall i {:trigger answers[i]} | 0 <= i < |answers| :: Fitting(requests[i], sizes[i], capacity) ==> answers[i]
  }

  /** One growth, and what it means for what comes after it; `held` is what it added. */
  method Ask(state: State, request: (nat, nat)) returns (ok: bool, ghost held: map<nat, nat>)
    requires state.Valid() && state.initialized
    modifies state, state.world
    ensures state.Valid() && state.initialized && state.base == old(state.base) && state.capacity == old(state.capacity)
    ensures AnswerOk(request, ok, old(state.mapped), state.mapped, state.capacity) && state.mapped >= old(state.mapped)
    ensures Kept(old(state.backing), state.backing) && state.backing == old(state.backing) + held
    ensures old(state.corrupted) ==> state.corrupted && state.world.maps == old(state.world.maps) && state.world.owned == old(state.world.owned)
    ensures state.corrupted ==> old(state.corrupted) || state.world.Faults() > old(state.world.Faults())
    ensures !state.corrupted ==> Added(old(state.world.maps), old(state.world.owned), state.world.maps, state.world.owned, held)
    ensures state.world.Faults() >= old(state.world.Faults()) && state.world.denied >= old(state.world.denied)
    ensures !state.corrupted && Unused(old(state.world.maps), state.base + old(state.mapped), state.base + state.capacity) ==>
      && Unused(state.world.maps, state.base + state.mapped, state.base + state.capacity)
      && (Fitting(request, old(state.mapped), state.capacity) && state.world.Faults() == old(state.world.Faults()) && state.world.denied == old(state.world.denied) ==> ok)
  {
    hide Backed, Loose, Added, Known, Frames, World.Valid, Unused, Kept, World.Faults;
    ghost var world, backing, maps, owned, mapped := state.world, state.backing, state.world.maps, state.world.owned, state.mapped;
    NothingAnswered([], mapped, 0, backing);
    NothingHeld(maps, owned, state.nx, state.base);
    ok, held := state.Grow(request.0, request.1);
    if request.1 <= state.capacity { UnusedPart(maps, state.base + mapped, state.base + request.1, state.base + state.capacity); }
    if !ok { return ok, map[]; }
    Longer(maps, world.maps, state.nx, state.base, state.base + mapped, state.base + state.mapped, backing, held);
    UnusedAfter(maps, owned, world.maps, world.owned, state.nx, state.base + mapped, state.base + state.mapped, state.base + state.capacity, held);
  }

  /**
    Any sequence of growths: the prefix moves by granted requests only, and its pages keep their frames. As long as the
    callbacks keep their side of the bargain the state stays sound, however often frames, clearing or mappings are denied,
    and the mappings and frames are exactly the ones there were and those of the pages granted. If nothing was denied
    either and the interval was unused, every request that fits was granted.
  */
  method Session(state: State, requests: seq<(nat, nat)>) returns (answers: seq<bool>, ghost sizes: seq<nat>, ghost grown: map<nat, nat>)
    requires state.Valid() && state.initialized
    modifies state, state.world
    ensures state.Valid() && state.initialized && state.base == old(state.base) && state.capacity == old(state.capacity)
    ensures |answers| == |requests| && |sizes| == |requests| + 1 && Answered(requests, answers, sizes, state.capacity)
    ensures sizes[0] == old(state.mapped) && sizes[|answers|] == state.mapped >= old(state.mapped)
    ensures Kept(old(state.backing), state.backing) && state.backing == old(state.backing) + grown
    ensures old(state.corrupted) ==> state.corrupted && state.world.maps == old(state.world.maps) && state.world.owned == old(state.world.owned)
    ensures !old(state.corrupted) && state.world.Faults() == old(state.world.Faults()) ==> !state.corrupted
    ensures !state.corrupted ==> Added(old(state.world.maps), old(state.world.owned), state.world.maps, state.world.owned, grown)
    ensures Unused(old(state.world.maps), state.base + old(state.mapped), state.base + state.capacity) ==>
      !old(state.corrupted) && state.world.Faults() == old(state.world.Faults()) && state.world.denied == old(state.world.denied) ==>
      Granted(requests, answers, sizes, state.capacity)
  {
    hide Backed, Loose, Added, Known, Frames, World.Valid, Unused, Answered, Granted, Kept, World.Faults, Aligned, ValidInterval, AnswerOk, Fitting;
    answers, sizes, grown := [], [state.mapped], map[];
    NothingAnswered(requests, state.mapped, state.capacity, state.backing);
    ghost var world := state.world;
    ghost var unused, sound := Unused(world.maps, state.base + state.mapped, state.base + state.capacity), !state.corrupted;
    NothingHeld(world.maps, world.owned, state.nx, state.base);
    for k := 0 to |requests|
      invariant state.Valid() && state.initialized && state.base == old(state.base) && state.capacity == old(state.capacity)
      invariant |answers| == k && |sizes| == k + 1 && Answered(requests, answers, sizes, state.capacity)
      invariant sizes[0] == old(state.mapped) && sizes[k] == state.mapped >= old(state.mapped)
      invariant Kept(old(state.backing), state.backing) && state.backing == old(state.backing) + grown
      invariant old(state.corrupted) ==> state.corrupted && world.maps == old(world.maps) && world.owned == old(world.owned)
      invariant world.Faults() >= old(world.Faults()) && world.denied >= old(world.denied)
      invariant sound && state.corrupted ==> world.Faults() > old(world.Faults())
      invariant !state.corrupted ==> Added(old(world.maps), old(world.owned), world.maps, world.owned, grown)
      invariant unused && !state.corrupted ==> Unused(world.maps, state.base + state.mapped, state.base + state.capacity)
      invariant unused && sound && world.Faults() == old(world.Faults()) && world.denied == old(world.denied) ==>
        Granted(requests, answers, sizes, state.capacity)
    {
      ghost var backing, maps, owned := state.backing, world.maps, world.owned;
      ghost var held;
      var ok;
      ok, held := Ask(state, requests[k]);
      KeptOnward(old(state.backing), backing, state.backing);
      if !state.corrupted { AddedOnward(old(world.maps), old(world.owned), maps, owned, world.maps, world.owned, grown, held); }
      grown := grown + held;
      AnsweredMore(requests, answers, sizes, state.capacity, ok, state.mapped);
      answers, sizes := answers + [ok], sizes + [state.mapped];
    }
  }

  lemma AddedOnward(maps0: map<nat, Mapping>, owned0: set<nat>, maps1: map<nat, Mapping>, owned1: set<nat>, maps2: map<nat, Mapping>, owned2: set<nat>,
                    a: map<nat, nat>, b: map<nat, nat>)
    requires Added(maps0, owned0, maps1, owned1, a) && Added(maps1, owned1, maps2, owned2, b)
    ensures Added(maps0, owned0, maps2, owned2, a + b)
  {
    var c := a + b;
    forall f | f in Frames(a) ensures f in Frames(c) {
      var v :| v in a && a[v] == f;
      assert c[v] == f;
    }
    forall f | f in Frames(b) ensures f in Frames(c) {
      var v :| v in b && b[v] == f;
      assert c[v] == f;
    }
  }

  /** A growth uses the front of what was unused. */
  lemma UnusedAfter(maps: map<nat, Mapping>, owned: set<nat>, maps': map<nat, Mapping>, owned': set<nat>, nx: bool, first: nat, middle: nat, end: nat,
                    held: map<nat, nat>)
    requires Added(maps, owned, maps', owned', held) && Backed(maps', nx, first, middle, held) && first <= middle
    ensures Unused(maps, first, end) ==> Unused(maps', middle, end)
  {
    if Unused(maps, first, end) {
      forall v: nat | v in maps' ensures !PageIn(v, middle, end) {
        if v in maps { assert !PageIn(v, first, end); } else { assert v in held; }
      }
    }
  }

  lemma NothingAnswered(requests: seq<(nat, nat)>, mapped: nat, capacity: nat, backing: map<nat, nat>)
    ensures Answered(requests, [], [mapped], capacity) && Granted(requests, [], [mapped], capacity) && Kept(backing, backing)
  {
  }

  lemma AnsweredMore(requests: seq<(nat, nat)>, answers: seq<bool>, sizes: seq<nat>, capacity: nat, ok: bool, mapped: nat)
    requires Answered(requests, answers, sizes, capacity) && |answers| < |requests|
    requires AnswerOk(requests[|answers|], ok, sizes[|answers|], mapped, capacity)
    ensures Answered(requests, answers + [ok], sizes + [mapped], capacity) && |sizes| == |answers| + 1
    ensures Granted(requests, answers, sizes, capacity) && (Fitting(requests[|answers|], sizes[|answers|], capacity) ==> ok) ==>
      Granted(requests, answers + [ok], sizes + [mapped], capacity)
  {
    var qs, ss := answers + [ok], sizes + [mapped];
    forall i {:trigger qs[i]} | 0 <= i < |qs| ensures AnswerOk(requests[i], qs[i], ss[i], ss[i + 1], capacity) {
      if i < |answers| { assert AnswerOk(requests[i], answers[i], sizes[i], sizes[i + 1], capacity); }
    }
    if Granted(requests, answers, sizes, capacity) && (Fitting(requests[|answers|], sizes[|answers|], capacity) ==> ok) {
      forall i {:trigger qs[i]} | 0 <= i < |qs| && Fitting(requests[i], ss[i], capacity) ensures qs[i] {
        if i < |answers| { assert answers[i]; }
      }
    }
  }

  lemma KeptOnward(a: map<nat, nat>, b: map<nat, nat>, c: map<nat, nat>)
    requires Kept(a, b) && Kept(b, c)
    ensures Kept(a, c)
  {
    forall v: nat {:trigger a[v]} | v in a ensures v in c && c[v] == a[v] { assert b[v] == a[v]; }
  }

  lemma UnusedPart(maps: map<nat, Mapping>, first: nat, middle: nat, end: nat)
    requires middle <= end
    ensures Unused(maps, first, end) ==> Unused(maps, first, middle)
  {
    if Unused(maps, first, end) {
      forall v: nat | v in maps ensures !PageIn(v, first, middle) { assert !PageIn(v, first, end); }
    }
  }

  /** Pages of the new range are not pages of the prefix. */
  lemma Longer(maps: map<nat, Mapping>, maps': map<nat, Mapping>, nx: bool, base: nat, first: nat, end: nat, backing: map<nat, nat>, held: map<nat, nat>)
    requires Backed(maps, nx, base, first, backing) && Backed(maps', nx, first, end, held)
    ensures Kept(backing, backing + held)
  {
  }

  /** What was pending still is, for the same frames. */
  ghost predicate Kept(old': map<nat, nat>, pending: map<nat, nat>) {
    forall v: nat {:trigger old'[v]} | v in old' :: v in pending && pending[v] == old'[v]
  }

  /** Inside the interval, what is pending is mapped. */
  ghost predicate Known(pending: map<nat, nat>, maps: map<nat, Mapping>, first: nat, end: nat) {
    forall v: nat {:trigger pending[v]} | v in pending && PageIn(v, first, end) :: v in maps
  }

  ghost predicate Unused(maps: map<nat, Mapping>, first: nat, end: nat) { forall v: nat | v in maps :: !PageIn(v, first, end) }

  lemma UnusedMore(maps: map<nat, Mapping>, first: nat, v: nat)
    requires Unused(maps, first, v) && v !in maps && Aligned(v)
    ensures Unused(maps, first, v + PAGE)
  {
    forall w: nat | w in maps ensures !PageIn(w, first, v + PAGE) {
      if Aligned(w) && v < w { PageBefore(v, w); }
    }
  }

  lemma PagesUpTo(base: nat, from: nat, offset: nat, end: nat)
    requires Aligned(base) && Aligned(from) && Aligned(offset) && Aligned(end) && from <= offset < end
    ensures Aligned(offset + PAGE) && offset + PAGE <= end && PageIn(base + offset, base + from, base + end)
  {
  }

  lemma NothingHeld(maps: map<nat, Mapping>, owned: set<nat>, nx: bool, first: nat)
    ensures Added(maps, owned, maps, owned, map[]) && Backed(maps, nx, first, first, map[]) && Loose(maps, owned, maps, owned, map[])
    ensures Frames(map[]) == {}
  {
  }

  /** Mapping a fresh frame just past the range extends it by one page. */
  lemma Grown(maps0: map<nat, Mapping>, owned0: set<nat>, maps: map<nat, Mapping>, owned: set<nat>, held: map<nat, nat>,
              nx: bool, first: nat, v: nat, phys: nat)
    requires Added(maps0, owned0, maps, owned, held) && Backed(maps, nx, first, v, held) && Aligned(v) && first <= v
    requires phys !in owned && Aligned(phys) && v !in maps0
    ensures var h := held[v := phys];
      && Added(maps0, owned0, maps[v := Mapping(phys, nx, PAGE)], owned + {phys}, h)
      && Backed(maps[v := Mapping(phys, nx, PAGE)], nx, first, v + PAGE, h) && Frames(h) == Frames(held) + {phys}
  {
    var h, m := held[v := phys], maps[v := Mapping(phys, nx, PAGE)];
    assert v !in held;
    HeldMore(held, v, phys);
    forall w: nat {:trigger w in h} ensures w in h <==> PageIn(w, first, v + PAGE) {
      if PageIn(w, first, v + PAGE) && w > v { PageBefore(v, w); }
    }
    forall w: nat {:trigger Apart(h, w)} | w in h ensures Apart(h, w) {
      assert w != v ==> Apart(held, w) && held[w] in Frames(held);
      forall x: nat | x in h && x != w ensures h[x] != h[w] { assert x != v ==> held[x] in Frames(held); }
    }
  }

  lemma StillThere(maps0: map<nat, Mapping>, owned0: set<nat>, maps: map<nat, Mapping>, owned: set<nat>, held: map<nat, nat>,
                   nx: bool, first: nat, end: nat, top: nat, corrupted: bool, virt: nat)
    requires Own(maps0, owned0, held, first, end) && Undoing(maps0, owned0, maps, owned, held, nx, top, corrupted) && virt in held && virt < top
    ensures virt in maps && maps[virt] == Mapping(held[virt], nx, PAGE) && Aligned(held[virt])
  {
    assert maps[virt] == Mapping(held[virt], nx, PAGE);
  }

  lemma StartUndo(maps0: map<nat, Mapping>, owned0: set<nat>, maps: map<nat, Mapping>, owned: set<nat>, held: map<nat, nat>,
                  nx: bool, first: nat, end: nat, corrupted: bool)
    requires Added(maps0, owned0, maps, owned, held) && Backed(maps, nx, first, end, held)
    ensures Undoing(maps0, owned0, maps, owned, held, nx, end, corrupted) && Own(maps0, owned0, held, first, end)
  {
    AddedIsLoose(maps0, owned0, maps, owned, held, nx, first, end);
    assert Below(held, end) == held;
    forall v: nat {:trigger held[v]} | v in held ensures held[v] !in owned0 && Aligned(held[v]) { assert held[v] in Frames(held); }
  }

  lemma LastPage(maps0: map<nat, Mapping>, owned0: set<nat>, held: map<nat, nat>, base: nat, from: nat, end: nat, at: nat)
    requires Own(maps0, owned0, held, base + from, base + end) && Aligned(base) && Aligned(from) && Aligned(at) && from < at <= end
    ensures from <= at - PAGE && Aligned(at - PAGE) && base + at - PAGE in held
    ensures forall v: nat | v in held && v < base + at :: v <= base + at - PAGE
  {
    assert PageIn(base + at - PAGE, base + from, base + end);
    forall v: nat | v in held && v < base + at ensures v <= base + at - PAGE {
      assert PageIn(v, base + from, base + end);
      PageBefore(v, base + at);
    }
  }

  lemma SumAligned(a: nat, b: nat)
    requires Aligned(a) && Aligned(b)
    ensures Aligned(a + b)
  {
  }

  lemma PageBefore(v: nat, w: nat)
    requires Aligned(v) && Aligned(w) && v < w
    ensures v <= w - PAGE
  {
  }

  lemma Undone(maps0: map<nat, Mapping>, owned0: set<nat>, maps: map<nat, Mapping>, owned: set<nat>, held: map<nat, nat>,
               nx: bool, first: nat, end: nat, corrupted: bool)
    requires Own(maps0, owned0, held, first, end) && Undoing(maps0, owned0, maps, owned, held, nx, first, corrupted)
    ensures Loose(maps0, owned0, maps, owned, held) && (!corrupted ==> maps == maps0 && owned == owned0)
  {
    assert Below(held, first) == map[];
    assert Frames(map[]) == {};
  }

  lemma IntervalAligned(base: nat, capacity: nat)
    requires ValidInterval(base, capacity)
    ensures Aligned(base)
  {
  }

  /** Without its page, a frame is spare. */
  lemma Dropped(pending: map<nat, nat>, virt: nat)
    requires Injective(pending) && virt in pending
    ensures Spare(pending - {virt}, pending[virt]) && Injective(pending - {virt})
  {
    var p := pending - {virt};
    assert Apart(pending, virt);
    forall v: nat {:trigger Apart(p, v)} | v in p ensures Apart(p, v) { assert Apart(pending, v); }
  }

  lemma StartAwait(pending0: map<nat, nat>, pending: map<nat, nat>, held: map<nat, nat>, first: nat, end: nat)
    requires Awaited(pending0, pending, held) && forall v: nat {:trigger v in held} :: v in held <==> PageIn(v, first, end)
    ensures AwaitedBelow(pending0, pending, held, end) && Awaited(pending0, pending, Below(held, end))
  {
    assert Below(held, end) == held;
  }

  lemma EndAwait(pending0: map<nat, nat>, pending: map<nat, nat>, held: map<nat, nat>, first: nat, end: nat, corrupted: bool)
    requires AwaitedBelow(pending0, pending, held, first) && (!corrupted ==> Awaited(pending0, pending, Below(held, first)))
    requires forall v: nat {:trigger v in held} :: v in held <==> PageIn(v, first, end)
    ensures Kept(pending0, pending) && (!corrupted ==> pending == pending0)
  {
    assert Below(held, first) == map[];
  }

  lemma StillPending(pending0: map<nat, nat>, pending: map<nat, nat>, held: map<nat, nat>, top: nat, virt: nat)
    requires AwaitedBelow(pending0, pending, held, top) && virt in held && virt < top
    ensures virt in pending && pending[virt] == held[virt]
  {
  }

  lemma TakenPending(maps: map<nat, Mapping>, owned: set<nat>, pending: map<nat, nat>, maps': map<nat, Mapping>, owned': set<nat>,
                     pending': map<nat, nat>, virt: nat, phys: nat, corrupted: bool)
    requires TakenBack(maps, owned, pending, maps', owned', pending', virt, phys, corrupted)
    ensures (pending' == pending || pending' == pending - {virt}) && (!corrupted ==> pending' == pending - {virt})
  {
  }

  lemma NothingAwaited(pending: map<nat, nat>)
    ensures Awaited(pending, pending, map[])
  {
  }

  lemma BeyondRange(pending0: map<nat, nat>, pending: map<nat, nat>, maps: map<nat, Mapping>, nx: bool, held: map<nat, nat>, first: nat, v: nat)
    requires Awaited(pending0, pending, held) && Backed(maps, nx, first, v, held) && v !in pending0
    ensures v !in pending && v !in held
  {
  }

  lemma PendingMore(pending0: map<nat, nat>, pending: map<nat, nat>, held: map<nat, nat>, v: nat, phys: nat)
    requires Awaited(pending0, pending, held) && v !in pending && Injective(pending) && Spare(pending, phys)
    ensures Awaited(pending0, pending[v := phys], held[v := phys]) && Injective(pending[v := phys])
  {
    var p := pending[v := phys];
    forall w: nat {:trigger Apart(p, w)} | w in p ensures Apart(p, w) {
      if w != v { assert Apart(pending, w) && pending[w] != phys; }
    }
  }

  lemma KnownWithin(pending: map<nat, nat>, maps: map<nat, Mapping>, base: nat, capacity: nat, from: nat, to: nat)
    requires Known(pending, maps, base, base + capacity) && from <= to <= capacity
    ensures forall v: nat | v in pending && PageIn(v, base + from, base + to) :: v in maps
  {
    forall v: nat | v in pending && PageIn(v, base + from, base + to) ensures v in maps { assert PageIn(v, base, base + capacity) && pending[v] == pending[v]; }
  }

  /** The prefix and the new range together. */
  lemma PrefixMore(maps0: map<nat, Mapping>, owned0: set<nat>, maps: map<nat, Mapping>, owned: set<nat>, pending0: map<nat, nat>, pending: map<nat, nat>,
                   nx: bool, base: nat, capacity: nat, from: nat, to: nat, backing: map<nat, nat>, held: map<nat, nat>)
    requires Backed(maps0, nx, base, base + from, backing) && Kept(backing, pending0) && from <= to <= capacity
    requires Added(maps0, owned0, maps, owned, held) && Backed(maps, nx, base + from, base + to, held) && Awaited(pending0, pending, held)
    requires Injective(pending) && Known(pending0, maps0, base, base + capacity)
    ensures Backed(maps, nx, base, base + to, backing + held) && Kept(backing + held, pending) && Known(pending, maps, base, base + capacity)
  {
    var b := backing + held;
    forall v: nat {:trigger b[v]} | v in b ensures v in pending && pending[v] == b[v] {
      if v !in held { assert backing[v] == pending0[v]; }
    }
    forall v: nat {:trigger b[v]} | v in b ensures v in maps && maps[v] == Mapping(b[v], nx, PAGE) && Aligned(b[v]) {
      if v in held { assert held[v] == b[v]; } else { assert backing[v] == b[v]; }
    }
    forall v: nat {:trigger Apart(b, v)} | v in b ensures Apart(b, v) { assert Apart(pending, v) && b[v] == pending[v]; }
    forall v: nat {:trigger pending[v]} | v in pending && PageIn(v, base, base + capacity) ensures v in maps {
      if v in held { assert held[v] == pending[v]; } else { assert pending0[v] == pending[v]; }
    }
  }

  lemma PrefixKept(maps0: map<nat, Mapping>, owned0: set<nat>, maps: map<nat, Mapping>, owned: set<nat>, pending0: map<nat, nat>, pending: map<nat, nat>,
                   nx: bool, base: nat, mapped: nat, backing: map<nat, nat>, held: map<nat, nat>)
    requires Backed(maps0, nx, base, base + mapped, backing) && Kept(backing, pending0)
    requires Loose(maps0, owned0, maps, owned, held) && Kept(pending0, pending)
    ensures Backed(maps, nx, base, base + mapped, backing) && Kept(backing, pending)
  {
    forall v: nat {:trigger backing[v]} | v in backing ensures v in pending && pending[v] == backing[v] { assert pending0[v] == backing[v]; }
    forall v: nat {:trigger backing[v]} | v in backing ensures v in maps && maps[v] == Mapping(backing[v], nx, PAGE) && Aligned(backing[v]) {
      assert maps0[v] == Mapping(backing[v], nx, PAGE);
    }
  }
}
