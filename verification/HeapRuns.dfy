/**
  Whole runs of the heap: any sequence of allocator calls, growth answers and client stores acts on the
  map from live allocations to bytes, and on nothing else.
*/
module HeapRuns {
  import opened HeapLayout
  import opened HeapCore

  type View = map<nat, seq<byte>>

  /** One call by the client; `granted` is the growth callback's answer should it be asked. */
  datatype Call =
    | Alloc(size: nat, granted: bool)
    | Calloc(count: nat, unit: nat, granted: bool)
    | Realloc(pointer: nat, size: nat, granted: bool)
    | Free(pointer: nat)
    | Store(pointer: nat, from: nat, to: nat, value: byte)

  /** Allocations are 16-byte aligned, pairwise disjoint (headers included) and below `limit`. */
  ghost predicate Separated(M: View, base: nat, limit: nat) {
    && (forall o | o in M :: (base + o + HEADER) % 16 == 0 && 0 < |M[o]| && o + HEADER + |M[o]| <= limit)
    && (forall o, p | o in M && p in M && o < p :: o + HEADER + |M[o]| <= p)
  }

  /** A fresh allocation of `size` bytes. */
  ghost predicate Fresh(M: View, r: nat, base: nat, size: nat, M': View) {
    var h := r - base - HEADER;
    0 < size && base + HEADER <= r && h !in M && h in M' && |M'[h]| == size && M' == M[h := M'[h]]
  }

  /** The calls' meaning on the map alone; `r` is the returned pointer, or 1 for a successful free. */
  ghost predicate Step(M: View, base: nat, call: Call, r: nat, M': View) {
    match call
    case Alloc(size, _) => if r == 0 then M' == M else Fresh(M, r, base, size, M')
    case Calloc(count, unit, _) =>
      if r == 0 then M' == M
      else Fresh(M, r, base, count * unit, M') && M'[r - base - HEADER] == Zeros(count * unit)
    case Realloc(p, size, _) =>
      var h := p - base - HEADER;
      if p == 0 then (if r == 0 then M' == M else Fresh(M, r, base, size, M'))
      else if size == 0 then r == 0 && M' == if h in M then M - {h} else M
      else if r == 0 then M' == M
      else
        var k := r - base - HEADER;
        && h in M && base + HEADER <= r && k in M' && |M'[k]| == size && (k == h || k !in M)
        && Preserves(M[h], M'[k]) && M' == HeapCore.Replaced(M, h, k, M'[k])
    case Free(p) =>
      var h := p - base - HEADER;
      && (r == 1 <==> p == 0 || h in M) && r <= 1
      && M' == if p != 0 && h in M then M - {h} else M
    case Store(p, from, to, value) =>
      var h := p - base - HEADER;
      M' == if h in M && from <= to <= |M[h]| then M[h := Overwritten(M[h], from, to, value)] else M
  }

  // ---------------------------------------------------------------- snapshots

  /** What decides the allocator's answers, frozen. */
  datatype Arena = Arena(hdr: Headers, mem: Bytes, mapped: nat, max: nat, step: nat, canGrow: bool, debug: bool)

  ghost function ArenaOf(heap: Heap): Arena
    reads heap
  {
    Arena(heap.hdr, heap.mem, heap.mappedSize, heap.maxSize, heap.growthSize, heap.canGrow, heap.debugPoison)
  }

  ghost function BlocksOf(a: Arena): set<nat> { Starts(a.hdr, 0, a.mapped) }

  ghost function ViewOf(a: Arena): View { LiveMap(a.hdr, a.mem, LiveSet(a.hdr, BlocksOf(a))) }

  ghost predicate HasFit(a: Arena, needed: nat) { exists o :: o in FreeSet(a.hdr, BlocksOf(a)) && needed <= At(a.hdr, o).units }

  ghost predicate Extensible(a: Arena, needed: nat, granted: bool) {
    var last := LastStart(a.hdr, 0, a.mapped);
    var tailFree := if UsedAt(a.hdr, last) then 0 else SizeAt(a.hdr, last);
    var need := if 16 * needed < MIN_BLOCK then MIN_BLOCK else 16 * needed;
    a.canGrow && a.mapped != a.max && (need <= tailFree || (need - tailFree <= a.max - a.mapped && granted))
  }

  ghost predicate CanAlloc(a: Arena, size: nat, granted: bool) {
    Representable(size) && (HasFit(a, Needed(size)) || Extensible(a, Needed(size), granted))
  }

  /** A live block can be resized: where it is, into a free successor, into a free block, or by growing the arena. */
  ghost predicate CanResize(a: Arena, o: nat, size: nat, granted: bool) {
    var needed, units, next := Needed(size), At(a.hdr, o).units, o + SizeAt(a.hdr, o);
    && Representable(size)
    && (|| needed <= units || (next in FreeSet(a.hdr, BlocksOf(a)) && needed <= units + At(a.hdr, next).units)
        || HasFit(a, needed)
        || (if next == a.mapped || (next in FreeSet(a.hdr, BlocksOf(a)) && next + SizeAt(a.hdr, next) == a.mapped)
            then units <= needed && Extensible(a, needed - units, granted) else Extensible(a, needed, granted)))
  }

  /** A call succeeds exactly when the arena has room for it; failure is never gratuitous. */
  ghost predicate Served(a: Arena, base: nat, call: Call, r: nat) {
    match call
    case Alloc(size, granted) => r != 0 <==> CanAlloc(a, size, granted)
    case Calloc(count, unit, granted) => r != 0 <==> CanAlloc(a, count * unit, granted)
    case Realloc(p, size, granted) =>
      var h := p - base - HEADER;
      if p == 0 then r != 0 <==> CanAlloc(a, size, granted)
      else size != 0 ==> (r != 0 <==> h in ViewOf(a) && CanResize(a, h, size, granted))
    case _ => true
  }

  /** By how much the arena grows for `needed` units: the least whole number of steps that gives its tail that room. */
  ghost function GrowthOf(a: Arena, needed: nat): nat {
    var last := LastStart(a.hdr, 0, a.mapped);
    var tailFree := if UsedAt(a.hdr, last) then 0 else SizeAt(a.hdr, last);
    var need := if 16 * needed < MIN_BLOCK then MIN_BLOCK else 16 * needed;
    if need <= tailFree || a.step == 0 || a.max < a.mapped then 0 else Extra(need - tailFree, a.max - a.mapped, a.step)
  }

  ghost predicate EndsArena(a: Arena, o: nat) {
    var next := o + SizeAt(a.hdr, o);
    next == a.mapped || (next in FreeSet(a.hdr, BlocksOf(a)) && next + SizeAt(a.hdr, next) == a.mapped)
  }

  ghost predicate RoomHere(a: Arena, o: nat, size: nat) {
    var next := o + SizeAt(a.hdr, o);
    || Needed(size) <= At(a.hdr, o).units
    || (next in FreeSet(a.hdr, BlocksOf(a)) && Needed(size) <= At(a.hdr, o).units + At(a.hdr, next).units)
  }

  /** No live block is a minimal block or more beyond its rounded request. */
  ghost predicate Thrifty(a: Arena) { Economical(a.hdr, LiveSet(a.hdr, BlocksOf(a))) }

  /** In debug mode every payload byte of every free block is marked. */
  ghost predicate Shaded(a: Arena) { a.debug ==> Painted(a.hdr, a.mem, BlocksOf(a)) }

  ghost predicate Placed(a: Arena, base: nat, size: nat, r: nat, b: Arena) {
    r != 0 ==> base + HEADER <= r && Tight(b.hdr, r - base - HEADER) && b.mapped == a.mapped + if HasFit(a, Needed(size)) then 0 else GrowthOf(a, Needed(size))
  }

  ghost predicate Replaced(a: Arena, base: nat, p: nat, size: nat, r: nat, b: Arena) {
    var h := p - base - HEADER;
    r != 0 && h in ViewOf(a) ==>
      && base + HEADER <= r && Tight(b.hdr, r - base - HEADER)
      && (r == p <==> RoomHere(a, h, size) || (!HasFit(a, Needed(size)) && EndsArena(a, h)))
      && b.mapped == a.mapped +
           if RoomHere(a, h, size) || HasFit(a, Needed(size)) then 0
           else if EndsArena(a, h) && At(a.hdr, h).units <= Needed(size) then GrowthOf(a, Needed(size) - At(a.hdr, h).units)
           else GrowthOf(a, Needed(size))
  }

  /** Where a call puts a block, and how much memory it asks for: nothing is wasted, and nothing is moved or mapped without need. */
  ghost predicate Economy(a: Arena, base: nat, call: Call, r: nat, b: Arena) {
    && (Thrifty(a) ==> Thrifty(b)) && (Shaded(a) ==> Shaded(b)) && b.debug == a.debug
    && match call
       case Alloc(size, _) => Placed(a, base, size, r, b)
       case Calloc(count, unit, _) => Placed(a, base, count * unit, r, b)
       case Realloc(p, size, _) => if p == 0 then Placed(a, base, size, r, b) else size != 0 ==> Replaced(a, base, p, size, r, b)
       case _ => b.mapped == a.mapped
  }

  lemma SameRoom(heap: Heap, size: nat, granted: bool)
    ensures Representable(size) && heap.Satisfiable(Needed(size), granted) <==> CanAlloc(ArenaOf(heap), size, granted)
  {
  }

  lemma SameGrowth(heap: Heap, size: nat, o: nat)
    ensures heap.Fits(Needed(size)) == HasFit(ArenaOf(heap), Needed(size)) && heap.Growth(Needed(size)) == GrowthOf(ArenaOf(heap), Needed(size))
    ensures heap.StaysPut(o, size) == (RoomHere(ArenaOf(heap), o, size) || (!HasFit(ArenaOf(heap), Needed(size)) && EndsArena(ArenaOf(heap), o)))
    ensures heap.RoomNow(o, size) == (RoomHere(ArenaOf(heap), o, size) || HasFit(ArenaOf(heap), Needed(size)))
    ensures heap.Growth(heap.Missing(o, size)) ==
      if EndsArena(ArenaOf(heap), o) && At(heap.hdr, o).units <= Needed(size) then GrowthOf(ArenaOf(heap), Needed(size) - At(heap.hdr, o).units)
      else GrowthOf(ArenaOf(heap), Needed(size))
    ensures heap.Frugal() == Thrifty(ArenaOf(heap)) && heap.Shaded() == Shaded(ArenaOf(heap))
  {
    hide FreeSet, LastStart, Starts;
  }

  lemma SameResize(heap: Heap, o: nat, size: nat, granted: bool)
    ensures Representable(size) && heap.Resizable(o, size, granted) <==> CanResize(ArenaOf(heap), o, size, granted)
  {
    hide FreeSet, LastStart, Starts;
  }

  lemma WellFormedSeparated(heap: Heap)
    requires heap.WellFormed()
    ensures Separated(heap.Live(), heap.base, heap.mappedSize) && heap.mappedSize <= heap.maxSize
  {
    var B, m := heap.Blocks(), heap.hdr;
    forall o | o in heap.Live() ensures (heap.base + o + HEADER) % 16 == 0 && 0 < At(m, o).requested && o + HEADER + At(m, o).requested <= heap.mappedSize {
      assert Tile(m, B, heap.mappedSize, o);
      StartsAligned(m, B, heap.mappedSize, o);
      Aligned16(heap.base + o + HEADER, heap.base / 16 + o / 16 + 3);
    }
    forall o, p | o in heap.Live() && p in heap.Live() && o < p ensures o + HEADER + At(m, o).requested <= p {
      assert Tile(m, B, heap.mappedSize, o);
    }
  }

  /** One call refines its meaning on the map, and fails only for want of room. */
  method Execute(heap: Heap, call: Call) returns (r: nat)
    requires heap.WellFormed()
    modifies heap
    ensures heap.WellFormed() && heap.base == old(heap.base)
    ensures Step(old(heap.Live()), heap.base, call, r, heap.Live()) && Served(old(ArenaOf(heap)), heap.base, call, r)
    ensures Economy(old(ArenaOf(heap)), heap.base, call, r, ArenaOf(heap))
  {
    hide Heap.WellFormed, Heap.Live, Step, Served, Economy;
    match call {
      case Alloc(size, granted) => r := DoAlloc(heap, size, granted);
      case Calloc(count, unit, granted) => r := DoCalloc(heap, count, unit, granted);
      case Realloc(p, size, granted) => r := DoRealloc(heap, p, size, granted);
      case Free(p) => r := DoFree(heap, p);
      case Store(p, from, to, value) => r := DoStore(heap, p, from, to, value);
    }
  }

  method DoAlloc(heap: Heap, size: nat, granted: bool) returns (r: nat)
    requires heap.WellFormed()
    modifies heap
    ensures heap.WellFormed() && heap.base == old(heap.base)
    ensures Step(old(heap.Live()), heap.base, Call.Alloc(size, granted), r, heap.Live()) && Served(old(ArenaOf(heap)), heap.base, Call.Alloc(size, granted), r)
    ensures Economy(old(ArenaOf(heap)), heap.base, Call.Alloc(size, granted), r, ArenaOf(heap))
  {
    hide Heap.WellFormed, Heap.Live, Heap.Blocks, CanAlloc, CanResize, Heap.Satisfiable, Heap.Resizable, ViewOf, Heap.Frugal, Thrifty, Heap.Growth, GrowthOf, HasFit, Heap.Fits, RoomHere, EndsArena, Heap.StaysPut, Heap.RoomNow, Heap.Missing, Tight, Heap.Shaded, Shaded, Stamped;
    SameRoom(heap, size, granted);
    SameGrowth(heap, size, 0);
    r := heap.Alloc(size, granted);
    SameGrowth(heap, 0, 0);
    if r == 0 { heap.IntactView(0); }
  }

  method DoCalloc(heap: Heap, count: nat, unit: nat, granted: bool) returns (r: nat)
    requires heap.WellFormed()
    modifies heap
    ensures heap.WellFormed() && heap.base == old(heap.base)
    ensures Step(old(heap.Live()), heap.base, Call.Calloc(count, unit, granted), r, heap.Live()) && Served(old(ArenaOf(heap)), heap.base, Call.Calloc(count, unit, granted), r)
    ensures Economy(old(ArenaOf(heap)), heap.base, Call.Calloc(count, unit, granted), r, ArenaOf(heap))
  {
    hide Heap.WellFormed, Heap.Live, Heap.Blocks, CanAlloc, CanResize, Heap.Satisfiable, Heap.Resizable, ViewOf, Heap.Frugal, Thrifty, Heap.Growth, GrowthOf, HasFit, Heap.Fits, RoomHere, EndsArena, Heap.StaysPut, Heap.RoomNow, Heap.Missing, Tight, Heap.Shaded, Shaded, Stamped;
    SameRoom(heap, count * unit, granted);
    SameGrowth(heap, count * unit, 0);
    r := heap.Calloc(count, unit, granted);
    SameGrowth(heap, 0, 0);
    if r == 0 { heap.IntactView(0); }
  }

  method DoRealloc(heap: Heap, p: nat, size: nat, granted: bool) returns (r: nat)
    requires heap.WellFormed()
    modifies heap
    ensures heap.WellFormed() && heap.base == old(heap.base)
    ensures Step(old(heap.Live()), heap.base, Call.Realloc(p, size, granted), r, heap.Live()) && Served(old(ArenaOf(heap)), heap.base, Call.Realloc(p, size, granted), r)
    ensures Economy(old(ArenaOf(heap)), heap.base, Call.Realloc(p, size, granted), r, ArenaOf(heap))
  {
    hide Heap.WellFormed, Heap.Live, Heap.Blocks, CanAlloc, CanResize, Heap.Satisfiable, Heap.Resizable, ViewOf, Heap.Frugal, Thrifty, Heap.Growth, GrowthOf, HasFit, Heap.Fits, RoomHere, EndsArena, Heap.StaysPut, Heap.RoomNow, Heap.Missing, Tight, Heap.Shaded, Shaded, Stamped;
    SameView(heap);
    SameRoom(heap, size, granted);
    SameGrowth(heap, size, 0);
    if p - heap.base - HEADER in heap.Live() {
      SameResize(heap, p - heap.base - HEADER, size, granted);
      SameGrowth(heap, size, p - heap.base - HEADER);
    }
    r := heap.Realloc(p, size, granted);
    SameGrowth(heap, 0, 0);
    if heap.Intact() { heap.IntactView(0); }
  }

  method DoFree(heap: Heap, p: nat) returns (r: nat)
    requires heap.WellFormed()
    modifies heap
    ensures heap.WellFormed() && heap.base == old(heap.base)
    ensures Served(old(ArenaOf(heap)), heap.base, Call.Free(p), r)
    ensures Step(old(heap.Live()), heap.base, Call.Free(p), r, heap.Live()) && Economy(old(ArenaOf(heap)), heap.base, Call.Free(p), r, ArenaOf(heap))
  {
    hide Heap.WellFormed, Heap.Live, Heap.Blocks, CanAlloc, CanResize, Heap.Satisfiable, Heap.Resizable, ViewOf, Heap.Frugal, Thrifty, Heap.Growth, GrowthOf, HasFit, Heap.Fits, RoomHere, EndsArena, Heap.StaysPut, Heap.RoomNow, Heap.Missing, Tight, Heap.Shaded, Shaded, Stamped;
    SameGrowth(heap, 0, 0);
    var ok := heap.Free(p);
    r := if ok then 1 else 0;
    SameGrowth(heap, 0, 0);
    if heap.Intact() { heap.IntactView(0); }
  }

  method DoStore(heap: Heap, p: nat, from: nat, to: nat, value: byte) returns (r: nat)
    requires heap.WellFormed()
    modifies heap
    ensures heap.WellFormed() && heap.base == old(heap.base)
    ensures Served(old(ArenaOf(heap)), heap.base, Call.Store(p, from, to, value), r)
    ensures Step(old(heap.Live()), heap.base, Call.Store(p, from, to, value), r, heap.Live()) && Economy(old(ArenaOf(heap)), heap.base, Call.Store(p, from, to, value), r, ArenaOf(heap))
  {
    hide Heap.WellFormed, Heap.Live, Heap.Blocks, CanAlloc, CanResize, Heap.Satisfiable, Heap.Resizable, ViewOf, Heap.Frugal, Thrifty, Heap.Growth, GrowthOf, HasFit, Heap.Fits, RoomHere, EndsArena, Heap.StaysPut, Heap.RoomNow, Heap.Missing, Tight, Heap.Shaded, Shaded, Stamped;
    SameGrowth(heap, 0, 0);
    r := 0;
    var stored := heap.StoreChecked(p, from, to, value);
    SameGrowth(heap, 0, 0);
    if heap.Intact() { heap.IntactView(0); }
  }

  lemma SameView(heap: Heap)
    ensures ViewOf(ArenaOf(heap)) == heap.Live()
  {
  }

  lemma ArenaSeparated(heap: Heap)
    requires heap.WellFormed()
    ensures Separated(ViewOf(ArenaOf(heap)), heap.base, heap.mappedSize) && heap.mappedSize <= heap.maxSize
  {
    WellFormedSeparated(heap);
    SameView(heap);
  }

  /** One call of a run. */
  ghost predicate Happens(a: Arena, base: nat, call: Call, r: nat, b: Arena) {
    Step(ViewOf(a), base, call, r, ViewOf(b)) && Served(a, base, call, r) && Economy(a, base, call, r, b)
  }

  /** Every run is a run of the map, and along it every allocation lies in the part of the arena mapped at that time. */
  method Run(heap: Heap, calls: seq<Call>) returns (results: seq<nat>, ghost arenas: seq<Arena>)
    requires heap.WellFormed()
    modifies heap
    ensures heap.WellFormed() && heap.base == old(heap.base)
    ensures |results| == |calls| && |arenas| == |calls| + 1 && forall i | 0 <= i <= |calls| :: arenas[i].debug == heap.debugPoison == old(heap.debugPoison)
    ensures arenas[0] == old(ArenaOf(heap)) && arenas[|calls|] == ArenaOf(heap)
    ensures forall i | 0 <= i < |calls| :: Happens(arenas[i], heap.base, calls[i], results[i], arenas[i + 1])
    ensures forall i | 0 <= i <= |calls| :: Separated(ViewOf(arenas[i]), heap.base, arenas[i].mapped) && arenas[i].mapped <= arenas[i].max
    ensures Thrifty(arenas[0]) ==> forall i | 0 <= i <= |calls| :: Thrifty(arenas[i])
    ensures Shaded(arenas[0]) ==> forall i | 0 <= i <= |calls| :: Shaded(arenas[i])
  {
    hide Heap.WellFormed, Heap.Live, Separated, ViewOf, Step, Served, Placed, Replaced, Thrifty, Shaded;
    results, arenas := [], [ArenaOf(heap)];
    ArenaSeparated(heap);
    for k := 0 to |calls|
      invariant heap.WellFormed() && heap.base == old(heap.base)
      invariant heap.debugPoison == old(heap.debugPoison) && forall i {:trigger arenas[i]} | 0 <= i < |arenas| :: arenas[i].debug == heap.debugPoison
      invariant |results| == k && |arenas| == k + 1 && arenas[0] == old(ArenaOf(heap)) && arenas[k] == ArenaOf(heap)
      invariant forall i {:trigger calls[i]} | 0 <= i < k :: Happens(arenas[i], heap.base, calls[i], results[i], arenas[i + 1])
      invariant forall i | 0 <= i <= k :: Separated(ViewOf(arenas[i]), heap.base, arenas[i].mapped) && arenas[i].mapped <= arenas[i].max
      invariant Thrifty(arenas[0]) ==> forall i | 0 <= i <= k :: Thrifty(arenas[i])
      invariant Shaded(arenas[0]) ==> forall i | 0 <= i <= k :: Shaded(arenas[i])
    {
      SameView(heap);
      var r := Execute(heap, calls[k]);
      SameView(heap);
      ArenaSeparated(heap);
      results, arenas := results + [r], arenas + [ArenaOf(heap)];
    }
  }

  /** From `Init` on: along every run no live block wastes a minimal block or more, and in debug mode free memory stays marked. */
  method Lifetime(heap: Heap, base: nat, initialSize: nat, maxSize: nat, growthSize: nat, debugPoison: bool, canGrow: bool, calls: seq<Call>)
    returns (born: bool, results: seq<nat>, ghost arenas: seq<Arena>)
    modifies heap
    ensures born <==> !old(heap.initialized) && ValidSizes(base, initialSize, maxSize, growthSize)
    ensures !born ==> unchanged(heap)
    ensures born ==> |results| == |calls| && |arenas| == |calls| + 1 && ViewOf(arenas[0]) == map[] && arenas[0].mapped == initialSize
    ensures born ==> forall i | 0 <= i < |calls| :: Happens(arenas[i], base, calls[i], results[i], arenas[i + 1])
    ensures born ==> forall i | 0 <= i <= |calls| :: Separated(ViewOf(arenas[i]), base, arenas[i].mapped) && Thrifty(arenas[i]) && Shaded(arenas[i])
    ensures born ==> forall i | 0 <= i <= |calls| :: arenas[i].debug == debugPoison
  {
    hide Heap.WellFormed, Heap.Live, Separated, ViewOf, Happens, Thrifty, ValidSizes, Heap.Frugal, Shaded, Heap.Shaded;
    results, arenas := [], [];
    born := heap.Init(base, initialSize, maxSize, growthSize, debugPoison, canGrow);
    if born {
      SameGrowth(heap, 0, 0);
      SameView(heap);
      results, arenas := Run(heap, calls);
    }
  }
}
