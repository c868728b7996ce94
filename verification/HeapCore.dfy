/** The kernel heap of kernel/memory/heap_core.c, operating in place on headers and payload bytes. */
module HeapCore {
  import opened HeapLayout
  import opened HeapValidate

  /** Statistics saturate. */
  function Bump(counter: nat): nat { if counter == SIZE_MAX then counter else counter + 1 }

  /** The units a request needs with its header, rounded up: (size + 48 + 15) & ~15. */
  function Needed(size: nat): nat { (size + HEADER + 15) / 16 }

  predicate Representable(size: nat) { 0 < size <= SIZE_MAX - (HEADER + 15) }

  /** The sizes and alignments the heap accepts. */
  predicate ValidSizes(base: nat, mapped: nat, limit: nat, growth: nat) {
    && base != 0 && base % 16 == 0
    && MIN_BLOCK <= mapped <= limit <= SIZE_MAX - base && MIN_BLOCK <= growth
    && mapped % 16 == 0 && limit % 16 == 0 && growth % 16 == 0
  }

  lemma SizesPositive(base: nat, mapped: nat, limit: nat, growth: nat)
    requires ValidSizes(base, mapped, limit, growth)
    ensures 0 < growth && mapped <= limit
  {
  }

  lemma NeededFits(size: nat)
    requires 0 < size
    ensures HEADER + size <= 16 * Needed(size) && MIN_BLOCK <= 16 * Needed(size)
  {
  }

  /** A block trimmed to its need wastes nothing. */
  lemma NeededTight(m: Headers, o: nat, size: nat)
    requires At(m, o).requested == size && SizeAt(m, o) < 16 * Needed(size) + MIN_BLOCK
    ensures Tight(m, o)
  {
  }

  /** The client's view once the allocation `o` lives at `h` with `bytes`. */
  ghost function Replaced(L: map<nat, seq<byte>>, o: nat, h: nat, bytes: seq<byte>): map<nat, seq<byte>> {
    (L - {o})[h := bytes]
  }

  /** The last block on the walk, next to a used block at the tail. */
  lemma TailIs(m: Headers, head: nat, mapped: nat, B: set<nat>, offset: nat)
    requires Sound(m, head, mapped, B) && offset in LiveSet(m, B)
    ensures var next := offset + SizeAt(m, offset);
      && (next == mapped ==> LastStart(m, 0, mapped) == offset)
      && (next in FreeSet(m, B) && next + SizeAt(m, next) == mapped ==> LastStart(m, 0, mapped) == next)
      && (next == mapped || (next in FreeSet(m, B) && next + SizeAt(m, next) == mapped) ==>
            next == if UsedAt(m, LastStart(m, 0, mapped)) then mapped else LastStart(m, 0, mapped))
  {
    hide NoAdjacentFree, UsedUnlinked, LastStart;
    var next := offset + SizeAt(m, offset);
    assert Tile(m, B, mapped, offset);
    LastStartEnds(m, B, mapped, 0);
    if next == mapped { LastUnique(m, B, mapped, LastStart(m, 0, mapped), offset); }
    if next in FreeSet(m, B) && next + SizeAt(m, next) == mapped { LastUnique(m, B, mapped, LastStart(m, 0, mapped), next); }
  }

  /** One allocation has a new size, what it keeps is unchanged and what it gains is marked; the others are as they were. */
  ghost predicate Resized(L: map<nat, seq<byte>>, L': map<nat, seq<byte>>, o: nat, size: nat, on: bool) {
    o in L && o in L' && |L'[o]| == size && L' == L[o := L'[o]] && Preserves(L[o], L'[o]) && Stamped(on, L[o], L'[o])
  }

  lemma MovedView(L: map<nat, seq<byte>>, L': map<nat, seq<byte>>, from: nat, to: nat)
    requires from in L && to in L && from != to && to in L' && L' == L[to := L'[to]]
    ensures to in L' - {from} && (L' - {from})[to] == L'[to]
    ensures L' - {from} == Replaced(L, from, to, L'[to])
  {
  }

  lemma InPlaceView(L: map<nat, seq<byte>>, L': map<nat, seq<byte>>, o: nat)
    requires o in L' && L' == L[o := L'[o]]
    ensures L' == Replaced(L, o, o, L'[o])
  {
  }

  lemma ReplacedView(L: map<nat, seq<byte>>, L': map<nat, seq<byte>>, L'': map<nat, seq<byte>>, o: nat, h: nat)
    requires o in L && h !in L && h in L' && L' == L[h := L'[h]] && h in L''
    requires L'' == Replaced(L', o, h, L''[h])
    ensures L'' == Replaced(L, o, h, L''[h]) && L'[o] == L[o]
  {
  }

  lemma Scaled(a: nat, b: nat, size: nat)
    requires a <= b
    ensures a * size <= b * size
  {
  }

  lemma NonzeroProduct(a: nat, b: nat)
    ensures a * b == 0 <==> a == 0 || b == 0
  {
  }

  lemma QuotientBounds(x: nat, size: nat)
    requires size != 0
    ensures x / size * size <= x < (x / size + 1) * size
  {
  }

  /** The division test of calloc is exactly the overflow test. */
  lemma ProductBound(count: nat, size: nat)
    ensures count * size == 0 <==> count == 0 || size == 0
    ensures size != 0 ==> (count > SIZE_MAX / size <==> count * size > SIZE_MAX)
  {
    NonzeroProduct(count, size);
    if size != 0 {
      var q := SIZE_MAX / size;
      QuotientBounds(SIZE_MAX, size);
      if count > q { Scaled(q + 1, count, size); } else { Scaled(count, q, size); }
    }
  }

  function Peak(before: nat, used: nat): nat { if before < used then used else before }

  class Heap {
    var initialized: bool
    var base: nat
    var mappedSize: nat
    var maxSize: nat
    var growthSize: nat
    var freeHead: nat
    var canGrow: bool
    var debugPoison: bool
    var usedBytes: nat
    var liveAllocations: nat
    var allocations: nat
    var frees: nat
    var peakUsage: nat
    var failedAllocations: nat
    var invalidFrees: nat
    /** The arena's memory: header words by offset, payload bytes by offset. */
    var hdr: Headers
    var mem: Bytes

    // -------------------------------------------------------------- free-list primitives

    method RemoveFree(offset: nat, ghost F: set<nat>)
      requires Linked(hdr, freeHead, F) && offset in F
      modifies this`hdr, this`freeHead
      ensures Linked(hdr, freeHead, F - {offset})
      ensures forall o {:trigger SameCore(old(hdr), hdr, o)} :: SameCore(old(hdr), hdr, o)
      ensures forall o {:trigger SameLinks(old(hdr), hdr, o)} | o !in F :: SameLinks(old(hdr), hdr, o)
      ensures At(hdr, offset).freePrev == NONE && At(hdr, offset).freeNext == NONE
    {
      var block := At(hdr, offset);
      assert NodeOk(hdr, F, offset);
      if block.freePrev == NONE {
        freeHead := block.freeNext;
      } else {
        hdr := hdr[block.freePrev := At(hdr, block.freePrev).(freeNext := block.freeNext)];
      }
      if block.freeNext != NONE {
        hdr := hdr[block.freeNext := At(hdr, block.freeNext).(freePrev := block.freePrev)];
      }
      hdr := hdr[offset := At(hdr, offset).(freePrev := NONE, freeNext := NONE)];
      Bypass(old(hdr), hdr, old(freeHead), freeHead, F, offset);
    }

    method InsertFree(offset: nat, ghost F: set<nat>)
      requires Linked(hdr, freeHead, F) && offset !in F && offset < NONE
      modifies this`hdr, this`freeHead
      ensures Linked(hdr, freeHead, F + {offset})
      ensures forall o {:trigger SameCore(old(hdr), hdr, o)} :: SameCore(old(hdr), hdr, o)
      ensures forall o {:trigger SameLinks(old(hdr), hdr, o)} | o !in F && o != offset :: SameLinks(old(hdr), hdr, o)
    {
      var prior, current := NONE, freeHead;
      while current != NONE && current < offset
        invariant 0 <= prior && 0 <= current && Neighbours(F, prior, current) && (prior == NONE || prior < offset)
        decreases if current == NONE then 0 else NONE - current
      {
        assert NodeOk(hdr, F, current);
        prior := current;
        current := At(hdr, current).freeNext;
      }
      hdr := hdr[offset := At(hdr, offset).(freePrev := prior, freeNext := current)];
      if prior == NONE {
        freeHead := offset;
      } else {
        hdr := hdr[prior := At(hdr, prior).(freeNext := offset)];
      }
      if current != NONE {
        hdr := hdr[current := At(hdr, current).(freePrev := offset)];
      }
      Splice(old(hdr), hdr, old(freeHead), freeHead, F, prior, offset, current);
    }

    // -------------------------------------------------------------- memory writes

    /** memset: the bytes change and any header under them is destroyed. */
    method Fill(lo: nat, hi: nat, value: byte)
      modifies this`hdr, this`mem
      ensures forall i: nat :: ByteAt(mem, i) == if lo <= i < hi then value else ByteAt(old(mem), i)
      ensures forall o :: At(hdr, o) == if Overlaps(o, lo, hi) then Blank else At(old(hdr), o)
    {
      mem := Filled(mem, lo, hi, value);
      hdr := Smashed(hdr, lo, hi);
    }

    /** A fresh header; the bytes it covers stop being payload, so their value no longer matters. */
    method WriteBlock(offset: nat, units: nat, previous: nat, requested: nat, used: bool)
      modifies this`hdr, this`mem
      ensures forall o :: At(hdr, o) ==
                if o == offset then Header(units, used, 0, previous, requested, NONE, NONE, offset)
                else if Overlaps(o, offset, offset + HEADER) then Blank
                else At(old(hdr), o)
      ensures forall i: nat | !(offset <= i < offset + HEADER) :: ByteAt(mem, i) == ByteAt(old(mem), i)
    {
      Fill(offset, offset + HEADER, 0);
      hdr := hdr[offset := Header(units, used, 0, previous, requested, NONE, NONE, offset)];
    }

    method FollowingPrevious(offset: nat, size: nat)
      modifies this`hdr
      ensures forall o :: At(hdr, o) ==
                if o == offset + size < mappedSize then At(old(hdr), o).(prevSize := size) else At(old(hdr), o)
    {
      if offset + size < mappedSize {
        hdr := hdr[offset + size := At(hdr, offset + size).(prevSize := size)];
      }
    }

    method PoisonFree(offset: nat)
      requires HEADER <= SizeAt(hdr, offset)
      modifies this`hdr, this`mem
      ensures forall o | !Overlaps(o, offset + HEADER, offset + SizeAt(old(hdr), offset)) ::
                At(hdr, o) == At(old(hdr), o)
      ensures forall i: nat | !(offset + HEADER <= i < offset + SizeAt(old(hdr), offset)) ::
                ByteAt(mem, i) == ByteAt(old(mem), i)
      ensures debugPoison ==> forall i: nat | offset + HEADER <= i < offset + SizeAt(old(hdr), offset) :: ByteAt(mem, i) == 0xdd
    {
      if debugPoison { Fill(offset + HEADER, offset + SizeAt(hdr, offset), 0xdd); }
    }

    /**
      Write a free block, fix the tag after it, list it and poison it: the closing steps of trimming,
      releasing and growing. `K` are the other blocks; none of their headers lies in [offset, offset + size).
    */
    method InstallFree(offset: nat, units: nat, previous: nat, ghost K: set<nat>, ghost F: set<nat>)
      requires Linked(hdr, freeHead, F) && F <= K && offset < NONE
      requires MIN_BLOCK <= 16 * units
      requires forall o | o in K :: o + HEADER <= offset || offset + 16 * units <= o
      modifies this`hdr, this`freeHead, this`mem
      ensures Linked(hdr, freeHead, F + {offset})
      ensures Installed(old(hdr), hdr, mappedSize, K, F, offset, units, offset + 16 * units, previous)
      ensures forall i: nat | !(offset <= i < offset + 16 * units) :: ByteAt(mem, i) == ByteAt(old(mem), i)
      ensures debugPoison ==> PaintedAt(hdr, mem, offset)
    {
      ghost var end := offset + 16 * units;
      WriteBlock(offset, units, previous, 0, false);
      FollowingPrevious(offset, 16 * units);
      LinkedFrame(old(hdr), hdr, freeHead, F);
      ghost var m := hdr;
      InsertFree(offset, F);
      ghost var n := hdr;
      assert SameCore(m, n, offset);
      PoisonFree(offset);
      LinkedFrame(n, hdr, freeHead, F + {offset});
      forall p {:trigger Kept(old(hdr), hdr, offset, end, p)} | p in K && p < mappedSize
        ensures Kept(old(hdr), hdr, offset, end, p)
      {
        assert SameCore(m, n, p);
      }
      forall p {:trigger SameLinks(old(hdr), hdr, p)} | p in K && p !in F ensures SameLinks(old(hdr), hdr, p) {
        assert SameLinks(m, n, p);
      }
    }

    // -------------------------------------------------------------- trimming

    /** Unlist the block at `next` if it is free, returning its size in units, else 0. */
    method TakeNext(next: nat, ghost m: Headers, ghost B: set<nat>, ghost F: set<nat>) returns (extra: nat)
      requires Shape(m, B, mappedSize) && NoAdjacentFree(m, B) && UsedUnlinked(m, B)
      requires forall o {:trigger SameCore(m, hdr, o)} :: SameCore(m, hdr, o)
      requires Linked(hdr, freeHead, F) && F <= FreeSet(m, B)
      requires next == mappedSize || (next in B && (UsedAt(m, next) || next in F))
      modifies this`hdr, this`freeHead
      ensures forall o {:trigger SameCore(m, hdr, o)} :: SameCore(m, hdr, o)
      ensures forall o {:trigger SameLinks(old(hdr), hdr, o)} | o !in F :: SameLinks(old(hdr), hdr, o)
      ensures extra == if next == mappedSize || UsedAt(m, next) then 0 else At(m, next).units
      ensures Linked(hdr, freeHead, Outside(F, next, next + 16 * extra))
      ensures next + 16 * extra == mappedSize || (next + 16 * extra in B && UsedAt(m, next + 16 * extra))
      ensures forall o | o in B && next <= o < next + 16 * extra :: !UsedAt(m, o)
    {
      extra := 0;
      assert SameCore(m, hdr, next);
      assert next in B ==> Tile(m, B, mappedSize, next);
      assert F == Outside(F, next, next);
      if next < mappedSize && !UsedAt(hdr, next) {
        assert Tile(m, B, mappedSize, next) && Coalesced(m, B, next);
        extra := At(hdr, next).units;
        ghost var n := hdr;
        RemoveFree(next, F);
        forall o {:trigger SameCore(m, hdr, o)} ensures SameCore(m, hdr, o) {
          assert SameCore(m, n, o) && SameCore(n, hdr, o);
        }
        assert F - {next} == Outside(F, next, next + 16 * extra);
      }
    }

    /** Cut the used block at `offset` to `needed` units and free the rest, up to the block at `hi`. */
    method CutBlock(offset: nat, needed: nat, remainder: nat, ghost hi: nat,
                    ghost m: Headers, ghost head: nat, ghost B: set<nat>)
      requires Sound(m, head, mappedSize, B) && mappedSize < NONE
      requires offset in B && UsedAt(m, offset)
      requires MIN_BLOCK <= 16 * needed && MIN_BLOCK <= 16 * remainder && HEADER + At(m, offset).requested <= 16 * needed
      requires hi == offset + 16 * needed + 16 * remainder
      requires hi == mappedSize || (hi in B && UsedAt(m, hi))
      requires forall o | o in B && offset < o < hi :: !UsedAt(m, o)
      requires forall o {:trigger SameCore(m, hdr, o)} :: SameCore(m, hdr, o)
      requires forall o {:trigger SameLinks(m, hdr, o)} | o !in FreeSet(m, B) :: SameLinks(m, hdr, o)
      requires Linked(hdr, freeHead, Outside(FreeSet(m, B), offset, hi))
      modifies this`hdr, this`freeHead, this`mem
      ensures Sound(hdr, freeHead, mappedSize, Recut(B, offset, hi, {offset + 16 * needed}))
      ensures LiveSet(hdr, Recut(B, offset, hi, {offset + 16 * needed})) == LiveSet(m, B)
      ensures forall o | o in LiveSet(m, B) :: At(hdr, o).requested == At(m, o).requested
      ensures SizeAt(hdr, offset) == 16 * needed && SameUnits(m, hdr, LiveSet(m, B) - {offset})
      ensures forall i: nat | !(offset + 16 * needed <= i < hi) :: ByteAt(mem, i) == ByteAt(old(mem), i)
      ensures StaysPainted(debugPoison, m, old(mem), B, hdr, mem, Recut(B, offset, hi, {offset + 16 * needed}))
    {
      hide StaysPainted, PaintedAt;
      ghost var n, F := hdr, Outside(FreeSet(m, B), offset, hi);
      assert hi in B ==> Tile(m, B, mappedSize, hi);
      hdr := hdr[offset := At(hdr, offset).(units := needed, used := true)];
      LinkedFrame(n, hdr, freeHead, F);
      forall o | o in Outside(B, offset, hi) ensures o + HEADER <= offset || hi <= o { assert Tile(m, B, mappedSize, o); }
      InstallFree(offset + 16 * needed, remainder, 16 * needed, Outside(B, offset, hi) + {offset}, F);
      TrimSound(m, head, mappedSize, B, n, hdr, freeHead, offset, needed, remainder);
      PaintKept(debugPoison, m, old(mem), B, mappedSize, hdr, mem, Recut(B, offset, hi, {offset + 16 * needed}), offset, hi, offset + 16 * needed, hi);
    }

    method TrimBlock(offset: nat, needed: nat, ghost B: set<nat>) returns (ghost B': set<nat>)
      requires Sound(hdr, freeHead, mappedSize, B) && mappedSize < NONE
      requires offset in B && UsedAt(hdr, offset)
      requires MIN_BLOCK <= 16 * needed <= SizeAt(hdr, offset) && HEADER + At(hdr, offset).requested <= 16 * needed
      modifies this`hdr, this`freeHead, this`mem
      ensures Sound(hdr, freeHead, mappedSize, B')
      ensures LiveSet(hdr, B') == LiveSet(old(hdr), B)
      ensures forall o | o in LiveSet(hdr, B') :: At(hdr, o).requested == At(old(hdr), o).requested
      ensures Untouched(old(hdr), LiveSet(old(hdr), B), old(mem), mem)
      ensures 16 * needed <= SizeAt(hdr, offset) <= old(SizeAt(hdr, offset)) && SizeAt(hdr, offset) < 16 * needed + MIN_BLOCK
      ensures SameUnits(old(hdr), hdr, LiveSet(old(hdr), B) - {offset})
      ensures StaysPainted(debugPoison, old(hdr), old(mem), B, hdr, mem, B')
    {
      hide PaintedAt, Painted;
      ghost var m := hdr;
      B' := B;
      var size := At(hdr, offset).units;
      if 16 * (size - needed) < MIN_BLOCK { return; }
      var oldNext := offset + 16 * size;
      assert Tile(m, B, mappedSize, offset);
      var extra := TakeNext(oldNext, m, B, FreeSet(m, B));
      ghost var hi := oldNext + 16 * extra;
      assert Outside(FreeSet(m, B), oldNext, hi) == Outside(FreeSet(m, B), offset, hi);
      CutBlock(offset, needed, size - needed + extra, hi, m, old(freeHead), B);
      B' := Recut(B, offset, hi, {offset + 16 * needed});
      UntouchedOutside(m, B, mappedSize, offset, offset + 16 * needed, hi, LiveSet(m, B), old(mem), mem);
    }

    // -------------------------------------------------------------- searching

    /** First fit: the lowest listed block of at least `needed` units. */
    method FindFit(needed: nat, ghost F: set<nat>) returns (offset: nat)
      requires Linked(hdr, freeHead, F)
      ensures offset != NONE ==> offset in F && needed <= At(hdr, offset).units
      ensures forall o | o in F && (offset == NONE || o < offset) :: At(hdr, o).units < needed
    {
      offset := freeHead;
      while offset != NONE && At(hdr, offset).units < needed
        invariant offset == NONE || offset in F
        invariant forall o | o in F && (offset == NONE || o < offset) :: At(hdr, o).units < needed
        decreases if offset == NONE then 0 else NONE - offset
      {
        assert NodeOk(hdr, F, offset);
        offset := At(hdr, offset).freeNext;
      }
    }

    method LastBlock(ghost B: set<nat>) returns (offset: nat)
      requires Shape(hdr, B, mappedSize)
      ensures offset in B && offset + SizeAt(hdr, offset) == mappedSize
      ensures offset == LastStart(hdr, 0, mappedSize)
    {
      offset := 0;
      assert Tile(hdr, B, mappedSize, offset);
      while offset + SizeAt(hdr, offset) < mappedSize
        invariant offset in B && Tile(hdr, B, mappedSize, offset)
        invariant LastStart(hdr, offset, mappedSize) == LastStart(hdr, 0, mappedSize)
        decreases mappedSize - offset
      {
        offset := offset + SizeAt(hdr, offset);
        assert Tile(hdr, B, mappedSize, offset);
      }
    }

    /** Whether walking the chain meets `target` at all. */
    method ExactBlock(target: nat, ghost B: set<nat>) returns (found: bool)
      requires Shape(hdr, B, mappedSize)
      ensures found <==> target in B
    {
      var offset := 0;
      assert target in B ==> Tile(hdr, B, mappedSize, target);
      while offset < mappedSize
        invariant offset in B || offset == mappedSize
        invariant target in B ==> offset <= target < mappedSize
        decreases mappedSize - offset
      {
        if offset == target { return true; }
        assert Tile(hdr, B, mappedSize, offset);
        offset := offset + SizeAt(hdr, offset);
      }
      return false;
    }

    // -------------------------------------------------------------- growing

    /** The block at `offset` gives way to one free block up to `end`; everything in between is absorbed. */
    method RefitFree(offset: nat, units: nat, ghost hi: nat, ghost m: Headers, ghost head: nat, ghost mapped: nat, ghost B: set<nat>)
      requires Sound(m, head, mapped, B) && mappedSize < NONE
      requires offset in B && MIN_BLOCK <= 16 * units
      requires offset < hi && (hi in B || hi == mapped)
      requires (hi == offset + 16 * units && mapped == mappedSize) || (hi == mapped && offset + 16 * units == mappedSize && hi <= mappedSize)
      requires forall p | p in B && p + SizeAt(m, p) == offset :: UsedAt(m, p)
      requires hi in B ==> UsedAt(m, hi)
      requires forall o {:trigger SameCore(m, hdr, o)} :: SameCore(m, hdr, o)
      requires forall o {:trigger SameLinks(m, hdr, o)} | o !in FreeSet(m, B) :: SameLinks(m, hdr, o)
      requires Linked(hdr, freeHead, Outside(FreeSet(m, B), offset, hi))
      modifies this`hdr, this`freeHead, this`mem
      ensures Sound(hdr, freeHead, mappedSize, Recut(B, offset, hi, {}))
      ensures LiveSet(hdr, Recut(B, offset, hi, {})) == Outside(LiveSet(m, B), offset, hi)
      ensures forall o | o in Outside(LiveSet(m, B), offset, hi) ::
                At(hdr, o).requested == At(m, o).requested && SizeAt(hdr, o) == SizeAt(m, o)
      ensures !UsedAt(hdr, offset) && At(hdr, offset).units == units
      ensures forall i: nat | !(offset <= i < offset + 16 * units) :: ByteAt(mem, i) == ByteAt(old(mem), i)
      ensures StaysPainted(debugPoison, m, old(mem), B, hdr, mem, Recut(B, offset, hi, {}))
    {
      hide StaysPainted, PaintedAt;
      ghost var n, F, end := hdr, Outside(FreeSet(m, B), offset, hi), offset + 16 * units;
      assert SameCore(m, n, offset);
      assert hi in B ==> Tile(m, B, mapped, hi);
      forall o | o in Outside(B, offset, hi) ensures o + HEADER <= offset || end <= o { assert Tile(m, B, mapped, o); }
      InstallFree(offset, units, At(hdr, offset).prevSize, Outside(B, offset, hi), F);
      ghost var h := hdr;
      forall o {:trigger Kept(m, h, offset, hi, o)} {:trigger SameLinks(m, h, o)} | o in Outside(B, offset, hi)
        ensures Kept(m, h, offset, hi, o)
        ensures UsedAt(m, o) ==> SameLinks(m, h, o)
      {
        assert Tile(m, B, mapped, o) && SameCore(m, n, o) && Kept(n, h, offset, end, o);
        if UsedAt(m, o) { assert SameLinks(m, n, o) && SameLinks(n, h, o); }
      }
      FuseSound(m, head, mapped, B, h, freeHead, mappedSize, offset, hi, end);
      forall o | o in Outside(LiveSet(m, B), offset, hi)
        ensures At(h, o).requested == At(m, o).requested && SizeAt(h, o) == SizeAt(m, o)
      {
        assert Kept(m, h, offset, hi, o);
      }
      KeptBlocks(m, h, B, offset, offset, hi);
      PaintKept(debugPoison, m, old(mem), B, mapped, h, mem, Recut(B, offset, hi, {}), offset, hi, offset, end);
    }

    /** context_valid */
    predicate Context()
      reads this
    {
      initialized && ValidSizes(base, mappedSize, maxSize, growthSize)
    }

    /** Whether the mapped arena can be extended so that its free tail holds `needed` units. */
    ghost predicate CanExtend(needed: nat, granted: bool)
      reads this
    {
      var last := LastStart(hdr, 0, mappedSize);
      var tailFree := if UsedAt(hdr, last) then 0 else SizeAt(hdr, last);
      var need := if 16 * needed < MIN_BLOCK then MIN_BLOCK else 16 * needed;
      && canGrow && mappedSize != maxSize
      && (need <= tailFree || (need - tailFree <= maxSize - mappedSize && granted))
    }

    /** By how much the arena must be extended so that its free tail holds `needed` units. */
    ghost function Growth(needed: nat): nat
      reads this
    {
      var last := LastStart(hdr, 0, mappedSize);
      var tailFree := if UsedAt(hdr, last) then 0 else SizeAt(hdr, last);
      var need := if 16 * needed < MIN_BLOCK then MIN_BLOCK else 16 * needed;
      if need <= tailFree || growthSize == 0 || maxSize < mappedSize then 0 else Extra(need - tailFree, maxSize - mappedSize, growthSize)
    }

    method GrowHeap(needed: nat, granted: bool, ghost B: set<nat>)
      returns (ok: bool, ghost B': set<nat>, ghost tail: nat)
      requires Context() && Sound(hdr, freeHead, mappedSize, B)
      modifies this`hdr, this`freeHead, this`mappedSize, this`mem
      ensures Context() && Sound(hdr, freeHead, mappedSize, B') && old(mappedSize) <= mappedSize
      ensures ok <==> old(CanExtend(needed, granted))
      ensures !ok ==> hdr == old(hdr) && freeHead == old(freeHead) && mappedSize == old(mappedSize)
                      && mem == old(mem) && B' == B
      ensures LiveSet(hdr, B') == LiveSet(old(hdr), B)
      ensures forall o | o in LiveSet(hdr, B') ::
                At(hdr, o).requested == At(old(hdr), o).requested && SizeAt(hdr, o) == SizeAt(old(hdr), o)
      ensures Untouched(old(hdr), LiveSet(old(hdr), B), old(mem), mem)
      ensures ok ==> mappedSize == old(mappedSize + Growth(needed))
      ensures ok ==> tail in FreeSet(hdr, B') && needed <= At(hdr, tail).units && tail + SizeAt(hdr, tail) == mappedSize
      ensures ok ==> tail == var last := LastStart(old(hdr), 0, old(mappedSize));
                             if UsedAt(old(hdr), last) then old(mappedSize) else last
      ensures StaysPainted(debugPoison, old(hdr), old(mem), B, hdr, mem, B')
    {
      hide Painted, ValidSizes, NoAdjacentFree, UsedUnlinked, Linked;
      B', tail, ok := B, 0, false;
      SizesPositive(base, mappedSize, maxSize, growthSize);
      if !canGrow || mappedSize == maxSize { return; }
      var need := if 16 * needed < MIN_BLOCK then 4 else needed;
      var tailOffset := LastBlock(B);
      var tailFree := if UsedAt(hdr, tailOffset) then 0 else At(hdr, tailOffset).units;
      tail := tailOffset;
      if need <= tailFree { return true, B, tailOffset; }
      var required := 16 * (need - tailFree);
      if mappedSize + required > maxSize { return; }
      var extra := ExtraUnits(required);
      if !granted { return; }
      ok := true;
      B', tail := Extend(tailOffset, extra, B);
    }

    /** The amount to ask the callback for, in units. */
    method ExtraUnits(required: nat) returns (extra: nat)
      requires Context() && 0 < required && mappedSize + required <= maxSize
      ensures 16 * extra == Extra(required, maxSize - mappedSize, growthSize)
      ensures required <= 16 * extra && mappedSize + 16 * extra <= maxSize
    {
      ExtraFits(required, mappedSize, maxSize, growthSize);
      extra := Extra(required, maxSize - mappedSize, growthSize) / 16;
    }

    /** Append `extra` units of fresh memory: to the free tail, or as a new block after a used one. */
    method Extend(tailOffset: nat, extra: nat, ghost B: set<nat>) returns (ghost B': set<nat>, ghost tail: nat)
      requires Context() && Sound(hdr, freeHead, mappedSize, B)
      requires tailOffset in B && tailOffset + SizeAt(hdr, tailOffset) == mappedSize
      requires 0 < extra && mappedSize + 16 * extra <= maxSize && (UsedAt(hdr, tailOffset) ==> 4 <= extra)
      modifies this`hdr, this`freeHead, this`mappedSize, this`mem
      ensures mappedSize == old(mappedSize) + 16 * extra && Context()
      ensures Sound(hdr, freeHead, mappedSize, B')
      ensures LiveSet(hdr, B') == LiveSet(old(hdr), B)
      ensures forall o | o in LiveSet(hdr, B') ::
                At(hdr, o).requested == At(old(hdr), o).requested && SizeAt(hdr, o) == SizeAt(old(hdr), o)
      ensures Untouched(old(hdr), LiveSet(old(hdr), B), old(mem), mem)
      ensures tail in FreeSet(hdr, B') && tail + SizeAt(hdr, tail) == mappedSize
      ensures tail == if UsedAt(old(hdr), tailOffset) then old(mappedSize) else tailOffset
      ensures StaysPainted(debugPoison, old(hdr), old(mem), B, hdr, mem, B')
    {
      hide StaysPainted;
      if !UsedAt(hdr, tailOffset) {
        tail := tailOffset;
        B' := ExtendTail(tailOffset, extra, B);
      } else {
        tail := mappedSize;
        B' := AppendBlock(tailOffset, extra, B);
      }
    }

    method ExtendTail(tailOffset: nat, extra: nat, ghost B: set<nat>) returns (ghost B': set<nat>)
      requires Context() && Sound(hdr, freeHead, mappedSize, B)
      requires tailOffset in FreeSet(hdr, B) && tailOffset + SizeAt(hdr, tailOffset) == mappedSize
      requires mappedSize + 16 * extra <= maxSize
      modifies this`hdr, this`freeHead, this`mappedSize, this`mem
      ensures mappedSize == old(mappedSize) + 16 * extra
      ensures Sound(hdr, freeHead, mappedSize, B')
      ensures LiveSet(hdr, B') == LiveSet(old(hdr), B)
      ensures forall o | o in LiveSet(hdr, B') ::
                At(hdr, o).requested == At(old(hdr), o).requested && SizeAt(hdr, o) == SizeAt(old(hdr), o)
      ensures Untouched(old(hdr), LiveSet(old(hdr), B), old(mem), mem)
      ensures tailOffset in FreeSet(hdr, B') && tailOffset + SizeAt(hdr, tailOffset) == mappedSize
      ensures StaysPainted(debugPoison, old(hdr), old(mem), B, hdr, mem, B')
    {
      hide StaysPainted;
      ghost var m, mapped, F := hdr, mappedSize, FreeSet(hdr, B);
      forall o | o in B ensures o < mapped && (o <= tailOffset || mapped <= o) {
        assert Tile(m, B, mapped, o) && Tile(m, B, mapped, tailOffset);
      }
      forall p | p in B && p + SizeAt(m, p) == tailOffset ensures UsedAt(m, p) { assert Coalesced(m, B, p); }
      mappedSize := mappedSize + 16 * extra;
      RemoveFree(tailOffset, F);
      assert SameCore(m, hdr, tailOffset);
      assert F - {tailOffset} == Outside(F, tailOffset, mapped);
      RefitFree(tailOffset, At(hdr, tailOffset).units + extra, mapped, m, old(freeHead), mapped, B);
      B' := Recut(B, tailOffset, mapped, {});
      assert Outside(LiveSet(m, B), tailOffset, mapped) == LiveSet(m, B);
      UntouchedOutside(m, B, mapped, tailOffset, tailOffset, mappedSize, LiveSet(m, B), old(mem), mem);
    }

    method AppendBlock(tailOffset: nat, extra: nat, ghost B: set<nat>) returns (ghost B': set<nat>)
      requires Context() && Sound(hdr, freeHead, mappedSize, B)
      requires tailOffset in LiveSet(hdr, B) && tailOffset + SizeAt(hdr, tailOffset) == mappedSize
      requires 4 <= extra && mappedSize + 16 * extra <= maxSize
      modifies this`hdr, this`freeHead, this`mappedSize, this`mem
      ensures mappedSize == old(mappedSize) + 16 * extra
      ensures Sound(hdr, freeHead, mappedSize, B')
      ensures LiveSet(hdr, B') == LiveSet(old(hdr), B)
      ensures forall o | o in LiveSet(hdr, B') ::
                At(hdr, o).requested == At(old(hdr), o).requested && SizeAt(hdr, o) == SizeAt(old(hdr), o)
      ensures Untouched(old(hdr), LiveSet(old(hdr), B), old(mem), mem)
      ensures old(mappedSize) in FreeSet(hdr, B') && old(mappedSize) + SizeAt(hdr, old(mappedSize)) == mappedSize
      ensures StaysPainted(debugPoison, old(hdr), old(mem), B, hdr, mem, B')
    {
      hide StaysPainted, PaintedAt;
      ghost var m := hdr;
      var mapped := mappedSize;
      forall o | o in B ensures o + MIN_BLOCK <= mapped { assert Tile(m, B, mapped, o); }
      mappedSize := mappedSize + 16 * extra;
      InstallFree(mapped, extra, SizeAt(hdr, tailOffset), B, FreeSet(m, B));
      B' := B + {mapped};
      forall o {:trigger SameCore(m, hdr, o)} | o in B ensures SameCore(m, hdr, o) {
        assert Kept(m, hdr, mapped, mappedSize, o);
      }
      AppendSound(m, old(freeHead), mapped, B, hdr, freeHead, mappedSize, tailOffset);
      forall o | o in LiveSet(m, B)
        ensures At(hdr, o).requested == At(m, o).requested && SizeAt(hdr, o) == SizeAt(m, o)
      {
        assert SameCore(m, hdr, o);
      }
      forall o, i: nat | o in LiveSet(m, B) && InPayload(m, o, i) ensures i < mapped { assert Tile(m, B, mapped, o); }
      forall o {:trigger At(hdr, o)} | o in B ensures At(hdr, o).units == At(m, o).units && At(hdr, o).used == At(m, o).used { assert SameCore(m, hdr, o); }
      PaintKept(debugPoison, m, old(mem), B, mapped, hdr, mem, B', mapped, mapped, mapped, mappedSize);
    }

    // -------------------------------------------------------------- allocating and releasing

    /** The statistics agree with the live allocations. */
    ghost predicate Accounts(B: set<nat>)
      reads this
    {
      && usedBytes == Total(hdr, LiveSet(hdr, B)) <= peakUsage
      && liveAllocations == |LiveSet(hdr, B)|
    }

    /** Turn the free block at `offset` into an allocation without splitting it. */
    method Claim(offset: nat, requested: nat, ghost B: set<nat>)
      requires Context() && Sound(hdr, freeHead, mappedSize, B) && offset in FreeSet(hdr, B)
      requires 1 <= requested <= SizeAt(hdr, offset) - HEADER
      modifies this`hdr, this`freeHead
      ensures Sound(hdr, freeHead, mappedSize, B)
      ensures LiveSet(hdr, B) == LiveSet(old(hdr), B) + {offset}
      ensures forall o | o in LiveSet(old(hdr), B) :: At(hdr, o).requested == At(old(hdr), o).requested
      ensures At(hdr, offset).requested == requested && SizeAt(hdr, offset) == SizeAt(old(hdr), offset)
      ensures SameUnits(old(hdr), hdr, LiveSet(old(hdr), B))
      ensures StaysPainted(debugPoison, old(hdr), old(mem), B, hdr, mem, B)
    {
      hide StaysPainted, PaintedAt;
      ghost var m, F, hi := hdr, FreeSet(hdr, B), offset + SizeAt(hdr, offset);
      assert Tile(m, B, mappedSize, offset);
      RemoveFree(offset, F);
      ghost var n := hdr;
      assert SameCore(m, n, offset);
      hdr := hdr[offset := At(hdr, offset).(used := true, requested := requested)];
      assert F - {offset} == Outside(F, offset, hi);
      if hi in B {
        FollowerTag(m, B, mappedSize, offset);
        assert SameCore(m, n, hi);
      }
      OccupySound(m, old(freeHead), mappedSize, B, n, freeHead, offset, hi, hdr);
      assert Recut(B, offset, hi, {}) == B;
      assert Outside(LiveSet(m, B), offset, hi) == LiveSet(m, B);
      OccupyPainted(debugPoison, m, mem, B, mappedSize, hdr, offset, hi);
    }

    /** memset inside one allocation's block leaves the heap sound and every other allocation alone. */
    method FillInside(offset: nat, lo: nat, hi: nat, value: byte, ghost B: set<nat>)
      requires Context() && Sound(hdr, freeHead, mappedSize, B) && offset in B
      requires offset + HEADER <= lo <= hi <= offset + SizeAt(hdr, offset)
      modifies this`hdr, this`mem
      ensures Sound(hdr, freeHead, mappedSize, B)
      ensures forall o | o in B :: At(hdr, o) == At(old(hdr), o)
      ensures LiveSet(hdr, B) == LiveSet(old(hdr), B)
      ensures Total(hdr, LiveSet(hdr, B)) == Total(old(hdr), LiveSet(old(hdr), B))
      ensures forall i: nat :: ByteAt(mem, i) == if lo <= i < hi then value else ByteAt(old(mem), i)
      ensures Untouched(old(hdr), LiveSet(old(hdr), B) - {offset}, old(mem), mem)
      ensures UsedAt(old(hdr), offset) ==> StaysPainted(debugPoison, old(hdr), old(mem), B, hdr, mem, B)
    {
      hide StaysPainted, PaintedAt;
      ghost var m := hdr;
      Fill(lo, hi, value);
      InsideWrite(m, hdr, freeHead, mappedSize, B, offset, lo, hi, old(mem), mem);
      assert Tile(m, B, mappedSize, offset);
      if UsedAt(m, offset) { PaintKept(debugPoison, m, old(mem), B, mappedSize, hdr, mem, B, offset, offset + SizeAt(m, offset), lo, hi); }
    }

    /** A free block of at least `needed` units, growing the arena if none exists and growth is allowed. */
    method FindOrGrow(needed: nat, allowGrowth: bool, granted: bool, ghost B: set<nat>)
      returns (offset: nat, ghost B': set<nat>)
      requires Context() && Sound(hdr, freeHead, mappedSize, B)
      modifies this`hdr, this`freeHead, this`mappedSize, this`mem
      ensures Context() && Sound(hdr, freeHead, mappedSize, B')
      ensures offset == NONE <==>
                && (forall o | o in FreeSet(old(hdr), B) :: At(old(hdr), o).units < needed)
                && !(allowGrowth && old(CanExtend(needed, granted)))
      ensures offset == NONE ==> hdr == old(hdr) && freeHead == old(freeHead) && mappedSize == old(mappedSize)
                                 && mem == old(mem) && B' == B
      ensures offset != NONE ==> offset in FreeSet(hdr, B') && needed <= At(hdr, offset).units
      ensures (exists o :: o in FreeSet(old(hdr), B) && needed <= At(old(hdr), o).units) ==> mappedSize == old(mappedSize)
      ensures offset != NONE && (forall o | o in FreeSet(old(hdr), B) :: At(old(hdr), o).units < needed) ==> mappedSize == old(mappedSize + Growth(needed))
      ensures forall o | o in FreeSet(old(hdr), B) && o < offset :: At(old(hdr), o).units < needed
      ensures LiveSet(hdr, B') == LiveSet(old(hdr), B) && SameUnits(old(hdr), hdr, LiveSet(old(hdr), B))
      ensures forall o | o in LiveSet(hdr, B') :: At(hdr, o).requested == At(old(hdr), o).requested
      ensures Untouched(old(hdr), LiveSet(old(hdr), B), old(mem), mem) && StaysPainted(debugPoison, old(hdr), old(mem), B, hdr, mem, B')
    {
      hide Painted;
      B' := B;
      offset := FindFit(needed, FreeSet(hdr, B));
      if offset == NONE && allowGrowth {
        ghost var tail;
        var grown;
        grown, B', tail := GrowHeap(needed, granted, B);
        if grown { offset := FindFit(needed, FreeSet(hdr, B')); }
      }
    }

    /** Turn the free block at `offset` into an allocation of `needed` units, returning the rest. */
    method Carve(offset: nat, requested: nat, needed: nat, ghost B: set<nat>) returns (ghost B': set<nat>)
      requires Context() && Sound(hdr, freeHead, mappedSize, B) && offset in FreeSet(hdr, B)
      requires 1 <= requested && HEADER + requested <= 16 * needed && MIN_BLOCK <= 16 * needed <= SizeAt(hdr, offset)
      modifies this`hdr, this`freeHead, this`mem
      ensures Sound(hdr, freeHead, mappedSize, B')
      ensures LiveSet(hdr, B') == LiveSet(old(hdr), B) + {offset}
      ensures forall o | o in LiveSet(old(hdr), B) :: At(hdr, o).requested == At(old(hdr), o).requested
      ensures At(hdr, offset).requested == requested && SizeAt(hdr, offset) < 16 * needed + MIN_BLOCK
      ensures SameUnits(old(hdr), hdr, LiveSet(old(hdr), B))
      ensures Untouched(old(hdr), LiveSet(old(hdr), B), old(mem), mem) && StaysPainted(debugPoison, old(hdr), old(mem), B, hdr, mem, B')
    {
      hide StaysPainted;
      ghost var m := hdr;
      Claim(offset, requested, B);
      ghost var n := hdr;
      B' := TrimBlock(offset, needed, B);
      PaintedTrans(debugPoison, m, old(mem), B, n, old(mem), B, hdr, mem, B');
      UntouchedTrans(m, n, LiveSet(m, B), LiveSet(n, B), old(mem), old(mem), mem);
    }

    method CarveCounted(offset: nat, requested: nat, needed: nat, ghost B: set<nat>) returns (ghost B': set<nat>)
      requires Context() && Sound(hdr, freeHead, mappedSize, B) && Accounts(B) && offset in FreeSet(hdr, B)
      requires 1 <= requested && HEADER + requested <= 16 * needed && MIN_BLOCK <= 16 * needed <= SizeAt(hdr, offset)
      modifies this`hdr, this`freeHead, this`mem
      modifies this`usedBytes, this`liveAllocations, this`allocations, this`peakUsage
      ensures Sound(hdr, freeHead, mappedSize, B') && Accounts(B')
      ensures LiveSet(hdr, B') == LiveSet(old(hdr), B) + {offset}
      ensures forall o | o in LiveSet(old(hdr), B) :: At(hdr, o).requested == At(old(hdr), o).requested
      ensures At(hdr, offset).requested == requested && SizeAt(hdr, offset) < 16 * needed + MIN_BLOCK
      ensures SameUnits(old(hdr), hdr, LiveSet(old(hdr), B))
      ensures Untouched(old(hdr), LiveSet(old(hdr), B), old(mem), mem) && StaysPainted(debugPoison, old(hdr), old(mem), B, hdr, mem, B')
      ensures allocations == Bump(old(allocations)) && usedBytes == old(usedBytes) + requested && peakUsage == Peak(old(peakUsage), usedBytes)
    {
      hide StaysPainted;
      ghost var m, S := hdr, LiveSet(hdr, B);
      B' := Carve(offset, requested, needed, B);
      TotalGain(m, hdr, S, offset);
      usedBytes := usedBytes + requested;
      liveAllocations := liveAllocations + 1;
      allocations := Bump(allocations);
      if usedBytes > peakUsage { peakUsage := usedBytes; }
    }

    method PoisonNew(offset: nat, ghost S: set<nat>, ghost B: set<nat>)
      requires Context() && Sound(hdr, freeHead, mappedSize, B) && Accounts(B)
      requires offset in LiveSet(hdr, B) && S <= LiveSet(hdr, B) && offset !in S
      modifies this`hdr, this`mem
      ensures Sound(hdr, freeHead, mappedSize, B) && Accounts(B)
      ensures LiveSet(hdr, B) == LiveSet(old(hdr), B)
      ensures forall o | o in B :: At(hdr, o).requested == At(old(hdr), o).requested
      ensures SameUnits(old(hdr), hdr, B)
      ensures Untouched(old(hdr), S, old(mem), mem)
      ensures debugPoison ==> forall i: nat | InPayload(hdr, offset, i) :: ByteAt(mem, i) == 0xcd
      ensures StaysPainted(debugPoison, old(hdr), old(mem), B, hdr, mem, B)
    {
      hide Painted;
      assert Tile(hdr, B, mappedSize, offset);
      if debugPoison { FillInside(offset, offset + HEADER, offset + SizeAt(hdr, offset), 0xcd, B); }
    }

    method Allocate(requested: nat, needed: nat, allowGrowth: bool, granted: bool, ghost B: set<nat>)
      returns (offset: nat, ghost B': set<nat>)
      requires Context() && Sound(hdr, freeHead, mappedSize, B) && Accounts(B)
      requires 1 <= requested && HEADER + requested <= 16 * needed && MIN_BLOCK <= 16 * needed
      modifies this`hdr, this`freeHead, this`mappedSize, this`mem
      modifies this`usedBytes, this`liveAllocations, this`allocations, this`peakUsage
      ensures Context() && Sound(hdr, freeHead, mappedSize, B') && Accounts(B')
      ensures offset == NONE <==>
                && (forall o | o in FreeSet(old(hdr), B) :: At(old(hdr), o).units < needed)
                && !(allowGrowth && old(CanExtend(needed, granted)))
      ensures offset == NONE ==> unchanged(this) && mem == old(mem) && B' == B
      ensures (exists o :: o in FreeSet(old(hdr), B) && needed <= At(old(hdr), o).units) ==> mappedSize == old(mappedSize)
      ensures offset != NONE && (forall o | o in FreeSet(old(hdr), B) :: At(old(hdr), o).units < needed) ==> mappedSize == old(mappedSize + Growth(needed))
      ensures offset != NONE ==>
                && offset !in LiveSet(old(hdr), B)
                && LiveSet(hdr, B') == LiveSet(old(hdr), B) + {offset}
                && At(hdr, offset).requested == requested && SizeAt(hdr, offset) < 16 * needed + MIN_BLOCK
                && allocations == Bump(old(allocations))
                && (debugPoison ==> forall i: nat | InPayload(hdr, offset, i) :: ByteAt(mem, i) == 0xcd)
      ensures forall o | o in FreeSet(old(hdr), B) && o < offset :: At(old(hdr), o).units < needed
      ensures forall o | o in LiveSet(old(hdr), B) :: At(hdr, o).requested == At(old(hdr), o).requested
      ensures Untouched(old(hdr), LiveSet(old(hdr), B), old(mem), mem) && SameUnits(old(hdr), hdr, LiveSet(old(hdr), B))
      ensures StaysPainted(debugPoison, old(hdr), old(mem), B, hdr, mem, B')
      ensures offset != NONE ==> usedBytes == old(usedBytes) + requested && peakUsage == Peak(old(peakUsage), usedBytes)
    {
      hide Growth, Painted, Sound, CanExtend;
      ghost var m, S := hdr, LiveSet(hdr, B);
      offset, B' := FindOrGrow(needed, allowGrowth, granted, B);
      if offset == NONE { return; }
      ghost var n, b, C := hdr, mem, B';
      TotalFrame(m, n, S);
      B' := CarveCounted(offset, requested, needed, B');
      hide StaysPainted;
      PaintedTrans(debugPoison, m, old(mem), B, n, b, C, hdr, mem, B');
      UntouchedTrans(m, n, S, S, old(mem), b, mem);
      n, b := hdr, mem;
      PoisonNew(offset, S, B');
      PaintedTrans(debugPoison, m, old(mem), B, n, b, B', hdr, mem, B');
      UntouchedTrans(m, n, S, S, old(mem), b, mem);
    }

    /** Unlist the block before `offset` if it is free; `lo` is where the merged block will start. */
    method TakePrevious(offset: nat, ghost B: set<nat>) returns (lo: nat)
      requires Context() && Sound(hdr, freeHead, mappedSize, B) && offset in LiveSet(hdr, B)
      modifies this`hdr, this`freeHead
      ensures lo in B && lo <= offset
      ensures lo < offset ==> lo + SizeAt(hdr, lo) == offset
      ensures forall o | o in B && lo <= o < offset :: o == lo && !UsedAt(old(hdr), lo)
      ensures forall p | p in B && p + SizeAt(old(hdr), p) == lo :: UsedAt(old(hdr), p)
      ensures forall o {:trigger SameCore(old(hdr), hdr, o)} :: SameCore(old(hdr), hdr, o)
      ensures forall o {:trigger SameLinks(old(hdr), hdr, o)} | o !in FreeSet(old(hdr), B) :: SameLinks(old(hdr), hdr, o)
      ensures Linked(hdr, freeHead, Outside(FreeSet(old(hdr), B), lo, offset))
    {
      ghost var m, F := hdr, FreeSet(hdr, B);
      var previous := At(hdr, offset).prevSize;
      assert Tile(m, B, mappedSize, offset);
      lo := offset;
      if previous != 0 && !UsedAt(hdr, offset - previous) {
        lo := offset - previous;
        assert Tile(m, B, mappedSize, lo);
        RemoveFree(lo, F);
        assert SameCore(m, hdr, lo);
        assert F - {lo} == Outside(F, lo, offset);
        forall p | p in B && p + SizeAt(m, p) == lo ensures UsedAt(m, p) { assert Coalesced(m, B, p); }
      } else {
        assert F == Outside(F, lo, offset);
        forall p | p in B && p + SizeAt(m, p) == lo ensures UsedAt(m, p) { FollowerTag(m, B, mappedSize, p); }
      }
    }

    method Release(offset: nat, ghost B: set<nat>) returns (ghost B': set<nat>)
      requires Context() && Sound(hdr, freeHead, mappedSize, B) && Accounts(B) && offset in LiveSet(hdr, B)
      modifies this`hdr, this`freeHead, this`mem, this`usedBytes, this`liveAllocations, this`frees
      ensures Sound(hdr, freeHead, mappedSize, B') && Accounts(B')
      ensures LiveSet(hdr, B') == LiveSet(old(hdr), B) - {offset}
      ensures forall o | o in LiveSet(hdr, B') :: At(hdr, o).requested == At(old(hdr), o).requested
      ensures Untouched(old(hdr), LiveSet(hdr, B'), old(mem), mem) && SameUnits(old(hdr), hdr, LiveSet(hdr, B'))
      ensures frees == Bump(old(frees)) && usedBytes == old(usedBytes - At(hdr, offset).requested) && StaysPainted(debugPoison, old(hdr), old(mem), B, hdr, mem, B')
    {
      hide StaysPainted, Sound, Untouched, InPayload;
      ghost var m, S := hdr, LiveSet(hdr, B);
      TotalLoss(m, m, S, offset);
      usedBytes := usedBytes - At(hdr, offset).requested;
      liveAllocations := liveAllocations - 1;
      frees := Bump(frees);
      B' := MergeFree(offset, B);
      TotalLoss(m, hdr, S, offset);
    }

    /** Unlist the free neighbours of `offset`: with it they make one block of `units` up to `hi`. */
    method Detach(offset: nat, ghost B: set<nat>) returns (lo: nat, units: nat, ghost hi: nat)
      requires Context() && Sound(hdr, freeHead, mappedSize, B) && offset in LiveSet(hdr, B)
      modifies this`hdr, this`freeHead
      ensures lo in B && lo <= offset < hi == lo + 16 * units && MIN_BLOCK <= 16 * units
      ensures hi == mappedSize || (hi in B && UsedAt(old(hdr), hi) && hi < mappedSize)
      ensures forall o | o in LiveSet(old(hdr), B) && lo <= o < hi :: o == offset
      ensures forall p | p in B && p + SizeAt(old(hdr), p) == lo :: UsedAt(old(hdr), p)
      ensures forall o {:trigger SameCore(old(hdr), hdr, o)} :: SameCore(old(hdr), hdr, o)
      ensures forall o {:trigger SameLinks(old(hdr), hdr, o)} | o !in FreeSet(old(hdr), B) :: SameLinks(old(hdr), hdr, o)
      ensures Linked(hdr, freeHead, Outside(FreeSet(old(hdr), B), lo, hi))
    {
      hide NoAdjacentFree, UsedUnlinked, Linked;
      ghost var m, F := hdr, FreeSet(hdr, B);
      assert Tile(m, B, mappedSize, offset);
      lo := TakePrevious(offset, B);
      ghost var n := hdr;
      assert SameCore(m, n, offset) && SameCore(m, n, lo);
      var next := offset + SizeAt(hdr, offset);
      var extra := TakeNext(next, m, B, Outside(F, lo, offset));
      hi := next + 16 * extra;
      assert SameCore(m, hdr, offset) && SameCore(m, hdr, lo);
      forall o {:trigger SameLinks(m, hdr, o)} | o !in F ensures SameLinks(m, hdr, o) {
        assert SameLinks(m, n, o) && SameLinks(n, hdr, o);
      }
      assert Outside(Outside(F, lo, offset), next, hi) == Outside(F, lo, hi);
      units := At(hdr, offset).units + (if lo < offset then At(hdr, lo).units else 0) + extra;
      assert hi in B ==> Tile(m, B, mappedSize, hi);
    }

    /** Give the block at `offset` back, merged with its free neighbours on both sides. */
    method MergeFree(offset: nat, ghost B: set<nat>) returns (ghost B': set<nat>)
      requires Context() && Sound(hdr, freeHead, mappedSize, B) && offset in LiveSet(hdr, B)
      modifies this`hdr, this`freeHead, this`mem
      ensures Sound(hdr, freeHead, mappedSize, B')
      ensures LiveSet(hdr, B') == LiveSet(old(hdr), B) - {offset}
      ensures forall o | o in LiveSet(hdr, B') :: At(hdr, o).requested == At(old(hdr), o).requested
      ensures Untouched(old(hdr), LiveSet(hdr, B'), old(mem), mem) && SameUnits(old(hdr), hdr, LiveSet(hdr, B'))
      ensures StaysPainted(debugPoison, old(hdr), old(mem), B, hdr, mem, B')
    {
      hide StaysPainted;
      ghost var m := hdr;
      ghost var hi: nat;
      var lo, units;
      lo, units, hi := Detach(offset, B);
      assert hi == mappedSize ==> hi !in B by {
        if hi in B { assert Tile(m, B, mappedSize, hi); }
      }
      RefitFree(lo, units, hi, m, old(freeHead), mappedSize, B);
      B' := Recut(B, lo, hi, {});
      assert Outside(LiveSet(m, B), lo, hi) == LiveSet(m, B) - {offset};
      UntouchedOutside(m, B, mappedSize, lo, lo, hi, LiveSet(hdr, B'), old(mem), mem);
    }

    // -------------------------------------------------------------- resizing

    /** Absorb the free successor of the used block at `offset` if together they reach `needed` units. */
    method ConsumeNext(offset: nat, needed: nat, ghost B: set<nat>) returns (ok: bool, ghost B': set<nat>)
      requires Context() && Sound(hdr, freeHead, mappedSize, B) && offset in LiveSet(hdr, B)
      requires At(hdr, offset).units < needed
      modifies this`hdr, this`freeHead
      ensures ok <==> old(CanConsume(offset, needed, B))
      ensures !ok ==> hdr == old(hdr) && freeHead == old(freeHead) && B' == B
      ensures Sound(hdr, freeHead, mappedSize, B') && LiveSet(hdr, B') == LiveSet(old(hdr), B)
      ensures forall o | o in LiveSet(hdr, B') :: At(hdr, o).requested == At(old(hdr), o).requested
      ensures ok ==> needed <= At(hdr, offset).units
      ensures SameUnits(old(hdr), hdr, LiveSet(old(hdr), B) - {offset}) && StaysPainted(debugPoison, old(hdr), old(mem), B, hdr, mem, B')
    {
      hide Painted;
      ghost var m := hdr;
      B', ok := B, false;
      var current := At(hdr, offset).units;
      var next := offset + 16 * current;
      assert Tile(m, B, mappedSize, offset) && (next in B ==> Tile(m, B, mappedSize, next));
      if next == mappedSize || UsedAt(hdr, next) || At(hdr, next).units < needed - current { return; }
      ok := true;
      B' := Absorb(offset, B);
    }

    ghost predicate CanConsume(offset: nat, needed: nat, B: set<nat>)
      reads this
    {
      var next := offset + SizeAt(hdr, offset);
      next in FreeSet(hdr, B) && needed <= At(hdr, offset).units + At(hdr, next).units
    }

    method Absorb(offset: nat, ghost B: set<nat>) returns (ghost B': set<nat>)
      requires Context() && Sound(hdr, freeHead, mappedSize, B) && offset in LiveSet(hdr, B)
      requires offset + SizeAt(hdr, offset) in FreeSet(hdr, B)
      modifies this`hdr, this`freeHead
      ensures Sound(hdr, freeHead, mappedSize, B') && LiveSet(hdr, B') == LiveSet(old(hdr), B)
      ensures forall o | o in LiveSet(hdr, B') :: At(hdr, o).requested == At(old(hdr), o).requested
      ensures At(hdr, offset).units == old(At(hdr, offset).units + At(hdr, offset + SizeAt(hdr, offset)).units)
      ensures SameUnits(old(hdr), hdr, LiveSet(old(hdr), B) - {offset})
      ensures StaysPainted(debugPoison, old(hdr), old(mem), B, hdr, mem, B')
    {
      hide StaysPainted, PaintedAt;
      ghost var m, F := hdr, FreeSet(hdr, B);
      var next := offset + SizeAt(hdr, offset);
      assert Tile(m, B, mappedSize, offset) && Tile(m, B, mappedSize, next) && Bare(m, offset);
      var combined := At(hdr, offset).units + At(hdr, next).units;
      ghost var hi := offset + 16 * combined;
      assert F - {next} == Outside(F, offset, hi) && Outside(LiveSet(m, B), offset, hi) + {offset} == LiveSet(m, B);
      assert hi in B ==> Tile(m, B, mappedSize, hi);
      RemoveFree(next, F);
      ghost var n := hdr;
      assert SameCore(m, n, offset) && SameLinks(m, n, offset);
      hdr := hdr[offset := At(hdr, offset).(units := combined, used := true)];
      FollowingPrevious(offset, 16 * combined);
      OccupySound(m, old(freeHead), mappedSize, B, n, freeHead, offset, hi, hdr);
      B' := Recut(B, offset, hi, {});
      OccupyPainted(debugPoison, m, mem, B, mappedSize, hdr, offset, hi);
    }

    /** Record a new requested size that the block can hold. */
    method SetRequested(offset: nat, size: nat, ghost B: set<nat>)
      requires Context() && Sound(hdr, freeHead, mappedSize, B) && offset in LiveSet(hdr, B)
      requires 1 <= size <= SizeAt(hdr, offset) - HEADER
      modifies this`hdr
      ensures Sound(hdr, freeHead, mappedSize, B) && LiveSet(hdr, B) == LiveSet(old(hdr), B)
      ensures forall o | o != offset :: At(hdr, o) == At(old(hdr), o)
      ensures At(hdr, offset) == At(old(hdr), offset).(requested := size)
      ensures StaysPainted(debugPoison, old(hdr), old(mem), B, hdr, mem, B)
    {
      hide StaysPainted, PaintedAt;
      ghost var m, hi, F := hdr, offset + SizeAt(hdr, offset), FreeSet(hdr, B);
      assert Tile(m, B, mappedSize, offset) && Bare(m, offset);
      hdr := hdr[offset := At(hdr, offset).(requested := size)];
      if hi in B { FollowerTag(m, B, mappedSize, offset); }
      assert F == Outside(F, offset, hi);
      OccupySound(m, freeHead, mappedSize, B, m, freeHead, offset, hi, hdr);
      assert Recut(B, offset, hi, {}) == B;
      assert Outside(LiveSet(m, B), offset, hi) + {offset} == LiveSet(m, B);
      OccupyPainted(debugPoison, m, mem, B, mappedSize, hdr, offset, hi);
    }

    method ResizeBlock(offset: nat, size: nat, needed: nat, ghost B: set<nat>) returns (ghost B': set<nat>)
      requires Context() && Sound(hdr, freeHead, mappedSize, B) && Accounts(B) && offset in LiveSet(hdr, B)
      requires 1 <= size && HEADER + size <= 16 * needed && MIN_BLOCK <= 16 * needed <= SizeAt(hdr, offset)
      modifies this`hdr, this`freeHead, this`mem, this`usedBytes, this`peakUsage
      ensures Sound(hdr, freeHead, mappedSize, B') && Accounts(B') && LiveSet(hdr, B') == LiveSet(old(hdr), B)
      ensures At(hdr, offset).requested == size && SizeAt(hdr, offset) < 16 * needed + MIN_BLOCK
      ensures SameUnits(old(hdr), hdr, LiveSet(old(hdr), B) - {offset})
      ensures forall o | o in LiveSet(hdr, B') && o != offset :: At(hdr, o).requested == At(old(hdr), o).requested
      ensures Untouched(old(hdr), LiveSet(old(hdr), B) - {offset}, old(mem), mem)
      ensures forall i: nat | InPayload(old(hdr), offset, i) && InPayload(hdr, offset, i) :: ByteAt(mem, i) == ByteAt(old(mem), i)
      ensures debugPoison ==> forall i: nat | InPayload(hdr, offset, i) && !InPayload(old(hdr), offset, i) :: ByteAt(mem, i) == 0xcd
      ensures Slack(debugPoison, hdr, mem, offset)
      ensures StaysPainted(debugPoison, old(hdr), old(mem), B, hdr, mem, B')
      ensures usedBytes == old(usedBytes - At(hdr, offset).requested) + size && peakUsage == Peak(old(peakUsage), usedBytes)
    {
      hide StaysPainted, Sound, Slack;
      ghost var m, S := hdr, LiveSet(hdr, B);
      var oldRequested := At(hdr, offset).requested;
      TotalChange(m, m, S, offset);
      usedBytes := usedBytes - oldRequested + size;
      SetRequested(offset, size, B);
      ghost var n := hdr;
      B' := TrimBlock(offset, needed, B);
      PaintedTrans(debugPoison, m, old(mem), B, n, old(mem), B, hdr, mem, B');
      TotalChange(m, hdr, S, offset);
      if usedBytes > peakUsage { peakUsage := usedBytes; }
      ghost var h, b := hdr, mem;
      PoisonResized(offset, oldRequested, size, B');
      PaintedTrans(debugPoison, m, old(mem), B, h, b, B', hdr, mem, B');
      forall o, i: nat | o in S - {offset} && InPayload(m, o, i) ensures ByteAt(mem, i) == ByteAt(old(mem), i) {
        assert InPayload(n, o, i) && InPayload(h, o, i);
      }
      forall i: nat | InPayload(m, offset, i) && InPayload(hdr, offset, i) ensures ByteAt(mem, i) == ByteAt(old(mem), i) {
        assert InPayload(n, offset, i);
      }
    }

    method PoisonResized(offset: nat, oldRequested: nat, size: nat, ghost B: set<nat>)
      requires Context() && Sound(hdr, freeHead, mappedSize, B) && Accounts(B) && offset in LiveSet(hdr, B)
      requires At(hdr, offset).requested == size
      modifies this`hdr, this`mem
      ensures Sound(hdr, freeHead, mappedSize, B) && Accounts(B) && LiveSet(hdr, B) == LiveSet(old(hdr), B)
      ensures forall o | o in B :: At(hdr, o).requested == At(old(hdr), o).requested
      ensures SameUnits(old(hdr), hdr, B)
      ensures Untouched(old(hdr), LiveSet(old(hdr), B) - {offset}, old(mem), mem)
      ensures forall i: nat | offset + HEADER <= i < offset + HEADER + oldRequested && i < offset + HEADER + size ::
                ByteAt(mem, i) == ByteAt(old(mem), i)
      ensures debugPoison ==> forall i: nat | offset + HEADER + oldRequested <= i < offset + HEADER + size :: ByteAt(mem, i) == 0xcd
      ensures Slack(debugPoison, hdr, mem, offset)
      ensures StaysPainted(debugPoison, old(hdr), old(mem), B, hdr, mem, B)
    {
      hide Painted;
      if debugPoison {
        ghost var m := hdr;
        var payload := offset + HEADER;
        assert Tile(m, B, mappedSize, offset);
        if size > oldRequested { FillInside(offset, payload + oldRequested, payload + size, 0xcd, B); }
        ghost var n, b := hdr, mem;
        FillInside(offset, payload + size, offset + SizeAt(hdr, offset), 0xdd, B);
        UntouchedTrans(m, n, LiveSet(m, B) - {offset}, LiveSet(n, B) - {offset}, old(mem), b, mem);
        PaintedTrans(debugPoison, m, old(mem), B, n, b, B, hdr, mem, B);
      }
    }

    // -------------------------------------------------------------- the public interface

    ghost function Blocks(): set<nat>
      reads this
    {
      Starts(hdr, 0, mappedSize)
    }

    /** What `heap_core_validate` accepts. */
    ghost predicate WellFormed()
      reads this
    {
      Context() && Sound(hdr, freeHead, mappedSize, Blocks()) && Accounts(Blocks())
    }

    /** The heap as its clients know it: the bytes of every live allocation, by handle. */
    ghost function Live(): map<nat, seq<byte>>
      reads this
    {
      LiveMap(hdr, mem, LiveSet(hdr, Blocks()))
    }

    /** No live block is a minimal block or more beyond its rounded request. */
    ghost predicate Frugal()
      reads this
    {
      Economical(hdr, LiveSet(hdr, Blocks()))
    }

    /** In debug mode every payload byte of every free block is marked, so that a stray store into freed memory shows. */
    ghost predicate Shaded()
      reads this
    {
      debugPoison ==> Painted(hdr, mem, Blocks())
    }

    /** The block offset a payload address stands for. */
    function Handle(p: nat): int
      reads this
    {
      p - base - HEADER
    }

    /** The single pass over the arena decides well-formedness exactly. */
    method Validate() returns (ok: bool)
      ensures ok <==> WellFormed()
    {
      if !Context() { return false; }
      var s := Pass(0, 0, NONE, freeHead, false, 0, 0);
      ghost var V: set<nat> := {};
      while s.offset < mappedSize
        invariant OnTrack(hdr, freeHead, mappedSize, V, s)
        decreases mappedSize - s.offset
      {
        if WellFormed() { SoundOnTrack(hdr, freeHead, mappedSize, V, s); }
        if !BlockPasses(hdr, mappedSize, s) { return false; }
        StaysOnTrack(hdr, freeHead, mappedSize, V, s);
        V := V + {s.offset};
        s := Advance(hdr, s);
      }
      assert V == Blocks();
      if WellFormed() { SoundOnTrack(hdr, freeHead, mappedSize, V, s); }
      ok := s.requested == usedBytes && s.live == liveAllocations && s.requested <= peakUsage && s.current == NONE;
      if ok { WalkEnds(hdr, freeHead, V, mappedSize, s.previous, s.prior, s.previousFree); }
    }

    /** Nothing but the two failure counters differs from before. */
    twostate predicate Intact()
      reads this
    {
      && hdr == old(hdr) && mem == old(mem) && freeHead == old(freeHead) && mappedSize == old(mappedSize)
      && usedBytes == old(usedBytes) && liveAllocations == old(liveAllocations)
      && allocations == old(allocations) && frees == old(frees) && peakUsage == old(peakUsage)
    }

    /** Some free block has `needed` units. */
    ghost predicate Fits(needed: nat)
      reads this
    {
      exists o :: o in FreeSet(hdr, Blocks()) && needed <= At(hdr, o).units
    }

    /** Some free block, or the arena's growth, can satisfy `needed` units. */
    ghost predicate Satisfiable(needed: nat, granted: bool)
      reads this
    {
      Fits(needed) || CanExtend(needed, granted)
    }

    method FailedAllocation()
      modifies this`failedAllocations
      ensures failedAllocations == if initialized then Bump(old(failedAllocations)) else old(failedAllocations)
      ensures Intact() && WellFormed() == old(WellFormed()) && Live() == old(Live()) && Frugal() == old(Frugal()) && Shaded() == old(Shaded())
    {
      if initialized { failedAllocations := Bump(failedAllocations); }
    }

    /** Allocate on a well-formed heap, seen by the client. */
    method TakeBlock(size: nat, allowGrowth: bool, granted: bool) returns (p: nat)
      requires WellFormed() && Representable(size)
      modifies this`hdr, this`freeHead, this`mappedSize, this`mem, this`usedBytes, this`liveAllocations,
               this`allocations, this`peakUsage
      ensures WellFormed()
      ensures p != 0 <==> old(Fits(Needed(size))) || (allowGrowth && old(CanExtend(Needed(size), granted)))
      ensures p == 0 ==> Intact()
      ensures (old(Frugal()) ==> Frugal()) && (old(Shaded()) ==> Shaded())
      ensures p != 0 ==>
                && p >= base + HEADER && Handle(p) !in old(Live()) && Handle(p) in Live()
                && |Live()[Handle(p)]| == size && Tight(hdr, Handle(p))
                && mappedSize == old(mappedSize) + (if old(Fits(Needed(size))) then 0 else old(Growth(Needed(size))))
                && Live() == old(Live())[Handle(p) := Live()[Handle(p)]]
                && allocations == Bump(old(allocations)) && usedBytes == old(usedBytes) + size && peakUsage == Peak(old(peakUsage), usedBytes)
                && Stamped(debugPoison, [], Live()[Handle(p)])
    {
      hide Painted, Sound, LiveMap, LiveSet, Untouched, Payload, InPayload, Starts, FreeSet;
      ghost var m, b, B, S := hdr, mem, Blocks(), LiveSet(hdr, Blocks());
      NeededFits(size);
      var offset;
      ghost var B';
      offset, B' := Allocate(size, Needed(size), allowGrowth, granted, B);
      assert Starts(hdr, 0, mappedSize) == B' by { SoundStarts(hdr, freeHead, mappedSize, B'); }
      if offset == NONE { return 0; }
      LiveMapGain(m, hdr, b, mem, S, offset);
      LiveMapKeys(m, b, S);
      NeededTight(hdr, offset, size);
      TightMore(m, hdr, S, offset);
      assert S - {offset} == S;
      PayloadPoisoned(hdr, mem, offset, debugPoison);
      p := base + offset + HEADER;
    }

    /** heap_core_alloc; `granted` is what the growth callback answers if it is asked. */
    method Alloc(size: nat, granted: bool) returns (p: nat)
      modifies this`hdr, this`freeHead, this`mappedSize, this`mem, this`usedBytes, this`liveAllocations,
               this`allocations, this`peakUsage, this`failedAllocations
      ensures p != 0 <==> old(WellFormed()) && Representable(size) && old(Satisfiable(Needed(size), granted))
      ensures p == 0 ==> Intact()
      ensures (old(WellFormed() && Frugal()) ==> Frugal()) && (old(WellFormed() && Shaded()) ==> Shaded())
      ensures failedAllocations == if p == 0 && size != 0 && initialized then Bump(old(failedAllocations)) else old(failedAllocations)
      ensures old(WellFormed()) ==> WellFormed()
      ensures p != 0 ==>
                && p >= base + HEADER && Handle(p) !in old(Live()) && Handle(p) in Live()
                && |Live()[Handle(p)]| == size && Tight(hdr, Handle(p))
                && mappedSize == old(mappedSize) + (if old(Fits(Needed(size))) then 0 else old(Growth(Needed(size))))
                && Live() == old(Live())[Handle(p) := Live()[Handle(p)]]
                && allocations == Bump(old(allocations)) && usedBytes == old(usedBytes) + size && peakUsage == Peak(old(peakUsage), usedBytes)
                && Stamped(debugPoison, [], Live()[Handle(p)])
    {
      hide Stamped, Painted;
      if size == 0 { return 0; }
      var valid := Validate();
      if !valid || size > SIZE_MAX - (HEADER + 15) {
        FailedAllocation();
        return 0;
      }
      p := TakeBlock(size, true, granted);
      if p == 0 { FailedAllocation(); }
    }

    /** memset inside one allocation's payload, seen by the client. */
    method FillLive(offset: nat, from: nat, to: nat, value: byte, ghost B: set<nat>)
      requires Context() && Sound(hdr, freeHead, mappedSize, B) && Accounts(B)
      requires offset in LiveSet(hdr, B) && from <= to <= At(hdr, offset).requested
      modifies this`hdr, this`mem
      ensures Sound(hdr, freeHead, mappedSize, B) && Accounts(B)
      ensures Economical(old(hdr), LiveSet(old(hdr), B)) ==> Economical(hdr, LiveSet(hdr, B))
      ensures LiveSet(hdr, B) == LiveSet(old(hdr), B) && SameUnits(old(hdr), hdr, B) && forall o | o in B :: At(hdr, o).requested == At(old(hdr), o).requested
      ensures var L := LiveMap(old(hdr), old(mem), LiveSet(old(hdr), B));
              LiveMap(hdr, mem, LiveSet(hdr, B)) == L[offset := Overwritten(L[offset], from, to, value)]
      ensures StaysPainted(debugPoison, old(hdr), old(mem), B, hdr, mem, B)
    {
      hide StaysPainted;
      ghost var m := hdr;
      assert Tile(m, B, mappedSize, offset);
      FillInside(offset, offset + HEADER + from, offset + HEADER + to, value, B);
      LiveMapFilled(m, hdr, old(mem), mem, LiveSet(m, B), offset, from, to, value);
      TightKept(m, hdr, LiveSet(m, B));
    }

    /** Overwrite part of one live allocation, as the client's own stores do. */
    method Store(p: nat, from: nat, to: nat, value: byte)
      requires WellFormed() && Handle(p) in Live() && from <= to <= |Live()[Handle(p)]|
      modifies this`hdr, this`mem
      ensures WellFormed() && (old(Frugal()) ==> Frugal()) && (old(Tight(hdr, Handle(p))) ==> Tight(hdr, Handle(p))) && (old(Shaded()) ==> Shaded())
      ensures Live() == old(Live())[Handle(p) := Overwritten(old(Live()[Handle(p)]), from, to, value)]
    {
      hide Painted;
      ghost var B := Blocks();
      FillLive(p - base - HEADER, from, to, value, B);
      StartsIsShape(hdr, B, mappedSize);
    }

    /** heap_core_calloc: the product is checked, the block cleared. */
    method Calloc(count: nat, size: nat, granted: bool) returns (p: nat)
      modifies this`hdr, this`freeHead, this`mappedSize, this`mem, this`usedBytes, this`liveAllocations,
               this`allocations, this`peakUsage, this`failedAllocations
      ensures p != 0 <==> old(WellFormed()) && Representable(count * size) && old(Satisfiable(Needed(count * size), granted))
      ensures p == 0 ==> Intact()
      ensures (old(WellFormed() && Frugal()) ==> Frugal()) && (old(WellFormed() && Shaded()) ==> Shaded())
      ensures failedAllocations ==
                if p == 0 && count * size != 0 && initialized then Bump(old(failedAllocations)) else old(failedAllocations)
      ensures old(WellFormed()) ==> WellFormed()
      ensures p != 0 ==>
                && p >= base + HEADER && Handle(p) !in old(Live()) && Tight(hdr, Handle(p))
                && mappedSize == old(mappedSize) + (if old(Fits(Needed(count * size))) then 0 else old(Growth(Needed(count * size))))
                && Live() == old(Live())[Handle(p) := Zeros(count * size)]
    {
      hide WellFormed, Live, Growth, Frugal, Tight, Fits, CanExtend, Shaded, Stamped;
      ProductBound(count, size);
      if count == 0 || size == 0 { return 0; }
      if count > SIZE_MAX / size {
        FailedAllocation();
        return 0;
      }
      p := Alloc(count * size, granted);
      if p != 0 {
        OverwrittenWhole(Live()[Handle(p)]);
        Store(p, 0, count * size, 0);
      }
    }

    /** The handle of a live pointer, or NONE for anything else: foreign, interior, stale or misaligned. */
    method PointerOffset(p: nat) returns (offset: nat)
      requires WellFormed()
      ensures offset == if Handle(p) in Live() then Handle(p) else NONE
      ensures Handle(p) in Live() ==> Handle(p) < NONE
    {
      ghost var B := Blocks();
      forall o | o in B ensures o % 16 == 0 && o + MIN_BLOCK <= mappedSize {
        StartsAligned(hdr, B, mappedSize, o);
        assert Tile(hdr, B, mappedSize, o);
      }
      if p < base || p - base < HEADER || p - base >= mappedSize || p % 16 != 0 { return NONE; }
      var found := ExactBlock(p - base - HEADER, B);
      if found && UsedAt(hdr, p - base - HEADER) { return p - base - HEADER; }
      return NONE;
    }

    /** A client store, made only when it stays inside a live allocation. */
    method StoreChecked(p: nat, from: nat, to: nat, value: byte) returns (ok: bool)
      requires WellFormed()
      modifies this`hdr, this`mem
      ensures WellFormed() && (old(Frugal()) ==> Frugal()) && (old(Shaded()) ==> Shaded())
      ensures ok <==> Handle(p) in old(Live()) && from <= to <= |old(Live())[Handle(p)]|
      ensures !ok ==> Intact()
      ensures ok ==> Live() == old(Live())[Handle(p) := Overwritten(old(Live()[Handle(p)]), from, to, value)]
    {
      var offset := PointerOffset(p);
      ok := offset != NONE && from <= to <= At(hdr, offset).requested;
      if ok { Store(p, from, to, value); }
    }

    /** heap_core_free: succeeds exactly on NULL and on live pointers. */
    method Free(p: nat) returns (ok: bool)
      modifies this`hdr, this`freeHead, this`mem, this`usedBytes, this`liveAllocations, this`frees, this`invalidFrees
      ensures ok <==> p == 0 || (old(WellFormed()) && Handle(p) in old(Live()))
      ensures !ok || p == 0 ==> Intact()
      ensures (old(WellFormed() && Frugal()) ==> Frugal()) && (old(WellFormed() && Shaded()) ==> Shaded())
      ensures invalidFrees == if !ok && initialized then Bump(old(invalidFrees)) else old(invalidFrees)
      ensures old(WellFormed()) ==> WellFormed()
      ensures ok && p != 0 ==> Live() == old(Live()) - {Handle(p)} && frees == Bump(old(frees)) && usedBytes == old(usedBytes) - |old(Live())[Handle(p)]|
    {
      hide Painted;
      if p == 0 { return true; }
      var valid := Validate();
      if !valid {
        if initialized { invalidFrees := Bump(invalidFrees); }
        return false;
      }
      var offset := PointerOffset(p);
      if offset == NONE {
        invalidFrees := Bump(invalidFrees);
        return false;
      }
      ReleaseLive(offset);
      return true;
    }

    /** Release a live block, seen by the client. */
    method ReleaseLive(offset: nat)
      requires WellFormed() && offset in Live()
      modifies this`hdr, this`freeHead, this`mem, this`usedBytes, this`liveAllocations, this`frees
      ensures WellFormed() && Live() == old(Live()) - {offset} && frees == Bump(old(frees)) && usedBytes == old(usedBytes) - |old(Live())[offset]|
      ensures (old(Shaded()) ==> Shaded()) && (old(Frugal()) ==> Frugal()) && forall o {:trigger Tight(hdr, o)} | o in Live() && old(Tight(hdr, o)) :: Tight(hdr, o)
    {
      hide Painted;
      ghost var m, b, S := hdr, mem, LiveSet(hdr, Blocks());
      ghost var B' := Release(offset, Blocks());
      StartsIsShape(hdr, B', mappedSize);
      LiveMapLoss(m, hdr, b, mem, S, offset);
      TightKept(m, hdr, S - {offset});
    }

    /** memcpy into one allocation's block: only that block's bytes change. */
    method CopyInside(to: nat, src: nat, count: nat, ghost B: set<nat>)
      requires Context() && Sound(hdr, freeHead, mappedSize, B) && Accounts(B)
      requires to in B && HEADER + count <= SizeAt(hdr, to)
      modifies this`hdr, this`mem
      ensures Sound(hdr, freeHead, mappedSize, B) && Accounts(B) && LiveSet(hdr, B) == LiveSet(old(hdr), B)
      ensures forall o | o in B :: At(hdr, o) == At(old(hdr), o)
      ensures IsCopy(old(mem), mem, to + HEADER, src, count)
      ensures Untouched(old(hdr), LiveSet(old(hdr), B) - {to}, old(mem), mem)
      ensures UsedAt(old(hdr), to) ==> StaysPainted(debugPoison, old(hdr), old(mem), B, hdr, mem, B)
    {
      hide StaysPainted, PaintedAt;
      ghost var m := hdr;
      mem := Copied(mem, to + HEADER, src, count);
      hdr := Smashed(hdr, to + HEADER, to + HEADER + count);
      InsideWrite(m, hdr, freeHead, mappedSize, B, to, to + HEADER, to + HEADER + count, old(mem), mem);
      assert Tile(m, B, mappedSize, to);
      if UsedAt(m, to) { PaintKept(debugPoison, m, old(mem), B, mappedSize, hdr, mem, B, to, to + SizeAt(m, to), to + HEADER, to + HEADER + count); }
    }

    /** Copy one allocation's leading bytes to another, seen by the client. */
    method CopyLive(from: nat, to: nat, ghost B: set<nat>)
      requires Context() && Sound(hdr, freeHead, mappedSize, B) && Accounts(B)
      requires from in LiveSet(hdr, B) && to in LiveSet(hdr, B) && from != to
      modifies this`hdr, this`mem
      ensures Sound(hdr, freeHead, mappedSize, B) && Accounts(B) && LiveSet(hdr, B) == LiveSet(old(hdr), B)
      ensures SameUnits(old(hdr), hdr, B) && forall o | o in B :: At(hdr, o).requested == At(old(hdr), o).requested
      ensures var L := LiveMap(old(hdr), old(mem), LiveSet(old(hdr), B));
              var L' := LiveMap(hdr, mem, LiveSet(hdr, B));
              L' == L[to := L'[to]] && |L'[to]| == |L[to]| && Preserves(L[from], L'[to])
              && (Stamped(debugPoison, [], L[to]) ==> Stamped(debugPoison, L[from], L'[to]))
      ensures StaysPainted(debugPoison, old(hdr), old(mem), B, hdr, mem, B)
    {
      hide StaysPainted;
      ghost var m, b, S := hdr, mem, LiveSet(hdr, B);
      assert Tile(m, B, mappedSize, to);
      var count := if At(hdr, from).requested < At(hdr, to).requested then At(hdr, from).requested else At(hdr, to).requested;
      var src := from + HEADER;
      CopyInside(to, src, count, B);
      LiveMapChange(m, hdr, b, mem, S, to);
      PayloadCopied(m, hdr, b, mem, from, src, to, count, debugPoison);
    }

    /** Give a live block a new size it already has room for, seen by the client. */
    method ResizeLive(offset: nat, size: nat, ghost B: set<nat>)
      requires Context() && Sound(hdr, freeHead, mappedSize, B) && Accounts(B)
      requires offset in LiveSet(hdr, B) && Representable(size) && Needed(size) <= At(hdr, offset).units
      modifies this`hdr, this`freeHead, this`mem, this`usedBytes, this`peakUsage
      ensures WellFormed() && Tight(hdr, offset) && Slack(debugPoison, hdr, mem, offset) && usedBytes == old(usedBytes - At(hdr, offset).requested) + size && peakUsage == Peak(old(peakUsage), usedBytes)
      ensures Economical(old(hdr), LiveSet(old(hdr), B) - {offset}) ==> Frugal()
      ensures Resized(LiveMap(old(hdr), old(mem), LiveSet(old(hdr), B)), Live(), offset, size, debugPoison)
      ensures debugPoison && Painted(old(hdr), old(mem), B) ==> Painted(hdr, mem, Blocks())
    {
      hide Painted, Slack;
      ghost var m, b, S := hdr, mem, LiveSet(hdr, B);
      NeededFits(size);
      ghost var B' := ResizeBlock(offset, size, Needed(size), B);
      StartsIsShape(hdr, B', mappedSize);
      LiveMapChange(m, hdr, b, mem, S, offset);
      PayloadPreserved(m, hdr, b, mem, offset);
      PayloadStamped(m, hdr, b, mem, offset, debugPoison);
      NeededTight(hdr, offset, size);
      TightMore(m, hdr, S, offset);
      assert S + {offset} == S;
    }

    /** Absorb the free successor and resize, if that is enough. */
    method ResizeIntoNext(offset: nat, size: nat, ghost B: set<nat>) returns (ok: bool)
      requires Context() && Sound(hdr, freeHead, mappedSize, B) && Accounts(B)
      requires offset in LiveSet(hdr, B) && Representable(size) && At(hdr, offset).units < Needed(size)
      modifies this`hdr, this`freeHead, this`mem, this`usedBytes, this`peakUsage
      ensures ok <==> old(CanConsume(offset, Needed(size), B))
      ensures !ok ==> Intact()
      ensures ok ==> && WellFormed() && Tight(hdr, offset) && Slack(debugPoison, hdr, mem, offset) && usedBytes == old(usedBytes - At(hdr, offset).requested) + size && peakUsage == Peak(old(peakUsage), usedBytes)
                     && (Economical(old(hdr), LiveSet(old(hdr), B)) ==> Frugal())
                     && Resized(LiveMap(old(hdr), old(mem), LiveSet(old(hdr), B)), Live(), offset, size, debugPoison)
                     && (debugPoison && Painted(old(hdr), old(mem), B) ==> Painted(hdr, mem, Blocks()))
    {
      hide Painted, Resized, Slack;
      ghost var m, S := hdr, LiveSet(hdr, B);
      ghost var B';
      ok, B' := ConsumeNext(offset, Needed(size), B);
      if ok {
        TotalFrame(m, hdr, S);
        TightKept(m, hdr, S - {offset});
        LiveMapFrame(m, hdr, mem, mem, S);
        ResizeLive(offset, size, B');
      }
    }

    /** The block at `o` ends the arena, or only a free block follows it. */
    ghost predicate AtTail(o: nat, B: set<nat>)
      reads this
    {
      var next := o + SizeAt(hdr, o);
      next == mappedSize || (next in FreeSet(hdr, B) && next + SizeAt(hdr, next) == mappedSize)
    }

    /** Grow the arena just enough for the last allocation to expand in place. */
    method ResizeByGrowing(offset: nat, size: nat, granted: bool, ghost B: set<nat>) returns (ok: bool)
      requires Context() && Sound(hdr, freeHead, mappedSize, B) && Accounts(B)
      requires offset in LiveSet(hdr, B) && Representable(size) && At(hdr, offset).units < Needed(size)
      requires AtTail(offset, B)
      modifies this`hdr, this`freeHead, this`mappedSize, this`mem, this`usedBytes, this`peakUsage
      ensures ok <==> old(CanExtend(Needed(size) - At(hdr, offset).units, granted))
      ensures ok ==> mappedSize == old(mappedSize + Growth(Needed(size) - At(hdr, offset).units))
      ensures !ok ==> Intact()
      ensures ok ==> && WellFormed() && Tight(hdr, offset) && Slack(debugPoison, hdr, mem, offset) && usedBytes == old(usedBytes - At(hdr, offset).requested) + size && peakUsage == Peak(old(peakUsage), usedBytes)
                     && (Economical(old(hdr), LiveSet(old(hdr), B)) ==> Frugal())
                     && Resized(LiveMap(old(hdr), old(mem), LiveSet(old(hdr), B)), Live(), offset, size, debugPoison)
                     && (debugPoison && Painted(old(hdr), old(mem), B) ==> Painted(hdr, mem, Blocks()))
    {
      hide Painted, Resized, StaysPainted, Slack;
      ghost var m, b, S := hdr, mem, LiveSet(hdr, B);
      ghost var B', tail;
      TailIs(m, freeHead, mappedSize, B, offset);
      hide Sound, LiveMap, LiveSet, Untouched, Payload, InPayload, Starts, FreeSet, LastStart, Growth, CanExtend, WellFormed, Live, Frugal, Tight, Economical;
      ok, B', tail := GrowHeap(Needed(size) - At(hdr, offset).units, granted, B);
      if ok {
        TotalFrame(m, hdr, S);
        TightKept(m, hdr, S);
        LiveMapFrame(m, hdr, b, mem, S);
        assert SizeAt(hdr, offset) == SizeAt(m, offset) && tail == offset + SizeAt(hdr, offset);
        assert CanConsume(offset, Needed(size), B');
        hide CanConsume, SameUnits, AtTail;
        ghost var painted := debugPoison && Painted(old(hdr), old(mem), B);
        assert painted ==> Painted(hdr, mem, B') by { PaintedSo(debugPoison, m, b, B, hdr, mem, B'); }
        ok := ResizeIntoNext(offset, size, B');
      }
    }

    /** Move an allocation's leading bytes to the block at `to` and release it. */
    method MoveLive(from: nat, to: nat)
      requires WellFormed() && from in Live() && to in Live() && from != to
      modifies this`hdr, this`freeHead, this`mem, this`usedBytes, this`liveAllocations, this`frees
      ensures WellFormed() && frees == Bump(old(frees)) && (old(Frugal()) ==> Frugal()) && (old(Tight(hdr, to)) ==> Tight(hdr, to))
      ensures to in Live() && |Live()[to]| == |old(Live()[to])| && Preserves(old(Live()[from]), Live()[to])
      ensures (old(Shaded()) ==> Shaded()) && (old(Stamped(debugPoison, [], Live()[to])) ==> Stamped(debugPoison, old(Live()[from]), Live()[to]))
      ensures usedBytes == old(usedBytes) - |old(Live()[from])|
      ensures Live() == Replaced(old(Live()), from, to, Live()[to])
    {
      hide Painted, Stamped, LiveMap, Untouched, Payload, InPayload, Starts, Sound;
      ghost var B, L := Blocks(), Live();
      LiveMapKeys(hdr, mem, LiveSet(hdr, B));
      CopyLive(from, to, B);
      assert Starts(hdr, 0, mappedSize) == B by { SoundStarts(hdr, freeHead, mappedSize, B); }
      TightKept(old(hdr), hdr, LiveSet(hdr, B));
      LiveMapKeys(hdr, mem, LiveSet(hdr, B));
      ghost var L' := Live();
      ReleaseLive(from);
      MovedView(L, L', from, to);
    }

    /** Exactly when a live block can be given a new size. */
    ghost predicate Resizable(o: nat, size: nat, granted: bool)
      reads this
    {
      var B, current, needed := Blocks(), At(hdr, o).units, Needed(size);
      needed <= current || CanConsume(o, needed, B) || Movable(o, needed, granted)
    }

    /** A free block fits, or the arena can grow: in place at the tail, elsewhere for a whole new block. */
    ghost predicate Movable(o: nat, needed: nat, granted: bool)
      reads this
    {
      || Fits(needed)
      || (if AtTail(o, Blocks()) then
            At(hdr, o).units <= needed && CanExtend(needed - At(hdr, o).units, granted)
          else CanExtend(needed, granted))
    }

    /** What a successful realloc from `o` to pointer `q` has done, seen by the client. */
    twostate predicate Moved(o: nat, q: nat, size: nat)
      requires o in old(Live())
      reads this
    {
      && q >= base + HEADER && Handle(q) in Live() && |Live()[Handle(q)]| == size && Tight(hdr, Handle(q))
      && (Handle(q) == o || Handle(q) !in old(Live()))
      && Preserves(old(Live())[o], Live()[Handle(q)])
      && Live() == Replaced(old(Live()), o, Handle(q), Live()[Handle(q)])
      && allocations == (if Handle(q) == o then old(allocations) else Bump(old(allocations)))
      && frees == (if Handle(q) == o then old(frees) else Bump(old(frees)))
      && Stamped(debugPoison, old(Live())[o], Live()[Handle(q)]) && (Handle(q) == o ==> Slack(debugPoison, hdr, mem, o))
      && usedBytes == old(usedBytes) - |old(Live())[o]| + size
      && peakUsage == Peak(old(peakUsage), if Handle(q) == o then usedBytes else old(usedBytes) + size)
    }

    /** Allocate, copy and release. */
    method MoveElsewhere(offset: nat, size: nat, allowGrowth: bool, granted: bool) returns (q: nat)
      requires WellFormed() && offset in Live() && Representable(size)
      modifies this`hdr, this`freeHead, this`mappedSize, this`mem, this`usedBytes, this`liveAllocations,
               this`allocations, this`frees, this`peakUsage
      ensures WellFormed()
      ensures q != 0 <==> old(Fits(Needed(size))) || (allowGrowth && old(CanExtend(Needed(size), granted)))
      ensures q == 0 ==> Intact()
      ensures q != 0 ==> Moved(offset, q, size) && Handle(q) != offset && (old(Frugal()) ==> Frugal()) && (old(Shaded()) ==> Shaded())
      ensures q != 0 ==> mappedSize == old(mappedSize) + (if old(Fits(Needed(size))) then 0 else old(Growth(Needed(size))))
    {
      hide WellFormed, Live, Frugal, Tight, Shaded, Stamped;
      ghost var L := Live();
      q := TakeBlock(size, allowGrowth, granted);
      if q == 0 { return; }
      ghost var L' := Live();
      MoveLive(offset, q - base - HEADER);
      ReplacedView(L, L', Live(), offset, q - base - HEADER);
    }

    /** Expand the last allocation in place by growing the arena, seen by the client. */
    method ExpandTail(offset: nat, size: nat, granted: bool) returns (ok: bool)
      requires WellFormed() && offset in Live() && Representable(size) && At(hdr, offset).units < Needed(size)
      requires AtTail(offset, Blocks())
      modifies this`hdr, this`freeHead, this`mappedSize, this`mem, this`usedBytes, this`peakUsage
      ensures WellFormed()
      ensures ok <==> old(CanExtend(Needed(size) - At(hdr, offset).units, granted))
      ensures !ok ==> Intact()
      ensures ok ==> Moved(offset, base + offset + HEADER, size) && (old(Frugal()) ==> Frugal()) && (old(Shaded()) ==> Shaded())
      ensures ok ==> mappedSize == old(mappedSize + Growth(Needed(size) - At(hdr, offset).units))
    {
      hide Painted, Stamped, Slack, Sound, Starts, LiveSet, FreeSet, LastStart, Payload, LiveMap;
      ghost var L := Live();
      LiveMapKeys(hdr, mem, LiveSet(hdr, Blocks()));
      PayloadLength(hdr, mem, LiveSet(hdr, Blocks()), offset);
      ok := ResizeByGrowing(offset, size, granted, Blocks());
      if ok { InPlaceView(L, Live(), offset); }
    }

    twostate lemma IntactView(o: nat)
      requires Intact()
      ensures Live() == old(Live()) && Blocks() == old(Blocks()) && AtTail(o, Blocks()) == old(AtTail(o, Blocks()))
    {
    }

    method EndsArena(offset: nat) returns (atTail: bool)
      requires WellFormed() && offset in Live()
      ensures atTail <==> AtTail(offset, Blocks())
    {
      assert Tile(hdr, Blocks(), mappedSize, offset);
      var next := offset + SizeAt(hdr, offset);
      atTail := next == mappedSize || (!UsedAt(hdr, next) && next + SizeAt(hdr, next) == mappedSize);
    }

    /** What growth must provide for a block to reach `size`: the rest at the tail, otherwise a whole block. */
    ghost function Missing(o: nat, size: nat): nat
      reads this
    {
      if AtTail(o, Blocks()) && At(hdr, o).units <= Needed(size) then Needed(size) - At(hdr, o).units else Needed(size)
    }

    /** Try a free block elsewhere, then growth: at the tail in place, otherwise by moving. */
    method Relocate(offset: nat, size: nat, granted: bool) returns (q: nat)
      requires WellFormed() && offset in Live() && Representable(size) && At(hdr, offset).units < Needed(size)
      modifies this`hdr, this`freeHead, this`mappedSize, this`mem, this`usedBytes, this`liveAllocations,
               this`allocations, this`frees, this`peakUsage
      ensures WellFormed()
      ensures q != 0 <==> old(Movable(offset, Needed(size), granted))
      ensures q == 0 ==> Intact()
      ensures q != 0 ==> Moved(offset, q, size) && (old(Frugal()) ==> Frugal()) && (old(Shaded()) ==> Shaded())
      ensures q != 0 ==> (Handle(q) == offset <==> !old(Fits(Needed(size))) && old(AtTail(offset, Blocks())))
      ensures q != 0 ==> mappedSize == old(mappedSize) + (if old(Fits(Needed(size))) then 0 else old(Growth(Missing(offset, size))))
    {
      hide WellFormed, Live, AtTail, Frugal, Tight, Growth, Shaded, Stamped, Slack;
      var atTail := EndsArena(offset);
      q := MoveElsewhere(offset, size, false, granted);
      if q != 0 { return; }
      IntactView(offset);
      if atTail {
        var grown := ExpandTail(offset, size, granted);
        if grown { q := base + offset + HEADER; }
      } else {
        q := MoveElsewhere(offset, size, true, granted);
      }
    }

    /** The block is large enough, or its free successor makes it so. */
    ghost predicate RoomHere(o: nat, size: nat)
      reads this
    {
      Needed(size) <= At(hdr, o).units || CanConsume(o, Needed(size), Blocks())
    }

    ghost predicate RoomNow(o: nat, size: nat)
      reads this
    {
      RoomHere(o, size) || Fits(Needed(size))
    }

    /** An allocation keeps its place if there is room, or if nothing else fits and it ends the arena. */
    ghost predicate StaysPut(o: nat, size: nat)
      reads this
    {
      RoomHere(o, size) || (!Fits(Needed(size)) && AtTail(o, Blocks()))
    }

    /** Resize a live block: in place, into its successor, or elsewhere. */
    method ReallocLive(offset: nat, size: nat, granted: bool) returns (q: nat)
      requires WellFormed() && offset in Live() && Representable(size)
      modifies this`hdr, this`freeHead, this`mappedSize, this`mem, this`usedBytes, this`liveAllocations,
               this`allocations, this`frees, this`peakUsage
      ensures WellFormed()
      ensures q != 0 <==> old(Resizable(offset, size, granted))
      ensures q == 0 ==> Intact()
      ensures q != 0 ==> Moved(offset, q, size) && (old(Frugal()) ==> Frugal()) && (old(Shaded()) ==> Shaded())
      ensures q != 0 ==> (Handle(q) == offset <==> old(StaysPut(offset, size)))
      ensures q != 0 ==> mappedSize == old(mappedSize) + (if old(RoomNow(offset, size)) then 0 else old(Growth(Missing(offset, size))))
    {
      hide Frugal, Tight, Growth, WellFormed, Live, LiveSet, FreeSet, Starts, LastStart, Shaded, Stamped, Slack;
      var ok := ResizeInPlace(offset, size);
      if ok { return base + offset + HEADER; }
      q := Relocate(offset, size, granted);
    }

    method ResizeInPlace(offset: nat, size: nat) returns (ok: bool)
      requires WellFormed() && offset in Live() && Representable(size)
      modifies this`hdr, this`freeHead, this`mem, this`usedBytes, this`peakUsage
      ensures WellFormed()
      ensures ok <==> Needed(size) <= old(At(hdr, offset).units) || old(CanConsume(offset, Needed(size), Blocks()))
      ensures !ok ==> Intact()
      ensures ok ==> Moved(offset, base + offset + HEADER, size) && (old(Frugal()) ==> Frugal()) && (old(Shaded()) ==> Shaded())
    {
      hide Painted, Stamped, Slack, Sound, Starts, LiveSet, FreeSet, LastStart, Payload, LiveMap;
      ghost var L := Live();
      LiveMapKeys(hdr, mem, LiveSet(hdr, Blocks()));
      PayloadLength(hdr, mem, LiveSet(hdr, Blocks()), offset);
      EconomicalLess(hdr, LiveSet(hdr, Blocks()), offset);
      if Needed(size) <= At(hdr, offset).units {
        ResizeLive(offset, size, Blocks());
        ok := true;
      } else {
        ok := ResizeIntoNext(offset, size, Blocks());
      }
      if ok { InPlaceView(L, Live(), offset); }
    }

    /**
      heap_core_realloc: NULL allocates, size zero frees; otherwise the leading bytes survive, and a failure
      leaves everything but the failure counter as it was.
    */
    method Realloc(p: nat, size: nat, granted: bool) returns (q: nat)
      modifies this`hdr, this`freeHead, this`mappedSize, this`mem, this`usedBytes, this`liveAllocations,
               this`allocations, this`frees, this`peakUsage, this`failedAllocations, this`invalidFrees
      ensures old(WellFormed()) ==> WellFormed()
      ensures (old(WellFormed() && Frugal()) ==> Frugal()) && (old(WellFormed() && Shaded()) ==> Shaded())
      ensures p == 0 ==>
                && (q != 0 <==> old(WellFormed()) && Representable(size) && old(Satisfiable(Needed(size), granted)))
                && (q == 0 ==> Intact())
                && (q != 0 ==>
                      && q >= base + HEADER && Handle(q) !in old(Live()) && Handle(q) in Live() && |Live()[Handle(q)]| == size && Tight(hdr, Handle(q))
                      && mappedSize == old(mappedSize) + (if old(Fits(Needed(size))) then 0 else old(Growth(Needed(size))))
                      && Live() == old(Live())[Handle(q) := Live()[Handle(q)]])
      ensures p != 0 && size == 0 ==>
                && q == 0
                && (if old(WellFormed()) && Handle(p) in old(Live()) then Live() == old(Live()) - {Handle(p)} else Intact())
      ensures p != 0 && size != 0 ==>
                && (q != 0 <==> old(WellFormed()) && Representable(size) && Handle(p) in old(Live())
                                && old(Resizable(Handle(p), size, granted)))
                && (q == 0 ==> Intact())
                && (q != 0 ==> Moved(Handle(p), q, size) && (q == p <==> old(StaysPut(Handle(p), size))))
                && (q != 0 ==> mappedSize == old(mappedSize) + if old(RoomNow(Handle(p), size)) then 0 else old(Growth(Missing(Handle(p), size))))
                && failedAllocations == if q == 0 && initialized then Bump(old(failedAllocations)) else old(failedAllocations)
    {
      hide WellFormed, Live, Growth, Frugal, Tight, Fits, CanExtend, CanConsume, AtTail, Shaded, Stamped, Slack;
      if p == 0 {
        q := Alloc(size, granted);
        return;
      }
      if size == 0 {
        var freed := Free(p);
        return 0;
      }
      var valid := Validate();
      if !valid || size > SIZE_MAX - (HEADER + 15) {
        FailedAllocation();
        return 0;
      }
      var offset := PointerOffset(p);
      if offset == NONE {
        FailedAllocation();
        return 0;
      }
      q := ReallocLive(offset, size, granted);
      if q == 0 { FailedAllocation(); }
    }

    // -------------------------------------------------------------- initialization and statistics

    /** heap_core_init on a zeroed or already initialized object. */
    method Init(base: nat, initialSize: nat, maxSize: nat, growthSize: nat, debugPoison: bool, canGrow: bool)
      returns (ok: bool)
      modifies this
      ensures ok <==> !old(initialized) && ValidSizes(base, initialSize, maxSize, growthSize)
      ensures !ok ==> unchanged(this)
      ensures ok ==>
                && WellFormed() && Live() == map[] && Frugal() && Shaded() && usedBytes == peakUsage == 0
                && this.base == base && mappedSize == initialSize && this.maxSize == maxSize
                && this.growthSize == growthSize && this.canGrow == canGrow && this.debugPoison == debugPoison
                && allocations == frees == failedAllocations == invalidFrees == 0
    {
      if initialized || !ValidSizes(base, initialSize, maxSize, growthSize) { return false; }
      this.base, mappedSize, this.maxSize, this.growthSize := base, initialSize, maxSize, growthSize;
      freeHead, this.canGrow, this.debugPoison, initialized := 0, canGrow, debugPoison, true;
      usedBytes, liveAllocations, allocations, frees := 0, 0, 0, 0;
      peakUsage, failedAllocations, invalidFrees := 0, 0, 0;
      WriteFirst();
      FirstBlock();
      return true;
    }

    method WriteFirst()
      requires Context()
      modifies this`hdr, this`mem
      ensures At(hdr, 0) == Header(mappedSize / 16, false, 0, 0, 0, NONE, NONE, 0) && (debugPoison ==> PaintedAt(hdr, mem, 0))
    {
      WriteBlock(0, mappedSize / 16, 0, 0, false);
      PoisonFree(0);
    }

    lemma FirstBlock()
      requires Context() && freeHead == 0 && usedBytes == liveAllocations == 0
      requires At(hdr, 0) == Header(mappedSize / 16, false, 0, 0, 0, NONE, NONE, 0)
      ensures WellFormed() && Live() == map[] && Blocks() == {0}
    {
      var B: set<nat> := {0};
      assert Tile(hdr, B, mappedSize, 0) && Coalesced(hdr, B, 0) && Bare(hdr, 0);
      assert FreeSet(hdr, B) == {0} && LiveSet(hdr, B) == {};
      assert NodeOk(hdr, {0}, 0);
      StartsIsShape(hdr, B, mappedSize);
    }

    /** Payload capacity of the free list and of its largest block. */
    method SumFree(ghost B: set<nat>) returns (freeBytes: nat, largest: nat)
      requires Sound(hdr, freeHead, mappedSize, B)
      ensures freeBytes + HEADER * |FreeSet(hdr, B)| == SizeTotal(hdr, FreeSet(hdr, B))
      ensures forall o | o in FreeSet(hdr, B) :: SizeAt(hdr, o) - HEADER <= largest
      ensures largest == 0 || exists o :: o in FreeSet(hdr, B) && SizeAt(hdr, o) - HEADER == largest
    {
      freeBytes, largest := 0, 0;
      ghost var F := FreeSet(hdr, B);
      var offset := freeHead;
      assert Before(F, offset) == {};
      hide NoAdjacentFree, UsedUnlinked, Linked;
      while offset != NONE
        invariant offset == NONE || (offset in F && offset < NONE)
        invariant freeBytes + HEADER * |Before(F, offset)| == SizeTotal(hdr, Before(F, offset))
        invariant forall o | o in Before(F, offset) :: SizeAt(hdr, o) - HEADER <= largest
        invariant largest == 0 || exists o :: o in F && SizeAt(hdr, o) - HEADER == largest
        decreases if offset == NONE then 0 else NONE - offset
      {
        assert Tile(hdr, B, mappedSize, offset);
        BeforeNext(hdr, freeHead, F, offset);
        var bytes := SizeAt(hdr, offset) - HEADER;
        freeBytes := freeBytes + bytes;
        if bytes > largest { largest := bytes; }
        offset := At(hdr, offset).freeNext;
      }
      assert Before(F, NONE) == F;
    }

    /** heap_core_get_stats: used, free and overhead bytes partition the mapped arena. */
    method GetStats() returns (ok: bool, freeBytes: nat, overheadBytes: nat, largest: nat)
      ensures ok <==> WellFormed()
      ensures ok ==>
                && mappedSize == usedBytes + freeBytes + overheadBytes
                && overheadBytes == SizeTotal(hdr, LiveSet(hdr, Blocks())) - usedBytes + HEADER * |FreeSet(hdr, Blocks())|
                && (forall o | o in FreeSet(hdr, Blocks()) :: SizeAt(hdr, o) - HEADER <= largest)
                && (largest == 0 || exists o :: o in FreeSet(hdr, Blocks()) && SizeAt(hdr, o) - HEADER == largest)
    {
      freeBytes, overheadBytes, largest := 0, 0, 0;
      ok := Validate();
      if ok {
        freeBytes, largest := SumFree(Blocks());
        BytesConserved(hdr, Blocks(), mappedSize);
        overheadBytes := mappedSize - usedBytes - freeBytes;
      }
    }
  }
}
