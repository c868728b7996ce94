/**
  The in-arena representation of the kernel heap (kernel/memory/heap_core.c): block headers
  addressed by arena offset, the boundary-tag tiling they describe, and the address-ordered
  doubly linked free list whose links are offsets.

  A set `B` of block starts stands for the physical chain; `Starts` computes it by walking.
*/
module HeapLayout {

  const HEADER: nat := 48
  const MIN_BLOCK: nat := 64
  const SIZE_MAX: nat := 0xFFFF_FFFF_FFFF_FFFF
  const NONE: nat := SIZE_MAX

  /**
    The six words of `struct heap_block`. The first, size_flags, is kept as its three parts: the size in
    16-byte units (what masking the flags leaves), the USED bit and the three reserved flag bits. `stamp` stands for the cookie: it is the
    offset the cookie was computed for, which for one base address the cookie determines.
  */
  datatype Header = Header(units: nat, used: bool, reserved: nat, prevSize: nat, requested: nat,
                           freePrev: nat, freeNext: nat, stamp: nat)

  type Headers = map<nat, Header>

  const Blank := Header(0, false, 0, 0, 0, 0, 0, 0)

  /** The six words at an arena offset, read as a header; never-written memory reads as zero. */
  function At(m: Headers, o: nat): Header {
    if o in m then m[o] else Blank
  }

  function SizeAt(m: Headers, o: nat): nat { 16 * At(m, o).units }

  predicate UsedAt(m: Headers, o: nat) { At(m, o).used }

  // ---------------------------------------------------------------- the block chain

  ghost predicate BlockOk(m: Headers, mapped: nat, o: nat) {
    && At(m, o).stamp == o
    && At(m, o).reserved == 0
    && MIN_BLOCK <= SizeAt(m, o)
    && o + SizeAt(m, o) <= mapped
    && (if UsedAt(m, o) then 1 <= At(m, o).requested <= SizeAt(m, o) - HEADER
        else At(m, o).requested == 0)
  }

  /** The block at `o` ends where another block starts, or at the end of the arena. */
  ghost predicate ForwardLink(m: Headers, B: set<nat>, mapped: nat, o: nat) {
    o + SizeAt(m, o) == mapped || o + SizeAt(m, o) in B
  }

  /** The boundary tag of `o` leads to the block that ends where `o` starts. */
  ghost predicate BackLink(m: Headers, B: set<nat>, o: nat) {
    var prev := At(m, o).prevSize;
    if o == 0 then prev == 0
    else prev <= o && o - prev in B && SizeAt(m, o - prev) == prev
  }

  /** No other block starts inside the block at `o`. */
  ghost predicate Clear(m: Headers, B: set<nat>, o: nat) {
    forall p | p in B :: p <= o || o + SizeAt(m, o) <= p
  }

  ghost predicate Tile(m: Headers, B: set<nat>, mapped: nat, o: nat) {
    BlockOk(m, mapped, o) && Clear(m, B, o) && ForwardLink(m, B, mapped, o) && BackLink(m, B, o)
  }

  /** The blocks starting at `B` tile [0, mapped) with correct boundary tags. */
  ghost predicate Shape(m: Headers, B: set<nat>, mapped: nat) {
    0 in B && forall o {:trigger Tile(m, B, mapped, o)} | o in B :: Tile(m, B, mapped, o)
  }

  ghost predicate Coalesced(m: Headers, B: set<nat>, o: nat) {
    o + SizeAt(m, o) in B ==> UsedAt(m, o) || UsedAt(m, o + SizeAt(m, o))
  }

  /** No two free blocks are adjacent. */
  ghost predicate NoAdjacentFree(m: Headers, B: set<nat>) {
    forall o {:trigger Coalesced(m, B, o)} | o in B :: Coalesced(m, B, o)
  }

  ghost function LiveSet(m: Headers, B: set<nat>): set<nat> {
    set o | o in B && UsedAt(m, o)
  }

  /** The starts met by walking the chain from `o`, as every loop of the allocator does. */
  ghost function Starts(m: Headers, o: nat, mapped: nat): set<nat>
    decreases mapped - o
  {
    if mapped <= o || SizeAt(m, o) == 0 then {}
    else {o} + Starts(m, o + SizeAt(m, o), mapped)
  }

  lemma {:induction false} StartsFrom(m: Headers, B: set<nat>, mapped: nat, o: nat)
    requires Shape(m, B, mapped)
    requires o in B || o == mapped
    ensures Starts(m, o, mapped) == set p | p in B && o <= p
    decreases mapped - o
  {
    if o in B {
      assert Tile(m, B, mapped, o);
      StartsFrom(m, B, mapped, o + SizeAt(m, o));
    } else {
      forall p | p in B ensures p < o { assert Tile(m, B, mapped, p); }
    }
  }

  /** The walk visits exactly the tiling's blocks, so a tiling is unique. */
  lemma StartsIsShape(m: Headers, B: set<nat>, mapped: nat)
    requires Shape(m, B, mapped)
    ensures Starts(m, 0, mapped) == B
  {
    StartsFrom(m, B, mapped, 0);
  }

  /** The start of the last block on the walk from `o`. */
  ghost function LastStart(m: Headers, o: nat, mapped: nat): nat
    decreases mapped - o
  {
    if mapped <= o + SizeAt(m, o) || SizeAt(m, o) == 0 then o else LastStart(m, o + SizeAt(m, o), mapped)
  }

  lemma {:induction false} LastStartEnds(m: Headers, B: set<nat>, mapped: nat, o: nat)
    requires Shape(m, B, mapped) && o in B
    ensures LastStart(m, o, mapped) in B
    ensures LastStart(m, o, mapped) + SizeAt(m, LastStart(m, o, mapped)) == mapped
    decreases mapped - o
  {
    assert Tile(m, B, mapped, o);
    if o + SizeAt(m, o) < mapped { LastStartEnds(m, B, mapped, o + SizeAt(m, o)); }
  }

  lemma LastUnique(m: Headers, B: set<nat>, mapped: nat, o: nat, p: nat)
    requires Shape(m, B, mapped) && o in B && p in B
    requires o + SizeAt(m, o) == mapped && p + SizeAt(m, p) == mapped
    ensures o == p
  {
    assert Tile(m, B, mapped, o) && Tile(m, B, mapped, p);
  }

  /** Sizes are whole units, so every block starts on a 16-byte boundary. */
  lemma {:induction false} StartsAligned(m: Headers, B: set<nat>, mapped: nat, o: nat)
    requires Shape(m, B, mapped) && o in B
    ensures o % 16 == 0
  {
    assert Tile(m, B, mapped, o);
    if o != 0 {
      var p := o - At(m, o).prevSize;
      assert Tile(m, B, mapped, p);
      StartsAligned(m, B, mapped, p);
      assert o == p + 16 * At(m, p).units;
    }
  }

  predicate SameCore(m: Headers, n: Headers, o: nat) {
    && At(m, o).units == At(n, o).units
    && At(m, o).used == At(n, o).used
    && At(m, o).reserved == At(n, o).reserved
    && At(m, o).prevSize == At(n, o).prevSize
    && At(m, o).requested == At(n, o).requested
    && At(m, o).stamp == At(n, o).stamp
  }

  lemma ShapeFrame(m: Headers, n: Headers, B: set<nat>, mapped: nat)
    requires Shape(m, B, mapped)
    requires forall o {:trigger SameCore(m, n, o)} | o in B :: SameCore(m, n, o)
    ensures Shape(n, B, mapped)
    ensures LiveSet(n, B) == LiveSet(m, B) && FreeSet(n, B) == FreeSet(m, B)
    ensures NoAdjacentFree(m, B) ==> NoAdjacentFree(n, B)
  {
    forall o {:trigger Tile(n, B, mapped, o)} | o in B ensures Tile(n, B, mapped, o) {
      assert Tile(m, B, mapped, o) && SameCore(m, n, o);
      if o != 0 { assert SameCore(m, n, o - At(m, o).prevSize); }
    }
    if NoAdjacentFree(m, B) {
      forall o {:trigger Coalesced(n, B, o)} | o in B ensures Coalesced(n, B, o) {
        assert Coalesced(m, B, o) && SameCore(m, n, o);
        if o + SizeAt(m, o) in B { assert SameCore(m, n, o + SizeAt(m, o)); }
      }
    }
    forall o | o in B ensures UsedAt(n, o) == UsedAt(m, o) { assert SameCore(m, n, o); }
  }

  // ---------------------------------------------------------------- replacing a range of blocks

  /** The starts left after the blocks inside [lo, hi) give way to one at `lo` and one at each of `mids`. */
  ghost function Recut(B: set<nat>, lo: nat, hi: nat, mids: set<nat>): set<nat> {
    Outside(B, lo, hi) + {lo} + mids
  }

  /** The blocks of `S` have the same sizes. */
  ghost predicate SameUnits(m: Headers, n: Headers, S: set<nat>) { forall o {:trigger At(n, o)} | o in S :: At(n, o).units == At(m, o).units }

  /** The blocks of `S` have the same sizes, and are in use or free as before. */
  ghost predicate SameBlocks(m: Headers, n: Headers, S: set<nat>) {
    forall o {:trigger At(n, o)} | o in S :: At(n, o).units == At(m, o).units && At(n, o).used == At(m, o).used
  }

  ghost function Outside(B: set<nat>, lo: nat, hi: nat): set<nat> {
    set o | o in B && (o < lo || hi <= o)
  }

  /** At a surviving block nothing changes, except that a block at `hi` now follows the one at `last`. */
  ghost predicate Kept(m: Headers, n: Headers, last: nat, hi: nat, o: nat) {
    if o == hi then
      last <= hi && At(n, o).(freePrev := 0, freeNext := 0) ==
                    At(m, o).(prevSize := hi - last, freePrev := 0, freeNext := 0)
    else SameCore(m, n, o)
  }

  ghost predicate SameOutside(m: Headers, n: Headers, B: set<nat>, lo: nat, last: nat, hi: nat) {
    forall o {:trigger Kept(m, n, last, hi, o)} | o in Outside(B, lo, hi) :: Kept(m, n, last, hi, o)
  }

  /** A block that starts after a boundary `hi` has its predecessor at or after `hi`. */
  lemma PrevBeyond(m: Headers, B: set<nat>, mapped: nat, hi: nat, o: nat)
    requires Shape(m, B, mapped) && hi in B && o in B && hi < o
    ensures At(m, o).prevSize <= o - hi && o - At(m, o).prevSize in B
    ensures SizeAt(m, o - At(m, o).prevSize) == At(m, o).prevSize
  {
    assert Tile(m, B, mapped, o) && Tile(m, B, mapped, o - At(m, o).prevSize);
  }

  /** The tag of the block after `o` is the size of `o`. */
  lemma FollowerTag(m: Headers, B: set<nat>, mapped: nat, o: nat)
    requires Shape(m, B, mapped) && o in B && o + SizeAt(m, o) in B
    ensures At(m, o + SizeAt(m, o)).prevSize == SizeAt(m, o) && o + SizeAt(m, o) < mapped
  {
    var next := o + SizeAt(m, o);
    assert Tile(m, B, mapped, next) && Tile(m, B, mapped, o);
    assert Tile(m, B, mapped, next - At(m, next).prevSize);
  }

  /** One block [lo, end) replaces the blocks of [lo, hi); `end` exceeds `hi` only at the arena's tail. */
  ghost predicate Fused(m: Headers, n: Headers, B: set<nat>, mapped: nat, mapped': nat,
                        lo: nat, hi: nat, end: nat)
  {
    && lo in B && lo < hi && (hi in B || hi == mapped)
    && ((hi == end && mapped == mapped') || (hi == mapped && end == mapped' && hi <= end))
    && SizeAt(n, lo) == end - lo && BlockOk(n, mapped', lo) && At(n, lo).prevSize == At(m, lo).prevSize
    && SameOutside(m, n, B, lo, lo, hi)
  }

  lemma FusedTile(m: Headers, n: Headers, B: set<nat>, mapped: nat, mapped': nat,
                  lo: nat, hi: nat, end: nat, o: nat)
    requires Shape(m, B, mapped) && Fused(m, n, B, mapped, mapped', lo, hi, end)
    requires o in Recut(B, lo, hi, {})
    ensures Tile(n, Recut(B, lo, hi, {}), mapped', o)
  {
    assert Tile(m, B, mapped, o) && Tile(m, B, mapped, lo);
    if o != lo { assert Kept(m, n, lo, hi, o); }
    if hi < o { PrevBeyond(m, B, mapped, hi, o); }
    if o != 0 && o != hi {
      var p := o - At(m, o).prevSize;
      assert Tile(m, B, mapped, p);
      if p != lo { assert Kept(m, n, lo, hi, p); }
    }
    if hi == mapped {
      forall p | p in B ensures p < hi { assert Tile(m, B, mapped, p); }
    }
  }

  lemma Fuse(m: Headers, n: Headers, B: set<nat>, mapped: nat, mapped': nat, lo: nat, hi: nat, end: nat)
    requires Shape(m, B, mapped) && Fused(m, n, B, mapped, mapped', lo, hi, end)
    ensures Shape(n, Recut(B, lo, hi, {}), mapped')
  {
    var C := Recut(B, lo, hi, {});
    forall o {:trigger Tile(n, C, mapped', o)} | o in C ensures Tile(n, C, mapped', o) {
      FusedTile(m, n, B, mapped, mapped', lo, hi, end, o);
    }
  }

  /** Two blocks [lo, mid) and [mid, hi) replace the blocks of [lo, hi). */
  ghost predicate Parted(m: Headers, n: Headers, B: set<nat>, mapped: nat, lo: nat, mid: nat, hi: nat) {
    && lo in B && lo < mid < hi && (hi in B || hi == mapped)
    && SizeAt(n, lo) == mid - lo && BlockOk(n, mapped, lo) && At(n, lo).prevSize == At(m, lo).prevSize
    && SizeAt(n, mid) == hi - mid && BlockOk(n, mapped, mid) && At(n, mid).prevSize == mid - lo
    && SameOutside(m, n, B, lo, mid, hi)
  }

  lemma PartedTile(m: Headers, n: Headers, B: set<nat>, mapped: nat, lo: nat, mid: nat, hi: nat, o: nat)
    requires Shape(m, B, mapped) && Parted(m, n, B, mapped, lo, mid, hi)
    requires o in Recut(B, lo, hi, {mid})
    ensures Tile(n, Recut(B, lo, hi, {mid}), mapped, o)
  {
    assert Tile(m, B, mapped, lo);
    if hi == mapped {
      forall p | p in B ensures p < hi { assert Tile(m, B, mapped, p); }
    }
    if o < lo || hi <= o {
      PartedOutside(m, n, B, mapped, lo, mid, hi, o);
    } else if o == lo && lo != 0 {
      var p := lo - At(m, lo).prevSize;
      assert Tile(m, B, mapped, p) && Kept(m, n, mid, hi, p);
    }
  }

  lemma PartedOutside(m: Headers, n: Headers, B: set<nat>, mapped: nat, lo: nat, mid: nat, hi: nat, o: nat)
    requires Shape(m, B, mapped) && Parted(m, n, B, mapped, lo, mid, hi)
    requires o in B && (o < lo || hi <= o)
    ensures Tile(n, Recut(B, lo, hi, {mid}), mapped, o)
  {
    assert Tile(m, B, mapped, lo) && Tile(m, B, mapped, o) && Kept(m, n, mid, hi, o);
    if hi < o { PrevBeyond(m, B, mapped, hi, o); }
    if o != 0 && o != hi {
      var p := o - At(m, o).prevSize;
      assert Tile(m, B, mapped, p);
      if p != lo { assert Kept(m, n, mid, hi, p); }
    }
  }

  lemma Part(m: Headers, n: Headers, B: set<nat>, mapped: nat, lo: nat, mid: nat, hi: nat)
    requires Shape(m, B, mapped) && Parted(m, n, B, mapped, lo, mid, hi)
    ensures Shape(n, Recut(B, lo, hi, {mid}), mapped)
  {
    var C := Recut(B, lo, hi, {mid});
    forall o {:trigger Tile(n, C, mapped, o)} | o in C ensures Tile(n, C, mapped, o) {
      PartedTile(m, n, B, mapped, lo, mid, hi, o);
    }
  }

  // ---------------------------------------------------------------- the free list

  /** `a` and `b` are neighbours in the ascending order of `F`; NONE stands for either end. */
  ghost predicate Neighbours(F: set<nat>, a: nat, b: nat) {
    && (a == NONE || a in F)
    && (b == NONE || b in F)
    && (a != NONE && b != NONE ==> a < b)
    && (forall p | p in F :: (a != NONE && p <= a) || (b != NONE && b <= p))
  }

  ghost predicate NodeOk(m: Headers, F: set<nat>, o: nat) {
    Neighbours(F, At(m, o).freePrev, o) && Neighbours(F, o, At(m, o).freeNext)
  }

  /** From `head` the links visit exactly `F`, in address order, in both directions. */
  ghost predicate Linked(m: Headers, head: nat, F: set<nat>) {
    && (forall o | o in F :: o < NONE)
    && Neighbours(F, NONE, head)
    && (forall o {:trigger NodeOk(m, F, o)} | o in F :: NodeOk(m, F, o))
  }

  predicate SameLinks(m: Headers, n: Headers, o: nat) {
    At(m, o).freePrev == At(n, o).freePrev && At(m, o).freeNext == At(n, o).freeNext
  }

  lemma LinkedFrame(m: Headers, n: Headers, head: nat, F: set<nat>)
    requires Linked(m, head, F)
    requires forall o {:trigger SameLinks(m, n, o)} | o in F :: SameLinks(m, n, o)
    ensures Linked(n, head, F)
  {
    forall o {:trigger NodeOk(n, F, o)} | o in F ensures NodeOk(n, F, o) {
      assert NodeOk(m, F, o) && SameLinks(m, n, o);
    }
  }

  /** Bypassing `o` in both directions takes it out of the list. */
  lemma Bypass(m: Headers, n: Headers, head: nat, head': nat, F: set<nat>, o: nat)
    requires Linked(m, head, F) && o in F
    requires head' == if At(m, o).freePrev == NONE then At(m, o).freeNext else head
    requires forall p | p in F && p != o ::
      && At(n, p).freeNext == (if p == At(m, o).freePrev then At(m, o).freeNext else At(m, p).freeNext)
      && At(n, p).freePrev == (if p == At(m, o).freeNext then At(m, o).freePrev else At(m, p).freePrev)
    ensures Linked(n, head', F - {o})
  {
    assert NodeOk(m, F, o);
    forall p {:trigger NodeOk(n, F - {o}, p)} | p in F - {o} ensures NodeOk(n, F - {o}, p) {
      assert NodeOk(m, F, p);
    }
  }

  /** Linking `o` between two neighbours it lies between puts it into the list. */
  lemma Splice(m: Headers, n: Headers, head: nat, head': nat, F: set<nat>, a: nat, o: nat, b: nat)
    requires Linked(m, head, F) && o !in F && o < NONE && Neighbours(F, a, b)
    requires (a == NONE || a < o) && (b == NONE || o < b)
    requires head' == if a == NONE then o else head
    requires At(n, o).freePrev == a && At(n, o).freeNext == b
    requires forall p | p in F ::
      && At(n, p).freeNext == (if p == a then o else At(m, p).freeNext)
      && At(n, p).freePrev == (if p == b then o else At(m, p).freePrev)
    ensures Linked(n, head', F + {o})
  {
    forall p {:trigger NodeOk(n, F + {o}, p)} | p in F + {o} ensures NodeOk(n, F + {o}, p) {
      if p != o { assert NodeOk(m, F, p); }
    }
  }

  ghost function FreeSet(m: Headers, B: set<nat>): set<nat> {
    set o | o in B && !UsedAt(m, o)
  }

  ghost predicate Bare(m: Headers, o: nat) {
    UsedAt(m, o) ==> At(m, o).freePrev == NONE && At(m, o).freeNext == NONE
  }

  ghost predicate UsedUnlinked(m: Headers, B: set<nat>) {
    forall o {:trigger Bare(m, o)} | o in B :: Bare(m, o)
  }

  /** Everything `heap_core_validate` checks about memory, declaratively. */
  ghost predicate Sound(m: Headers, head: nat, mapped: nat, B: set<nat>) {
    && Shape(m, B, mapped)
    && NoAdjacentFree(m, B)
    && Linked(m, head, FreeSet(m, B))
    && UsedUnlinked(m, B)
  }

  lemma SoundStarts(m: Headers, head: nat, mapped: nat, B: set<nat>)
    requires Sound(m, head, mapped, B)
    ensures Starts(m, 0, mapped) == B
  {
    StartsIsShape(m, B, mapped);
  }

  lemma SoundFrame(m: Headers, n: Headers, head: nat, mapped: nat, B: set<nat>)
    requires Sound(m, head, mapped, B)
    requires forall o | o in B :: At(n, o) == At(m, o)
    ensures Sound(n, head, mapped, B) && LiveSet(n, B) == LiveSet(m, B) && FreeSet(n, B) == FreeSet(m, B)
    ensures Total(n, LiveSet(n, B)) == Total(m, LiveSet(m, B))
  {
    ShapeFrame(m, n, B, mapped);
    LinkedFrame(m, n, head, FreeSet(m, B));
    TotalFrame(m, n, LiveSet(m, B));
    forall o {:trigger Bare(n, o)} | o in B ensures Bare(n, o) { assert Bare(m, o); }
  }

  // ---------------------------------------------------------------- sharing the arena

  type byte = n: int | 0 <= n < 256

  type Bytes = map<nat, byte>

  function ByteAt(b: Bytes, i: nat): byte { if i in b then b[i] else 0 }

  function Filled(b: Bytes, lo: nat, hi: nat, value: byte): (c: Bytes)
    ensures forall i: nat :: ByteAt(c, i) == if lo <= i < hi then value else ByteAt(b, i)
  {
    b + map i {:trigger ByteAt(b, i)} | lo <= i < hi :: value
  }

  function Copied(b: Bytes, dst: nat, src: nat, n: nat): (c: Bytes)
    ensures IsCopy(b, c, dst, src, n)
  {
    b + map i: nat {:trigger ByteAt(b, i)} | dst <= i < dst + n :: ByteAt(b, src + (i - dst))
  }

  ghost predicate IsCopy(b: Bytes, c: Bytes, dst: nat, src: nat, n: nat) {
    forall i: nat {:trigger ByteAt(c, i)} ::
      ByteAt(c, i) == if dst <= i < dst + n then ByteAt(b, src + (i - dst)) else ByteAt(b, i)
  }

  predicate Overlaps(o: nat, lo: nat, hi: nat) { lo < hi && o < hi && lo < o + HEADER }

  /** Byte writes to [lo, hi) destroy every header they touch. */
  function Smashed(m: Headers, lo: nat, hi: nat): (n: Headers)
    ensures forall o :: At(n, o) == if Overlaps(o, lo, hi) then Blank else At(m, o)
  {
    map o | o in m && !Overlaps(o, lo, hi) :: m[o]
  }

  /** Every byte of a live allocation that the client asked for. */
  ghost predicate InPayload(m: Headers, o: nat, i: nat) {
    o + HEADER <= i < o + HEADER + At(m, o).requested
  }

  /** The bytes of every allocation in `S` are the same in `a` and `b`. */
  ghost predicate Untouched(m: Headers, S: set<nat>, a: Bytes, b: Bytes) {
    forall o, i: nat | o in S && InPayload(m, o, i) :: ByteAt(a, i) == ByteAt(b, i)
  }

  lemma UntouchedTrans(m: Headers, n: Headers, S: set<nat>, T: set<nat>, a: Bytes, b: Bytes, c: Bytes)
    requires Untouched(m, S, a, b) && Untouched(n, T, b, c) && S <= T
    requires forall o | o in S :: At(m, o).requested == At(n, o).requested
    ensures Untouched(m, S, a, c)
  {
    forall o, i: nat | o in S && InPayload(m, o, i) ensures ByteAt(a, i) == ByteAt(c, i) {
      assert InPayload(n, o, i);
    }
  }

  /** Writes confined to [from, hi), inside blocks that [lo, hi) spans, miss every other allocation. */
  lemma UntouchedOutside(m: Headers, B: set<nat>, mapped: nat, lo: nat, from: nat, hi: nat,
                         S: set<nat>, a: Bytes, b: Bytes)
    requires Shape(m, B, mapped) && S <= LiveSet(m, B) && lo in B && lo <= from
    requires forall i: nat | !(from <= i < hi) :: ByteAt(a, i) == ByteAt(b, i)
    requires forall o | o in S :: o < lo || hi <= o || o + HEADER + At(m, o).requested <= from
    ensures Untouched(m, S, a, b)
  {
    forall o, i: nat | o in S && InPayload(m, o, i) ensures ByteAt(a, i) == ByteAt(b, i) {
      assert Tile(m, B, mapped, o);
    }
  }

  /** Byte writes inside one block's payload area destroy no header and touch no other allocation. */
  lemma InsideWrite(m: Headers, n: Headers, head: nat, mapped: nat, B: set<nat>, o: nat, lo: nat, hi: nat, b: Bytes, c: Bytes)
    requires Sound(m, head, mapped, B) && o in B && o + HEADER <= lo <= hi <= o + SizeAt(m, o)
    requires forall p :: At(n, p) == if Overlaps(p, lo, hi) then Blank else At(m, p)
    requires forall i: nat | !(lo <= i < hi) :: ByteAt(b, i) == ByteAt(c, i)
    ensures Sound(n, head, mapped, B) && LiveSet(n, B) == LiveSet(m, B)
    ensures Total(n, LiveSet(n, B)) == Total(m, LiveSet(m, B))
    ensures forall p | p in B :: At(n, p) == At(m, p)
    ensures Untouched(m, LiveSet(m, B) - {o}, b, c)
  {
    assert Tile(m, B, mapped, o);
    forall p | p in B ensures At(n, p) == At(m, p) { assert Tile(m, B, mapped, p); }
    SoundFrame(m, n, head, mapped, B);
    forall p, i: nat | p in LiveSet(m, B) - {o} && InPayload(m, p, i) ensures ByteAt(b, i) == ByteAt(c, i) {
      assert Tile(m, B, mapped, p);
    }
  }

  // ---------------------------------------------------------------- soundness after a recut

  /** Coalescing survives a recut when the new blocks and the block before them respect it. */
  lemma RecutCoalesced(m: Headers, n: Headers, B: set<nat>, mapped: nat,
                       lo: nat, hi: nat, mids: set<nat>, last: nat)
    requires Shape(m, B, mapped) && NoAdjacentFree(m, B)
    requires lo in B && lo < hi && SameOutside(m, n, B, lo, last, hi)
    requires forall o | o in mids :: lo < o < hi
    requires UsedAt(n, lo) || forall p | p in B && p + SizeAt(m, p) == lo :: UsedAt(m, p)
    requires var C := Recut(B, lo, hi, mids);
             Coalesced(n, C, lo) && forall o {:trigger Coalesced(n, C, o)} | o in mids :: Coalesced(n, C, o)
    ensures NoAdjacentFree(n, Recut(B, lo, hi, mids))
  {
    var C := Recut(B, lo, hi, mids);
    forall o {:trigger Coalesced(n, C, o)} | o in C ensures Coalesced(n, C, o) {
      if o != lo && o !in mids {
        assert Coalesced(m, B, o) && Tile(m, B, mapped, o) && Kept(m, n, last, hi, o);
        var p := o + SizeAt(m, o);
        if p in C && p != lo { assert Kept(m, n, last, hi, p); }
      }
    }
  }

  /** Used survivors keep their (absent) links, and a used block at `lo` has none. */
  ghost predicate Unlinked(m: Headers, n: Headers, B: set<nat>, lo: nat, hi: nat) {
    && (forall o {:trigger SameLinks(m, n, o)} | o in Outside(B, lo, hi) && UsedAt(m, o) :: SameLinks(m, n, o))
    && Bare(n, lo)
  }

  /** A recut moves only the insiders and the new blocks between the free and the used blocks. */
  lemma RecutLists(m: Headers, n: Headers, B: set<nat>, lo: nat, hi: nat, mids: set<nat>, last: nat)
    requires UsedUnlinked(m, B) && SameOutside(m, n, B, lo, last, hi) && lo in B && lo < hi
    requires forall o | o in mids :: lo < o < hi && !UsedAt(n, o)
    requires Unlinked(m, n, B, lo, hi)
    ensures UsedUnlinked(n, Recut(B, lo, hi, mids))
    ensures FreeSet(n, Recut(B, lo, hi, mids)) ==
            Outside(FreeSet(m, B), lo, hi) + mids + (if UsedAt(n, lo) then {} else {lo})
    ensures LiveSet(n, Recut(B, lo, hi, mids)) ==
            Outside(LiveSet(m, B), lo, hi) + (if UsedAt(n, lo) then {lo} else {})
  {
    var C := Recut(B, lo, hi, mids);
    forall o | o in Outside(B, lo, hi) ensures UsedAt(n, o) == UsedAt(m, o) {
      assert Kept(m, n, last, hi, o);
    }
    forall o {:trigger Bare(n, o)} | o in C ensures Bare(n, o) {
      if o != lo && o !in mids && UsedAt(m, o) { assert Bare(m, o) && SameLinks(m, n, o); }
    }
  }

  /** Splitting the used block at `lo`, its tail merged with a free successor, keeps the heap sound. */
  lemma PartSound(m: Headers, head: nat, mapped: nat, B: set<nat>,
                  n: Headers, head': nat, lo: nat, mid: nat, hi: nat)
    requires Sound(m, head, mapped, B) && Parted(m, n, B, mapped, lo, mid, hi)
    requires UsedAt(m, lo) && UsedAt(n, lo) && !UsedAt(n, mid)
    requires forall o | o in B && lo < o < hi :: !UsedAt(m, o)
    requires hi in B ==> UsedAt(m, hi)
    requires Unlinked(m, n, B, lo, hi)
    requires Linked(n, head', Outside(FreeSet(m, B), lo, hi) + {mid})
    ensures Sound(n, head', mapped, Recut(B, lo, hi, {mid}))
    ensures LiveSet(n, Recut(B, lo, hi, {mid})) == LiveSet(m, B)
  {
    var C := Recut(B, lo, hi, {mid});
    RecutLists(m, n, B, lo, hi, {mid}, mid);
    assert FreeSet(n, C) == Outside(FreeSet(m, B), lo, hi) + {mid};
    assert NoAdjacentFree(n, C) by {
      if hi in B { assert Kept(m, n, mid, hi, hi); }
      assert Coalesced(n, C, lo) && Coalesced(n, C, mid);
      RecutCoalesced(m, n, B, mapped, lo, hi, {mid}, mid);
    }
    assert Shape(n, C, mapped) by { Part(m, n, B, mapped, lo, mid, hi); }
  }

  /** Replacing the blocks of [lo, hi) by one block at `lo` keeps the heap sound. */
  lemma FuseSound(m: Headers, head: nat, mapped: nat, B: set<nat>,
                  n: Headers, head': nat, mapped': nat, lo: nat, hi: nat, end: nat)
    requires Sound(m, head, mapped, B) && Fused(m, n, B, mapped, mapped', lo, hi, end)
    requires UsedAt(n, lo) || forall p | p in B && p + SizeAt(m, p) == lo :: UsedAt(m, p)
    requires UsedAt(n, lo) || (hi in B ==> UsedAt(m, hi))
    requires Unlinked(m, n, B, lo, hi)
    requires Linked(n, head', Outside(FreeSet(m, B), lo, hi) + (if UsedAt(n, lo) then {} else {lo}))
    ensures Sound(n, head', mapped', Recut(B, lo, hi, {}))
    ensures LiveSet(n, Recut(B, lo, hi, {})) ==
            Outside(LiveSet(m, B), lo, hi) + (if UsedAt(n, lo) then {lo} else {})
  {
    var C := Recut(B, lo, hi, {});
    RecutLists(m, n, B, lo, hi, {}, lo);
    assert FreeSet(n, C) == Outside(FreeSet(m, B), lo, hi) + (if UsedAt(n, lo) then {} else {lo});
    assert Shape(n, C, mapped') by { Fuse(m, n, B, mapped, mapped', lo, hi, end); }
    assert NoAdjacentFree(n, C) by {
      assert end in C ==> hi == end by {
        if end in C { assert Tile(n, C, mapped', end); }
      }
      if hi in B { assert Kept(m, n, lo, hi, hi); }
      assert Coalesced(n, C, lo);
      RecutCoalesced(m, n, B, mapped, lo, hi, {}, lo);
    }
  }

  /** One more block after the last extends a tiling. */
  lemma ShapeAppend(m: Headers, B: set<nat>, mapped: nat, mapped': nat, tail: nat)
    requires Shape(m, B, mapped) && tail in B && tail + SizeAt(m, tail) == mapped
    requires SizeAt(m, mapped) == mapped' - mapped && BlockOk(m, mapped', mapped)
    requires At(m, mapped).prevSize == SizeAt(m, tail)
    ensures Shape(m, B + {mapped}, mapped')
    ensures mapped !in B
    ensures NoAdjacentFree(m, B) && (UsedAt(m, tail) || UsedAt(m, mapped)) ==> NoAdjacentFree(m, B + {mapped})
  {
    var C := B + {mapped};
    forall p | p in B ensures p < mapped { assert Tile(m, B, mapped, p); }
    assert Tile(m, B, mapped, tail);
    forall o {:trigger Tile(m, C, mapped', o)} | o in C ensures Tile(m, C, mapped', o) {
      if o in B { assert Tile(m, B, mapped, o); }
    }
    if NoAdjacentFree(m, B) && (UsedAt(m, tail) || UsedAt(m, mapped)) {
      forall o {:trigger Coalesced(m, C, o)} | o in C ensures Coalesced(m, C, o) {
        if o in B {
          assert Coalesced(m, B, o) && Tile(m, B, mapped, o);
          assert o + SizeAt(m, o) == mapped ==> o == tail;
        }
      }
    }
  }

  /** Appending one free block after a used tail keeps the heap sound. */
  lemma AppendSound(m: Headers, head: nat, mapped: nat, B: set<nat>,
                    n: Headers, head': nat, mapped': nat, tail: nat)
    requires Sound(m, head, mapped, B) && tail in B && tail + SizeAt(m, tail) == mapped && UsedAt(m, tail)
    requires SizeAt(n, mapped) == mapped' - mapped && BlockOk(n, mapped', mapped)
    requires At(n, mapped).prevSize == SizeAt(m, tail) && !UsedAt(n, mapped)
    requires forall o {:trigger SameCore(m, n, o)} | o in B :: SameCore(m, n, o)
    requires forall o {:trigger SameLinks(m, n, o)} | o in B && UsedAt(m, o) :: SameLinks(m, n, o)
    requires Linked(n, head', FreeSet(m, B) + {mapped})
    ensures Sound(n, head', mapped', B + {mapped})
    ensures LiveSet(n, B + {mapped}) == LiveSet(m, B)
  {
    var C := B + {mapped};
    ShapeFrame(m, n, B, mapped);
    assert SameCore(m, n, tail);
    ShapeAppend(n, B, mapped, mapped', tail);
    assert FreeSet(n, C) == FreeSet(m, B) + {mapped};
    forall o {:trigger Bare(n, o)} | o in C ensures Bare(n, o) {
      if o in B && UsedAt(m, o) { assert Bare(m, o) && SameLinks(m, n, o); }
      if o in B { assert SameCore(m, n, o); }
    }
  }

  // ---------------------------------------------------------------- the allocator's steps

  /** A free block of `units` written at `o` among the blocks `K`, of which `F` were listed. */
  ghost predicate Installed(m: Headers, n: Headers, mapped: nat, K: set<nat>, F: set<nat>,
                            o: nat, units: nat, end: nat, previous: nat)
  {
    && end == o + 16 * units
    && At(n, o).(freePrev := 0, freeNext := 0) == Header(units, false, 0, previous, 0, 0, 0, o)
    && (forall p {:trigger Kept(m, n, o, end, p)} | p in K && p < mapped :: Kept(m, n, o, end, p))
    && (forall p {:trigger SameLinks(m, n, p)} | p in K && p !in F :: SameLinks(m, n, p))
  }

  /** Trimming the used block at `lo` to `needed` units; `n` is the heap with its free successor unlisted. */
  lemma TrimSound(m: Headers, head: nat, mapped: nat, B: set<nat>, n: Headers, h: Headers, head': nat,
                  lo: nat, needed: nat, remainder: nat)
    requires Sound(m, head, mapped, B) && lo in B && UsedAt(m, lo)
    requires forall o {:trigger SameCore(m, n, o)} :: SameCore(m, n, o)
    requires forall o {:trigger SameLinks(m, n, o)} | o !in FreeSet(m, B) :: SameLinks(m, n, o)
    requires MIN_BLOCK <= 16 * needed && MIN_BLOCK <= 16 * remainder && HEADER + At(m, lo).requested <= 16 * needed
    requires var mid, hi := lo + 16 * needed, lo + 16 * needed + 16 * remainder;
      && (hi == mapped || (hi in B && UsedAt(m, hi)))
      && (forall o | o in B && lo < o < hi :: !UsedAt(m, o))
      && Installed(n[lo := At(n, lo).(units := needed, used := true)], h, mapped,
                   Outside(B, lo, hi) + {lo}, Outside(FreeSet(m, B), lo, hi), mid, remainder, hi, 16 * needed)
      && Linked(h, head', Outside(FreeSet(m, B), lo, hi) + {mid})
    ensures var mid, hi := lo + 16 * needed, lo + 16 * needed + 16 * remainder;
      && Sound(h, head', mapped, Recut(B, lo, hi, {mid}))
      && LiveSet(h, Recut(B, lo, hi, {mid})) == LiveSet(m, B)
    ensures forall o | o in LiveSet(m, B) :: At(h, o).requested == At(m, o).requested
    ensures SizeAt(h, lo) == 16 * needed && SameUnits(m, h, LiveSet(m, B) - {lo})
    ensures SameBlocks(m, h, Outside(B, lo, lo + 16 * needed + 16 * remainder)) && UsedAt(h, lo)
  {
    var mid, hi := lo + 16 * needed, lo + 16 * needed + 16 * remainder;
    var n' := n[lo := At(n, lo).(units := needed, used := true)];
    assert Tile(m, B, mapped, lo) && SameCore(m, n, lo) && SameLinks(m, n, lo) && Bare(m, lo);
    assert hi in B ==> Tile(m, B, mapped, hi);
    assert Kept(n', h, mid, hi, lo) && SameLinks(n', h, lo);
    forall o {:trigger Kept(m, h, mid, hi, o)} {:trigger SameLinks(m, h, o)} | o in Outside(B, lo, hi)
      ensures Kept(m, h, mid, hi, o)
      ensures UsedAt(m, o) ==> SameLinks(m, h, o)
    {
      assert Tile(m, B, mapped, o) && SameCore(m, n, o) && Kept(n', h, mid, hi, o);
      if UsedAt(m, o) { assert SameLinks(m, n, o) && SameLinks(n', h, o); }
    }
    PartSound(m, head, mapped, B, h, head', lo, mid, hi);
    forall o | o in LiveSet(m, B) ensures At(h, o).requested == At(m, o).requested && (o != lo ==> At(h, o).units == At(m, o).units) {
      if o != lo { assert Kept(m, h, mid, hi, o); }
    }
    KeptBlocks(m, h, B, mid, lo, hi);
  }

  /** Marking, resizing within place or merging into a used block at `lo`, its insides unlisted in `n`. */
  lemma OccupySound(m: Headers, head: nat, mapped: nat, B: set<nat>, n: Headers, head': nat, lo: nat, hi: nat,
                    h: Headers)
    requires Sound(m, head, mapped, B) && lo in B && lo < hi && (hi in B || hi == mapped)
    requires forall o {:trigger SameCore(m, n, o)} :: SameCore(m, n, o)
    requires forall o {:trigger SameLinks(m, n, o)} | o !in FreeSet(m, B) :: SameLinks(m, n, o)
    requires At(n, lo).freePrev == NONE && At(n, lo).freeNext == NONE
    requires Linked(n, head', Outside(FreeSet(m, B), lo, hi))
    requires SizeAt(h, lo) == hi - lo && UsedAt(h, lo) && BlockOk(h, mapped, lo)
    requires At(h, lo).(units := 0, used := false, requested := 0) == At(n, lo).(units := 0, used := false, requested := 0)
    requires forall o {:trigger At(h, o)} | o != lo && o != hi :: At(h, o) == At(n, o)
    requires hi in B ==> At(h, hi) == At(n, hi).(prevSize := hi - lo)
    ensures Sound(h, head', mapped, Recut(B, lo, hi, {}))
    ensures LiveSet(h, Recut(B, lo, hi, {})) == Outside(LiveSet(m, B), lo, hi) + {lo}
    ensures forall o | o in Outside(LiveSet(m, B), lo, hi) :: At(h, o).requested == At(m, o).requested
    ensures SameUnits(m, h, Outside(LiveSet(m, B), lo, hi)) && SameBlocks(m, h, Outside(B, lo, hi))
  {
    var F := Outside(FreeSet(m, B), lo, hi);
    assert SameCore(m, n, lo);
    assert hi in B ==> Tile(m, B, mapped, hi);
    forall o {:trigger SameLinks(n, h, o)} | o in F ensures SameLinks(n, h, o) {
      assert o in B && Tile(m, B, mapped, o);
    }
    LinkedFrame(n, h, head', F);
    forall o {:trigger Kept(m, h, lo, hi, o)} {:trigger SameLinks(m, h, o)} | o in Outside(B, lo, hi)
      ensures Kept(m, h, lo, hi, o)
      ensures UsedAt(m, o) ==> SameLinks(m, h, o)
    {
      assert Tile(m, B, mapped, o) && SameCore(m, n, o);
      if UsedAt(m, o) { assert SameLinks(m, n, o); }
    }
    assert F == Outside(FreeSet(m, B), lo, hi) + {};
    FuseSound(m, head, mapped, B, h, head', mapped, lo, hi, hi);
    forall o | o in Outside(LiveSet(m, B), lo, hi) ensures At(h, o).requested == At(m, o).requested && At(h, o).units == At(m, o).units {
      assert Kept(m, h, lo, hi, o);
    }
    KeptBlocks(m, h, B, lo, lo, hi);
  }

  lemma KeptBlocks(m: Headers, n: Headers, B: set<nat>, last: nat, lo: nat, hi: nat)
    requires forall o {:trigger Kept(m, n, last, hi, o)} | o in Outside(B, lo, hi) :: Kept(m, n, last, hi, o)
    ensures SameBlocks(m, n, Outside(B, lo, hi))
  {
    forall o {:trigger At(n, o)} | o in Outside(B, lo, hi) ensures At(n, o).units == At(m, o).units && At(n, o).used == At(m, o).used {
      assert Kept(m, n, last, hi, o);
    }
  }

  // ---------------------------------------------------------------- poison

  /** Every payload byte of the block at `o` is the mark of free memory. */
  ghost predicate PaintedAt(m: Headers, b: Bytes, o: nat) {
    forall i: nat | o + HEADER <= i < o + SizeAt(m, o) :: ByteAt(b, i) == 0xdd
  }

  ghost predicate Painted(m: Headers, b: Bytes, B: set<nat>) {
    forall o {:trigger PaintedAt(m, b, o)} | o in FreeSet(m, B) :: PaintedAt(m, b, o)
  }

  /** If free memory was marked before, it is marked after. */
  ghost predicate StaysPainted(on: bool, m: Headers, b: Bytes, B: set<nat>, n: Headers, c: Bytes, B': set<nat>) {
    on && Painted(m, b, B) ==> Painted(n, c, B')
  }

  /** Blocks outside [lo, hi) are as before, blocks inside are in use or marked, and no other byte has changed. */
  lemma PaintKept(on: bool, m: Headers, b: Bytes, B: set<nat>, mapped: nat, n: Headers, c: Bytes, B': set<nat>, lo: nat, hi: nat, from: nat, end: nat)
    requires Shape(m, B, mapped) && (lo in B || lo == mapped) && (hi in B || hi == mapped) && lo <= from && (end <= hi || hi == mapped)
    requires SameBlocks(m, n, Outside(B, lo, hi))
    requires forall o {:trigger UsedAt(n, o)} | o in B' :: o in Outside(B, lo, hi) || UsedAt(n, o) || (on ==> PaintedAt(n, c, o))
    requires forall i: nat | !(from <= i < end) :: ByteAt(c, i) == ByteAt(b, i)
    ensures StaysPainted(on, m, b, B, n, c, B')
  {
    if on && Painted(m, b, B) {
      forall o {:trigger PaintedAt(n, c, o)} | o in FreeSet(n, B') ensures PaintedAt(n, c, o) {
        if o in Outside(B, lo, hi) {
          assert Tile(m, B, mapped, o) && At(n, o).units == At(m, o).units && o in FreeSet(m, B) && PaintedAt(m, b, o);
        } else {
          assert !UsedAt(n, o);
        }
      }
    }
  }

  /** A range of blocks becomes one block in use; no byte changes. */
  lemma OccupyPainted(on: bool, m: Headers, b: Bytes, B: set<nat>, mapped: nat, n: Headers, lo: nat, hi: nat)
    requires Shape(m, B, mapped) && lo in B && lo < hi && (hi in B || hi == mapped) && SameBlocks(m, n, Outside(B, lo, hi)) && UsedAt(n, lo)
    ensures StaysPainted(on, m, b, B, n, b, Recut(B, lo, hi, {}))
  {
    PaintKept(on, m, b, B, mapped, n, b, Recut(B, lo, hi, {}), lo, hi, lo, lo);
  }

  lemma PaintedSo(on: bool, m: Headers, b: Bytes, B: set<nat>, n: Headers, c: Bytes, B': set<nat>)
    requires StaysPainted(on, m, b, B, n, c, B')
    ensures on && Painted(m, b, B) ==> Painted(n, c, B')
  {
    hide Painted;
  }

  lemma PaintedTrans(on: bool, m: Headers, b: Bytes, B: set<nat>, n: Headers, c: Bytes, B': set<nat>, h: Headers, d: Bytes, B'': set<nat>)
    requires StaysPainted(on, m, b, B, n, c, B') && StaysPainted(on, n, c, B', h, d, B'')
    ensures StaysPainted(on, m, b, B, h, d, B'')
  {
  }

  // ---------------------------------------------------------------- growth arithmetic

  /** How many bytes to ask for: whole growth steps if they fit below the limit, else all that is left. */
  function Extra(required: nat, available: nat, growth: nat): nat
    requires 0 < growth
  {
    var steps := required / growth + (if required % growth != 0 then 1 else 0);
    if steps <= available / growth then steps * growth else available
  }

  lemma ExtraFits(required: nat, mapped: nat, limit: nat, growth: nat)
    requires 0 < required <= limit - mapped && 0 < growth
    requires mapped % 16 == 0 && limit % 16 == 0 && growth % 16 == 0
    ensures required <= Extra(required, limit - mapped, growth) <= limit - mapped
    ensures 16 * (Extra(required, limit - mapped, growth) / 16) == Extra(required, limit - mapped, growth)
    ensures (mapped + Extra(required, limit - mapped, growth)) % 16 == 0
  {
    var available := limit - mapped;
    var steps := required / growth + (if required % growth != 0 then 1 else 0);
    var extra := Extra(required, available, growth);
    assert required <= steps * growth by { CeilingCovers(required, growth); }
    if steps <= available / growth {
      MulBelow(steps, available, growth);
      MulAligned(steps, growth);
    } else {
      Aligned16(available, limit / 16 - mapped / 16);
    }
    Aligned16(mapped + extra, mapped / 16 + extra / 16);
  }

  /** The least whole number of growth steps that covers what is required; or all that is left, if no number of steps fits. */
  lemma ExtraLeast(required: nat, available: nat, growth: nat, k: nat) returns (j: nat)
    requires 0 < required <= available && 0 < growth
    ensures required <= Extra(required, available, growth) <= available
    ensures required <= k * growth <= available ==> Extra(required, available, growth) <= k * growth
    ensures Extra(required, available, growth) == available || Extra(required, available, growth) == j * growth
  {
    j := required / growth + if required % growth != 0 then 1 else 0;
    CeilingCovers(required, growth);
    if j <= available / growth { MulBelow(j, available, growth); }
    if required <= k * growth <= available {
      StepsLeast(required, growth, k);
      StepsFit(k, available, growth);
      MulLe(j, k, growth);
    }
  }

  lemma StepsFit(k: nat, n: nat, d: nat)
    requires 0 < d && k * d <= n
    ensures k <= n / d
  {
    var q := n / d;
    assert n == q * d + n % d;
    assert (q + 1) * d == q * d + d;
    if k > q { MulLe(q + 1, k, d); }
  }

  lemma MulLe(a: nat, b: nat, d: nat)
    requires a <= b
    ensures a * d <= b * d
  {
  }

  lemma Cancel(a: nat, b: nat, d: nat)
    requires a * d <= b * d && 0 < d
    ensures a <= b
  {
    assert (b + 1) * d == b * d + d;
    if a > b { MulLe(b + 1, a, d); }
  }

  /** No fewer steps cover `n`. */
  lemma StepsLeast(n: nat, d: nat, k: nat)
    requires 0 < d && n <= k * d
    ensures n / d + (if n % d != 0 then 1 else 0) <= k
  {
    var q := n / d;
    assert n == q * d + n % d;
    Cancel(q, k, d);
    assert (q + 1) * d == q * d + d;
    if k == q { assert k * d == q * d; }
  }

  lemma Aligned16(n: nat, k: int)
    requires n == 16 * k
    ensures n % 16 == 0 && n / 16 == k
  {
  }

  lemma CeilingCovers(n: nat, d: nat)
    requires 0 < d
    ensures n <= (n / d + (if n % d != 0 then 1 else 0)) * d
  {
    assert n == n / d * d + n % d;
    assert (n / d + 1) * d == n / d * d + d;
  }

  lemma MulBelow(k: nat, n: nat, d: nat)
    requires 0 < d && k <= n / d
    ensures k * d <= n
  {
    assert n == n / d * d + n % d;
    assert n / d * d == k * d + (n / d - k) * d;
  }

  lemma MulAligned(k: nat, d: nat)
    requires d % 16 == 0
    ensures (k * d) % 16 == 0
  {
    assert d == 16 * (d / 16);
    assert k * d == 16 * (k * (d / 16));
  }

  // ---------------------------------------------------------------- accounting

  ghost function Total(m: Headers, S: set<nat>): nat {
    if S == {} then 0 else
      var o :| o in S;
      At(m, o).requested + Total(m, S - {o})
  }

  lemma {:induction false} TotalRemove(m: Headers, S: set<nat>, o: nat)
    requires o in S
    ensures Total(m, S) == At(m, o).requested + Total(m, S - {o})
  {
    var p :| p in S && Total(m, S) == At(m, p).requested + Total(m, S - {p});
    if p != o {
      TotalRemove(m, S - {p}, o);
      TotalRemove(m, S - {o}, p);
      assert S - {p} - {o} == S - {o} - {p};
    }
  }

  lemma {:induction false} TotalFrame(m: Headers, n: Headers, S: set<nat>)
    requires forall o | o in S :: At(m, o).requested == At(n, o).requested
    ensures Total(m, S) == Total(n, S)
  {
    if S != {} {
      var o :| o in S;
      TotalRemove(m, S, o);
      TotalRemove(n, S, o);
      TotalFrame(m, n, S - {o});
    }
  }

  /** The total after one allocation appears, or disappears, while the others stay. */
  lemma TotalGain(m: Headers, n: Headers, S: set<nat>, o: nat)
    requires o !in S && forall p | p in S :: At(m, p).requested == At(n, p).requested
    ensures Total(n, S + {o}) == Total(m, S) + At(n, o).requested
    ensures |S + {o}| == |S| + 1
  {
    TotalRemove(n, S + {o}, o);
    assert S + {o} - {o} == S;
    TotalFrame(m, n, S);
  }

  lemma TotalLoss(m: Headers, n: Headers, S: set<nat>, o: nat)
    requires o in S && forall p | p in S && p != o :: At(m, p).requested == At(n, p).requested
    ensures Total(n, S - {o}) == Total(m, S) - At(m, o).requested
    ensures |S - {o}| == |S| - 1
  {
    TotalRemove(m, S, o);
    TotalFrame(m, n, S - {o});
  }

  lemma TotalChange(m: Headers, n: Headers, S: set<nat>, o: nat)
    requires o in S && forall p | p in S && p != o :: At(m, p).requested == At(n, p).requested
    ensures Total(n, S) == Total(m, S) - At(m, o).requested + At(n, o).requested
    ensures At(m, o).requested <= Total(m, S)
  {
    TotalRemove(m, S, o);
    TotalRemove(n, S, o);
    TotalFrame(m, n, S - {o});
  }

  /** The blocks' sizes, headers included. */
  ghost function SizeTotal(m: Headers, S: set<nat>): nat {
    if S == {} then 0 else
      var o :| o in S;
      SizeAt(m, o) + SizeTotal(m, S - {o})
  }

  lemma {:induction false} SizeTotalRemove(m: Headers, S: set<nat>, o: nat)
    requires o in S
    ensures SizeTotal(m, S) == SizeAt(m, o) + SizeTotal(m, S - {o})
  {
    var p :| p in S && SizeTotal(m, S) == SizeAt(m, p) + SizeTotal(m, S - {p});
    if p != o {
      SizeTotalRemove(m, S - {p}, o);
      SizeTotalRemove(m, S - {o}, p);
      assert S - {p} - {o} == S - {o} - {p};
    }
  }

  lemma {:induction false} SizeTotalUnion(m: Headers, S: set<nat>, T: set<nat>)
    requires S !! T
    ensures SizeTotal(m, S + T) == SizeTotal(m, S) + SizeTotal(m, T)
  {
    if S == {} { assert S + T == T; }
    else {
      var o :| o in S;
      SizeTotalRemove(m, S, o);
      SizeTotalRemove(m, S + T, o);
      assert S + T - {o} == (S - {o}) + T;
      SizeTotalUnion(m, S - {o}, T);
    }
  }

  ghost function AtOrAfter(B: set<nat>, o: nat): set<nat> { set p | p in B && o <= p }

  /** The blocks from `o` on account for every byte up to the end of the arena. */
  lemma {:induction false} SizesTile(m: Headers, B: set<nat>, mapped: nat, o: nat)
    requires Shape(m, B, mapped) && (o in B || o == mapped)
    ensures SizeTotal(m, AtOrAfter(B, o)) == mapped - o
    decreases mapped - o
  {
    if o in B {
      assert Tile(m, B, mapped, o);
      var next := o + SizeAt(m, o);
      SizesTile(m, B, mapped, next);
      SizeTotalRemove(m, AtOrAfter(B, o), o);
      assert AtOrAfter(B, o) - {o} == AtOrAfter(B, next);
    } else {
      forall p | p in B ensures p < mapped { assert Tile(m, B, mapped, p); }
      assert AtOrAfter(B, o) == {};
    }
  }

  lemma {:induction false} TotalWithinSizes(m: Headers, B: set<nat>, mapped: nat, S: set<nat>)
    requires Shape(m, B, mapped) && S <= LiveSet(m, B)
    ensures Total(m, S) + HEADER * |S| <= SizeTotal(m, S)
  {
    if S != {} {
      var o :| o in S;
      assert Tile(m, B, mapped, o);
      TotalRemove(m, S, o);
      SizeTotalRemove(m, S, o);
      TotalWithinSizes(m, B, mapped, S - {o});
    }
  }

  lemma {:induction false} FreeSizes(m: Headers, B: set<nat>, mapped: nat, S: set<nat>)
    requires Shape(m, B, mapped) && S <= B
    ensures HEADER * |S| <= SizeTotal(m, S)
  {
    if S != {} {
      var o :| o in S;
      assert Tile(m, B, mapped, o);
      SizeTotalRemove(m, S, o);
      FreeSizes(m, B, mapped, S - {o});
    }
  }

  /** Every mapped byte belongs to exactly one live or free block. */
  lemma BytesConserved(m: Headers, B: set<nat>, mapped: nat)
    requires Shape(m, B, mapped)
    ensures SizeTotal(m, LiveSet(m, B)) + SizeTotal(m, FreeSet(m, B)) == mapped
    ensures Total(m, LiveSet(m, B)) + HEADER * |LiveSet(m, B)| <= SizeTotal(m, LiveSet(m, B))
    ensures HEADER * |FreeSet(m, B)| <= SizeTotal(m, FreeSet(m, B))
  {
    SizesTile(m, B, mapped, 0);
    assert AtOrAfter(B, 0) == LiveSet(m, B) + FreeSet(m, B);
    SizeTotalUnion(m, LiveSet(m, B), FreeSet(m, B));
    TotalWithinSizes(m, B, mapped, LiveSet(m, B));
    FreeSizes(m, B, mapped, FreeSet(m, B));
  }

  // ---------------------------------------------------------------- what the invariant means

  /** The offsets met by following `freeNext` from `o`. */
  ghost function Follow(m: Headers, head: nat, F: set<nat>, o: nat): seq<nat>
    requires Linked(m, head, F) && (o == NONE || o in F)
    decreases if o == NONE then 0 else NONE - o
  {
    if o == NONE then [] else
      assert NodeOk(m, F, o);
      [o] + Follow(m, head, F, At(m, o).freeNext)
  }

  lemma {:induction false} FollowFrom(m: Headers, head: nat, F: set<nat>, o: nat)
    requires Linked(m, head, F) && (o == NONE || o in F)
    ensures forall p :: p in Follow(m, head, F, o) <==> p in F && o <= p
    ensures forall i, j | 0 <= i < j < |Follow(m, head, F, o)| :: Follow(m, head, F, o)[i] < Follow(m, head, F, o)[j]
    decreases if o == NONE then 0 else NONE - o
  {
    if o != NONE {
      assert NodeOk(m, F, o);
      var next := At(m, o).freeNext;
      FollowFrom(m, head, F, next);
      var fl, rest := Follow(m, head, F, o), Follow(m, head, F, next);
      forall i, j | 0 <= i < j < |fl| ensures fl[i] < fl[j] {
        assert fl[j] == rest[j - 1] && rest[j - 1] in rest;
      }
    }
  }

  /** The part of the list before `o`; all of it once the end is reached. */
  ghost function Before(F: set<nat>, o: nat): set<nat> { set p | p in F && (o == NONE || p < o) }

  lemma BeforeNext(m: Headers, head: nat, F: set<nat>, o: nat)
    requires Linked(m, head, F) && o in F
    ensures Before(F, At(m, o).freeNext) == Before(F, o) + {o} && o !in Before(F, o)
    ensures At(m, o).freeNext == NONE || (At(m, o).freeNext in F && o < At(m, o).freeNext < NONE)
    ensures SizeTotal(m, Before(F, o) + {o}) == SizeTotal(m, Before(F, o)) + SizeAt(m, o)
    ensures |Before(F, o) + {o}| == |Before(F, o)| + 1
  {
    assert NodeOk(m, F, o);
    SizeTotalRemove(m, Before(F, o) + {o}, o);
    assert Before(F, o) + {o} - {o} == Before(F, o);
  }

  /** The free list is exactly the free blocks, each once, in address order. */
  lemma FreeListInOrder(m: Headers, head: nat, mapped: nat, B: set<nat>)
    requires Sound(m, head, mapped, B)
    ensures var fl := Follow(m, head, FreeSet(m, B), head);
      && (forall p :: p in fl <==> p in B && !UsedAt(m, p))
      && (forall i, j | 0 <= i < j < |fl| :: fl[i] < fl[j])
  {
    var F := FreeSet(m, B);
    FollowFrom(m, head, F, head);
    forall p ensures p in Follow(m, head, F, head) <==> p in B && !UsedAt(m, p) {
      assert p in F <==> p in B && !UsedAt(m, p);
    }
  }

  /** With nothing allocated, coalescing leaves one free block spanning the arena. */
  lemma EmptyIsOneBlock(m: Headers, head: nat, mapped: nat, B: set<nat>)
    requires Sound(m, head, mapped, B) && LiveSet(m, B) == {}
    ensures B == {0} && !UsedAt(m, 0) && SizeAt(m, 0) == mapped && head == 0
  {
    assert Tile(m, B, mapped, 0) && Coalesced(m, B, 0);
    forall o | o in B ensures !UsedAt(m, o) { assert o !in LiveSet(m, B); }
    forall o | o in B ensures o == 0 { assert Tile(m, B, mapped, o); }
    assert 0 in FreeSet(m, B);
  }

  // ---------------------------------------------------------------- the client's view

  /** The bytes the client sees at an allocation. */
  ghost function Payload(m: Headers, b: Bytes, o: nat): seq<byte> {
    seq<byte>(At(m, o).requested, k requires 0 <= k => ByteAt(b, o + HEADER + k))
  }

  /** The abstract heap: the bytes of every allocation, by block offset. */
  ghost function LiveMap(m: Headers, b: Bytes, S: set<nat>): map<nat, seq<byte>> {
    map o | o in S :: Payload(m, b, o)
  }

  lemma PayloadFrame(m: Headers, n: Headers, b: Bytes, c: Bytes, S: set<nat>, o: nat)
    requires o in S && Untouched(m, S, b, c) && At(m, o).requested == At(n, o).requested
    ensures Payload(m, b, o) == Payload(n, c, o)
  {
    var u, v := Payload(m, b, o), Payload(n, c, o);
    forall k | 0 <= k < |u| ensures u[k] == v[k] {
      assert InPayload(m, o, o + HEADER + k);
    }
  }

  ghost function Overwritten(s: seq<byte>, from: nat, to: nat, value: byte): seq<byte> {
    seq<byte>(|s|, k requires 0 <= k < |s| => if from <= k < to then value else s[k])
  }

  ghost function Zeros(n: nat): seq<byte> { seq<byte>(n, _ => 0) }

  lemma OverwrittenWhole(s: seq<byte>)
    ensures Overwritten(s, 0, |s|, 0) == Zeros(|s|)
  {
  }

  lemma PayloadFilled(m: Headers, n: Headers, b: Bytes, c: Bytes, o: nat, from: nat, to: nat, value: byte)
    requires At(m, o).requested == At(n, o).requested
    requires forall i: nat :: ByteAt(c, i) == if o + HEADER + from <= i < o + HEADER + to then value else ByteAt(b, i)
    ensures Payload(n, c, o) == Overwritten(Payload(m, b, o), from, to, value)
  {
  }

  /** The first bytes, up to the smaller of the two sizes, are the same. */
  ghost predicate Preserves(was: seq<byte>, now: seq<byte>) {
    forall k | 0 <= k < |was| && k < |now| :: now[k] == was[k]
  }

  lemma PayloadLength(m: Headers, b: Bytes, S: set<nat>, o: nat)
    requires o in S
    ensures o in LiveMap(m, b, S) && |LiveMap(m, b, S)[o]| == At(m, o).requested
  {
  }

  /** What the block at `o` has beyond its request carries the mark of unused memory. */
  ghost predicate Slack(on: bool, m: Headers, b: Bytes, o: nat) {
    on ==> forall i: nat | o + HEADER + At(m, o).requested <= i < o + SizeAt(m, o) :: ByteAt(b, i) == 0xdd
  }

  /** What `v` has beyond the length of `u` carries the mark of new memory. */
  ghost predicate Stamped(on: bool, u: seq<byte>, v: seq<byte>) { on ==> forall k | |u| <= k < |v| :: v[k] == 0xcd }

  lemma PayloadStamped(m: Headers, n: Headers, b: Bytes, c: Bytes, o: nat, on: bool)
    requires on ==> forall i: nat | InPayload(n, o, i) && !InPayload(m, o, i) :: ByteAt(c, i) == 0xcd
    ensures Stamped(on, Payload(m, b, o), Payload(n, c, o))
  {
    var u, v := Payload(m, b, o), Payload(n, c, o);
    if on {
      forall k | |u| <= k < |v| ensures v[k] == 0xcd { assert InPayload(n, o, o + HEADER + k) && !InPayload(m, o, o + HEADER + k); }
    }
  }

  lemma PayloadPreserved(m: Headers, n: Headers, b: Bytes, c: Bytes, o: nat)
    requires forall i: nat | InPayload(m, o, i) && InPayload(n, o, i) :: ByteAt(c, i) == ByteAt(b, i)
    ensures Preserves(Payload(m, b, o), Payload(n, c, o))
  {
    var u, v := Payload(m, b, o), Payload(n, c, o);
    forall k | 0 <= k < |u| && k < |v| ensures v[k] == u[k] {
      assert InPayload(m, o, o + HEADER + k) && InPayload(n, o, o + HEADER + k);
    }
  }

  lemma PayloadCopied(m: Headers, n: Headers, b: Bytes, c: Bytes, from: nat, src: nat, to: nat, count: nat, on: bool)
    requires src == from + HEADER
    requires count == if At(m, from).requested < At(m, to).requested then At(m, from).requested else At(m, to).requested
    requires At(n, to).requested == At(m, to).requested
    requires IsCopy(b, c, to + HEADER, src, count)
    ensures Preserves(Payload(m, b, from), Payload(n, c, to))
    ensures Stamped(on, [], Payload(m, b, to)) ==> Stamped(on, Payload(m, b, from), Payload(n, c, to))
  {
    var u, v, w := Payload(m, b, from), Payload(n, c, to), Payload(m, b, to);
    if on && Stamped(on, [], w) {
      forall k | |u| <= k < |v| ensures v[k] == 0xcd { assert v[k] == w[k]; }
    }
  }

  /** An allocation appears, vanishes or changes; the others look the same. */
  lemma LiveMapKeys(m: Headers, b: Bytes, S: set<nat>)
    ensures LiveMap(m, b, S).Keys == S
  {
  }

  lemma PayloadPoisoned(m: Headers, b: Bytes, o: nat, poisoned: bool)
    requires poisoned ==> forall i: nat | InPayload(m, o, i) :: ByteAt(b, i) == 0xcd
    ensures |Payload(m, b, o)| == At(m, o).requested
    ensures poisoned ==> forall k | 0 <= k < At(m, o).requested :: Payload(m, b, o)[k] == 0xcd
  {
    if poisoned {
      forall k | 0 <= k < At(m, o).requested ensures Payload(m, b, o)[k] == 0xcd { assert InPayload(m, o, o + HEADER + k); }
    }
  }

  lemma LiveMapGain(m: Headers, n: Headers, b: Bytes, c: Bytes, S: set<nat>, o: nat)
    requires o !in S && Untouched(m, S, b, c)
    requires forall p | p in S :: At(m, p).requested == At(n, p).requested
    ensures LiveMap(n, c, S + {o}) == LiveMap(m, b, S)[o := Payload(n, c, o)]
  {
    forall q | q in S ensures Payload(m, b, q) == Payload(n, c, q) { PayloadFrame(m, n, b, c, S, q); }
  }

  lemma LiveMapLoss(m: Headers, n: Headers, b: Bytes, c: Bytes, S: set<nat>, o: nat)
    requires o in S && Untouched(m, S - {o}, b, c)
    requires forall p | p in S - {o} :: At(m, p).requested == At(n, p).requested
    ensures LiveMap(n, c, S - {o}) == LiveMap(m, b, S) - {o}
  {
    forall q | q in S - {o} ensures Payload(m, b, q) == Payload(n, c, q) { PayloadFrame(m, n, b, c, S - {o}, q); }
  }

  lemma LiveMapChange(m: Headers, n: Headers, b: Bytes, c: Bytes, S: set<nat>, o: nat)
    requires o in S && Untouched(m, S - {o}, b, c)
    requires forall p | p in S && p != o :: At(m, p).requested == At(n, p).requested
    ensures LiveMap(n, c, S) == LiveMap(m, b, S)[o := Payload(n, c, o)]
  {
    forall q | q in S - {o} ensures Payload(m, b, q) == Payload(n, c, q) { PayloadFrame(m, n, b, c, S - {o}, q); }
  }

  lemma LiveMapFrame(m: Headers, n: Headers, b: Bytes, c: Bytes, S: set<nat>)
    requires Untouched(m, S, b, c) && forall p | p in S :: At(m, p).requested == At(n, p).requested
    ensures LiveMap(n, c, S) == LiveMap(m, b, S)
  {
    forall q | q in S ensures Payload(m, b, q) == Payload(n, c, q) { PayloadFrame(m, n, b, c, S, q); }
  }

  /** Filling part of one allocation's payload is a point update of the client's view. */
  lemma LiveMapFilled(m: Headers, n: Headers, b: Bytes, c: Bytes, S: set<nat>, o: nat,
                      from: nat, to: nat, value: byte)
    requires o in S && Untouched(m, S - {o}, b, c)
    requires forall p | p in S :: At(m, p).requested == At(n, p).requested
    requires forall i: nat :: ByteAt(c, i) == if o + HEADER + from <= i < o + HEADER + to then value else ByteAt(b, i)
    ensures LiveMap(n, c, S) == LiveMap(m, b, S)[o := Overwritten(LiveMap(m, b, S)[o], from, to, value)]
  {
    LiveMapChange(m, n, b, c, S, o);
    PayloadFilled(m, n, b, c, o, from, to, value);
  }

  // ---------------------------------------------------------------- no waste

  /** The block is less than a minimal block larger than its rounded request, header included. */
  ghost predicate Tight(m: Headers, o: nat) { SizeAt(m, o) < RoundedUp(HEADER + At(m, o).requested) + MIN_BLOCK }

  /** The least multiple of 16 from `n` on. */
  function RoundedUp(n: nat): (r: nat)
    ensures r % 16 == 0 && n <= r < n + 16
  {
    (n + 15) / 16 * 16
  }

  ghost predicate Economical(m: Headers, S: set<nat>) { forall o {:trigger Tight(m, o)} | o in S :: Tight(m, o) }

  lemma TightKept(m: Headers, n: Headers, S: set<nat>)
    requires SameUnits(m, n, S) && forall o | o in S :: At(n, o).requested == At(m, o).requested
    ensures Economical(m, S) ==> Economical(n, S)
  {
    if Economical(m, S) {
      forall o {:trigger Tight(n, o)} | o in S ensures Tight(n, o) { assert Tight(m, o); }
    }
  }

  lemma EconomicalLess(m: Headers, S: set<nat>, o: nat)
    ensures Economical(m, S) ==> Economical(m, S - {o})
  {
  }

  lemma TightMore(m: Headers, n: Headers, S: set<nat>, o: nat)
    requires SameUnits(m, n, S - {o}) && (forall p | p in S - {o} :: At(n, p).requested == At(m, p).requested) && Tight(n, o)
    ensures Economical(m, S - {o}) ==> Economical(n, S + {o})
  {
    TightKept(m, n, S - {o});
  }
}
