/**
  Why the single pass of `heap_core_validate` decides the declarative invariant: after each block the
  blocks seen so far tile a prefix and the links seen so far are the start of the free list.
*/
module HeapValidate {
  import opened HeapLayout

  /** The checks made at one block, given the running state of the pass. */
  predicate Passes(m: Headers, mapped: nat, offset: nat, previous: nat, prior: nat, current: nat, previousFree: bool)
    requires offset < mapped
  {
    var block := At(m, offset);
    var size := SizeAt(m, offset);
    && HEADER <= mapped - offset
    && block.stamp == offset && block.reserved == 0
    && MIN_BLOCK <= size <= mapped - offset
    && block.prevSize == previous
    && (if block.used then
          && block.requested != 0 && block.requested <= size - HEADER
          && block.freePrev == NONE && block.freeNext == NONE
        else
          block.requested == 0 && !previousFree && current == offset && block.freePrev == prior)
  }

  /** The links met so far: `F` in order, ending at `prior`, with `current` the link out of it. */
  ghost predicate Chained(m: Headers, head: nat, F: set<nat>, prior: nat, current: nat) {
    && (forall o | o in F :: o < NONE)
    && (F == {} ==> prior == NONE && current == head)
    && (F != {} ==>
          && prior in F && (forall p | p in F :: p <= prior)
          && current == At(m, prior).freeNext
          && Neighbours(F, NONE, head)
          && (forall o {:trigger Joined(m, F, prior, o)} | o in F :: Joined(m, F, prior, o)))
  }

  ghost predicate Joined(m: Headers, F: set<nat>, prior: nat, o: nat) {
    Neighbours(F, At(m, o).freePrev, o) && (o != prior ==> Neighbours(F, o, At(m, o).freeNext))
  }

  /** The blocks `V` seen so far tile [0, offset) and the last of them has size `previous`. */
  ghost predicate Walked(m: Headers, head: nat, V: set<nat>, offset: nat,
                         previous: nat, prior: nat, current: nat, previousFree: bool)
  {
    && Chained(m, head, FreeSet(m, V), prior, current)
    && if offset == 0 then V == {} && previous == 0 && !previousFree
       else
         && Shape(m, V, offset) && NoAdjacentFree(m, V) && UsedUnlinked(m, V)
         && previous <= offset && offset - previous in V && SizeAt(m, offset - previous) == previous
         && previousFree == !UsedAt(m, offset - previous)
  }

  lemma WalkStepChain(m: Headers, head: nat, F: set<nat>, prior: nat, o: nat)
    requires Chained(m, head, F, prior, o) && At(m, o).freePrev == prior
    requires o < NONE && forall p | p in F :: p < o
    ensures Chained(m, head, F + {o}, o, At(m, o).freeNext)
  {
    var G := F + {o};
    forall p {:trigger Joined(m, G, o, p)} | p in G ensures Joined(m, G, o, p) {
      if p != o { assert Joined(m, F, prior, p); }
    }
  }

  /** Passing the checks extends the walked prefix by one block. */
  lemma WalkStep(m: Headers, head: nat, V: set<nat>, mapped: nat, offset: nat,
                 previous: nat, prior: nat, current: nat, previousFree: bool)
    requires Walked(m, head, V, offset, previous, prior, current, previousFree)
    requires offset < mapped < NONE && Passes(m, mapped, offset, previous, prior, current, previousFree)
    ensures offset !in V
    ensures Walked(m, head, V + {offset}, offset + SizeAt(m, offset), SizeAt(m, offset),
                   if UsedAt(m, offset) then prior else offset,
                   if UsedAt(m, offset) then current else At(m, offset).freeNext,
                   !UsedAt(m, offset))
  {
    var W, end := V + {offset}, offset + SizeAt(m, offset);
    if offset == 0 {
      assert Tile(m, W, end, 0);
      assert Coalesced(m, W, 0);
    } else {
      ShapeAppend(m, V, offset, end, offset - previous);
      forall p | p in V ensures p < offset { assert Tile(m, V, offset, p); }
    }
    forall o {:trigger Bare(m, o)} | o in W ensures Bare(m, o) {
      if o in V { assert Bare(m, o); }
    }
    if UsedAt(m, offset) {
      assert FreeSet(m, W) == FreeSet(m, V);
    } else {
      assert FreeSet(m, W) == FreeSet(m, V) + {offset};
      WalkStepChain(m, head, FreeSet(m, V), prior, offset);
    }
  }

  /** A walk that reached the end of the arena with no link left over has checked everything. */
  lemma WalkEnds(m: Headers, head: nat, V: set<nat>, mapped: nat, previous: nat, prior: nat, previousFree: bool)
    requires 0 < mapped && Walked(m, head, V, mapped, previous, prior, NONE, previousFree)
    ensures Sound(m, head, mapped, V)
  {
    var F := FreeSet(m, V);
    forall o {:trigger NodeOk(m, F, o)} | o in F ensures NodeOk(m, F, o) { assert Joined(m, F, prior, o); }
  }

  /** On a sound heap no check fails along the way, and no link is left at the end. */
  lemma SoundPasses(m: Headers, head: nat, B: set<nat>, mapped: nat, V: set<nat>, offset: nat,
                    previous: nat, prior: nat, current: nat, previousFree: bool)
    requires Sound(m, head, mapped, B) && Walked(m, head, V, offset, previous, prior, current, previousFree)
    requires V == (set o | o in B && o < offset)
    requires offset == mapped || offset in B
    ensures offset == mapped ==> current == NONE
    ensures offset < mapped ==> Passes(m, mapped, offset, previous, prior, current, previousFree)
  {
    var F, G := FreeSet(m, V), FreeSet(m, B);
    assert F == set o | o in G && o < offset;
    if F != {} { assert NodeOk(m, G, prior); }
    assert current == NONE || (current in G && current !in F);
    if offset in B {
      assert Tile(m, B, mapped, offset) && Bare(m, offset);
      if offset != 0 {
        var p := offset - At(m, offset).prevSize;
        assert Tile(m, B, mapped, p) && Tile(m, B, mapped, offset - previous);
        assert p == offset - previous;
        assert Coalesced(m, B, p);
      }
      if !UsedAt(m, offset) { assert NodeOk(m, G, offset); }
    } else {
      forall o | o in B ensures o < mapped { assert Tile(m, B, mapped, o); }
    }
  }

  lemma CountStep(m: Headers, V: set<nat>, offset: nat)
    requires forall o | o in V :: o < offset
    ensures |LiveSet(m, V + {offset})| == |LiveSet(m, V)| + if UsedAt(m, offset) then 1 else 0
    ensures Total(m, LiveSet(m, V + {offset})) ==
            Total(m, LiveSet(m, V)) + if UsedAt(m, offset) then At(m, offset).requested else 0
  {
    if UsedAt(m, offset) {
      TotalGain(m, m, LiveSet(m, V), offset);
      assert LiveSet(m, V + {offset}) == LiveSet(m, V) + {offset};
    } else {
      assert LiveSet(m, V + {offset}) == LiveSet(m, V);
    }
  }

  /** The local variables of the pass. */
  datatype Pass = Pass(offset: nat, previous: nat, prior: nat, current: nat, previousFree: bool,
                       live: nat, requested: nat)

  predicate BlockPasses(m: Headers, mapped: nat, s: Pass)
    requires s.offset < mapped
  {
    Passes(m, mapped, s.offset, s.previous, s.prior, s.current, s.previousFree)
  }

  /** The loop's updates after a block has passed its checks. */
  function Advance(m: Headers, s: Pass): Pass {
    var block, size := At(m, s.offset), SizeAt(m, s.offset);
    if block.used then
      Pass(s.offset + size, size, s.prior, s.current, false, s.live + 1, s.requested + block.requested)
    else
      Pass(s.offset + size, size, s.offset, block.freeNext, true, s.live, s.requested)
  }

  /** After the blocks `V`: they are the ones before the pass's position, and its variables describe them. */
  ghost predicate OnTrack(m: Headers, head: nat, mapped: nat, V: set<nat>, s: Pass) {
    && Walked(m, head, V, s.offset, s.previous, s.prior, s.current, s.previousFree)
    && s.offset <= mapped
    && (forall o | o in V :: o < s.offset)
    && Starts(m, 0, mapped) == V + Starts(m, s.offset, mapped)
    && s.live == |LiveSet(m, V)|
    && s.requested == Total(m, LiveSet(m, V))
  }

  lemma StaysOnTrack(m: Headers, head: nat, mapped: nat, V: set<nat>, s: Pass)
    requires OnTrack(m, head, mapped, V, s) && s.offset < mapped < NONE && BlockPasses(m, mapped, s)
    ensures OnTrack(m, head, mapped, V + {s.offset}, Advance(m, s))
  {
    CountStep(m, V, s.offset);
    WalkStep(m, head, V, mapped, s.offset, s.previous, s.prior, s.current, s.previousFree);
  }

  /** A pass over a sound heap stands at a block or at the end. */
  lemma OnTrackAt(m: Headers, head: nat, mapped: nat, V: set<nat>, s: Pass)
    requires OnTrack(m, head, mapped, V, s) && Sound(m, head, mapped, Starts(m, 0, mapped))
    ensures s.offset == mapped || s.offset in Starts(m, 0, mapped)
  {
    hide NoAdjacentFree, UsedUnlinked, Starts, FreeSet, LiveSet;
    if s.offset != 0 {
      var p := s.offset - s.previous;
      assert p in Starts(m, 0, mapped) && Tile(m, Starts(m, 0, mapped), mapped, p);
    }
  }

  lemma SoundOnTrack(m: Headers, head: nat, mapped: nat, V: set<nat>, s: Pass)
    requires OnTrack(m, head, mapped, V, s) && Sound(m, head, mapped, Starts(m, 0, mapped))
    ensures s.offset == mapped ==> s.current == NONE
    ensures s.offset < mapped ==> BlockPasses(m, mapped, s)
  {
    OnTrackAt(m, head, mapped, V, s);
    var B := Starts(m, 0, mapped);
    assert Starts(m, s.offset, mapped) == set p | p in B && s.offset <= p by { SoundStartsFrom(m, head, B, mapped, s.offset); }
    hide Sound, Walked, Starts, Passes;
    assert V == set o | o in B && o < s.offset;
    SoundPasses(m, head, B, mapped, V, s.offset, s.previous, s.prior, s.current, s.previousFree);
  }

  lemma SoundStartsFrom(m: Headers, head: nat, B: set<nat>, mapped: nat, o: nat)
    requires Sound(m, head, mapped, B) && (o in B || o == mapped)
    ensures Starts(m, o, mapped) == set p | p in B && o <= p
  {
    hide NoAdjacentFree, UsedUnlinked, Starts, FreeSet;
    StartsFrom(m, B, mapped, o);
  }
}
