/**
  What loading an executable costs: one frame a page, and at most three tables for each 2 MiB region its pages touch.
*/
module ElfBudget {
  import opened MemoryMap
  import opened PageTable
  import opened TableLedger
  import opened UserVmSpec
  import opened UserVm
  import opened Elf

  /** What one last-level table maps. */
  const REGION: nat := 512 * PAGE

  // ---------------------------------------------------------------- neighbours share tables

  lemma SharedPath(x: nat, y: nat)
    requires x / REGION == y / REGION
    ensures Path(x)[..3] == Path(y)[..3]
  {
    var a, b := x / PAGE, y / PAGE;
    assert a / 512 == x / REGION && b / 512 == y / REGION;
    assert a / 0x4_0000 == a / 512 / 512 && b / 0x4_0000 == b / 512 / 512;
    assert a / 0x800_0000 == a / 512 / 512 / 512 && b / 0x800_0000 == b / 512 / 512 / 512;
  }

  /** Paths that differ only in the last index reach the last level together. */
  lemma {:induction false} SharedWalk(s: Space, p: seq<nat>, q: seq<nat>, f: Frame, level: nat, seen: set<Frame>, w: bool, u: bool, n: bool)
    requires |p| == |q| == 4 && p[..3] == q[..3] && 1 <= level <= 4
    requires WalkFrom(s, p, f, level, seen, w, u, n).Stop? && WalkFrom(s, p, f, level, seen, w, u, n).level == 1
    ensures WalkFrom(s, q, f, level, seen, w, u, n).Stop? ==> WalkFrom(s, q, f, level, seen, w, u, n).level == 1
    decreases level
  {
    hide EntryValid;
    if level > 1 {
      assert p[4 - level] == p[..3][4 - level] == q[..3][4 - level] == q[4 - level];
      var e := At(s.mem, f, p[4 - level]);
      SharedWalk(s, p, q, e.frame, level - 1, seen + {f}, w && e.writable, u && e.user, n || e.nx);
    }
  }

  /** Next to a mapped page of the same region, no table is missing. */
  lemma Neighbour(v: Space, pages: Pages, x: nat, y: nat)
    requires Agrees(v, pages) && x < USER_END && y < USER_END && x / REGION == y / REGION && Translate(v, y).Mapped?
    ensures Missing(v, x) == 0
  {
    hide WalkFrom, Path;
    LowerIndex(x);
    LowerIndex(y);
    assert Consistent(Translate(v, y), pages, y) && Consistent(Translate(v, x), pages, x);
    SharedPath(y, x);
    SharedWalk(v, Path(y), Path(x), v.root, 4, {}, true, true, false);
  }

  lemma MissingBound(v: Space, x: nat)
    ensures 0 <= Missing(v, x) <= 3
  {
    hide WalkFrom, Path;
    WalkLevel(v, Path(x), v.root, 4, {}, true, true, false);
  }

  // ---------------------------------------------------------------- regions

  /** How many regions a range of pages touches. */
  function Touched(first: nat, end: nat): nat { if end <= first then 0 else (end - 1) / REGION - first / REGION + 1 }

  ghost function Regions(segments: seq<Segment>): nat {
    if segments == [] then 0
    else Regions(segments[..|segments| - 1]) + Touched(segments[|segments| - 1].pageStart, segments[|segments| - 1].pageEnd)
  }

  lemma RegionsMore(segments: seq<Segment>, s: Segment)
    ensures Regions(segments + [s]) == Regions(segments) + Touched(s.pageStart, s.pageEnd)
  {
    assert (segments + [s])[..|segments|] == segments;
  }

  lemma {:induction false} RegionsPrefix(a: seq<Segment>, b: seq<Segment>)
    requires a <= b
    ensures Regions(a) <= Regions(b)
    decreases |b|
  {
    if |a| < |b| { RegionsPrefix(a, b[..|b| - 1]); } else { assert a == b; }
  }

  /** One page more is a new region only at the start or at a boundary. */
  lemma TouchedMore(first: nat, va: nat)
    requires Aligned(first) && Aligned(va) && first <= va
    ensures Touched(first, va + PAGE) == Touched(first, va) + if va == first || va % REGION == 0 then 1 else 0
    ensures va > first && va % REGION != 0 ==> va - PAGE >= first && (va - PAGE) / REGION == va / REGION
  {
    SameRegion(va);
    if va > first { Before(first, va); }
  }

  lemma SameRegion(va: nat)
    requires Aligned(va)
    ensures (va + PAGE - 1) / REGION == va / REGION
    ensures va >= PAGE && va % REGION != 0 ==> (va - 1) / REGION == va / REGION && (va - PAGE) / REGION == va / REGION
    ensures va > 0 && va % REGION == 0 ==> (va - 1) / REGION == va / REGION - 1
  {
    var n := va / PAGE;
    assert va == n * PAGE;
    assert va / REGION == n / 512 && va % REGION == n % 512 * PAGE;
  }

  lemma Before(first: nat, va: nat)
    requires Aligned(first) && Aligned(va) && first < va
    ensures first + PAGE <= va && first / REGION <= (va - 1) / REGION
  {
  }

  // ---------------------------------------------------------------- the budget

  /** Too few table slots or frames for so many pages and regions, or a frame that could not be used. */
  ghost predicate Cramped(limit: nat, hidden: set<Frame>, pool: set<Frame>, pages: nat, regions: nat) {
    1 + 3 * regions > TABLE_LIMIT || |pool| < 1 + pages + 3 * regions || exists f | f in pool :: f >= limit || f in hidden
  }

  lemma ShortCramped(limit: nat, hidden: set<Frame>, pool: set<Frame>, free: set<Frame>, missing: nat, held: nat, count: nat, pages: nat, regions: nat)
    requires Short(missing, limit, hidden, count, free) && free <= pool && |free| + held + count == |pool|
    requires held + 1 <= pages && count + missing <= 1 + 3 * regions
    ensures Cramped(limit, hidden, pool, pages, regions)
  {
  }
}
