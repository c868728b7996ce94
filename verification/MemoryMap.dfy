/**
  The boot memory map of kernel/memory/memory_map.c and the page arithmetic of kernel/memory/memory_helpers.c.
*/
module MemoryMap {
  import opened Octets

  const PAGE: nat := 4096
  const UINT64_MAX: nat := 0xFFFF_FFFF_FFFF_FFFF
  const REGION_LIMIT: nat := 512

  // ---------------------------------------------------------------- page arithmetic

  predicate Aligned(x: nat) { x % PAGE == 0 }

  function AlignDown(x: nat): (r: nat)
    ensures Aligned(r) && r <= x < r + PAGE
  {
    x - x % PAGE
  }

  /** Rounding up fails exactly where the 64-bit sum would wrap. */
  function AlignUp(x: nat): (r: Option<nat>)
    ensures r.None? <==> x > UINT64_MAX - (PAGE - 1)
    ensures r.Some? ==> Aligned(r.value) && r.value - PAGE < x <= r.value <= UINT64_MAX
  {
    if x > UINT64_MAX - (PAGE - 1) then None else Some(AlignDown(x + PAGE - 1))
  }

  // ---------------------------------------------------------------- regions

  datatype Kind =
    | Usable | Reserved | AcpiReclaimable | AcpiNvs | Bad | BootloaderReclaimable | KernelAndModules | Framebuffer

  datatype Region = Region(base: nat, length: nat, kind: Kind) {
    function End(): nat { base + length }
  }

  predicate Exclusive(k: Kind) { k == Usable || k == BootloaderReclaimable }

  predicate Clash(a: Region, b: Region) {
    (Exclusive(a.kind) || Exclusive(b.kind)) && a.base < b.End() && b.base < a.End()
  }

  predicate RegionOk(r: Region) {
    && 0 < r.length && r.End() <= UINT64_MAX
    && (Exclusive(r.kind) ==> Aligned(r.base) && Aligned(r.length))
  }

  ghost function TotalBytes(regions: seq<Region>, k: Kind): nat {
    if regions == [] then 0
    else
      var last := regions[|regions| - 1];
      TotalBytes(regions[..|regions| - 1], k) + if last.kind == k then last.length else 0
  }

  ghost predicate Sorted(regions: seq<Region>) {
    forall i, j | 0 <= i < j < |regions| :: regions[i].base <= regions[j].base
  }

  ghost predicate Disjoint(regions: seq<Region>) {
    forall i, j | 0 <= i < j < |regions| :: !Clash(regions[j], regions[i])
  }

  /** What every map built with `Add` satisfies. */
  ghost predicate MapOk(regions: seq<Region>, usable: nat, reclaimable: nat) {
    && |regions| <= REGION_LIMIT
    && (forall i | 0 <= i < |regions| :: RegionOk(regions[i]))
    && Sorted(regions) && Disjoint(regions)
    && usable == TotalBytes(regions, Usable) <= UINT64_MAX
    && reclaimable == TotalBytes(regions, BootloaderReclaimable) <= UINT64_MAX
  }

  /** What `Add` asks of a new region. */
  ghost predicate Acceptable(regions: seq<Region>, r: Region) {
    && |regions| < REGION_LIMIT && RegionOk(r)
    && (forall i | 0 <= i < |regions| :: regions[i].base <= r.base && !Clash(r, regions[i]))
    && TotalBytes(regions + [r], Usable) <= UINT64_MAX
    && TotalBytes(regions + [r], BootloaderReclaimable) <= UINT64_MAX
  }

  lemma BytesSnoc(regions: seq<Region>, r: Region, k: Kind)
    ensures TotalBytes(regions + [r], k) == TotalBytes(regions, k) + if r.kind == k then r.length else 0
  {
    assert (regions + [r])[..|regions|] == regions;
  }

  lemma AppendOk(regions: seq<Region>, usable: nat, reclaimable: nat, r: Region)
    requires MapOk(regions, usable, reclaimable) && Acceptable(regions, r)
    ensures MapOk(regions + [r], TotalBytes(regions + [r], Usable), TotalBytes(regions + [r], BootloaderReclaimable))
  {
    hide TotalBytes, RegionOk, Clash;
  }

  class Map {
    var regions: seq<Region>
    var usable: nat
    var reclaimable: nat

    constructor ()
      ensures Valid() && regions == []
    {
      regions, usable, reclaimable := [], 0, 0;
    }

    ghost predicate Valid()
      reads this
    {
      MapOk(regions, usable, reclaimable)
    }

    /** Whether some region already recorded clashes with `r`. */
    method Clashes(r: Region) returns (found: bool)
      ensures found <==> exists i | 0 <= i < |regions| :: Clash(r, regions[i])
    {
      hide Clash;
      var i := 0;
      while i < |regions|
        invariant i <= |regions| && forall j | 0 <= j < i :: !Clash(r, regions[j])
      {
        if Clash(r, regions[i]) { return true; }
        i := i + 1;
      }
      return false;
    }

    /** A region is taken exactly when it keeps the map sorted, exclusive and summable; otherwise nothing changes. */
    method Add(r: Region) returns (ok: bool)
      requires Valid()
      modifies this
      ensures Valid()
      ensures ok <==> Acceptable(old(regions), r)
      ensures regions == if ok then old(regions) + [r] else old(regions)
    {
      hide Clash, Aligned, TotalBytes, Disjoint;
      BytesSnoc(regions, r, Usable);
      BytesSnoc(regions, r, BootloaderReclaimable);
      if |regions| >= REGION_LIMIT || r.length == 0 || r.length > UINT64_MAX - r.base { return false; }
      if |regions| != 0 && r.base < regions[|regions| - 1].base { return false; }
      if Exclusive(r.kind) && !(Aligned(r.base) && Aligned(r.length)) { return false; }
      var clash := Clashes(r);
      if clash { return false; }
      if r.kind == Usable && r.length > UINT64_MAX - usable { return false; }
      if r.kind == BootloaderReclaimable && r.length > UINT64_MAX - reclaimable { return false; }
      AppendOk(regions, usable, reclaimable, r);
      if r.kind == Usable {
        usable := usable + r.length;
      } else if r.kind == BootloaderReclaimable {
        reclaimable := reclaimable + r.length;
      }
      regions := regions + [r];
      return true;
    }
  }
}
