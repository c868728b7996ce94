/**
  The FAT32 importer of kernel/fs/fat32.c: cached table lookups, the claim bitmap, file reading, the recursive directory
  walk and the all-or-nothing import.
*/
module Fat32Import {
  import opened Octets
  import opened Fat32Volume
  import opened Fat32Tree
  import opened Fat32Faults
  import opened Fat32Verdict
  import opened PmmBitmap
  import L = FrameLedger


  /**
    The allocator behind the callbacks; its answers are arbitrary, and refusals are counted. A free of anything but a live
    block is refused by contract.
  */
  class Pool {
    var live: map<nat, Bytes>
    var next: nat
    var script: seq<bool>
    ghost var refused: nat

    constructor (script: seq<bool>)
      ensures Valid() && live == map[] && refused == 0
    {
      live, next, this.script, refused := map[], 1, script, 0;
    }

    ghost predicate Valid()
      reads this
    {
      0 < next && forall p | p in live :: 0 < p < next
    }

    method Alloc(bytes: nat) returns (p: nat)
      requires Valid()
      modifies this
      ensures Valid()
      ensures p == 0 ==> live == old(live) && refused == old(refused) + 1
      ensures p != 0 ==> refused == old(refused)
      ensures p != 0 ==> p !in old(live) && live.Keys == old(live).Keys + {p} && |live[p]| == bytes && live == old(live)[p := live[p]]
    {
      var yes := script != [] && script[0];
      script := if script == [] then [] else script[1..];
      if !yes {
        refused := refused + 1;
        return 0;
      }
      p := next;
      live, next := live[p := seq(bytes, i => 0)], next + 1;
    }

    method Free(p: nat)
      requires Valid() && p in live
      modifies this`live
      ensures Valid() && live == old(live) - {p}
    {
      live := live - {p};
    }

    method Store(p: nat, at: nat, data: Bytes)
      requires Valid() && p in live && at + |data| <= |live[p]|
      modifies this`live
      ensures Valid() && live == old(live)[p := old(live)[p][..at] + data + old(live)[p][at + |data|..]]
    {
      live := live[p := live[p][..at] + data + live[p][at + |data|..]];
    }
  }

  // ---------------------------------------------------------------- invariants on values

  ghost predicate CacheOk(g: Geometry, d: Disk, valid: bool, sector: nat, cache: Bytes) {
    valid ==> HasFatSector(g, d, sector) && cache == FatSector(g, d, sector) && |cache| == SECTOR
  }

  /** The bitmap marks exactly the owned clusters. */
  ghost predicate ClaimsOk(g: Geometry, claimed: Bitmap, owner: map<nat, nat>) {
    Covers(claimed, g.clusters) && forall k: nat {:trigger Test(claimed, k)} | k < g.clusters :: Test(claimed, k) <==> k + 2 in owner
  }

  ghost function Slots(nodes: seq<Node>): seq<L.Slot<bool>> {
    seq(|nodes|, i requires 0 <= i < |nodes| => if nodes[i].data == 0 then L.Vacant else L.Taken(nodes[i].data, true))
  }

  ghost function Map(claimedPtr: nat): set<nat> { if claimedPtr == 0 then {} else {claimedPtr} }

  /** What is allocated: what was there before, one block for each buffered file, and the claim bitmap. */
  ghost predicate MemOk(live: map<nat, Bytes>, base: map<nat, Bytes>, nodes: seq<Node>, claimedPtr: nat) {
    && L.Distinct(Slots(nodes)) && 0 !in live
    && live.Keys == base.Keys + L.Owned(Slots(nodes)) + Map(claimedPtr)
    && base.Keys !! L.Owned(Slots(nodes)) && base.Keys !! Map(claimedPtr) && L.Owned(Slots(nodes)) !! Map(claimedPtr)
    && (forall p | p in base :: live[p] == base[p])
  }

  /** The counters count the claimed clusters and the buffered bytes. */
  ghost predicate Tallied(visited: nat, owner: map<nat, nat>, cachedBytes: nat, nodes: seq<Node>) {
    visited == |owner| <= VISIT_LIMIT && cachedBytes == BufferBytes(nodes) <= CACHE_MAX
  }

  lemma TallyClaim(visited: nat, owner: map<nat, nat>, cachedBytes: nat, nodes: seq<Node>, c: nat, n: nat)
    requires Tallied(visited, owner, cachedBytes, nodes) && c !in owner && visited < VISIT_LIMIT
    ensures Tallied(visited + 1, owner[c := n], cachedBytes, nodes)
  {
    hide BufferBytes;
    assert owner[c := n] - {c} == owner;
  }

  lemma OwnerCount(visited: nat, owner: map<nat, nat>, cachedBytes: nat, nodes: seq<Node>)
    requires Tallied(visited, owner, cachedBytes, nodes)
    ensures visited == |owner| && cachedBytes == BufferBytes(nodes)
  {
  }

  lemma TallyNode(visited: nat, owner: map<nat, nat>, cachedBytes: nat, nodes: seq<Node>, node: Node)
    requires Tallied(visited, owner, cachedBytes, nodes) && node.data == 0
    ensures Tallied(visited, owner, cachedBytes, nodes + [node])
  {
    BuffersMore(nodes, node);
  }

  lemma TallyBuffer(visited: nat, owner: map<nat, nat>, cachedBytes: nat, nodes: seq<Node>, p: nat)
    requires Tallied(visited, owner, cachedBytes, nodes) && nodes != [] && nodes[|nodes| - 1].data == 0 && p != 0
    requires nodes[|nodes| - 1].size <= CACHE_MAX - cachedBytes
    ensures var n := |nodes| - 1; Tallied(visited, owner, cachedBytes + nodes[n].size, nodes[n := nodes[n].(data := p)])
  {
    LastBuffered(nodes, p);
  }

  lemma TallyRoot(node: Node)
    requires node.data == 0
    ensures Tallied(0, map[], 0, [node])
  {
    BuffersMore([], node);
  }

  /** Reads beyond those that the claimed clusters account for: each brings its own sectors and a lookup in the table. */
  ghost function Surplus(readCount: nat, visited: nat, spc: nat): int { readCount - visited * (spc + 2) }

  lemma SurplusRead(readCount: nat, more: nat, visited: nat, spc: nat)
    ensures Surplus(readCount + more, visited, spc) == Surplus(readCount, visited, spc) + more
  {
  }

  lemma SurplusClaim(readCount: nat, visited: nat, spc: nat)
    ensures Surplus(readCount, visited + 1, spc) == Surplus(readCount, visited, spc) - (spc + 2)
  {
    assert (visited + 1) * (spc + 2) == visited * (spc + 2) + (spc + 2);
  }

  lemma SurplusMore(readCount: nat, readCount': nat, visited: nat, spc: nat, most: nat)
    requires readCount' <= readCount + most
    ensures Surplus(readCount', visited, spc) <= Surplus(readCount, visited, spc) + most
  {
  }

  lemma TooCostly(g: Geometry, d: Disk, f: Forest, readCount: nat, visited: nat, cachedBytes: nat)
    requires ForestOk(g, d, f) && AllStarted(g, d, f) && Tallied(visited, f.owner, cachedBytes, f.nodes)
    requires readCount > READ_LIMIT && Surplus(readCount, visited, g.spc) <= 5
    ensures Costly(g, d, Exhausted(f))
  {
    hide ForestOk, AllStarted;
  }

  ghost predicate Bounded(log: seq<nat>, total: nat) { forall i | 0 <= i < |log| :: log[i] < total }

  ghost predicate LiveKept(live: map<nat, Bytes>, live': map<nat, Bytes>) { forall p | p in live :: p in live' && live'[p] == live[p] }

  /** Nodes before `m` and the blocks of `live` are as they were. */
  ghost predicate Kept(f: Forest, live: map<nat, Bytes>, f': Forest, live': map<nat, Bytes>, m: nat) {
    && m <= |f.nodes| == |f.chains| == |f.origins| && m <= |f'.nodes| == |f'.chains| == |f'.origins|
    && f'.nodes[..m] == f.nodes[..m] && f'.chains[..m] == f.chains[..m] && f'.origins[..m] == f.origins[..m]
    && LiveKept(live, live')
  }

  lemma KeptTrans(f: Forest, live: map<nat, Bytes>, f': Forest, live': map<nat, Bytes>, f'': Forest, live'': map<nat, Bytes>, m: nat, n: nat)
    requires Kept(f, live, f', live', m) && Kept(f', live', f'', live'', n) && m <= n
    ensures Kept(f, live, f'', live'', m)
  {
    assert f'.nodes[..n][..m] == f'.nodes[..m] && f''.nodes[..n][..m] == f''.nodes[..m];
    assert f'.chains[..n][..m] == f'.chains[..m] && f''.chains[..n][..m] == f''.chains[..m];
    assert f'.origins[..n][..m] == f'.origins[..m] && f''.origins[..n][..m] == f''.origins[..m];
  }

  /** Nodes after `n` hang below `n`. */
  ghost predicate Nested(origins: seq<Origin>, n: nat) { forall j | n < j < |origins| :: origins[j].parent >= n }

  lemma DoneKept(g: Geometry, d: Disk, f: Forest, live: map<nat, Bytes>, f': Forest, live': map<nat, Bytes>, m: nat, i: nat)
    requires Kept(f, live, f', live', m) && i < m == |f.nodes| && Done(g, d, f, live, i) && (i > 0 ==> f.origins[i].parent < m)
    requires forall j | m <= j < |f'.origins| :: f'.origins[j].parent != i
    ensures Done(g, d, f', live', i)
  {
    hide Complete;
    assert f'.nodes[..m][i] == f'.nodes[i] && f.nodes[..m][i] == f.nodes[i];
    assert f'.chains[..m][i] == f'.chains[i] && f.chains[..m][i] == f.chains[i];
    assert f.origins[..m] == f.origins;
    if f.nodes[i].dir {
      CompleteKept(g, d, f, f', i);
      assert f.origins[..m][..i] == f.origins[..i] && f'.origins[..m][..i] == f'.origins[..i] && f'.origins[..m][i] == f'.origins[i];
      DepthKept(f.origins, f'.origins, i);
    }
  }

  class Importer {
    const disk: Disk
    const pool: Pool
    var geo: Geometry
    var nodes: seq<Node>
    var claimedPtr: nat
    var claimed: Bitmap
    var cachedSector: nat
    var cacheValid: bool
    var cache: Bytes
    var visited: nat
    var readCount: nat
    var cachedBytes: nat
    var attached: bool
    var ready: bool
    /** The chain, origin and owner books, and every sector asked for, in order. */
    ghost var chains: seq<seq<nat>>
    ghost var origins: seq<Origin>
    ghost var owner: map<nat, nat>
    ghost var log: seq<nat>

    constructor (disk: Disk, pool: Pool)
      ensures this.disk == disk && this.pool == pool && nodes == [] && !attached && !ready && claimedPtr == 0 && log == []
    {
      this.disk, this.pool, nodes, claimedPtr, claimed, cachedSector, cacheValid, cache := disk, pool, [], 0, [], 0, false, [];
      visited, readCount, cachedBytes, attached, ready, chains, origins, owner, log := 0, 0, 0, false, false, [], [], map[], [];
      geo := NO_GEOMETRY;
    }

    ghost function Tree(): Forest
      reads this
    {
      Forest(nodes, chains, origins, owner)
    }

    /** Every sector asked for was counted and lies inside the volume. */
    ghost predicate Inside()
      reads this
    {
      |log| == readCount && Bounded(log, geo.total)
    }

    /** No read was made beyond the budget, but for the one whose refusal ends the import. */
    ghost predicate Budget(ok: bool)
      reads this
    {
      |log| == readCount <= READ_LIMIT + if ok then 0 else 1
    }

    ghost function Spent(): int
      reads this
    {
      Surplus(readCount, visited, geo.spc)
    }

    /** Why there is no going on: an allocation refused since there were `refused`, or the volume itself. */
    ghost predicate Stuck(refused: nat, fault: Fault)
      reads this, pool
    {
      pool.refused > refused || Costly(geo, disk, fault) || Spoilt(geo, disk, fault)
    }

    ghost predicate Core()
      reads this
    {
      && GeometryOk(geo, disk) && CacheOk(geo, disk, cacheValid, cachedSector, cache)
      && ClaimsOk(geo, claimed, owner) && ForestOk(geo, disk, Tree()) && |nodes| <= NODE_LIMIT
      && Tallied(visited, owner, cachedBytes, nodes) && AllStarted(geo, disk, Tree())
    }

    /** The tree is faithful, and the counters are right. */
    ghost predicate Sketch()
      reads this
    {
      ForestOk(geo, disk, Tree()) && AllStarted(geo, disk, Tree()) && Tallied(visited, owner, cachedBytes, nodes)
    }

    ghost predicate Mem(base: map<nat, Bytes>)
      reads this, pool
    {
      pool.Valid() && MemOk(pool.live, base, nodes, claimedPtr)
    }

    /** Every read counts against the budget, and none leaves the device. */
    method ReadSector(lba: nat) returns (ok: bool, data: Bytes)
      modifies this`readCount, this`log
      ensures log == old(log) + [lba] && readCount == old(readCount) + 1
      ensures old(Inside()) && lba < geo.total ==> Inside()
      ensures ok <==> readCount <= READ_LIMIT && Readable(disk, lba)
      ensures ok ==> data == disk.data[lba] && |data| == SECTOR
    {
      readCount := readCount + 1;
      log := log + [lba];
      data := [];
      if readCount > READ_LIMIT || !(lba < disk.sectors && lba in disk.data) { return false, data; }
      ok, data := true, disk.data[lba];
    }

    /** The cached lookup agrees with the table on the disk. */
    method FatEntry(cluster: nat) returns (ok: bool, next: nat)
      requires GeometryOk(geo, disk) && CacheOk(geo, disk, cacheValid, cachedSector, cache) && Inside()
      requires Budget(true)
      modifies this`readCount, this`log, this`cacheValid, this`cachedSector, this`cache
      ensures Inside() && readCount <= old(readCount) + 2
      ensures !ok ==> |log| > READ_LIMIT || !HasFatSector(geo, disk, cluster / 128)
      ensures ok ==> CacheOk(geo, disk, cacheValid, cachedSector, cache) && HasFatSector(geo, disk, cluster / 128) && next == NextOf(geo, disk, cluster)
      ensures Budget(ok)
    {
      var relative := cluster / 128;
      next := 0;
      if relative >= geo.fatSectors { return false, 0; }
      if !cacheValid || cachedSector != relative {
        FatInside(geo, disk, relative);
        ok, cache := ReadSector(geo.fatStart + geo.active * geo.fatSectors + relative);
        if !ok { return; }
        if geo.mirrored && geo.fats == 2 {
          var mirror;
          ok, mirror := ReadSector(geo.fatStart + geo.fatSectors + relative);
          if !ok || mirror != cache { return false, 0; }
        }
        cacheValid, cachedSector := true, relative;
      }
      next := Little32(cache, cluster % 128 * 4) % 0x1000_0000;
      ok := true;
    }

    // -------------------------------------------------------------- claiming

    /** A cluster is claimed at most once, by the node whose chain it continues. */
    method Claim(n: nat, cluster: nat) returns (ok: bool, ghost fault: Fault)
      requires Core() && n < |nodes| == |chains|
      requires chains[n] != [] ==> Linked(geo, disk, chains[n][|chains[n]| - 1], cluster)
      requires n < |origins| && (chains[n] == [] ==> cluster == origins[n].child) && Wants(geo, Tree(), n, cluster)
      modifies this`visited, this`claimed, this`chains, this`owner
      ensures old(visited) <= visited <= old(visited) + 1
      ensures ok ==> visited == old(visited) + 1 <= VISIT_LIMIT && ValidCluster(geo, cluster) && cluster !in old(owner)
      ensures ok ==> Core() && Tree() == Claimed(old(Tree()), n, cluster)
      ensures !ok ==> chains == old(chains) && owner == old(owner) && Spoilt(geo, disk, fault)
      ensures !ok ==> !ValidCluster(geo, cluster) || cluster in owner || |owner| >= VISIT_LIMIT
      ensures !ok ==> Spent() <= old(Spent())
      ensures ok ==> Spent() == old(Spent()) - (geo.spc + 2)
    {
      hide ForestOk, GeometryOk, CacheOk, Test, Put, ValidCluster, Wants, Linked, Tallied, Spoilt, Bounded, AllStarted, Surplus;
      ForestSizes(geo, disk, Tree());
      SurplusClaim(readCount, visited, geo.spc);
      if !ValidCluster(geo, cluster) {
        SpoiltAstray(geo, disk, Tree(), n, cluster);
        return false, Fault(Tree(), Astray(n, cluster));
      }
      ghost var count := visited;
      visited := visited + 1;
      if visited > VISIT_LIMIT {
        OwnerCount(count, owner, cachedBytes, nodes);
        SpoiltCrowded(geo, disk, Tree(), n, cluster);
        return false, Fault(Tree(), Crowded(n, cluster));
      }
      ClusterIndex(geo, cluster);
      var index := cluster - 2;
      if Test(claimed, index) {
        SpoiltAstray(geo, disk, Tree(), n, cluster);
        return false, Fault(Tree(), Astray(n, cluster));
      }
      Mark(n, cluster);
      ok, fault := true, Unharmed;
    }

    method Mark(n: nat, cluster: nat)
      requires GeometryOk(geo, disk) && CacheOk(geo, disk, cacheValid, cachedSector, cache) && ClaimsOk(geo, claimed, owner) && ForestOk(geo, disk, Tree())
      requires 0 < visited <= VISIT_LIMIT && Tallied(visited - 1, owner, cachedBytes, nodes) && |nodes| <= NODE_LIMIT && n < |nodes| == |chains| == |origins|
      requires ValidCluster(geo, cluster) && 2 <= cluster && cluster !in owner && Onto(geo, disk, Tree(), n, cluster) && Wants(geo, Tree(), n, cluster)
      requires AllStarted(geo, disk, Tree())
      modifies this`claimed, this`chains, this`owner
      ensures Core() && Tree() == Claimed(old(Tree()), n, cluster)
    {
      hide GeometryOk, CacheOk, ClaimsOk, ForestOk, Test, Put, ValidCluster, Tallied, Linked, AllStarted, Sectors;
      ClusterIndex(geo, cluster);
      ClaimKeeps(geo, disk, Tree(), n, cluster);
      ClaimStarted(geo, disk, Tree(), n, cluster);
      ClaimMarks(geo, claimed, owner, cluster - 2, n);
      TallyClaim(visited - 1, owner, cachedBytes, nodes, cluster, n);
      claimed := Put(claimed, cluster - 2, true);
      chains, owner := chains[n := chains[n] + [cluster]], owner[cluster := n];
    }

    // -------------------------------------------------------------- files

    /** What has been read of file `n`: the first `copied` bytes of its chain. */
    ghost predicate ReadSoFar(n: nat, copied: nat)
      reads this, pool
    {
      && n < |nodes| == |chains| && !nodes[n].dir && nodes[n].data in pool.live && |pool.live[nodes[n].data]| == nodes[n].size
      && copied <= nodes[n].size && Reads(disk, Sectors(geo, chains[n]), pool.live[nodes[n].data], copied)
    }

    /** Copy the sectors of the cluster just claimed, up to the end of the file. */
    method CopySectors(n: nat, cluster: nat, start: nat, ghost earlier: seq<nat>) returns (ok: bool, copied: nat)
      requires pool.Valid() && GeometryOk(geo, disk) && ValidCluster(geo, cluster) && Inside()
      requires n < |chains| && chains[n] == earlier + [cluster] && start == |Sectors(geo, earlier)| * SECTOR && ReadSoFar(n, start)
      requires Budget(true)
      modifies this`readCount, this`log, pool`live
      ensures pool.Valid() && Inside() && pool.live.Keys == old(pool.live).Keys
      ensures forall p | p in old(pool.live) && p != nodes[n].data :: pool.live[p] == old(pool.live)[p]
      ensures !ok ==> |log| > READ_LIMIT || TornFile(disk, Sectors(geo, chains[n]), nodes[n].size)
      ensures readCount <= old(readCount) + geo.spc
      ensures ok ==> ReadSoFar(n, copied) && (copied == nodes[n].size || copied == |Sectors(geo, chains[n])| * SECTOR)
      ensures Budget(ok)
    {
      hide GeometryOk, ValidCluster, Reads, ClusterLba, Sectors, Bounded;
      ghost var sectors := Sectors(geo, chains[n]);
      SectorsMore(geo, earlier, cluster);
      var p, size := nodes[n].data, nodes[n].size;
      copied := start;
      var i := 0;
      while i < geo.spc && copied < size
        invariant Budget(true)
        invariant i <= geo.spc && ReadSoFar(n, copied) && pool.Valid() && Inside() && pool.live.Keys == old(pool.live).Keys
        invariant copied == size || copied == (|Sectors(geo, earlier)| + i) * SECTOR
        invariant readCount <= old(readCount) + i
        invariant forall q | q in old(pool.live) && q != p :: pool.live[q] == old(pool.live)[q]
      {
        ClusterInside(geo, disk, cluster, i);
        var block;
        assert sectors[|Sectors(geo, earlier)| + i] == ClusterLba(geo, cluster) + i;
        ok, block := ReadSector(ClusterLba(geo, cluster) + i);
        if !ok { return; }
        var left := size - copied;
        var bytes := if left < SECTOR then left else SECTOR;
        ghost var data, k := pool.live[p], |Sectors(geo, earlier)| + i;
        pool.Store(p, copied, block[..bytes]);
        ReadsMore(disk, sectors, k, data, pool.live[p], bytes);
        copied := copied + bytes;
        i := i + 1;
      }
      ok := true;
    }

    /** The file being read: everything before it is as it was in `f` and `live`. */
    ghost predicate Reading(n: nat, first: nat, copied: nat, base: map<nat, Bytes>, f: Forest, live: map<nat, Bytes>)
      reads this, pool
    {
      && Core() && Mem(base) && Inside() && n == |nodes| - 1 && n > 0 && origins[n].child == first
      && ReadSoFar(n, copied) && Kept(f, live, Tree(), pool.live, n) && nodes[n].data !in live
    }

    /** The chain so far leads to `cluster`. */
    ghost predicate LeadsTo(n: nat, first: nat, cluster: nat)
      reads this
    {
      n < |chains| && if chains[n] == [] then cluster == first else Linked(geo, disk, chains[n][|chains[n]| - 1], cluster)
    }

    /** Claim the next cluster of the file and copy it. */
    method ReadCluster(n: nat, first: nat, cluster: nat, start: nat, ghost base: map<nat, Bytes>, ghost f: Forest, ghost live: map<nat, Bytes>)
      returns (ok: bool, copied: nat, ghost fault: Fault)
      requires Reading(n, first, start, base, f, live) && LeadsTo(n, first, cluster) && start == |Sectors(geo, chains[n])| * SECTOR
      requires start < nodes[n].size && Spent() <= 5
      requires Budget(true)
      modifies this`visited, this`claimed, this`chains, this`owner, this`readCount, this`log, pool`live
      ensures Mem(base) && Inside() && visited >= old(visited) && (!ok ==> Stuck(pool.refused, fault))
      ensures Spent() <= old(Spent()) - if ok then 2 else 0
      ensures ok ==> visited == old(visited) + 1 <= VISIT_LIMIT && Reading(n, first, copied, base, f, live)
      ensures ok ==> n < |chains| && chains[n] != [] && chains[n][|chains[n]| - 1] == cluster
      ensures ok ==> copied <= nodes[n].size && (copied == nodes[n].size || copied == |Sectors(geo, chains[n])| * SECTOR)
      ensures Budget(ok)
    {
      hide GeometryOk, CacheOk, ClaimsOk, ForestOk, Linked, Reads, Sectors, MemOk, ValidCluster, L.Distinct, Spoilt, Tallied, TornFile, Bounded, AllStarted, Surplus, Costly, Slots;
      copied := start;
      ghost var before, earlier, owned := Tree(), chains[n], pool.live;
      ok, fault := Claim(n, cluster);
      if !ok { return; }
      assert ReadSoFar(n, start) by { SectorsMore(geo, earlier, cluster); ReadsLonger(disk, Sectors(geo, earlier), ClusterSectors(geo, cluster), pool.live[nodes[n].data], start); }
      KeptClaim(f, live, before, owned, n, cluster);
      ghost var claimedTree := Tree();
      ghost var count := readCount;
      ok, copied := CopySectors(n, cluster, start, earlier);
      SurplusMore(count, readCount, visited, geo.spc, geo.spc);
      MemStored(owned, pool.live, base, nodes, claimedPtr, n);
      KeptStore(f, live, claimedTree, owned, pool.live, n, nodes[n].data);
      if !ok { fault := FileTorn(n); }
    }

    /** The read that failed: one too many, or of a sector that cannot be read. */
    lemma FileTorn(n: nat) returns (fault: Fault)
      requires Sketch() && |log| == readCount && n < |nodes| == |chains| && !nodes[n].dir && Spent() <= 5
      requires |log| > READ_LIMIT || TornFile(disk, Sectors(geo, chains[n]), nodes[n].size)
      ensures Costly(geo, disk, fault) || Spoilt(geo, disk, fault)
    {
      hide GeometryOk, CacheOk, ClaimsOk, ForestOk, Tallied, Costly, Spoilt, AllStarted, Sectors, Surplus;
      ForestSizes(geo, disk, Tree());
      if |log| > READ_LIMIT {
        TooCostly(geo, disk, Tree(), readCount, visited, cachedBytes);
        return Exhausted(Tree());
      }
      var k :| 0 <= k < |Sectors(geo, chains[n])| && k * SECTOR < nodes[n].size && !Readable(disk, Sectors(geo, chains[n])[k]);
      SpoiltTorn(geo, disk, Tree(), n, k);
      fault := Fault(Tree(), Torn(n, k));
    }

    /** The table lookup that failed: one read too many, or no entry for the end of the chain. */
    lemma EntryGone(n: nat) returns (fault: Fault)
      requires Sketch() && |log| == readCount && n < |nodes| == |chains| && chains[n] != [] && Spent() <= 5
      requires |log| > READ_LIMIT || !HasFatSector(geo, disk, chains[n][|chains[n]| - 1] / 128)
      ensures Costly(geo, disk, fault) || Spoilt(geo, disk, fault)
    {
      hide GeometryOk, CacheOk, ClaimsOk, ForestOk, Tallied, Costly, Spoilt, AllStarted, HasFatSector, Surplus;
      ForestSizes(geo, disk, Tree());
      if |log| > READ_LIMIT {
        TooCostly(geo, disk, Tree(), readCount, visited, cachedBytes);
        return Exhausted(Tree());
      }
      SpoiltUnlisted(geo, disk, Tree(), n);
      fault := Fault(Tree(), Unlisted(n));
    }

    method NextReading(cluster: nat, n: nat, first: nat, copied: nat, ghost base: map<nat, Bytes>, ghost f: Forest, ghost live: map<nat, Bytes>)
      returns (ok: bool, next: nat, ghost fault: Fault)
      requires Reading(n, first, copied, base, f, live) && chains[n] != [] && chains[n][|chains[n]| - 1] == cluster && Spent() <= 3
      requires Budget(true)
      modifies this`readCount, this`log, this`cacheValid, this`cachedSector, this`cache
      ensures Mem(base) && Inside() && (!ok ==> Stuck(pool.refused, fault)) && Spent() <= old(Spent()) + 2
      ensures ok ==> Reading(n, first, copied, base, f, live) && HasFatSector(geo, disk, cluster / 128) && next == NextOf(geo, disk, cluster)
      ensures Budget(ok)
    {
      hide GeometryOk, CacheOk, ClaimsOk, ForestOk, MemOk, Reads, Kept, HasFatSector, NextOf, Sectors, Spoilt, Tallied, Bounded, Slots, AllStarted, Surplus, Costly;
      CoreSizes();
      ok, next := FatEntry(cluster);
      SurplusMore(old(readCount), readCount, visited, geo.spc, 2);
      fault := Unharmed;
      if !ok { fault := EntryGone(n); }
    }

    lemma ReadingBasics(n: nat, first: nat, copied: nat, base: map<nat, Bytes>, f: Forest, live: map<nat, Bytes>)
      requires Reading(n, first, copied, base, f, live)
      ensures Mem(base) && Inside() && n < |nodes| == |chains|
    {
    }

    /** Follow the chain until the file is full; the chain must end exactly there. */
    method ReadChain(n: nat, first: nat, ghost base: map<nat, Bytes>, ghost f: Forest, ghost live: map<nat, Bytes>) returns (ok: bool, ghost fault: Fault)
      requires Reading(n, first, 0, base, f, live) && chains[n] == [] && nodes[n].size > 0 && Spent() <= 5
      requires Budget(true)
      modifies this`visited, this`claimed, this`chains, this`owner, this`readCount, this`log, this`cacheValid, this`cachedSector, this`cache, pool`live
      ensures Mem(base) && Inside() && visited >= old(visited) && (!ok ==> Stuck(pool.refused, fault)) && Spent() <= old(Spent())
      ensures ok ==> Reading(n, first, nodes[n].size, base, f, live) && Ends(geo, disk, chains[n])
      ensures Budget(ok)
    {
      hide Reading, Mem, ValidCluster, HasFatSector, NextOf, Bounded, Slots, Surplus, Costly, Spoilt;
      ReadingBasics(n, first, 0, base, f, live);
      var cluster: nat, copied: nat := first, 0;
      while true
        invariant Budget(true)
        invariant Reading(n, first, copied, base, f, live) && LeadsTo(n, first, cluster)
        invariant copied == |Sectors(geo, chains[n])| * SECTOR && copied < nodes[n].size && visited >= old(visited)
        invariant Spent() <= old(Spent())
        decreases VISIT_LIMIT - visited
      {
        hide Sectors;
        ok, copied, fault := ReadCluster(n, first, cluster, copied, base, f, live);
        if !ok { return; }
        var next;
        ok, next, fault := NextReading(cluster, n, first, copied, base, f, live);
        if !ok { return; }
        if copied == nodes[n].size {
          if next < END_OF_CHAIN { TooLong(n, first, base, f, live); }
          return next >= END_OF_CHAIN, Fault(Tree(), Mismatched(n));
        }
        if !ValidCluster(geo, next) {
          TooShort(n, first, next, copied, base, f, live);
          return false, Fault(Tree(), Astray(n, next));
        }
        cluster := next;
      }
    }

    lemma TooLong(n: nat, first: nat, base: map<nat, Bytes>, f: Forest, live: map<nat, Bytes>)
      requires n < |nodes| && Reading(n, first, nodes[n].size, base, f, live) && nodes[n].size > 0 && chains[n] != []
      requires HasFatSector(geo, disk, chains[n][|chains[n]| - 1] / 128) && NextOf(geo, disk, chains[n][|chains[n]| - 1]) < END_OF_CHAIN
      ensures Mem(base) && Inside() && Spoilt(geo, disk, Fault(Tree(), Mismatched(n)))
    {
      hide GeometryOk, CacheOk, ClaimsOk, ForestOk, MemOk, Kept, HasFatSector, NextOf, Spoilt, Tallied, Reads, Sectors, Bounded, Slots;
      CoreSizes();
      ReadsCover(disk, Sectors(geo, chains[n]), pool.live[nodes[n].data], nodes[n].size);
      SpoiltMismatched(geo, disk, Tree(), n);
    }

    lemma TooShort(n: nat, first: nat, next: nat, copied: nat, base: map<nat, Bytes>, f: Forest, live: map<nat, Bytes>)
      requires Reading(n, first, copied, base, f, live) && copied < nodes[n].size && copied == |Sectors(geo, chains[n])| * SECTOR && chains[n] != []
      requires Linked(geo, disk, chains[n][|chains[n]| - 1], next) && !ValidCluster(geo, next)
      ensures Mem(base) && Inside() && Spoilt(geo, disk, Fault(Tree(), Astray(n, next)))
    {
      hide GeometryOk, CacheOk, ClaimsOk, ForestOk, MemOk, Kept, Linked, Spoilt, Tallied, Reads, Sectors, ValidCluster, Bounded, Slots;
      CoreSizes();
      SpoiltAstray(geo, disk, Tree(), n, next);
    }

    method ReadFile(n: nat, first: nat, ghost base: map<nat, Bytes>) returns (ok: bool, ghost fault: Fault)
      requires Core() && Mem(base) && Inside() && n == |nodes| - 1 && n > 0 && !nodes[n].dir && nodes[n].data == 0
      requires chains[n] == [] && origins[n].child == first && Spent() <= 5
      requires Budget(true)
      modifies this`visited, this`claimed, this`chains, this`owner, this`readCount, this`log, this`cacheValid, this`cachedSector, this`cache,
               this`nodes, this`cachedBytes, pool
      ensures Mem(base) && Inside() && origins == old(origins) && visited >= old(visited) && Spent() <= old(Spent())
      ensures pool.refused >= old(pool.refused) && (!ok ==> Stuck(old(pool.refused), fault))
      ensures ok ==> Core() && n == |nodes| - 1 && Done(geo, disk, Tree(), pool.live, n) && Kept(old(Tree()), old(pool.live), Tree(), pool.live, n)
      ensures Budget(ok)
    {
      hide GeometryOk, CacheOk, ClaimsOk, ForestOk, MemOk, Reads, Ends, Spoilt, Tallied, Bounded, Slots;
      ForestSizes(geo, disk, Tree());
      if nodes[n].size == 0 {
        if first != 0 { SpoiltMismatched(geo, disk, Tree(), n); }
        return first == 0, Fault(Tree(), Mismatched(n));
      }
      OwnerCount(visited, owner, cachedBytes, nodes);
      if nodes[n].size > FILE_MAX || nodes[n].size > CACHE_MAX - cachedBytes {
        SpoiltOversized(geo, disk, Tree(), n);
        return false, Fault(Tree(), Oversized(n));
      }
      ghost var f, live := Tree(), pool.live;
      ok := TakeBuffer(n, first, base);
      if !ok { return false, Unharmed; }
      ok, fault := ReadChain(n, first, base, f, live);
    }

    method NewBuffer(size: nat, n: nat, ghost base: map<nat, Bytes>) returns (p: nat)
      requires Mem(base) && n < |nodes| && nodes[n].data == 0
      modifies pool
      ensures pool.Valid() && pool.refused == old(pool.refused) + if p == 0 then 1 else 0
      ensures p == 0 ==> pool.live == old(pool.live)
      ensures p != 0 ==> MemOk(pool.live, base, nodes[n := nodes[n].(data := p)], claimedPtr) && LiveKept(old(pool.live), pool.live)
      ensures p != 0 ==> p !in old(pool.live) && p in pool.live && |pool.live[p]| == size
    {
      hide MemOk;
      p := pool.Alloc(size);
      if p != 0 { MemAlloc(old(pool.live), pool.live, base, nodes, claimedPtr, n, p); }
    }

    /** A block for the bytes of the file just found. */
    method TakeBuffer(n: nat, first: nat, ghost base: map<nat, Bytes>) returns (ok: bool)
      requires Core() && Mem(base) && Inside() && n == |nodes| - 1 && n > 0 && !nodes[n].dir && nodes[n].data == 0
      requires |chains| == |origins| == |nodes| && chains[n] == [] && origins[n].child == first && nodes[n].size <= CACHE_MAX - cachedBytes
      modifies this`nodes, this`cachedBytes, pool
      ensures pool.refused == old(pool.refused) + if ok then 0 else 1
      ensures !ok ==> Mem(base)
      ensures ok ==> Reading(n, first, 0, base, old(Tree()), old(pool.live)) && nodes[n].size == old(nodes[n].size)
    {
      hide GeometryOk, CacheOk, ClaimsOk, ForestOk, MemOk, Reads, Tallied, Bounded, LiveKept, Kept, Sectors;
      ghost var f := Tree();
      var p := NewBuffer(nodes[n].size, n, base);
      if p == 0 { return false; }
      KeptBuffer(f, old(pool.live), pool.live, n, p);
      Attach(n, p);
      ReadsNothing(disk, pool.live[p]);
      NoSectors(geo);
      ok := true;
    }

    method Attach(n: nat, p: nat)
      requires Core() && n == |nodes| - 1 && n > 0 && nodes[n].data == 0 && p != 0 && nodes[n].size <= CACHE_MAX - cachedBytes
      modifies this`nodes, this`cachedBytes
      ensures Core() && nodes == old(nodes)[n := old(nodes[n]).(data := p)]
    {
      hide GeometryOk, CacheOk, ClaimsOk, ForestOk, Tallied, AllStarted;
      TallyBuffer(visited, owner, cachedBytes, nodes, p);
      BufferKeeps(geo, disk, Tree(), n, p);
      BufferStarted(geo, disk, Tree(), n, p);
      cachedBytes := cachedBytes + nodes[n].size;
      nodes := nodes[n := nodes[n].(data := p)];
    }

    // -------------------------------------------------------------- directories

    /** A directory of which `seen` slots are done: what came before it is as in `f` and `live`, what came after is complete. */
    ghost predicate Walking(n: nat, first: nat, seen: nat, base: map<nat, Bytes>, f: Forest, live: map<nat, Bytes>)
      reads this, pool
    {
      && Core() && Mem(base) && Inside() && n < |nodes| == |chains| == |origins| && nodes[n].dir && origins[n].child == first
      && Kept(f, live, Tree(), pool.live, n) && AllDone(geo, disk, Tree(), pool.live, n + 1) && Nested(origins, n)
      && n < |f.nodes| == |f.origins| && nodes[n] == f.nodes[n] && origins[n] == f.origins[n]
      && Scanned(geo, disk, Tree(), n, seen)
    }

    /** Slot `seen` of directory `n`. */
    ghost predicate AtSlot(n: nat, seen: nat, item: Item)
      reads this
    {
      n < |chains| == |origins| && HasSlot(geo, disk, chains[n], seen) && item == ItemAt(geo, disk, Tree(), n, seen)
    }

    /** The node a directory entry describes, appended to the tree; or a refusal. */
    method AddNode(n: nat, item: Item, ghost slot: nat, ghost base: map<nat, Bytes>) returns (ok: bool, ghost fault: Fault)
      requires Core() && Mem(base) && n < |nodes| && nodes[n].dir && AtSlot(n, slot, item) && item.Entry?
      requires Scanned(geo, disk, Tree(), n, slot)
      modifies this`nodes, this`chains, this`origins
      ensures Mem(base)
      ensures !ok ==> nodes == old(nodes) && chains == old(chains) && origins == old(origins) && Spoilt(geo, disk, fault)
      ensures !ok ==> |nodes| == NODE_LIMIT || PathBad(nodes, nodes[n].path + [SLASH] + item.name)
      ensures ok ==> Core() && |nodes| == |old(nodes)| + 1 && nodes[..|old(nodes)|] == old(nodes) && chains == old(chains) + [[]]
      ensures ok ==> origins == old(origins) + [Origin(n, slot, item.child)] && |origins| == |nodes|
      ensures ok ==> var m := nodes[|old(nodes)|]; m.data == 0 && m.size == item.size && m.dir == item.dir
    {
      hide GeometryOk, CacheOk, ClaimsOk, ForestOk, MemOk, PathValid, Parse, HasSlot, SlotBytes, ItemAt, Scanned, Spoilt, Tallied, Bounded, Slots, AllStarted;
      ForestSizes(geo, disk, Tree());
      SpoiltEntry(geo, disk, Tree(), n, slot, item);
      if |nodes| == NODE_LIMIT {
        return false, Fault(Tree(), Full(n, slot));
      }
      var path := nodes[n].path + [SLASH] + item.name;
      var taken := PathTaken(path);
      if |path| >= PATH_MAX || !PathValid(path) || taken {
        return false, Fault(Tree(), Unnamable(n, slot));
      }
      TallyNode(visited, owner, cachedBytes, nodes, Node(path, 0, item.size, item.dir));
      var node := Node(path, 0, item.size, item.dir);
      ghost var o := Origin(n, slot, item.child);
      assert ForestOk(geo, disk, Grown(Tree(), node, o)) by { AddKeeps(geo, disk, Tree(), node, o); }
      AddStarted(geo, disk, Tree(), node, o);
      MemAdd(pool.live, base, nodes, claimedPtr, node);
      nodes, chains, origins := nodes + [node], chains + [[]], origins + [o];
      ok, fault := true, Unharmed;
    }

    method PathTaken(path: Bytes) returns (taken: bool)
      ensures taken <==> exists i | 0 <= i < |nodes| :: nodes[i].path == path
    {
      var i := 0;
      while i < |nodes|
        invariant i <= |nodes| && forall j | 0 <= j < i :: nodes[j].path != path
      {
        if nodes[i].path == path { return true; }
        i := i + 1;
      }
      return false;
    }

    /** Take in one entry: the node, and then the file or the directory behind it. */
    method Visit(n: nat, item: Item, first: nat, depth: nat, ghost seen: nat, ghost base: map<nat, Bytes>, ghost f: Forest, ghost live: map<nat, Bytes>)
      returns (ok: bool, ghost fault: Fault)
      requires Walking(n, first, seen, base, f, live) && AtSlot(n, seen, item) && item.Entry? && depth == Depth(f.origins, n) <= DEPTH_MAX && Spent() <= 5
      requires Budget(true)
      modifies this`visited, this`claimed, this`chains, this`owner, this`readCount, this`log, this`cacheValid, this`cachedSector, this`cache,
               this`nodes, this`cachedBytes, this`origins, pool
      ensures Mem(base) && Inside() && visited >= old(visited) && Spent() <= old(Spent())
      ensures pool.refused >= old(pool.refused) && (!ok ==> Stuck(old(pool.refused), fault))
      ensures ok ==> Walking(n, first, seen + 1, base, f, live) && n < |chains| && chains[n] == old(chains[n])
      ensures ok ==> UpOf(geo, origins, n) == UpOf(geo, old(origins), n)
      decreases 9 - depth, 0
      ensures Budget(ok)
    {
      hide Core, Mem, ForestOk, Done, Surplus, Costly, Parse, Sectors, Kept, Scanned, Nested, UpOf, ItemAt, HasSlot, Spoilt, Depth, Bounded, Slots;
      ghost var f0, live0 := Tree(), pool.live;
      CoreSizes();
      DepthBelow(f, live, f0, live0, n, seen, item.child);
      CoreParent(n);
      ok, fault := AddNode(n, item, seen, base);
      if !ok { return; }
      ghost var f1 := Tree();
      var m := |nodes| - 1;
      if item.dir {
        UpAfter(geo, f0.origins, n, seen, item.child);
        ok, fault := Directory(m, item.child, Upward(geo, first), depth + 1, base);
      } else {
        ok, fault := ReadFile(m, item.child, base);
        NoneAfter(origins, m);
      }
      if ok {
        CoreSizes();
        Visited(geo, disk, f, live, f0, live0, f1, Tree(), pool.live, n, m, seen, item);
      }
    }

    /** Every entry of one sector, up to the end mark. */
    method ScanSector(n: nat, data: Bytes, first: nat, parent: nat, depth: nat, ghost start: nat, ghost base: map<nat, Bytes>, ghost f: Forest, ghost live: map<nat, Bytes>)
      returns (ok: bool, ended: bool, ghost seen: nat, ghost fault: Fault)
      requires Walking(n, first, start, base, f, live) && n < |chains| && depth == Depth(f.origins, n) <= DEPTH_MAX && Spent() <= 5 && start % 16 == 0 && parent == UpOf(geo, origins, n)
      requires start / 16 < |Sectors(geo, chains[n])| && Readable(disk, Sectors(geo, chains[n])[start / 16]) && data == disk.data[Sectors(geo, chains[n])[start / 16]]
      requires Budget(true)
      modifies this`visited, this`claimed, this`chains, this`owner, this`readCount, this`log, this`cacheValid, this`cachedSector, this`cache,
               this`nodes, this`cachedBytes, this`origins, pool
      ensures Mem(base) && Inside() && visited >= old(visited) && Spent() <= old(Spent())
      ensures pool.refused >= old(pool.refused) && (!ok ==> Stuck(old(pool.refused), fault))
      ensures ok ==> Walking(n, first, seen, base, f, live) && n < |chains| && chains[n] == old(chains[n]) && UpOf(geo, origins, n) == parent
      ensures ok ==> n < |origins| == |chains| && if ended then MarksEnd(geo, disk, Tree(), n, seen) else seen == start + 16
      decreases 9 - depth, 1
      ensures Budget(ok)
    {
      hide Walking, Parse, Sectors, Core, Mem, UpOf, Surplus, Costly, Spoilt, Depth, Bounded, Slots;
      WalkingBasics(n, first, start, base, f, live);
      ended, seen := false, start;
      var k := 0;
      while k < 16
        invariant Budget(true)
        invariant k <= 16 && seen == start + k && Walking(n, first, seen, base, f, live) && n < |chains| && chains[n] == old(chains[n])
        invariant visited >= old(visited) && UpOf(geo, origins, n) == parent && pool.refused >= old(pool.refused) && Spent() <= old(Spent())
      {
        WalkingBasics(n, first, seen, base, f, live);
        SlotIndex(start, k);
        var item := Parse(data[k * 32..k * 32 + 32], first, parent);
        assert AtSlot(n, seen, item);
        if item.EndMark? { return true, true, seen, Unharmed; }
        if item.Invalid? {
          Unreadable(n, first, seen, item, base, f, live);
          return false, false, seen, Fault(Tree(), Malformed(n, seen));
        }
        if item.Entry? {
          ok, fault := Visit(n, item, first, depth, seen, base, f, live);
          if !ok { return; }
        } else {
          SkipSlot(n, first, seen, item, base, f, live);
        }
        k, seen := k + 1, seen + 1;
      }
      WalkingBasics(n, first, seen, base, f, live);
      ok, fault := true, Unharmed;
    }

    lemma Unreadable(n: nat, first: nat, seen: nat, item: Item, base: map<nat, Bytes>, f: Forest, live: map<nat, Bytes>)
      requires Walking(n, first, seen, base, f, live) && AtSlot(n, seen, item) && item.Invalid?
      ensures Mem(base) && Inside() && Spoilt(geo, disk, Fault(Tree(), Malformed(n, seen)))
    {
      hide GeometryOk, CacheOk, ClaimsOk, ForestOk, MemOk, Kept, AllDone, Nested, Parse, HasSlot, SlotBytes, ItemAt, Scanned, Tallied, Spoilt, Bounded, Slots;
      SpoiltEntry(geo, disk, Tree(), n, seen, item);
    }

    lemma SkipSlot(n: nat, first: nat, seen: nat, item: Item, base: map<nat, Bytes>, f: Forest, live: map<nat, Bytes>)
      requires Walking(n, first, seen, base, f, live) && AtSlot(n, seen, item) && item.Skip?
      ensures Walking(n, first, seen + 1, base, f, live)
    {
      hide GeometryOk, CacheOk, ClaimsOk, ForestOk, MemOk, Kept, AllDone, Nested, Parse, HasSlot, SlotBytes, ItemAt, Bounded, Slots;
      assert SlotOk(geo, disk, Tree(), n, seen);
      forall k: nat {:trigger SlotOk(geo, disk, Tree(), n, k)} | k < seen + 1 ensures SlotOk(geo, disk, Tree(), n, k) {
      }
    }

    method ReadWalking(lba: nat, n: nat, first: nat, ghost seen: nat, ghost base: map<nat, Bytes>, ghost f: Forest, ghost live: map<nat, Bytes>)
      returns (ok: bool, data: Bytes)
      requires Walking(n, first, seen, base, f, live) && lba < geo.total
      requires Budget(true)
      modifies this`readCount, this`log
      ensures Walking(n, first, seen, base, f, live) && Mem(base) && Inside()
      ensures Spent() == old(Spent()) + 1
      ensures !ok ==> |log| > READ_LIMIT || !Readable(disk, lba)
      ensures ok ==> Readable(disk, lba) && data == disk.data[lba]
      ensures Budget(ok)
    {
      hide GeometryOk, CacheOk, ClaimsOk, ForestOk, MemOk, Kept, AllDone, Scanned, Nested, Tallied, Bounded, Slots, AllStarted, Surplus;
      ok, data := ReadSector(lba);
      SurplusRead(old(readCount), 1, visited, geo.spc);
    }

    /** The table lookup at the end of a directory's cluster. */
    method NextWalking(cluster: nat, n: nat, first: nat, ghost seen: nat, ghost base: map<nat, Bytes>, ghost f: Forest, ghost live: map<nat, Bytes>)
      returns (ok: bool, next: nat, ghost fault: Fault)
      requires Walking(n, first, seen, base, f, live) && chains[n] != [] && chains[n][|chains[n]| - 1] == cluster && Spent() <= 3
      requires Budget(true)
      modifies this`readCount, this`log, this`cacheValid, this`cachedSector, this`cache
      ensures Mem(base) && Inside() && (!ok ==> Stuck(pool.refused, fault)) && Spent() <= old(Spent()) + 2
      ensures ok ==> Walking(n, first, seen, base, f, live) && HasFatSector(geo, disk, cluster / 128) && next == NextOf(geo, disk, cluster)
      ensures Budget(ok)
    {
      hide GeometryOk, CacheOk, ClaimsOk, ForestOk, MemOk, Kept, AllDone, HasFatSector, NextOf, Scanned, Nested, Tallied, Spoilt, Bounded, Slots, AllStarted, Surplus, Costly;
      ok, next := FatEntry(cluster);
      SurplusMore(old(readCount), readCount, visited, geo.spc, 2);
      fault := Unharmed;
      if !ok { fault := EntryGone(n); }
    }

    /** Claim the next cluster of a directory. */
    method ClaimWalking(cluster: nat, n: nat, first: nat, ghost seen: nat, ghost base: map<nat, Bytes>, ghost f: Forest, ghost live: map<nat, Bytes>)
      returns (ok: bool, ghost fault: Fault)
      requires Walking(n, first, seen, base, f, live) && LeadsTo(n, first, cluster) && (chains[n] == [] || ValidCluster(geo, cluster))
      modifies this`visited, this`claimed, this`chains, this`owner
      ensures Mem(base) && Inside() && visited >= old(visited) && (!ok ==> Spoilt(geo, disk, fault)) && Spent() <= old(Spent())
      ensures ok ==> Spent() == old(Spent()) - (geo.spc + 2)
      ensures ok ==> visited == old(visited) + 1 <= VISIT_LIMIT && Walking(n, first, seen, base, f, live) && ValidCluster(geo, cluster)
      ensures ok ==> n < |chains| == |origins| && chains[n] == old(chains[n]) + [cluster]
      ensures ok && old(MarksEnd(geo, disk, Tree(), n, seen)) ==> MarksEnd(geo, disk, Tree(), n, seen)
    {
      hide GeometryOk, CacheOk, ClaimsOk, ForestOk, MemOk, Kept, AllDone, Linked, ValidCluster, Scanned, Nested, MarksEnd, Tallied, Spoilt, Bounded, Slots, AllStarted, Surplus;
      ghost var before := Tree();
      CoreSizes();
      if chains[n] != [] { BeforeEnd(geo, disk, cluster); }
      ok, fault := Claim(n, cluster);
      if ok {
        KeptClaim(f, live, before, pool.live, n, cluster);
        CoreParent(n);
        AllDoneClaim(geo, disk, before, pool.live, n, cluster);
        ClaimScanned(geo, disk, before, n, cluster, seen);
      }
    }

    /** The sectors of one cluster, until the directory has ended. */
    method ScanCluster(n: nat, cluster: nat, first: nat, parent: nat, depth: nat, before: bool, ghost start: nat, ghost earlier: seq<nat>, ghost base: map<nat, Bytes>,
                       ghost f: Forest, ghost live: map<nat, Bytes>)
      returns (ok: bool, ended: bool, ghost seen: nat, ghost fault: Fault)
      requires Walking(n, first, start, base, f, live) && n < |chains| == |origins| && chains[n] == earlier + [cluster] && parent == UpOf(geo, origins, n)
      requires ValidCluster(geo, cluster) && depth == Depth(f.origins, n) <= DEPTH_MAX && Spent() <= 3 - geo.spc
      requires if before then MarksEnd(geo, disk, Tree(), n, start) else start == 16 * |Sectors(geo, earlier)|
      requires Budget(true)
      modifies this`visited, this`claimed, this`chains, this`owner, this`readCount, this`log, this`cacheValid, this`cachedSector, this`cache,
               this`nodes, this`cachedBytes, this`origins, pool
      ensures Mem(base) && Inside() && visited >= old(visited) && Spent() <= old(Spent()) + geo.spc
      ensures pool.refused >= old(pool.refused) && (!ok ==> Stuck(old(pool.refused), fault))
      ensures ok ==> Walking(n, first, seen, base, f, live) && n < |chains| == |origins| && chains[n] == old(chains[n]) && UpOf(geo, origins, n) == parent
      ensures ok ==> if ended then MarksEnd(geo, disk, Tree(), n, seen) else seen == 16 * |Sectors(geo, chains[n])|
      decreases 9 - depth, 2
      ensures Budget(ok)
    {
      hide Walking, Core, Mem, Sectors, GeometryOk, Surplus, Costly, ValidCluster, ClusterLba, MarksEnd, UpOf, Spoilt, Depth, Bounded, Slots;
      WalkingBasics(n, first, start, base, f, live);
      SectorsMore(geo, earlier, cluster);
      ended, seen := before, start;
      var s := 0;
      while s < geo.spc && !ended
        invariant Budget(true)
        invariant Walking(n, first, seen, base, f, live) && n < |chains| == |origins| && chains[n] == old(chains[n]) && visited >= old(visited)
        invariant s <= geo.spc && UpOf(geo, origins, n) == parent && pool.refused >= old(pool.refused) && Spent() <= old(Spent()) + s
        invariant if ended then MarksEnd(geo, disk, Tree(), n, seen) else seen == 16 * (|Sectors(geo, earlier)| + s)
      {
        WalkingBasics(n, first, seen, base, f, live);
        ClusterInside(geo, disk, cluster, s);
        SixteenSlots(|Sectors(geo, earlier)| + s, seen);
        assert Sectors(geo, chains[n])[seen / 16] == ClusterLba(geo, cluster) + s;
        var data;
        ok, data := ReadWalking(ClusterLba(geo, cluster) + s, n, first, seen, base, f, live);
        if !ok {
          fault := TornOff(n, first, seen, |Sectors(geo, earlier)| + s, base, f, live);
          return ok, ended, seen, fault;
        }
        ok, ended, seen, fault := ScanSector(n, data, first, parent, depth, seen, base, f, live);
        if !ok { return; }
        s := s + 1;
      }
      WalkingBasics(n, first, seen, base, f, live);
      ok, fault := true, Unharmed;
    }

    lemma TornOff(n: nat, first: nat, seen: nat, k: nat, base: map<nat, Bytes>, f: Forest, live: map<nat, Bytes>) returns (fault: Fault)
      requires Walking(n, first, seen, base, f, live) && n < |chains| && seen == 16 * k && k < |Sectors(geo, chains[n])| && Spent() <= 5
      requires |log| > READ_LIMIT || !Readable(disk, Sectors(geo, chains[n])[k])
      ensures Mem(base) && Inside() && (Costly(geo, disk, fault) || Spoilt(geo, disk, fault))
    {
      hide GeometryOk, CacheOk, ClaimsOk, ForestOk, MemOk, Kept, AllDone, Nested, Scanned, Tallied, Spoilt, Sectors, Bounded, Slots, AllStarted, Costly, Surplus;
      CoreSizes();
      if |log| > READ_LIMIT {
        TooCostly(geo, disk, Tree(), readCount, visited, cachedBytes);
        return Exhausted(Tree());
      }
      SpoiltTorn(geo, disk, Tree(), n, k);
      fault := Fault(Tree(), Torn(n, k));
    }

    /** One cluster of a directory: claimed, scanned, and the next one looked up. */
    method WalkCluster(n: nat, cluster: nat, first: nat, parent: nat, depth: nat, before: bool, ghost start: nat, ghost base: map<nat, Bytes>,
                       ghost f: Forest, ghost live: map<nat, Bytes>)
      returns (ok: bool, ended: bool, next: nat, ghost seen: nat, ghost fault: Fault)
      requires Walking(n, first, start, base, f, live) && LeadsTo(n, first, cluster) && n < |chains| == |origins| && parent == UpOf(geo, origins, n)
      requires chains[n] == [] || ValidCluster(geo, cluster)
      requires Spent() <= 5 && depth == Depth(f.origins, n) <= DEPTH_MAX && if before then MarksEnd(geo, disk, Tree(), n, start) else start == 16 * |Sectors(geo, chains[n])|
      requires Budget(true)
      modifies this`visited, this`claimed, this`chains, this`owner, this`readCount, this`log, this`cacheValid, this`cachedSector, this`cache,
               this`nodes, this`cachedBytes, this`origins, pool
      ensures Mem(base) && Inside() && visited >= old(visited) && Spent() <= old(Spent())
      ensures pool.refused >= old(pool.refused) && (!ok ==> Stuck(old(pool.refused), fault))
      ensures ok ==> visited > old(visited) && old(visited) < VISIT_LIMIT
      ensures ok ==> Walking(n, first, seen, base, f, live) && n < |chains| == |origins| && UpOf(geo, origins, n) == parent
      ensures ok ==> if ended then MarksEnd(geo, disk, Tree(), n, seen) else seen == 16 * |Sectors(geo, chains[n])|
      ensures ok ==> chains[n] != [] && HasFatSector(geo, disk, chains[n][|chains[n]| - 1] / 128) && next == NextOf(geo, disk, chains[n][|chains[n]| - 1])
      decreases 9 - depth, 3
      ensures Budget(ok)
    {
      hide Walking, Core, Mem, MarksEnd, HasFatSector, NextOf, ValidCluster, Sectors, UpOf, Linked, Surplus, Costly, Spoilt, Depth, Bounded, Slots;
      ended, next, seen := before, 0, start;
      ghost var earlier := chains[n];
      ok, fault := ClaimWalking(cluster, n, first, start, base, f, live);
      if !ok { return; }
      ok, ended, seen, fault := ScanCluster(n, cluster, first, parent, depth, before, start, earlier, base, f, live);
      if !ok { return; }
      ok, next, fault := NextWalking(cluster, n, first, seen, base, f, live);
    }

    /**
      Walk a directory, recursively. Depth and the claim budget bound the work; on success the directory's chain is complete,
      its children are exactly its entries, and so on for everything found below it.
    */
    method Directory(n: nat, first: nat, parent: nat, depth: nat, ghost base: map<nat, Bytes>) returns (ok: bool, ghost fault: Fault)
      requires Core() && Mem(base) && Inside() && n == |nodes| - 1 && nodes[n].dir && n < |chains| && chains[n] == []
      requires n < |origins| && origins[n].child == first && parent == UpOf(geo, origins, n) && depth == Depth(origins, n) && Spent() <= 5
      requires Budget(true)
      modifies this`visited, this`claimed, this`chains, this`owner, this`readCount, this`log, this`cacheValid, this`cachedSector, this`cache,
               this`nodes, this`cachedBytes, this`origins, pool
      ensures Mem(base) && Inside() && visited >= old(visited) && Spent() <= old(Spent())
      ensures pool.refused >= old(pool.refused) && (!ok ==> Stuck(old(pool.refused), fault))
      ensures ok ==> Core() && Kept(old(Tree()), old(pool.live), Tree(), pool.live, n) && AllDone(geo, disk, Tree(), pool.live, n)
      ensures ok ==> n < |nodes| == |origins| && nodes[n] == old(nodes[n]) && origins[n] == old(origins[n]) && Nested(origins, n)
      decreases if depth > DEPTH_MAX then 0 else 9 - depth, 4
      ensures Budget(ok)
    {
      hide Walking, Core, Mem, MarksEnd, HasFatSector, NextOf, ValidCluster, Sectors, UpOf, Nested, Surplus, Costly, Kept, AllDone, Spoilt, Depth, Bounded, Slots;
      if depth > DEPTH_MAX {
        TooDeep(n, base);
        return false, Fault(Tree(), Deep(n));
      }
      ghost var f, live, seen := Tree(), pool.live, 0;
      StartWalk(n, first, base);
      var cluster: nat, ended := first, false;
      while true
        invariant Budget(true)
        invariant Walking(n, first, seen, base, f, live) && LeadsTo(n, first, cluster) && visited >= old(visited)
        invariant n < |chains| == |origins| && UpOf(geo, origins, n) == parent && pool.refused >= old(pool.refused)
        invariant (chains[n] == [] || ValidCluster(geo, cluster)) && Spent() <= old(Spent())
        invariant if ended then MarksEnd(geo, disk, Tree(), n, seen) else seen == 16 * |Sectors(geo, chains[n])|
        decreases VISIT_LIMIT - visited
      {
        var next;
        ok, ended, next, seen, fault := WalkCluster(n, cluster, first, parent, depth, ended, seen, base, f, live);
        if !ok { return; }
        if next >= END_OF_CHAIN {
          FinishWalk(n, first, seen, ended, base, f, live);
          return true, Unharmed;
        }
        if !ValidCluster(geo, next) {
          Lost(n, first, next, seen, base, f, live);
          return false, Fault(Tree(), Astray(n, next));
        }
        cluster := next;
      }
    }

    lemma TooDeep(n: nat, base: map<nat, Bytes>)
      requires Core() && Mem(base) && Inside() && n < |nodes| && nodes[n].dir && n < |origins| && Depth(origins, n) > DEPTH_MAX
      ensures Mem(base) && Inside() && Spoilt(geo, disk, Fault(Tree(), Deep(n)))
    {
      hide GeometryOk, CacheOk, ClaimsOk, ForestOk, MemOk, Tallied, Spoilt, Depth, Bounded, Slots;
      CoreSizes();
      SpoiltDeep(geo, disk, Tree(), n);
    }

    lemma Lost(n: nat, first: nat, next: nat, seen: nat, base: map<nat, Bytes>, f: Forest, live: map<nat, Bytes>)
      requires Walking(n, first, seen, base, f, live) && n < |chains| && chains[n] != [] && next < END_OF_CHAIN
      requires Linked(geo, disk, chains[n][|chains[n]| - 1], next) && !ValidCluster(geo, next)
      ensures Mem(base) && Inside() && Spoilt(geo, disk, Fault(Tree(), Astray(n, next)))
    {
      hide GeometryOk, CacheOk, ClaimsOk, ForestOk, MemOk, Kept, AllDone, Nested, Scanned, Tallied, Spoilt, Sectors, Linked, ValidCluster, Bounded, Slots;
      CoreSizes();
      SpoiltAstray(geo, disk, Tree(), n, next);
    }

    lemma StartWalk(n: nat, first: nat, base: map<nat, Bytes>)
      requires Core() && Mem(base) && Inside() && n == |nodes| - 1 && nodes[n].dir && n < |chains| && chains[n] == []
      requires n < |origins| && origins[n].child == first
      ensures Walking(n, first, 0, base, Tree(), pool.live) && Sectors(geo, chains[n]) == [] && |chains| == |origins|
    {
      hide GeometryOk, CacheOk, ClaimsOk, ForestOk, MemOk, Scanned, Nested, Bounded, Slots;
      CoreSizes();
      NoneScanned(geo, disk, Tree(), n);
      NoneAfter(origins, n);
      NoSectors(geo);
    }

    lemma FinishWalk(n: nat, first: nat, seen: nat, ended: bool, base: map<nat, Bytes>, f: Forest, live: map<nat, Bytes>)
      requires Walking(n, first, seen, base, f, live) && n < |chains| == |origins| && Ends(geo, disk, chains[n]) && Depth(f.origins, n) <= DEPTH_MAX
      requires if ended then MarksEnd(geo, disk, Tree(), n, seen) else seen == 16 * |Sectors(geo, chains[n])|
      ensures Core() && Mem(base) && Inside() && Kept(f, live, Tree(), pool.live, n) && AllDone(geo, disk, Tree(), pool.live, n)
      ensures n < |nodes| == |origins| && n < |f.nodes| == |f.origins| && nodes[n] == f.nodes[n] && origins[n] == f.origins[n] && Nested(origins, n)
    {
      hide GeometryOk, CacheOk, ClaimsOk, ForestOk, MemOk, Kept, Scanned, Nested, MarksEnd, Ends, Bounded, Slots, Depth, AllStarted, Tallied;
      CoreSizes();
      assert ReadTo(geo, disk, Tree(), n, seen, ended);
      SameDepth(f, live, Tree(), pool.live, n);
      assert Done(geo, disk, Tree(), pool.live, n);
    }

    lemma WalkingBasics(n: nat, first: nat, seen: nat, base: map<nat, Bytes>, f: Forest, live: map<nat, Bytes>)
      requires Walking(n, first, seen, base, f, live)
      ensures Mem(base) && Inside() && n < |nodes| == |chains| == |origins| && GeometryOk(geo, disk) && origins[n].child == first
    {
      CoreSizes();
    }

    /** A node's parent comes before it. */
    lemma CoreParent(n: nat)
      requires Core()
      ensures forall i | 0 < i < |nodes| == |origins| :: origins[i].parent < i
    {
      forall i | 0 < i < |nodes| == |origins| ensures origins[i].parent < i { assert FromEntry(geo, disk, Tree(), i); }
    }

    lemma CoreSizes()
      requires Core()
      ensures 0 < |nodes| == |chains| == |origins| && GeometryOk(geo, disk) && nodes[0].dir
    {
    }

    // -------------------------------------------------------------- the import

    ghost predicate Zeroed()
      reads this
    {
      Bare() && !cacheValid && visited == 0 && readCount == 0 && cachedBytes == 0 && !attached && !ready && geo == NO_GEOMETRY
    }

    /** No tree and no bitmap yet. */
    ghost predicate Bare()
      reads this
    {
      nodes == [] && claimedPtr == 0 && chains == [] && origins == [] && owner == map[]
    }

    method ReleaseBuffers()
      requires pool.Valid() && L.Distinct(Slots(nodes)) && L.Owned(Slots(nodes)) <= pool.live.Keys
      modifies pool`live
      ensures pool.Valid() && pool.live == old(pool.live) - L.Owned(Slots(nodes))
    {
      hide L.Distinct, L.Owned, Bounded;
      ghost var slots := Slots(nodes);
      NoSlots(slots[..0]);
      var i := 0;
      while i < |nodes|
        invariant i <= |nodes| && pool.Valid() && pool.live == old(pool.live) - L.Owned(slots[..i])
      {
        L.Prefix(slots, i);
        if nodes[i].data != 0 {
          L.OwnedAt(slots, i);
          pool.Free(nodes[i].data);
        }
        i := i + 1;
      }
      assert slots[..|slots|] == slots;
    }

    method Forget()
      modifies this`geo, this`nodes, this`claimedPtr, this`claimed, this`cachedSector, this`cacheValid, this`cache, this`visited,
               this`readCount, this`cachedBytes, this`attached, this`ready, this`chains, this`origins, this`owner
      ensures Zeroed()
    {
      geo := NO_GEOMETRY;
      nodes, claimedPtr, claimed, cachedSector, cacheValid, cache := [], 0, [], 0, false, [];
      visited, readCount, cachedBytes, attached, ready := 0, 0, 0, false, false;
      ForgetBooks();
    }

    ghost method ForgetBooks()
      modifies this`chains, this`origins, this`owner
      ensures chains == [] && origins == [] && owner == map[]
    {
      chains, origins, owner := [], [], map[];
    }

    /** Free every buffer and the bitmap, each exactly once, and forget everything. */
    method Discard(ghost base: map<nat, Bytes>)
      requires Mem(base)
      modifies this`geo, this`nodes, this`claimedPtr, this`claimed, this`cachedSector, this`cacheValid, this`cache, this`visited,
               this`readCount, this`cachedBytes, this`attached, this`ready, this`chains, this`origins, this`owner, pool`live
      ensures Zeroed() && pool.Valid() && pool.live == base
    {
      hide L.Distinct, L.Owned, Slots, Zeroed, Bounded;
      ReleaseBuffers();
      if claimedPtr != 0 { pool.Free(claimedPtr); }
      assert pool.live == base;
      Forget();
    }

    // -------------------------------------------------------------- the boot sector

    /** A boot sector is taken exactly when it is acceptable, and then its geometry is the one it describes. */
    method ReadGeometry(boot: Bytes) returns (ok: bool, g: Geometry)
      requires |boot| == SECTOR
      ensures ok <==> BootOk(boot, disk.sectors)
      ensures ok ==> g == BootGeometry(boot) && GeometryOk(g, disk)
    {
      hide Little16, Little32, SignatureOk, GeometryOk;
      g := NO_GEOMETRY;
      if BootOk(boot, disk.sectors) { BootGeometryOk(boot, disk); }
      var reserved, flags, total, fatSize := Little16(boot, 14), Little16(boot, 40), Little32(boot, 32), Little32(boot, 36);
      var spc: nat, fats: nat := boot[13] as int, boot[16] as int;
      if !SignatureOk(boot) || spc !in {1, 2, 4, 8, 16, 32, 64, 128} || reserved == 0 || (fats != 1 && fats != 2) || fatSize == 0 { return false, g; }
      var overhead := reserved + fats * fatSize;
      if overhead >= total || total > disk.sectors || flags / 256 != 0 || flags / 16 % 8 != 0 { return false, g; }
      var clusters := (total - overhead) / spc;
      if clusters < 65525 || clusters > CLUSTER_MAX || fatSize * 128 < clusters + 2 { return false, g; }
      var mirrored := flags / 128 % 2 == 0;
      var active := if mirrored then 0 else flags % 16;
      if active >= fats { return false, g; }
      g := Geometry(total, clusters, reserved, fatSize, overhead, Little32(boot, 44), spc, fats, active, mirrored);
      ok := ValidCluster(g, g.root);
    }

    // -------------------------------------------------------------- putting it together

    /** Read and check the boot sector and the first two table entries. */
    method Mount() returns (ok: bool)
      requires !cacheValid && log == [] && readCount == 0
      requires Budget(true)
      modifies this`geo, this`readCount, this`log, this`cacheValid, this`cachedSector, this`cache
      ensures (ok <==> Mountable(disk)) && readCount <= 5
      ensures ok ==> GeometryOk(geo, disk) && Inside() && CacheOk(geo, disk, cacheValid, cachedSector, cache) && Mounted(geo, disk)
      ensures Budget(ok)
    {
      hide GeometryOk, BootOk, BootGeometry, HasFatSector, FatSector, NextOf;
      BootInside(disk);
      var boot;
      ok, boot := ReadSector(0);
      if !ok { return; }
      var g;
      ok, g := ReadGeometry(boot);
      if !ok { return; }
      geo := g;
      var first, second;
      ok, first := FatEntry(0);
      if !ok { return; }
      ok, second := FatEntry(1);
      ok := ok && first == 0x0FFF_FF00 + boot[21] as int && second >= END_OF_CHAIN;
    }

    method NewBitmap(size: nat, ghost base: map<nat, Bytes>) returns (p: nat)
      requires pool.Valid() && pool.live == base
      modifies pool
      ensures pool.Valid() && MemOk(pool.live, base, [], p)
      ensures pool.refused == old(pool.refused) + if p == 0 then 1 else 0
    {
      p := pool.Alloc(size);
      if p == 0 { NoMemory(pool.live, base); } else { BitmapMemory(base, pool.live, p); }
    }

    /** The claim bitmap and the root node. */
    method Plant(p: nat, size: nat, ghost base: map<nat, Bytes>)
      requires pool.Valid() && MemOk(pool.live, base, [], p)
      requires GeometryOk(geo, disk) && CacheOk(geo, disk, cacheValid, cachedSector, cache) && geo.clusters <= 8 * size && visited == cachedBytes == 0
      modifies this`claimedPtr, this`claimed, this`nodes, this`chains, this`origins, this`owner
      ensures Core() && Mem(base) && |nodes| == 1 && nodes[0].dir && chains == [[]] && claimedPtr == p
      ensures |origins| == 1 && origins[0].child == geo.root && visited == 0
    {
      hide GeometryOk, CacheOk, ForestOk, ClaimsOk, MemOk, Tallied, Slots, L.Distinct, L.Owned, RootOk, AllStarted;
      var root := Node(ROOT_PATH, 0, 0, true);
      var blank := seq(size, i => 0);
      TallyRoot(root);
      RootStarted(geo, disk, Forest([root], [[]], [Origin(0, 0, geo.root)], map[]));
      NothingClaimed(geo, blank);
      RootAlone(geo, disk, Forest([root], [[]], [Origin(0, 0, geo.root)], map[]));
      MemAdd(pool.live, base, [], p, root);
      assert [] + [root] == [root];
      claimedPtr, claimed := p, blank;
      nodes, chains, origins, owner := [root], [[]], [Origin(0, 0, geo.root)], map[];
    }

    /** Build the tree; whatever happens, the books say what is allocated. */
    method Grow(ghost base: map<nat, Bytes>) returns (ok: bool, ghost fault: Fault)
      requires Bare() && pool.Valid() && pool.live == base
      requires GeometryOk(geo, disk) && CacheOk(geo, disk, cacheValid, cachedSector, cache) && Inside() && visited == cachedBytes == 0 && readCount <= 5
      requires Budget(true)
      modifies this`visited, this`claimed, this`chains, this`owner, this`readCount, this`log, this`cacheValid, this`cachedSector, this`cache,
               this`nodes, this`cachedBytes, this`origins, this`claimedPtr, pool
      ensures Mem(base) && (!ok ==> Stuck(old(pool.refused), fault))
      ensures ok ==> Core() && Inside() && claimedPtr != 0 && AllDone(geo, disk, Tree(), pool.live, 0)
      ensures Budget(ok)
    {
      hide GeometryOk, CacheOk, ClaimsOk, ForestOk, AllDone, Nested, Spoilt, Bounded, MemOk, Tallied;
      var size := (geo.clusters + 7) / 8;
      var p := NewBitmap(size, base);
      if p == 0 { return false, Unharmed; }
      Plant(p, size, base);
      ok, fault := Directory(0, geo.root, 0, 0, base);
    }

    /** Mount the volume and build its tree. */
    method Attempt(ghost base: map<nat, Bytes>) returns (ok: bool, ghost fault: Fault)
      requires Bare() && pool.Valid() && pool.live == base && !cacheValid && log == [] && readCount == visited == cachedBytes == 0
      requires Budget(true)
      modifies this`geo, this`visited, this`claimed, this`chains, this`owner, this`readCount, this`log, this`cacheValid, this`cachedSector,
               this`cache, this`nodes, this`cachedBytes, this`origins, this`claimedPtr, pool
      ensures Mem(base)
      ensures ok ==> Core() && Inside() && Mounted(geo, disk) && Mountable(disk) && claimedPtr != 0 && Imported(geo, disk, Tree(), pool.live)
      ensures !ok && Mountable(disk) ==> var g := BootGeometry(disk.data[0]);
        pool.refused > old(pool.refused) || Costly(g, disk, fault) || Spoilt(g, disk, fault)
      ensures Budget(ok)
    {
      hide GeometryOk, CacheOk, ForestOk, ClaimsOk, AllDone, MemOk, Spoilt, BootOk, BootGeometry, HasFatSector, NextOf, Bounded, Tallied;
      ok := Mount();
      if !ok {
        NoMemory(pool.live, base);
        return false, Unharmed;
      }
      ok, fault := Grow(base);
      if ok { Finished(base); }
    }

    /** Everything is read, and every byte of a file is in a buffer. */
    lemma Finished(base: map<nat, Bytes>)
      requires Core() && Mem(base) && AllDone(geo, disk, Tree(), pool.live, 0)
      ensures Imported(geo, disk, Tree(), pool.live)
    {
      hide GeometryOk, CacheOk, ForestOk, ClaimsOk, AllStarted, Complete, Reads, Ends, Depth, L.Distinct, L.Owned, Slots;
      forall i | 0 <= i < |nodes| && nodes[i].data == 0 ensures nodes[i].size == 0 {
        assert Done(geo, disk, Tree(), pool.live, i);
        if nodes[i].dir { DirectorySize(geo, disk, Tree(), i); }
      }
      AllBuffered(nodes);
    }

    /** The claim bitmap is no longer needed. */
    method DropBitmap(ghost base: map<nat, Bytes>)
      requires Mem(base) && claimedPtr != 0 && Imported(geo, disk, Tree(), pool.live)
      modifies this`claimedPtr, pool`live
      ensures pool.Valid() && claimedPtr == 0 && Imported(geo, disk, Tree(), pool.live) && MemOk(pool.live, base, nodes, 0)
    {
      hide AllDone, MemOk, ForestOk, FileBytes;
      BitmapGone(geo, disk, Tree(), pool.live, base, nodes, claimedPtr);
      pool.Free(claimedPtr);
      claimedPtr := 0;
    }

    /**
      Import a volume. Success gives the tree of the volume the boot sector describes: every cluster belongs to at most one
      node, the children of every directory are exactly its entries on the disk, every file holds the bytes of its chain,
      and no read left the volume or exceeded the budget. Failure frees every block exactly once and leaves nothing behind; it has a reason: the
      boot sector or the head of the table, a refused allocation, a tree too large for the read budget, or a place in the
      volume that breaks a rule, which no import could have passed. With a willing allocator and a tree of moderate size an
      import succeeds exactly when nothing in the volume breaks a rule.
    */
    method Import() returns (ok: bool, ghost fault: Fault)
      requires pool.Valid() && (nodes == [] && !ready && !attached ==> Zeroed())
      modifies this, pool
      ensures pool.Valid()
      ensures ok ==> old(Zeroed()) && ready && claimedPtr == 0 && Mounted(geo, disk) && GeometryOk(geo, disk) && ForestOk(geo, disk, Tree()) && Inside()
      ensures ok ==> Imported(geo, disk, Tree(), pool.live) && AllDone(geo, disk, Tree(), pool.live, 0) && MemOk(pool.live, old(pool.live), nodes, 0)
      ensures !ok ==> pool.live == old(pool.live) && (old(Zeroed()) ==> Zeroed())
      ensures old(Zeroed()) ==> |log| <= READ_LIMIT + if ok then 0 else 1
      ensures !ok && old(Zeroed()) && Mountable(disk) ==> var g := BootGeometry(disk.data[0]);
        pool.refused > old(pool.refused) || Costly(g, disk, fault) || Spoilt(g, disk, fault)
      ensures ok ==> Mountable(disk) && !Faulty(geo, disk)
      ensures old(Zeroed()) && Mountable(disk) && pool.refused == old(pool.refused) ==> var g := BootGeometry(disk.data[0]);
        !Ponderous(g, disk) ==> (ok <==> !Faulty(g, disk))
    {
      hide GeometryOk, CacheOk, ForestOk, ClaimsOk, AllDone, MemOk, Spoilt, BootGeometry, Mounted, Mountable, Bounded, Tallied;
      if nodes != [] || ready || attached { return false, Unharmed; }
      ghost var base := pool.live;
      attached, log := true, [];
      ok, fault := Attempt(base);
      if ok {
        DropBitmap(base);
        ImportedSound(geo, disk, Tree(), pool.live);
        assert geo == BootGeometry(disk.data[0]) by { GeometryIs(geo, disk); }
        ready := true;
      } else {
        Discard(base);
      }
    }
  }

  /** A node taken in behind directory `n` leaves the directory as it was, one slot further, and is complete itself. */
  lemma Visited(g: Geometry, d: Disk, f: Forest, live: map<nat, Bytes>, f0: Forest, live0: map<nat, Bytes>, f1: Forest,
                f2: Forest, live2: map<nat, Bytes>, n: nat, m: nat, seen: nat, item: Item)
    requires Kept(f, live, f0, live0, n) && n < m == |f0.nodes| == |f0.chains| == |f0.origins| && AllDone(g, d, f0, live0, n + 1)
    requires forall i | 0 < i < m :: f0.origins[i].parent < i
    requires Nested(f0.origins, n) && Scanned(g, d, f0, n, seen) && HasSlot(g, d, f0.chains[n], seen) && item == ItemAt(g, d, f0, n, seen) && item.Entry?
    requires |f1.nodes| == |f1.chains| == |f1.origins| == m + 1 && f1.nodes[..m] == f0.nodes && f1.chains[..m] == f0.chains
    requires f1.origins == f0.origins + [Origin(n, seen, item.child)]
    requires Kept(f1, live0, f2, live2, m) && AllDone(g, d, f2, live2, m) && m < |f2.origins| && f2.origins[m] == f1.origins[m] && Nested(f2.origins, m)
    ensures Kept(f, live, f2, live2, n) && AllDone(g, d, f2, live2, n + 1) && Nested(f2.origins, n)
    ensures f2.nodes[n] == f0.nodes[n] && f2.chains[n] == f0.chains[n] && f2.origins[n] == f0.origins[n]
    ensures Scanned(g, d, f2, n, seen + 1) && UpOf(g, f2.origins, n) == UpOf(g, f0.origins, n)
  {
    hide Done, LiveKept, Scanned, ItemAt, HasSlot;
    assert f0.nodes[..m] == f0.nodes && f0.chains[..m] == f0.chains && f0.origins[..m] == f0.origins && f1.origins[..m] == f0.origins;
    assert Kept(f0, live0, f2, live2, m);
    KeptTrans(f, live, f0, live0, f2, live2, n, m);
    assert f2.nodes[..m][n] == f2.nodes[n] && f2.chains[..m][n] == f2.chains[n];
    assert forall i | 0 <= i < m :: f2.origins[..m][i] == f2.origins[i] == f0.origins[i];
    ScanEntry(g, d, f0, f2, n, m, seen);
    forall i {:trigger Done(g, d, f2, live2, i)} | n + 1 <= i < |f2.nodes| ensures Done(g, d, f2, live2, i) {
      if i < m {
        assert Done(g, d, f0, live0, i);
        DoneKept(g, d, f0, live0, f2, live2, m, i);
      }
    }
  }

  /** A child of directory `n` is one level below it. */
  lemma DepthBelow(f: Forest, live: map<nat, Bytes>, f0: Forest, live0: map<nat, Bytes>, n: nat, slot: nat, child: nat)
    requires Kept(f, live, f0, live0, n) && n < |f0.origins| && n < |f.origins| && f0.origins[n] == f.origins[n]
    ensures Depth(f0.origins + [Origin(n, slot, child)], |f0.origins|) == Depth(f.origins, n) + 1
  {
    var o := f0.origins + [Origin(n, slot, child)];
    assert o[..n] == f0.origins[..n];
    DepthKept(f.origins, o, n);
  }

  lemma SameDepth(f: Forest, live: map<nat, Bytes>, f0: Forest, live0: map<nat, Bytes>, n: nat)
    requires Kept(f, live, f0, live0, n) && n < |f0.origins| && n < |f.origins| && f0.origins[n] == f.origins[n]
    ensures Depth(f0.origins, n) == Depth(f.origins, n)
  {
    DepthKept(f.origins, f0.origins, n);
  }

  lemma BeforeEnd(g: Geometry, d: Disk, c: nat)
    requires GeometryOk(g, d) && ValidCluster(g, c)
    ensures c < END_OF_CHAIN
  {
  }

  lemma UpAfter(g: Geometry, origins: seq<Origin>, n: nat, slot: nat, child: nat)
    requires n < |origins|
    ensures UpOf(g, origins + [Origin(n, slot, child)], |origins|) == Upward(g, origins[n].child)
  {
  }

  lemma NoneAfter(origins: seq<Origin>, n: nat)
    ensures |origins| <= n + 1 ==> Nested(origins, n)
  {
  }

  lemma NoneScanned(g: Geometry, d: Disk, f: Forest, n: nat)
    requires ForestOk(g, d, f) && n == |f.nodes| - 1
    ensures Scanned(g, d, f, n, 0)
  {
    forall i | 0 < i < |f.origins| ensures f.origins[i].parent != n { assert FromEntry(g, d, f, i); }
  }

  lemma NoSectors(g: Geometry)
    ensures Sectors(g, []) == []
  {
  }

  lemma SlotIndex(start: nat, k: nat)
    requires start % 16 == 0 && k < 16
    ensures (start + k) / 16 == start / 16 && (start + k) % 16 == k
  {
  }

  lemma SixteenSlots(sectors: nat, seen: nat)
    requires seen == 16 * sectors
    ensures seen / 16 == sectors && seen % 16 == 0 && 16 * (sectors + 1) == seen + 16
  {
  }

  /** The geometry is that of the disk's boot sector, and the table begins with the media byte and an end mark. */
  ghost predicate Mounted(g: Geometry, d: Disk) {
    && Readable(d, 0) && BootOk(d.data[0], d.sectors) && g == BootGeometry(d.data[0])
    && HasFatSector(g, d, 0) && NextOf(g, d, 0) == 0x0FFF_FF00 + d.data[0][21] as int && NextOf(g, d, 1) >= END_OF_CHAIN
  }

  lemma GeometryIs(g: Geometry, d: Disk)
    requires Mounted(g, d)
    ensures Readable(d, 0) && g == BootGeometry(d.data[0])
  {
  }

  ghost predicate Mountable(d: Disk) { Readable(d, 0) && Mounted(BootGeometry(d.data[0]), d) }

  lemma BootInside(d: Disk)
    ensures Readable(d, 0) && BootOk(d.data[0], d.sectors) ==> 0 < BootGeometry(d.data[0]).total
  {
    hide Little16, Little32, SignatureOk;
  }

  lemma AllDoneClaim(g: Geometry, d: Disk, f: Forest, live: map<nat, Bytes>, n: nat, c: nat)
    requires AllDone(g, d, f, live, n + 1) && n < |f.chains| && forall i | 0 < i < |f.origins| :: f.origins[i].parent < i
    ensures AllDone(g, d, Claimed(f, n, c), live, n + 1)
  {
    hide Complete;
    var f' := Claimed(f, n, c);
    assert f'.origins[..|f.origins|] == f.origins;
    forall i {:trigger Done(g, d, f', live, i)} | n + 1 <= i < |f'.nodes| ensures Done(g, d, f', live, i) {
      assert Done(g, d, f, live, i);
      if f.nodes[i].dir { CompleteKept(g, d, f, f', i); }
    }
  }

  lemma NothingClaimed(g: Geometry, claimed: Bitmap)
    requires g.clusters <= 8 * |claimed| && forall i | 0 <= i < |claimed| :: claimed[i] == 0
    ensures ClaimsOk(g, claimed, map[])
  {
  }

  lemma RootAlone(g: Geometry, d: Disk, f: Forest)
    requires |f.nodes| == |f.chains| == |f.origins| == 1 && f.nodes[0] == Node(ROOT_PATH, 0, 0, true) && f.origins[0].child == g.root
    requires f.chains[0] == [] && f.owner == map[]
    ensures ForestOk(g, d, f)
  {
    assert ChainOk(g, d, f, 0);
  }

  lemma RootStarted(g: Geometry, d: Disk, f: Forest)
    requires |f.nodes| == |f.chains| == |f.origins| == 1
    ensures AllStarted(g, d, f)
  {
    NoChildren(g, d, f, 0);
  }

  lemma BitmapMemory(base: map<nat, Bytes>, live: map<nat, Bytes>, p: nat)
    requires p != 0 && p !in base && live.Keys == base.Keys + {p} && 0 !in live && forall q | q in base :: live[q] == base[q]
    ensures MemOk(live, base, [], p)
  {
  }

  lemma NoMemory(live: map<nat, Bytes>, base: map<nat, Bytes>)
    requires live == base && 0 !in live
    ensures MemOk(live, base, [], 0)
  {
  }

  /** Freeing the claim bitmap touches no file. */
  lemma BitmapGone(g: Geometry, d: Disk, f: Forest, live: map<nat, Bytes>, base: map<nat, Bytes>, nodes: seq<Node>, ptr: nat)
    requires MemOk(live, base, nodes, ptr) && ptr != 0 && f.nodes == nodes && AllDone(g, d, f, live, 0)
    ensures ptr in live && MemOk(live - {ptr}, base, nodes, 0) && AllDone(g, d, f, live - {ptr}, 0)
  {
    hide L.Distinct, L.Owned;
    var live' := live - {ptr};
    forall i {:trigger Done(g, d, f, live', i)} | 0 <= i < |f.nodes| ensures Done(g, d, f, live', i) {
      assert Done(g, d, f, live, i);
      if nodes[i].data != 0 { L.OwnedAt(Slots(nodes), i); }
    }
  }

  lemma NoSlots<T>(slots: seq<L.Slot<T>>)
    requires slots == []
    ensures L.Owned(slots) == {}
  {
  }

  lemma MemAdd(live: map<nat, Bytes>, base: map<nat, Bytes>, nodes: seq<Node>, ptr: nat, node: Node)
    requires MemOk(live, base, nodes, ptr) && node.data == 0
    ensures MemOk(live, base, nodes + [node], ptr)
  {
    hide L.Distinct, L.Owned;
    var s, r := Slots(nodes), Slots(nodes + [node]);
    assert r == s + [L.Vacant];
    VacantMore(s);
  }

  lemma VacantMore<T>(s: seq<L.Slot<T>>)
    requires L.Distinct(s)
    ensures L.Distinct(s + [L.Vacant]) && L.Owned(s + [L.Vacant]) == L.Owned(s)
  {
    var r := s + [L.Vacant];
    forall i, j | 0 <= i < j < |r| && r[i].Taken? && r[j].Taken? ensures r[i].frame != r[j].frame { L.FramesApart(s, i, j); }
    L.DistinctFrom(r);
    forall g | g in L.Owned(s) ensures g in L.Owned(r) {
      var i :| 0 <= i < |s| && s[i].Taken? && s[i].frame == g;
      assert r[i] == s[i];
    }
  }

  lemma ReadsNothing(d: Disk, data: Bytes)
    ensures Reads(d, [], data, 0)
  {
  }

  /** A block for a file that had none. */
  lemma MemAlloc(live: map<nat, Bytes>, live': map<nat, Bytes>, base: map<nat, Bytes>, nodes: seq<Node>, ptr: nat, n: nat, p: nat)
    requires MemOk(live, base, nodes, ptr) && n < |nodes| && nodes[n].data == 0 && p != 0 && p !in live && live'.Keys == live.Keys + {p}
    requires forall q | q in live :: live'[q] == live[q]
    ensures MemOk(live', base, nodes[n := nodes[n].(data := p)], ptr)
  {
    hide L.Distinct, L.Owned;
    var s, r := Slots(nodes), Slots(nodes[n := nodes[n].(data := p)]);
    L.Fill(s, n, p, true);
    assert r == s[n := L.Taken(p, true)];
  }

  lemma KeptClaim(f: Forest, live: map<nat, Bytes>, f': Forest, live': map<nat, Bytes>, n: nat, c: nat)
    requires Kept(f, live, f', live', n) && n < |f'.chains|
    ensures Kept(f, live, Claimed(f', n, c), live', n)
  {
  }

  lemma KeptBuffer(f: Forest, live: map<nat, Bytes>, live': map<nat, Bytes>, n: nat, p: nat)
    requires n < |f.nodes| == |f.chains| == |f.origins| && LiveKept(live, live')
    ensures Kept(f, live, Buffered(f, n, p), live', n)
  {
    hide LiveKept;
  }

  lemma KeptStore(f: Forest, live: map<nat, Bytes>, f': Forest, live': map<nat, Bytes>, live'': map<nat, Bytes>, n: nat, p: nat)
    requires Kept(f, live, f', live', n) && p !in live && live''.Keys == live'.Keys
    requires forall q | q in live' && q != p :: live''[q] == live'[q]
    ensures Kept(f, live, f', live'', n)
  {
  }

  lemma MemStored(live: map<nat, Bytes>, live': map<nat, Bytes>, base: map<nat, Bytes>, nodes: seq<Node>, ptr: nat, n: nat)
    requires MemOk(live, base, nodes, ptr) && live'.Keys == live.Keys && n < |nodes| && nodes[n].data in live
    requires forall q | q in live && q != nodes[n].data :: live'[q] == live[q]
    ensures MemOk(live', base, nodes, ptr)
  {
    L.OwnedAt(Slots(nodes), n);
    hide L.Distinct, L.Owned;
  }

  lemma ForestSizes(g: Geometry, d: Disk, f: Forest)
    requires ForestOk(g, d, f)
    ensures 0 < |f.nodes| == |f.chains| == |f.origins|
  {
  }

  lemma ClusterIndex(g: Geometry, c: nat)
    requires ValidCluster(g, c)
    ensures c >= 2 && c - 2 < g.clusters
  {
  }

  lemma ClaimMarks(g: Geometry, claimed: Bitmap, owner: map<nat, nat>, index: nat, n: nat)
    requires ClaimsOk(g, claimed, owner) && index < g.clusters
    ensures Covers(claimed, index + 1) && ClaimsOk(g, Put(claimed, index, true), owner[index + 2 := n])
  {
    hide Test, Put;
    PutTest(claimed, index, true, index);
    var b := Put(claimed, index, true);
    forall k: nat {:trigger Test(b, k)} | k < g.clusters ensures Test(b, k) <==> k + 2 in owner[index + 2 := n] {
      PutTest(claimed, index, true, k);
    }
  }
}