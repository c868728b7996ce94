/**
  A volume with a fault is never imported: whatever part of its tree one has, it is part of every complete tree, and there
  the obstacle would have been passed.
*/
module Fat32Verdict {
  import opened Octets
  import opened Fat32Volume
  import opened Fat32Tree
  import opened Fat32Faults

  /** A faithful tree and a complete tree of one volume. */
  ghost predicate Facing(g: Geometry, d: Disk, f: Forest, h: Forest, live: map<nat, Bytes>) {
    GeometryOk(g, d) && ForestOk(g, d, f) && AllStarted(g, d, f) && Imported(g, d, h, live)
  }

  // ---------------------------------------------------------------- chains

  /** Two chains from one cluster go the same way, and the one that has ended is no shorter. */
  lemma ChainPrefix(g: Geometry, d: Disk, a: seq<nat>, b: seq<nat>)
    requires GeometryOk(g, d) && Links(g, d, a) && Links(g, d, b) && Ends(g, d, b) && (a != [] ==> a[0] == b[0])
    ensures a <= b
  {
    hide HasFatSector, NextOf;
    var k := 0;
    while k < |a|
      invariant k <= |a| && k <= |b| && a[..k] == b[..k]
    {
      if k > 0 {
        assert Linked(g, d, a[k - 1], a[k]) && a[k - 1] == a[..k][k - 1] == b[..k][k - 1] == b[k - 1];
        assert ValidCluster(g, a[k]);
        assert Linked(g, d, b[k - 1], b[k]);
      }
      assert a[..k + 1] == a[..k] + [a[k]] && b[..k + 1] == b[..k] + [b[k]];
      k := k + 1;
    }
    assert a[..|a|] == a;
  }

  lemma {:induction false} SectorsLonger(g: Geometry, a: seq<nat>, b: seq<nat>)
    requires a <= b
    ensures Sectors(g, a) <= Sectors(g, b)
    decreases |b|
  {
    if |a| == |b| { assert a == b; } else { SectorsLonger(g, a, b[..|b| - 1]); }
  }

  lemma SlotLonger(g: Geometry, d: Disk, a: seq<nat>, b: seq<nat>, k: nat)
    requires a <= b && HasSlot(g, d, a, k)
    ensures HasSlot(g, d, b, k) && SlotBytes(g, d, b, k) == SlotBytes(g, d, a, k)
  {
    SectorsLonger(g, a, b);
  }

  // ---------------------------------------------------------------- twins

  /** Node `i` of `f` is node `j` of `h`, as far as it has been read. */
  ghost predicate Twin(g: Geometry, f: Forest, i: nat, h: Forest, j: nat) {
    && i < |f.nodes| == |f.chains| == |f.origins| && j < |h.nodes| == |h.chains| == |h.origins|
    && f.nodes[i].path == h.nodes[j].path && f.nodes[i].size == h.nodes[j].size && f.nodes[i].dir == h.nodes[j].dir
    && f.origins[i].child == h.origins[j].child && (i == 0 <==> j == 0) && (i > 0 ==> f.origins[i].slot == h.origins[j].slot)
    && f.chains[i] <= h.chains[j] && UpOf(g, f.origins, i) == UpOf(g, h.origins, j) && Depth(f.origins, i) == Depth(h.origins, j)
  }

  lemma TwinSlot(g: Geometry, d: Disk, f: Forest, i: nat, h: Forest, j: nat, k: nat)
    requires Twin(g, f, i, h, j) && HasSlot(g, d, f.chains[i], k)
    ensures HasSlot(g, d, h.chains[j], k) && ItemAt(g, d, h, j, k) == ItemAt(g, d, f, i, k)
  {
    hide Parse, SlotBytes, HasSlot, UpOf;
    SlotLonger(g, d, f.chains[i], h.chains[j], k);
  }

  /** A slot reached in one tree is reached in the other. */
  lemma SlotReached(g: Geometry, d: Disk, f: Forest, i: nat, h: Forest, j: nat, k: nat)
    requires Twin(g, f, i, h, j) && Complete(g, d, h, j) && k / 16 < |Sectors(g, f.chains[i])|
    requires forall s: nat {:trigger SlotOk(g, d, f, i, s)} | s < k :: SlotOk(g, d, f, i, s)
    ensures HasSlot(g, d, h.chains[j], k)
    ensures HasSlot(g, d, f.chains[i], k) && !ItemAt(g, d, f, i, k).EndMark? ==> SlotOk(g, d, h, j, k)
  {
    hide Parse, SlotBytes, UpOf, Twin, ItemAt, HasSlot, Sectors;
    TwinSizes(g, f, i, h, j);
    var seen: nat, ended: bool :| ReadTo(g, d, h, j, seen, ended);
    if ended && seen < k {
      assert SlotOk(g, d, f, i, seen);
      TwinSlot(g, d, f, i, h, j, seen);
      assert false;
    }
    if HasSlot(g, d, f.chains[i], k) { TwinSlot(g, d, f, i, h, j, k); }
    if !ended { Sixteen(k, |Sectors(g, f.chains[i])|, |Sectors(g, h.chains[j])|); }
    if k < seen { assert SlotOk(g, d, h, j, k); }
  }

  lemma Sixteen(k: nat, a: nat, b: nat)
    requires k / 16 < a <= b
    ensures k < 16 * b
  {
  }

  lemma TwinSizes(g: Geometry, f: Forest, i: nat, h: Forest, j: nat)
    requires Twin(g, f, i, h, j)
    ensures i < |f.nodes| == |f.chains| == |f.origins| && j < |h.nodes| == |h.chains| == |h.origins|
    ensures |Sectors(g, f.chains[i])| <= |Sectors(g, h.chains[j])|
  {
    SectorsLonger(g, f.chains[i], h.chains[j]);
  }

  /** The root is the root. */
  lemma RootTwin(g: Geometry, d: Disk, f: Forest, h: Forest, live: map<nat, Bytes>)
    requires Facing(g, d, f, h, live)
    ensures Twin(g, f, 0, h, 0)
  {
    assert StartsRight(f, 0) && StartsRight(h, 0) && ChainOk(g, d, f, 0) && ChainOk(g, d, h, 0) && Done(g, d, h, live, 0);
    hide ForestOk, Complete, Links, Ends, Depth;
    ChainPrefix(g, d, f.chains[0], h.chains[0]);
  }

  /** The chain of a node, as far as one has it, starts the complete chain. */
  lemma TwinChain(g: Geometry, d: Disk, f: Forest, i: nat, h: Forest, j: nat, live: map<nat, Bytes>)
    requires Facing(g, d, f, h, live) && i < |f.nodes| && j < |h.nodes|
    requires f.origins[i].child == h.origins[j].child && f.nodes[i].dir == h.nodes[j].dir && f.nodes[i].size == h.nodes[j].size
    ensures f.chains[i] <= h.chains[j]
  {
    assert StartsRight(f, i) && StartsRight(h, j) && ChainOk(g, d, f, i) && ChainOk(g, d, h, j) && Done(g, d, h, live, j);
    assert f.chains[i] != [] ==> ValidCluster(g, f.chains[i][0]);
    hide ForestOk, Complete, Linked, Reads, Sectors;
    if h.nodes[j].dir || h.nodes[j].size > 0 {
      ChainPrefix(g, d, f.chains[i], h.chains[j]);
    }
  }

  /** The child that slot `slot` of directory `p` names stands in the complete tree. */
  lemma ChildTwin(g: Geometry, d: Disk, f: Forest, i: nat, h: Forest, q: nat, live: map<nat, Bytes>) returns (j: nat)
    requires Facing(g, d, f, h, live) && 0 < i < |f.nodes| == |f.origins| && f.origins[i].parent < i && Twin(g, f, f.origins[i].parent, h, q)
    ensures Twin(g, f, i, h, j) && h.origins[j].parent == q
  {
    hide Parse, SlotBytes, HasSlot, ItemAt, Complete, Sectors, ChainOk, Links, Reads, Ends, GeometryOk, Scanned, Measured, OwnersOk, PathsOk, StartsRight, FileBytes;
    var p, slot := f.origins[i].parent, f.origins[i].slot;
    assert FromEntry(g, d, f, i) && Started(g, d, f, p) && Done(g, d, h, live, q);
    var item := ItemAt(g, d, f, p, slot);
    var seen: nat :| Scanned(g, d, f, p, seen);
    ScannedShorter(g, d, f, p, seen, slot, i);
    SlotReached(g, d, f, p, h, q, slot);
    TwinSlot(g, d, f, p, h, q, slot);
    assert InTree(h.origins, q, slot);
    j :| 0 < j < |h.origins| && h.origins[j].parent == q && h.origins[j].slot == slot;
    assert FromEntry(g, d, h, j);
    TwinChain(g, d, f, i, h, j, live);
  }

  /** A directory read beyond the slot of a child has been read up to it. */
  lemma ScannedShorter(g: Geometry, d: Disk, f: Forest, n: nat, seen: nat, k: nat, i: nat)
    requires n < |f.chains| == |f.origins| && Scanned(g, d, f, n, seen) && 0 < i < |f.origins| && f.origins[i].parent == n && f.origins[i].slot == k
    ensures k < seen && (forall s: nat {:trigger SlotOk(g, d, f, n, s)} | s < k + 1 :: SlotOk(g, d, f, n, s))
    ensures HasSlot(g, d, f.chains[n], k) && k / 16 < |Sectors(g, f.chains[n])|
  {
    assert SlotOk(g, d, f, n, k);
  }

  /** Every node of a faithful tree is a node of the complete tree, below the same parent. */
  lemma {:induction false} Embed(g: Geometry, d: Disk, f: Forest, h: Forest, live: map<nat, Bytes>, i: nat) returns (j: nat)
    requires Facing(g, d, f, h, live) && i < |f.nodes|
    ensures Twin(g, f, i, h, j) && (i > 0 ==> Twin(g, f, f.origins[i].parent, h, h.origins[j].parent))
    decreases i
  {
    hide Imported, ForestOk, AllStarted, Twin;
    ParentsBefore(g, d, f);
    if i == 0 {
      RootTwin(g, d, f, h, live);
      j := 0;
    } else {
      var q := Embed(g, d, f, h, live, f.origins[i].parent);
      j := ChildTwin(g, d, f, i, h, q, live);
    }
  }

  lemma SamePath(g: Geometry, d: Disk, f: Forest, i: nat, j: nat)
    requires ForestOk(g, d, f) && i < |f.nodes| && j < |f.nodes| && f.nodes[i].path == f.nodes[j].path
    ensures i == j
  {
  }

  // ---------------------------------------------------------------- no obstacle

  /** What stands behind the end of a part of a complete chain. */
  lemma ChainNext(g: Geometry, d: Disk, a: seq<nat>, b: seq<nat>)
    requires a <= b && a != [] && Links(g, d, b) && Ends(g, d, b)
    ensures HasFatSector(g, d, a[|a| - 1] / 128)
    ensures if |a| < |b| then NextOf(g, d, a[|a| - 1]) == b[|a|] else a == b && NextOf(g, d, a[|a| - 1]) >= END_OF_CHAIN
  {
    hide HasFatSector, NextOf;
    if |a| < |b| { assert Linked(g, d, b[|a| - 1], b[|a|]); } else { assert a == b; }
  }

  /** What `Done` says of the chain of a node that has clusters. */
  lemma ChainDone(g: Geometry, d: Disk, h: Forest, live: map<nat, Bytes>, j: nat)
    requires Imported(g, d, h, live) && j < |h.nodes|
    ensures |h.nodes| == |h.chains| == |h.origins| && ChainOk(g, d, h, j) && StartsRight(h, j) && Done(g, d, h, live, j) && Measured(g, h, j)
  {
  }

  lemma ReadsSector(d: Disk, sectors: seq<nat>, data: Bytes, n: nat, k: nat)
    requires Reads(d, sectors, data, n) && k * SECTOR < n
    ensures k < |sectors| && Readable(d, sectors[k])
  {
    assert ByteOf(d, sectors, k * SECTOR, data[k * SECTOR]);
  }

  lemma NoTorn(g: Geometry, d: Disk, f: Forest, h: Forest, live: map<nat, Bytes>, n: nat, k: nat)
    requires Facing(g, d, f, h, live) && n < |f.nodes|
    ensures !TornAt(g, d, f, n, k)
  {
    hide Imported, ForestOk, AllStarted, ChainOk, Measured, StartsRight, Complete, GeometryOk, ItemAt, Depth, UpOf;
    var j := Embed(g, d, f, h, live, n);
    ChainDone(g, d, h, live, j);
    SectorsLonger(g, f.chains[n], h.chains[j]);
    if !f.nodes[n].dir && k * SECTOR < f.nodes[n].size { ReadsSector(d, Sectors(g, h.chains[j]), live[h.nodes[j].data], f.nodes[n].size, k); }
    if TornAt(g, d, f, n, k) && f.nodes[n].dir { SlotReached(g, d, f, n, h, j, 16 * k); }
  }

  lemma NoUnlisted(g: Geometry, d: Disk, f: Forest, h: Forest, live: map<nat, Bytes>, n: nat)
    requires Facing(g, d, f, h, live) && n < |f.nodes| && f.chains[n] != []
    ensures HasFatSector(g, d, f.chains[n][|f.chains[n]| - 1] / 128)
  {
    hide Imported, ForestOk, AllStarted, Measured, StartsRight, Complete, GeometryOk, Depth, UpOf, Links, HasFatSector, NextOf;
    var j := Embed(g, d, f, h, live, n);
    ChainDone(g, d, h, live, j);
    ChainNext(g, d, f.chains[n], h.chains[j]);
  }

  /** A cluster that a node wants is the next one of its complete chain. */
  lemma NextCluster(g: Geometry, d: Disk, f: Forest, h: Forest, live: map<nat, Bytes>, n: nat, c: nat) returns (j: nat)
    requires Facing(g, d, f, h, live) && n < |f.nodes| && Onto(g, d, f, n, c) && Wants(g, f, n, c)
    ensures Twin(g, f, n, h, j) && |f.chains[n]| < |h.chains[j]| && h.chains[j][|f.chains[n]|] == c
  {
    hide Imported, ForestOk, AllStarted, Measured, Complete, GeometryOk, Depth, UpOf, Links, HasFatSector, NextOf, Sectors, Reads;
    j := Embed(g, d, f, h, live, n);
    ChainDone(g, d, h, live, j);
    var a, b := f.chains[n], h.chains[j];
    if a != [] { ChainNext(g, d, a, b); }
    if !f.nodes[n].dir { ReadsCover(d, Sectors(g, b), live[h.nodes[j].data], h.nodes[j].size); }
  }

  /** Whoever owns a cluster in the part owns it in the whole. */
  lemma SameOwner(g: Geometry, d: Disk, f: Forest, h: Forest, live: map<nat, Bytes>, c: nat) returns (j: nat)
    requires Facing(g, d, f, h, live) && c in f.owner
    ensures f.owner[c] < |f.nodes| && c in f.chains[f.owner[c]] && Twin(g, f, f.owner[c], h, j) && c in h.chains[j] && c in h.owner
  {
    var m := f.owner[c];
    assert m < |f.nodes| && c in f.chains[m];
    hide Imported, ForestOk, AllStarted, Links, Done, Measured;
    j := Embed(g, d, f, h, live, m);
    ChainDone(g, d, h, live, j);
    var k :| 0 <= k < |f.chains[m]| && f.chains[m][k] == c;
    assert h.chains[j][k] == c;
  }

  lemma NoAstray(g: Geometry, d: Disk, f: Forest, h: Forest, live: map<nat, Bytes>, n: nat, c: nat)
    requires Facing(g, d, f, h, live) && n < |f.nodes| && Onto(g, d, f, n, c) && Wants(g, f, n, c)
    ensures ValidCluster(g, c) && c !in f.owner && c in h.owner
  {
    hide ForestOk, AllStarted, Done, Measured, Linked, Wants, Onto, GeometryOk, Imported;
    var j := NextCluster(g, d, f, h, live, n, c);
    ChainDone(g, d, h, live, j);
    assert c in h.chains[j];
    if c in f.owner {
      var jm := SameOwner(g, d, f, h, live, c);
      Whole(g, d, h, live);
      ChainsApart(g, d, h, j, jm, c);
      SamePath(g, d, f, n, f.owner[c]);
    }
  }

  lemma Whole(g: Geometry, d: Disk, h: Forest, live: map<nat, Bytes>)
    requires Imported(g, d, h, live)
    ensures ForestOk(g, d, h)
  {
  }

  lemma Smaller<T>(a: set<T>, b: set<T>)
    requires a <= b
    ensures |a| <= |b|
  {
    assert b == a + (b - a);
  }

  lemma NoCrowded(g: Geometry, d: Disk, f: Forest, h: Forest, live: map<nat, Bytes>, n: nat, c: nat)
    requires Facing(g, d, f, h, live) && n < |f.nodes| && Onto(g, d, f, n, c) && Wants(g, f, n, c)
    ensures |f.owner| < VISIT_LIMIT
  {
    hide ForestOk, AllStarted, AllDone, Linked, Wants, Onto, GeometryOk;
    NoAstray(g, d, f, h, live, n, c);
    forall x | x in f.owner.Keys ensures x in h.owner.Keys { var j := SameOwner(g, d, f, h, live, x); }
    Smaller(f.owner.Keys + {c}, h.owner.Keys);
  }

  lemma NoMalformed(g: Geometry, d: Disk, f: Forest, h: Forest, live: map<nat, Bytes>, n: nat, k: nat, item: Item)
    requires Facing(g, d, f, h, live) && n < |f.nodes| && f.nodes[n].dir && NextSlot(g, d, f, n, k, item)
    ensures !item.Invalid?
  {
    hide Imported, ForestOk, AllStarted, ChainOk, Measured, StartsRight, Complete, GeometryOk, ItemAt, Depth, UpOf;
    var j := Embed(g, d, f, h, live, n);
    ChainDone(g, d, h, live, j);
    if item.Invalid? {
      SlotReached(g, d, f, n, h, j, k);
      TwinSlot(g, d, f, n, h, j, k);
    }
  }

  /** The next entry of a directory has a node of its own in the complete tree. */
  lemma NextChild(g: Geometry, d: Disk, f: Forest, h: Forest, live: map<nat, Bytes>, n: nat, k: nat, item: Item) returns (x: nat)
    requires Facing(g, d, f, h, live) && n < |f.nodes| && f.nodes[n].dir && NextSlot(g, d, f, n, k, item) && item.Entry?
    ensures 0 < x < |h.nodes| && h.nodes[x].path == f.nodes[n].path + [SLASH] + item.name
    ensures forall i | 0 <= i < |f.nodes| :: f.nodes[i].path != h.nodes[x].path
  {
    hide Imported, ForestOk, AllStarted, ChainOk, Measured, StartsRight, Complete, GeometryOk, ItemAt, Depth, UpOf, HasSlot, Sectors;
    var j := Embed(g, d, f, h, live, n);
    ChainDone(g, d, h, live, j);
    SlotInside(g, d, f.chains[n], k);
    SlotReached(g, d, f, n, h, j, k);
    TwinSlot(g, d, f, n, h, j, k);
    x :| 0 < x < |h.origins| && h.origins[x].parent == j && h.origins[x].slot == k;
    Whole(g, d, h, live);
    assert FromEntry(g, d, h, x) by { OriginOf(g, d, h, x); }
    forall i | 0 <= i < |f.nodes| ensures f.nodes[i].path != h.nodes[x].path {
      if f.nodes[i].path == h.nodes[x].path {
        var y := Embed(g, d, f, h, live, i);
        SamePath(g, d, h, x, y);
        SamePath(g, d, f, f.origins[i].parent, n);
      }
    }
  }

  lemma OriginOf(g: Geometry, d: Disk, h: Forest, x: nat)
    requires ForestOk(g, d, h) && 0 < x < |h.nodes|
    ensures FromEntry(g, d, h, x)
  {
  }

  lemma SlotInside(g: Geometry, d: Disk, chain: seq<nat>, k: nat)
    requires HasSlot(g, d, chain, k)
    ensures k / 16 < |Sectors(g, chain)|
  {
  }

  lemma NoUnnamable(g: Geometry, d: Disk, f: Forest, h: Forest, live: map<nat, Bytes>, n: nat, k: nat)
    requires Facing(g, d, f, h, live) && n < |f.nodes| && f.nodes[n].dir
    ensures !EntryBad(g, d, f, n, k)
  {
    hide ForestOk, AllStarted, PathValid, NextSlot;
    ParentsBefore(g, d, f);
    forall item: Item {:trigger NextSlot(g, d, f, n, k, item)} | NextSlot(g, d, f, n, k, item) && item.Entry?
      ensures !PathBad(f.nodes, f.nodes[n].path + [SLASH] + item.name)
    {
      var x := NextChild(g, d, f, h, live, n, k, item);
      ValidPath(g, d, h, x);
    }
  }

  lemma ValidPath(g: Geometry, d: Disk, f: Forest, i: nat)
    requires ForestOk(g, d, f) && 0 < i < |f.nodes|
    ensures PathValid(f.nodes[i].path) && |f.nodes[i].path| < PATH_MAX
  {
  }

  ghost predicate DistinctPaths(nodes: seq<Node>) { forall i, j | 0 <= i < j < |nodes| :: nodes[i].path != nodes[j].path }

  ghost predicate HasTwin(x: Node, nodes: seq<Node>) { exists j | 0 <= j < |nodes| :: nodes[j].path == x.path && nodes[j].size == x.size }

  lemma {:induction false} WithoutOne(nodes: seq<Node>, j: nat)
    requires j < |nodes|
    ensures FileBytes(nodes[..j] + nodes[j + 1..]) == FileBytes(nodes) - nodes[j].size
    decreases |nodes|
  {
    var rest, last := nodes[..j] + nodes[j + 1..], |nodes| - 1;
    if j == last {
      assert rest == nodes[..last];
    } else {
      WithoutOne(nodes[..last], j);
      assert rest[..|rest| - 1] == nodes[..last][..j] + nodes[..last][j + 1..];
    }
  }

  /** Different nodes that all stand in a list are no more, and no larger, than the list. */
  lemma {:induction false} Fewer(a: seq<Node>, b: seq<Node>)
    requires DistinctPaths(a) && forall i | 0 <= i < |a| :: HasTwin(a[i], b)
    ensures |a| <= |b| && FileBytes(a) <= FileBytes(b)
    decreases |a|
  {
    if a != [] {
      var last := |a| - 1;
      assert HasTwin(a[last], b);
      var j :| 0 <= j < |b| && b[j].path == a[last].path && b[j].size == a[last].size;
      var rest := b[..j] + b[j + 1..];
      forall i | 0 <= i < last ensures HasTwin(a[..last][i], rest) {
        assert HasTwin(a[i], b);
        var k :| 0 <= k < |b| && b[k].path == a[i].path && b[k].size == a[i].size;
        assert rest[if k < j then k else k - 1] == b[k];
      }
      WithoutOne(b, j);
      Fewer(a[..last], rest);
    }
  }

  lemma TwinsThere(g: Geometry, d: Disk, f: Forest, h: Forest, live: map<nat, Bytes>)
    requires Facing(g, d, f, h, live)
    ensures DistinctPaths(f.nodes) && forall i | 0 <= i < |f.nodes| :: HasTwin(f.nodes[i], h.nodes)
  {
    forall i | 0 <= i < |f.nodes| ensures HasTwin(f.nodes[i], h.nodes) {
      hide ForestOk, AllStarted, Imported;
      var j := Embed(g, d, f, h, live, i);
    }
  }

  lemma NoFull(g: Geometry, d: Disk, f: Forest, h: Forest, live: map<nat, Bytes>, n: nat, k: nat)
    requires Facing(g, d, f, h, live) && n < |f.nodes| && f.nodes[n].dir && EntryNext(g, d, f, n, k)
    ensures |f.nodes| < NODE_LIMIT
  {
    hide ForestOk, AllStarted, NextSlot, AllDone, FileBytes;
    ParentsBefore(g, d, f);
    var item: Item :| NextSlot(g, d, f, n, k, item) && item.Entry?;
    var x := NextChild(g, d, f, h, live, n, k, item);
    TwinsThere(g, d, f, h, live);
    var a := f.nodes + [h.nodes[x]];
    assert HasTwin(h.nodes[x], h.nodes);
    Fewer(a, h.nodes);
  }

  lemma NoDeep(g: Geometry, d: Disk, f: Forest, h: Forest, live: map<nat, Bytes>, n: nat)
    requires Facing(g, d, f, h, live) && n < |f.nodes| && f.nodes[n].dir
    ensures Depth(f.origins, n) <= DEPTH_MAX
  {
    hide ForestOk, AllStarted, Imported, Depth, Complete;
    var j := Embed(g, d, f, h, live, n);
    ChainDone(g, d, h, live, j);
  }

  lemma NoMismatched(g: Geometry, d: Disk, f: Forest, h: Forest, live: map<nat, Bytes>, n: nat)
    requires Facing(g, d, f, h, live) && n < |f.nodes| && !f.nodes[n].dir
    ensures !LengthBad(g, d, f, n)
  {
    hide ForestOk, AllStarted, Imported, Depth, Complete, Links, Reads, HasFatSector, NextOf, Sectors;
    var j := Embed(g, d, f, h, live, n);
    ChainDone(g, d, h, live, j);
    var a, b := f.chains[n], h.chains[j];
    if a != [] { ChainNext(g, d, a, b); }
    if |a| < |b| {
      assert a <= b[..|b| - 1];
      SectorsLonger(g, a, b[..|b| - 1]);
    }
  }

  lemma NoOversized(g: Geometry, d: Disk, f: Forest, h: Forest, live: map<nat, Bytes>, n: nat)
    requires Facing(g, d, f, h, live) && n < |f.nodes| && !f.nodes[n].dir
    ensures f.nodes[n].size <= FILE_MAX && f.nodes[n].size + FileBytes(f.nodes[..n]) <= CACHE_MAX
  {
    hide ForestOk, AllStarted, AllDone, Depth, Complete, Reads, Sectors;
    var j := Embed(g, d, f, h, live, n);
    ChainDone(g, d, h, live, j);
    TwinsThere(g, d, f, h, live);
    var a := f.nodes[..n + 1];
    assert a[..n] == f.nodes[..n];
    Fewer(a, h.nodes);
  }

  /** A faithful part of a tree with an obstacle in it excludes every complete tree of the volume. */
  lemma NeverImported(g: Geometry, d: Disk, fault: Fault, h: Forest, live: map<nat, Bytes>)
    requires GeometryOk(g, d) && Spoilt(g, d, fault)
    ensures !Imported(g, d, h, live)
  {
    hide ForestOk, AllStarted, Imported, GeometryOk, Onto, Wants, EntryBad, EntryNext, LengthBad, TornAt, FileBytes, Depth, HasFatSector, ValidCluster, NextSlot, Sectors;
    if Imported(g, d, h, live) {
      var f, n := fault.tree, fault.barrier.node;
      match fault.barrier
      case Torn(_, k) => NoTorn(g, d, f, h, live, n, k);
      case Unlisted(_) => NoUnlisted(g, d, f, h, live, n);
      case Astray(_, c) => NoAstray(g, d, f, h, live, n, c);
      case Crowded(_, c) => NoCrowded(g, d, f, h, live, n, c);
      case Malformed(_, k) => NoMalformed(g, d, f, h, live, n, k, Invalid);
      case Unnamable(_, k) => NoUnnamable(g, d, f, h, live, n, k);
      case Full(_, k) => NoFull(g, d, f, h, live, n, k);
      case Deep(_) => NoDeep(g, d, f, h, live, n);
      case Mismatched(_) => NoMismatched(g, d, f, h, live, n);
      case Oversized(_) => NoOversized(g, d, f, h, live, n);
    }
  }

  /** Somewhere in the volume a rule is broken. */
  ghost predicate Faulty(g: Geometry, d: Disk) { exists fault: Fault {:trigger Spoilt(g, d, fault)} :: Spoilt(g, d, fault) }

  /** Some part of the tree is so large that reading it may take more sectors than allowed. */
  ghost predicate Ponderous(g: Geometry, d: Disk) { exists fault: Fault {:trigger Costly(g, d, fault)} :: Costly(g, d, fault) }

  lemma ImportedSound(g: Geometry, d: Disk, h: Forest, live: map<nat, Bytes>)
    requires GeometryOk(g, d) && Imported(g, d, h, live)
    ensures !Faulty(g, d)
  {
    hide GeometryOk, Imported, Spoilt;
    if Faulty(g, d) {
      var fault: Fault :| Spoilt(g, d, fault);
      NeverImported(g, d, fault, h, live);
    }
  }

  // ---------------------------------------------------------------- one tree

  lemma ImportedStarted(g: Geometry, d: Disk, f: Forest, live: map<nat, Bytes>)
    requires Imported(g, d, f, live)
    ensures AllStarted(g, d, f)
  {
    hide ForestOk, Scanned;
    forall i {:trigger Started(g, d, f, i)} | 0 <= i < |f.nodes| && f.nodes[i].dir ensures Started(g, d, f, i) {
      assert Done(g, d, f, live, i);
      var seen: nat, ended: bool :| ReadTo(g, d, f, i, seen, ended);
    }
  }

  lemma SameBytes(d: Disk, sectors: seq<nat>, a: Bytes, b: Bytes)
    requires |a| == |b| && Reads(d, sectors, a, |a|) && Reads(d, sectors, b, |b|)
    ensures a == b
  {
    forall k | 0 <= k < |a| ensures a[k] == b[k] { assert ByteOf(d, sectors, k, a[k]) && ByteOf(d, sectors, k, b[k]); }
  }

  /** Node `i` is node `j`, chain and contents included. */
  ghost predicate Same(f: Forest, live: map<nat, Bytes>, i: nat, h: Forest, live': map<nat, Bytes>, j: nat) {
    && i < |f.nodes| == |f.chains| && j < |h.nodes| == |h.chains|
    && f.nodes[i].path == h.nodes[j].path && f.nodes[i].size == h.nodes[j].size && f.nodes[i].dir == h.nodes[j].dir && f.chains[i] == h.chains[j]
    && (!f.nodes[i].dir && f.nodes[i].size > 0 ==>
          f.nodes[i].data in live && h.nodes[j].data in live' && live[f.nodes[i].data] == live'[h.nodes[j].data])
  }

  /** A volume has one tree: two complete imports agree on every path, size, chain and byte. */
  lemma OneTree(g: Geometry, d: Disk, f: Forest, live: map<nat, Bytes>, h: Forest, live': map<nat, Bytes>, i: nat) returns (j: nat)
    requires GeometryOk(g, d) && Imported(g, d, f, live) && Imported(g, d, h, live') && i < |f.nodes|
    ensures |f.nodes| == |h.nodes| && Same(f, live, i, h, live', j)
  {
    hide ForestOk, AllStarted, Imported, Complete, Depth, UpOf, Links, Reads, HasFatSector, NextOf, GeometryOk, FileBytes, DistinctPaths;
    ImportedStarted(g, d, f, live);
    ImportedStarted(g, d, h, live');
    Whole(g, d, f, live);
    Whole(g, d, h, live');
    TwinsThere(g, d, f, h, live');
    TwinsThere(g, d, h, f, live);
    Fewer(f.nodes, h.nodes);
    Fewer(h.nodes, f.nodes);
    j := Embed(g, d, f, h, live', i);
    ChainDone(g, d, f, live, i);
    ChainDone(g, d, h, live', j);
    TwinChain(g, d, h, j, f, i, live);
    if !f.nodes[i].dir && f.nodes[i].size > 0 { SameBytes(d, Sectors(g, f.chains[i]), live[f.nodes[i].data], live'[h.nodes[j].data]); }
  }
}
