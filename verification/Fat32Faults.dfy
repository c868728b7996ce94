/**
  What can stop an import: a tree that is faithful to the volume so far, and a place in it from which there is no way on.
*/
module Fat32Faults {
  import opened Octets
  import opened Fat32Volume
  import opened Fat32Tree

  const READ_LIMIT: nat := 65536
  const VISIT_LIMIT: nat := 16384
  const CACHE_MAX: nat := 0x40_0000

  /** Where node `node` of the tree meets an obstacle. */
  datatype Barrier =
    | Torn(node: nat, sector: nat)
    | Unlisted(node: nat)
    | Astray(node: nat, cluster: nat)
    | Crowded(node: nat, cluster: nat)
    | Malformed(node: nat, slot: nat)
    | Unnamable(node: nat, slot: nat)
    | Full(node: nat, slot: nat)
    | Deep(node: nat)
    | Mismatched(node: nat)
    | Oversized(node: nat)

  datatype Fault = Unharmed | Exhausted(tree: Forest) | Fault(tree: Forest, barrier: Barrier)

  /** The bytes of the files that have a buffer. */
  ghost function BufferBytes(nodes: seq<Node>): nat {
    if nodes == [] then 0
    else BufferBytes(nodes[..|nodes| - 1]) + if nodes[|nodes| - 1].data == 0 then 0 else nodes[|nodes| - 1].size
  }

  lemma BuffersMore(nodes: seq<Node>, n: Node)
    ensures BufferBytes(nodes + [n]) == BufferBytes(nodes) + if n.data == 0 then 0 else n.size
  {
    assert (nodes + [n])[..|nodes|] == nodes;
  }

  /** The bytes of all files. */
  ghost function FileBytes(nodes: seq<Node>): nat {
    if nodes == [] then 0 else FileBytes(nodes[..|nodes| - 1]) + nodes[|nodes| - 1].size
  }

  lemma {:induction false} BufferedFiles(nodes: seq<Node>)
    ensures BufferBytes(nodes) <= FileBytes(nodes)
  {
    if nodes != [] { BufferedFiles(nodes[..|nodes| - 1]); }
  }

  lemma LastBuffered(nodes: seq<Node>, p: nat)
    requires nodes != [] && nodes[|nodes| - 1].data == 0 && p != 0
    ensures var n := |nodes| - 1;
      && BufferBytes(nodes) == BufferBytes(nodes[..n]) && BufferBytes(nodes[n := nodes[n].(data := p)]) == BufferBytes(nodes) + nodes[n].size
  {
    var n := |nodes| - 1;
    assert nodes[n := nodes[n].(data := p)][..n] == nodes[..n];
  }

  /** The chain of node `n` leads to cluster `c`. */
  ghost predicate Onto(g: Geometry, d: Disk, f: Forest, n: nat, c: nat)
    requires n < |f.chains| == |f.origins|
  {
    if f.chains[n] == [] then c == f.origins[n].child else Linked(g, d, f.chains[n][|f.chains[n]| - 1], c)
  }

  /** Node `n` needs another cluster: a directory whose chain has not ended, or a file whose bytes are not all there. */
  ghost predicate Wants(g: Geometry, f: Forest, n: nat, c: nat)
    requires n < |f.nodes| == |f.chains|
  {
    if f.nodes[n].dir then f.chains[n] == [] || c < END_OF_CHAIN else |Sectors(g, f.chains[n])| * SECTOR < f.nodes[n].size
  }

  /** Sector `k` of node `n` must be read and cannot be: the next one of a directory, or one that holds bytes of a file. */
  ghost predicate TornAt(g: Geometry, d: Disk, f: Forest, n: nat, k: nat)
    requires n < |f.nodes| == |f.chains| == |f.origins|
  {
    && k < |Sectors(g, f.chains[n])| && !Readable(d, Sectors(g, f.chains[n])[k])
    && if f.nodes[n].dir then Scanned(g, d, f, n, 16 * k) else k * SECTOR < f.nodes[n].size
  }

  ghost predicate TornFile(d: Disk, sectors: seq<nat>, size: nat) { exists k | 0 <= k < |sectors| :: k * SECTOR < size && !Readable(d, sectors[k]) }

  /** The next slot of directory `n` to be taken in is `k`, and it reads `item`. */
  ghost predicate NextSlot(g: Geometry, d: Disk, f: Forest, n: nat, k: nat, item: Item)
    requires n < |f.chains| == |f.origins|
  {
    Scanned(g, d, f, n, k) && HasSlot(g, d, f.chains[n], k) && item == ItemAt(g, d, f, n, k)
  }

  ghost predicate EntryNext(g: Geometry, d: Disk, f: Forest, n: nat, k: nat)
    requires n < |f.chains| == |f.origins|
  {
    exists item: Item {:trigger NextSlot(g, d, f, n, k, item)} :: NextSlot(g, d, f, n, k, item) && item.Entry?
  }

  ghost predicate PathBad(nodes: seq<Node>, path: Bytes) {
    |path| >= PATH_MAX || !PathValid(path) || exists i | 0 <= i < |nodes| :: nodes[i].path == path
  }

  ghost predicate EntryBad(g: Geometry, d: Disk, f: Forest, n: nat, k: nat)
    requires n < |f.nodes| == |f.chains| == |f.origins|
  {
    exists item: Item {:trigger NextSlot(g, d, f, n, k, item)} ::
      NextSlot(g, d, f, n, k, item) && item.Entry? && PathBad(f.nodes, f.nodes[n].path + [SLASH] + item.name)
  }

  /** A file without bytes that has a cluster, or one whose chain goes on beyond its bytes. */
  ghost predicate LengthBad(g: Geometry, d: Disk, f: Forest, n: nat)
    requires n < |f.nodes| == |f.chains| == |f.origins|
  {
    var chain, size := f.chains[n], f.nodes[n].size;
    if size == 0 then f.origins[n].child != 0
    else
      && chain != [] && size <= |Sectors(g, chain)| * SECTOR && HasFatSector(g, d, chain[|chain| - 1] / 128)
      && NextOf(g, d, chain[|chain| - 1]) < END_OF_CHAIN
  }

  ghost predicate Barred(g: Geometry, d: Disk, f: Forest, b: Barrier) {
    && b.node < |f.nodes| == |f.chains| == |f.origins|
    && var n := b.node; var chain := f.chains[n];
      match b
      case Torn(_, k) => TornAt(g, d, f, n, k)
      case Unlisted(_) => chain != [] && !HasFatSector(g, d, chain[|chain| - 1] / 128)
      case Astray(_, c) => Onto(g, d, f, n, c) && Wants(g, f, n, c) && (!ValidCluster(g, c) || c in f.owner)
      case Crowded(_, c) => Onto(g, d, f, n, c) && Wants(g, f, n, c) && |f.owner| >= VISIT_LIMIT
      case Malformed(_, k) => f.nodes[n].dir && NextSlot(g, d, f, n, k, Invalid)
      case Unnamable(_, k) => f.nodes[n].dir && EntryBad(g, d, f, n, k)
      case Full(_, k) => f.nodes[n].dir && |f.nodes| == NODE_LIMIT && EntryNext(g, d, f, n, k)
      case Deep(_) => f.nodes[n].dir && Depth(f.origins, n) > DEPTH_MAX
      case Mismatched(_) => !f.nodes[n].dir && LengthBad(g, d, f, n)
      case Oversized(_) => !f.nodes[n].dir && (f.nodes[n].size > FILE_MAX || f.nodes[n].size + FileBytes(f.nodes[..n]) > CACHE_MAX)
  }

  /** The tree is the volume's, as far as it goes, and cannot be completed within the rules. */
  ghost predicate Spoilt(g: Geometry, d: Disk, fault: Fault) {
    fault.Fault? && ForestOk(g, d, fault.tree) && AllStarted(g, d, fault.tree) && Barred(g, d, fault.tree, fault.barrier)
  }

  /** The tree is the volume's, as far as it goes, and so large that reading it may take more sectors than allowed. */
  ghost predicate Costly(g: Geometry, d: Disk, fault: Fault) {
    fault.Exhausted? && ForestOk(g, d, fault.tree) && AllStarted(g, d, fault.tree) && 5 + |fault.tree.owner| * (g.spc + 2) > READ_LIMIT
  }

  lemma SpoiltAstray(g: Geometry, d: Disk, f: Forest, n: nat, c: nat)
    requires ForestOk(g, d, f) && AllStarted(g, d, f) && n < |f.nodes| && Onto(g, d, f, n, c) && Wants(g, f, n, c)
    requires !ValidCluster(g, c) || c in f.owner
    ensures Spoilt(g, d, Fault(f, Astray(n, c)))
  {
    hide ForestOk;
  }

  lemma SpoiltCrowded(g: Geometry, d: Disk, f: Forest, n: nat, c: nat)
    requires ForestOk(g, d, f) && AllStarted(g, d, f) && n < |f.nodes| && Onto(g, d, f, n, c) && Wants(g, f, n, c)
    requires |f.owner| >= VISIT_LIMIT
    ensures Spoilt(g, d, Fault(f, Crowded(n, c)))
  {
    hide ForestOk;
  }

  lemma SpoiltTorn(g: Geometry, d: Disk, f: Forest, n: nat, k: nat)
    requires ForestOk(g, d, f) && AllStarted(g, d, f) && n < |f.nodes| && TornAt(g, d, f, n, k)
    ensures Spoilt(g, d, Fault(f, Torn(n, k)))
  {
    hide ForestOk;
  }

  lemma SpoiltUnlisted(g: Geometry, d: Disk, f: Forest, n: nat)
    requires ForestOk(g, d, f) && AllStarted(g, d, f) && n < |f.nodes|
    requires f.chains[n] != [] && !HasFatSector(g, d, f.chains[n][|f.chains[n]| - 1] / 128)
    ensures Spoilt(g, d, Fault(f, Unlisted(n)))
  {
    hide ForestOk;
  }

  lemma SpoiltEntry(g: Geometry, d: Disk, f: Forest, n: nat, k: nat, item: Item)
    requires ForestOk(g, d, f) && AllStarted(g, d, f) && n < |f.nodes| && f.nodes[n].dir && NextSlot(g, d, f, n, k, item)
    ensures item.Invalid? ==> Spoilt(g, d, Fault(f, Malformed(n, k)))
    ensures item.Entry? && |f.nodes| == NODE_LIMIT ==> Spoilt(g, d, Fault(f, Full(n, k)))
    ensures item.Entry? && PathBad(f.nodes, f.nodes[n].path + [SLASH] + item.name) ==> Spoilt(g, d, Fault(f, Unnamable(n, k)))
  {
    hide ForestOk;
  }

  /** A file refused for its size, counting what is already held. */
  lemma SpoiltOversized(g: Geometry, d: Disk, f: Forest, n: nat)
    requires ForestOk(g, d, f) && AllStarted(g, d, f) && n == |f.nodes| - 1 && !f.nodes[n].dir && f.nodes[n].data == 0
    requires f.nodes[n].size > FILE_MAX || f.nodes[n].size > CACHE_MAX - BufferBytes(f.nodes)
    ensures Spoilt(g, d, Fault(f, Oversized(n)))
  {
    hide ForestOk;
    LastBuffered(f.nodes, 1);
    BufferedFiles(f.nodes[..n]);
  }

  lemma SpoiltMismatched(g: Geometry, d: Disk, f: Forest, n: nat)
    requires ForestOk(g, d, f) && AllStarted(g, d, f) && n < |f.nodes| && !f.nodes[n].dir && LengthBad(g, d, f, n)
    ensures Spoilt(g, d, Fault(f, Mismatched(n)))
  {
    hide ForestOk;
  }

  lemma SpoiltDeep(g: Geometry, d: Disk, f: Forest, n: nat)
    requires ForestOk(g, d, f) && AllStarted(g, d, f) && n < |f.nodes| && f.nodes[n].dir && Depth(f.origins, n) > DEPTH_MAX
    ensures Spoilt(g, d, Fault(f, Deep(n)))
  {
    hide ForestOk;
  }

  // ---------------------------------------------------------------- complete trees

  /** What a successful import gives: a complete tree within all limits. */
  ghost predicate Imported(g: Geometry, d: Disk, f: Forest, live: map<nat, Bytes>) {
    && ForestOk(g, d, f) && AllDone(g, d, f, live, 0)
    && |f.nodes| <= NODE_LIMIT && |f.owner| <= VISIT_LIMIT && FileBytes(f.nodes) <= CACHE_MAX
  }

  /** Directories have no size, and a file with bytes has a buffer. */
  lemma {:induction false} AllBuffered(nodes: seq<Node>)
    requires forall i | 0 <= i < |nodes| && nodes[i].data == 0 :: nodes[i].size == 0
    ensures BufferBytes(nodes) == FileBytes(nodes)
  {
    if nodes != [] { AllBuffered(nodes[..|nodes| - 1]); }
  }

  lemma DirectorySize(g: Geometry, d: Disk, f: Forest, i: nat)
    requires ForestOk(g, d, f) && i < |f.nodes| && f.nodes[i].dir
    ensures f.nodes[i].size == 0
  {
    if i > 0 { assert FromEntry(g, d, f, i); }
  }
}
