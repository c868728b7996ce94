/**
  The tree a FAT32 import builds (kernel/fs/fat32.c): nodes, the cluster chain of each, who owns which cluster, and the
  directory entry each node comes from.
*/
module Fat32Tree {
  import opened Octets
  import opened Fat32Volume

  const NODE_LIMIT: nat := 128
  const PATH_MAX: nat := 128
  const DEPTH_MAX: nat := 8
  const FILE_MAX: nat := 0x10_0000
  const SPACE: Octet := 32
  const SLASH: Octet := 47
  const PERIOD: Octet := 46
  /** "/disk" */
  const ROOT_PATH: Bytes := [47, 100, 105, 115, 107]

  // ---------------------------------------------------------------- names

  predicate NameChar(c: Octet) {
    33 <= c <= 126 && c !in [34, 42, 43, 44, 46, 47, 58, 59, 60, 61, 62, 63, 91, 92, 93, 124]
  }

  function Upper(c: Octet): Octet { if 97 <= c <= 122 then c - 32 else c }

  /** How many characters stand before the padding. */
  function Stem(p: Bytes): (k: nat)
    ensures k <= |p| && (k < |p| ==> p[k] == SPACE)
  {
    if p == [] || p[0] == SPACE then 0 else 1 + Stem(p[1..])
  }

  /** Permitted characters followed by nothing but spaces. */
  predicate PartOk(p: Bytes) {
    (forall i | 0 <= i < Stem(p) :: NameChar(p[i])) && (forall i | Stem(p) <= i < |p| :: p[i] == SPACE)
  }

  function Uppered(p: Bytes): Bytes { seq(|p|, i requires 0 <= i < |p| => Upper(p[i])) }

  /** The 8.3 name in upper case, with a dot only before a nonempty extension. */
  function ShortName(raw: Bytes): Option<Bytes>
    requires |raw| == 11
  {
    var base, ext := raw[..8], raw[8..];
    if !PartOk(base) || !PartOk(ext) || Stem(base) == 0 then None
    else Some(Uppered(base[..Stem(base)]) + if Stem(ext) == 0 then [] else [PERIOD] + Uppered(ext[..Stem(ext)]))
  }

  predicate ComponentOk(p: Bytes) {
    && p != [] && p != [PERIOD] && p != [PERIOD, PERIOD]
    && forall i | 0 <= i < |p| :: 32 <= p[i] <= 126 && p[i] != 92
  }

  function Component(path: Bytes, from: nat): (e: nat)
    requires from <= |path|
    ensures from <= e <= |path|
    decreases |path| - from
  {
    if from == |path| || path[from] == SLASH then from else Component(path, from + 1)
  }

  predicate ComponentsOk(path: Bytes, from: nat)
    requires from <= |path|
    decreases |path| - from
  {
    var e := Component(path, from);
    ComponentOk(path[from..e]) && (e == |path| || ComponentsOk(path, e + 1))
  }

  /** Canonical absolute paths: no empty, "." or ".." components. */
  predicate PathValid(path: Bytes) {
    |path| < PATH_MAX && path != [] && path[0] == SLASH && (|path| == 1 || ComponentsOk(path, 1))
  }

  // ---------------------------------------------------------------- directory entries

  datatype Item = EndMark | Skip | Invalid | Entry(name: Bytes, child: nat, size: nat, dir: bool)

  function Padded(dots: nat): Bytes
    requires dots <= 11
  {
    seq(11, i => if i < dots then PERIOD else SPACE)
  }

  /** One 32-byte entry of the directory whose first cluster is `first` and whose parent is at `parent`. */
  function Parse(e: Bytes, first: nat, parent: nat): Item
    requires |e| == 32
  {
    var bits := e[11] as int;
    if e[0] == 0 then EndMark
    else if e[0] == 0xE5 || bits == 0x0F then Skip
    else if bits >= 64 then Invalid
    else if bits / 8 % 2 == 1 then if bits / 16 % 2 == 1 then Invalid else Skip
    else
      var child, size, dir := Little16(e, 26) + 65536 * Little16(e, 20), Little32(e, 28), bits / 16 % 2 == 1;
      if e[0] == PERIOD then
        var dot, dotdot := e[..11] == Padded(1), e[..11] == Padded(2);
        if (!dot && !dotdot) || !dir || size != 0 || child != (if dot then first else parent) then Invalid else Skip
      else
        var name := ShortName(e[..11]);
        if name.None? || (dir && size != 0) then Invalid else Entry(name.value, child, size, dir)
  }

  // ---------------------------------------------------------------- the tree

  datatype Node = Node(path: Bytes, data: nat, size: nat, dir: bool)

  /** Where a node is described: the number of a 32-byte slot in its parent's data, and the first cluster named there. */
  datatype Origin = Origin(parent: nat, slot: nat, child: nat)

  datatype Forest = Forest(nodes: seq<Node>, chains: seq<seq<nat>>, origins: seq<Origin>, owner: map<nat, nat>)

  ghost predicate Distinct(chain: seq<nat>) { forall i, j | 0 <= i < j < |chain| :: chain[i] != chain[j] }

  /** The chain of node `i` follows the table, visits no cluster twice, and belongs to node `i` alone. */
  ghost predicate ChainOk(g: Geometry, d: Disk, f: Forest, i: nat)
    requires i < |f.chains|
  {
    && Links(g, d, f.chains[i]) && Distinct(f.chains[i])
    && forall c | c in f.chains[i] :: c in f.owner && f.owner[c] == i
  }

  // ---------------------------------------------------------------- slots

  ghost predicate HasSlot(g: Geometry, d: Disk, chain: seq<nat>, k: nat) {
    k / 16 < |Sectors(g, chain)| && Readable(d, Sectors(g, chain)[k / 16])
  }

  /** The 32 bytes of slot `k`. */
  ghost function SlotBytes(g: Geometry, d: Disk, chain: seq<nat>, k: nat): (e: Bytes)
    requires HasSlot(g, d, chain, k)
    ensures |e| == 32
  {
    d.data[Sectors(g, chain)[k / 16]][k % 16 * 32..k % 16 * 32 + 32]
  }

  /** What the ".." entry of directory `n` must name: the parent's first cluster, or 0 for the root. */
  ghost function UpOf(g: Geometry, origins: seq<Origin>, n: nat): nat {
    if n == 0 || n >= |origins| || origins[n].parent >= |origins| then 0
    else Upward(g, origins[origins[n].parent].child)
  }

  function Upward(g: Geometry, first: nat): nat { if first == g.root then 0 else first }

  /** Slot `k` of directory `n`. */
  ghost function ItemAt(g: Geometry, d: Disk, f: Forest, n: nat, k: nat): Item
    requires n < |f.chains| == |f.origins| && HasSlot(g, d, f.chains[n], k)
  {
    Parse(SlotBytes(g, d, f.chains[n], k), f.origins[n].child, UpOf(g, f.origins, n))
  }

  /** Node `i` is an entry of an earlier directory: name, kind and size are the ones on the disk, and so is its first cluster. */
  ghost predicate FromEntry(g: Geometry, d: Disk, f: Forest, i: nat)
    requires i < |f.nodes| && |f.chains| == |f.nodes| == |f.origins|
  {
    var n, o := f.nodes[i], f.origins[i];
    && o.parent < i && f.nodes[o.parent].dir && HasSlot(g, d, f.chains[o.parent], o.slot)
    && Described(n, o, f.nodes[o.parent].path, ItemAt(g, d, f, o.parent, o.slot))
  }

  predicate Described(n: Node, o: Origin, path: Bytes, e: Item) {
    e.Entry? && n.path == path + [SLASH] + e.name && n.size == e.size && n.dir == e.dir && o.child == e.child
  }

  /** The root is the root of the volume. */
  ghost predicate RootOk(g: Geometry, f: Forest)
    requires 0 < |f.nodes| == |f.origins|
  {
    f.nodes[0] == Node(ROOT_PATH, 0, 0, true) && f.origins[0].child == g.root
  }

  /** A chain starts where the entry says. */
  ghost predicate StartsRight(f: Forest, i: nat)
    requires i < |f.chains| == |f.origins|
  {
    f.chains[i] != [] ==> f.chains[i][0] == f.origins[i].child
  }

  /** A file has taken no cluster that its size does not call for. */
  ghost predicate Measured(g: Geometry, f: Forest, i: nat)
    requires i < |f.nodes| == |f.chains|
  {
    var chain := f.chains[i];
    f.nodes[i].dir || chain == [] || |Sectors(g, chain[..|chain| - 1])| * SECTOR < f.nodes[i].size
  }

  /** Every owned cluster is in its owner's chain. */
  ghost predicate OwnersOk(f: Forest) { forall c {:trigger f.owner[c]} | c in f.owner :: f.owner[c] < |f.chains| && c in f.chains[f.owner[c]] }

  ghost predicate PathsOk(nodes: seq<Node>) { forall i | 0 < i < |nodes| :: PathValid(nodes[i].path) }

  ghost predicate ForestOk(g: Geometry, d: Disk, f: Forest) {
    && 0 < |f.nodes| == |f.chains| == |f.origins| && RootOk(g, f)
    && (forall i {:trigger ChainOk(g, d, f, i)} | 0 <= i < |f.nodes| :: ChainOk(g, d, f, i))
    && (forall i {:trigger StartsRight(f, i)} | 0 <= i < |f.nodes| :: StartsRight(f, i))
    && (forall i {:trigger FromEntry(g, d, f, i)} | 0 < i < |f.nodes| :: FromEntry(g, d, f, i))
    && (forall i, j | 0 <= i < j < |f.nodes| :: f.nodes[i].path != f.nodes[j].path)
    && (forall c | c in f.owner :: ValidCluster(g, c))
    && (forall i {:trigger Measured(g, f, i)} | 0 <= i < |f.nodes| :: Measured(g, f, i))
    && OwnersOk(f) && PathsOk(f.nodes)
  }

  /** How many directories stand above node `n`. */
  ghost function Depth(origins: seq<Origin>, n: nat): nat {
    if n == 0 || n >= |origins| || origins[n].parent >= n then 0 else Depth(origins, origins[n].parent) + 1
  }

  lemma {:induction false} DepthKept(a: seq<Origin>, b: seq<Origin>, n: nat)
    requires n < |a| && n < |b| && a[..n] == b[..n] && a[n] == b[n]
    ensures Depth(a, n) == Depth(b, n)
  {
    if n != 0 && a[n].parent < n {
      var p := a[n].parent;
      assert a[..n][..p] == a[..p] && b[..n][..p] == b[..p] && a[..n][p] == a[p] && b[..n][p] == b[p];
      DepthKept(a, b, p);
    }
  }

  // ---------------------------------------------------------------- directories

  /** Slot `k` of directory `n` was taken in: a file or directory named there is in the tree. */
  ghost predicate SlotOk(g: Geometry, d: Disk, f: Forest, n: nat, k: nat)
    requires n < |f.chains| == |f.origins|
  {
    && HasSlot(g, d, f.chains[n], k) && !ItemAt(g, d, f, n, k).EndMark? && !ItemAt(g, d, f, n, k).Invalid?
    && (ItemAt(g, d, f, n, k).Entry? ==> InTree(f.origins, n, k))
  }

  ghost predicate InTree(origins: seq<Origin>, n: nat, k: nat) {
    exists i | 0 < i < |origins| :: origins[i].parent == n && origins[i].slot == k
  }

  ghost predicate Below(origins: seq<Origin>, n: nat, seen: nat) {
    forall i | 0 < i < |origins| && origins[i].parent == n :: origins[i].slot < seen
  }

  /** The first `seen` slots of directory `n` are exactly what the tree has of it. */
  ghost predicate Scanned(g: Geometry, d: Disk, f: Forest, n: nat, seen: nat)
    requires n < |f.chains| == |f.origins|
  {
    && (forall k: nat {:trigger SlotOk(g, d, f, n, k)} | k < seen :: SlotOk(g, d, f, n, k)) && Below(f.origins, n, seen)
  }

  ghost predicate MarksEnd(g: Geometry, d: Disk, f: Forest, n: nat, k: nat)
    requires n < |f.chains| == |f.origins|
  {
    HasSlot(g, d, f.chains[n], k) && ItemAt(g, d, f, n, k).EndMark?
  }

  /** How far a directory has been read: to its end mark, or to the end of its clusters. */
  ghost predicate ReadTo(g: Geometry, d: Disk, f: Forest, n: nat, seen: nat, ended: bool)
    requires n < |f.chains| == |f.origins|
  {
    Scanned(g, d, f, n, seen) && if ended then MarksEnd(g, d, f, n, seen) else seen == 16 * |Sectors(g, f.chains[n])|
  }

  /** The children of a directory are exactly the entries before its end mark, or all of them if it has none. */
  ghost predicate Complete(g: Geometry, d: Disk, f: Forest, n: nat)
    requires n < |f.chains| == |f.origins|
  {
    exists seen: nat, ended: bool {:trigger ReadTo(g, d, f, n, seen, ended)} :: ReadTo(g, d, f, n, seen, ended)
  }

  /**
    Node `i` is complete, and within the rules: the chain ends where the table says, a file's bytes are those of its sectors,
    and the chain has no cluster more than they need; a file without bytes has no cluster.
  */
  ghost predicate Done(g: Geometry, d: Disk, f: Forest, live: map<nat, Bytes>, i: nat)
    requires i < |f.nodes| == |f.chains| == |f.origins|
  {
    var n, chain := f.nodes[i], f.chains[i];
    if n.dir then Ends(g, d, chain) && Complete(g, d, f, i) && Depth(f.origins, i) <= DEPTH_MAX
    else if n.size == 0 then chain == [] && n.data == 0 && f.origins[i].child == 0
    else Ends(g, d, chain) && n.size <= FILE_MAX && n.data in live && |live[n.data]| == n.size && Reads(d, Sectors(g, chain), live[n.data], n.size)
  }

  ghost predicate AllDone(g: Geometry, d: Disk, f: Forest, live: map<nat, Bytes>, from: nat) {
    |f.nodes| == |f.chains| == |f.origins| && forall i {:trigger Done(g, d, f, live, i)} | from <= i < |f.nodes| :: Done(g, d, f, live, i)
  }

  /** What a directory's books say depends on its chain and on the origins alone. */
  lemma ScannedKept(g: Geometry, d: Disk, f: Forest, f': Forest, n: nat, seen: nat)
    requires n < |f.chains| == |f.origins| <= |f'.origins| == |f'.chains| && f'.origins[..|f.origins|] == f.origins && f'.chains[n] == f.chains[n]
    requires Scanned(g, d, f, n, seen) && (n > 0 ==> f.origins[n].parent < |f.origins|)
    requires forall i | |f.origins| <= i < |f'.origins| :: f'.origins[i].parent != n
    ensures Scanned(g, d, f', n, seen) && forall k | HasSlot(g, d, f.chains[n], k) :: ItemAt(g, d, f', n, k) == ItemAt(g, d, f, n, k)
  {
    hide Parse, Sectors;
    var m := |f.origins|;
    assert forall i | 0 <= i < m :: f'.origins[..m][i] == f'.origins[i];
    forall k: nat {:trigger SlotOk(g, d, f', n, k)} | k < seen ensures SlotOk(g, d, f', n, k) {
      assert SlotOk(g, d, f, n, k);
    }
  }

  lemma CompleteKept(g: Geometry, d: Disk, f: Forest, f': Forest, n: nat)
    requires n < |f.chains| == |f.origins| <= |f'.origins| == |f'.chains| && f'.origins[..|f.origins|] == f.origins && f'.chains[n] == f.chains[n]
    requires Complete(g, d, f, n) && (n > 0 ==> f.origins[n].parent < |f.origins|)
    requires forall i | |f.origins| <= i < |f'.origins| :: f'.origins[i].parent != n
    ensures Complete(g, d, f', n)
  {
    hide Scanned, ItemAt;
    var seen: nat, ended: bool :| ReadTo(g, d, f, n, seen, ended);
    ScannedKept(g, d, f, f', n, seen);
    assert ReadTo(g, d, f', n, seen, ended);
  }

  /** Two nodes share no cluster. */
  lemma ChainsApart(g: Geometry, d: Disk, f: Forest, i: nat, j: nat, c: nat)
    requires ForestOk(g, d, f) && i < |f.nodes| && j < |f.nodes| && c in f.chains[i] && c in f.chains[j]
    ensures i == j
  {
    assert ChainOk(g, d, f, i) && ChainOk(g, d, f, j);
  }

  /** A slot has at most one node. */
  lemma OneChildPerSlot(g: Geometry, d: Disk, f: Forest, i: nat, j: nat)
    requires ForestOk(g, d, f) && 0 < i < |f.nodes| && 0 < j < |f.nodes|
    requires f.origins[i].parent == f.origins[j].parent && f.origins[i].slot == f.origins[j].slot
    ensures i == j
  {
    assert FromEntry(g, d, f, i) && FromEntry(g, d, f, j);
    assert f.nodes[i].path == f.nodes[j].path;
  }

  // ---------------------------------------------------------------- claiming and adding

  ghost function Claimed(f: Forest, i: nat, c: nat): Forest
    requires i < |f.chains|
  {
    f.(chains := f.chains[i := f.chains[i] + [c]], owner := f.owner[c := i])
  }

  lemma SlotKept(g: Geometry, d: Disk, chain: seq<nat>, c: nat, k: nat)
    requires HasSlot(g, d, chain, k)
    ensures HasSlot(g, d, chain + [c], k) && SlotBytes(g, d, chain + [c], k) == SlotBytes(g, d, chain, k)
  {
    SectorsPrefix(g, chain, c, k / 16);
  }

  lemma ClaimKeeps(g: Geometry, d: Disk, f: Forest, i: nat, c: nat)
    requires ForestOk(g, d, f) && i < |f.nodes| && ValidCluster(g, c) && c !in f.owner
    requires f.chains[i] != [] ==> Linked(g, d, f.chains[i][|f.chains[i]| - 1], c)
    requires f.chains[i] == [] ==> c == f.origins[i].child
    requires f.nodes[i].dir || |Sectors(g, f.chains[i])| * SECTOR < f.nodes[i].size
    ensures ForestOk(g, d, Claimed(f, i, c))
  {
    hide FromEntry, Linked, PathValid, Sectors;
    var f' := Claimed(f, i, c);
    forall j {:trigger ChainOk(g, d, f', j)} | 0 <= j < |f.nodes| ensures ChainOk(g, d, f', j) {
      assert ChainOk(g, d, f, j);
      if j == i { LinksMore(g, d, f.chains[i], c); }
    }
    forall j {:trigger StartsRight(f', j)} | 0 <= j < |f.nodes| ensures StartsRight(f', j) { assert StartsRight(f, j); }
    forall j {:trigger Measured(g, f', j)} | 0 <= j < |f.nodes| ensures Measured(g, f', j) {
      assert Measured(g, f, j);
      if j == i { assert (f.chains[i] + [c])[..|f.chains[i]|] == f.chains[i]; }
    }
    OwnerMore(f, i, c);
    forall j {:trigger FromEntry(g, d, f', j)} | 0 < j < |f.nodes| ensures FromEntry(g, d, f', j) {
      assert FromEntry(g, d, f, j);
      ClaimFromEntry(g, d, f, i, c, j);
    }
  }

  lemma OwnerMore(f: Forest, i: nat, c: nat)
    requires OwnersOk(f) && i < |f.chains| && c !in f.owner
    ensures OwnersOk(Claimed(f, i, c))
  {
    var f' := Claimed(f, i, c);
    assert c in f'.chains[i] by { assert f'.chains[i][|f.chains[i]|] == c; }
    forall x {:trigger f'.owner[x]} | x in f'.owner ensures f'.owner[x] < |f'.chains| && x in f'.chains[f'.owner[x]] {
      if x != c {
        var o := f.owner[x];
        var k :| 0 <= k < |f.chains[o]| && f.chains[o][k] == x;
        assert f'.chains[o][k] == x;
      }
    }
  }

  lemma ClaimFromEntry(g: Geometry, d: Disk, f: Forest, i: nat, c: nat, j: nat)
    requires 0 < j < |f.nodes| == |f.chains| == |f.origins| && i < |f.nodes| && FromEntry(g, d, f, j)
    ensures FromEntry(g, d, Claimed(f, i, c), j)
  {
    hide Described, Parse;
    var o := f.origins[j];
    if o.parent == i { SlotKept(g, d, f.chains[i], c, o.slot); }
  }

  /** A directory that takes in another cluster has been read as far as before. */
  lemma ClaimScanned(g: Geometry, d: Disk, f: Forest, n: nat, c: nat, seen: nat)
    requires n < |f.chains| == |f.origins| && Scanned(g, d, f, n, seen)
    ensures Scanned(g, d, Claimed(f, n, c), n, seen) && (MarksEnd(g, d, f, n, seen) ==> MarksEnd(g, d, Claimed(f, n, c), n, seen))
  {
    hide Parse;
    var f' := Claimed(f, n, c);
    if MarksEnd(g, d, f, n, seen) { SlotKept(g, d, f.chains[n], c, seen); }
    forall k: nat {:trigger SlotOk(g, d, f', n, k)} | k < seen ensures SlotOk(g, d, f', n, k) {
      assert SlotOk(g, d, f, n, k);
      SlotKept(g, d, f.chains[n], c, k);
    }
  }

  ghost function Grown(f: Forest, n: Node, o: Origin): Forest {
    f.(nodes := f.nodes + [n], chains := f.chains + [[]], origins := f.origins + [o])
  }

  /** A node that slot `o.slot` of its parent describes. */
  ghost predicate Placed(g: Geometry, d: Disk, f: Forest, n: Node, o: Origin) {
    && |f.nodes| == |f.chains| == |f.origins| && o.parent < |f.nodes| && f.nodes[o.parent].dir
    && HasSlot(g, d, f.chains[o.parent], o.slot) && Described(n, o, f.nodes[o.parent].path, ItemAt(g, d, f, o.parent, o.slot))
  }

  lemma AddFromEntry(g: Geometry, d: Disk, f: Forest, n: Node, o: Origin, j: nat)
    requires ForestOk(g, d, f) && Placed(g, d, f, n, o) && 0 < j <= |f.nodes|
    ensures FromEntry(g, d, Grown(f, n, o), j)
  {
    hide Described, Parse, ChainOk, HasSlot, SlotBytes;
    var f', p := Grown(f, n, o), if j < |f.nodes| then f.origins[j].parent else o.parent;
    if j < |f.nodes| { assert FromEntry(g, d, f, j); }
    if p > 0 { assert FromEntry(g, d, f, p); }
    assert UpOf(g, f'.origins, p) == UpOf(g, f.origins, p);
  }

  lemma AddKeeps(g: Geometry, d: Disk, f: Forest, n: Node, o: Origin)
    requires ForestOk(g, d, f) && Placed(g, d, f, n, o)
    requires PathValid(n.path) && forall i | 0 <= i < |f.nodes| :: f.nodes[i].path != n.path
    ensures ForestOk(g, d, Grown(f, n, o))
  {
    hide Placed, PathValid;
    var f' := Grown(f, n, o);
    forall j {:trigger FromEntry(g, d, f', j)} | 0 < j < |f'.nodes| ensures FromEntry(g, d, f', j) {
      AddFromEntry(g, d, f, n, o, j);
    }
    hide FromEntry;
    forall j {:trigger ChainOk(g, d, f', j)} | 0 <= j < |f'.nodes| ensures ChainOk(g, d, f', j) {
      if j < |f.nodes| { assert ChainOk(g, d, f, j); }
    }
    forall j {:trigger StartsRight(f', j)} | 0 <= j < |f'.nodes| ensures StartsRight(f', j) {
      if j < |f.nodes| { assert StartsRight(f, j); }
    }
    forall j {:trigger Measured(g, f', j)} | 0 <= j < |f'.nodes| ensures Measured(g, f', j) {
      if j < |f.nodes| { assert Measured(g, f, j); }
    }
    assert forall c | c in f.owner :: f.owner[c] < |f.chains| && f'.chains[f.owner[c]] == f.chains[f.owner[c]];
    hide ChainOk, StartsRight, Measured;
  }

  /** Giving a file its buffer changes neither its chain nor its origin. */
  ghost function Buffered(f: Forest, i: nat, data: nat): Forest
    requires i < |f.nodes|
  {
    f.(nodes := f.nodes[i := f.nodes[i].(data := data)])
  }

  lemma BufferKeeps(g: Geometry, d: Disk, f: Forest, i: nat, data: nat)
    requires ForestOk(g, d, f) && 0 < i < |f.nodes|
    ensures ForestOk(g, d, Buffered(f, i, data))
  {
    hide Parse, HasSlot, SlotBytes, PathValid, Sectors;
    var f' := Buffered(f, i, data);
    forall j {:trigger Measured(g, f', j)} | 0 <= j < |f'.nodes| ensures Measured(g, f', j) { assert Measured(g, f, j); }
    forall j {:trigger ChainOk(g, d, f', j)} | 0 <= j < |f'.nodes| ensures ChainOk(g, d, f', j) { assert ChainOk(g, d, f, j); }
    forall j {:trigger StartsRight(f', j)} | 0 <= j < |f'.nodes| ensures StartsRight(f', j) { assert StartsRight(f, j); }
    forall j {:trigger FromEntry(g, d, f', j)} | 0 < j < |f'.nodes| ensures FromEntry(g, d, f', j) { assert FromEntry(g, d, f, j); }
  }

  // ---------------------------------------------------------------- half-built trees

  /** Directory `i` has been read to some slot: what the tree has of it are exactly the entries before. */
  ghost predicate Started(g: Geometry, d: Disk, f: Forest, i: nat)
    requires i < |f.chains| == |f.origins|
  {
    exists seen: nat {:trigger Scanned(g, d, f, i, seen)} :: Scanned(g, d, f, i, seen)
  }

  ghost predicate AllStarted(g: Geometry, d: Disk, f: Forest) {
    && |f.nodes| == |f.chains| == |f.origins|
    && forall i {:trigger Started(g, d, f, i)} | 0 <= i < |f.nodes| && f.nodes[i].dir :: Started(g, d, f, i)
  }

  lemma ParentsBefore(g: Geometry, d: Disk, f: Forest)
    requires ForestOk(g, d, f)
    ensures |f.nodes| == |f.chains| == |f.origins| && forall i | 0 < i < |f.origins| :: f.origins[i].parent < i
  {
    forall i | 0 < i < |f.origins| ensures f.origins[i].parent < i { assert FromEntry(g, d, f, i); }
  }

  lemma ClaimStarted(g: Geometry, d: Disk, f: Forest, n: nat, c: nat)
    requires ForestOk(g, d, f) && AllStarted(g, d, f) && n < |f.nodes|
    ensures AllStarted(g, d, Claimed(f, n, c))
  {
    hide ForestOk, Scanned;
    ParentsBefore(g, d, f);
    var f' := Claimed(f, n, c);
    assert f'.origins[..|f.origins|] == f.origins;
    forall i {:trigger Started(g, d, f', i)} | 0 <= i < |f'.nodes| && f'.nodes[i].dir ensures Started(g, d, f', i) {
      assert Started(g, d, f, i);
      var seen: nat :| Scanned(g, d, f, i, seen);
      if i == n { ClaimScanned(g, d, f, n, c, seen); } else { ScannedKept(g, d, f, f', i, seen); }
    }
  }

  /** One entry more: the slot it stands in is the child's origin. */
  lemma ScanEntry(g: Geometry, d: Disk, f0: Forest, f2: Forest, n: nat, m: nat, seen: nat)
    requires n < m == |f0.chains| == |f0.origins| < |f2.origins| == |f2.chains| && f2.origins[..m] == f0.origins && f2.chains[n] == f0.chains[n]
    requires Scanned(g, d, f0, n, seen) && HasSlot(g, d, f0.chains[n], seen) && ItemAt(g, d, f0, n, seen).Entry? && (n > 0 ==> f0.origins[n].parent < n)
    requires f2.origins[m].parent == n && f2.origins[m].slot == seen && forall j | m < j < |f2.origins| :: f2.origins[j].parent >= m
    ensures Scanned(g, d, f2, n, seen + 1)
  {
    hide Parse, Sectors;
    assert forall i | 0 <= i < m :: f2.origins[..m][i] == f2.origins[i];
    assert InTree(f2.origins, n, seen);
    forall k: nat {:trigger SlotOk(g, d, f2, n, k)} | k < seen + 1 ensures SlotOk(g, d, f2, n, k) {
      if k < seen { assert SlotOk(g, d, f0, n, k); }
    }
  }

  lemma AddStarted(g: Geometry, d: Disk, f: Forest, n: Node, o: Origin)
    requires ForestOk(g, d, f) && AllStarted(g, d, f) && Placed(g, d, f, n, o) && Scanned(g, d, f, o.parent, o.slot)
    ensures AllStarted(g, d, Grown(f, n, o))
  {
    hide ForestOk, Scanned, HasSlot, ItemAt;
    ParentsBefore(g, d, f);
    var f', m := Grown(f, n, o), |f.nodes|;
    assert f'.origins[..m] == f.origins;
    forall i {:trigger Started(g, d, f', i)} | 0 <= i < |f'.nodes| && f'.nodes[i].dir ensures Started(g, d, f', i) {
      if i == m {
        NoChildren(g, d, f', m);
      } else if i == o.parent {
        ScanEntry(g, d, f, f', i, m, o.slot);
      } else {
        assert Started(g, d, f, i);
        var seen: nat :| Scanned(g, d, f, i, seen);
        ScannedKept(g, d, f, f', i, seen);
      }
    }
  }

  lemma NoChildren(g: Geometry, d: Disk, f: Forest, n: nat)
    requires n < |f.chains| == |f.origins| && forall i | 0 < i < |f.origins| :: f.origins[i].parent != n
    ensures Scanned(g, d, f, n, 0)
  {
  }

  lemma BufferStarted(g: Geometry, d: Disk, f: Forest, i: nat, data: nat)
    requires ForestOk(g, d, f) && AllStarted(g, d, f) && i < |f.nodes|
    ensures AllStarted(g, d, Buffered(f, i, data))
  {
    hide ForestOk, Scanned;
    ParentsBefore(g, d, f);
    var f' := Buffered(f, i, data);
    assert f'.origins[..|f.origins|] == f.origins;
    forall j {:trigger Started(g, d, f', j)} | 0 <= j < |f'.nodes| && f'.nodes[j].dir ensures Started(g, d, f', j) {
      assert Started(g, d, f, j);
      var seen: nat :| Scanned(g, d, f, j, seen);
      ScannedKept(g, d, f, f', j, seen);
    }
  }
}
