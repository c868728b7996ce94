/**
  What a FAT32 volume says, read directly: the file allocation table, cluster chains and the bytes of a file. The disk is
  an immutable function from sectors to bytes; sectors missing from it cannot be read.
*/
module Fat32Volume {
  import opened Octets

  const END_OF_CHAIN: nat := 0x0FFF_FFF8
  const SECTOR: nat := 512

  datatype DiskData = DiskData(sectors: nat, data: map<nat, Bytes>)

  /** A device with 512-byte sectors. */
  type Disk = d: DiskData | forall l | l in d.data :: |d.data[l]| == SECTOR witness DiskData(0, map[])

  predicate Readable(d: Disk, lba: nat) { lba < d.sectors && lba in d.data }

  function Little16(s: Bytes, i: nat): (v: nat)
    requires i + 2 <= |s|
    ensures v <= 0xFFFF
  {
    s[i] as int + 256 * (s[i + 1] as int)
  }

  function Little32(s: Bytes, i: nat): (v: nat)
    requires i + 4 <= |s|
    ensures v <= 0xFFFF_FFFF
  {
    Little16(s, i) + 65536 * Little16(s, i + 2)
  }

  datatype Geometry = Geometry(
    total: nat, clusters: nat, fatStart: nat, fatSectors: nat, dataStart: nat, root: nat, spc: nat, fats: nat, active: nat, mirrored: bool)

  const NO_GEOMETRY := Geometry(0, 0, 0, 0, 0, 0, 0, 0, 0, false)

  /** The areas of the volume follow one another and fit the device; the table has an entry for every cluster. */
  ghost predicate GeometryOk(g: Geometry, d: Disk) {
    && 0 < g.fatStart && 0 < g.fatSectors && 1 <= g.fats <= 2 && g.active < g.fats && 1 <= g.spc <= 128
    && (g.mirrored ==> g.active == 0)
    && g.dataStart == g.fatStart + g.fats * g.fatSectors && g.dataStart + g.clusters * g.spc <= g.total <= d.sectors
    && g.clusters + 2 <= g.fatSectors * 128 && g.clusters <= 1048576
  }

  // ---------------------------------------------------------------- the boot sector

  const CLUSTER_MAX: nat := 1048576

  function Overhead(reserved: nat, fats: nat, fatSize: nat): nat { reserved + fats * fatSize }

  function Clusters(total: nat, overhead: nat, spc: nat): nat { if spc == 0 || overhead > total then 0 else (total - overhead) / spc }

  /** The geometry a boot sector describes. */
  function BootGeometry(boot: Bytes): Geometry
    requires |boot| == SECTOR
  {
    var spc: nat, fats: nat, flags := boot[13] as int, boot[16] as int, Little16(boot, 40);
    var total, reserved, fatSize := Little32(boot, 32), Little16(boot, 14), Little32(boot, 36);
    var overhead := Overhead(reserved, fats, fatSize);
    Geometry(total, Clusters(total, overhead, spc), reserved, fatSize, overhead, Little32(boot, 44), spc, fats,
             if flags / 128 % 2 == 0 then 0 else flags % 16, flags / 128 % 2 == 0)
  }

  /** Signature, sector size and the fields FAT32 leaves zero. */
  predicate SignatureOk(boot: Bytes)
    requires |boot| == SECTOR
  {
    && boot[510] == 0x55 && boot[511] == 0xAA && Little16(boot, 11) == 512 && Little16(boot, 17) == 0 && Little16(boot, 19) == 0
    && Little16(boot, 22) == 0 && Little16(boot, 42) == 0 && Little32(boot, 28) == 0 && boot[21] >= 0xF0
  }

  /** The boot sectors taken: a FAT32 volume, by its cluster count, that fits the device and whose table covers it. */
  predicate BootOk(boot: Bytes, sectors: nat)
    requires |boot| == SECTOR
  {
    var g, flags := BootGeometry(boot), Little16(boot, 40);
    && SignatureOk(boot) && g.spc in {1, 2, 4, 8, 16, 32, 64, 128} && g.fatStart != 0 && (g.fats == 1 || g.fats == 2) && g.fatSectors != 0
    && g.dataStart < g.total <= sectors && flags / 256 == 0 && flags / 16 % 8 == 0
    && 65525 <= g.clusters <= CLUSTER_MAX && g.clusters + 2 <= g.fatSectors * 128
    && g.active < g.fats && ValidCluster(g, g.root)
  }

  lemma BootGeometryOk(boot: Bytes, d: Disk)
    requires |boot| == SECTOR && BootOk(boot, d.sectors)
    ensures GeometryOk(BootGeometry(boot), d)
  {
    hide Little16, Little32, SignatureOk, ValidCluster;
    var g := BootGeometry(boot);
    Fits(g.total - g.dataStart, g.spc);
  }

  lemma Fits(n: nat, spc: nat)
    requires 0 < spc
    ensures n / spc * spc <= n
  {
  }

  predicate ValidCluster(g: Geometry, c: nat) { 2 <= c && c - 2 < g.clusters }

  function FatLba(g: Geometry, relative: nat): nat { g.fatStart + g.active * g.fatSectors + relative }

  function ClusterLba(g: Geometry, c: nat): nat { if c < 2 then 0 else g.dataStart + (c - 2) * g.spc }

  // ---------------------------------------------------------------- the table

  /** A sector of the table; with two mirrored copies, only if they agree. */
  ghost function FatSector(g: Geometry, d: Disk, relative: nat): (r: Bytes) {
    var lba := FatLba(g, relative);
    if !Readable(d, lba) then []
    else if g.mirrored && g.fats == 2 && !(Readable(d, g.fatStart + g.fatSectors + relative)
            && d.data[g.fatStart + g.fatSectors + relative] == d.data[lba]) then []
    else d.data[lba]
  }

  ghost predicate HasFatSector(g: Geometry, d: Disk, relative: nat) { relative < g.fatSectors && FatSector(g, d, relative) != [] }

  function EntryIn(sector: Bytes, cluster: nat): nat
    requires |sector| == SECTOR
  {
    Little32(sector, cluster % 128 * 4) % 0x1000_0000
  }

  lemma FatSectorLength(g: Geometry, d: Disk, relative: nat)
    ensures FatSector(g, d, relative) == [] || |FatSector(g, d, relative)| == SECTOR
  {
  }

  /** The table's entry for a cluster, looked up on the disk. */
  ghost function NextOf(g: Geometry, d: Disk, cluster: nat): nat
    requires HasFatSector(g, d, cluster / 128)
  {
    FatSectorLength(g, d, cluster / 128);
    EntryIn(FatSector(g, d, cluster / 128), cluster)
  }

  ghost predicate Linked(g: Geometry, d: Disk, a: nat, b: nat) { HasFatSector(g, d, a / 128) && NextOf(g, d, a) == b }

  /** Consecutive clusters are linked, and all of them are data clusters. */
  ghost predicate Links(g: Geometry, d: Disk, chain: seq<nat>) {
    && (forall c | c in chain :: ValidCluster(g, c))
    && (forall k {:trigger chain[k]} | 0 < k < |chain| :: Linked(g, d, chain[k - 1], chain[k]))
  }

  ghost predicate Ends(g: Geometry, d: Disk, chain: seq<nat>) {
    chain != [] && HasFatSector(g, d, chain[|chain| - 1] / 128) && NextOf(g, d, chain[|chain| - 1]) >= END_OF_CHAIN
  }

  lemma LinksMore(g: Geometry, d: Disk, chain: seq<nat>, c: nat)
    requires Links(g, d, chain) && ValidCluster(g, c) && (chain != [] ==> Linked(g, d, chain[|chain| - 1], c))
    ensures Links(g, d, chain + [c])
  {
    var r := chain + [c];
    forall k {:trigger r[k]} | 0 < k < |r| ensures Linked(g, d, r[k - 1], r[k]) {
      if k < |chain| { assert Linked(g, d, chain[k - 1], chain[k]); }
    }
  }

  // ---------------------------------------------------------------- files

  ghost function ClusterSectors(g: Geometry, c: nat): (r: seq<nat>)
    ensures |r| == g.spc && forall i | 0 <= i < g.spc :: r[i] == ClusterLba(g, c) + i
  {
    seq(g.spc, (i: nat) => ClusterLba(g, c) + i)
  }

  /** The sectors of a chain's data, in order. */
  ghost function Sectors(g: Geometry, chain: seq<nat>): seq<nat> {
    if chain == [] then [] else Sectors(g, chain[..|chain| - 1]) + ClusterSectors(g, chain[|chain| - 1])
  }

  lemma SectorsMore(g: Geometry, chain: seq<nat>, c: nat)
    ensures Sectors(g, chain + [c]) == Sectors(g, chain) + ClusterSectors(g, c)
  {
    assert (chain + [c])[..|chain|] == chain;
  }

  /** A longer chain has the same sectors, and more. */
  lemma SectorsPrefix(g: Geometry, chain: seq<nat>, c: nat, k: nat)
    requires k < |Sectors(g, chain)|
    ensures k < |Sectors(g, chain + [c])| && Sectors(g, chain + [c])[k] == Sectors(g, chain)[k]
  {
    SectorsMore(g, chain, c);
  }

  /** Byte `j` of the data in a list of sectors. */
  ghost predicate ByteOf(d: Disk, sectors: seq<nat>, j: nat, b: Octet) {
    j / SECTOR < |sectors| && Readable(d, sectors[j / SECTOR]) && b == d.data[sectors[j / SECTOR]][j % SECTOR]
  }

  /** The first `n` bytes are those of the sectors. */
  ghost predicate Reads(d: Disk, sectors: seq<nat>, data: Bytes, n: nat) {
    n <= |data| && forall j: nat {:trigger data[j]} | j < n :: ByteOf(d, sectors, j, data[j])
  }

  lemma ReadsCover(d: Disk, sectors: seq<nat>, data: Bytes, n: nat)
    requires Reads(d, sectors, data, n) && n > 0
    ensures n <= |sectors| * SECTOR
  {
    assert ByteOf(d, sectors, n - 1, data[n - 1]);
  }

  lemma ReadsLonger(d: Disk, sectors: seq<nat>, more: seq<nat>, data: Bytes, n: nat)
    requires Reads(d, sectors, data, n)
    ensures Reads(d, sectors + more, data, n)
  {
    forall j: nat {:trigger data[j]} | j < n ensures ByteOf(d, sectors + more, j, data[j]) { assert ByteOf(d, sectors, j, data[j]); }
  }

  lemma BytesOfSector(j: nat, k: nat)
    requires k * SECTOR <= j < (k + 1) * SECTOR
    ensures j / SECTOR == k && j % SECTOR == j - k * SECTOR
  {
  }

  /** Copying the next sector extends what has been read. */
  lemma ReadsMore(d: Disk, sectors: seq<nat>, k: nat, data: Bytes, data': Bytes, n: nat)
    requires k < |sectors| && Readable(d, sectors[k]) && n <= SECTOR && k * SECTOR + n <= |data| && Reads(d, sectors, data, k * SECTOR)
    requires data' == data[..k * SECTOR] + d.data[sectors[k]][..n] + data[k * SECTOR + n..]
    ensures Reads(d, sectors, data', k * SECTOR + n)
  {
    var start := k * SECTOR;
    forall j: nat {:trigger data'[j]} | j < start + n ensures ByteOf(d, sectors, j, data'[j]) {
      if j < start {
        assert data'[j] == data[j] && ByteOf(d, sectors, j, data[j]);
      } else {
        BytesOfSector(j, k);
        assert data'[j] == d.data[sectors[k]][j - start];
      }
    }
  }

  // ---------------------------------------------------------------- staying inside the volume

  lemma {:induction false} Times(a: nat, b: nat, n: nat)
    requires a < b
    ensures a * n + n <= b * n
  {
    if a + 1 < b { Times(a, b - 1, n); }
    assert b * n == (b - 1) * n + n;
  }

  lemma FatInside(g: Geometry, d: Disk, relative: nat)
    requires GeometryOk(g, d) && relative < g.fatSectors
    ensures FatLba(g, relative) < g.dataStart <= g.total && g.fatStart + relative < g.dataStart
    ensures g.fats == 2 ==> g.fatStart + g.fatSectors + relative < g.dataStart
  {
    Times(g.active, g.fats, g.fatSectors);
  }

  lemma Within(start: nat, k: nat, n: nat, spc: nat, i: nat, total: nat)
    requires k < n && i < spc && start + n * spc <= total
    ensures start + k * spc + i < total
  {
    Times(k, n, spc);
  }

  lemma ClusterInside(g: Geometry, d: Disk, c: nat, i: nat)
    requires GeometryOk(g, d) && ValidCluster(g, c) && i < g.spc
    ensures g.dataStart <= ClusterLba(g, c) + i < g.total
  {
    assert g.dataStart + g.clusters * g.spc <= g.total;
    hide GeometryOk;
    Within(g.dataStart, c - 2, g.clusters, g.spc, i, g.total);
    NotNegative(c - 2, g.spc);
  }

  lemma NotNegative(a: nat, b: nat)
    ensures 0 <= a * b
  {
  }
}
