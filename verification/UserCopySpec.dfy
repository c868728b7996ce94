/**
  Copying between the kernel and a process: a user range is laid out as chunks of physical memory, one per page.
*/
module UserCopySpec {
  import opened Octets
  import opened MemoryMap
  import opened PageTable
  import opened UserVmSpec
  import L = FrameLedger

  type Ram = map<nat, Octet>

  function Byte(ram: Ram, p: nat): Octet { if p in ram then ram[p] else 0 }

  datatype Chunk = Chunk(phys: nat, bytes: nat)

  ghost function Total(chunks: seq<Chunk>): nat {
    if chunks == [] then 0 else Total(chunks[..|chunks| - 1]) + chunks[|chunks| - 1].bytes
  }

  /** `bytes` consecutive user addresses lie at consecutive physical addresses. */
  ghost predicate Straight(s: Space, virt: nat, phys: nat, bytes: nat) {
    forall x: nat {:trigger Translate(s, x)} | virt <= x < virt + bytes ::
      Translate(s, x).Mapped? && Translate(s, x).physical == phys + (x - virt)
  }

  /** The chunks lay out the user addresses from `virt` on. */
  ghost predicate Laid(s: Space, chunks: seq<Chunk>, virt: nat) {
    chunks == [] ||
    var n := |chunks| - 1;
    Laid(s, chunks[..n], virt) && Straight(s, virt + Total(chunks[..n]), chunks[n].phys, chunks[n].bytes)
  }

  /** Every byte of the range is mapped, and writable if it is to be written. */
  ghost predicate Accessible(s: Space, virt: nat, bytes: nat, write: bool) {
    forall x: nat {:trigger Translate(s, x)} | virt <= x < virt + bytes ::
      Translate(s, x).Mapped? && (write ==> Translate(s, x).flags.writable)
  }

  /** Exactly what a copy demands. */
  ghost predicate CopyGuard(s: Space, virt: nat, bytes: nat, write: bool) {
    bytes <= COPY_LIMIT && (bytes == 0 || (ValidAddress(virt) && bytes <= USER_END - virt && Accessible(s, virt, bytes, write)))
  }

  ghost function UserByte(s: Space, ram: Ram, x: nat): Octet {
    if Translate(s, x).Mapped? then Byte(ram, Translate(s, x).physical) else 0
  }

  // ---------------------------------------------------------------- pages

  /** All addresses of a 4 KiB page share its answer, up to the offset. */
  lemma SameAnswer(s: Space, x: nat, y: nat)
    requires Canonical(x) && Canonical(y) && x / PAGE == y / PAGE && Translate(s, x).Mapped? && Translate(s, x).size == PAGE
    ensures Translate(s, y) == Translate(s, x).(physical := Translate(s, x).physical - x % PAGE + y % PAGE)
  {
    hide WalkFrom, Path;
    SamePath(x, y);
    assert Walk(s, x) == Walk(s, y);
  }

  /** How far a chunk reaches: to the end of the page, or of the range. */
  function ChunkBytes(virt: nat, remaining: nat): (n: nat)
    ensures n <= remaining && (remaining > 0 ==> 0 < n <= PAGE)
    ensures n < remaining ==> Aligned(virt + n)
    ensures n < remaining && Aligned(virt) ==> n == PAGE
  {
    var room := PAGE - virt % PAGE;
    if room > remaining then remaining else room
  }

  lemma ChunkStraight(s: Space, pages: Pages, virt: nat, remaining: nat, write: bool)
    requires Agrees(s, pages) && virt + remaining <= USER_END && remaining > 0
    requires Translate(s, virt).Mapped?
    ensures Straight(s, virt, Translate(s, virt).physical, ChunkBytes(virt, remaining))
    ensures write ==> (Translate(s, virt).flags.writable <==> Accessible(s, virt, ChunkBytes(virt, remaining), true))
    ensures Accessible(s, virt, ChunkBytes(virt, remaining), false)
  {
    hide Translate;
    assert Consistent(Translate(s, virt), pages, virt);
    var n := ChunkBytes(virt, remaining);
    forall x: nat {:trigger Translate(s, x)} | virt <= x < virt + n
      ensures Translate(s, x).Mapped? && Translate(s, x).physical == Translate(s, virt).physical + (x - virt)
      ensures Translate(s, x).flags == Translate(s, virt).flags
    {
      InChunk(virt, remaining, x);
      SameAnswer(s, virt, x);
    }
    assert Translate(s, virt).Mapped?;
  }

  lemma InChunk(virt: nat, remaining: nat, x: nat)
    requires virt <= x < virt + ChunkBytes(virt, remaining)
    ensures x / PAGE == virt / PAGE && x % PAGE == virt % PAGE + (x - virt)
  {
  }

  /** Two user addresses never share a physical byte. */
  lemma NoAlias(s: Space, pages: Pages, x: nat, y: nat)
    requires Agrees(s, pages) && PagesOk(pages) && x < USER_END && y < USER_END
    requires Translate(s, x).Mapped? && Translate(s, y).Mapped? && Translate(s, x).physical == Translate(s, y).physical
    ensures x == y
  {
    hide Translate, L.Distinct;
    assert Consistent(Translate(s, x), pages, x) && Consistent(Translate(s, y), pages, y);
    var f := Translate(s, x).physical / PAGE;
    var i :| 0 <= i < |pages| && pages[i] == L.Taken(f, AlignDown(x));
    var j :| 0 <= j < |pages| && pages[j] == L.Taken(f, AlignDown(y));
    if i != j { L.FramesApart(pages, i, j); }
    SplitPage(x);
    SplitPage(y);
  }

  lemma SplitPage(x: nat)
    ensures x == AlignDown(x) + x % PAGE
  {
  }

  // ---------------------------------------------------------------- chunk lists

  lemma LaidMore(s: Space, chunks: seq<Chunk>, virt: nat, c: Chunk)
    requires Laid(s, chunks, virt) && Straight(s, virt + Total(chunks), c.phys, c.bytes)
    ensures Laid(s, chunks + [c], virt) && Total(chunks + [c]) == Total(chunks) + c.bytes
  {
    assert (chunks + [c])[..|chunks|] == chunks;
  }

  lemma AccessibleMore(s: Space, virt: nat, done: nat, n: nat, write: bool)
    requires Accessible(s, virt, done, write)
    ensures Accessible(s, virt, done + n, write) <==> Accessible(s, virt + done, n, write)
  {
    hide Translate;
  }

  lemma AccessibleAll(s: Space, virt: nat, bytes: nat, x: nat, write: bool)
    requires virt <= x < virt + bytes && !(Translate(s, x).Mapped? && (write ==> Translate(s, x).flags.writable))
    ensures !Accessible(s, virt, bytes, write)
  {
  }

  /** The k-th prefix of a laid-out list, and the chunk after it. */
  lemma {:induction false} LaidAt(s: Space, chunks: seq<Chunk>, virt: nat, k: nat)
    requires Laid(s, chunks, virt) && k < |chunks|
    ensures Straight(s, virt + Total(chunks[..k]), chunks[k].phys, chunks[k].bytes)
    ensures Total(chunks[..k + 1]) == Total(chunks[..k]) + chunks[k].bytes && Total(chunks[..k + 1]) <= Total(chunks)
    decreases |chunks|
  {
    var n := |chunks| - 1;
    assert chunks[..k + 1][..k] == chunks[..k];
    if k < n {
      LaidAt(s, chunks[..n], virt, k);
      assert chunks[..n][..k] == chunks[..k] && chunks[..n][..k + 1] == chunks[..k + 1];
    } else {
      assert chunks[..k + 1] == chunks;
    }
  }

  // ---------------------------------------------------------------- bytes

  function Load(ram: Ram, phys: nat, n: nat): (data: seq<Octet>)
    ensures |data| == n
  {
    seq<Octet>(n, (i: nat) => Byte(ram, phys + i))
  }

  function Blit(ram: Ram, phys: nat, data: seq<Octet>): Ram {
    ram + map p: nat {:trigger InSpan(p, phys, |data|)} | phys <= p < phys + |data| && InSpan(p, phys, |data|) :: data[p - phys]
  }

  predicate InSpan(p: nat, phys: nat, n: nat) { phys <= p < phys + n }

  lemma BlitByte(ram: Ram, phys: nat, data: seq<Octet>, p: nat)
    ensures Byte(Blit(ram, phys, data), p) == if phys <= p < phys + |data| then data[p - phys] else Byte(ram, p)
  {
  }

  /** The first `done` bytes of the range hold `data`; every other user byte is as in `ram0`. */
  ghost predicate Written(s: Space, ram0: Ram, ram: Ram, virt: nat, data: seq<Octet>, done: nat) {
    done <= |data| &&
    forall x: nat {:trigger Translate(s, x)} | x < USER_END && Translate(s, x).Mapped? ::
      UserByte(s, ram, x) == if virt <= x < virt + done then data[x - virt] else UserByte(s, ram0, x)
  }

  lemma WrittenMore(s: Space, pages: Pages, ram0: Ram, ram: Ram, virt: nat, data: seq<Octet>, done: nat, phys: nat, n: nat)
    requires Agrees(s, pages) && PagesOk(pages) && Written(s, ram0, ram, virt, data, done) && done + n <= |data|
    requires Straight(s, virt + done, phys, n) && virt + |data| <= USER_END
    ensures Written(s, ram0, Blit(ram, phys, data[done..done + n]), virt, data, done + n)
  {
    hide Translate, Agrees, PagesOk;
    var r := Blit(ram, phys, data[done..done + n]);
    forall x: nat {:trigger Translate(s, x)} | x < USER_END && Translate(s, x).Mapped?
      ensures UserByte(s, r, x) == if virt <= x < virt + done + n then data[x - virt] else UserByte(s, ram0, x)
    {
      var p := Translate(s, x).physical;
      BlitByte(ram, phys, data[done..done + n], p);
      if phys <= p < phys + n {
        var y := virt + done + (p - phys);
        assert Translate(s, y).physical == p;
        NoAlias(s, pages, x, y);
      }
    }
  }

  /** The bytes of every frame outside `frames` are the same. */
  ghost predicate RamSame(m: Ram, n: Ram, frames: set<Frame>) {
    forall p: nat {:trigger Byte(n, p)} | p / PAGE !in frames :: Byte(n, p) == Byte(m, p)
  }

  lemma BlitOwned(s: Space, pages: Pages, ram0: Ram, ram: Ram, virt: nat, phys: nat, data: seq<Octet>)
    requires Agrees(s, pages) && Straight(s, virt, phys, |data|) && virt + |data| <= USER_END && RamSame(ram0, ram, L.Owned(pages))
    ensures RamSame(ram0, Blit(ram, phys, data), L.Owned(pages))
  {
    hide Translate;
    var r := Blit(ram, phys, data);
    forall p: nat {:trigger Byte(r, p)} | p / PAGE !in L.Owned(pages) ensures Byte(r, p) == Byte(ram0, p) {
      BlitByte(ram, phys, data, p);
      if phys <= p < phys + |data| { StraightOwned(s, pages, virt, phys, |data|, p); }
    }
  }

  lemma StraightOwned(s: Space, pages: Pages, virt: nat, phys: nat, n: nat, p: nat)
    requires Agrees(s, pages) && Straight(s, virt, phys, n) && virt + n <= USER_END && phys <= p < phys + n
    ensures p / PAGE in L.Owned(pages)
  {
    hide Translate;
    var x := virt + (p - phys);
    assert Consistent(Translate(s, x), pages, x);
  }

  /** The bytes loaded so far are the first bytes of the range. */
  ghost predicate Loaded(s: Space, ram: Ram, virt: nat, data: seq<Octet>) {
    forall k | 0 <= k < |data| :: data[k] == UserByte(s, ram, virt + k)
  }

  lemma LoadedMore(s: Space, ram: Ram, virt: nat, data: seq<Octet>, phys: nat, n: nat)
    requires Loaded(s, ram, virt, data) && Straight(s, virt + |data|, phys, n)
    ensures Loaded(s, ram, virt, data + Load(ram, phys, n))
  {
    hide Translate;
    var r := data + Load(ram, phys, n);
    forall k | 0 <= k < |r| ensures r[k] == UserByte(s, ram, virt + k) {
      if k >= |data| { assert Translate(s, virt + k).physical == phys + (k - |data|); }
    }
  }

  /** Reading back a range just written returns what was written. */
  lemma CopyRoundTrip(s: Space, ram0: Ram, ram: Ram, virt: nat, data: seq<Octet>, back: seq<Octet>)
    requires CopyGuard(s, virt, |data|, true) && Written(s, ram0, ram, virt, data, |data|)
    requires |back| == |data| && Loaded(s, ram, virt, back)
    ensures back == data
  {
    hide Translate;
    forall k | 0 <= k < |data| ensures back[k] == data[k] { assert Translate(s, virt + k).Mapped?; }
  }
}
