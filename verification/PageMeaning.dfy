/**
  What a translation means, told without walking: an address is mapped when a chain of entries leads from the root to a
  page, each taken at nine bits of the address. A page of any size is one straight piece of physical memory.
*/
module PageMeaning {
  import opened MemoryMap
  import opened PageTable

  /** Table `fs[k]`, which the entry before it leads to, holds entry `es[k]` of the chain. */
  ghost predicate HeldAt(s: Space, v: nat, fs: seq<Frame>, es: seq<Entry>, k: nat)
    requires k < |fs| == |es| <= 4
  {
    && fs[k] == (if k == 0 then s.root else es[k - 1].frame) && fs[k] in s.reach && fs[k] !in fs[..k]
    && es[k] == At(s.mem, fs[k], v / (Pages(4 - k) * PAGE) % 512) && (es[k].present ==> EntryOk(s, es[k], 4 - k))
  }

  /** Whether the `k`-th entry leads to another table. */
  ghost predicate LeadsOn(e: Entry, k: nat) { e.present && k != 3 && !e.huge }

  ghost predicate LinkAt(s: Space, v: nat, fs: seq<Frame>, es: seq<Entry>, k: nat)
    requires k < |fs| == |es| <= 4
  {
    HeldAt(s, v, fs, es, k) && (k + 1 < |es| <==> LeadsOn(es[k], k))
  }

  ghost predicate Chain(s: Space, v: nat, fs: seq<Frame>, es: seq<Entry>) {
    1 <= |fs| == |es| <= 4 && forall k {:trigger LinkAt(s, v, fs, es, k)} | 0 <= k < |es| :: LinkAt(s, v, fs, es, k)
  }

  ghost predicate AllWritable(es: seq<Entry>) { forall e | e in es :: e.writable }

  ghost predicate AllUser(es: seq<Entry>) { forall e | e in es :: e.user }

  ghost predicate SomeNx(es: seq<Entry>) { exists e | e in es :: e.nx }

  /** What a chain says of the address: its last entry's page, at the address's offset, with the rights all entries grant. */
  ghost predicate Tells(a: Answer, v: nat, es: seq<Entry>)
    requires 1 <= |es| <= 4
  {
    var e, n := es[|es| - 1], Pages(5 - |es|);
    if !e.present then a == Absent
    else
      && a.Mapped? && a.size == n * PAGE && a.physical % a.size == v % a.size && a.physical / a.size == e.frame / n
      && (a.flags.writable <==> AllWritable(es)) && (a.flags.user <==> AllUser(es)) && (a.flags.nx <==> SomeNx(es))
      && a.flags == e.(writable := a.flags.writable, user := a.flags.user, nx := a.flags.nx, frame := if n == 1 then 0 else e.frame % 2)
  }

  lemma IndexIs(v: nat, level: nat)
    requires 1 <= level <= 4
    ensures Index(v, level) == v / (Pages(level) * PAGE) % 512
  {
  }

  ghost function Passed(fs: seq<Frame>): set<Frame> { set f | f in fs }

  lemma PassedMore(fs: seq<Frame>, k: nat)
    requires k < |fs|
    ensures Passed(fs[..k + 1]) == Passed(fs[..k]) + {fs[k]}
  {
    assert fs[..k + 1] == fs[..k] + [fs[k]];
  }

  /** A walk in progress along a chain: the first `k` entries are behind it. */
  ghost function Along(s: Space, v: nat, fs: seq<Frame>, es: seq<Entry>, k: nat): Outcome
    requires k < |fs| == |es| <= 4
  {
    WalkFrom(s, Path(v), fs[k], 4 - k, Passed(fs[..k]), AllWritable(es[..k]), AllUser(es[..k]), SomeNx(es[..k]))
  }

  lemma RightsMore(es: seq<Entry>, k: nat)
    requires k < |es|
    ensures AllWritable(es[..k + 1]) <==> AllWritable(es[..k]) && es[k].writable
    ensures AllUser(es[..k + 1]) <==> AllUser(es[..k]) && es[k].user
    ensures SomeNx(es[..k + 1]) <==> SomeNx(es[..k]) || es[k].nx
  {
    assert es[..k + 1] == es[..k] + [es[k]];
    assert es[k] in es[..k + 1];
    forall e | e in es[..k] ensures e in es[..k + 1] {}
  }

  /** A walk follows its chain to the end. */
  lemma {:induction false} WalkAlong(s: Space, v: nat, fs: seq<Frame>, es: seq<Entry>, k: nat)
    requires Chain(s, v, fs, es) && k < |es|
    ensures var m := |es| - 1;
      Along(s, v, fs, es, k) == Stop(Loc(fs[m], Index(v, 4 - m)), es[m], 4 - m, AllWritable(es[..m]), AllUser(es[..m]), SomeNx(es[..m]))
    decreases |es| - k
  {
    hide AllWritable, AllUser, SomeNx, EntryValid;
    assert LinkAt(s, v, fs, es, k);
    IndexIs(v, 4 - k);
    if k + 1 < |es| {
      assert LinkAt(s, v, fs, es, k + 1);
      PassedMore(fs, k);
      RightsMore(es, k);
      WalkAlong(s, v, fs, es, k + 1);
    }
  }

  lemma AlongWhole(s: Space, v: nat, fs: seq<Frame>, es: seq<Entry>)
    requires Canonical(v) && Chain(s, v, fs, es)
    ensures Walk(s, v) == Along(s, v, fs, es, 0)
  {
    hide WalkFrom;
    assert LinkAt(s, v, fs, es, 0) && fs[..0] == [] && es[..0] == [];
    assert Passed([]) == {} && AllWritable([]) && AllUser([]) && !SomeNx([]);
  }

  /** A chain decides the translation. */
  lemma ChainTells(s: Space, v: nat, fs: seq<Frame>, es: seq<Entry>)
    requires Canonical(v) && Chain(s, v, fs, es)
    ensures Tells(Translate(s, v), v, es)
  {
    hide WalkFrom, HeldAt, Tells, Answered, Along, AllWritable, AllUser, SomeNx;
    var m := |es| - 1;
    AlongWhole(s, v, fs, es);
    WalkAlong(s, v, fs, es, 0);
    EndTells(Loc(fs[m], Index(v, 4 - m)), v, es);
  }

  lemma EndTells(at: Loc, v: nat, es: seq<Entry>)
    requires 1 <= |es| <= 4
    ensures var m := |es| - 1;
      Tells(Answered(Stop(at, es[m], 4 - m, AllWritable(es[..m]), AllUser(es[..m]), SomeNx(es[..m])), v), v, es)
  {
    var m := |es| - 1;
    RightsMore(es, m);
    assert es[..m + 1] == es;
    hide AllWritable, AllUser, SomeNx, Pages;
    if es[m].present {
      assert 0 < Pages(4 - m) by { PagesPositive(4 - m); }
      PageSplit(es[m].frame, Pages(4 - m), v);
    }
  }

  lemma PagesPositive(level: nat)
    requires 1 <= level <= 4
    ensures 0 < Pages(level) && (Pages(level) == 1 <==> level == 1)
  {
  }

  lemma PageSplit(f: nat, n: nat, v: nat)
    requires 0 < n
    ensures var a := f / n * n * PAGE + v % (n * PAGE); a % (n * PAGE) == v % (n * PAGE) && a / (n * PAGE) == f / n
  {
    var z, q, r := n * PAGE, f / n, v % (n * PAGE);
    assert f / n * n * PAGE == q * z;
    Split(q, z, r);
  }

  lemma Split(q: nat, z: nat, r: nat)
    requires r < z
    ensures (q * z + r) / z == q && (q * z + r) % z == r
  {
    var a := q * z + r;
    assert a == a / z * z + a % z;
    if a / z < q { Below(a / z, q, z); } else if q < a / z { Below(q, a / z, z); }
  }

  lemma Below(p: nat, q: nat, z: nat)
    requires p < q
    ensures p * z + z <= q * z
  {
    var d: nat := q - p - 1;
    calc {
      q * z;
      (p + 1 + d) * z;
      p * z + z + d * z;
    }
  }

  /** The beginning of a chain, which its last entry leads on. */
  ghost predicate Leading(s: Space, v: nat, fs: seq<Frame>, es: seq<Entry>) {
    |fs| == |es| <= 4 && forall k {:trigger HeldAt(s, v, fs, es, k)} | 0 <= k < |es| :: HeldAt(s, v, fs, es, k) && LeadsOn(es[k], k)
  }

  lemma Longer(s: Space, v: nat, fs: seq<Frame>, es: seq<Entry>, f: Frame, e: Entry)
    requires Leading(s, v, fs, es) && |es| < 4 && f == (if es == [] then s.root else es[|es| - 1].frame)
    requires f in s.reach && f !in fs && e == At(s.mem, f, v / (Pages(4 - |es|) * PAGE) % 512) && (e.present ==> EntryOk(s, e, 4 - |es|))
    ensures if LeadsOn(e, |es|) then Leading(s, v, fs + [f], es + [e]) else Chain(s, v, fs + [f], es + [e])
  {
    hide EntryValid, Pages;
    var k, gs, ds := |es|, fs + [f], es + [e];
    assert gs[..k] == fs;
    forall j {:trigger HeldAt(s, v, gs, ds, j)} | 0 <= j < k ensures HeldAt(s, v, gs, ds, j) && LeadsOn(ds[j], j) {
      assert HeldAt(s, v, fs, es, j);
      assert gs[..j] == fs[..j];
    }
    assert HeldAt(s, v, gs, ds, k);
    if !LeadsOn(e, k) {
      forall j {:trigger LinkAt(s, v, gs, ds, j)} | 0 <= j < |ds| ensures LinkAt(s, v, gs, ds, j) { assert HeldAt(s, v, gs, ds, j); }
    }
  }

  /** A walk that is not refused leaves a chain behind. */
  lemma {:induction false} ChainFrom(s: Space, v: nat, fs: seq<Frame>, es: seq<Entry>, f: Frame, w: bool, u: bool, n: bool)
    returns (gs: seq<Frame>, ds: seq<Entry>)
    requires |fs| == |es| < 4 && f == (if es == [] then s.root else es[|es| - 1].frame)
    requires Leading(s, v, fs, es) && WalkFrom(s, Path(v), f, 4 - |es|, Passed(fs), w, u, n).Stop?
    ensures Chain(s, v, gs, ds)
    decreases 4 - |es|
  {
    hide EntryValid, Pages, Index, Leading, Chain;
    var k := |es|;
    IndexIs(v, 4 - k);
    var e := At(s.mem, f, Index(v, 4 - k));
    gs, ds := fs + [f], es + [e];
    Longer(s, v, fs, es, f, e);
    if !Stops(e, 4 - k) {
      PassedMore(gs, k);
      assert gs[..k] == fs && gs[..k + 1] == gs;
      gs, ds := ChainFrom(s, v, gs, ds, e.frame, w && e.writable, u && e.user, n || e.nx);
    }
  }

  /** An address is refused exactly when it is not canonical or no chain leads anywhere; else the chain says what it maps to. */
  lemma TranslationMeans(s: Space, v: nat) returns (fs: seq<Frame>, es: seq<Entry>)
    ensures Translate(s, v) != Refused <==> Canonical(v) && Chain(s, v, fs, es)
    ensures Translate(s, v) != Refused ==> Tells(Translate(s, v), v, es)
    ensures Translate(s, v) == Refused && Canonical(v) ==> forall gs, ds :: !Chain(s, v, gs, ds)
  {
    fs, es := [], [];
    if Translate(s, v) != Refused {
      assert Passed([]) == {};
      fs, es := ChainFrom(s, v, [], [], s.root, true, true, false);
      ChainTells(s, v, fs, es);
    } else if Canonical(v) {
      forall gs, ds ensures !Chain(s, v, gs, ds) {
        if Chain(s, v, gs, ds) { ChainTells(s, v, gs, ds); }
      }
    }
  }

  /** What is mapped lies below the space's physical limit, at a multiple of its size but for the bit of the entry that selects caching. */
  lemma MappedAllowed(s: Space, v: nat) returns (fs: seq<Frame>, es: seq<Entry>)
    requires Translate(s, v).Mapped?
    ensures Chain(s, v, fs, es)
    ensures var e, a, n := es[|es| - 1], Translate(s, v), Pages(5 - |es|);
      e.frame == a.physical / (n * PAGE) * n + (if n == 1 then 0 else e.frame % 2) && e.frame < s.limit
    ensures Translate(s, v).flags.nx ==> s.nx
  {
    hide Translate, LinkAt, AllWritable, AllUser, Pages;
    fs, es := TranslationMeans(s, v);
    EntriesAllowed(s, v, fs, es);
  }

  lemma LowBit(f: nat, half: nat)
    requires 0 < half && f % (2 * half) <= 1
    ensures f == f / (2 * half) * (2 * half) + f % 2
  {
    var q, r := f / (2 * half), f % (2 * half);
    assert f == 2 * (half * q) + r;
    assert f % 2 == r by { Halves(f, half * q, r); }
  }

  lemma Halves(f: nat, q: nat, r: nat)
    requires f == 2 * q + r && r <= 1
    ensures f % 2 == r
  {
  }

  /** The frame of an entry that maps a page: a multiple of the page's size, but for the bit that selects caching. */
  lemma FrameAllowed(e: Entry, level: nat, limit: nat, nx: bool)
    requires 1 <= level <= 4 && EntryValid(e, level, limit, nx) && (level == 1 || e.huge)
    ensures var n := Pages(level); 0 < n && e.frame == e.frame / n * n + (if n == 1 then 0 else e.frame % 2) && e.frame < limit
  {
    if level == 2 {
      LowBit(e.frame, 0x100);
    } else if level == 3 {
      LowBit(e.frame, 0x2_0000);
    }
  }

  lemma EntriesAllowed(s: Space, v: nat, fs: seq<Frame>, es: seq<Entry>)
    requires Chain(s, v, fs, es) && es[|es| - 1].present
    ensures var e, n := es[|es| - 1], Pages(5 - |es|);
      0 < n && e.frame == e.frame / n * n + (if n == 1 then 0 else e.frame % 2) && e.frame < s.limit
    ensures SomeNx(es) ==> s.nx
  {
    hide Pages, HugeAligned;
    var m := |es| - 1;
    forall k | 0 <= k < |es| ensures es[k].present && EntryOk(s, es[k], 4 - k) { assert LinkAt(s, v, fs, es, k); }
    assert LinkAt(s, v, fs, es, m);
    FrameAllowed(es[m], 4 - m, s.limit, s.nx);
    if SomeNx(es) {
      var e :| e in es && e.nx;
      var k :| 0 <= k < |es| && es[k] == e;
      assert EntryOk(s, es[k], 4 - k);
    }
  }

  // ---------------------------------------------------------------- pages of every size

  lemma SizeAbove(v: nat, level: nat)
    requires 1 <= level <= 3
    ensures v / (Pages(level + 1) * PAGE) == v / (Pages(level) * PAGE) / 512
  {
    assert v / 0x1000 / 512 == v / 0x20_0000 && v / 0x20_0000 / 512 == v / 0x4000_0000 && v / 0x4000_0000 / 512 == v / 0x80_0000_0000;
  }

  /** Addresses of one large page share the indices down to its level. */
  lemma {:induction false} SharedIndices(v: nat, x: nat, level: nat, above: nat)
    requires 1 <= level <= above <= 4 && x / (Pages(level) * PAGE) == v / (Pages(level) * PAGE)
    ensures x / (Pages(above) * PAGE) == v / (Pages(above) * PAGE)
    decreases above - level
  {
    hide Pages;
    if level < above {
      SizeAbove(v, level);
      SizeAbove(x, level);
      SharedIndices(v, x, level + 1, above);
    }
  }

  /** The address keeps its offset within a page of one of the three sizes. */
  ghost predicate InPlace(a: Answer, v: nat) {
    a.Mapped? ==> a.size in {0x1000, 0x20_0000, 0x4000_0000} && a.physical % a.size == v % a.size
  }

  /**
    A page of any size is one straight piece of memory: its addresses are mapped together, with the same rights, each at
    its own offset from a physical address that the page's size divides.
  */
  lemma PageIsStraight(s: Space, v: nat, x: nat)
    requires Translate(s, v).Mapped? && Canonical(x) && x / Translate(s, v).size == v / Translate(s, v).size
    ensures var a, b := Translate(s, v), Translate(s, x);
      b.Mapped? && b.size == a.size && b.flags == a.flags && b.physical - x == a.physical - v
    ensures InPlace(Translate(s, v), v)
  {
    hide Translate, LinkAt;
    var fs, es := TranslationMeans(s, v);
    var level := 5 - |es|;
    assert level != 4 by { LastAllowed(s, v, fs, es); }
    SameChain(s, v, x, fs, es);
    ChainTells(s, x, fs, es);
    hide Chain, AllWritable, AllUser, SomeNx;
    var a, b, z := Translate(s, v), Translate(s, x), Pages(level) * PAGE;
    SameShift(a.physical, b.physical, v, x, z);
  }

  lemma LastAllowed(s: Space, v: nat, fs: seq<Frame>, es: seq<Entry>)
    requires Chain(s, v, fs, es) && es[|es| - 1].present
    ensures |es| != 1
  {
    assert LinkAt(s, v, fs, es, |es| - 1);
  }

  lemma SameChain(s: Space, v: nat, x: nat, fs: seq<Frame>, es: seq<Entry>)
    requires Chain(s, v, fs, es) && x / (Pages(5 - |es|) * PAGE) == v / (Pages(5 - |es|) * PAGE)
    ensures Chain(s, x, fs, es)
  {
    forall k {:trigger LinkAt(s, x, fs, es, k)} | 0 <= k < |es| ensures LinkAt(s, x, fs, es, k) {
      assert LinkAt(s, v, fs, es, k);
      SharedIndices(v, x, 5 - |es|, 4 - k);
    }
  }

  lemma SameShift(p: nat, q: nat, v: nat, x: nat, z: nat)
    requires 0 < z && p % z == v % z && q % z == x % z && p / z == q / z && v / z == x / z
    ensures q - x == p - v
  {
    assert p == p / z * z + p % z && q == q / z * z + q % z && v == v / z * z + v % z && x == x / z * z + x % z;
  }
}
