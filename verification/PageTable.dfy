/**
  Four-level x86-64 page tables as kernel/memory/vmm_core.c reads and writes them. A 64-bit entry is kept as its
  fields; a table frame is 512 entries; a walk follows the four 9-bit indices of an address.
*/
module PageTable {
  import opened MemoryMap

  type Frame = nat

  /** `frame` is bits 12..51, `low` bits 9..11 and `high` bits 52..62. */
  datatype Entry = Entry(
    present: bool, writable: bool, user: bool, writeThrough: bool, cacheDisable: bool, accessed: bool, dirty: bool,
    huge: bool, global: bool, nx: bool, frame: Frame, low: nat, high: nat)

  const Zero := Entry(false, false, false, false, false, false, false, false, false, false, 0, 0, 0)

  datatype Loc = Loc(frame: Frame, index: nat)

  type Memory = map<Loc, Entry>

  function At(m: Memory, f: Frame, i: nat): Entry { if Loc(f, i) in m then m[Loc(f, i)] else Zero }

  /** What a walk depends on: `reach` are the frames the table callback gives access to, `limit` bounds frames. */
  datatype Space = Space(mem: Memory, reach: set<Frame>, root: Frame, limit: nat, nx: bool)

  // ---------------------------------------------------------------- addresses

  predicate Canonical(v: nat) { v <= 0x7FFF_FFFF_FFFF || 0xFFFF_8000_0000_0000 <= v <= UINT64_MAX }

  function Pages(level: nat): nat
    requires 1 <= level <= 4
  {
    match level case 1 => 1 case 2 => 0x200 case 3 => 0x4_0000 case _ => 0x800_0000
  }

  function Index(v: nat, level: nat): (i: nat)
    requires 1 <= level <= 4
    ensures i < 512
  {
    v / PAGE / Pages(level) % 512
  }

  function Path(v: nat): (p: seq<nat>)
    ensures |p| == 4
  {
    [Index(v, 4), Index(v, 3), Index(v, 2), Index(v, 1)]
  }

  lemma Digits(x: nat)
    ensures x == x % 512 + 512 * (x / 0x200 % 512) + 0x4_0000 * (x / 0x4_0000 % 512) + 0x800_0000 * (x / 0x800_0000 % 512) + 0x10_0000_0000 * (x / 0x10_0000_0000)
  {
    var a, b, c, d := x / 0x200, x / 0x4_0000, x / 0x800_0000, x / 0x10_0000_0000;
    assert x == 512 * a + x % 512;
    assert b == a / 512 && a == 512 * b + a % 512;
    assert c == b / 512 && b == 512 * c + b % 512;
    assert d == c / 512 && c == 512 * d + c % 512;
  }

  /** The bits above the indices repeat bit 47. */
  lemma SignExtension(v: nat)
    requires Canonical(v)
    ensures v / PAGE / 0x10_0000_0000 == if Index(v, 4) < 256 then 0 else 0xFFFF
  {
    var x := v / PAGE;
    if v <= 0x7FFF_FFFF_FFFF {
      assert x < 0x8_0000_0000;
      assert x / 0x800_0000 < 256;
    } else {
      assert 0xF_FFF8_0000_0000 <= x <= 0xF_FFFF_FFFF_FFFF;
      assert x / 0x10_0000_0000 == 0xFFFF;
      assert x / 0x800_0000 - 512 * 0xFFFF >= 256;
      assert x / 0x800_0000 / 512 == 0xFFFF;
    }
  }

  /** Four 9-bit indices determine a canonical page. */
  lemma PathDetermines(v: nat, w: nat)
    requires Canonical(v) && Canonical(w) && Path(v) == Path(w)
    ensures v / PAGE == w / PAGE
  {
    assert Index(v, 4) == Path(v)[0] == Path(w)[0] == Index(w, 4);
    assert Index(v, 3) == Path(v)[1] == Path(w)[1] == Index(w, 3);
    assert Index(v, 2) == Path(v)[2] == Path(w)[2] == Index(w, 2);
    assert Index(v, 1) == Path(v)[3] == Path(w)[3] == Index(w, 1);
    Digits(v / PAGE);
    Digits(w / PAGE);
    SignExtension(v);
    SignExtension(w);
  }

  lemma SamePath(v: nat, w: nat)
    requires v / PAGE == w / PAGE
    ensures Path(v) == Path(w)
  {
  }

  // ---------------------------------------------------------------- walking

  /** A large page is aligned to its size, up to its PAT bit. */
  predicate HugeAligned(frame: Frame, level: nat)
    requires 2 <= level <= 3
  {
    frame % Pages(level) <= 1
  }

  predicate EntryValid(e: Entry, level: nat, limit: nat, nx: bool) {
    && e.frame < limit && (e.nx ==> nx) && !(level == 4 && e.huge)
    && (2 <= level <= 3 && e.huge ==> HugeAligned(e.frame, level))
  }

  predicate EntryOk(s: Space, e: Entry, level: nat) { EntryValid(e, level, s.limit, s.nx) }

  /** The walk stops here: nothing present, a page, or a large page. */
  predicate Stops(e: Entry, level: nat) { !e.present || level == 1 || e.huge }

  datatype Outcome =
    | Unsafe
    | Stop(at: Loc, value: Entry, level: nat, writable: bool, user: bool, nx: bool)

  function WalkFrom(s: Space, path: seq<nat>, f: Frame, level: nat, seen: set<Frame>, w: bool, u: bool, n: bool): Outcome
    requires |path| == 4 && 1 <= level <= 4
    decreases level
  {
    if f in seen || f !in s.reach then Unsafe
    else
      var i := path[4 - level];
      var e := At(s.mem, f, i);
      if e.present && !EntryOk(s, e, level) then Unsafe
      else if Stops(e, level) then Stop(Loc(f, i), e, level, w, u, n)
      else WalkFrom(s, path, e.frame, level - 1, seen + {f}, w && e.writable, u && e.user, n || e.nx)
  }

  function Walk(s: Space, v: nat): Outcome {
    if Canonical(v) then WalkFrom(s, Path(v), s.root, 4, {}, true, true, false) else Unsafe
  }

  // ---------------------------------------------------------------- translation

  datatype Answer = Refused | Absent | Mapped(physical: nat, flags: Entry, size: nat)

  /** The leaf's attributes, with what the ancestors leave of RW, USER and NX. */
  function Effective(o: Outcome): Entry
    requires o.Stop?
  {
    o.value.(frame := if o.level == 1 then 0 else o.value.frame % 2,
             writable := o.value.writable && o.writable, user := o.value.user && o.user, nx := o.value.nx || o.nx)
  }

  function Answered(o: Outcome, v: nat): Answer
    requires o.Stop? ==> 1 <= o.level <= 4
  {
    if o.Unsafe? then Refused
    else if !o.value.present then Absent
    else
      var n := Pages(o.level);
      Mapped(o.value.frame / n * n * PAGE + v % (n * PAGE), Effective(o), n * PAGE)
  }

  lemma {:induction false} WalkLevel(s: Space, path: seq<nat>, f: Frame, level: nat, seen: set<Frame>, w: bool, u: bool, n: bool)
    requires |path| == 4 && 1 <= level <= 4
    ensures var o := WalkFrom(s, path, f, level, seen, w, u, n); o.Stop? ==> 1 <= o.level <= level
    decreases level
  {
    if f !in seen && f in s.reach {
      var e := At(s.mem, f, path[4 - level]);
      if !(e.present && !EntryOk(s, e, level)) && !Stops(e, level) {
        WalkLevel(s, path, e.frame, level - 1, seen + {f}, w && e.writable, u && e.user, n || e.nx);
      }
    }
  }

  /** What `vmm_space_query` reports: the translation of `v` as this space defines it. */
  function Translate(s: Space, v: nat): Answer {
    WalkLevel(s, Path(v), s.root, 4, {}, true, true, false);
    Answered(Walk(s, v), v)
  }

  /** Two spaces translate every address alike. */
  ghost predicate SameTranslation(s: Space, t: Space) {
    forall v: nat {:trigger Translate(t, v)} :: Translate(t, v) == Translate(s, v)
  }

  /** A later walk of the same address: no right is lost or won on the way, and an absent entry is blank or as it was. */
  predicate Gentler(o: Outcome, p: Outcome) {
    p.Stop? ==>
      && o.Stop? && p.writable == o.writable && p.user == o.user && p.nx == o.nx
      && (p.value.present || p.value == Zero || p.value == o.value)
  }

  ghost predicate Gentle(s: Space, t: Space) {
    forall v: nat {:trigger Walk(t, v)} :: Gentler(Walk(s, v), Walk(t, v))
  }
}
