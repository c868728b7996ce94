/**
  Validating an executable (kernel/core/elf.c): which images are taken, and what the resulting plan guarantees.
*/
module Elf {
  import opened Octets
  import opened MemoryMap
  import opened UserVmSpec

  const FILE_LIMIT: nat := 0x10_0000
  const SEGMENT_LIMIT: nat := 16
  const STACK_TOP: nat := 0x7000_0000
  const STACK_PAGES: nat := 16
  const STACK_BASE: nat := STACK_TOP - STACK_PAGES * PAGE
  const STACK_GUARD: nat := STACK_TOP - (STACK_PAGES + 1) * PAGE
  const PAGE_BUDGET: nat := PAGE_LIMIT - STACK_PAGES

  datatype Segment = Segment(address: nat, offset: nat, fileSize: nat, memorySize: nat, pageStart: nat, pageEnd: nat, access: nat)

  datatype Plan = Plan(segments: seq<Segment>, entry: nat, pages: nat)

  /** A little-endian number of `n` bytes. */
  function Little(s: Bytes, at: nat, n: nat): nat
    requires at + n <= |s|
    decreases n
  {
    if n == 0 then 0 else s[at] as int + 256 * Little(s, at + 1, n - 1)
  }

  function Weight(n: nat): nat { if n == 0 then 1 else 256 * Weight(n - 1) }

  predicate PowerOfTwo(n: nat) { n == 1 || (n > 1 && n % 2 == 0 && PowerOfTwo(n / 2)) }

  // ---------------------------------------------------------------- headers

  /** A static 64-bit little-endian x86-64 executable whose program headers lie inside the file. */
  predicate HeaderOk(image: Bytes) {
    && 64 <= |image| <= FILE_LIMIT && image[..4] == [0x7F, 0x45, 0x4C, 0x46]
    && image[4] == 2 && image[5] == 1 && image[6] == 1 && image[7] == 0 && image[8] == 0
    && Little(image, 16, 2) == 2 && Little(image, 18, 2) == 62 && Little(image, 20, 4) == 1 && Little(image, 48, 4) == 0
    && Little(image, 52, 2) == 64 && Little(image, 54, 2) == 56
    && var offset, count := Little(image, 32, 8), Little(image, 56, 2);
       1 <= count <= SEGMENT_LIMIT && 64 <= offset <= |image| && count <= (|image| - offset) / 56
  }

  function EntryAddress(image: Bytes): nat
    requires |image| >= 64
  {
    Little(image, 24, 8)
  }

  function Count(image: Bytes): nat
    requires |image| >= 64
  {
    Little(image, 56, 2)
  }

  datatype Header = Ignore | Reject | Load(segment: Segment)

  predicate SegmentFits(size: nat, s: Segment, flags: nat, alignment: nat) {
    && 0 < s.memorySize && s.fileSize <= s.memorySize && s.offset <= size && s.fileSize <= size - s.offset
    && ValidAddress(s.address) && s.memorySize <= USER_END - s.address
    && flags <= 7 && flags / 4 == 1 && flags % 4 != 3
    && s.address % PAGE == s.offset % PAGE
    && (alignment > 1 ==> PowerOfTwo(alignment) && s.address % alignment == s.offset % alignment)
    && !(s.pageStart < STACK_TOP && s.pageEnd > STACK_GUARD)
  }

  /** One program header. */
  function ParseHeader(image: Bytes, at: nat): Header
    requires at + 56 <= |image|
  {
    var kind, flags := Little(image, at, 4), Little(image, at + 4, 4);
    if kind == 0 || kind == 4 || kind == 6 then Ignore
    else if kind == 0x6474_E551 then if flags % 2 == 1 then Reject else Ignore
    else if kind != 1 then Reject
    else
      var address, memory := Little(image, at + 16, 8), Little(image, at + 40, 8);
      var s := Segment(address, Little(image, at + 8, 8), Little(image, at + 32, 8), memory,
                       AlignDown(address), AlignDown(address + memory + PAGE - 1),
                       if flags / 2 % 2 == 1 then 1 else if flags % 2 == 1 then 2 else 0);
      if SegmentFits(|image|, s, flags, Little(image, at + 48, 8)) then Load(s) else Reject
  }

  function HeaderAt(image: Bytes, i: nat): Header
    requires HeaderOk(image) && i < Count(image)
  {
    ParseHeader(image, Little(image, 32, 8) + i * 56)
  }

  /** The segments of the first `n` headers. */
  function Loads(image: Bytes, n: nat): (r: seq<Segment>)
    requires HeaderOk(image) && n <= Count(image)
    ensures |r| <= n
  {
    if n == 0 then []
    else match HeaderAt(image, n - 1)
      case Load(s) => Loads(image, n - 1) + [s]
      case _ => Loads(image, n - 1)
  }

  function PageCount(s: Segment): nat { if s.pageStart <= s.pageEnd then (s.pageEnd - s.pageStart) / PAGE else 0 }

  predicate InFile(s: Segment, entry: nat) { s.address <= entry < s.address + s.fileSize }

  // ---------------------------------------------------------------- plans

  /** What every segment of a plan satisfies. */
  ghost predicate SegmentOk(size: nat, s: Segment) {
    && 0 < s.memorySize && s.fileSize <= s.memorySize && s.offset + s.fileSize <= size
    && Aligned(s.pageStart) && Aligned(s.pageEnd)
    && USER_MIN <= s.pageStart <= s.address && s.address + s.memorySize <= s.pageEnd <= USER_END
    && s.pageStart < s.pageEnd && ValidAccess(s.access)
    && (s.pageEnd <= STACK_GUARD || STACK_TOP <= s.pageStart)
  }

  predicate Apart(a: Segment, b: Segment) { a.pageEnd <= b.pageStart || b.pageEnd <= a.pageStart }

  ghost predicate AllApart(segments: seq<Segment>) {
    forall i, j | 0 <= i < j < |segments| :: Apart(segments[j], segments[i])
  }

  ghost predicate SegmentsOk(size: nat, segments: seq<Segment>) {
    (forall i | 0 <= i < |segments| :: SegmentOk(size, segments[i])) && AllApart(segments)
  }

  ghost function Pages(segments: seq<Segment>): nat {
    if segments == [] then 0 else Pages(segments[..|segments| - 1]) + PageCount(segments[|segments| - 1])
  }

  /** Execution starts in bytes that come from the file, in a segment that may be executed. */
  ghost predicate Enters(segments: seq<Segment>, entry: nat) {
    exists i | 0 <= i < |segments| :: segments[i].access == 2 && InFile(segments[i], entry)
  }

  /** No header asks for what the loader does not do. */
  ghost predicate NoReject(image: Bytes, n: nat)
    requires HeaderOk(image) && n <= Count(image)
  {
    forall i | 0 <= i < n :: !HeaderAt(image, i).Reject?
  }

  /** The images taken: well-formed headers, disjoint pages within the budget, and an executable entry. */
  ghost predicate Loadable(image: Bytes) {
    && HeaderOk(image) && NoReject(image, Count(image))
    && var segments := Loads(image, Count(image));
       AllApart(segments) && Pages(segments) <= PAGE_BUDGET && Enters(segments, EntryAddress(image))
  }

  /** A parsed segment satisfies what a plan promises about it. */
  lemma LoadOk(image: Bytes, at: nat)
    requires at + 56 <= |image|
    ensures ParseHeader(image, at).Load? ==> SegmentOk(|image|, ParseHeader(image, at).segment)
  {
    hide Little, PowerOfTwo;
  }

  lemma {:induction false} LoadsOk(image: Bytes, n: nat)
    requires HeaderOk(image) && n <= Count(image)
    ensures forall i | 0 <= i < |Loads(image, n)| :: SegmentOk(|image|, Loads(image, n)[i])
  {
    hide SegmentOk, ParseHeader;
    if n > 0 {
      LoadsOk(image, n - 1);
      LoadOk(image, Little(image, 32, 8) + (n - 1) * 56);
    }
  }

  /**
    What a caller gets from a plan: segments in distinct pages of the user half, clear of the stack and its guard page,
    never writable and executable at once, backed by bytes of the file, and entered through executable file bytes.
  */
  lemma PlanSound(image: Bytes)
    requires Loadable(image)
    ensures SegmentsOk(|image|, Loads(image, Count(image))) && Enters(Loads(image, Count(image)), EntryAddress(image))
    ensures 0 < |Loads(image, Count(image))| <= SEGMENT_LIMIT && Pages(Loads(image, Count(image))) + STACK_PAGES <= PAGE_LIMIT
  {
    hide SegmentOk, Little, Loads, Pages;
    LoadsOk(image, Count(image));
  }

  lemma {:induction false} LoadsPrefix(image: Bytes, i: nat, n: nat)
    requires HeaderOk(image) && i <= n <= Count(image)
    ensures Loads(image, i) <= Loads(image, n)
    decreases n
  {
    hide HeaderAt;
    if i < n { LoadsPrefix(image, i, n - 1); }
  }

  lemma {:induction false} PagesPrefix(a: seq<Segment>, b: seq<Segment>)
    requires a <= b
    ensures Pages(a) <= Pages(b)
    decreases |b|
  {
    if |a| < |b| { PagesPrefix(a, b[..|b| - 1]); } else { assert a == b; }
  }

  /** What the first headers rule out stays ruled out. */
  lemma Doomed(image: Bytes, i: nat)
    requires HeaderOk(image) && i <= Count(image)
    requires !AllApart(Loads(image, i)) || Pages(Loads(image, i)) > PAGE_BUDGET
    ensures !Loadable(image)
  {
    hide Loads, Little, Pages, Enters, NoReject, Apart;
    var n := Count(image);
    LoadsPrefix(image, i, n);
    PagesPrefix(Loads(image, i), Loads(image, n));
    var a, b := Loads(image, i), Loads(image, n);
    if AllApart(b) {
      forall p, q | 0 <= p < q < |a| ensures Apart(a[q], a[p]) { assert a[q] == b[q] && a[p] == b[p]; }
    }
  }

  // ---------------------------------------------------------------- the validator

  method ReadLittle(s: Bytes, at: nat, n: nat) returns (value: nat)
    requires at + n <= |s|
    ensures value == Little(s, at, n)
  {
    var i, weight := 0, 1;
    value := 0;
    while i < n
      invariant i <= n && value == Little(s, at, i) && weight == Weight(i)
    {
      LittleMore(s, at, i);
      value, weight := value + weight * s[at + i] as int, weight * 256;
      i := i + 1;
    }
  }

  /** One more byte is one more digit, at the top. */
  lemma {:induction false} LittleMore(s: Bytes, at: nat, n: nat)
    requires at + n < |s|
    ensures Little(s, at, n + 1) == Little(s, at, n) + Weight(n) * s[at + n] as int
    decreases n
  {
    if n > 0 {
      LittleMore(s, at + 1, n - 1);
      assert 256 * (Weight(n - 1) * s[at + n] as int) == Weight(n) * s[at + n] as int;
    }
  }

  /** Does the new segment share a page with an earlier one? */
  method Overlaps(segments: seq<Segment>, s: Segment) returns (r: bool)
    requires AllApart(segments)
    ensures r <==> !AllApart(segments + [s])
  {
    hide Apart;
    var all := segments + [s];
    var j := 0;
    while j < |segments|
      invariant j <= |segments| && forall k | 0 <= k < j :: Apart(s, segments[k])
    {
      if !Apart(s, segments[j]) {
        assert !Apart(all[|segments|], all[j]);
        return true;
      }
      j := j + 1;
    }
    forall p, q | 0 <= p < q < |all| ensures Apart(all[q], all[p]) {
      if q < |segments| { assert Apart(segments[q], segments[p]); }
    }
    r := false;
  }

  lemma PagesMore(segments: seq<Segment>, s: Segment)
    ensures Pages(segments + [s]) == Pages(segments) + PageCount(s)
  {
    assert (segments + [s])[..|segments|] == segments;
  }

  /** The state of the scan after `i` headers. */
  ghost predicate Scanned(image: Bytes, i: nat, plan: Plan, enters: bool)
    requires HeaderOk(image)
  {
    && i <= Count(image) && NoReject(image, i) && plan.segments == Loads(image, i) && plan.entry == EntryAddress(image)
    && plan.pages == Pages(plan.segments) <= PAGE_BUDGET && AllApart(plan.segments)
    && (enters <==> Enters(plan.segments, plan.entry))
  }

  /** Add one segment, unless it exceeds the page budget or shares a page. */
  method AddSegment(image: Bytes, i: nat, plan: Plan, enters: bool, s: Segment) returns (ok: bool, plan': Plan, enters': bool)
    requires HeaderOk(image) && i < Count(image) && Scanned(image, i, plan, enters) && HeaderAt(image, i) == Load(s)
    ensures ok ==> Scanned(image, i + 1, plan', enters')
    ensures !ok ==> !Loadable(image)
  {
    hide HeaderOk, HeaderAt, Pages, AllApart, PageCount, InFile, Loadable;
    ok, plan', enters' := false, plan, enters;
    PagesMore(plan.segments, s);
    assert Loads(image, i + 1) == plan.segments + [s];
    if PageCount(s) > PAGE_BUDGET - plan.pages {
      Doomed(image, i + 1);
      return;
    }
    var overlap := Overlaps(plan.segments, s);
    if overlap {
      Doomed(image, i + 1);
      return;
    }
    EntersMore(plan.segments, s, plan.entry);
    if s.access == 2 && InFile(s, plan.entry) { enters' := true; }
    plan' := plan.(segments := plan.segments + [s], pages := plan.pages + PageCount(s));
    ok := true;
  }

  lemma EntersMore(segments: seq<Segment>, s: Segment, entry: nat)
    ensures Enters(segments + [s], entry) <==> Enters(segments, entry) || (s.access == 2 && InFile(s, entry))
  {
    hide InFile;
    var all := segments + [s];
    if Enters(segments, entry) {
      var i :| 0 <= i < |segments| && segments[i].access == 2 && InFile(segments[i], entry);
      assert all[i] == segments[i];
    } else if s.access == 2 && InFile(s, entry) {
      assert all[|segments|] == s;
    }
  }

  /** An image is taken exactly when it is acceptable, and then the plan lists its loadable segments in order. */
  method Validate(image: Bytes) returns (ok: bool, plan: Plan)
    ensures ok <==> Loadable(image)
    ensures ok ==> plan == Plan(Loads(image, Count(image)), EntryAddress(image), Pages(plan.segments))
  {
    hide Little, Pages, AllApart, ParseHeader, Loads, Enters;
    ok, plan := false, Plan([], 0, 0);
    if !HeaderOk(image) { return; }
    var offset := ReadLittle(image, 32, 8);
    var count := ReadLittle(image, 56, 2);
    var entry := ReadLittle(image, 24, 8);
    plan := Plan([], entry, 0);
    var enters, i := false, 0;
    assert Scanned(image, 0, plan, false) by { NothingScanned(image); }
    while i < count
      invariant i <= count && Scanned(image, i, plan, enters)
    {
      var h := ParseHeader(image, offset + i * 56);
      assert h == HeaderAt(image, i);
      if h.Reject? { return; }
      if h.Load? {
        var added;
        added, plan, enters := AddSegment(image, i, plan, enters, h.segment);
        if !added { return; }
      } else {
        assert Loads(image, i + 1) == Loads(image, i) by { LoadsSkip(image, i); }
      }
      i := i + 1;
    }
    if !enters || plan.segments == [] { return; }
    ok := true;
  }

  lemma NothingScanned(image: Bytes)
    requires HeaderOk(image)
    ensures Scanned(image, 0, Plan([], EntryAddress(image), 0), false)
  {
  }

  lemma LoadsSkip(image: Bytes, i: nat)
    requires HeaderOk(image) && i < Count(image) && !HeaderAt(image, i).Load?
    ensures Loads(image, i + 1) == Loads(image, i)
  {
  }
}
