/**
  What a process address space promises (kernel/memory/user_vm.c): a lower-half page is mapped exactly when the page
  ledger lists it, to the frame listed there, user accessible and never both writable and executable.
*/
module UserVmSpec {
  import opened MemoryMap
  import opened PageTable
  import opened VmmCore
  import opened TableLedger
  import L = FrameLedger

  const PAGE_LIMIT: nat := 128
  const USER_MIN: nat := 0x10000
  const USER_END: nat := 0x8000_0000_0000
  const COPY_LIMIT: nat := 65536
  const COPY_CHUNKS: nat := COPY_LIMIT / PAGE + 1

  /** Each slot holds a frame and the address of the page it backs. */
  type Pages = seq<L.Slot<nat>>

  predicate ValidAddress(v: nat) { USER_MIN <= v < USER_END }

  /** 0 reads, 1 writes, 2 executes; both at once is rejected. */
  predicate ValidAccess(access: nat) { access <= 2 }

  function AccessFlags(access: nat): Entry {
    Zero.(present := true, user := true, writable := access == 1, nx := access != 2)
  }

  /** Present, user, W^X, and nothing but the leaf bits a process page may show. */
  predicate UserFlags(e: Entry) {
    && e.present && e.user && !(e.writable && !e.nx)
    && !e.writeThrough && !e.cacheDisable && !e.huge && !e.global && e.frame == 0 && e.low == 0 && e.high == 0
  }

  predicate Listed(pages: Pages, page: nat) { exists i | 0 <= i < |pages| :: pages[i].Taken? && pages[i].tag == page }

  predicate ListedAs(pages: Pages, page: nat, f: Frame) { exists i | 0 <= i < |pages| :: pages[i] == L.Taken(f, page) }

  /** The translation of one lower-half address is what the ledger says. */
  ghost predicate Consistent(a: Answer, pages: Pages, x: nat) {
    match a
    case Refused => false
    case Absent => !Listed(pages, AlignDown(x))
    case Mapped(physical, flags, size) =>
      size == PAGE && UserFlags(flags) && physical % PAGE == x % PAGE && ListedAs(pages, AlignDown(x), physical / PAGE)
  }

  ghost predicate Agrees(s: Space, pages: Pages) {
    forall x: nat {:trigger Translate(s, x)} | x < USER_END :: Consistent(Translate(s, x), pages, x)
  }

  /** On the way to a user page nothing is restricted, and where a page is absent its entry is blank. */
  ghost predicate Open(s: Space) {
    forall x: nat {:trigger Walk(s, x)} | x < USER_END :: Opened(Walk(s, x))
  }

  predicate Opened(o: Outcome) {
    o.Stop? ==> o.writable && o.user && !o.nx && (o.value.present || o.value == Zero)
  }

  lemma OpenGentle(s: Space, t: Space)
    requires Open(s) && Gentle(s, t)
    ensures Open(t)
  {
    hide Walk;
    forall x: nat {:trigger Walk(t, x)} | x < USER_END ensures Opened(Walk(t, x)) {
      assert Opened(Walk(s, x)) && Gentler(Walk(s, x), Walk(t, x));
    }
  }

  /** Too few table slots or frames for a page that lacks `missing` tables, or a frame it could not use. */
  ghost predicate Short(missing: int, limit: nat, hidden: set<Frame>, count: nat, free: set<Frame>) {
    count + missing > TABLE_LIMIT || |free| < missing + 1 || exists f | f in free :: f >= limit || f in hidden
  }

  /** How many tables a page still needs. */
  ghost function Missing(s: Space, virt: nat): int { if Walk(s, virt).Stop? then Walk(s, virt).level - 1 else 0 }

  lemma ShortTables(missing: nat, limit: nat, hidden: set<Frame>, count: nat, free: set<Frame>, f: Frame)
    requires f in free && Scarce(missing, limit, hidden, count, free - {f})
    ensures Short(missing, limit, hidden, count, free)
  {
  }

  ghost predicate TagOk(pages: Pages, i: nat)
    requires i < |pages|
  {
    pages[i].Taken? ==>
      && Aligned(pages[i].tag) && ValidAddress(pages[i].tag)
      && forall j | i < j < |pages| && pages[j].Taken? :: pages[j].tag != pages[i].tag
  }

  /** Every listed page is a user page, listed once, in its own frame. */
  ghost predicate PagesOk(pages: Pages) {
    && |pages| == PAGE_LIMIT && L.Distinct(pages)
    && forall i {:trigger TagOk(pages, i)} | 0 <= i < |pages| :: TagOk(pages, i)
  }

  // ---------------------------------------------------------------- the audit

  /** The first slot that lists a page, or the length. */
  function SlotOf(pages: Pages, page: nat): (i: nat)
    ensures i <= |pages| && (i < |pages| <==> Listed(pages, page)) && (i < |pages| ==> pages[i].Taken? && pages[i].tag == page)
    ensures forall j | 0 <= j < i && pages[j].Taken? :: pages[j].tag != page
  {
    if pages == [] then 0
    else
      var n := |pages| - 1;
      var i := SlotOf(pages[..n], page);
      if i < n || (pages[n].Taken? && pages[n].tag == page) then i else |pages|
  }

  /** What a query answers on any state: the translation, if the ledger and the allocator agree with it. */
  ghost function Locked(v: Space, pages: Pages, held: set<Frame>, virt: nat): Answer {
    if !ValidAddress(virt) then Refused
    else
      var a, i := Translate(v, virt), SlotOf(pages, AlignDown(virt));
      match a
      case Refused => Refused
      case Absent => if i < |pages| then Refused else Absent
      case Mapped(physical, flags, size) =>
        if i < |pages| && size == PAGE && AlignDown(physical) / PAGE == pages[i].frame && pages[i].frame in held && UserFlags(flags) then a else Refused
  }

  /** A table slot passes: its frame is published, held, and in no earlier slot. */
  ghost predicate TableAudited(slots: seq<L.Slot<bool>>, held: set<Frame>, i: nat)
    requires i < |slots|
  {
    slots[i].Taken? ==> slots[i].tag && slots[i].frame in held && forall j | 0 <= j < i && slots[j].Taken? :: slots[j].frame != slots[i].frame
  }

  /** A page slot passes: its page is mapped to its frame, which is no table, and neither occurs in an earlier slot. */
  ghost predicate PageAudited(v: Space, pages: Pages, slots: seq<L.Slot<bool>>, held: set<Frame>, i: nat)
    requires i < |pages|
  {
    pages[i].Taken? ==>
      && Aligned(pages[i].tag) && pages[i].frame !in L.Owned(slots)
      && Locked(v, pages, held, pages[i].tag).Mapped? && Locked(v, pages, held, pages[i].tag).physical == pages[i].frame * PAGE
      && forall j | 0 <= j < i && pages[j].Taken? :: pages[j].frame != pages[i].frame && pages[j].tag != pages[i].tag
  }

  ghost predicate TablesAudited(slots: seq<L.Slot<bool>>, held: set<Frame>, count: nat) {
    (forall i {:trigger TableAudited(slots, held, i)} | 0 <= i < |slots| :: TableAudited(slots, held, i)) && L.Count(slots) == count
  }

  ghost predicate PagesAudited(v: Space, pages: Pages, slots: seq<L.Slot<bool>>, held: set<Frame>, pageCount: nat) {
    && (forall i {:trigger PageAudited(v, pages, slots, held, i)} | 0 <= i < |pages| :: PageAudited(v, pages, slots, held, i))
    && L.Count(pages) == pageCount
  }

  /** Ledgers that pass can be released: distinct frames, all held, no frame both data and table. */
  lemma AuditSound(v: Space, pages: Pages, slots: seq<L.Slot<bool>>, held: set<Frame>, count: nat, pageCount: nat)
    requires TablesAudited(slots, held, count) && PagesAudited(v, pages, slots, held, pageCount)
    ensures L.Distinct(slots) && L.Owned(slots) <= held && count == |L.Owned(slots)|
    ensures L.Distinct(pages) && L.Owned(pages) <= held && L.Owned(pages) !! L.Owned(slots) && pageCount == |L.Owned(pages)|
  {
    hide Translate, UserFlags;
    forall i, j | 0 <= i < j < |slots| && slots[i].Taken? && slots[j].Taken? ensures slots[i].frame != slots[j].frame {
      assert TableAudited(slots, held, j);
    }
    L.DistinctFrom(slots);
    L.CountOwned(slots);
    forall i | 0 <= i < |slots| && slots[i].Taken? ensures slots[i].frame in held { assert TableAudited(slots, held, i); }
    forall i, j | 0 <= i < j < |pages| && pages[i].Taken? && pages[j].Taken? ensures pages[i].frame != pages[j].frame {
      assert PageAudited(v, pages, slots, held, j);
    }
    L.DistinctFrom(pages);
    L.CountOwned(pages);
    forall i | 0 <= i < |pages| && pages[i].Taken? ensures pages[i].frame in held && pages[i].frame !in L.Owned(slots) {
      assert PageAudited(v, pages, slots, held, i);
      assert AlignDown(pages[i].frame * PAGE) / PAGE == pages[i].frame;
    }
  }

  // ---------------------------------------------------------------- arithmetic

  lemma SamePage(x: nat, virt: nat)
    requires Aligned(virt)
    ensures x / PAGE == virt / PAGE <==> AlignDown(x) == virt
    ensures AlignDown(x) / PAGE == x / PAGE && AlignDown(x) + x % PAGE == x
  {
  }

  lemma PlusOffset(phys: nat, x: nat)
    requires Aligned(phys)
    ensures (phys + x % PAGE) % PAGE == x % PAGE && (phys + x % PAGE) / PAGE == phys / PAGE
  {
  }

  // ---------------------------------------------------------------- the ledger follows the tables

  lemma AgreesSame(s: Space, t: Space, pages: Pages)
    requires Agrees(s, pages) && SameTranslation(s, t)
    ensures Agrees(t, pages)
  {
    hide Consistent, Translate;
    forall x: nat {:trigger Translate(t, x)} | x < USER_END ensures Consistent(Translate(t, x), pages, x) {
      assert Consistent(Translate(s, x), pages, x);
    }
  }

  /** Listing another page changes nothing for the other pages. */
  lemma ListedElsewhere(pages: Pages, i: nat, slot: L.Slot<nat>, a: Answer, x: nat)
    requires i < |pages| && Consistent(a, pages, x)
    requires pages[i].Taken? ==> pages[i].tag != AlignDown(x)
    requires slot.Taken? ==> slot.tag != AlignDown(x)
    ensures Consistent(a, pages[i := slot], x)
  {
    var r := pages[i := slot];
    if a.Mapped? {
      var j :| 0 <= j < |pages| && pages[j] == L.Taken(a.physical / PAGE, AlignDown(x));
      assert r[j] == pages[j];
    }
  }

  lemma AgreesMap(s: Space, t: Space, pages: Pages, i: nat, virt: nat, phys: nat, flags: Entry)
    requires Agrees(s, pages) && Remaps(s, t, virt, phys, flags) && i < |pages| && pages[i].Vacant?
    requires Aligned(virt) && Aligned(phys) && ValidAddress(virt) && UserFlags(flags)
    ensures Agrees(t, pages[i := L.Taken(phys / PAGE, virt)])
  {
    hide Translate;
    var r := pages[i := L.Taken(phys / PAGE, virt)];
    forall x: nat {:trigger Translate(t, x)} | x < USER_END ensures Consistent(Translate(t, x), r, x) {
      SamePage(x, virt);
      if x / PAGE == virt / PAGE {
        PlusOffset(phys, x);
        assert r[i] == L.Taken(phys / PAGE, virt);
      } else {
        ListedElsewhere(pages, i, L.Taken(phys / PAGE, virt), Translate(s, x), x);
      }
    }
  }

  lemma OnlySlot(pages: Pages, i: nat, j: nat)
    requires PagesOk(pages) && i < |pages| && j < |pages| && pages[i].Taken? && pages[j].Taken? && pages[i].tag == pages[j].tag
    ensures i == j
  {
    assert TagOk(pages, i) && TagOk(pages, j);
  }

  lemma AgreesUnmap(s: Space, t: Space, pages: Pages, i: nat, virt: nat)
    requires Agrees(s, pages) && PagesOk(pages) && Erases(s, t, virt) && i < |pages| && pages[i].Taken? && pages[i].tag == virt
    ensures Agrees(t, pages[i := L.Vacant])
  {
    hide Translate, L.Distinct;
    var r := pages[i := L.Vacant];
    assert TagOk(pages, i);
    forall x: nat {:trigger Translate(t, x)} | x < USER_END ensures Consistent(Translate(t, x), r, x) {
      SamePage(x, virt);
      if x / PAGE == virt / PAGE {
        forall j | 0 <= j < |r| && r[j].Taken? ensures r[j].tag != virt { if pages[j].tag == virt { OnlySlot(pages, i, j); } }
      } else {
        ListedElsewhere(pages, i, L.Vacant, Translate(s, x), x);
      }
    }
  }

  lemma PermittedUser(e: Entry, access: nat)
    requires UserFlags(e)
    ensures UserFlags(Permitted(e, AccessFlags(access)))
  {
  }

  lemma AgreesProtect(s: Space, t: Space, pages: Pages, virt: nat, access: nat)
    requires Agrees(s, pages) && Reprotects(s, t, virt, AccessFlags(access))
    ensures Agrees(t, pages)
  {
    hide Translate, UserFlags, Permitted, Canonical;
    forall x: nat {:trigger Translate(t, x)} | x < USER_END ensures Consistent(Translate(t, x), pages, x) {
      assert Consistent(Translate(s, x), pages, x);
      if Translate(s, x).Mapped? { PermittedUser(Translate(s, x).flags, access); }
    }
  }

  lemma PagesFill(pages: Pages, i: nat, f: Frame, virt: nat)
    requires PagesOk(pages) && i < |pages| && pages[i].Vacant? && f !in L.Owned(pages)
    requires Aligned(virt) && ValidAddress(virt) && !Listed(pages, virt)
    ensures PagesOk(pages[i := L.Taken(f, virt)]) && L.Owned(pages[i := L.Taken(f, virt)]) == L.Owned(pages) + {f}
  {
    L.Fill(pages, i, f, virt);
    hide L.Distinct, L.Owned;
    var r := pages[i := L.Taken(f, virt)];
    forall j {:trigger TagOk(r, j)} | 0 <= j < |r| ensures TagOk(r, j) { assert TagOk(pages, j); }
  }

  lemma PagesVacate(pages: Pages, i: nat)
    requires PagesOk(pages) && i < |pages| && pages[i].Taken?
    ensures PagesOk(pages[i := L.Vacant]) && L.Owned(pages[i := L.Vacant]) == L.Owned(pages) - {pages[i].frame}
  {
    L.Vacate(pages, i);
    hide L.Distinct, L.Owned;
    var r := pages[i := L.Vacant];
    forall j {:trigger TagOk(r, j)} | 0 <= j < |r| ensures TagOk(r, j) { assert TagOk(pages, j); }
  }

  // ---------------------------------------------------------------- who owns which frame

  /** Data frames and table frames are apart, allocated, and the data frames have an alias. */
  ghost predicate Books(data: set<Frame>, tables: set<Frame>, hidden: set<Frame>, eligible: set<Frame>, free: set<Frame>) {
    data !! tables && data !! hidden && data <= eligible - free && free <= eligible
  }

  /** Frames leave the allocator for the tables. */
  lemma BooksTables(data: set<Frame>, tables: set<Frame>, tables': set<Frame>, hidden: set<Frame>, eligible: set<Frame>,
                    free: set<Frame>, free': set<Frame>)
    requires Books(data, tables, hidden, eligible, free) && tables <= tables' <= tables + free && free' == free - tables'
    ensures Books(data, tables', hidden, eligible, free')
  {
  }

  /** A frame leaves the allocator. */
  lemma BooksRoot(f: Frame, hidden: set<Frame>, eligible: set<Frame>, free: set<Frame>)
    requires f in eligible - free && free <= eligible
    ensures Books({}, {f}, hidden, eligible, free)
  {
  }

  lemma BooksTake(data: set<Frame>, tables: set<Frame>, hidden: set<Frame>, eligible: set<Frame>, free: set<Frame>, f: Frame)
    requires Books(data, tables, hidden, eligible, free) && tables <= eligible - free && f in free
    ensures Books(data, tables, hidden, eligible, free - {f}) && f !in data && f !in tables
    ensures tables <= eligible - (free - {f}) && f in eligible
  {
  }

  lemma BooksEnter(data: set<Frame>, tables: set<Frame>, hidden: set<Frame>, eligible: set<Frame>, free: set<Frame>, f: Frame)
    requires Books(data, tables, hidden, eligible, free) && f in eligible - free && f !in tables && f !in hidden
    ensures Books(data + {f}, tables, hidden, eligible, free)
  {
  }

  lemma GainSets(data: set<Frame>, tables: set<Frame>, tables': set<Frame>, free: set<Frame>, left: set<Frame>, f: Frame)
    requires tables <= tables' <= tables + (free - {f}) && left == free - {f} - tables' && f in free && free !! data
    ensures data + tables <= (data + {f}) + tables' <= data + tables + free && left == free - ((data + {f}) + tables')
  {
  }

  lemma BooksOwned(data: set<Frame>, tables: set<Frame>, hidden: set<Frame>, eligible: set<Frame>, free: set<Frame>, f: Frame)
    requires Books(data, tables, hidden, eligible, free) && f in data
    ensures f in eligible - free && f !in tables && f !in hidden
  {
  }

  lemma BooksReturn(data: set<Frame>, tables: set<Frame>, hidden: set<Frame>, eligible: set<Frame>, free: set<Frame>, f: Frame)
    requires Books(data, tables, hidden, eligible, free) && tables <= eligible - free && f in eligible && f !in tables
    ensures Books(data - {f}, tables, hidden, eligible, free + {f}) && tables <= eligible - (free + {f})
  {
  }
}
