/**
  Executables from the writer's side: which bytes make a file header and a program header, and what a loaded segment owes
  to the header it comes from.
*/
module ElfFormat {
  import opened Octets
  import opened MemoryMap
  import opened UserVmSpec
  import opened Elf

  // ---------------------------------------------------------------- numbers

  /** A number reads back as written, and only as that. */
  lemma {:induction false} NumberReads(s: Bytes, at: nat, v: nat, n: nat)
    requires at + n <= |s| && v < Weight(n)
    ensures Has(s, at, Number(v, n)) <==> Little(s, at, n) == v
    decreases n
  {
    if n > 0 {
      NumberReads(s, at + 1, v / 256, n - 1);
      HasSlice(s, at, Number(v, n));
      HasSlice(s, at + 1, Number(v / 256, n - 1));
      assert s[at..at + n] == [s[at]] + s[at + 1..at + n];
      assert Number(v, n)[1..] == Number(v / 256, n - 1) && s[at..at + n][1..] == s[at + 1..at + n];
      var rest := Little(s, at + 1, n - 1);
      assert (s[at] as int + 256 * rest) / 256 == rest && (s[at] as int + 256 * rest) % 256 == s[at];
    }
  }

  lemma Weights()
    ensures Weight(2) == 0x1_0000 && Weight(4) == 0x1_0000_0000 && Weight(8) == 0x1_0000_0000_0000_0000
  {
    assert Weight(3) == 0x100_0000;
    assert Weight(6) == 0x1_0000_0000_0000;
  }

  // ---------------------------------------------------------------- the file header

  /** A static x86-64 executable with `count` program headers from `offset` on. */
  predicate FileHas(image: Bytes, entry: nat, offset: nat, count: nat) {
    && |image| >= 64 && Has(image, 0, [0x7F] + Ascii("ELF") + [2, 1, 1, 0, 0])
    && Has(image, 16, Number(2, 2)) && Has(image, 18, Number(62, 2)) && Has(image, 20, Number(1, 4))
    && Has(image, 24, Number(entry, 8)) && Has(image, 32, Number(offset, 8)) && Has(image, 48, Number(0, 4))
    && Has(image, 52, Number(64, 2)) && Has(image, 54, Number(56, 2)) && Has(image, 56, Number(count, 2))
  }

  function Ascii(s: string): (b: Bytes)
    ensures |b| == |s|
  {
    seq(|s|, i requires 0 <= i < |s| => s[i] as int % 256)
  }

  /** The files whose header is taken: of permitted size, with one to sixteen program headers behind the file header and inside the file. */
  lemma FileTaken(image: Bytes, entry: nat, offset: nat, count: nat)
    requires FileHas(image, entry, offset, count) && entry < Weight(8) && offset < Weight(8) && count < Weight(2)
    ensures HeaderOk(image) <==> |image| <= 0x10_0000 && 1 <= count <= 16 && 64 <= offset && offset + 56 * count <= |image|
    ensures EntryAddress(image) == entry && Count(image) == count && Little(image, 32, 8) == offset
  {
    hide Little, Weight, Number;
    Weights();
    var magic := [0x7F] + Ascii("ELF") + [2, 1, 1, 0, 0];
    assert magic == [0x7F, 0x45, 0x4C, 0x46, 2, 1, 1, 0, 0];
    assert image[..9] == magic && image[..9][..4] == image[..4];
    assert forall i | 0 <= i < 9 :: image[i] == magic[i];
    NumberReads(image, 16, 2, 2);
    NumberReads(image, 18, 62, 2);
    NumberReads(image, 20, 1, 4);
    NumberReads(image, 24, entry, 8);
    NumberReads(image, 32, offset, 8);
    NumberReads(image, 48, 0, 4);
    NumberReads(image, 52, 64, 2);
    NumberReads(image, 54, 56, 2);
    NumberReads(image, 56, count, 2);
  }

  // ---------------------------------------------------------------- program headers

  const EXECUTE: nat := 1
  const WRITE: nat := 2
  const READ: nat := 4

  /** One program header: its kind, its flags, where its bytes are in the file and in memory, and its alignment. */
  datatype Request = Request(kind: nat, flags: nat, offset: nat, address: nat, fileSize: nat, memorySize: nat, alignment: nat)

  predicate InWords(p: Request) {
    && p.kind < Weight(4) && p.flags < Weight(4) && p.offset < Weight(8) && p.address < Weight(8)
    && p.fileSize < Weight(8) && p.memorySize < Weight(8) && p.alignment < Weight(8)
  }

  predicate ProgramHas(image: Bytes, at: nat, p: Request) {
    && at + 56 <= |image| && Has(image, at, Number(p.kind, 4)) && Has(image, at + 4, Number(p.flags, 4)) && Has(image, at + 8, Number(p.offset, 8))
    && Has(image, at + 16, Number(p.address, 8)) && Has(image, at + 32, Number(p.fileSize, 8)) && Has(image, at + 40, Number(p.memorySize, 8))
    && Has(image, at + 48, Number(p.alignment, 8))
  }

  ghost function Power(k: nat): nat { if k == 0 then 1 else 2 * Power(k - 1) }

  ghost predicate IsPower(n: nat) { exists k: nat :: n == Power(k) }

  /** Powers of two are what doubling reaches. */
  lemma {:induction false} PowersOfTwo(n: nat)
    ensures PowerOfTwo(n) <==> IsPower(n)
    decreases n
  {
    if n == 1 {
      assert n == Power(0);
    } else if n > 1 && n % 2 == 0 {
      PowersOfTwo(n / 2);
      if PowerOfTwo(n / 2) {
        var k: nat :| n / 2 == Power(k);
        assert n == Power(k + 1);
      }
      forall k: nat | n == Power(k) ensures PowerOfTwo(n / 2) { assert n / 2 == Power(k - 1); }
    } else {
      forall k: nat ensures n != Power(k) { PowerShape(k); }
    }
  }

  lemma {:induction false} PowerShape(k: nat)
    ensures Power(k) == 1 || (Power(k) > 1 && Power(k) % 2 == 0)
  {
    if k > 0 {
      PowerShape(k - 1);
      var h := Power(k - 1);
      assert Power(k) == 2 * h;
    }
  }

  /** The bytes are in the file, the memory is the user's, never writable and executable, page-congruent, and clear of the stack and its guard. */
  ghost predicate Acceptable(p: Request, size: nat) {
    && 0 < p.memorySize && p.fileSize <= p.memorySize && p.offset + p.fileSize <= size
    && USER_MIN <= p.address && p.address + p.memorySize <= USER_END
    && p.flags in {READ, READ + EXECUTE, READ + WRITE}
    && p.address % PAGE == p.offset % PAGE
    && (p.alignment > 1 ==> IsPower(p.alignment) && p.address % p.alignment == p.offset % p.alignment)
    && ClearOfStack(p.address, p.memorySize)
  }

  /** No byte of the range lies in a page of the stack or its guard. */
  ghost predicate ClearOfStack(address: nat, bytes: nat) {
    forall x {:trigger AlignDown(x)} | address <= x < address + bytes :: !(STACK_GUARD <= AlignDown(x) < STACK_TOP)
  }

  /** A segment of the image: the header's bytes and addresses, the whole pages that hold it, and exactly the rights it asks for. */
  ghost predicate Granted(s: Segment, p: Request) {
    && s.address == p.address && s.offset == p.offset && s.fileSize == p.fileSize && s.memorySize == p.memorySize
    && Aligned(s.pageStart) && Aligned(s.pageEnd) && s.pageStart <= p.address < s.pageStart + PAGE
    && s.pageEnd - PAGE < p.address + p.memorySize <= s.pageEnd
    && s.access == (if p.flags == READ + WRITE then 1 else if p.flags == READ + EXECUTE then 2 else 0)
    && (AccessFlags(s.access).writable <==> p.flags / WRITE % 2 == 1) && (!AccessFlags(s.access).nx <==> p.flags / EXECUTE % 2 == 1)
  }

  lemma FieldsRead(image: Bytes, at: nat, p: Request)
    requires InWords(p) && ProgramHas(image, at, p)
    ensures Little(image, at, 4) == p.kind && Little(image, at + 4, 4) == p.flags && Little(image, at + 8, 8) == p.offset
    ensures Little(image, at + 16, 8) == p.address && Little(image, at + 32, 8) == p.fileSize && Little(image, at + 40, 8) == p.memorySize
    ensures Little(image, at + 48, 8) == p.alignment
  {
    hide Little, Weight, Number;
    NumberReads(image, at, p.kind, 4);
    NumberReads(image, at + 4, p.flags, 4);
    NumberReads(image, at + 8, p.offset, 8);
    NumberReads(image, at + 16, p.address, 8);
    NumberReads(image, at + 32, p.fileSize, 8);
    NumberReads(image, at + 40, p.memorySize, 8);
    NumberReads(image, at + 48, p.alignment, 8);
  }

  lemma PagesInOrder(x: nat, y: nat)
    requires x <= y
    ensures AlignDown(x) <= AlignDown(y) && (Aligned(x) ==> AlignDown(x) == x)
  {
    hide AlignDown;
    assert AlignDown(x) == AlignDown(x) / PAGE * PAGE && AlignDown(y) == AlignDown(y) / PAGE * PAGE;
  }

  /** A range of bytes misses the stack and its guard page exactly when its pages do. */
  lemma ClearByPages(address: nat, bytes: nat)
    requires 0 < bytes
    ensures ClearOfStack(address, bytes) <==> !(AlignDown(address) < STACK_TOP && AlignDown(address + bytes + PAGE - 1) > STACK_GUARD)
  {
    hide AlignDown;
    var first, end := AlignDown(address), AlignDown(address + bytes + PAGE - 1);
    if first < STACK_TOP && end > STACK_GUARD {
      var x := if address < STACK_GUARD then STACK_GUARD else address;
      PagesInOrder(address, x);
      PagesInOrder(STACK_GUARD, x);
      assert STACK_GUARD <= AlignDown(x) < STACK_TOP;
    } else {
      forall x {:trigger AlignDown(x)} | address <= x < address + bytes ensures !(STACK_GUARD <= AlignDown(x) < STACK_TOP) {
        PagesInOrder(address, x);
        PagesInOrder(x, address + bytes - 1);
        PagesInOrder(AlignDown(x) + PAGE, address + bytes + PAGE - 1);
        assert first <= AlignDown(x) && AlignDown(x) + PAGE <= end;
      }
    }
  }

  lemma FlagsAllowed(flags: nat)
    ensures flags <= 7 && flags / 4 == 1 && flags % 4 != 3 <==> flags in {READ, READ + EXECUTE, READ + WRITE}
  {
  }

  /** The four kinds that carry nothing to load are passed over, unless a stack header asks for an executable stack; any other kind is refused. */
  lemma OtherKinds(image: Bytes, at: nat, p: Request)
    requires InWords(p) && ProgramHas(image, at, p) && p.kind != 1
    ensures ParseHeader(image, at) ==
      if p.kind in {0, 4, 6} || (p.kind == 0x6474_E551 && p.flags / EXECUTE % 2 == 0) then Ignore else Reject
  {
    hide Little;
    FieldsRead(image, at, p);
  }

  /** A loadable header is taken exactly when it is acceptable, and then gives the segment it describes. */
  lemma LoadGranted(image: Bytes, at: nat, p: Request)
    requires InWords(p) && ProgramHas(image, at, p) && p.kind == 1
    ensures ParseHeader(image, at).Load? <==> Acceptable(p, |image|)
    ensures ParseHeader(image, at).Load? ==> Granted(ParseHeader(image, at).segment, p)
    ensures !ParseHeader(image, at).Load? ==> ParseHeader(image, at) == Reject
  {
    hide Little, Weight, ProgramHas, SegmentFits, Acceptable, Granted, AlignDown;
    FieldsRead(image, at, p);
    FitsAcceptable(p, |image|);
    if Acceptable(p, |image|) { PlannedGranted(p, |image|); }
  }

  /** The segment a header describes. */
  function Planned(p: Request): Segment {
    Segment(p.address, p.offset, p.fileSize, p.memorySize, AlignDown(p.address), AlignDown(p.address + p.memorySize + PAGE - 1),
            if p.flags / WRITE % 2 == 1 then 1 else if p.flags / EXECUTE % 2 == 1 then 2 else 0)
  }

  lemma FitsAcceptable(p: Request, size: nat)
    ensures SegmentFits(size, Planned(p), p.flags, p.alignment) <==> Acceptable(p, size)
  {
    hide AlignDown, ClearOfStack, PowerOfTwo, IsPower;
    FlagsAllowed(p.flags);
    PowersOfTwo(p.alignment);
    if 0 < p.memorySize { ClearByPages(p.address, p.memorySize); }
  }

  lemma PlannedGranted(p: Request, size: nat)
    requires Acceptable(p, size)
    ensures Granted(Planned(p), p)
  {
    hide ClearOfStack, IsPower;
  }

  // ---------------------------------------------------------------- all of them

  /** The plan lists the segments of the loadable headers, every one of them, in the order of the headers. */
  lemma {:induction false} LoadsInOrder(image: Bytes, n: nat) returns (at: seq<nat>)
    requires HeaderOk(image) && n <= Count(image)
    ensures |at| == |Loads(image, n)| && (forall k | 0 <= k < |at| :: at[k] < n && HeaderAt(image, at[k]) == Load(Loads(image, n)[k]))
    ensures (forall j, k | 0 <= j < k < |at| :: at[j] < at[k]) && forall i | 0 <= i < n && HeaderAt(image, i).Load? :: i in at
  {
    hide HeaderAt, HeaderOk, Count;
    at := [];
    if n > 0 {
      at := LoadsInOrder(image, n - 1);
      if HeaderAt(image, n - 1).Load? {
        at := at + [n - 1];
        assert at[|at| - 1] == n - 1;
      }
    }
  }
}
