/**
  A process as it sees itself: at every user address either nothing, or a byte with rights. The operations of
  kernel/memory/user_vm.c act on this picture.
*/
module UserCells {
  import opened Octets
  import opened MemoryMap
  import opened PageTable
  import opened VmmCore
  import opened UserVmSpec
  import opened UserCopySpec
  import opened UserVm
  import L = FrameLedger

  datatype Cell = Hole | Cell(flags: PageTable.Entry, byte: Octet)

  /** What a process finds at an address: its rights and its byte, or nothing. */
  ghost function CellOf(v: Space, ram: Ram, x: nat): Cell {
    if Translate(v, x).Mapped? then Cell(Translate(v, x).flags, UserByte(v, ram, x)) else Hole
  }

  lemma InPage(va: nat, x: nat)
    requires Aligned(va)
    ensures x / PAGE == va / PAGE <==> va <= x < va + PAGE
  {
  }

  /** A page gained shows as zeros with the rights asked for; all else is as before. */
  lemma GainedCell(v: Space, t: Space, pages: Pages, va: nat, access: nat, f: Frame, ram0: Ram, ram: Ram, x: nat)
    requires Agrees(v, pages) && f !in L.Owned(pages) && x < USER_END && Translate(v, va) == Absent && Aligned(va)
    requires Remaps(v, t, va, f * PAGE, AccessFlags(access)) && RamZero(ram, f) && RamSame(ram0, ram, {f})
    ensures CellOf(t, ram, x) == if va <= x < va + PAGE then Cell(AccessFlags(access), 0) else CellOf(v, ram0, x)
  {
    hide Translate, Agrees, UserByte, RamZero, RamSame, AccessFlags;
    InPage(va, x);
    LowerIndex(x);
    GainedBytes(v, t, pages, va, access, f, ram0, ram, x);
  }

  lemma WrittenCell(v: Space, ram0: Ram, ram: Ram, virt: nat, data: Bytes, x: nat)
    requires Written(v, ram0, ram, virt, data, |data|) && x < USER_END
    ensures CellOf(v, ram, x) ==
      if CellOf(v, ram0, x).Cell? && virt <= x < virt + |data| then CellOf(v, ram0, x).(byte := data[x - virt]) else CellOf(v, ram0, x)
  {
    hide Translate, UserByte;
  }

  lemma ClosedCell(v: Space, t: Space, ram: Ram, va: nat, access: nat, x: nat)
    requires Reprotects(v, t, va, AccessFlags(access)) && x < USER_END && Aligned(va)
    ensures CellOf(t, ram, x) ==
      if va <= x < va + PAGE && CellOf(v, ram, x).Cell? then CellOf(v, ram, x).(flags := Permitted(CellOf(v, ram, x).flags, AccessFlags(access)))
      else CellOf(v, ram, x)
  {
    hide Translate, Permitted, AccessFlags;
    InPage(va, x);
    LowerIndex(x);
  }

  lemma Regranted(access: nat)
    ensures Permitted(AccessFlags(1), AccessFlags(access)) == AccessFlags(access)
  {
  }

  /** The page of `virt` is gone; all else is as before. */
  lemma ErasedCell(v: Space, t: Space, ram: Ram, va: nat, x: nat)
    requires Erases(v, t, va) && x < USER_END && Aligned(va)
    ensures CellOf(t, ram, x) == if va <= x < va + PAGE then Hole else CellOf(v, ram, x)
  {
    hide Translate;
    InPage(va, x);
    LowerIndex(x);
  }

  /** Bytes change in free frames only, and no page is in a free frame. */
  lemma UnmovedCell(v: Space, t: Space, pages: Pages, ram0: Ram, ram: Ram, free: set<Frame>, x: nat)
    requires SameTranslation(v, t) && Agrees(v, pages) && RamSame(ram0, ram, free) && free !! L.Owned(pages) && x < USER_END
    ensures CellOf(t, ram, x) == CellOf(v, ram0, x)
  {
    hide Translate;
    assert Consistent(Translate(v, x), pages, x);
  }

  /** What a copy demands, said of the picture. */
  ghost predicate CellsAllow(v: Space, ram: Ram, virt: nat, bytes: nat, write: bool) {
    && bytes <= COPY_LIMIT
    && (bytes == 0 || (ValidAddress(virt) && bytes <= USER_END - virt && forall x: nat {:trigger CellOf(v, ram, x)} | virt <= x < virt + bytes ::
          CellOf(v, ram, x).Cell? && (write ==> CellOf(v, ram, x).flags.writable)))
  }

  lemma GuardIsCells(v: Space, ram: Ram, virt: nat, bytes: nat, write: bool)
    ensures CopyGuard(v, virt, bytes, write) <==> CellsAllow(v, ram, virt, bytes, write)
  {
    hide Translate;
    if CellsAllow(v, ram, virt, bytes, write) && bytes != 0 {
      forall x: nat {:trigger Translate(v, x)} | virt <= x < virt + bytes ensures Translate(v, x).Mapped? && (write ==> Translate(v, x).flags.writable) {
        assert CellOf(v, ram, x).Cell?;
      }
    }
  }
}
