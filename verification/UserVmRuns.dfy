/**
  The life of a process, from creation through any sequence of operations to destruction, while others take frames from
  the same allocator and give them back.
*/
module UserVmRuns {
  import opened Octets
  import opened MemoryMap
  import opened PageTable
  import opened VmmCore
  import opened PmmCore
  import opened UserVmSpec
  import opened UserCopySpec
  import opened UserVm
  import opened UserCells
  import PageMeaning
  import L = FrameLedger

  datatype Call =
    | Alloc(virt: nat, access: nat)
    | Unmap(virt: nat)
    | Protect(virt: nat, access: nat)
    | Write(virt: nat, data: seq<Octet>)
    | Read(virt: nat, bytes: nat)
    | OthersTake
    | OthersGive(frame: Frame)

  /** Every frame of `pool` is free, the process's own, or in other hands. */
  ghost predicate Shares(free: set<Frame>, owned: set<Frame>, others: set<Frame>, eligible: set<Frame>, pool: set<Frame>) {
    && free <= eligible && free !! owned && others <= eligible - free && others !! owned
    && free + owned + others == pool
  }

  lemma SharesGain(free: set<Frame>, owned: set<Frame>, others: set<Frame>, eligible: set<Frame>, pool: set<Frame>,
                   free': set<Frame>, owned': set<Frame>)
    requires Shares(free, owned, others, eligible, pool) && owned <= owned' <= owned + free && free' == free - owned'
    ensures Shares(free', owned', others, eligible, pool)
  {
  }

  lemma SharesDrop(free: set<Frame>, owned: set<Frame>, others: set<Frame>, eligible: set<Frame>, pool: set<Frame>, f: Frame)
    requires Shares(free, owned, others, eligible, pool) && f in owned && f in eligible
    ensures Shares(free + {f}, owned - {f}, others, eligible, pool)
  {
  }

  lemma SharesTake(free: set<Frame>, owned: set<Frame>, others: set<Frame>, eligible: set<Frame>, pool: set<Frame>, f: Frame)
    requires Shares(free, owned, others, eligible, pool) && f in free
    ensures Shares(free - {f}, owned, others + {f}, eligible, pool)
  {
  }

  lemma SharesGive(free: set<Frame>, owned: set<Frame>, others: set<Frame>, eligible: set<Frame>, pool: set<Frame>, f: Frame)
    requires Shares(free, owned, others, eligible, pool) && f in others
    ensures Shares(free + {f}, owned, others - {f}, eligible, pool)
  {
  }

  ghost predicate Balanced(vm: Vm, pool: set<Frame>, others: set<Frame>)
    reads vm, vm.space, vm.space.ctx, vm.space.ctx.pmm
  {
    vm.initialized && vm.Live() && Shares(vm.space.ctx.pmm.Free(), vm.Owned(), others, vm.space.ctx.pmm.Eligible(), pool)
  }

  /** Owned frames are eligible. */
  lemma OwnedEligible(vm: Vm)
    requires vm.Live()
    ensures vm.Owned() <= vm.space.ctx.pmm.Eligible()
  {
    hide Vm.Live;
    vm.LiveBooks();
  }

  // ---------------------------------------------------------------- the picture over a run

  /** A process at one moment. */
  datatype Proc = Proc(view: Space, ram: Ram, free: set<Frame>, owned: set<Frame>, pageCount: nat, tableCount: nat)

  ghost function ProcOf(vm: Vm): Proc
    reads vm, vm.space, vm.space.ctx, vm.space.ctx.pmm
  {
    Proc(vm.space.View(), vm.ram, vm.space.ctx.pmm.Free(), vm.Owned(), vm.pageCount, vm.space.ctx.count)
  }

  ghost function CellAt(p: Proc, x: nat): Cell { CellOf(p.view, p.ram, x) }

  datatype Reply = Reply(ok: bool, data: seq<Octet>)

  ghost predicate SamePicture(a: Proc, b: Proc) {
    forall x: nat {:trigger CellAt(b, x)} | x < USER_END :: CellAt(b, x) == CellAt(a, x)
  }

  ghost predicate SameBooks(a: Proc, b: Proc) { b.free == a.free && b.owned == a.owned }

  /** A page that may be asked for: user addresses, proper rights, nothing there yet, and a slot left. */
  ghost predicate Askable(a: Proc, virt: nat, access: nat) {
    Aligned(virt) && ValidAddress(virt) && ValidAccess(access) && a.pageCount < PAGE_LIMIT && CellAt(a, virt) == Hole
  }

  ghost predicate Present(a: Proc, virt: nat) { Aligned(virt) && ValidAddress(virt) && CellAt(a, virt).Cell? }

  ghost predicate Allocated(reply: Reply, a: Proc, b: Proc, virt: nat, access: nat, hidden: set<Frame>) {
    && (reply.ok ==> Askable(a, virt, access) && a.owned <= b.owned <= a.owned + a.free && b.free == a.free - b.owned)
    && (!reply.ok ==> SameBooks(a, b))
    && (!reply.ok && Askable(a, virt, access) ==> Short(Missing(a.view, virt), a.view.limit, hidden, a.tableCount, a.free))
    && (forall x: nat {:trigger CellAt(b, x)} | x < USER_END ::
          CellAt(b, x) == if reply.ok && virt <= x < virt + PAGE then Cell(AccessFlags(access), 0) else CellAt(a, x))
  }

  ghost predicate Unmapped(reply: Reply, a: Proc, b: Proc, virt: nat) {
    && (reply.ok <==> Present(a, virt))
    && (reply.ok ==> exists f | f in a.owned :: b.owned == a.owned - {f} && b.free == a.free + {f})
    && (!reply.ok ==> SameBooks(a, b))
    && (forall x: nat {:trigger CellAt(b, x)} | x < USER_END :: CellAt(b, x) == if reply.ok && virt <= x < virt + PAGE then Hole else CellAt(a, x))
  }

  /** A cell of the page of `virt` gets new rights. */
  ghost function Regranting(c: Cell, virt: nat, access: nat, x: nat): Cell {
    if virt <= x < virt + PAGE && c.Cell? then c.(flags := Permitted(c.flags, AccessFlags(access))) else c
  }

  /** A cell of the range gets a new byte. */
  ghost function Overwriting(c: Cell, virt: nat, data: seq<Octet>, x: nat): Cell {
    if c.Cell? && virt <= x < virt + |data| then c.(byte := data[x - virt]) else c
  }

  ghost predicate Protected(reply: Reply, a: Proc, b: Proc, virt: nat, access: nat) {
    && (reply.ok <==> Present(a, virt) && ValidAccess(access)) && SameBooks(a, b)
    && if reply.ok then forall x: nat {:trigger CellAt(b, x)} | x < USER_END :: CellAt(b, x) == Regranting(CellAt(a, x), virt, access, x)
       else SamePicture(a, b)
  }

  ghost predicate Wrote(reply: Reply, a: Proc, b: Proc, virt: nat, data: seq<Octet>) {
    && (reply.ok <==> CellsAllow(a.view, a.ram, virt, |data|, true)) && SameBooks(a, b)
    && if reply.ok then forall x: nat {:trigger CellAt(b, x)} | x < USER_END :: CellAt(b, x) == Overwriting(CellAt(a, x), virt, data, x)
       else SamePicture(a, b)
  }

  ghost predicate ReadBack(reply: Reply, a: Proc, b: Proc, virt: nat, bytes: nat) {
    && b == a && (reply.ok <==> CellsAllow(a.view, a.ram, virt, bytes, false))
    && (reply.ok ==> |reply.data| == bytes)
    && (reply.ok ==> forall x: nat {:trigger CellAt(a, x)} | virt <= x < virt + bytes :: CellAt(a, x).Cell? && reply.data[x - virt] == CellAt(a, x).byte)
  }

  /** One call, on the picture alone. */
  ghost predicate Step(call: Call, reply: Reply, a: Proc, b: Proc, hidden: set<Frame>) { SameKernel(a, b) && Does(call, reply, a, b, hidden) }

  /** The root is the same, and so is its kernel half. */
  ghost predicate SameKernel(a: Proc, b: Proc) { b.view.root == a.view.root && UpperKept(a.view.mem, b.view.mem, a.view.root) }

  ghost predicate Does(call: Call, reply: Reply, a: Proc, b: Proc, hidden: set<Frame>) {
    match call
    case Alloc(virt, access) => Allocated(reply, a, b, virt, access, hidden)
    case Unmap(virt) => Unmapped(reply, a, b, virt)
    case Protect(virt, access) => Protected(reply, a, b, virt, access)
    case Write(virt, data) => Wrote(reply, a, b, virt, data)
    case Read(virt, bytes) => ReadBack(reply, a, b, virt, bytes)
    case OthersTake => SamePicture(a, b) && b.owned == a.owned && (reply.ok <==> a.free != {}) && (!reply.ok ==> b.free == a.free)
    case OthersGive(f) => SamePicture(a, b) && b.owned == a.owned && b.free == if reply.ok then a.free + {f} else a.free
  }

  lemma HoleIsAbsent(vm: Vm, virt: nat)
    requires vm.Live() && virt < USER_END
    ensures CellAt(ProcOf(vm), virt) == Hole <==> Translate(vm.space.View(), virt) == Absent
    ensures CellAt(ProcOf(vm), virt).Cell? <==> Translate(vm.space.View(), virt).Mapped?
  {
    hide Translate, AddressSpace.Shaped, L.Distinct, Open;
    assert Consistent(Translate(vm.space.View(), virt), vm.pages, virt);
  }

  method DoAlloc(vm: Vm, virt: nat, access: nat, ghost pool: set<Frame>, ghost others: set<Frame>) returns (reply: Reply)
    requires Balanced(vm, pool, others)
    modifies vm, vm.space.ctx, vm.space.ctx.pmm
    ensures Balanced(vm, pool, others) && Step(Alloc(virt, access), reply, old(ProcOf(vm)), ProcOf(vm), vm.space.ctx.hidden)
  {
    hide Vm.Paid, AddressSpace.Shaped, Open, Agrees, Clear, Marked, Shares, L.Owned, Translate, Remaps, RamZero, RamSame, CellOf, AccessFlags, Missing, Short, SameTranslation, UpperKept;
    ghost var a, pages, v, ram := ProcOf(vm), vm.pages, vm.space.View(), vm.ram;
    vm.LiveReady();
    if ValidAddress(virt) { HoleIsAbsent(vm, virt); }
    var ok;
    ghost var f;
    ok, f := vm.AllocPage(virt, access);
    reply := Reply(ok, []);
    ghost var b := ProcOf(vm);
    forall x: nat {:trigger CellAt(b, x)} | x < USER_END
      ensures CellAt(b, x) == if ok && virt <= x < virt + PAGE then Cell(AccessFlags(access), 0) else CellAt(a, x)
    {
      if ok { GainedCell(v, b.view, pages, virt, access, f, ram, b.ram, x); } else { UnmovedCell(v, b.view, pages, ram, b.ram, a.free, x); }
    }
    if ok { SharesGain(a.free, a.owned, others, old(vm.space.ctx.pmm.Eligible()), pool, b.free, b.owned); }
  }

  method DoUnmap(vm: Vm, virt: nat, ghost pool: set<Frame>, ghost others: set<Frame>) returns (reply: Reply)
    requires Balanced(vm, pool, others)
    modifies vm, vm.space.ctx, vm.space.ctx.pmm
    ensures Balanced(vm, pool, others) && Step(Unmap(virt), reply, old(ProcOf(vm)), ProcOf(vm), vm.space.ctx.hidden)
  {
    hide Vm.Live, Clear, Marked, Shares, L.Owned, Translate, Erases, CellOf, UpperKept;
    ghost var a, v := ProcOf(vm), vm.space.View();
    OwnedEligible(vm);
    if ValidAddress(virt) { HoleIsAbsent(vm, virt); }
    var ok := vm.UnmapPage(virt);
    reply := Reply(ok, []);
    ghost var b := ProcOf(vm);
    forall x: nat {:trigger CellAt(b, x)} | x < USER_END ensures CellAt(b, x) == if ok && virt <= x < virt + PAGE then Hole else CellAt(a, x) {
      if ok { ErasedCell(v, b.view, vm.ram, virt, x); }
    }
    if ok { SharesDrop(a.free, a.owned, others, old(vm.space.ctx.pmm.Eligible()), pool, Translate(v, virt).physical / PAGE); }
  }

  method DoProtect(vm: Vm, virt: nat, access: nat, ghost pool: set<Frame>, ghost others: set<Frame>) returns (reply: Reply)
    requires Balanced(vm, pool, others)
    modifies vm, vm.space.ctx, vm.space.ctx.pmm
    ensures Balanced(vm, pool, others) && Step(Protect(virt, access), reply, old(ProcOf(vm)), ProcOf(vm), vm.space.ctx.hidden)
  {
    hide Vm.Live, Clear, Marked, Shares, L.Owned, Translate, Reprotects, CellOf, AccessFlags, Permitted, UpperKept;
    ghost var a, v := ProcOf(vm), vm.space.View();
    if ValidAddress(virt) { HoleIsAbsent(vm, virt); }
    var ok := vm.ProtectPage(virt, access);
    reply := Reply(ok, []);
    ghost var b := ProcOf(vm);
    if ok {
      forall x: nat {:trigger CellAt(b, x)} | x < USER_END ensures CellAt(b, x) == Regranting(CellAt(a, x), virt, access, x) {
        ClosedCell(v, b.view, vm.ram, virt, access, x);
      }
    }
  }

  method DoWrite(vm: Vm, virt: nat, data: seq<Octet>, ghost pool: set<Frame>, ghost others: set<Frame>) returns (reply: Reply)
    requires Balanced(vm, pool, others)
    modifies vm, vm.space.ctx, vm.space.ctx.pmm
    ensures Balanced(vm, pool, others) && Step(Write(virt, data), reply, old(ProcOf(vm)), ProcOf(vm), vm.space.ctx.hidden)
  {
    hide Vm.Live, Clear, Marked, Shares, L.Owned, Translate, Written, CellOf, CopyGuard, CellsAllow, UpperKept;
    ghost var a, v, ram := ProcOf(vm), vm.space.View(), vm.ram;
    SameUpper(v.mem, v.root);
    GuardIsCells(v, ram, virt, |data|, true);
    var ok := vm.CopyTo(virt, data);
    reply := Reply(ok, []);
    ghost var b := ProcOf(vm);
    if ok {
      forall x: nat {:trigger CellAt(b, x)} | x < USER_END ensures CellAt(b, x) == Overwriting(CellAt(a, x), virt, data, x) {
        WrittenCell(v, ram, vm.ram, virt, data, x);
      }
    }
  }

  method DoRead(vm: Vm, virt: nat, bytes: nat, ghost pool: set<Frame>, ghost others: set<Frame>) returns (reply: Reply)
    requires Balanced(vm, pool, others)
    ensures Step(Read(virt, bytes), reply, ProcOf(vm), ProcOf(vm), vm.space.ctx.hidden)
  {
    hide Vm.Live, Clear, Marked, Shares, L.Owned, Translate, UserByte, UpperKept;
    ghost var p := ProcOf(vm);
    SameUpper(p.view.mem, p.view.root);
    GuardIsCells(p.view, p.ram, virt, bytes, false);
    var ok, data := vm.CopyFrom(virt, bytes);
    reply := Reply(ok, data);
    if ok {
      forall x: nat {:trigger CellAt(p, x)} | virt <= x < virt + bytes ensures CellAt(p, x).Cell? && reply.data[x - virt] == CellAt(p, x).byte {
        assert CellOf(p.view, p.ram, x).Cell? && data[x - virt] == UserByte(p.view, p.ram, virt + (x - virt));
      }
    }
  }

  method Execute(vm: Vm, call: Call, ghost pool: set<Frame>, others: set<Frame>) returns (reply: Reply, others': set<Frame>)
    requires Balanced(vm, pool, others)
    modifies vm, vm.space.ctx, vm.space.ctx.pmm
    ensures Balanced(vm, pool, others') && (!call.OthersTake? ==> others' <= others)
    ensures Step(call, reply, old(ProcOf(vm)), ProcOf(vm), vm.space.ctx.hidden)
  {
    hide Vm.Live, Clear, Marked, Shares, L.Owned, Allocated, Unmapped, Protected, Wrote, ReadBack, UpperKept;
    ghost var a, eligible := ProcOf(vm), vm.space.ctx.pmm.Eligible();
    SameUpper(a.view.mem, a.view.root);
    others' := others;
    match call {
      case Alloc(virt, access) => reply := DoAlloc(vm, virt, access, pool, others);
      case Unmap(virt) => reply := DoUnmap(vm, virt, pool, others);
      case Protect(virt, access) => reply := DoProtect(vm, virt, access, pool, others);
      case Write(virt, data) => reply := DoWrite(vm, virt, data, pool, others);
      case Read(virt, bytes) => reply := DoRead(vm, virt, bytes, pool, others);
      case OthersTake =>
        var ok, f := vm.OthersTake();
        reply := Reply(ok, []);
        if ok {
          SharesTake(a.free, a.owned, others, eligible, pool, f);
          others' := others + {f};
        }
      case OthersGive(f) =>
        reply := Reply(f in others, []);
        if f in others {
          OthersHold(a.free, a.owned, others, eligible, pool);
          vm.OthersGive(f);
          SharesGive(a.free, a.owned, others, eligible, pool, f);
          others' := others - {f};
        }
    }
  }

  lemma OthersHold(free: set<Frame>, owned: set<Frame>, others: set<Frame>, eligible: set<Frame>, pool: set<Frame>)
    requires Shares(free, owned, others, eligible, pool)
    ensures others <= eligible - free && others !! owned
  {
  }

  // ---------------------------------------------------------------- whole lives

  ghost predicate StepAt(calls: seq<Call>, replies: seq<Reply>, states: seq<Proc>, hidden: set<Frame>, i: nat)
    requires |replies| == |calls| && |states| == |calls| + 1 && i < |calls|
  {
    Step(calls[i], replies[i], states[i], states[i + 1], hidden)
  }

  /** The pictures before, between and after the calls. */
  ghost predicate History(calls: seq<Call>, replies: seq<Reply>, states: seq<Proc>, hidden: set<Frame>) {
    && |replies| == |calls| && |states| == |calls| + 1
    && forall i {:trigger StepAt(calls, replies, states, hidden, i)} | 0 <= i < |calls| :: StepAt(calls, replies, states, hidden, i)
  }

  lemma HistoryMore(calls: seq<Call>, replies: seq<Reply>, states: seq<Proc>, hidden: set<Frame>, call: Call, reply: Reply, b: Proc)
    requires History(calls, replies, states, hidden) && Step(call, reply, states[|calls|], b, hidden)
    ensures History(calls + [call], replies + [reply], states + [b], hidden)
  {
    hide Step;
    var cs, rs, ss := calls + [call], replies + [reply], states + [b];
    forall i {:trigger StepAt(cs, rs, ss, hidden, i)} | 0 <= i < |cs| ensures StepAt(cs, rs, ss, hidden, i) {
      if i < |calls| { assert StepAt(calls, replies, states, hidden, i); }
    }
  }

  /** Any sequence of calls on a live process. */
  method Session(vm: Vm, calls: seq<Call>, ghost pool: set<Frame>) returns (replies: seq<Reply>, others: set<Frame>, ghost states: seq<Proc>)
    requires Balanced(vm, pool, {})
    modifies vm, vm.space.ctx, vm.space.ctx.pmm
    ensures Balanced(vm, pool, others) && History(calls, replies, states, vm.space.ctx.hidden)
    ensures states[0] == old(ProcOf(vm)) && states[|calls|] == ProcOf(vm)
    ensures (forall c | c in calls :: !c.OthersTake?) ==> others == {}
  {
    hide Vm.Live, Step, ProcOf, Balanced;
    replies, others, states := [], {}, [ProcOf(vm)];
    for k := 0 to |calls|
      invariant Balanced(vm, pool, others) && History(calls[..k], replies, states, vm.space.ctx.hidden)
      invariant |states| == k + 1 && states[0] == old(ProcOf(vm)) && states[k] == ProcOf(vm)
      invariant (forall c | c in calls[..k] :: !c.OthersTake?) ==> others == {}
    {
      var reply;
      reply, others := Execute(vm, calls[k], pool, others);
      HistoryMore(calls[..k], replies, states, vm.space.ctx.hidden, calls[k], reply, ProcOf(vm));
      assert calls[..k] + [calls[k]] == calls[..k + 1];
      replies, states := replies + [reply], states + [ProcOf(vm)];
    }
    assert calls[..|calls|] == calls;
  }

  /** A process that shares the kernel's upper half makes its calls, and is destroyed. */
  method Serve(vm: Vm, calls: seq<Call>, ghost pool: set<Frame>, ghost upper: seq<Entry>)
    returns (replies: seq<Reply>, others: set<Frame>, ghost states: seq<Proc>)
    requires Balanced(vm, pool, {}) && KernelShared(ProcOf(vm), upper)
    modifies vm, vm.space, vm.space.ctx, vm.space.ctx.pmm
    ensures !vm.initialized && vm.Valid() && vm.space.ctx.pmm.Free() + others == pool
    ensures (forall c | c in calls :: !c.OthersTake?) ==> others == {}
    ensures History(calls, replies, states, vm.space.ctx.hidden) && states[0] == old(ProcOf(vm))
    ensures |states| == |calls| + 1 && forall i | 0 <= i <= |calls| :: KernelShared(states[i], upper)
  {
    hide Vm.Live, Vm.Zeroed, ProcOf, KernelShared, Step;
    replies, others, states := Session(vm, calls, pool);
    AllShared(calls, replies, states, vm.space.ctx.hidden, upper);
    hide History;
    var destroyed := vm.Destroy(false);
  }

  /**
    The life of a process: it starts with nothing mapped, every call in between acts on its picture as said, and once it
    is destroyed every frame of the pool is free again or with the others.
  */
  method Lifetime(vm: Vm, kernel: Option<Kernel>, extended: bool, calls: seq<Call>)
    returns (born: bool, replies: seq<Reply>, others: set<Frame>, ghost states: seq<Proc>)
    requires !vm.initialized && vm.Valid()
    requires kernel.Some? ==> |kernel.value.upper| == 256 && Shared(kernel.value.upper) !! vm.space.ctx.pmm.Eligible()
    modifies vm, vm.space, vm.space.ctx, vm.space.ctx.pmm
    ensures !vm.initialized && vm.Valid()
    ensures vm.space.ctx.pmm.Free() + others == old(vm.space.ctx.pmm.Free())
    ensures (forall c | c in calls :: !c.OthersTake?) ==> others == {} && vm.space.ctx.pmm.Free() == old(vm.space.ctx.pmm.Free())
    ensures !born && CreateGuard(false, kernel, extended) ==> NoRoot(kernel.value.bits, vm.space.ctx.hidden, old(vm.space.ctx.pmm.Free()))
    ensures born ==> History(calls, replies, states, vm.space.ctx.hidden)
    ensures born ==> forall x: nat {:trigger CellAt(states[0], x)} | x < USER_END :: CellAt(states[0], x) == Hole
    ensures born ==> kernel.Some? && forall i | 0 <= i <= |calls| :: KernelShared(states[i], kernel.value.upper)
  {
    hide Vm.Live, Vm.Zeroed, Clear, Marked, Shared, NoRoot, Pow2, KernelHalf, Step;
    replies, others, states := [], {}, [];
    ghost var pool := vm.space.ctx.pmm.Free();
    born := vm.Create(kernel, extended);
    if !born { return; }
    vm.LiveReady();
    EmptyPicture(ProcOf(vm));
    replies, others, states := Serve(vm, calls, pool, kernel.value.upper);
  }

  /** The process's root shows the kernel's upper half. */
  ghost predicate KernelShared(p: Proc, upper: seq<Entry>) { KernelHalf(p.view.mem, p.view.root, upper) }

  lemma {:induction false} StaysShared(calls: seq<Call>, replies: seq<Reply>, states: seq<Proc>, hidden: set<Frame>, upper: seq<Entry>, i: nat)
    requires History(calls, replies, states, hidden) && KernelShared(states[0], upper) && i <= |calls|
    ensures KernelShared(states[i], upper)
  {
    hide Does, KernelHalf, UpperKept;
    if i > 0 {
      StaysShared(calls, replies, states, hidden, upper, i - 1);
      assert StepAt(calls, replies, states, hidden, i - 1);
      HalfKept(states[i - 1].view.mem, states[i].view.mem, states[i].view.root, upper);
    }
  }

  lemma AllShared(calls: seq<Call>, replies: seq<Reply>, states: seq<Proc>, hidden: set<Frame>, upper: seq<Entry>)
    requires History(calls, replies, states, hidden) && KernelShared(states[0], upper)
    ensures |states| == |calls| + 1 && forall i | 0 <= i <= |calls| :: KernelShared(states[i], upper)
  {
    hide KernelShared;
    forall i | 0 <= i <= |calls| ensures KernelShared(states[i], upper) { StaysShared(calls, replies, states, hidden, upper, i); }
  }

  /** Whatever tables the processor reaches from such a root, no address of the kernel's half is open to user mode. */
  lemma KernelOutOfReach(s: Space, upper: seq<Entry>, v: nat)
    requires KernelHalf(s.mem, s.root, upper) && v >= USER_END && Translate(s, v).Mapped?
    ensures !Translate(s, v).flags.user
  {
    hide Translate;
    var fs, es := PageMeaning.TranslationMeans(s, v);
    assert PageMeaning.LinkAt(s, v, fs, es, 0);
    var i := v / 0x80_0000_0000 % 512;
    assert i >= 256 by { UpperIndex(v); }
    assert At(s.mem, s.root, 256 + (i - 256)) == upper[i - 256].(user := false);
    assert es[0] in es && !es[0].user;
  }

  lemma UpperIndex(v: nat)
    requires Canonical(v) && v >= USER_END
    ensures v / 0x80_0000_0000 % 512 >= 256
  {
  }

  lemma EmptyPicture(p: Proc)
    requires LowerHalfEmpty(p.view)
    ensures forall x: nat {:trigger CellAt(p, x)} | x < USER_END :: CellAt(p, x) == Hole
  {
    hide Translate;
  }
}
