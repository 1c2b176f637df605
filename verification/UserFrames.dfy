/**
 User address spaces on the page allocator. Faults ask the allocator for frames, fork adds references
 and unmapping drops them; the kernel allocates and frees pages of its own in between. The counts that
 the allocator keeps are then the numbers of mappings, and no mapped frame is ever free.
 */
module UserFrames {
  import opened Common
  import opened BuddyBlocks
  import opened FreeLists
  import opened PmmSteps
  import opened Pmm
  import BootRun
  import CoW = CopyOnWrite

  /** The allocator counts the references of every mapped frame as the address spaces do. */
  ghost predicate Agree(vm: CoW.Vm, v: View) {
    forall f :: CoW.Ref(vm, f) > 0 ==> f in v.refs && v.refs[f] == CoW.Ref(vm, f)
  }

  /** Every present entry holds a reference. */
  predicate Referenced(vm: CoW.Vm) { forall l :: l in vm.ptes && vm.ptes[l].Present? ==> CoW.Ref(vm, vm.ptes[l].frame) > 0 }

  /** No mapped frame is free or holds counts. */
  ghost predicate NoneFree(vm: CoW.Vm, v: View) {
    forall l :: l in vm.ptes && vm.ptes[l].Present? ==> vm.ptes[l].frame !in v.pages && vm.ptes[l].frame !in v.meta
  }

  lemma InvIsReferenced(vm: CoW.Vm)
    requires CoW.Inv(vm)
    ensures Referenced(vm)
  {
    forall l | l in vm.ptes && vm.ptes[l].Present? ensures CoW.Ref(vm, vm.ptes[l].frame) > 0 { CoW.MappedHasCount(vm, l); }
  }

  lemma MappedIsNotFree(vm: CoW.Vm, v: View)
    requires Agree(vm, v) && CountsSound(v) && Referenced(vm)
    ensures NoneFree(vm, v)
  {
    forall l | l in vm.ptes && vm.ptes[l].Present? ensures vm.ptes[l].frame !in v.pages && vm.ptes[l].frame !in v.meta {
      assert CoW.Ref(vm, vm.ptes[l].frame) > 0;
    }
  }

  // ---------------------------------------------------------------- counts

  /** Pages just allocated had no references. */
  lemma AgreeAfterTake(vm: CoW.Vm, v: View, w: View, b: Block)
    requires Agree(vm, v) && CountsSound(v) && Allocated(v, w, b)
    ensures Agree(vm, w) && forall p :: p in PageSet(b) ==> CoW.Ref(vm, p) == 0
  {
    forall p | p in PageSet(b) ensures CoW.Ref(vm, p) == 0 { assert p in v.pages; }
    forall f | CoW.Ref(vm, f) > 0 ensures f in w.refs && w.refs[f] == CoW.Ref(vm, f) { BootRun.PagesOf(b, f); }
  }

  /** One count changed, in both. */
  lemma AgreeAfterCount(vm: CoW.Vm, v: View, t: CoW.Vm, w: View, f: nat, value: nat)
    requires Agree(vm, v) && f in v.refs && CountsSet(v.refs, w.refs, f, 1, value)
    requires t.refs == vm.refs[f := value]
    ensures Agree(t, w)
  {
    forall g | CoW.Ref(t, g) > 0 ensures g in w.refs && w.refs[g] == CoW.Ref(t, g) {
      if g != f { assert CoW.Ref(vm, g) > 0; }
    }
  }

  /** A zeroed or copied frame for user memory: new to the address spaces. */
  method NewFrame(mem: PhysicalMemory, ghost vm: CoW.Vm) returns (panicked: bool, a: CoW.Alloc)
    requires mem.Valid() && Agree(vm, mem.view)
    modifies mem
    ensures !panicked ==> mem.Valid() && Agree(vm, mem.view) && CoW.FreshFrame(vm, a)
    ensures !panicked && a.Got? ==> a.frame in mem.view.refs && mem.view.refs[a.frame] == 1
  {
    ghost var v := mem.view;
    var page;
    PageIsBlock(0);
    page, panicked := mem.Alloc(PAGE_SIZE);
    if page == 0 || panicked { return panicked, CoW.NoFrame; }
    a := CoW.Got(page);
    PageIsBlock(page);
    AgreeAfterTake(vm, v, mem.view, Block(0, page));
    assert page in PageSet(Block(0, page));
  }

  /** The frame is counted once, by both. */
  lemma AgreeWithNew(vm: CoW.Vm, v: View, t: CoW.Vm, f: nat)
    requires Agree(vm, v) && f in v.refs && v.refs[f] == 1 && t.refs == vm.refs[f := 1]
    ensures Agree(t, v)
  {
    forall g | CoW.Ref(t, g) > 0 ensures g in v.refs && v.refs[g] == CoW.Ref(t, g) {
      if g != f { assert CoW.Ref(vm, g) > 0; }
    }
  }

  /** Why a run ends early: no page is left for counts, or an event that the kernel gets wrong. */
  datatype Stop = Going | Panicked | Leaking | Wrapping

  /** One more reference to a mapped frame, in both; t is what the address spaces become. */
  method AddReference(mem: PhysicalMemory, ghost vm: CoW.Vm, f: nat, ghost t: CoW.Vm) returns (stop: Stop)
    requires mem.Valid() && Agree(vm, mem.view) && CoW.Ref(vm, f) > 0 && t.refs == vm.refs[f := CoW.Ref(vm, f) + 1]
    modifies mem
    ensures stop == Going || (stop == Wrapping && CoW.Ref(vm, f) >= UINT32_MAX)
    ensures stop == Going ==> mem.Valid() && Agree(t, mem.view)
  {
    var value := mem.GetRef(f);
    if value >= UINT32_MAX { return Wrapping; }
    ghost var v := mem.view;
    BootRun.IncrementedSmall(value);
    assert f !in v.pages && f !in v.meta;
    var panicked := mem.RefPage(f);
    assert CountsSet(v.refs, mem.view.refs, f, 1, CoW.Ref(vm, f) + 1);
    AgreeAfterCount(vm, v, t, mem.view, f, CoW.Ref(vm, f) + 1);
    return Going;
  }

  /** One reference to a mapped frame less, in both; the last one frees the frame. */
  method DropReference(mem: PhysicalMemory, ghost vm: CoW.Vm, f: nat, ghost t: CoW.Vm)
    requires mem.Valid() && Agree(vm, mem.view) && CoW.Ref(vm, f) > 0 && t.refs == vm.refs[f := CoW.Ref(vm, f) - 1]
    modifies mem
    ensures mem.Valid() && Agree(t, mem.view)
  {
    ghost var v := mem.view;
    mem.UnrefPage(f);
    AgreeAfterCount(vm, v, t, mem.view, f, CoW.Ref(vm, f) - 1);
  }

  // ---------------------------------------------------------------- faults

  /** The page at l moves to a frame of its own. */
  method CopyTo(mem: PhysicalMemory, vm: CoW.Vm, l: CoW.Loc, f: nat) returns (r: CoW.Vm)
    requires mem.Valid() && Agree(vm, mem.view) && l in vm.ptes && vm.ptes[l].Present? && CoW.Ref(vm, vm.ptes[l].frame) > 0
    requires CoW.Ref(vm, f) == 0 && f in mem.view.refs && mem.view.refs[f] == 1
    modifies mem
    ensures mem.Valid() && Agree(r, mem.view) && r == CoW.CopyFrame(vm, l, f)
  {
    ghost var u := vm.(refs := vm.refs[f := 1]);
    AgreeWithNew(vm, mem.view, u, f);
    r := CoW.CopyFrame(vm, l, f);
    DropReference(mem, u, vm.ptes[l].frame, r);
  }

  /** A write to a page shared with others, or to the only mapping of a frame. */
  method WriteFault(mem: PhysicalMemory, vm: CoW.Vm, l: CoW.Loc) returns (stop: Stop, r: CoW.Vm, c: CoW.Alloc)
    requires mem.Valid() && CoW.Inv(vm) && Agree(vm, mem.view) && l in vm.ptes && vm.ptes[l].Present?
    modifies mem
    ensures stop == Going || stop == Panicked
    ensures stop == Going ==> mem.Valid() && Agree(r, mem.view) && CoW.FreshFrame(vm, c)
    ensures stop == Going ==> r == if CoW.Ref(vm, vm.ptes[l].frame) == 1 then CoW.Unprotect(vm, l)
                                   else if c.Got? then CoW.CopyFrame(vm, l, c.frame) else vm
  {
    stop, r, c := Going, vm, CoW.NoFrame;
    var f := vm.ptes[l].frame;
    CoW.MappedHasCount(vm, l);
    var value := mem.GetRef(f);
    if value == 1 { return Going, CoW.Unprotect(vm, l), c; }
    var panicked;
    panicked, c := NewFrame(mem, vm);
    if panicked { return Panicked, vm, c; }
    if c.Got? { r := CopyTo(mem, vm, l, c.frame); }
  }

  /** A zeroed frame at l, if one is wanted and there is one. */
  method ZeroFault(mem: PhysicalMemory, vm: CoW.Vm, l: CoW.Loc, wanted: bool, write: bool, nx: bool)
    returns (stop: Stop, r: CoW.Vm, a: CoW.Alloc)
    requires mem.Valid() && Agree(vm, mem.view)
    modifies mem
    ensures stop == Going || stop == Panicked
    ensures stop == Going ==> mem.Valid() && Agree(r, mem.view) && CoW.FreshFrame(vm, a) && (a.Got? ==> wanted)
    ensures stop == Going ==> r == if a.Got? then CoW.InstallFresh(vm, l, a.frame, CoW.ZeroPage(), write, nx) else vm
  {
    stop, r, a := Going, vm, CoW.NoFrame;
    if !wanted { return; }
    var panicked;
    panicked, a := NewFrame(mem, vm);
    if panicked { return Panicked, vm, a; }
    if a.Got? {
      r := CoW.InstallFresh(vm, l, a.frame, CoW.ZeroPage(), write, nx);
      AgreeWithNew(vm, mem.view, r, a.frame);
    }
  }

  /** What a fault does after each of its parts. */
  lemma FilledIs(vm: CoW.Vm, l: CoW.Loc, acc: CoW.Access, areaWritable: bool, stackOk: bool, a: CoW.Alloc)
    requires CoW.FillsZero(vm, l, acc, a) && CoW.FreshFrame(vm, a)
    ensures var op := CoW.Fault(l, acc, areaWritable, stackOk, a, CoW.NoFrame, CoW.NoFrame);
            && CoW.Legal(vm, op)
            && CoW.Step(vm, op) == CoW.InstallFresh(vm, l, a.frame, CoW.ZeroPage(), vm.ptes[l].write, vm.ptes[l].nx)
  {}

  lemma GrownIs(vm: CoW.Vm, l: CoW.Loc, acc: CoW.Access, areaWritable: bool, stackOk: bool, b: CoW.Alloc)
    requires CoW.GrowsStack(vm, l, acc, stackOk, b) && CoW.FreshFrame(vm, b)
    ensures var op := CoW.Fault(l, acc, areaWritable, stackOk, CoW.NoFrame, b, CoW.NoFrame);
            CoW.Legal(vm, op) && CoW.Step(vm, op) == CoW.InstallFresh(vm, l, b.frame, CoW.ZeroPage(), true, true)
  {}

  lemma DeclinedIs(vm: CoW.Vm, l: CoW.Loc, acc: CoW.Access, areaWritable: bool, stackOk: bool)
    requires !CoW.WantsWrite(vm, l, acc, areaWritable)
    ensures var op := CoW.Fault(l, acc, areaWritable, stackOk, CoW.NoFrame, CoW.NoFrame, CoW.NoFrame);
            CoW.Legal(vm, op) && CoW.Step(vm, op) == vm
  {}

  lemma WrittenIs(vm: CoW.Vm, l: CoW.Loc, acc: CoW.Access, areaWritable: bool, stackOk: bool, c: CoW.Alloc)
    requires CoW.WantsWrite(vm, l, acc, areaWritable) && vm.ptes[l].Present? && CoW.FreshFrame(vm, c)
    ensures var op := CoW.Fault(l, acc, areaWritable, stackOk, CoW.NoFrame, CoW.NoFrame, c);
            && CoW.Legal(vm, op)
            && CoW.Step(vm, op) == if CoW.Ref(vm, vm.ptes[l].frame) == 1 then CoW.Unprotect(vm, l)
                                   else if c.Got? then CoW.CopyFrame(vm, l, c.frame) else vm
  {}

  /** handle_fault: each part asks for a frame only when it needs one. It stops short of the leaking case. */
  method HandleFault(mem: PhysicalMemory, vm: CoW.Vm, l: CoW.Loc, acc: CoW.Access, areaWritable: bool, stackOk: bool)
    returns (stop: Stop, r: CoW.Vm, a: CoW.Alloc, b: CoW.Alloc, c: CoW.Alloc)
    requires mem.Valid() && CoW.Inv(vm) && Agree(vm, mem.view)
    modifies mem
    ensures stop == Going ==> mem.Valid() && Agree(r, mem.view)
    ensures stop == Going ==> CoW.Legal(vm, CoW.Fault(l, acc, areaWritable, stackOk, a, b, c))
    ensures stop == Going ==> r == CoW.Step(vm, CoW.Fault(l, acc, areaWritable, stackOk, a, b, c))
    ensures stop == Leaking ==> acc.write && areaWritable && l in vm.ptes && vm.ptes[l].Software? && !vm.ptes[l].write
  {
    b, c := CoW.NoFrame, CoW.NoFrame;
    var fills := CoW.FillsZero(vm, l, acc, CoW.Got(0));
    stop, r, a := ZeroFault(mem, vm, l, fills, fills && vm.ptes[l].write, fills && vm.ptes[l].nx);
    if stop != Going { return; }
    if a.Got? { FilledIs(vm, l, acc, areaWritable, stackOk, a); return; }
    stop, r, b := ZeroFault(mem, vm, l, CoW.GrowsStack(vm, l, acc, stackOk, CoW.Got(0)), true, true);
    if stop != Going { return; }
    if b.Got? { GrownIs(vm, l, acc, areaWritable, stackOk, b); return; }
    if !CoW.WantsWrite(vm, l, acc, areaWritable) { DeclinedIs(vm, l, acc, areaWritable, stackOk); return; }
    if vm.ptes[l].Software? { return Leaking, vm, a, b, c; }
    stop, r, c := WriteFault(mem, vm, l);
    if stop == Going { WrittenIs(vm, l, acc, areaWritable, stackOk, c); }
  }

  // ---------------------------------------------------------------- fork and unmapping

  lemma CloneReferenced(vm: CoW.Vm, parent: nat, child: nat, page: nat)
    requires Referenced(vm)
    ensures Referenced(CoW.CloneLeaf(vm, parent, child, page))
  {
    var t := CoW.CloneLeaf(vm, parent, child, page);
    forall l | l in t.ptes && t.ptes[l].Present? ensures CoW.Ref(t, t.ptes[l].frame) > 0 {
      if l in vm.ptes && vm.ptes[l].Present? { assert CoW.Ref(vm, vm.ptes[l].frame) > 0; }
    }
  }

  method CloneLeaf(mem: PhysicalMemory, vm: CoW.Vm, parent: nat, child: nat, page: nat) returns (stop: Stop, r: CoW.Vm)
    requires mem.Valid() && Referenced(vm) && Agree(vm, mem.view)
    modifies mem
    ensures stop == Going ==> mem.Valid() && Referenced(r) && Agree(r, mem.view) && r == CoW.CloneLeaf(vm, parent, child, page)
  {
    stop, r := Going, CoW.CloneLeaf(vm, parent, child, page);
    CloneReferenced(vm, parent, child, page);
    var l := CoW.Loc(parent, page);
    if l in vm.ptes && vm.ptes[l].Present? { stop := AddReference(mem, vm, vm.ptes[l].frame, r); }
  }

  method Fork(mem: PhysicalMemory, vm: CoW.Vm, parent: nat, child: nat, pages: seq<nat>) returns (stop: Stop, r: CoW.Vm)
    requires mem.Valid() && CoW.Inv(vm) && Agree(vm, mem.view)
    modifies mem
    ensures stop == Going ==> mem.Valid() && Agree(r, mem.view) && r == CoW.Fork(vm, parent, child, pages)
  {
    stop, r := Going, vm.(spaces := vm.spaces + {child});
    InvIsReferenced(vm);
    var i := 0;
    while i < |pages|
      invariant 0 <= i <= |pages| && stop == Going && mem.Valid() && Referenced(r) && Agree(r, mem.view)
      invariant CoW.CloneLeaves(r, parent, child, pages[i..]) == CoW.Fork(vm, parent, child, pages)
    {
      stop, r := CloneLeaf(mem, r, parent, child, pages[i]);
      if stop != Going { return; }
      i := i + 1;
    }
  }

  method Unmap(mem: PhysicalMemory, vm: CoW.Vm, l: CoW.Loc) returns (r: CoW.Vm)
    requires mem.Valid() && CoW.Inv(vm) && Agree(vm, mem.view)
    modifies mem
    ensures mem.Valid() && CoW.Inv(r) && Agree(r, mem.view) && r == CoW.Unmap(vm, l)
  {
    r := CoW.Unmap(vm, l);
    CoW.UnmapKeepsInv(vm, l);
    if l in vm.ptes && vm.ptes[l].Present? {
      CoW.MappedHasCount(vm, l);
      DropReference(mem, vm, vm.ptes[l].frame, r);
    }
  }

  method Exit(mem: PhysicalMemory, vm: CoW.Vm, space: nat, pages: seq<nat>) returns (r: CoW.Vm)
    requires mem.Valid() && CoW.Inv(vm) && Agree(vm, mem.view)
    modifies mem
    ensures mem.Valid() && Agree(r, mem.view) && r == CoW.Exit(vm, space, pages)
  {
    r := vm;
    var i := 0;
    while i < |pages|
      invariant 0 <= i <= |pages| && mem.Valid() && CoW.Inv(r) && Agree(r, mem.view)
      invariant CoW.UnmapAll(r, space, pages[i..]) == CoW.UnmapAll(vm, space, pages)
    {
      r := Unmap(mem, r, CoW.Loc(space, pages[i]));
      i := i + 1;
    }
    r := r.(spaces := r.spaces - {space});
  }

  // ---------------------------------------------------------------- the kernel's own pages

  /** None of the pages is mapped. */
  predicate NoneMapped(vm: CoW.Vm, page: nat, n: nat) { forall p :: page <= p < page + n ==> CoW.Ref(vm, p) == 0 }

  lemma AgreeAfterGive(vm: CoW.Vm, v: View, w: View, page: nat, n: nat)
    requires Agree(vm, v) && NoneMapped(vm, page, n) && CountsSet(v.refs, w.refs, page, n, 0)
    ensures Agree(vm, w)
  {}

  /** The kernel takes a block for itself. */
  method KernelTake(mem: PhysicalMemory, ghost vm: CoW.Vm, size: nat) returns (stop: Stop, page: nat)
    requires mem.Valid() && Agree(vm, mem.view)
    modifies mem
    ensures stop == Going || stop == Panicked
    ensures stop == Going ==> mem.Valid() && Agree(vm, mem.view)
  {
    ghost var v := mem.view;
    var panicked;
    page, panicked := mem.Alloc(size);
    if panicked { return Panicked, page; }
    if page != 0 { AgreeAfterTake(vm, v, mem.view, Block(SizeToOrder(size), page)); }
    return Going, page;
  }

  /** The kernel frees a block of its own: one that it holds alone and has not mapped. */
  method KernelGive(mem: PhysicalMemory, vm: CoW.Vm, page: nat, size: nat)
    requires mem.Valid() && Agree(vm, mem.view)
    modifies mem
    ensures mem.Valid() && Agree(vm, mem.view)
  {
    ghost var v := mem.view;
    var order := SizeToOrder(size);
    PushAcceptsIff(page, order, mem.maxOrder);
    if page == 0 || size == 0 || !PushAccepts(page, order, mem.maxOrder) { return; }
    var sole := BootRun.IsSole(mem, page, Pow2(order));
    if !sole || !NoneMapped(vm, page, Pow2(order)) { return; }
    BootRun.SoleIsTaken(mem.view, Block(order, page), mem.totalPages);
    var panicked := mem.Free(page, size);
    AgreeAfterGive(vm, v, mem.view, page, Pow2(order));
  }

  // ---------------------------------------------------------------- runs

  datatype Event =
    | FaultAt(l: CoW.Loc, acc: CoW.Access, areaWritable: bool, stackOk: bool)
    | StoreAt(l: CoW.Loc, off: nat, value: nat)
    | ForkTo(parent: nat, child: nat, pages: seq<nat>)
    | MapZero(l: CoW.Loc, write: bool, nx: bool)
    | UnmapAt(l: CoW.Loc)
    | Teardown(space: nat, pages: seq<nat>)
    | Take(size: nat)
    | Give(page: nat, size: nat)

  /** Memory and address spaces fit together. */
  ghost predicate Fit(mem: PhysicalMemory, vm: CoW.Vm)
    reads mem
  {
    mem.Valid() && CoW.Inv(vm) && Agree(vm, mem.view)
  }

  /** The events that the address spaces see of an event; pages of the kernel are none of theirs. */
  ghost predicate Seen(vm: CoW.Vm, r: CoW.Vm, ops: seq<CoW.Op>) { |ops| <= 1 && CoW.LegalRun(vm, ops) && r == CoW.Run(vm, ops) }

  lemma SeenOne(vm: CoW.Vm, op: CoW.Op)
    requires CoW.Inv(vm) && CoW.Legal(vm, op)
    ensures CoW.Inv(CoW.Step(vm, op)) && Seen(vm, CoW.Step(vm, op), [op])
  {
    CoW.StepIsPrivate(vm, op);
    assert CoW.Run(CoW.Step(vm, op), []) == CoW.Step(vm, op);
  }

  method DoFault(mem: PhysicalMemory, vm: CoW.Vm, l: CoW.Loc, acc: CoW.Access, areaWritable: bool, stackOk: bool)
    returns (stop: Stop, r: CoW.Vm, ghost ops: seq<CoW.Op>)
    requires Fit(mem, vm)
    modifies mem
    ensures stop == Going ==> Fit(mem, r) && Seen(vm, r, ops)
  {
    var a, b, c;
    stop, r, a, b, c := HandleFault(mem, vm, l, acc, areaWritable, stackOk);
    ops := [CoW.Fault(l, acc, areaWritable, stackOk, a, b, c)];
    if stop == Going { SeenOne(vm, ops[0]); }
  }

  method DoFork(mem: PhysicalMemory, vm: CoW.Vm, parent: nat, child: nat, pages: seq<nat>)
    returns (stop: Stop, r: CoW.Vm, ghost ops: seq<CoW.Op>)
    requires Fit(mem, vm)
    modifies mem
    ensures stop == Going ==> Fit(mem, r) && Seen(vm, r, ops)
  {
    if !CoW.CanFork(vm, parent, child, pages) { return Going, vm, []; }
    SeenOne(vm, CoW.ForkTo(parent, child, pages));
    stop, r := Fork(mem, vm, parent, child, pages);
    ops := [CoW.ForkTo(parent, child, pages)];
  }

  method DoExit(mem: PhysicalMemory, vm: CoW.Vm, space: nat, pages: seq<nat>) returns (r: CoW.Vm, ghost ops: seq<CoW.Op>)
    requires Fit(mem, vm)
    modifies mem
    ensures Fit(mem, r) && Seen(vm, r, ops)
  {
    if !CoW.CanExit(vm, space, pages) { return vm, []; }
    SeenOne(vm, CoW.Teardown(space, pages));
    r := Exit(mem, vm, space, pages);
    ops := [CoW.Teardown(space, pages)];
  }

  /** Events that need no page. */
  method DoQuiet(mem: PhysicalMemory, vm: CoW.Vm, e: Event) returns (r: CoW.Vm, ghost ops: seq<CoW.Op>)
    requires Fit(mem, vm) && (e.StoreAt? || e.MapZero?)
    ensures Fit(mem, r) && Seen(vm, r, ops)
  {
    match e
    case StoreAt(l, off, value) =>
      SeenOne(vm, CoW.UserStore(l, off, value));
      r, ops := if CoW.CanStore(vm, l) then CoW.Store(vm, l, off, value) else vm, [CoW.UserStore(l, off, value)];
    case MapZero(l, write, nx) =>
      if l.space !in vm.spaces || l in vm.ptes { return vm, []; }
      SeenOne(vm, CoW.MapZero(l, write, nx));
      r, ops := vm.(ptes := vm.ptes[l := CoW.Software(write, true, false, nx, 0)]), [CoW.MapZero(l, write, nx)];
  }

  method Do(mem: PhysicalMemory, vm: CoW.Vm, e: Event) returns (stop: Stop, r: CoW.Vm, ghost ops: seq<CoW.Op>)
    requires Fit(mem, vm)
    modifies mem
    ensures stop == Going ==> Fit(mem, r) && Seen(vm, r, ops)
  {
    stop, r, ops := Going, vm, [];
    match e
    case FaultAt(l, acc, w, s) => stop, r, ops := DoFault(mem, vm, l, acc, w, s);
    case ForkTo(parent, child, pages) => stop, r, ops := DoFork(mem, vm, parent, child, pages);
    case UnmapAt(l) =>
      SeenOne(vm, CoW.Drop(l));
      r := Unmap(mem, vm, l);
      ops := [CoW.Drop(l)];
    case Teardown(space, pages) => r, ops := DoExit(mem, vm, space, pages);
    case Take(size) =>
      var page;
      stop, page := KernelTake(mem, vm, size);
    case Give(page, size) => KernelGive(mem, vm, page, size);
    case _ => r, ops := DoQuiet(mem, vm, e);
  }

  lemma {:induction false} RunAppend(vm: CoW.Vm, a: seq<CoW.Op>, b: seq<CoW.Op>)
    requires CoW.LegalRun(vm, a) && CoW.LegalRun(CoW.Run(vm, a), b)
    ensures CoW.LegalRun(vm, a + b) && CoW.Run(vm, a + b) == CoW.Run(CoW.Run(vm, a), b)
    decreases |a|
  {
    if a == [] {
      assert a + b == b;
    } else {
      assert (a + b)[1..] == a[1..] + b;
      RunAppend(CoW.Step(vm, a[0]), a[1..], b);
    }
  }

  /**
   Any sequence of events, until one leaks a frame, wraps a count or panics. No mapped frame is free; the
   allocator's counts are the numbers of mappings; and the address spaces are those of a legal run, so
   each reads what it would if fork had copied all memory.
   */
  method RunAll(mem: PhysicalMemory, spaces: set<nat>, events: seq<Event>) returns (stop: Stop, r: CoW.Vm, ghost ops: seq<CoW.Op>)
    requires mem.Valid()
    modifies mem
    ensures stop == Going ==> Fit(mem, r) && NoneFree(r, mem.view)
    ensures stop == Going ==>
              var start := CoW.Vm(spaces, map[], map[], map[]);
              && CoW.LegalRun(start, ops) && r == CoW.Run(start, ops)
              && CoW.View(r) == CoW.PrivateRun(map[], ops, CoW.Decisions(start, ops))
  {
    var start := CoW.Vm(spaces, map[], map[], map[]);
    StartFits(start);
    stop, r, ops := Going, start, [];
    var i := 0;
    while i < |events|
      invariant 0 <= i <= |events| && stop == Going && Fit(mem, r) && CoW.LegalRun(start, ops) && r == CoW.Run(start, ops)
    {
      ghost var more;
      stop, r, more := Do(mem, r, events[i]);
      if stop != Going { return; }
      RunAppend(start, ops, more);
      ops := ops + more;
      i := i + 1;
    }
    InvIsReferenced(r);
    MappedIsNotFree(r, mem.view);
    CoW.ForkIsolation(start, ops);
    assert CoW.View(start) == map[];
  }

  lemma StartFits(vm: CoW.Vm)
    requires vm.ptes == map[] && vm.refs == map[]
    ensures CoW.Inv(vm) && forall v :: Agree(vm, v)
  {
    forall f ensures CoW.Ref(vm, f) == |CoW.Mappings(vm.ptes, f)| { assert CoW.Mappings(vm.ptes, f) == {}; }
  }
}
