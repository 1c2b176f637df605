/**
 User address spaces over reference-counted frames: demand-zero pages, copy-on-write after fork,
 write faults, unmapping and teardown. Only user leaf entries of 4 KiB are modelled; a leaf is named
 by its address space and page number.

 The theorem is that sharing frames is invisible: every address space reads what it would read if
 fork had copied all of its memory at once.
 */
module CopyOnWrite {
  import opened Common

  type Frame = nat
  type Data = seq<nat>

  datatype Loc = Loc(space: nat, page: nat)

  /** A present leaf, or a software entry that marks a demand-zero or guard page. */
  datatype Pte =
    | Present(frame: Frame, write: bool, cow: bool, nx: bool)
    | Software(write: bool, demandZero: bool, guard: bool, nx: bool, stale: Frame)

  /** The result of asking the page allocator for a frame. */
  datatype Alloc = NoFrame | Got(frame: Frame)

  datatype Vm = Vm(spaces: set<nat>, ptes: map<Loc, Pte>, refs: map<Frame, nat>, mem: map<Frame, Data>)

  function ZeroPage(): Data { seq(4096, _ => 0) }

  function Ref(vm: Vm, f: Frame): nat { if f in vm.refs then vm.refs[f] else 0 }

  predicate Targets(p: Pte, f: Frame) { p.Present? && p.frame == f }

  predicate Maps(ptes: map<Loc, Pte>, l: Loc, f: Frame) { l in ptes && Targets(ptes[l], f) }

  ghost function Mappings(ptes: map<Loc, Pte>, f: Frame): set<Loc> { set l | l in ptes && Maps(ptes, l, f) }

  /**
   A frame's count is its number of leaf mappings, a writable leaf is the only mapping of its frame,
   and copy-on-write leaves are read-only.
   */
  ghost predicate Inv(vm: Vm) {
    && (forall f :: Ref(vm, f) == |Mappings(vm.ptes, f)|)
    && (forall l :: l in vm.ptes ==> GoodLeaf(vm, l))
  }

  predicate GoodLeaf(vm: Vm, l: Loc)
    requires l in vm.ptes
  {
    && l.space in vm.spaces
    && match vm.ptes[l]
       case Present(f, w, c, _) => f in vm.mem && (w ==> !c && Ref(vm, f) == 1)
       case Software(_, dz, g, _, _) => dz || g
  }

  // ---------------------------------------------------------------- what user programs see

  /** A page of private memory, or a guard. */
  datatype Seen = Memory(data: Data, writable: bool, nx: bool) | Guard

  function See(mem: map<Frame, Data>, p: Pte): Seen {
    match p
    case Present(f, w, c, nx) => Memory(if f in mem then mem[f] else [], w || c, nx)
    case Software(w, dz, g, nx, _) => if dz && !g then Memory(ZeroPage(), w, nx) else Guard
  }

  /** All of memory as the address spaces see it. */
  function View(vm: Vm): map<Loc, Seen> {
    map l | l in vm.ptes :: See(vm.mem, vm.ptes[l])
  }

  // ---------------------------------------------------------------- leaf updates and counts

  function One(b: bool): nat { if b then 1 else 0 }

  /** Writing one leaf moves one mapping from its old target to its new one. */
  lemma MappingsAfter(ptes: map<Loc, Pte>, l: Loc, p: Pte, f: Frame)
    ensures |Mappings(ptes[l := p], f)| == |Mappings(ptes, f)| - One(Maps(ptes, l, f)) + One(Targets(p, f))
  {
    var before, after := Mappings(ptes, f), Mappings(ptes[l := p], f);
    forall k ensures k in after <==> if k == l then Targets(p, f) else k in before {
      assert k in after <==> Maps(ptes[l := p], k, f);
      assert k in before <==> Maps(ptes, k, f);
    }
    assert after == if Targets(p, f) then before - {l} + {l} else before - {l};
  }

  /** A frame with count 1 has one mapping. */
  lemma SoleMapping(vm: Vm, l: Loc, k: Loc, f: Frame)
    requires Inv(vm) && Maps(vm.ptes, l, f) && Maps(vm.ptes, k, f) && Ref(vm, f) == 1
    ensures k == l
  {
    var s := Mappings(vm.ptes, f);
    assert l in s && k in s && |s| == 1;
    assert |s - {l}| == 0;
  }

  /** A frame with count 0 has none. */
  lemma FreshIsUnmapped(vm: Vm, l: Loc, f: Frame)
    requires Inv(vm) && Ref(vm, f) == 0
    ensures !Maps(vm.ptes, l, f)
  {
    assert Mappings(vm.ptes, f) == {};
    assert l !in Mappings(vm.ptes, f);
  }

  // ---------------------------------------------------------------- faults

  /** Map a newly allocated frame with the given contents at l. */
  function InstallFresh(vm: Vm, l: Loc, f: Frame, data: Data, write: bool, nx: bool): Vm {
    Vm(vm.spaces, vm.ptes[l := Present(f, write, false, nx)], vm.refs[f := 1], vm.mem[f := data])
  }

  ghost predicate CanInstall(vm: Vm, l: Loc, f: Frame) {
    Inv(vm) && Ref(vm, f) == 0 && l.space in vm.spaces && !(l in vm.ptes && vm.ptes[l].Present?)
  }

  lemma InstallKeepsInv(vm: Vm, l: Loc, f: Frame, data: Data, write: bool, nx: bool)
    requires CanInstall(vm, l, f)
    ensures Inv(InstallFresh(vm, l, f, data, write, nx))
  {
    var t := InstallFresh(vm, l, f, data, write, nx);
    forall g ensures Ref(t, g) == |Mappings(t.ptes, g)| {
      MappingsAfter(vm.ptes, l, Present(f, write, false, nx), g);
    }
    forall k | k in t.ptes ensures GoodLeaf(t, k) {
      if k != l {
        assert GoodLeaf(vm, k);
        FreshIsUnmapped(vm, k, f);
      }
    }
  }

  lemma InstallView(vm: Vm, l: Loc, f: Frame, data: Data, write: bool, nx: bool)
    requires CanInstall(vm, l, f)
    ensures View(InstallFresh(vm, l, f, data, write, nx)) == View(vm)[l := Memory(data, write, nx)]
  {
    var t := InstallFresh(vm, l, f, data, write, nx);
    forall k | k in vm.ptes && k != l ensures See(t.mem, t.ptes[k]) == See(vm.mem, vm.ptes[k]) {
      FreshIsUnmapped(vm, k, f);
    }
  }

  /** Give l a private writable copy of its frame. */
  function CopyFrame(vm: Vm, l: Loc, f: Frame): Vm
    requires l in vm.ptes && vm.ptes[l].Present?
  {
    var p := vm.ptes[l];
    var data := if p.frame in vm.mem then vm.mem[p.frame] else [];
    var refs := vm.refs[f := 1];
    var left: nat := if Ref(vm, p.frame) > 0 then Ref(vm, p.frame) - 1 else 0;
    Vm(vm.spaces, vm.ptes[l := Present(f, true, false, p.nx)], refs[p.frame := left], vm.mem[f := data])
  }

  lemma CopyKeepsInv(vm: Vm, l: Loc, f: Frame)
    requires Inv(vm) && Ref(vm, f) == 0 && l in vm.ptes && vm.ptes[l].Present? && Ref(vm, vm.ptes[l].frame) > 1
    ensures Inv(CopyFrame(vm, l, f))
  {
    var t := CopyFrame(vm, l, f);
    FreshIsUnmapped(vm, l, f);
    forall g ensures Ref(t, g) == |Mappings(t.ptes, g)| {
      MappingsAfter(vm.ptes, l, Present(f, true, false, vm.ptes[l].nx), g);
    }
    forall k | k in t.ptes ensures GoodLeaf(t, k) {
      if k != l {
        assert GoodLeaf(vm, k);
        FreshIsUnmapped(vm, k, f);
      }
    }
  }

  lemma CopyView(vm: Vm, l: Loc, f: Frame)
    requires Inv(vm) && Ref(vm, f) == 0 && l in vm.ptes && vm.ptes[l].Present? && Ref(vm, vm.ptes[l].frame) > 1
    ensures View(CopyFrame(vm, l, f)) == View(vm)[l := View(vm)[l].(writable := true)]
  {
    var t := CopyFrame(vm, l, f);
    forall k | k in vm.ptes && k != l ensures See(t.mem, t.ptes[k]) == See(vm.mem, vm.ptes[k]) {
      FreshIsUnmapped(vm, k, f);
    }
  }

  /** The sole user of a frame may write it in place. */
  function Unprotect(vm: Vm, l: Loc): Vm
    requires l in vm.ptes && vm.ptes[l].Present?
  {
    vm.(ptes := vm.ptes[l := vm.ptes[l].(write := true, cow := false)])
  }

  lemma UnprotectKeepsInv(vm: Vm, l: Loc)
    requires Inv(vm) && l in vm.ptes && vm.ptes[l].Present? && Ref(vm, vm.ptes[l].frame) == 1
    ensures Inv(Unprotect(vm, l))
    ensures View(Unprotect(vm, l)) == View(vm)[l := View(vm)[l].(writable := true)]
  {
    var t := Unprotect(vm, l);
    forall g ensures Ref(t, g) == |Mappings(t.ptes, g)| {
      MappingsAfter(vm.ptes, l, vm.ptes[l].(write := true, cow := false), g);
    }
    forall k | k in t.ptes ensures GoodLeaf(t, k) { assert GoodLeaf(vm, k); }
  }

  datatype Access = Access(write: bool, fetch: bool)

  /** What the fault handler did. */
  datatype Outcome = Declined | Filled | Grown | MadeWritable | Leaked

  /** The first access to a demand-zero page gets a zeroed frame. */
  predicate FillsZero(vm: Vm, l: Loc, acc: Access, a: Alloc) {
    && l in vm.ptes && vm.ptes[l].Software? && a.Got?
    && vm.ptes[l].demandZero && !vm.ptes[l].guard
    && (acc.write ==> vm.ptes[l].write) && (acc.fetch ==> !vm.ptes[l].nx)
  }

  /** A committed stack page without a frame gets a zeroed frame; stackOk is the stack area's verdict. */
  predicate GrowsStack(vm: Vm, l: Loc, acc: Access, stackOk: bool, a: Alloc) {
    && stackOk && !acc.fetch && a.Got? && l.space in vm.spaces
    && (l in vm.ptes ==> vm.ptes[l].Software? && !vm.ptes[l].guard)
  }

  /** A write to a copy-on-write leaf, or to a read-only leaf inside a writable area. */
  predicate WantsWrite(vm: Vm, l: Loc, acc: Access, areaWritable: bool) {
    && acc.write && l in vm.ptes
    && ((vm.ptes[l].Present? && vm.ptes[l].cow) || (areaWritable && !vm.ptes[l].write))
  }

  /**
   The fault handler. Its three parts ask the allocator separately. The last part does not test that
   the entry is present: on a software entry it stores a frame number in an entry that stays absent.
   */
  function HandleFault(vm: Vm, l: Loc, acc: Access, areaWritable: bool, stackOk: bool, a: Alloc, b: Alloc, c: Alloc)
    : (Vm, Outcome)
  {
    if FillsZero(vm, l, acc, a) then
      (InstallFresh(vm, l, a.frame, ZeroPage(), vm.ptes[l].write, vm.ptes[l].nx), Filled)
    else if GrowsStack(vm, l, acc, stackOk, b) then
      (InstallFresh(vm, l, b.frame, ZeroPage(), true, true), Grown)
    else if !WantsWrite(vm, l, acc, areaWritable) then (vm, Declined)
    else
      match vm.ptes[l]
      case Present(f, _, _, _) =>
        if Ref(vm, f) == 1 then (Unprotect(vm, l), MadeWritable)
        else if c.NoFrame? then (vm, Declined)
        else (CopyFrame(vm, l, c.frame), MadeWritable)
      case Software(_, dz, _, nx, _) =>
        if c.NoFrame? then (vm, Declined)
        else (vm.(ptes := vm.ptes[l := Software(true, dz, false, nx, c.frame)], refs := vm.refs[c.frame := 1]), Leaked)
  }

  predicate FreshFrame(vm: Vm, a: Alloc) { a.Got? ==> Ref(vm, a.frame) == 0 }

  /** A write to a software entry without write permission, inside an area that has it. */
  predicate LeakCondition(vm: Vm, l: Loc, acc: Access, areaWritable: bool, stackOk: bool, b: Alloc, c: Alloc) {
    && acc.write && areaWritable && c.Got? && !GrowsStack(vm, l, acc, stackOk, b)
    && l in vm.ptes && vm.ptes[l].Software? && !vm.ptes[l].write
  }

  lemma MappedHasCount(vm: Vm, l: Loc)
    requires Inv(vm) && l in vm.ptes && vm.ptes[l].Present?
    ensures Ref(vm, vm.ptes[l].frame) >= 1
  {
    assert l in Mappings(vm.ptes, vm.ptes[l].frame);
  }

  lemma LeakBreaksInv(vm: Vm, l: Loc, p: Pte, f: Frame)
    requires Inv(vm) && l in vm.ptes && vm.ptes[l].Software? && p.Software? && Ref(vm, f) == 0
    ensures !Inv(vm.(ptes := vm.ptes[l := p], refs := vm.refs[f := 1]))
  {
    var t := vm.(ptes := vm.ptes[l := p], refs := vm.refs[f := 1]);
    MappingsAfter(vm.ptes, l, p, f);
    assert Ref(t, f) == 1 && |Mappings(t.ptes, f)| == 0;
  }

  /** The fault handler keeps the counts right exactly when it does not meet the leaking case. */
  lemma FaultKeepsInvIff(vm: Vm, l: Loc, acc: Access, areaWritable: bool, stackOk: bool, a: Alloc, b: Alloc, c: Alloc)
    requires Inv(vm) && FreshFrame(vm, a) && FreshFrame(vm, b) && FreshFrame(vm, c)
    ensures Inv(HandleFault(vm, l, acc, areaWritable, stackOk, a, b, c).0) <==>
            !LeakCondition(vm, l, acc, areaWritable, stackOk, b, c)
  {
    if FillsZero(vm, l, acc, a) {
      assert GoodLeaf(vm, l);
      InstallKeepsInv(vm, l, a.frame, ZeroPage(), vm.ptes[l].write, vm.ptes[l].nx);
    } else if GrowsStack(vm, l, acc, stackOk, b) {
      InstallKeepsInv(vm, l, b.frame, ZeroPage(), true, true);
    } else if WantsWrite(vm, l, acc, areaWritable) {
      if vm.ptes[l].Present? {
        MappedHasCount(vm, l);
        if Ref(vm, vm.ptes[l].frame) == 1 {
          UnprotectKeepsInv(vm, l);
        } else if c.Got? {
          CopyKeepsInv(vm, l, c.frame);
        }
      } else if c.Got? {
        LeakBreaksInv(vm, l, Software(true, vm.ptes[l].demandZero, false, vm.ptes[l].nx, c.frame), c.frame);
      }
    }
  }

  /** A read-only demand-zero page in an area made writable afterwards: the write fault loses frame 7. */
  lemma LeakExample()
    ensures var l := Loc(1, 5);
            var vm := Vm({1}, map[l := Software(false, true, false, true, 0)], map[], map[]);
            Inv(vm) && !Inv(HandleFault(vm, l, Access(true, false), true, false, NoFrame, NoFrame, Got(7)).0)
  {
    var l := Loc(1, 5);
    var vm := Vm({1}, map[l := Software(false, true, false, true, 0)], map[], map[]);
    forall f ensures Mappings(vm.ptes, f) == {} {
      assert forall k :: !Maps(vm.ptes, k, f);
    }
    FaultKeepsInvIff(vm, l, Access(true, false), true, false, NoFrame, NoFrame, Got(7));
  }

  predicate IsGuard(vm: Vm, l: Loc) { l in vm.ptes && vm.ptes[l].Software? && vm.ptes[l].guard }

  /** A write that runs into the guard page of a writable stack area loses frame 7, and the guard. */
  lemma GuardExample()
    ensures var l := Loc(1, 5);
            var vm := Vm({1}, map[l := Software(false, false, true, true, 0)], map[], map[]);
            var t := HandleFault(vm, l, Access(true, false), true, false, NoFrame, NoFrame, Got(7)).0;
            Inv(vm) && IsGuard(vm, l) && !Inv(t) && !IsGuard(t, l)
  {
    var l := Loc(1, 5);
    var vm := Vm({1}, map[l := Software(false, false, true, true, 0)], map[], map[]);
    forall f ensures Mappings(vm.ptes, f) == {} {
      assert forall k :: !Maps(vm.ptes, k, f);
    }
    FaultKeepsInvIff(vm, l, Access(true, false), true, false, NoFrame, NoFrame, Got(7));
  }

  /** A guard survives a fault anywhere, unless the fault is the leaking one on the guard itself. */
  lemma GuardSurvivesIff(vm: Vm, g: Loc, l: Loc, acc: Access, areaWritable: bool, stackOk: bool, a: Alloc, b: Alloc, c: Alloc)
    requires IsGuard(vm, g)
    ensures IsGuard(HandleFault(vm, l, acc, areaWritable, stackOk, a, b, c).0, g) <==>
            !(l == g && LeakCondition(vm, l, acc, areaWritable, stackOk, b, c))
  {
    if l != g && l in vm.ptes && vm.ptes[l].Present? {
      assert Unprotect(vm, l).ptes[g] == vm.ptes[g];
      if c.Got? { assert CopyFrame(vm, l, c.frame).ptes[g] == vm.ptes[g]; }
    }
  }

  /** What a fault may change in the view: nothing, a new stack page, or write permission on one page. */
  function FaultView(view: map<Loc, Seen>, l: Loc, o: Outcome): map<Loc, Seen> {
    match o
    case Grown => view[l := Memory(ZeroPage(), true, true)]
    case MadeWritable => if l in view && view[l].Memory? then view[l := view[l].(writable := true)] else view
    case _ => view
  }

  lemma FaultIsInvisible(vm: Vm, l: Loc, acc: Access, areaWritable: bool, stackOk: bool, a: Alloc, b: Alloc, c: Alloc)
    requires Inv(vm) && FreshFrame(vm, a) && FreshFrame(vm, b) && FreshFrame(vm, c)
    requires !LeakCondition(vm, l, acc, areaWritable, stackOk, b, c)
    ensures var (t, o) := HandleFault(vm, l, acc, areaWritable, stackOk, a, b, c); View(t) == FaultView(View(vm), l, o)
  {
    if FillsZero(vm, l, acc, a) {
      assert GoodLeaf(vm, l);
      InstallView(vm, l, a.frame, ZeroPage(), vm.ptes[l].write, vm.ptes[l].nx);
      assert View(vm)[l] == Memory(ZeroPage(), vm.ptes[l].write, vm.ptes[l].nx);
    } else if GrowsStack(vm, l, acc, stackOk, b) {
      InstallView(vm, l, b.frame, ZeroPage(), true, true);
    } else if WantsWrite(vm, l, acc, areaWritable) && vm.ptes[l].Present? {
      MappedHasCount(vm, l);
      if Ref(vm, vm.ptes[l].frame) == 1 {
        UnprotectKeepsInv(vm, l);
      } else if c.Got? {
        CopyView(vm, l, c.frame);
      }
    }
  }

  // ---------------------------------------------------------------- user writes

  function StoreByte(d: Data, off: nat, value: nat): Data { if off < |d| then d[off := value] else d }

  predicate CanStore(vm: Vm, l: Loc) { l in vm.ptes && vm.ptes[l].Present? && vm.ptes[l].write }

  /** A store through a writable leaf. */
  function Store(vm: Vm, l: Loc, off: nat, value: nat): Vm
    requires CanStore(vm, l)
  {
    var f := vm.ptes[l].frame;
    vm.(mem := vm.mem[f := StoreByte(if f in vm.mem then vm.mem[f] else [], off, value)])
  }

  lemma StoreIsPrivate(vm: Vm, l: Loc, off: nat, value: nat)
    requires Inv(vm) && CanStore(vm, l)
    ensures Inv(Store(vm, l, off, value))
    ensures l in View(vm) && View(vm)[l].Memory?
    ensures View(Store(vm, l, off, value)) == View(vm)[l := View(vm)[l].(data := StoreByte(View(vm)[l].data, off, value))]
  {
    var t := Store(vm, l, off, value);
    assert GoodLeaf(vm, l);
    forall k | k in t.ptes ensures GoodLeaf(t, k) { assert GoodLeaf(vm, k); }
    forall k | k in vm.ptes && k != l ensures See(t.mem, t.ptes[k]) == See(vm.mem, vm.ptes[k]) {
      if Maps(vm.ptes, k, vm.ptes[l].frame) { SoleMapping(vm, l, k, vm.ptes[l].frame); }
    }
  }

  // ---------------------------------------------------------------- fork

  /** Share one leaf with the child: drop write permission, count the new mapping, copy the entry. */
  function CloneLeaf(vm: Vm, parent: nat, child: nat, page: nat): Vm {
    var l, c := Loc(parent, page), Loc(child, page);
    if l !in vm.ptes then vm
    else
      match vm.ptes[l]
      case Software(w, dz, g, nx, _) =>
        if dz || g then vm.(ptes := vm.ptes[c := Software(w, dz, g, nx, 0)]) else vm
      case Present(f, w, cow, nx) =>
        var shared := Present(f, false, w || cow, nx);
        vm.(ptes := vm.ptes[l := shared][c := shared], refs := vm.refs[f := Ref(vm, f) + 1])
  }

  function CloneLeaves(vm: Vm, parent: nat, child: nat, pages: seq<nat>): Vm
    decreases |pages|
  {
    if pages == [] then vm else CloneLeaves(CloneLeaf(vm, parent, child, pages[0]), parent, child, pages[1..])
  }

  lemma CloneLeafKeepsInv(vm: Vm, parent: nat, child: nat, page: nat)
    requires Inv(vm) && child in vm.spaces && child != parent && Loc(child, page) !in vm.ptes
    ensures Inv(CloneLeaf(vm, parent, child, page))
  {
    var l, c, t := Loc(parent, page), Loc(child, page), CloneLeaf(vm, parent, child, page);
    if l in vm.ptes {
      assert GoodLeaf(vm, l);
      var p := t.ptes[l];
      forall g ensures Ref(t, g) == |Mappings(t.ptes, g)| {
        MappingsAfter(vm.ptes, l, p, g);
        MappingsAfter(vm.ptes[l := p], c, t.ptes[c], g);
        assert vm.ptes[l].Software? ==> vm.ptes[l := p] == vm.ptes;
      }
      forall k | k in t.ptes ensures GoodLeaf(t, k) {
        if k != l && k != c {
          assert GoodLeaf(vm, k);
          if vm.ptes[k].Present? && vm.ptes[k].write && Maps(vm.ptes, l, vm.ptes[k].frame) {
            SoleMapping(vm, l, k, vm.ptes[k].frame);
          }
        }
      }
    }
  }

  lemma CloneLeafView(vm: Vm, parent: nat, child: nat, page: nat)
    requires Inv(vm) && child != parent
    ensures var l := Loc(parent, page);
            View(CloneLeaf(vm, parent, child, page)) ==
            if l in View(vm) then View(vm)[Loc(child, page) := View(vm)[l]] else View(vm)
  {
    var l := Loc(parent, page);
    if l in vm.ptes { assert GoodLeaf(vm, l); }
  }

  /** Where page l of the view comes from after copying the listed pages of parent to child. */
  function Source(view: map<Loc, Seen>, parent: nat, child: nat, pages: seq<nat>, l: Loc): Loc {
    if l.space == child && l.page in pages && Loc(parent, l.page) in view then Loc(parent, l.page) else l
  }

  /** `after` is `view` with the listed pages of parent copied to child. */
  ghost predicate Copied(view: map<Loc, Seen>, after: map<Loc, Seen>, parent: nat, child: nat, pages: seq<nat>) {
    && (forall l :: l in after <==> Source(view, parent, child, pages, l) in view)
    && (forall l :: l in after ==> after[l] == view[Source(view, parent, child, pages, l)])
  }

  lemma {:induction false} CloneLeavesCopies(vm: Vm, parent: nat, child: nat, pages: seq<nat>)
    requires Inv(vm) && child in vm.spaces && child != parent && Distinct(pages)
    requires forall q :: q in pages ==> Loc(child, q) !in vm.ptes
    ensures Inv(CloneLeaves(vm, parent, child, pages)) && CloneLeaves(vm, parent, child, pages).spaces == vm.spaces
    ensures Copied(View(vm), View(CloneLeaves(vm, parent, child, pages)), parent, child, pages)
    decreases |pages|
  {
    if pages != [] {
      var u, rest := CloneLeaf(vm, parent, child, pages[0]), pages[1..];
      CloneLeafKeepsInv(vm, parent, child, pages[0]);
      CloneLeafView(vm, parent, child, pages[0]);
      CloneLeavesCopies(u, parent, child, rest);
      CopiedStep(View(vm), View(u), View(CloneLeaves(u, parent, child, rest)), parent, child, pages);
    }
  }

  lemma CopiedStep(view: map<Loc, Seen>, mid: map<Loc, Seen>, after: map<Loc, Seen>, parent: nat, child: nat, pages: seq<nat>)
    requires pages != [] && child != parent && pages[0] !in pages[1..]
    requires var l := Loc(parent, pages[0]); mid == if l in view then view[Loc(child, pages[0]) := view[l]] else view
    requires Copied(mid, after, parent, child, pages[1..])
    ensures Copied(view, after, parent, child, pages)
  {
    forall l ensures l in after <==> Source(view, parent, child, pages, l) in view {
      assert l in after <==> Source(mid, parent, child, pages[1..], l) in mid;
    }
    forall l | l in after ensures after[l] == view[Source(view, parent, child, pages, l)] {
      assert after[l] == mid[Source(mid, parent, child, pages[1..], l)];
    }
  }

  predicate CanFork(vm: Vm, parent: nat, child: nat, pages: seq<nat>) {
    && parent in vm.spaces && child !in vm.spaces
    && (forall i, j :: 0 <= i < j < |pages| ==> pages[i] != pages[j])
    && (forall l :: l in vm.ptes && l.space == parent ==> l.page in pages)
  }

  /** clone_address_space: the pages are the user leaves of the parent, in walk order. */
  function Fork(vm: Vm, parent: nat, child: nat, pages: seq<nat>): Vm {
    CloneLeaves(vm.(spaces := vm.spaces + {child}), parent, child, pages)
  }

  /** Fork gives the child exactly the parent's memory and changes nobody else's. */
  lemma ForkIsDeepCopy(vm: Vm, parent: nat, child: nat, pages: seq<nat>)
    requires Inv(vm) && CanFork(vm, parent, child, pages)
    ensures Inv(Fork(vm, parent, child, pages))
    ensures View(Fork(vm, parent, child, pages)) == DeepCopy(View(vm), parent, child)
  {
    var u := vm.(spaces := vm.spaces + {child});
    assert Inv(u) by {
      forall l | l in u.ptes ensures GoodLeaf(u, l) { assert GoodLeaf(vm, l); }
    }
    forall l: Loc | l.space == child ensures l !in vm.ptes {
      assert l in vm.ptes ==> GoodLeaf(vm, l);
    }
    CloneLeavesCopies(u, parent, child, pages);
    assert View(u) == View(vm);
    CopiedIsDeepCopy(View(vm), View(Fork(vm, parent, child, pages)), parent, child, pages);
  }

  /** The deep copy of one address space: the child holds every page of the parent. */
  function DeepCopy(view: map<Loc, Seen>, parent: nat, child: nat): map<Loc, Seen> {
    var copies := set k | k in view && k.space == parent :: Loc(child, k.page);
    map l | l in view.Keys + copies :: if l in copies then view[Loc(parent, l.page)] else view[l]
  }

  lemma CopiedIsDeepCopy(view: map<Loc, Seen>, after: map<Loc, Seen>, parent: nat, child: nat, pages: seq<nat>)
    requires Copied(view, after, parent, child, pages) && child != parent
    requires forall l :: l in view ==> l.space != child && (l.space == parent ==> l.page in pages)
    ensures after == DeepCopy(view, parent, child)
  {
    var copies := set k | k in view && k.space == parent :: Loc(child, k.page);
    forall l ensures l in copies <==> l.space == child && Loc(parent, l.page) in view {
      if l.space == child && Loc(parent, l.page) in view { assert Loc(child, Loc(parent, l.page).page) == l; }
    }
    forall l ensures l in after <==> l in DeepCopy(view, parent, child) {}
  }

  // ---------------------------------------------------------------- unmapping and teardown

  /** Drop a leaf and the reference it held. */
  function Unmap(vm: Vm, l: Loc): Vm {
    if l !in vm.ptes then vm
    else if vm.ptes[l].Software? then vm.(ptes := vm.ptes - {l})
    else
      var f := vm.ptes[l].frame;
      var left: nat := if Ref(vm, f) > 0 then Ref(vm, f) - 1 else 0;
      vm.(ptes := vm.ptes - {l}, refs := vm.refs[f := left])
  }

  lemma MappingsWithout(ptes: map<Loc, Pte>, l: Loc, f: Frame)
    ensures |Mappings(ptes - {l}, f)| == |Mappings(ptes, f)| - One(Maps(ptes, l, f))
  {
    forall k ensures k in Mappings(ptes - {l}, f) <==> k in Mappings(ptes, f) && k != l {
      assert k in Mappings(ptes - {l}, f) <==> Maps(ptes - {l}, k, f);
      assert k in Mappings(ptes, f) <==> Maps(ptes, k, f);
    }
    assert Mappings(ptes - {l}, f) == Mappings(ptes, f) - {l};
  }

  lemma UnmapKeepsInv(vm: Vm, l: Loc)
    requires Inv(vm)
    ensures Inv(Unmap(vm, l)) && View(Unmap(vm, l)) == View(vm) - {l}
  {
    var t := Unmap(vm, l);
    if l in vm.ptes {
      assert GoodLeaf(vm, l);
      if vm.ptes[l].Present? { MappedHasCount(vm, l); }
      forall g ensures Ref(t, g) == |Mappings(t.ptes, g)| { MappingsWithout(vm.ptes, l, g); }
      forall k | k in t.ptes ensures GoodLeaf(t, k) {
        assert GoodLeaf(vm, k);
        if vm.ptes[k].Present? && vm.ptes[k].write && Maps(vm.ptes, l, vm.ptes[k].frame) {
          SoleMapping(vm, l, k, vm.ptes[k].frame);
        }
      }
    }
  }

  function UnmapAll(vm: Vm, space: nat, pages: seq<nat>): Vm
    decreases |pages|
  {
    if pages == [] then vm else UnmapAll(Unmap(vm, Loc(space, pages[0])), space, pages[1..])
  }

  function LocsOf(space: nat, pages: seq<nat>): set<Loc> { set q | q in pages :: Loc(space, q) }

  lemma {:induction false} UnmapAllKeepsInv(vm: Vm, space: nat, pages: seq<nat>)
    requires Inv(vm)
    ensures Inv(UnmapAll(vm, space, pages)) && UnmapAll(vm, space, pages).spaces == vm.spaces
    ensures View(UnmapAll(vm, space, pages)) == View(vm) - LocsOf(space, pages)
    decreases |pages|
  {
    if pages != [] {
      var u := Unmap(vm, Loc(space, pages[0]));
      UnmapKeepsInv(vm, Loc(space, pages[0]));
      UnmapAllKeepsInv(u, space, pages[1..]);
      LocsOfHead(space, pages);
      assert View(vm) - {Loc(space, pages[0])} - LocsOf(space, pages[1..]) == View(vm) - LocsOf(space, pages);
    } else {
      assert View(vm) - LocsOf(space, []) == View(vm);
    }
  }

  lemma LocsOfHead(space: nat, pages: seq<nat>)
    requires pages != []
    ensures LocsOf(space, pages) == {Loc(space, pages[0])} + LocsOf(space, pages[1..])
  {
    forall l ensures l in LocsOf(space, pages) <==> l in {Loc(space, pages[0])} + LocsOf(space, pages[1..]) {
      assert l in LocsOf(space, pages) <==> l.space == space && l.page in pages;
      assert l in LocsOf(space, pages[1..]) <==> l.space == space && l.page in pages[1..];
    }
  }

  predicate CanExit(vm: Vm, space: nat, pages: seq<nat>) {
    space in vm.spaces && forall l :: l in vm.ptes && l.space == space ==> l.page in pages
  }

  /** destroy_user_address_space: drop every user leaf, then the tables. */
  function Exit(vm: Vm, space: nat, pages: seq<nat>): Vm {
    var t := UnmapAll(vm, space, pages);
    t.(spaces := t.spaces - {space})
  }

  function WithoutSpace(view: map<Loc, Seen>, space: nat): map<Loc, Seen> { map l | l in view && l.space != space :: view[l] }

  lemma ExitRemovesSpace(vm: Vm, space: nat, pages: seq<nat>)
    requires Inv(vm) && CanExit(vm, space, pages)
    ensures Inv(Exit(vm, space, pages)) && View(Exit(vm, space, pages)) == WithoutSpace(View(vm), space)
  {
    var u := UnmapAll(vm, space, pages);
    var t := Exit(vm, space, pages);
    UnmapAllKeepsInv(vm, space, pages);
    forall l ensures l in LocsOf(space, pages) <==> l.space == space && l.page in pages {}
    assert View(t) == View(u);
    forall l | l in t.ptes ensures GoodLeaf(t, l) {
      assert GoodLeaf(u, l) && l in View(u);
    }
  }

  // ---------------------------------------------------------------- runs

  /** One event; the frames are what the allocator answered, the page lists what the table walk met. */
  datatype Op =
    | Fault(l: Loc, acc: Access, areaWritable: bool, stackOk: bool, a: Alloc, b: Alloc, c: Alloc)
    | UserStore(l: Loc, off: nat, value: nat)
    | ForkTo(parent: nat, child: nat, pages: seq<nat>)
    | MapZero(l: Loc, write: bool, nx: bool)
    | Drop(l: Loc)
    | Teardown(space: nat, pages: seq<nat>)

  /** What the allocator, the table walk and the caller guarantee; leaking faults are shut out. */
  predicate Legal(vm: Vm, op: Op) {
    match op
    case Fault(l, acc, w, s, a, b, c) =>
      FreshFrame(vm, a) && FreshFrame(vm, b) && FreshFrame(vm, c) && !LeakCondition(vm, l, acc, w, s, b, c)
    case UserStore(_, _, _) => true
    case ForkTo(p, c, pages) => CanFork(vm, p, c, pages)
    case MapZero(l, _, _) => l.space in vm.spaces && l !in vm.ptes
    case Drop(_) => true
    case Teardown(s, pages) => CanExit(vm, s, pages)
  }

  function Step(vm: Vm, op: Op): Vm {
    match op
    case Fault(l, acc, w, s, a, b, c) => HandleFault(vm, l, acc, w, s, a, b, c).0
    case UserStore(l, off, v) => if CanStore(vm, l) then Store(vm, l, off, v) else vm
    case ForkTo(p, c, pages) => Fork(vm, p, c, pages)
    case MapZero(l, w, nx) => vm.(ptes := vm.ptes[l := Software(w, true, false, nx, 0)])
    case Drop(l) => Unmap(vm, l)
    case Teardown(s, pages) => Exit(vm, s, pages)
  }

  /** What the machine decided: how a fault ended, and whether a store went through. */
  datatype Decision = Decision(fault: Outcome, stored: bool)

  function Decide(vm: Vm, op: Op): Decision {
    match op
    case Fault(l, acc, w, s, a, b, c) => Decision(HandleFault(vm, l, acc, w, s, a, b, c).1, false)
    case UserStore(l, _, _) => Decision(Declined, CanStore(vm, l))
    case _ => Decision(Declined, false)
  }

  /** The same event on private memories: fork copies everything, no frame is ever shared. */
  function PrivateStep(view: map<Loc, Seen>, op: Op, d: Decision): map<Loc, Seen> {
    match op
    case Fault(l, _, _, _, _, _, _) => FaultView(view, l, d.fault)
    case UserStore(l, off, v) =>
      if d.stored && l in view && view[l].Memory? then view[l := view[l].(data := StoreByte(view[l].data, off, v))] else view
    case ForkTo(p, c, _) => DeepCopy(view, p, c)
    case MapZero(l, w, nx) => view[l := Memory(ZeroPage(), w, nx)]
    case Drop(l) => view - {l}
    case Teardown(s, _) => WithoutSpace(view, s)
  }

  lemma MapZeroKeepsInv(vm: Vm, l: Loc, w: bool, nx: bool)
    requires Inv(vm) && l.space in vm.spaces && l !in vm.ptes
    ensures Inv(Step(vm, MapZero(l, w, nx)))
  {
    var p := Software(w, true, false, nx, 0);
    var t := vm.(ptes := vm.ptes[l := p]);
    forall g ensures Ref(t, g) == |Mappings(t.ptes, g)| { MappingsAfter(vm.ptes, l, p, g); }
    forall k | k in t.ptes ensures GoodLeaf(t, k) {
      if k != l { assert GoodLeaf(vm, k); }
    }
  }

  /** Every event keeps the invariant and acts on the view as on private memories. */
  lemma StepIsPrivate(vm: Vm, op: Op)
    requires Inv(vm) && Legal(vm, op)
    ensures Inv(Step(vm, op))
    ensures View(Step(vm, op)) == PrivateStep(View(vm), op, Decide(vm, op))
  {
    match op
    case Fault(l, acc, w, s, a, b, c) =>
      FaultKeepsInvIff(vm, l, acc, w, s, a, b, c);
      FaultIsInvisible(vm, l, acc, w, s, a, b, c);
    case UserStore(l, off, v) =>
      if CanStore(vm, l) { StoreIsPrivate(vm, l, off, v); }
    case ForkTo(p, c, pages) => ForkIsDeepCopy(vm, p, c, pages);
    case MapZero(l, w, nx) => MapZeroKeepsInv(vm, l, w, nx);
    case Drop(l) => UnmapKeepsInv(vm, l);
    case Teardown(s, pages) => ExitRemovesSpace(vm, s, pages);
  }

  function Run(vm: Vm, ops: seq<Op>): Vm
    decreases |ops|
  {
    if ops == [] then vm else Run(Step(vm, ops[0]), ops[1..])
  }

  predicate LegalRun(vm: Vm, ops: seq<Op>)
    decreases |ops|
  {
    ops == [] || (Legal(vm, ops[0]) && LegalRun(Step(vm, ops[0]), ops[1..]))
  }

  function Decisions(vm: Vm, ops: seq<Op>): (ds: seq<Decision>)
    ensures |ds| == |ops|
    decreases |ops|
  {
    if ops == [] then [] else [Decide(vm, ops[0])] + Decisions(Step(vm, ops[0]), ops[1..])
  }

  function PrivateRun(view: map<Loc, Seen>, ops: seq<Op>, ds: seq<Decision>): map<Loc, Seen>
    requires |ds| == |ops|
    decreases |ops|
  {
    if ops == [] then view else PrivateRun(PrivateStep(view, ops[0], ds[0]), ops[1..], ds[1..])
  }

  /** Fork isolation: over every run, memory is seen as if fork had deep-copied it. */
  lemma {:induction false} ForkIsolation(vm: Vm, ops: seq<Op>)
    requires Inv(vm) && LegalRun(vm, ops)
    ensures Inv(Run(vm, ops))
    ensures View(Run(vm, ops)) == PrivateRun(View(vm), ops, Decisions(vm, ops))
    decreases |ops|
  {
    if ops != [] {
      StepIsPrivate(vm, ops[0]);
      ForkIsolation(Step(vm, ops[0]), ops[1..]);
      assert Decisions(vm, ops)[1..] == Decisions(Step(vm, ops[0]), ops[1..]);
    }
  }

  /**
   A page the private memory calls writable can be written after one fault if and only if the
   allocator has the frame that the fault asks for: none for the sole user of a frame.
   */
  lemma WritablePageIsWritten(vm: Vm, l: Loc, areaWritable: bool, stackOk: bool, a: Alloc, b: Alloc, c: Alloc)
    requires Inv(vm) && l in View(vm) && View(vm)[l].Memory? && View(vm)[l].writable && !CanStore(vm, l)
    ensures CanStore(HandleFault(vm, l, Access(true, false), areaWritable, stackOk, a, b, c).0, l) <==>
            if vm.ptes[l].Software? then a.Got? || (stackOk && b.Got?) else Ref(vm, vm.ptes[l].frame) == 1 || c.Got?
  {
    assert GoodLeaf(vm, l);
  }
}
