/**
 The allocator from boot on: the memory map is handed over, and then blocks are allocated, inside a
 window or anywhere, and given back, and pages are shared by counting references. The two critical
 sections of unref_page are steps of their own, with any steps in between.
 */
module BootRun {
  import opened Common
  import opened BuddyBlocks
  import opened FreeLists
  import opened PmmSteps
  import opened ConstrainedAlloc
  import opened BootSpans
  import opened Pmm
  import opened Boot
  import RefRadix

  datatype Op =
    | Take(size: nat)
    | TakeIn(size: nat, minPhys: nat, maxPhys: nat, align: nat)
    | Give(page: nat, size: nat)   // free
    | Share(page: nat)             // ref_page
    | Drop(page: nat)              // unref_page up to where it drops the lock
    | Reclaim(page: nat)           // the free at the end of unref_page

  /** What the allocator stands for, and the pages whose last reference is gone but which are not free yet. */
  datatype Books = Books(view: View, limbo: set<nat>)

  /** Pages that someone holds a reference to. */
  ghost function Counted(v: View): set<nat> { set p | p in v.refs && v.refs[p] > 0 }

  /** Every page handed over is free, metadata, held or on its way back, and only one of these. */
  ghost predicate Conserved(handed: set<nat>, b: Books) {
    && handed == b.view.pages + b.view.meta + Counted(b.view) + b.limbo
    && b.limbo !! b.view.pages && b.limbo !! b.view.meta && b.limbo !! Counted(b.view)
    && b.view.pages !! b.view.meta && Counted(b.view) !! b.view.pages && Counted(b.view) !! b.view.meta
  }

  /** The caller holds the only reference to each page of the block. */
  ghost predicate SoleHolder(v: View, page: nat, n: nat) {
    forall p :: page <= p < page + n ==> p in v.refs && v.refs[p] == 1
  }

  /** What callers may ask for: sharing and dropping only what is held, freeing only what nobody else holds. */
  ghost predicate Allowed(op: Op, b: Books, m: nat) {
    match op
    case Take(_) => true
    case TakeIn(_, _, hi, align) => hi <= UINT64_MAX && align <= UINT64_MAX
    case Give(p, size) =>
      0 < p && 0 < size && SizeToOrder(size) <= m && Aligned(p, SizeToOrder(size)) && SoleHolder(b.view, p, Pow2(SizeToOrder(size)))
    case Share(p) => p in b.view.refs && 0 < b.view.refs[p] < UINT32_MAX
    case Drop(p) => p in b.view.refs && 0 < b.view.refs[p]
    case Reclaim(p) => p in b.limbo
  }

  /** An allocation takes one free block; it fails only if no aligned run of free pages of its size exists. */
  ghost predicate Answered(size: nat, page: nat, v: View, w: View, m: nat) {
    if page != 0 then Allocated(v, w, Block(SizeToOrder(size), page))
    else
      && w == v
      && (0 < size && SizeToOrder(size) <= m ==>
            forall r: Block :: IsBlock(r) && r.order == SizeToOrder(size) ==> !(PageSet(r) <= v.pages))
  }

  /** The same inside a window and with an alignment. */
  ghost predicate AnsweredIn(size: nat, lo: nat, hi: nat, align: nat, page: nat, v: View, w: View, m: nat) {
    if page != 0 then
      && Allocated(v, w, Block(SizeToOrder(size), page))
      && FreeRun(v.pages, SizeToOrder(size), lo, hi, AlignExponent(size, align), page)
    else
      && w == v
      && (ValidRequest(size, lo, hi, align, m) ==>
            forall r: nat :: !FreeRun(v.pages, SizeToOrder(size), lo, hi, AlignExponent(size, align), r))
  }

  /** What a step that is allowed does; page is what an allocation returned. */
  ghost predicate Stepped(op: Op, page: nat, b: Books, c: Books, m: nat) {
    var v, w := b.view, c.view;
    match op
    case Take(size) => Answered(size, page, v, w, m) && c.limbo == b.limbo
    case TakeIn(size, lo, hi, align) => AnsweredIn(size, lo, hi, align, page, v, w, m) && c.limbo == b.limbo
    case Give(p, size) =>
      && w.pages == v.pages + PageSet(Block(SizeToOrder(size), p)) && w.meta == v.meta && c.limbo == b.limbo
      && CountsSet(v.refs, w.refs, p, Pow2(SizeToOrder(size)), 0)
    case Share(p) =>
      w == v.(refs := w.refs) && p in v.refs && CountsSet(v.refs, w.refs, p, 1, v.refs[p] + 1) && c.limbo == b.limbo
    case Drop(p) =>
      && w == v.(refs := w.refs) && p in v.refs && v.refs[p] > 0 && CountsSet(v.refs, w.refs, p, 1, v.refs[p] - 1)
      && c.limbo == if v.refs[p] == 1 then b.limbo + {p} else b.limbo
    case Reclaim(p) =>
      w.pages == v.pages + {p} && w.meta == v.meta && CountsSet(v.refs, w.refs, p, 1, 0) && c.limbo == b.limbo - {p}
  }

  // ---------------------------------------------------------------- conservation

  lemma PagesOf(b: Block, p: nat)
    ensures p in PageSet(b) <==> b.first <= p < b.first + Pow2(b.order)
  {
    assert p in PageSet(b) <==> Covers(b, p);
  }

  lemma TakeConserves(handed: set<nat>, v: View, w: View, limbo: set<nat>, b: Block)
    requires Conserved(handed, Books(v, limbo)) && Allocated(v, w, b) && forall p :: p in v.pages ==> p in v.refs
    ensures Conserved(handed, Books(w, limbo))
  {
    forall p ensures p in Counted(w) <==> p in Counted(v) || p in PageSet(b) { if p >= 0 { PagesOf(b, p); } }
    assert Counted(w) == Counted(v) + PageSet(b);
  }

  lemma GiveConserves(handed: set<nat>, v: View, w: View, limbo: set<nat>, b: Block)
    requires Conserved(handed, Books(v, limbo)) && SoleHolder(v, b.first, Pow2(b.order))
    requires w.pages == v.pages + PageSet(b) && w.meta == v.meta && CountsSet(v.refs, w.refs, b.first, Pow2(b.order), 0)
    ensures Conserved(handed, Books(w, limbo))
  {
    forall p ensures p in Counted(w) <==> p in Counted(v) && p !in PageSet(b) { if p >= 0 { PagesOf(b, p); } }
    assert Counted(w) == Counted(v) - PageSet(b);
    forall p | p in PageSet(b) ensures p in Counted(v) { PagesOf(b, p); }
  }

  lemma CountConserves(handed: set<nat>, b: Books, c: Books, p: nat, value: nat)
    requires Conserved(handed, b) && p in b.view.refs && b.view.refs[p] > 0
    requires c.view == b.view.(refs := c.view.refs) && CountsSet(b.view.refs, c.view.refs, p, 1, value)
    requires c.limbo == if value == 0 then b.limbo + {p} else b.limbo
    ensures Conserved(handed, c)
  {
    assert Counted(c.view) == if value == 0 then Counted(b.view) - {p} else Counted(b.view);
  }

  lemma ReclaimConserves(handed: set<nat>, b: Books, c: Books, p: nat)
    requires Conserved(handed, b) && p in b.limbo && Stepped(Reclaim(p), p, b, c, 0)
    ensures Conserved(handed, c)
  {
    assert Counted(c.view) == Counted(b.view);
  }

  /** No step loses a page or gives one two owners. */
  lemma StepConserves(handed: set<nat>, op: Op, page: nat, b: Books, c: Books, m: nat)
    requires Conserved(handed, b) && Allowed(op, b, m) && Stepped(op, page, b, c, m)
    requires forall p :: p in b.view.pages ==> p in b.view.refs
    ensures Conserved(handed, c)
  {
    match op
    case Take(size) => if page != 0 { TakeConserves(handed, b.view, c.view, b.limbo, Block(SizeToOrder(size), page)); }
    case TakeIn(size, _, _, _) => if page != 0 { TakeConserves(handed, b.view, c.view, b.limbo, Block(SizeToOrder(size), page)); }
    case Give(p, size) => GiveConserves(handed, b.view, c.view, b.limbo, Block(SizeToOrder(size), p));
    case Share(p) => CountConserves(handed, b, c, p, b.view.refs[p] + 1);
    case Drop(p) => CountConserves(handed, b, c, p, b.view.refs[p] - 1);
    case Reclaim(p) => ReclaimConserves(handed, b, c, p);
  }

  /** A request that is not allowed is not made. */
  ghost predicate Turn(op: Op, page: nat, b: Books, c: Books, m: nat) {
    if Allowed(op, b, m) then Stepped(op, page, b, c, m) else c == b
  }

  // ---------------------------------------------------------------- one step

  /** The allocator works, is in canonical form and has lost no page. */
  ghost predicate InOrder(mem: PhysicalMemory, limbo: set<nat>, handed: set<nat>)
    reads mem
  {
    && mem.Valid() && mem.IsCanonical() && Conserved(handed, Books(mem.view, limbo))
    && forall p :: p in handed ==> 0 < p < mem.totalPages
  }

  /** Free pages have counts. */
  lemma FreeHasCount(s: Machine, v: View, m: nat, total: nat)
    requires Good(s, v, m, total)
    ensures forall p :: p in v.pages ==> p in v.refs
  {
    forall p: nat | p in v.pages ensures p in v.refs {
      assert IsFree(s.free.Blocks(), p);
      var b :| b in s.free.Blocks() && Covers(b, p);
    }
  }

  method IsSole(mem: PhysicalMemory, page: nat, n: nat) returns (sole: bool)
    requires mem.Valid()
    ensures sole <==> SoleHolder(mem.view, page, n)
  {
    var i := 0;
    while i < n
      invariant 0 <= i <= n && SoleHolder(mem.view, page, i)
    {
      var value := mem.GetRef(page + i);
      if value != 1 {
        assert !(page + i in mem.view.refs && mem.view.refs[page + i] == 1);
        return false;
      }
      i := i + 1;
    }
    return true;
  }

  /** The pages of a sole holder are taken. */
  lemma SoleIsTaken(v: View, b: Block, total: nat)
    requires CountsSound(v) && SoleHolder(v, b.first, Pow2(b.order)) && 0 < b.first && forall p :: p in v.refs <==> 0 <= p < total
    ensures Taken(v, b, total)
  {
    forall p | p in PageSet(b) ensures p !in v.pages && p !in v.meta { PagesOf(b, p); }
    assert b.first + Pow2(b.order) - 1 in v.refs;
  }

  /** A page on its way back is taken. */
  lemma LimboIsTaken(b: Books, handed: set<nat>, page: nat, total: nat)
    requires Conserved(handed, b) && page in b.limbo && page < total && 0 < page
    ensures Taken(b.view, Block(0, page), total) && PageSet(Block(0, page)) == {page}
  {
    PageIsBlock(page);
  }

  lemma ShareTurn(b: Books, c: Books, handed: set<nat>, p: nat, m: nat)
    requires Conserved(handed, b) && p in b.view.refs && 0 < b.view.refs[p] < UINT32_MAX && c.limbo == b.limbo
    requires c.view == b.view.(refs := c.view.refs) && CountsSet(b.view.refs, c.view.refs, p, 1, Incremented(b.view.refs[p]))
    ensures Conserved(handed, c) && Turn(Share(p), 0, b, c, m)
  {
    IncrementedSmall(b.view.refs[p]);
    CountConserves(handed, b, c, p, b.view.refs[p] + 1);
  }

  lemma IncrementedSmall(count: nat)
    requires count < UINT32_MAX
    ensures Incremented(count) == count + 1
  {}

  lemma DropTurn(b: Books, c: Books, handed: set<nat>, p: nat, m: nat)
    requires Conserved(handed, b) && p in b.view.refs && 0 < b.view.refs[p]
    requires c.view == b.view.(refs := c.view.refs) && CountsSet(b.view.refs, c.view.refs, p, 1, b.view.refs[p] - 1)
    requires c.limbo == if b.view.refs[p] == 1 then b.limbo + {p} else b.limbo
    ensures Conserved(handed, c) && Turn(Drop(p), 0, b, c, m)
  {
    CountConserves(handed, b, c, p, b.view.refs[p] - 1);
  }

  lemma ReclaimTurn(b: Books, c: Books, handed: set<nat>, p: nat, m: nat)
    requires Conserved(handed, b) && p in b.limbo && Stepped(Reclaim(p), 0, b, c, m)
    ensures Conserved(handed, c) && Turn(Reclaim(p), 0, b, c, m)
  {
    ReclaimConserves(handed, b, c, p);
  }

  method DoGive(mem: PhysicalMemory, page: nat, size: nat, ghost limbo: set<nat>, ghost handed: set<nat>)
    requires InOrder(mem, limbo, handed)
    modifies mem
    ensures InOrder(mem, limbo, handed)
    ensures Turn(Give(page, size), 0, old(Books(mem.view, limbo)), Books(mem.view, limbo), mem.maxOrder)
  {
    ghost var b, m := Books(mem.view, limbo), mem.maxOrder;
    var order := SizeToOrder(size);
    PushAcceptsIff(page, order, m);
    if page == 0 || size == 0 || !PushAccepts(page, order, mem.maxOrder) { return; }
    var sole := IsSole(mem, page, Pow2(order));
    if !sole { return; }
    SoleIsTaken(mem.view, Block(order, page), mem.totalPages);
    FreeHasCount(mem.st, mem.view, m, mem.totalPages);
    var panicked := mem.Free(page, size);
    StepConserves(handed, Give(page, size), 0, b, Books(mem.view, limbo), m);
  }

  method DoShare(mem: PhysicalMemory, page: nat, ghost limbo: set<nat>, ghost handed: set<nat>)
    requires InOrder(mem, limbo, handed)
    modifies mem
    ensures InOrder(mem, limbo, handed)
    ensures Turn(Share(page), 0, old(Books(mem.view, limbo)), Books(mem.view, limbo), mem.maxOrder)
  {
    ghost var b := Books(mem.view, limbo);
    var value := mem.GetRef(page);
    if value == 0 || value >= UINT32_MAX { return; }
    var panicked := mem.RefPage(page);
    ShareTurn(b, Books(mem.view, limbo), handed, page, mem.maxOrder);
  }

  method DoDrop(mem: PhysicalMemory, page: nat, limbo: set<nat>, ghost handed: set<nat>) returns (now: set<nat>)
    requires InOrder(mem, limbo, handed)
    modifies mem
    ensures InOrder(mem, now, handed)
    ensures Turn(Drop(page), 0, old(Books(mem.view, limbo)), Books(mem.view, now), mem.maxOrder)
  {
    ghost var b := Books(mem.view, limbo);
    var value := mem.GetRef(page);
    if value == 0 { return limbo; }
    var last := mem.DropRef(page);
    now := if last then limbo + {page} else limbo;
    DropTurn(b, Books(mem.view, now), handed, page, mem.maxOrder);
  }

  method DoReclaim(mem: PhysicalMemory, page: nat, limbo: set<nat>, ghost handed: set<nat>) returns (now: set<nat>)
    requires InOrder(mem, limbo, handed)
    modifies mem
    ensures InOrder(mem, now, handed)
    ensures Turn(Reclaim(page), 0, old(Books(mem.view, limbo)), Books(mem.view, now), mem.maxOrder)
  {
    if page !in limbo { return limbo; }
    ghost var b := Books(mem.view, limbo);
    assert page in handed;
    LimboIsTaken(b, handed, page, mem.totalPages);
    PageIsBlock(page);
    var panicked := mem.Free(page, PAGE_SIZE);
    now := limbo - {page};
    ReclaimTurn(b, Books(mem.view, now), handed, page, mem.maxOrder);
  }

  method DoTake(mem: PhysicalMemory, op: Op, ghost limbo: set<nat>, ghost handed: set<nat>) returns (panicked: bool, page: nat)
    requires InOrder(mem, limbo, handed) && (op.Take? || op.TakeIn?)
    modifies mem
    ensures !panicked ==> InOrder(mem, limbo, handed)
    ensures !panicked ==> Turn(op, page, old(Books(mem.view, limbo)), Books(mem.view, limbo), mem.maxOrder)
    ensures panicked ==> mem.view.pages == {}
  {
    ghost var b, m := Books(mem.view, limbo), mem.maxOrder;
    FreeHasCount(mem.st, mem.view, m, mem.totalPages);
    if op.Take? {
      page, panicked := mem.Alloc(op.size);
    } else if op.maxPhys <= UINT64_MAX && op.align <= UINT64_MAX {
      page, panicked := mem.AllocConstrained(op.size, op.minPhys, op.maxPhys, op.align);
    } else {
      return false, 0;
    }
    if !panicked { StepConserves(handed, op, page, b, Books(mem.view, limbo), m); }
  }

  /** One step; only an allocation can panic, and only when no page is left for its counts. */
  method Do(mem: PhysicalMemory, op: Op, limbo: set<nat>, ghost handed: set<nat>) returns (panicked: bool, page: nat, now: set<nat>)
    requires InOrder(mem, limbo, handed)
    modifies mem
    ensures !panicked ==> InOrder(mem, now, handed)
    ensures !panicked ==> Turn(op, page, old(Books(mem.view, limbo)), Books(mem.view, now), mem.maxOrder)
    ensures panicked ==> (op.Take? || op.TakeIn?) && mem.view.pages == {}
  {
    panicked, page, now := false, 0, limbo;
    match op
    case Give(p, size) => DoGive(mem, p, size, limbo, handed);
    case Share(p) => DoShare(mem, p, limbo, handed);
    case Drop(p) => now := DoDrop(mem, p, limbo, handed);
    case Reclaim(p) => now := DoReclaim(mem, p, limbo, handed);
    case _ => panicked, page := DoTake(mem, op, limbo, handed);
  }

  // ---------------------------------------------------------------- runs

  /** The run so far: the books before every step and after the last, each step right and no page lost. */
  ghost predicate IsRun(ops: seq<Op>, pages: seq<nat>, books: seq<Books>, m: nat, handed: set<nat>) {
    && |pages| <= |ops| && |books| == |pages| + 1
    && (forall i :: 0 <= i < |pages| ==> Turn(ops[i], pages[i], books[i], books[i + 1], m))
    && (forall i :: 0 <= i < |books| ==> Conserved(handed, books[i]))
  }

  lemma RunGrows(ops: seq<Op>, pages: seq<nat>, books: seq<Books>, m: nat, handed: set<nat>, page: nat, b: Books)
    requires IsRun(ops, pages, books, m, handed) && |pages| < |ops|
    requires Turn(ops[|pages|], page, books[|pages|], b, m) && Conserved(handed, b)
    ensures IsRun(ops, pages + [page], books + [b], m, handed)
  {
    forall i | 0 <= i < |pages + [page]|
      ensures Turn(ops[i], (pages + [page])[i], (books + [b])[i], (books + [b])[i + 1], m)
    {
      if i < |pages| { assert Turn(ops[i], pages[i], books[i], books[i + 1], m); }
    }
  }

  /** Any sequence of steps of an allocator in canonical form. */
  method RunAll(mem: PhysicalMemory, ops: seq<Op>, ghost handed: set<nat>)
    returns (panicked: bool, pages: seq<nat>, ghost books: seq<Books>)
    requires InOrder(mem, {}, handed)
    modifies mem
    ensures IsRun(ops, pages, books, mem.maxOrder, handed) && books[0] == Books(old(mem.view), {})
    ensures !panicked ==> |pages| == |ops|
  {
    panicked, pages, books := false, [], [Books(mem.view, {})];
    var limbo: set<nat> := {};
    while |pages| < |ops|
      invariant InOrder(mem, limbo, handed)
      invariant IsRun(ops, pages, books, mem.maxOrder, handed)
      invariant books[|pages|] == Books(mem.view, limbo) && books[0] == Books(old(mem.view), {})
    {
      var page;
      panicked, page, limbo := Do(mem, ops[|pages|], limbo, handed);
      if panicked { return; }
      RunGrows(ops, pages, books, mem.maxOrder, handed, page, Books(mem.view, limbo));
      pages, books := pages + [page], books + [Books(mem.view, limbo)];
    }
  }

  /** After boot every page handed over is free. */
  lemma ConservedAtBoot(handed: set<nat>, v: View)
    requires v.pages == handed && v.meta == {} && forall p :: p in v.refs ==> v.refs[p] == 0
    ensures Conserved(handed, Books(v, {}))
  {
    assert Counted(v) == {};
  }

  lemma FreeInRange(free: FreeState, m: nat, total: nat, pages: set<nat>)
    requires free.Ok(m, total, pages)
    ensures forall p :: p in pages ==> 0 < p < total
  {
    forall p: nat | p in pages ensures 0 < p < total { assert IsFree(free.Blocks(), p); }
  }

  method NewMemory(m: nat, total: nat, free: FreeState, ghost handed: set<nat>) returns (mem: PhysicalMemory)
    requires free.Ok(m, total, handed) && NoBuddies(free.Blocks(), m) && total <= RefRadix.MAX_CHUNK * RefRadix.COUNTS_PER_LEAF
    ensures fresh(mem) && InOrder(mem, {}, handed) && mem.maxOrder == m && mem.view.pages == handed
  {
    mem := new PhysicalMemory(m, total, free, handed);
    ConservedAtBoot(handed, mem.view);
    FreeInRange(free, m, total, handed);
  }

  /** The allocator after boot, with any top order for which no two spans cross, unless boot panicked. */
  method Started(m: nat, total: nat, entries: seq<Entry>, reserved: seq<Range>)
    returns (mem: PhysicalMemory?, ghost handed: set<nat>)
    requires m < ORDERS && MapFits(entries, total) && Range(0, 0x10_0000) in reserved && AllApart(Spans(entries, reserved))
    requires total <= RefRadix.MAX_CHUNK * RefRadix.COUNTS_PER_LEAF && NoneCross(Spans(entries, reserved), m)
    ensures mem != null ==> fresh(mem) && InOrder(mem, {}, handed) && mem.maxOrder == m && mem.view.pages == handed
    ensures mem != null ==> forall p: nat :: p in handed <==> Among(Spans(entries, reserved), p)
    ensures mem != null && MapOk(entries, total) && AllProper(reserved) ==>
              forall p: nat :: p in handed <==> Released(p, entries, reserved)
  {
    var panicked, free, managed, direct;
    panicked, free, managed, direct, handed := HandOver(m, total, entries, reserved);
    if panicked { return null, handed; }
    mem := NewMemory(m, total, free, handed);
  }

  /**
   From boot, with the top order it chooses, through any sequence of steps, an allocation fails only if
   no suitable run of free pages exists, and every page handed over is free, metadata, held or on its
   way back. The one premise is on the memory map: no two of the spans cut from it cross.
   */
  method FromBoot(total: nat, entries: seq<Entry>, reserved: seq<Range>, ops: seq<Op>)
    returns (panicked: bool, pages: seq<nat>, ghost books: seq<Books>)
    requires MapFits(entries, total) && Range(0, 0x10_0000) in reserved && AllApart(Spans(entries, reserved))
    requires total <= RefRadix.MAX_CHUNK * RefRadix.COUNTS_PER_LEAF
    requires NoneCross(Spans(entries, reserved), TopOrder(Spans(entries, reserved)))
    ensures IsRun(ops, pages, books, TopOrder(Spans(entries, reserved)), if books == [] then {} else books[0].view.pages) ||
            (panicked && pages == [] && books == [])
    ensures !panicked ==> |pages| == |ops|
    ensures books != [] ==> forall p: nat :: p in books[0].view.pages <==> Among(Spans(entries, reserved), p)
    ensures books != [] && MapOk(entries, total) && AllProper(reserved) ==>
              forall p: nat :: p in books[0].view.pages <==> Released(p, entries, reserved)
  {
    TopOrderFits(Spans(entries, reserved));
    var mem;
    ghost var handed;
    mem, handed := Started(TopOrder(Spans(entries, reserved)), total, entries, reserved);
    if mem == null { return true, [], []; }
    panicked, pages, books := RunAll(mem, ops, handed);
  }
}
