/**
 The operations of the physical page allocator, and the object that holds its state.
 */
module Pmm {
  import opened Common
  import opened BuddyBlocks
  import opened BuddyOps
  import opened FreeLists
  import opened PmmSteps
  import opened ConstrainedAlloc
  import RefRadix

  /** A block whose pages are all taken may be linked in. */
  lemma TakenCanPush(f: FreeState, m: nat, total: nat, pages: set<nat>, b: Block)
    requires f.Ok(m, total, pages) && b.order <= m && IsBlock(b) && 0 < b.first && End(b) <= total
    requires forall p: nat :: Covers(b, p) ==> p !in pages
    ensures CanPush(f, m, total, pages, b)
  {
    forall p: nat | Covers(b, p) ensures !IsFree(f.Blocks(), p) { assert p !in pages; }
    ApartIsTaken(f.Blocks(), b);
  }

  /** One step of the carving loop. */
  lemma CarvePush(f: FreeState, m: nat, total: nat, pages: set<nat>, curr: nat, last: nat)
    requires f.Ok(m, total, pages) && 0 < curr < last <= total
    requires forall p :: curr <= p < last ==> p !in pages
    ensures var b := CarveBlock(curr, last, m);
            var g := f.Push(curr, b.order);
            && g.Ok(m, total, pages + PageSet(b)) && curr < End(b) <= last
            && g.Blocks() + Carve(End(b), last, m) == f.Blocks() + Carve(curr, last, m)
            && (forall p :: p in pages + PageSet(b) <==> p in pages || curr <= p < End(b))
  {
    CarveBlockFits(curr, last, m);
    var b := CarveBlock(curr, last, m);
    TakenCanPush(f, m, total, pages, b);
    PushOk(f, m, total, pages, curr, b.order);
    UnionMoves(f.Blocks(), b, Carve(End(b), last, m));
    forall p ensures p in PageSet(b) <==> curr <= p < End(b) {
      if curr <= p < End(b) { assert Covers(b, p); }
    }
  }

  lemma UnionMoves(s: set<Block>, b: Block, t: set<Block>)
    ensures s + {b} + t == s + (t + {b})
  {}

  /** The lists after linking in [curr, last), whatever they hold already. */
  function PushSpan(f: FreeState, curr: nat, last: nat, m: nat): FreeState
    requires |f.lists| == ORDERS && |f.counts| == ORDERS && m < ORDERS
    decreases last - curr
  {
    if curr >= last then f
    else
      var b := CarveBlock(curr, last, m);
      PushSpan(f.Push(curr, b.order), End(b), last, m)
  }

  /** Link the taken pages [start, last) in as greedily chosen blocks. */
  method PushRange(f: FreeState, m: nat, ghost total: nat, ghost pages: set<nat>, start: nat, last: nat)
    returns (g: FreeState, ghost after: set<nat>)
    requires f.Ok(m, total, pages) && (start < last ==> 0 < start && last <= total)
    requires forall p :: start <= p < last ==> p !in pages
    ensures g.Ok(m, total, after) && |f.lists| == |f.counts| == ORDERS && m < ORDERS && g == PushSpan(f, start, last, m)
    ensures g.Blocks() == f.Blocks() + Carve(start, last, m)
    ensures forall p :: p in after <==> p in pages || start <= p < last
  {
    g, after := f, pages;
    var curr := start;
    while curr < last
      invariant g.Ok(m, total, after) && start <= curr && (curr <= last || curr == start)
      invariant PushSpan(g, curr, last, m) == PushSpan(f, start, last, m)
      invariant g.Blocks() + Carve(curr, last, m) == f.Blocks() + Carve(start, last, m)
      invariant forall p :: p in after <==> p in pages || start <= p < curr
    {
      CarvePush(g, m, total, after, curr, last);
      var b := CarveBlock(curr, last, m);
      after := after + PageSet(b);
      g := g.Push(curr, b.order);
      curr := End(b);
    }
  }

  /** Take the free block b off its list and hand back everything of it except c. */
  method CutBlock(f: FreeState, m: nat, ghost total: nat, ghost pages: set<nat>, b: Block, c: Block)
    returns (g: FreeState, ghost after: set<nat>)
    requires f.Ok(m, total, pages) && b in f.Blocks() && Within(c, b)
    ensures g.Ok(m, total, after) && g.Blocks() == CutOut(f.Blocks(), b, c, m)
    ensures PageSet(c) <= pages && after == pages - PageSet(c)
    ensures NoBuddies(f.Blocks(), m) ==> NoBuddies(g.Blocks(), m)
  {
    CutEffect(f.Blocks(), m, pages, b, c);
    var found, f1, f2;
    ghost var p1, p2;
    InBlocks(f.lists, b);
    found, f1, p1 := RemoveBlock(f, m, total, pages, b.first, b.order);
    RemovedPages(f.Blocks(), m, b, p1);
    f2, p2 := PushRange(f1, m, total, p1, b.first, c.first);
    g, after := PushRange(f2, m, total, p2, End(c), End(b));
    PagesAreUnique(after, pages - PageSet(c), g.Blocks());
  }

  lemma RemovedPages(s: set<Block>, m: nat, b: Block, pages: set<nat>)
    requires Disjoint(s, m) && b in s && PagesAre(pages, s - {b})
    ensures forall p :: b.first <= p < End(b) ==> p !in pages
  {
    forall p: nat | b.first <= p < End(b) ensures p !in pages { RemoveFree(s, m, b, p); }
  }

  // ---------------------------------------------------------------- what the operations promise

  /** A page with a count is neither free nor metadata. */
  ghost predicate CountsSound(v: View) {
    forall p :: p in v.refs && v.refs[p] > 0 ==> p !in v.pages && p !in v.meta
  }

  /** The block b went from free to allocated with count 1 per page; beyond that only metadata was drawn. */
  ghost predicate Allocated(v: View, w: View, b: Block) {
    && IsBlock(b) && PageSet(b) <= v.pages
    && Drawn(v.pages - PageSet(b), v.meta, w.pages, w.meta)
    && CountsSet(v.refs, w.refs, b.first, Pow2(b.order), 1)
  }

  lemma AllocatedIsSound(v: View, w: View, b: Block)
    requires Allocated(v, w, b) && CountsSound(v) && v.pages !! v.meta
    ensures CountsSound(w)
  {
    forall p | p in w.refs && w.refs[p] > 0 ensures p !in w.pages && p !in w.meta {
      assert p in PageSet(b) <==> b.first <= p < b.first + Pow2(b.order) by {
        assert p in PageSet(b) <==> Covers(b, p);
      }
    }
  }

  /** Without a block of order k or more, a canonical allocator has no aligned free run of 2^k pages. */
  lemma NoBlockMeansNoRun(s: set<Block>, m: nat, pages: set<nat>, k: nat)
    requires Canonical(s, m) && PagesAre(pages, s) && k <= m
    requires forall b :: b in s ==> b.order < k
    ensures forall r: Block :: IsBlock(r) && r.order == k ==> !(PageSet(r) <= pages)
  {
    forall r: Block | IsBlock(r) && r.order == k ensures !(PageSet(r) <= pages) {
      if PageSet(r) <= pages {
        forall p: nat | Covers(r, p) ensures IsFree(s, p) { assert p in PageSet(r); }
        var b := CoveringBlock(s, m, r);
        WithinIsOrdered(r, b);
      }
    }
  }

  lemma FreedIsSound(v: View, refs: map<nat, nat>, b: Block)
    requires CountsSound(v) && CountsSet(v.refs, refs, b.first, Pow2(b.order), 0)
    ensures CountsSound(View(v.pages + PageSet(b), v.meta, v.place, refs))
  {
    forall p | p in refs && refs[p] > 0 ensures p !in PageSet(b) && p !in v.pages && p !in v.meta {
      assert p in PageSet(b) <==> Covers(b, p);
    }
  }

  /** Give the pages of a block just taken off the lists their counts. */
  method Commit(s: Machine, ghost v: View, m: nat, total: nat, free: FreeState, ghost after: set<nat>, c: Block)
    returns (ok: bool, t: Machine, ghost w: View)
    requires Good(s, v, m, total) && CountsSound(v) && IsBlock(c) && End(c) <= total
    requires free.Ok(m, total, after) && PageSet(c) <= v.pages && after == v.pages - PageSet(c)
    requires NoBuddies(s.free.Blocks(), m) ==> NoBuddies(free.Blocks(), m)
    ensures ok ==> Good(t, w, m, total) && CountsSound(w) && Allocated(v, w, c)
    ensures ok ==> NoBuddies(s.free.Blocks(), m) ==> NoBuddies(t.free.Blocks(), m)
    ensures !ok ==> w.pages == {}
  {
    TakenIsGood(s, v, free, after, m, total);
    ok, t, w := InitRefcounts(Machine(free, s.radix), v.(pages := after), m, total, c.first, Pow2(c.order));
    if ok { AllocatedIsSound(v, w, c); }
  }

  /** Take the run c out of the free block b and give its pages their counts. */
  method TakeRun(s: Machine, ghost v: View, m: nat, total: nat, b: Block, c: Block) returns (ok: bool, t: Machine, ghost w: View)
    requires Good(s, v, m, total) && CountsSound(v) && b in s.free.Blocks() && Within(c, b) && IsBlock(c) && End(c) <= total
    ensures ok ==> Good(t, w, m, total) && CountsSound(w) && Allocated(v, w, c)
    ensures ok ==> NoBuddies(s.free.Blocks(), m) ==> NoBuddies(t.free.Blocks(), m)
    ensures !ok ==> w.pages == {}
  {
    var free;
    ghost var after;
    free, after := CutBlock(s.free, m, total, v.pages, b, c);
    ok, t, w := Commit(s, v, m, total, free, after, c);
  }

  /** The pages of a block are in range and neither free nor metadata. */
  ghost predicate Taken(v: View, b: Block, total: nat) {
    0 < b.first && End(b) <= total && PageSet(b) !! v.pages && PageSet(b) !! v.meta
  }

  /** What freeing a block that can be given back does. */
  ghost predicate Given(s: Machine, v: View, t: Machine, w: View, b: Block, m: nat) {
    && IsBlock(b) && t.free.Blocks() == MergeIn(s.free.Blocks(), b, m)
    && w.pages == v.pages + PageSet(b) && w.meta == v.meta && CountsSet(v.refs, w.refs, b.first, Pow2(b.order), 0)
    && (NoBuddies(s.free.Blocks(), m) ==> NoBuddies(t.free.Blocks(), m))
  }

  /** The counts of the block are gone and nothing else has changed. */
  ghost predicate Cleared(s: Machine, v: View, t: Machine, w: View, b: Block) {
    t.free == s.free && w == v.(refs := w.refs) && CountsSet(v.refs, w.refs, b.first, Pow2(b.order), 0)
  }

  lemma ClearedIsSound(v: View, refs: map<nat, nat>, b: Block)
    requires CountsSound(v) && CountsSet(v.refs, refs, b.first, Pow2(b.order), 0)
    ensures CountsSound(v.(refs := refs))
  {}

  /**
   Clear the counts of whatever block is named and link it in. A misaligned block panics before it is
   linked in; an aligned one leaves the state sound iff its pages were taken.
   */
  method GiveBlock(s: Machine, ghost v: View, m: nat, total: nat, page: nat, order: nat)
    returns (panicked: bool, t: Machine, ghost w: View)
    requires Good(s, v, m, total) && CountsSound(v) && 0 < page && order <= m
    ensures panicked <==> !Aligned(page, order)
    ensures panicked ==> Good(t, w, m, total) && CountsSound(w) && Cleared(s, v, t, w, Block(order, page))
    ensures !panicked && Taken(v, Block(order, page), total) ==>
              Good(t, w, m, total) && CountsSound(w) && Given(s, v, t, w, Block(order, page), m)
    ensures !panicked && !Taken(v, Block(order, page), total) ==> forall x :: !Good(t, x, m, total)
    ensures SameLeaves(s.radix, t.radix)
  {
    ghost var b := Block(order, page);
    t, w := ClearRefcounts(s, v, m, total, page, Pow2(order));
    var free;
    ghost var after;
    panicked, free, after := MergeBlock(s.free, m, total, v.pages, page, order);
    if panicked {
      ClearedIsSound(v, w.refs, b);
      return;
    }
    if Taken(v, b, total) {
      FreedIsValid(s, v, t, w, free, after, b, m, total);
    } else {
      FreedIsCorrupt(s, v, t, w, free, after, b, m, total);
    }
    t, w := Machine(free, t.radix), w.(pages := after);
  }

  class PhysicalMemory {
    const maxOrder: nat
    const totalPages: nat
    var st: Machine
    ghost var view: View

    ghost predicate Valid()
      reads this
    {
      Good(st, view, maxOrder, totalPages) && CountsSound(view)
    }

    ghost predicate IsCanonical()
      reads this
    {
      NoBuddies(st.free.Blocks(), maxOrder)
    }

    /** The size has an order, and the block of that order at the page is in range. */
    predicate InRange(size: nat, page: nat) {
      0 < size && SizeToOrder(size) <= maxOrder && End(Block(SizeToOrder(size), page)) <= totalPages
    }

    /** A fresh allocator over the given free lists, with no counts yet. */
    constructor (maxOrder: nat, totalPages: nat, free: FreeState, ghost pages: set<nat>)
      requires free.Ok(maxOrder, totalPages, pages) && totalPages <= RefRadix.MAX_CHUNK * RefRadix.COUNTS_PER_LEAF
      ensures Valid() && this.maxOrder == maxOrder && this.totalPages == totalPages && st.free == free
      ensures view.pages == pages && view.meta == {} && forall p :: 0 <= p < totalPages ==> p in view.refs && view.refs[p] == 0
    {
      var radix := RefRadix.Radix(map[RefRadix.ROOT := RefRadix.ZeroNode()], map[]);
      this.maxOrder, this.totalPages, st := maxOrder, totalPages, Machine(free, radix);
      view := View(pages, {}, map[RefRadix.ROOT := []], map p | p in Span(0, totalPages) :: 0);
      RefRadix.EmptyCounts(radix);
      assert forall p: nat :: p in Span(0, totalPages) <==> InSpan(p, 0, totalPages);
    }

    method Alloc(size: nat) returns (page: nat, panicked: bool)
      requires Valid()
      modifies this
      ensures !panicked ==> Valid() && (old(IsCanonical()) ==> IsCanonical())
      ensures !panicked && page != 0 ==> Allocated(old(view), view, Block(SizeToOrder(size), page)) && InRange(size, page)
      ensures !panicked && page == 0 ==> st == old(st) && view == old(view)
      ensures !panicked && page == 0 && 0 < size && SizeToOrder(size) <= maxOrder && old(IsCanonical()) ==>
                forall r: Block :: IsBlock(r) && r.order == SizeToOrder(size) ==> !(PageSet(r) <= old(view.pages))
      ensures panicked ==> view.pages == {}
    {
      var order := SizeToOrder(size);
      if size == 0 || order > maxOrder { return 0, false; }
      var free;
      ghost var after;
      page, free, after := TakeBlock(st.free, maxOrder, totalPages, view.pages, order);
      if page == 0 {
        if IsCanonical() { NoBlockMeansNoRun(st.free.Blocks(), maxOrder, view.pages, order); }
        return 0, false;
      }
      var ok, t;
      ghost var w;
      ok, t, w := Commit(st, view, maxOrder, totalPages, free, after, Block(order, page));
      st, view, panicked := t, w, !ok;
    }

    /** Allocate inside the byte window [minPhys, maxPhys) with a byte alignment. */
    method AllocConstrained(size: nat, minPhys: nat, maxPhys: nat, align: nat) returns (page: nat, panicked: bool)
      requires Valid() && maxPhys <= UINT64_MAX && align <= UINT64_MAX
      modifies this
      ensures !panicked ==> Valid() && (old(IsCanonical()) ==> IsCanonical())
      ensures !panicked && page != 0 ==>
                && Allocated(old(view), view, Block(SizeToOrder(size), page)) && InRange(size, page)
                && FreeRun(old(view.pages), SizeToOrder(size), minPhys, maxPhys, AlignExponent(size, align), page)
      ensures !panicked && page == 0 ==> st == old(st) && view == old(view)
      ensures !panicked && page == 0 && ValidRequest(size, minPhys, maxPhys, align, maxOrder) && old(IsCanonical()) ==>
                forall r: nat :: !FreeRun(old(view.pages), SizeToOrder(size), minPhys, maxPhys, AlignExponent(size, align), r)
      ensures panicked ==> view.pages == {}
    {
      if !ValidRequest(size, minPhys, maxPhys, align, maxOrder) { return 0, false; }
      var order, e := SizeToOrder(size), AlignExponent(size, align);
      ExponentFits(size, align);
      var found, b, addr := FindRoom(st.free, maxOrder, totalPages, view.pages, order, Pow2(order) * PAGE_SIZE, minPhys, maxPhys, e);
      if !found {
        if IsCanonical() { NoRoomMeansNoRun(st.free.Blocks(), maxOrder, view.pages, order, minPhys, maxPhys, e); }
        return 0, false;
      }
      RoomIsRun(st.free.Blocks(), view.pages, b, order, minPhys, maxPhys, e, addr);
      page := addr / PAGE_SIZE;
      var ok, t;
      ghost var w;
      ok, t, w := TakeRun(st, view, maxOrder, totalPages, b, Block(order, page));
      st, view, panicked := t, w, !ok;
    }

    /** No free pages, metadata and counts fit the state. */
    ghost predicate Corrupt()
      reads this
    {
      forall w :: !Good(st, w, maxOrder, totalPages)
    }

    /** The size has an order, and the page is aligned for it. */
    ghost predicate Frees(page: nat, size: nat) { SizeToOrder(size) <= maxOrder && Aligned(page, SizeToOrder(size)) }

    /**
     Free whatever block is named. It panics if and only if the size has no order or the page is not
     aligned for it, in the second case with the counts cleared. Otherwise the state stays sound if and
     only if the pages were taken: freeing free, out of range or metadata pages corrupts it.
     */
    method Free(page: nat, size: nat) returns (panicked: bool)
      requires Valid()
      modifies this
      ensures panicked <==> page != 0 && size != 0 && !Frees(page, size)
      ensures page == 0 || size == 0 || SizeToOrder(size) > maxOrder ==> st == old(st) && view == old(view)
      ensures panicked && SizeToOrder(size) <= maxOrder ==>
                Valid() && Cleared(old(st), old(view), st, view, Block(SizeToOrder(size), page))
      ensures !panicked && page != 0 && size != 0 && Taken(old(view), Block(SizeToOrder(size), page), totalPages) ==>
                Valid() && Given(old(st), old(view), st, view, Block(SizeToOrder(size), page), maxOrder)
      ensures !panicked && page != 0 && size != 0 && !Taken(old(view), Block(SizeToOrder(size), page), totalPages) ==> Corrupt()
      ensures SameLeaves(old(st.radix), st.radix)
    {
      if page == 0 || size == 0 { return false; }
      var order := SizeToOrder(size);
      if order > maxOrder { return true; }
      var t;
      ghost var w;
      panicked, t, w := GiveBlock(st, view, maxOrder, totalPages, page, order);
      st, view := t, w;
    }

    /**
     One more reference to a page; the 32-bit count wraps. Counting a page that is free or metadata
     leaves a count where there must be none.
     */
    method RefPage(page: nat) returns (panicked: bool)
      requires Valid()
      modifies this
      ensures !panicked ==> page < totalPages && Good(st, view, maxOrder, totalPages)
      ensures !panicked ==> OnlyDrew(old(st), old(view), st, view, maxOrder)
      ensures !panicked ==> CountsSet(old(view.refs), view.refs, page, 1, Incremented(old(view.refs[page])))
      ensures !panicked ==> (Valid() <==> page !in old(view.pages) && page !in old(view.meta))
      ensures panicked ==> totalPages <= page || (view.pages == {} && old(view.refs[page]) == 0)
      ensures page < totalPages && old(view.refs[page]) > 0 ==> st.free == old(st.free) && view == old(view).(refs := view.refs)
    {
      var leaf, t;
      ghost var w;
      if page < totalPages && NoSlot(st, page) { NoSlotNoCount(st, view, maxOrder, totalPages, page); }
      leaf, t, w := GetRefSlot(st, view, maxOrder, totalPages, page, true);
      if leaf == 0 {
        view := w;
        return true;
      }
      t, w := AddCount(t, view, w, maxOrder, totalPages, leaf, page);
      st, view, panicked := t, w, false;
    }

    method GetRef(page: nat) returns (value: nat)
      requires Valid()
      ensures value == if page < totalPages then view.refs[page] else 0
    {
      var leaf, t;
      ghost var w;
      leaf, t, w := GetRefSlot(st, view, maxOrder, totalPages, page, false);
      if leaf == 0 { return 0; }
      value := ReadSlot(t, w, maxOrder, totalPages, leaf, page);
    }

    /** A count that was dropped before, of a page that is free or metadata now. */
    ghost predicate DroppedTwice(page: nat)
      requires Valid()
      reads this
    {
      0 < page < totalPages && !NoSlot(st, page) && view.refs[page] == 0 && (page in view.pages || page in view.meta)
    }

    /** The first critical section of unref_page: one less, unless the page has no leaf or no count. */
    method DropRef(page: nat) returns (last: bool)
      requires Valid()
      modifies this
      ensures Valid() && st.free == old(st.free) && view == old(view).(refs := view.refs)
      ensures last <==> page < totalPages && !old(NoSlot(st, page)) && old(view.refs[page]) <= 1
      ensures page >= totalPages || old(view.refs[page]) == 0 ==> st == old(st) && view == old(view)
      ensures page < totalPages && old(view.refs[page]) > 0 ==>
                && (last <==> old(view.refs[page]) == 1)
                && CountsSet(old(view.refs), view.refs, page, 1, old(view.refs[page]) - 1)
      ensures SameLeaves(old(st.radix), st.radix)
    {
      var leaf, t;
      ghost var w;
      leaf, t, w := GetRefSlot(st, view, maxOrder, totalPages, page, false);
      if leaf == 0 { return false; }
      var value;
      value, t, w := DropCount(t, w, maxOrder, totalPages, leaf, page);
      st, view, last := t, w, value <= 1;
    }

    /**
     Drop one reference; the last one frees the page. A page without a leaf is ignored; one with a
     leaf and no count is freed again, and that is sound iff it is neither free nor metadata.
     */
    method UnrefPage(page: nat)
      requires Valid()
      modifies this
      ensures if old(DroppedTwice(page)) then Corrupt() else Valid() && (old(IsCanonical()) ==> IsCanonical())
      ensures page >= totalPages || old(NoSlot(st, page)) ==> st == old(st) && view == old(view)
      ensures page < totalPages && old(view.refs[page]) > 0 ==>
                && view.meta == old(view.meta) && CountsSet(old(view.refs), view.refs, page, 1, old(view.refs[page]) - 1)
      ensures page < totalPages && old(view.refs[page]) > 1 ==> st.free == old(st.free) && view.pages == old(view.pages)
      ensures 0 < page < totalPages && old(view.refs[page]) == 1 ==>
                && IsBlock(Block(0, page)) && view.pages == old(view.pages) + {page}
                && st.free.Blocks() == MergeIn(old(st.free.Blocks()), Block(0, page), maxOrder)
      ensures page < totalPages && !old(NoSlot(st, page)) ==> !NoSlot(st, page)
    {
      if page < totalPages && NoSlot(st, page) { NoSlotNoCount(st, view, maxOrder, totalPages, page); }
      var last := DropRef(page);
      if last {
        PageIsBlock(page);
        var panicked := Free(page, PAGE_SIZE);
      }
    }

    /** Dropping the one reference of a fresh page twice corrupts the allocator, whatever state it was in. */
    method DropTwice() returns (page: nat, panicked: bool)
      requires Valid()
      modifies this
      ensures !panicked && page != 0 ==> Corrupt()
    {
      PageIsBlock(0);
      page, panicked := Alloc(PAGE_SIZE);
      if page == 0 || panicked { return; }
      PageIsBlock(page);
      UnrefPage(page);
      UnrefPage(page);
    }
  }

  lemma NoSlotNoCount(s: Machine, v: View, m: nat, total: nat, page: nat)
    requires Good(s, v, m, total) && page < total && NoSlot(s, page)
    ensures v.refs[page] == 0
  {
    assert RefRadix.Count(s.radix, page) == 0;
  }

  /** A single page is a block of order 0, the order of its size. */
  lemma PageIsBlock(page: nat)
    ensures SizeToOrder(PAGE_SIZE) == 0 && IsBlock(Block(0, page)) && PageSet(Block(0, page)) == {page} && End(Block(0, page)) == page + 1
  {
    SinglePage(page);
    assert Scaled(page, 0) == page && Pow2(0) == 1;
  }

  lemma FreedIsValid(s: Machine, v: View, t: Machine, w: View, free: FreeState, after: set<nat>, b: Block, m: nat, total: nat)
    requires Good(s, v, m, total) && CountsSound(v) && Good(t, w, m, total) && t.free == s.free && w == v.(refs := w.refs)
    requires CountsSet(v.refs, w.refs, b.first, Pow2(b.order), 0)
    requires b.order <= m && IsBlock(b) && 0 < b.first && End(b) <= total && PageSet(b) !! v.pages && PageSet(b) !! v.meta
    requires CanPush(s.free, m, total, v.pages, b) ==>
               free.Ok(m, total, after) && after == v.pages + PageSet(b) && free.Blocks() == MergeIn(s.free.Blocks(), b, m)
    ensures Good(Machine(free, t.radix), w.(pages := after), m, total) && CountsSound(w.(pages := after))
    ensures after == v.pages + PageSet(b) && free.Blocks() == MergeIn(s.free.Blocks(), b, m)
    ensures NoBuddies(s.free.Blocks(), m) ==> NoBuddies(free.Blocks(), m)
  {
    assert forall p: nat :: Covers(b, p) ==> p in PageSet(b);
    TakenCanPush(s.free, m, total, v.pages, b);
    FreedIsSound(v, w.refs, b);
    MergeEffect(s.free.Blocks(), m, v.pages, b);
    FreedIsGood(t, w, free, b, m, total);
  }

  /** A page that holds part of the tree is not free. */
  lemma TablesNotFree(s: Machine, v: View, m: nat, total: nat, p: nat)
    requires Good(s, v, m, total) && p != RefRadix.ROOT && (p in s.radix.nodes || p in s.radix.leaves)
    ensures p !in v.pages
  {
    assert p in v.place;
  }

  lemma FreedIsCorrupt(s: Machine, v: View, t: Machine, w: View, free: FreeState, after: set<nat>, b: Block, m: nat, total: nat)
    requires Good(s, v, m, total) && Good(t, w, m, total) && w.meta == v.meta && b.order <= m && 0 < b.first
    requires !(IsBlock(b) && End(b) <= total && PageSet(b) !! v.pages && PageSet(b) !! v.meta)
    requires CanPush(s.free, m, total, v.pages, b) ==> free.Ok(m, total, after) && after == v.pages + PageSet(b)
    requires !CanPush(s.free, m, total, v.pages, b) ==> forall p :: !free.Ok(m, total, p)
    ensures forall x :: !Good(Machine(free, t.radix), x, m, total)
  {
    if CanPush(s.free, m, total, v.pages, b) {
      forall p: nat | p in PageSet(b) ensures p !in v.pages { assert !IsFree(s.free.Blocks(), p); }
      var p :| p in PageSet(b) && p in v.meta;
      assert p in w.place;
      forall x ensures !Good(Machine(free, t.radix), x, m, total) {
        if Good(Machine(free, t.radix), x, m, total) {
          PagesAreUnique(after, x.pages, free.Blocks());
          TablesNotFree(Machine(free, t.radix), x, m, total, p);
        }
      }
    }
  }

  /** A 32-bit increment. */
  function Incremented(count: nat): nat { (count + 1) % (UINT32_MAX + 1) }

  lemma DrewIsSound(v: View, w: View)
    requires CountsSound(v) && w.refs == v.refs && Drawn(v.pages, v.meta, w.pages, w.meta)
    ensures CountsSound(w)
    ensures forall p :: p !in v.pages && p !in v.meta ==> p !in w.pages && p !in w.meta
  {}

  /** One more count is sound iff the page was neither free nor metadata. */
  lemma CountedSoundly(v: View, w: View, page: nat)
    requires CountsSound(v) && w.refs == v.refs && Drawn(v.pages, v.meta, w.pages, w.meta) && page in v.refs
    ensures Incremented(v.refs[page]) == 0 || (page !in w.pages && page !in w.meta) <==> page !in v.pages && page !in v.meta
  {
    if page in v.pages || page in v.meta { assert v.refs[page] == 0; }
  }

  /** Read the count in a slot. */
  method ReadSlot(s: Machine, ghost v: View, ghost m: nat, ghost total: nat, leaf: nat, page: nat) returns (value: nat)
    requires Good(s, v, m, total) && page < total && page / RefRadix.COUNTS_PER_LEAF < RefRadix.MAX_CHUNK
    requires RefRadix.LeafOf(s.radix, page) == RefRadix.Found(leaf)
    ensures value == v.refs[page]
  {
    CountOfSlot(s, v, m, total, page);
    value := s.radix.leaves[leaf][page % RefRadix.COUNTS_PER_LEAF];
  }

  lemma StoredSoundly(v: View, page: nat, value: nat)
    requires CountsSound(v)
    ensures CountsSound(v.(refs := v.refs[page := value])) <==> value == 0 || (page !in v.pages && page !in v.meta)
  {
    var w := v.(refs := v.refs[page := value]);
    assert w.refs[page] == value;
  }

  /** Overwrite the count in the slot of a page. */
  method StoreSlot(s: Machine, ghost v: View, ghost m: nat, ghost total: nat, leaf: nat, page: nat, value: nat)
    returns (t: Machine, ghost w: View)
    requires Good(s, v, m, total) && page < total && page / RefRadix.COUNTS_PER_LEAF < RefRadix.MAX_CHUNK
    requires RefRadix.LeafOf(s.radix, page) == RefRadix.Found(leaf)
    ensures Good(t, w, m, total) && t.free == s.free && w == v.(refs := w.refs)
    ensures CountsSet(v.refs, w.refs, page, 1, value) && SameLeaves(s.radix, t.radix)
    ensures CountsSound(v) ==> (CountsSound(w) <==> value == 0 || (page !in v.pages && page !in v.meta))
  {
    StoreOk(s.radix, v.place, v.meta, v.refs, total, v.pages, page, value);
    StoreLeaves(s.radix, leaf, page % RefRadix.COUNTS_PER_LEAF, value);
    if CountsSound(v) { StoredSoundly(v, page, value); }
    t := s.(radix := RefRadix.Store(s.radix, leaf, page % RefRadix.COUNTS_PER_LEAF, value));
    w := v.(refs := v.refs[page := value]);
  }

  /** One more in the slot of a page, found after metadata was drawn from v. */
  method AddCount(s: Machine, ghost v: View, ghost x: View, ghost m: nat, ghost total: nat, leaf: nat, page: nat)
    returns (t: Machine, ghost w: View)
    requires Good(s, x, m, total) && CountsSound(v) && x.refs == v.refs && Drawn(v.pages, v.meta, x.pages, x.meta)
    requires page < total && page / RefRadix.COUNTS_PER_LEAF < RefRadix.MAX_CHUNK
    requires RefRadix.LeafOf(s.radix, page) == RefRadix.Found(leaf)
    ensures Good(t, w, m, total) && t.free == s.free && w == x.(refs := w.refs)
    ensures CountsSet(v.refs, w.refs, page, 1, Incremented(v.refs[page]))
    ensures CountsSound(w) <==> page !in v.pages && page !in v.meta
  {
    DrewIsSound(v, x);
    CountedSoundly(v, x, page);
    var value := ReadSlot(s, x, m, total, leaf, page);
    t, w := StoreSlot(s, x, m, total, leaf, page, Incremented(value));
  }

  /** One less in the slot of a page, unless it is 0 already; gives the count it had. */
  method DropCount(s: Machine, ghost v: View, ghost m: nat, ghost total: nat, leaf: nat, page: nat)
    returns (value: nat, t: Machine, ghost w: View)
    requires Good(s, v, m, total) && CountsSound(v) && page < total && page / RefRadix.COUNTS_PER_LEAF < RefRadix.MAX_CHUNK
    requires RefRadix.LeafOf(s.radix, page) == RefRadix.Found(leaf)
    ensures value == v.refs[page] && (value == 0 ==> t == s && w == v)
    ensures Good(t, w, m, total) && CountsSound(w) && t.free == s.free && w == v.(refs := w.refs)
    ensures value > 0 ==> CountsSet(v.refs, w.refs, page, 1, value - 1)
    ensures SameLeaves(s.radix, t.radix)
  {
    value := ReadSlot(s, v, m, total, leaf, page);
    t, w := s, v;
    if value > 0 { t, w := StoreSlot(s, v, m, total, leaf, page, value - 1); }
  }

  /** The slot reached by a walk holds the count of the page. */
  lemma CountOfSlot(s: Machine, v: View, m: nat, total: nat, page: nat)
    requires Good(s, v, m, total) && page < total && page / RefRadix.COUNTS_PER_LEAF < RefRadix.MAX_CHUNK
    requires RefRadix.LeafOf(s.radix, page).Found?
    ensures var leaf := RefRadix.LeafOf(s.radix, page).page;
            && leaf in s.radix.leaves && |s.radix.leaves[leaf]| == RefRadix.COUNTS_PER_LEAF
            && s.radix.leaves[leaf][page % RefRadix.COUNTS_PER_LEAF] == v.refs[page]
  {
    RefRadix.LeafIsLeaf(s.radix, v.place, page);
    assert v.refs[page] == RefRadix.Count(s.radix, page);
  }

  /** The request passes the checks made before the lists are searched. */
  predicate ValidRequest(size: nat, minPhys: nat, maxPhys: nat, align: nat, m: nat) {
    && 0 < size <= UINT64_MAX - (PAGE_SIZE - 1)
    && minPhys < maxPhys
    && SizeToOrder(size) <= m
    && (align == 0 || IsPow2(align))
  }

  /** The exponent of the largest of the wanted alignment, the page and the rounded size. */
  function AlignExponent(size: nat, align: nat): nat {
    Max(if align == 0 then PAGE_SHIFT else FloorLog2(align), PAGE_SHIFT + SizeToOrder(size))
  }

  lemma ExponentFits(size: nat, align: nat)
    requires align <= UINT64_MAX && SizeToOrder(size) < ORDERS
    ensures PAGE_SHIFT + SizeToOrder(size) <= AlignExponent(size, align) <= 64
  {
    if align > 0 {
      Pow2IsFloorLog2(align, 64);
      Pow2Of64();
    }
  }

  lemma FreedIsGood(s: Machine, v: View, free: FreeState, b: Block, m: nat, total: nat)
    requires Good(s, v, m, total) && free.Ok(m, total, v.pages + PageSet(b))
    requires PageSet(b) !! v.meta
    ensures Good(Machine(free, s.radix), v.(pages := v.pages + PageSet(b)), m, total)
  {}

  /** Taking pages off the lists leaves the radix tree alone. */
  lemma TakenIsGood(s: Machine, v: View, free: FreeState, after: set<nat>, m: nat, total: nat)
    requires Good(s, v, m, total) && free.Ok(m, total, after) && after <= v.pages
    ensures Good(Machine(free, s.radix), v.(pages := after), m, total)
    ensures v.pages !! v.meta
  {}
}
