/**
 The physical page allocator. Addresses are page numbers (a physical address divided by 4096);
 sizes and allocation constraints are in bytes. Each method is one critical section of the
 allocator lock.
 */
module PmmSteps {
  import opened Common
  import opened BuddyBlocks
  import opened BuddyOps
  import opened FreeLists
  import RefRadix

  /** The least order whose blocks hold `size` bytes. */
  function SizeToOrder(size: nat): nat {
    if size == 0 then 0
    else if size > UINT64_MAX - (PAGE_SIZE - 1) then ORDERS
    else
      var pages := (size + PAGE_SIZE - 1) / PAGE_SIZE;
      if pages <= 1 then 0 else 1 + FloorLog2(pages - 1)
  }

  lemma SizeToOrderIsLeast(size: nat)
    requires 0 < size <= UINT64_MAX - (PAGE_SIZE - 1)
    ensures var k := SizeToOrder(size);
            && size <= PAGE_SIZE * Pow2(k)
            && forall j: nat :: size <= PAGE_SIZE * Pow2(j) ==> k <= j
  {
    var pages := (size + PAGE_SIZE - 1) / PAGE_SIZE;
    var k := SizeToOrder(size);
    if pages > 1 {
      Pow2IsFloorLog2(pages - 1, k);
      Pow2IsFloorLog2(pages - 1, k - 1);
    }
    forall j: nat | size <= PAGE_SIZE * Pow2(j) ensures k <= j {
      if pages > 1 { Pow2IsFloorLog2(pages - 1, j); }
    }
  }

  /** The lowest set bit of the order mask at or above i, or m + 1. */
  function LowestFrom(mask: set<nat>, i: nat, m: nat): (r: nat)
    ensures i <= m + 1 ==> i <= r <= m + 1
    ensures forall k :: i <= k < r && k <= m ==> k !in mask
    ensures r <= m ==> r in mask
    decreases m + 1 - i
  {
    if i > m then m + 1 else if i in mask then i else LowestFrom(mask, i + 1, m)
  }

  /** The radix tree answers the total map `refs`. */
  ghost predicate CountsAre(refs: map<nat, nat>, t: RefRadix.Radix, total: nat)
    requires total <= RefRadix.MAX_CHUNK * RefRadix.COUNTS_PER_LEAF
  {
    && (forall p :: p in refs <==> 0 <= p < total)
    && (forall p {:trigger RefRadix.Count(t, p)} :: 0 <= p < total ==> refs[p] == RefRadix.Count(t, p))
  }

  /** `meta` is the set of pages that hold the radix tree; they are in range and not free. */
  ghost predicate MetadataOk(place: RefRadix.Places, meta: set<nat>, total: nat, pages: set<nat>) {
    && (forall f :: f in place ==> f == RefRadix.ROOT || f in meta)
    && (forall f :: f in meta ==> f in place && f < total && f !in pages)
  }

  /** The radix tree is a tree, on pages that are in range and not free, and answers `refs`. */
  ghost predicate TreeOk(t: RefRadix.Radix, place: RefRadix.Places, meta: set<nat>, refs: map<nat, nat>, total: nat, pages: set<nat>) {
    && RefRadix.Valid(t, place)
    && total <= RefRadix.MAX_CHUNK * RefRadix.COUNTS_PER_LEAF
    && MetadataOk(place, meta, total, pages)
    && CountsAre(refs, t, total)
  }

  lemma HangOk(t: RefRadix.Radix, place: RefRadix.Places, meta: set<nat>, refs: map<nat, nat>, total: nat, pages: set<nat>,
               f: nat, i: nat, g: nat, leaf: bool)
    requires TreeOk(t, place, meta, refs, total, pages) && g in pages && 0 < g < total
    requires f in t.nodes && i < RefRadix.FANOUT && t.nodes[f][i] == 0 && (leaf <==> |place[f]| == RefRadix.LEVELS - 1)
    ensures RefRadix.CanHang(t, place, f, i, g, leaf)
    ensures TreeOk(RefRadix.Hang(t, f, i, g, leaf), RefRadix.HangPlace(place, f, i, g), meta + {g}, refs, total, pages - {g})
  {
    RefRadix.HangKeepsValid(t, place, f, i, g, leaf);
    forall p | 0 <= p < total ensures refs[p] == RefRadix.Count(RefRadix.Hang(t, f, i, g, leaf), p) {
      RefRadix.HangKeepsCounts(t, place, f, i, g, leaf, p);
    }
  }

  lemma StoreOk(t: RefRadix.Radix, place: RefRadix.Places, meta: set<nat>, refs: map<nat, nat>, total: nat, pages: set<nat>,
                p: nat, value: nat)
    requires TreeOk(t, place, meta, refs, total, pages) && p < total && p / RefRadix.COUNTS_PER_LEAF < RefRadix.MAX_CHUNK
    requires RefRadix.LeafOf(t, p).Found?
    ensures var f := RefRadix.LeafOf(t, p).page;
            && f in t.leaves && |t.leaves[f]| == RefRadix.COUNTS_PER_LEAF
            && TreeOk(RefRadix.Store(t, f, p % RefRadix.COUNTS_PER_LEAF, value), place, meta, refs[p := value], total, pages)
  {
    RefRadix.LeafIsLeaf(t, place, p);
    var f := RefRadix.LeafOf(t, p).page;
    RefRadix.StoreKeepsValid(t, place, f, p % RefRadix.COUNTS_PER_LEAF, value);
    forall q: nat | q < total
      ensures refs[p := value][q] == RefRadix.Count(RefRadix.Store(t, f, p % RefRadix.COUNTS_PER_LEAF, value), q)
    {
      RefRadix.StoreCounts(t, place, p, value, q);
      assert refs[q] == RefRadix.Count(t, q);
    }
  }

  /** The metadata pages grew from m0 to m by pages drawn from the free ones, which shrank from f0 to f. */
  ghost predicate Drawn(f0: set<nat>, m0: set<nat>, f: set<nat>, m: set<nat>) {
    m0 <= m <= m0 + f0 && f == f0 - m
  }

  lemma DrawnTwice(f0: set<nat>, m0: set<nat>, f1: set<nat>, m1: set<nat>, f2: set<nat>, m2: set<nat>)
    requires Drawn(f0, m0, f1, m1) && Drawn(f1, m1, f2, m2)
    ensures Drawn(f0, m0, f2, m2)
  {}

  lemma DrawnOne(f0: set<nat>, m0: set<nat>, g: nat)
    requires g in f0 && f0 !! m0
    ensures Drawn(f0, m0, f0 - {g}, m0 + {g})
  {}

  // ---------------------------------------------------------------- free-list operations

  /** Unlink the block at page a from list k, if it is there. */
  method RemoveBlock(f: FreeState, ghost m: nat, ghost total: nat, ghost pages: set<nat>, a: nat, k: nat)
    returns (found: bool, g: FreeState, ghost after: set<nat>)
    requires f.Ok(m, total, pages) && k < ORDERS
    ensures g.Ok(m, total, after)
    ensures found <==> Block(k, a) in f.Blocks()
    ensures g.Blocks() == if found then f.Blocks() - {Block(k, a)} else f.Blocks()
    ensures !found ==> g == f && after == pages
  {
    var i := 0;
    while i < |f.lists[k]|
      invariant 0 <= i <= |f.lists[k]|
      invariant a !in f.lists[k][..i]
    {
      if f.lists[k][i] == a {
        DropOk(f, m, total, pages, k, i);
        return true, f.Drop(k, i), pages - PageSet(Block(k, a));
      }
      i := i + 1;
    }
    InBlocks(f.lists, Block(k, a));
    return false, f, pages;
  }

  /** Part way through splitting: the part of order i still held is `Block(i, page)`. */
  ghost predicate Splitting(s: set<Block>, g: FreeState, m: nat, total: nat, pages: set<nat>, page: nat, i: nat, order: nat) {
    CanPush(g, m, total, pages, Block(i, page)) && s == SplitRest(g.Blocks(), Block(i, page), order)
  }

  /** One turn of the splitting loop. */
  lemma SplitOnce(s: set<Block>, f: FreeState, m: nat, total: nat, pages: set<nat>, page: nat, i: nat, order: nat)
    requires Splitting(s, f, m, total, pages, page, i, order) && order < i
    ensures i - 1 < |f.lists| && i - 1 < |f.counts|
    ensures Splitting(s, f.Push(page + Pow2(i - 1), i - 1), m, total, pages + PageSet(Upper(Block(i, page))), page, i - 1, order)
  {
    SplitPush(f, m, total, pages, Block(i, page));
  }

  /** Hand back upper halves of the block of order `from` at `page` until the part kept has order `order`. */
  method SplitDown(f: FreeState, ghost m: nat, ghost total: nat, ghost pages: set<nat>, page: nat, from: nat, order: nat)
    returns (g: FreeState, ghost after: set<nat>)
    requires CanPush(f, m, total, pages, Block(from, page)) && order <= from
    ensures g.Ok(m, total, after)
    ensures g.Blocks() == SplitRest(f.Blocks(), Block(from, page), order)
  {
    ghost var s := SplitRest(f.Blocks(), Block(from, page), order);
    g, after := f, pages;
    var i := from;
    while i > order
      invariant order <= i && Splitting(s, g, m, total, after, page, i, order)
    {
      SplitOnce(s, g, m, total, after, page, i, order);
      g, after := g.Push(page + Pow2(i - 1), i - 1), after + PageSet(Upper(Block(i, page)));
      i := i - 1;
    }
  }

  /**
   Pop the smallest sufficient block and split it: the common steps of alloc and of metadata
   allocation. The null checks of the source are dead: the mask is exact and page 0 is never free.
   */
  method TakeBlock(f: FreeState, m: nat, ghost total: nat, ghost pages: set<nat>, order: nat)
    returns (page: nat, g: FreeState, ghost after: set<nat>)
    requires f.Ok(m, total, pages) && order <= m
    ensures g.Ok(m, total, after)
    ensures page == 0 <==> forall b :: b in f.Blocks() ==> b.order < order
    ensures page == 0 ==> g == f && after == pages
    ensures page != 0 ==>
              && IsBlock(Block(order, page)) && End(Block(order, page)) <= total
              && PageSet(Block(order, page)) <= pages && after == pages - PageSet(Block(order, page))
    ensures NoBuddies(f.Blocks(), m) ==> NoBuddies(g.Blocks(), m)
  {
    var i := LowestFrom(f.mask, order, m);
    if i > m {
      forall b | b in f.Blocks() ensures b.order < order { InBlocks(f.lists, b); }
      return 0, f, pages;
    }
    page := f.lists[i][0];
    ghost var s, from := f.Blocks(), Block(i, page);
    DropOk(f, m, total, pages, i, 0);
    RemoveKeeps(s, m, from);
    g, after := SplitDown(f.Drop(i, 0), m, total, pages - PageSet(from), page, i, order);
    TakeEffect(s, m, pages, from, order);
    PagesAreUnique(after, pages - PageSet(Block(order, page)), g.Blocks());
  }

  /** A block that is not aligned has no buddy on the lists. */
  lemma NoBuddyListed(f: FreeState, m: nat, total: nat, pages: set<nat>, addr: nat, order: nat)
    requires f.Ok(m, total, pages) && !Aligned(addr, order)
    ensures Block(order, XorBit(addr, order)) !in f.Blocks()
  {
    var c := Block(order, XorBit(addr, order));
    if c in f.Blocks() {
      XorTwice(addr, order);
      XorBitIsBuddy(c.first, order);
      BuddyIsBlock(c);
    }
  }

  /** Part way through merging b: the pages and bytes on the lists and in hand, whatever b is. */
  ghost predicate Merging(g: FreeState, m: nat, total: nat, pages: set<nat>, after: set<nat>, b: Block, c: Block) {
    && g.Ok(m, total, after) && IsBlock(c) && Within(b, c) && c.order <= m
    && after + PageSet(c) == pages + PageSet(b)
    && |after| + Pow2(c.order) == |pages| + Pow2(b.order)
  }

  lemma MergeOnce(f: FreeState, g: FreeState, m: nat, total: nat, pages: set<nat>, after: set<nat>, left: set<nat>, b: Block, c: Block)
    requires Merging(f, m, total, pages, after, b, c) && c.order < m && Buddy(c) in f.Blocks()
    requires g.Ok(m, total, left) && g.Blocks() == f.Blocks() - {Buddy(c)}
    ensures Merging(g, m, total, pages, left, b, Parent(c))
  {
    BuddyIsBlock(c);
    PagesRemove(f.Blocks(), m, Buddy(c), after);
    PagesAreUnique(left, after - PageSet(Buddy(c)), g.Blocks());
    forall p ensures p in PageSet(Parent(c)) <==> p in PageSet(c) || p in PageSet(Buddy(c)) {
      assert p in PageSet(Parent(c)) <==> Covers(Parent(c), p);
    }
  }

  /** The block in hand goes on its list, and all is well iff it was apart from the free pages and in range. */
  lemma MergeEnds(f: FreeState, g: FreeState, m: nat, total: nat, pages: set<nat>, after: set<nat>, b: Block, c: Block, p: set<nat>)
    requires f.Ok(m, total, pages) && IsBlock(b) && b.order <= m && Merging(g, m, total, pages, after, b, c)
    requires c.order < |g.lists| && c.order < |g.counts| && g.Push(c.first, c.order).Ok(m, total, p)
    ensures CanPush(f, m, total, pages, b)
  {
    var h := g.Push(c.first, c.order);
    PushedBlocks(g, c.first, c.order);
    assert c in h.Blocks();
    forall q: nat ensures q in p <==> q in after + PageSet(c) {
      FreeAdd(g.Blocks(), c, q);
      assert q in p <==> IsFree(h.Blocks(), q);
      assert q in after <==> IsFree(g.Blocks(), q);
    }
    assert p == pages + PageSet(b);
    PageSetSize(b);
    assert |pages + PageSet(b)| == |pages| + |PageSet(b)| - |pages * PageSet(b)|;
    assert pages * PageSet(b) == {};
    forall q: nat | Covers(b, q) ensures !IsFree(f.Blocks(), q) {
      assert q in PageSet(b) && q !in pages * PageSet(b);
    }
    ApartIsTaken(f.Blocks(), b);
  }

  /** As sets of blocks, a push adds its block. */
  lemma PushedBlocks(g: FreeState, a: nat, k: nat)
    requires k < |g.lists| && k < |g.counts|
    ensures g.Push(a, k).Blocks() == g.Blocks() + {Block(k, a)}
  {
    var h := g.Push(a, k);
    forall b ensures b in h.Blocks() <==> b in g.Blocks() + {Block(k, a)} {
      InBlocks(g.lists, b);
      InBlocks(h.lists, b);
    }
  }

  /** The state of the merge loop with block c in hand, whether or not b could be freed. */
  ghost predicate MergeState(f: FreeState, g: FreeState, m: nat, total: nat, pages: set<nat>, after: set<nat>, b: Block, c: Block) {
    && g.Ok(m, total, after) && c.order <= m
    && (IsBlock(b) ==> Merging(g, m, total, pages, after, b, c))
    && (!IsBlock(b) ==> c == b && g == f && after == pages)
    && (CanPush(f, m, total, pages, b) ==>
          CanPush(g, m, total, after, c) && MergeIn(g.Blocks(), c, m) == MergeIn(f.Blocks(), b, m))
  }

  lemma MergeStarts(f: FreeState, m: nat, total: nat, pages: set<nat>, b: Block)
    requires f.Ok(m, total, pages) && b.order <= m
    ensures MergeState(f, f, m, total, pages, pages, b, b)
  {
  }

  /** The block in hand after a buddy was found. */
  function Joined(c: Block): Block {
    var x := XorBit(c.first, c.order);
    Block(c.order + 1, if c.first < x then c.first else x)
  }

  /** Only an aligned block finds a buddy, and that is its own. */
  lemma BuddyFound(f: FreeState, g: FreeState, m: nat, total: nat, pages: set<nat>, after: set<nat>, b: Block, c: Block)
    requires f.Ok(m, total, pages) && MergeState(f, g, m, total, pages, after, b, c)
    requires Block(c.order, XorBit(c.first, c.order)) in g.Blocks()
    ensures IsBlock(b) && IsBlock(c) && Block(c.order, XorBit(c.first, c.order)) == Buddy(c)
    ensures Parent(c) == Joined(c)
  {
    if !IsBlock(b) { NoBuddyListed(f, m, total, pages, b.first, b.order); }
    XorBitIsBuddy(c.first, c.order);
  }

  lemma MergeTurn(f: FreeState, g: FreeState, h: FreeState, m: nat, total: nat, pages: set<nat>, after: set<nat>, left: set<nat>,
                  b: Block, c: Block)
    requires f.Ok(m, total, pages) && MergeState(f, g, m, total, pages, after, b, c)
    requires c.order < m && IsBlock(b) && IsBlock(c) && Buddy(c) in g.Blocks()
    requires h.Ok(m, total, left) && h.Blocks() == g.Blocks() - {Buddy(c)}
    ensures MergeState(f, h, m, total, pages, left, b, Parent(c))
  {
    MergeOnce(g, h, m, total, pages, after, left, b, c);
    if CanPush(f, m, total, pages, b) { MergeStep(g.Blocks(), c, m); }
  }

  lemma MergeFound(f: FreeState, g: FreeState, h: FreeState, m: nat, total: nat, pages: set<nat>, after: set<nat>, left: set<nat>,
                   b: Block, c: Block)
    requires f.Ok(m, total, pages) && MergeState(f, g, m, total, pages, after, b, c) && c.order < m
    requires Block(c.order, XorBit(c.first, c.order)) in g.Blocks() && h.Ok(m, total, left)
    requires h.Blocks() == g.Blocks() - {Block(c.order, XorBit(c.first, c.order))}
    ensures MergeState(f, h, m, total, pages, left, b, Joined(c))
  {
    BuddyFound(f, g, m, total, pages, after, b, c);
    MergeTurn(f, g, h, m, total, pages, after, left, b, c);
  }

  /** The final push: exact lists iff b could be freed. */
  lemma MergeLast(f: FreeState, g: FreeState, m: nat, total: nat, pages: set<nat>, after: set<nat>, b: Block, c: Block)
    requires f.Ok(m, total, pages) && b.order <= m && MergeState(f, g, m, total, pages, after, b, c)
    requires c.order == m || Block(c.order, XorBit(c.first, c.order)) !in g.Blocks()
    ensures c.order < |g.lists| && c.order < |g.counts|
    ensures CanPush(f, m, total, pages, b) ==>
              && g.Push(c.first, c.order).Ok(m, total, pages + PageSet(b))
              && g.Push(c.first, c.order).Blocks() == MergeIn(f.Blocks(), b, m)
    ensures !CanPush(f, m, total, pages, b) ==> forall q :: !g.Push(c.first, c.order).Ok(m, total, q)
  {
    PushedBlocks(g, c.first, c.order);
    if CanPush(f, m, total, pages, b) {
      XorBitIsBuddy(c.first, c.order);
      PushOk(g, m, total, after, c.first, c.order);
    } else {
      forall q ensures !g.Push(c.first, c.order).Ok(m, total, q) {
        if g.Push(c.first, c.order).Ok(m, total, q) {
          assert c in g.Push(c.first, c.order).Blocks();
          MergeEnds(f, g, m, total, pages, after, b, c, q);
        }
      }
    }
  }

  /** One turn of the merge loop: unlinks the buddy of the block in hand and joins the two, if it is free. */
  method MergeNext(ghost f: FreeState, g: FreeState, m: nat, ghost total: nat, ghost pages: set<nat>, ghost after: set<nat>,
                   ghost b: Block, addr: nat, order: nat)
    returns (found: bool, h: FreeState, ghost left: set<nat>, next: nat)
    requires f.Ok(m, total, pages) && order < m && MergeState(f, g, m, total, pages, after, b, Block(order, addr))
    ensures found ==> MergeState(f, h, m, total, pages, left, b, Block(order + 1, next))
    ensures !found ==> h == g && left == after && Block(order, XorBit(addr, order)) !in g.Blocks()
  {
    var buddy := XorBit(addr, order);
    found, h, left := RemoveBlock(g, m, total, after, buddy, order);
    next := if addr < buddy then addr else buddy;
    if found { MergeFound(f, g, h, m, total, pages, after, left, b, Block(order, addr)); }
  }

  /** push_block takes the block in hand iff the block to free is aligned; if it is not, nothing was merged. */
  lemma PushAfterMerge(f: FreeState, g: FreeState, m: nat, total: nat, pages: set<nat>, after: set<nat>, b: Block, c: Block)
    requires MergeState(f, g, m, total, pages, after, b, c)
    ensures PushAccepts(c.first, c.order, m) <==> IsBlock(b)
    ensures !IsBlock(b) ==> g == f && after == pages
  {
    PushAcceptsIff(c.first, c.order, m);
  }

  /**
   The merge loop and the final push of free, for any block it is given. It panics, with the lists as
   they were, if and only if the block is misaligned. The lists stay exact if and only if the block is
   also in range and off the lists; then they gain exactly its pages.
   */
  method MergeBlock(f: FreeState, m: nat, ghost total: nat, ghost pages: set<nat>, page: nat, from: nat)
    returns (panicked: bool, g: FreeState, ghost after: set<nat>)
    requires f.Ok(m, total, pages) && from <= m
    ensures panicked <==> !Aligned(page, from)
    ensures panicked ==> g == f && after == pages
    ensures CanPush(f, m, total, pages, Block(from, page)) ==>
              && g.Ok(m, total, after) && after == pages + PageSet(Block(from, page))
              && g.Blocks() == MergeIn(f.Blocks(), Block(from, page), m)
    ensures !panicked && !CanPush(f, m, total, pages, Block(from, page)) ==> forall p :: !g.Ok(m, total, p)
  {
    ghost var b := Block(from, page);
    MergeStarts(f, m, total, pages, b);
    g, after := f, pages;
    var addr, order, found := page, from, true;
    while found && order < m
      invariant order <= m && MergeState(f, g, m, total, pages, after, b, Block(order, addr))
      invariant !found ==> Block(order, XorBit(addr, order)) !in g.Blocks()
      decreases m - order, found
    {
      var next;
      found, g, after, next := MergeNext(f, g, m, total, pages, after, b, addr, order);
      if found { addr, order := next, order + 1; }
    }
    PushAfterMerge(f, g, m, total, pages, after, b, Block(order, addr));
    if !PushAccepts(addr, order, m) { return true, g, after; }
    MergeLast(f, g, m, total, pages, after, b, Block(order, addr));
    return false, g.Push(addr, order), pages + PageSet(b);
  }

  lemma NothingFree(s: set<Block>, pages: set<nat>)
    requires (forall b :: b in s ==> b.order < 0) && PagesAre(pages, s)
    ensures pages == {}
  {
    forall p: nat ensures p !in pages { assert !IsFree(s, p); }
  }

  /** A zeroed page for the radix tree, or 0. */
  method AllocMetadataPage(f: FreeState, m: nat, ghost total: nat, ghost pages: set<nat>)
    returns (page: nat, g: FreeState, ghost after: set<nat>)
    requires f.Ok(m, total, pages)
    ensures g.Ok(m, total, after)
    ensures page == 0 ==> g == f && after == pages == {}
    ensures page != 0 ==> page < total && page in pages && after == pages - {page}
    ensures NoBuddies(f.Blocks(), m) ==> NoBuddies(g.Blocks(), m)
  {
    page, g, after := TakeBlock(f, m, total, pages, 0);
    SinglePage(page);
    if page == 0 { NothingFree(f.Blocks(), pages); }
  }

  // ---------------------------------------------------------------- reference counts

  /** The state of the allocator: its free lists and its radix tree of counts. */
  datatype Machine = Machine(free: FreeState, radix: RefRadix.Radix)

  /** What the state stands for: the free pages, the metadata pages, where each hangs, and all counts. */
  datatype View = View(pages: set<nat>, meta: set<nat>, place: RefRadix.Places, refs: map<nat, nat>)

  ghost predicate Good(s: Machine, v: View, m: nat, total: nat) {
    s.free.Ok(m, total, v.pages) && TreeOk(s.radix, v.place, v.meta, v.refs, total, v.pages)
  }

  /** From s to t the free pages changed only by drawing metadata pages. */
  ghost predicate OnlyDrew(s: Machine, v: View, t: Machine, w: View, m: nat) {
    Drawn(v.pages, v.meta, w.pages, w.meta) && (NoBuddies(s.free.Blocks(), m) ==> NoBuddies(t.free.Blocks(), m))
  }

  lemma DrewNothing(s: Machine, v: View, m: nat, total: nat)
    requires Good(s, v, m, total)
    ensures OnlyDrew(s, v, s, v, m)
  {}

  lemma DrewTwice(s: Machine, v: View, t: Machine, w: View, u: Machine, x: View, m: nat)
    requires OnlyDrew(s, v, t, w, m) && OnlyDrew(t, w, u, x, m)
    ensures OnlyDrew(s, v, u, x, m)
  {
    DrawnTwice(v.pages, v.meta, w.pages, w.meta, x.pages, x.meta);
  }

  /** Hang a new zeroed page at entry i of node f of the radix tree. */
  method NewTablePage(s: Machine, ghost v: View, m: nat, ghost total: nat, f: nat, i: nat, leaf: bool)
    returns (g: nat, t: Machine, ghost w: View)
    requires Good(s, v, m, total) && f in s.radix.nodes && i < RefRadix.FANOUT && s.radix.nodes[f][i] == 0
    requires leaf <==> |v.place[f]| == RefRadix.LEVELS - 1
    ensures Good(t, w, m, total) && OnlyDrew(s, v, t, w, m) && w.refs == v.refs
    ensures g == 0 ==> t == s && w == v && v.pages == {}
    ensures g != 0 ==>
              && RefRadix.CanHang(s.radix, v.place, f, i, g, leaf)
              && t.radix == RefRadix.Hang(s.radix, f, i, g, leaf)
  {
    var free;
    ghost var after;
    g, free, after := AllocMetadataPage(s.free, m, total, v.pages);
    if g == 0 {
      DrewNothing(s, v, m, total);
      return 0, s, v;
    }
    HangOk(s.radix, v.place, v.meta, v.refs, total, v.pages, f, i, g, leaf);
    DrawnOne(v.pages, v.meta, g);
    t := Machine(free, RefRadix.Hang(s.radix, f, i, g, leaf));
    w := View(after, v.meta + {g}, RefRadix.HangPlace(v.place, f, i, g), v.refs);
  }

  /** From s, only metadata pages were drawn and no count changed. */
  ghost predicate Reached(s: Machine, v: View, t: Machine, w: View, m: nat, total: nat) {
    Good(t, w, m, total) && OnlyDrew(s, v, t, w, m) && w.refs == v.refs
  }

  lemma ReachedNext(s: Machine, v: View, t: Machine, w: View, u: Machine, x: View, m: nat, total: nat)
    requires Reached(s, v, t, w, m, total) && Reached(t, w, u, x, m, total)
    ensures Reached(s, v, u, x, m, total)
  {
    DrewTwice(s, v, t, w, u, x, m);
  }

  /** One level of the walk: the page at `path`, below node `f`, created if wanted. */
  method StepDown(s: Machine, ghost v: View, m: nat, ghost total: nat, path: RefRadix.Path, f: nat, create: bool)
    returns (g: nat, t: Machine, ghost w: View)
    requires Good(s, v, m, total) && path != [] && RefRadix.IsPath(path)
    requires RefRadix.Walk(s.radix, RefRadix.Init(path)) == RefRadix.Found(f)
    ensures Reached(s, v, t, w, m, total)
    ensures g != 0 ==> RefRadix.Walk(t.radix, path) == RefRadix.Found(g)
    ensures g == 0 && create ==> w.pages == {}
    ensures g == 0 ==> RefRadix.Walk(s.radix, path).Missing?
    ensures !create || RefRadix.Walk(s.radix, path).Found? ==> t == s && w == v
  {
    RefRadix.WalkPlace(s.radix, v.place, RefRadix.Init(path));
    DrewNothing(s, v, m, total);
    var idx := RefRadix.Last(path);
    g, t, w := s.radix.nodes[f][idx], s, v;
    if g == 0 && create {
      g, t, w := NewTablePage(s, v, m, total, f, idx, |path| == RefRadix.LEVELS);
      if g != 0 { RefRadix.HangWalkDown(s.radix, v.place, f, g, |path| == RefRadix.LEVELS, path); }
    }
  }

  /** The walk has come down `level` levels, to the table f; what it found was not created. */
  ghost predicate AtLevel(s: Machine, v: View, t: Machine, w: View, m: nat, total: nat, path: RefRadix.Path, level: nat, f: nat, create: bool)
    requires level <= |path|
  {
    && Reached(s, v, t, w, m, total) && RefRadix.Walk(t.radix, path[..level]) == RefRadix.Found(f)
    && (!create || RefRadix.Walk(s.radix, path).Found? ==> t == s && w == v)
  }

  lemma WalkStarts(s: Machine, v: View, m: nat, total: nat, path: RefRadix.Path, create: bool)
    requires Good(s, v, m, total)
    ensures AtLevel(s, v, s, v, m, total, path, 0, RefRadix.ROOT, create)
  {
    DrewNothing(s, v, m, total);
    assert path[..0] == [];
  }

  /** What the step to the next level may rely on. */
  lemma CanStepDown(s: Machine, v: View, t: Machine, w: View, m: nat, total: nat, path: RefRadix.Path, level: nat, f: nat, create: bool)
    requires level < |path| && RefRadix.IsPath(path) && AtLevel(s, v, t, w, m, total, path, level, f, create)
    ensures Good(t, w, m, total) && path[..level + 1] != [] && RefRadix.IsPath(path[..level + 1])
    ensures RefRadix.Walk(t.radix, RefRadix.Init(path[..level + 1])) == RefRadix.Found(f)
  {
    assert RefRadix.Init(path[..level + 1]) == path[..level];
  }

  /** The step found or made the next table, or could not. */
  lemma SteppedDown(s: Machine, v: View, t: Machine, w: View, u: Machine, x: View, m: nat, total: nat,
                    path: RefRadix.Path, level: nat, f: nat, g: nat, create: bool)
    requires level < |path| && AtLevel(s, v, t, w, m, total, path, level, f, create)
    requires Reached(t, w, u, x, m, total)
    requires !create || RefRadix.Walk(t.radix, path[..level + 1]).Found? ==> u == t && x == w
    ensures Reached(s, v, u, x, m, total) && (!create || RefRadix.Walk(s.radix, path).Found? ==> u == s && x == v)
    ensures RefRadix.Walk(u.radix, path[..level + 1]) == RefRadix.Found(g) ==> AtLevel(s, v, u, x, m, total, path, level + 1, g, create)
    ensures RefRadix.Walk(t.radix, path[..level + 1]).Missing? ==> RefRadix.Walk(s.radix, path).Missing?
  {
    ReachedNext(s, v, t, w, u, x, m, total);
    if RefRadix.Walk(s.radix, path[..level + 1]).Missing? { RefRadix.WalkMissing(s.radix, path, level + 1); }
  }

  /**
   Follow a path down the tree, or report 0. With `create`, missing levels are allocated on the way
   down, from the same free lists.
   */
  method WalkDown(s: Machine, ghost v: View, m: nat, ghost total: nat, path: RefRadix.Path, create: bool)
    returns (leaf: nat, t: Machine, ghost w: View)
    requires Good(s, v, m, total) && path != [] && RefRadix.IsPath(path)
    ensures Reached(s, v, t, w, m, total)
    ensures leaf != 0 ==> RefRadix.Walk(t.radix, path) == RefRadix.Found(leaf)
    ensures leaf == 0 && create ==> w.pages == {}
    ensures leaf == 0 ==> RefRadix.Walk(s.radix, path).Missing?
    ensures !create || RefRadix.Walk(s.radix, path).Found? ==> t == s && w == v
  {
    t, w, leaf := s, v, RefRadix.ROOT;
    WalkStarts(s, v, m, total, path, create);
    var level: nat := 0;
    while level < |path|
      invariant level <= |path| && AtLevel(s, v, t, w, m, total, path, level, leaf, create) && (level > 0 ==> leaf != 0)
    {
      ghost var t1, w1, f1 := t, w, leaf;
      CanStepDown(s, v, t, w, m, total, path, level, leaf, create);
      leaf, t, w := StepDown(t, w, m, total, path[..level + 1], leaf, create);
      SteppedDown(s, v, t1, w1, t, w, m, total, path, level, f1, leaf, create);
      if leaf == 0 { return; }
      level := level + 1;
    }
    assert path[..level] == path;
  }

  /** The leaf that holds the count of page pfn, or 0, created if wanted. */
  method GetRefSlot(s: Machine, ghost v: View, m: nat, total: nat, pfn: nat, create: bool)
    returns (leaf: nat, t: Machine, ghost w: View)
    requires Good(s, v, m, total)
    ensures Good(t, w, m, total) && OnlyDrew(s, v, t, w, m) && w.refs == v.refs
    ensures leaf != 0 ==>
              && pfn < total && pfn / RefRadix.COUNTS_PER_LEAF < RefRadix.MAX_CHUNK
              && RefRadix.LeafOf(t.radix, pfn) == RefRadix.Found(leaf)
    ensures leaf == 0 && create && pfn < total ==> w.pages == {}
    ensures leaf == 0 && pfn < total ==> NoSlot(s, pfn) && v.refs[pfn] == 0
    ensures !create || (pfn < total && !NoSlot(s, pfn)) ==> t == s && w == v
  {
    t, w := s, v;
    DrewNothing(s, v, m, total);
    var chunk := pfn / RefRadix.COUNTS_PER_LEAF;
    if pfn >= total || chunk >= RefRadix.MAX_CHUNK { return 0, t, w; }
    leaf, t, w := WalkDown(s, v, m, total, RefRadix.Digits(chunk), create);
    if leaf == 0 { assert RefRadix.Count(s.radix, pfn) == 0; }
  }

  /** The count of the page has no leaf yet. */
  predicate NoSlot(s: Machine, pfn: nat) {
    pfn / RefRadix.COUNTS_PER_LEAF < RefRadix.MAX_CHUNK && RefRadix.LeafOf(s.radix, pfn).Missing?
  }

  /** `after` is `refs` with `value` stored for every page of [first, first + n). */
  ghost predicate CountsSet(refs: map<nat, nat>, after: map<nat, nat>, first: nat, n: nat, value: nat) {
    && (forall p :: p in after <==> p in refs)
    && (forall p :: p in after ==> after[p] == if first <= p < first + n then value else refs[p])
  }

  lemma CountsSetNext(r: map<nat, nat>, s: map<nat, nat>, t: map<nat, nat>, first: nat, n: nat, value: nat)
    requires CountsSet(r, s, first, n, value) && CountsSet(s, t, first + n, 1, value)
    ensures CountsSet(r, t, first, n + 1, value)
  {}

  /** Storing a count in its leaf draws nothing and changes no other count. */
  lemma StoreStep(s: Machine, v: View, t: Machine, w: View, m: nat, total: nat, leaf: nat, pfn: nat, value: nat)
    requires Good(t, w, m, total) && OnlyDrew(s, v, t, w, m) && pfn < total
    requires pfn / RefRadix.COUNTS_PER_LEAF < RefRadix.MAX_CHUNK && RefRadix.LeafOf(t.radix, pfn) == RefRadix.Found(leaf)
    ensures leaf in t.radix.leaves && |t.radix.leaves[leaf]| == RefRadix.COUNTS_PER_LEAF
    ensures var u, x := t.(radix := RefRadix.Store(t.radix, leaf, pfn % RefRadix.COUNTS_PER_LEAF, value)), w.(refs := w.refs[pfn := value]);
            && Good(u, x, m, total) && OnlyDrew(s, v, u, x, m) && CountsSet(w.refs, x.refs, pfn, 1, value)
            && SameLeaves(t.radix, u.radix)
  {
    StoreOk(t.radix, w.place, w.meta, w.refs, total, w.pages, pfn, value);
    StoreLeaves(t.radix, leaf, pfn % RefRadix.COUNTS_PER_LEAF, value);
  }

  /** Every walk ends where it did. */
  ghost predicate SameLeaves(r: RefRadix.Radix, t: RefRadix.Radix) {
    forall path :: RefRadix.Walk(t, path) == RefRadix.Walk(r, path)
  }

  lemma StoreLeaves(r: RefRadix.Radix, f: nat, j: nat, value: nat)
    requires f in r.leaves && j < |r.leaves[f]|
    ensures SameLeaves(r, RefRadix.Store(r, f, j, value))
  {
    forall path ensures RefRadix.Walk(RefRadix.Store(r, f, j, value), path) == RefRadix.Walk(r, path) {
      RefRadix.StoreWalk(r, f, j, value, path);
    }
  }

  /** Store a count, creating its leaf only for a non-zero value. */
  method SetRef(s: Machine, ghost v: View, m: nat, total: nat, pfn: nat, value: nat)
    returns (ok: bool, t: Machine, ghost w: View)
    requires Good(s, v, m, total)
    ensures Good(t, w, m, total) && OnlyDrew(s, v, t, w, m)
    ensures ok ==> CountsSet(v.refs, w.refs, pfn, 1, value) && (value != 0 ==> pfn < total)
    ensures !ok ==> value != 0 && (w.pages == {} || total <= pfn)
    ensures value == 0 ==> ok && t.free == s.free && w == v.(refs := w.refs) && SameLeaves(s.radix, t.radix)
  {
    var leaf;
    leaf, t, w := GetRefSlot(s, v, m, total, pfn, value != 0);
    if leaf == 0 { return value == 0, t, w; }
    StoreStep(s, v, t, w, m, total, leaf, pfn, value);
    ok, t := true, t.(radix := RefRadix.Store(t.radix, leaf, pfn % RefRadix.COUNTS_PER_LEAF, value));
    w := w.(refs := w.refs[pfn := value]);
  }

  /** Give every page of a new allocation count 1, stopping when metadata runs out. */
  method InitRefcounts(s: Machine, ghost v: View, m: nat, total: nat, first: nat, n: nat)
    returns (ok: bool, t: Machine, ghost w: View)
    requires Good(s, v, m, total)
    ensures Good(t, w, m, total) && OnlyDrew(s, v, t, w, m)
    ensures ok ==> CountsSet(v.refs, w.refs, first, n, 1) && (0 < n ==> first + n <= total)
    ensures !ok ==> w.pages == {} || total < first + n
  {
    ok, t, w := true, s, v;
    DrewNothing(s, v, m, total);
    var i: nat := 0;
    while i < n
      invariant i <= n && Good(t, w, m, total) && OnlyDrew(s, v, t, w, m)
      invariant CountsSet(v.refs, w.refs, first, i, 1) && (0 < i ==> first + i <= total)
    {
      ghost var t1, w1 := t, w;
      ok, t, w := SetRef(t, w, m, total, first + i, 1);
      DrewTwice(s, v, t1, w1, t, w, m);
      if !ok { return; }
      CountsSetNext(v.refs, w1.refs, w.refs, first, i, 1);
      i := i + 1;
    }
  }

  /** Clear the counts of a freed block; this allocates nothing. */
  method ClearRefcounts(s: Machine, ghost v: View, m: nat, total: nat, first: nat, n: nat)
    returns (t: Machine, ghost w: View)
    requires Good(s, v, m, total)
    ensures Good(t, w, m, total) && t.free == s.free && w == v.(refs := w.refs)
    ensures CountsSet(v.refs, w.refs, first, n, 0) && SameLeaves(s.radix, t.radix)
  {
    t, w := s, v;
    var i: nat := 0;
    while i < n
      invariant i <= n && Good(t, w, m, total) && t.free == s.free && w == v.(refs := w.refs)
      invariant CountsSet(v.refs, w.refs, first, i, 0) && SameLeaves(s.radix, t.radix)
    {
      ghost var w1 := w;
      var ok;
      ok, t, w := SetRef(t, w, m, total, first + i, 0);
      CountsSetNext(v.refs, w1.refs, w.refs, first, i, 0);
      i := i + 1;
    }
  }
}
