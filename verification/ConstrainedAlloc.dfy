/**
 The address-window search of constrained allocation. Window bounds and alignment are in bytes; an
 alignment is given by its exponent e, so that it is 2^e bytes.
 */
module ConstrainedAlloc {
  import opened Common
  import opened BuddyBlocks
  import opened BuddyOps
  import opened FreeLists
  import opened PmmSteps

  const PAGE_SHIFT := 12

  datatype Candidate = NoRoom | Room(addr: nat)

  predicate IsPow2(n: nat) { n > 0 && Pow2(FloorLog2(n)) == n }

  /** v rounded up to a multiple of 2^e. */
  function AlignUp(v: nat, e: nat): nat
    decreases e
  {
    if e == 0 then v else 2 * AlignUp((v + 1) / 2, e - 1)
  }

  lemma {:induction false} AlignUpIsLeast(v: nat, e: nat)
    ensures v <= AlignUp(v, e) && Aligned(AlignUp(v, e), e)
    ensures forall x: nat :: Aligned(x, e) && v <= x ==> AlignUp(v, e) <= x
    decreases e
  {
    if e == 0 {
      assert Scaled(v, 0) == v;
    } else {
      AlignUpIsLeast((v + 1) / 2, e - 1);
      var q: nat :| Scaled(q, e - 1) == AlignUp((v + 1) / 2, e - 1);
      assert Scaled(q, e) == AlignUp(v, e);
      forall x: nat | Aligned(x, e) && v <= x ensures AlignUp(v, e) <= x {
        var r: nat :| Scaled(r, e) == x;
        assert Aligned(Scaled(r, e - 1), e - 1);
      }
    }
  }

  /** The lowest aligned address in the part of the free block [block, end) that lies in [lo, hi). */
  function RangeCanHold(block: nat, end: nat, size: nat, lo: nat, hi: nat, e: nat): Candidate {
    var from := Max(lo, block);
    var to := Min(hi, end);
    if from >= to || size > to - from then NoRoom
    else if from + (Pow2(e) - 1) > UINT64_MAX then NoRoom
    else
      var addr := AlignUp(from, e);
      if addr > to || size > to - addr then NoRoom else Room(addr)
  }

  /** The address c is a legal place for `size` bytes inside both the block and the window. */
  ghost predicate Legal(block: nat, end: nat, size: nat, lo: nat, hi: nat, e: nat, c: nat) {
    Aligned(c, e) && block <= c && lo <= c && c + size <= end && c + size <= hi
  }

  /** The search finds the lowest legal address or says rightly that there is none; the 64-bit guard rejects none. */
  lemma RangeCanHoldIsExact(block: nat, end: nat, size: nat, lo: nat, hi: nat, e: nat)
    requires size > 0 && hi <= UINT64_MAX && e <= 64
    ensures match RangeCanHold(block, end, size, lo, hi, e)
            case Room(addr) =>
              && Legal(block, end, size, lo, hi, e, addr)
              && forall c: nat :: Legal(block, end, size, lo, hi, e, c) ==> addr <= c
            case NoRoom => forall c: nat :: !Legal(block, end, size, lo, hi, e, c)
  {
    var from := Max(lo, block);
    AlignUpIsLeast(from, e);
    forall c: nat | Legal(block, end, size, lo, hi, e, c)
      ensures RangeCanHold(block, end, size, lo, hi, e).Room?
    {
      ZeroIsAligned(64);
      assert Aligned(0, 64);
      Pow2Of64();
      AlignedFits(c, e, 0, 64);
    }
  }

  lemma Scaled4(x: nat)
    ensures Scaled(x, 4) == 16 * x
  {
    assert Scaled(x, 1) == 2 * Scaled(x, 0);
    assert Scaled(x, 2) == 2 * Scaled(x, 1);
    assert Scaled(x, 3) == 2 * Scaled(x, 2);
  }

  lemma Scaled12(x: nat)
    ensures Scaled(x, 12) == 4096 * x
  {
    Scaled4(x);
    ScaledTwice(x, 4, 4);
    Scaled4(16 * x);
    ScaledTwice(x, 8, 4);
    Scaled4(256 * x);
  }

  lemma {:induction false} Pow2IsScaled(k: nat)
    ensures Pow2(k) == Scaled(1, k)
  {
    if k > 0 { Pow2IsScaled(k - 1); }
  }

  lemma Pow2Of64()
    ensures Pow2(64) == UINT64_MAX + 1
  {
    Pow2IsScaled(64);
    Scaled4(1);
    ScaledTwice(1, 4, 12);
    Scaled12(0x10);
    ScaledTwice(1, 16, 12);
    Scaled12(0x1_0000);
    ScaledTwice(1, 28, 12);
    Scaled12(0x1000_0000);
    ScaledTwice(1, 40, 12);
    Scaled12(0x100_0000_0000);
    ScaledTwice(1, 52, 12);
    Scaled12(0x10_0000_0000_0000);
  }

  /** Byte and page alignment agree. */
  lemma PageAligned(page: nat, e: nat)
    requires e >= PAGE_SHIFT
    ensures Aligned(page * PAGE_SIZE, e) <==> Aligned(page, e - PAGE_SHIFT)
  {
    var j := e - PAGE_SHIFT;
    forall q: nat ensures Scaled(q, e) == Scaled(q, j) * PAGE_SIZE {
      ScaledTwice(q, e - PAGE_SHIFT, PAGE_SHIFT);
      Scaled12(Scaled(q, e - PAGE_SHIFT));
    }
  }

  lemma ByteAlignedIsPage(c: nat, e: nat)
    requires e >= PAGE_SHIFT && Aligned(c, e)
    ensures c == c / PAGE_SIZE * PAGE_SIZE
  {
    var q: nat :| Scaled(q, e) == c;
    var x := Scaled(q, e - PAGE_SHIFT);
    ScaledTwice(q, e - PAGE_SHIFT, PAGE_SHIFT);
    Scaled12(x);
    WholePages(x, c);
  }

  lemma WholePages(x: nat, c: nat)
    requires c == x * PAGE_SIZE
    ensures c == c / PAGE_SIZE * PAGE_SIZE
  {
    assert c / PAGE_SIZE == x;
  }

  /** The search applied to a block of the free lists. */
  function RoomIn(b: Block, size: nat, lo: nat, hi: nat, e: nat): Candidate {
    RangeCanHold(b.first * PAGE_SIZE, End(b) * PAGE_SIZE, size, lo, hi, e)
  }

  /** Scan the lists of order at least `order`, smallest order first, for a block with room. */
  method FindRoom(f: FreeState, m: nat, ghost total: nat, ghost pages: set<nat>, order: nat, size: nat, lo: nat, hi: nat, e: nat)
    returns (found: bool, b: Block, addr: nat)
    requires f.Ok(m, total, pages) && order <= m
    ensures found ==> b in f.Blocks() && order <= b.order && RoomIn(b, size, lo, hi, e) == Room(addr)
    ensures !found ==> forall c :: c in f.Blocks() && order <= c.order ==> RoomIn(c, size, lo, hi, e) == NoRoom
  {
    b, addr := Block(0, 0), 0;
    var i := LowestFrom(f.mask, order, m);
    while i <= m
      invariant order <= i <= m + 1 && (i <= m ==> i in f.mask)
      invariant forall c :: OnList(f.lists, c) && order <= c.order < i ==> RoomIn(c, size, lo, hi, e) == NoRoom
      decreases m + 1 - i
    {
      var l, j := f.lists[i], 0;
      while j < |l|
        invariant 0 <= j <= |l|
        invariant forall k :: 0 <= k < j ==> RoomIn(Block(i, l[k]), size, lo, hi, e) == NoRoom
      {
        b := Block(i, l[j]);
        var room := RoomIn(b, size, lo, hi, e);
        if room.Room? {
          InBlocks(f.lists, b);
          return true, b, room.addr;
        }
        j := j + 1;
      }
      i := LowestFrom(f.mask, i + 1, m);
    }
    forall c | c in f.Blocks() && order <= c.order ensures RoomIn(c, size, lo, hi, e) == NoRoom { InBlocks(f.lists, c); }
    found := false;
  }

  /** A run of 2^order free pages at `page`, aligned to 2^e bytes, inside the byte window [lo, hi). */
  ghost predicate FreeRun(pages: set<nat>, order: nat, lo: nat, hi: nat, e: nat, page: nat) {
    && Aligned(page * PAGE_SIZE, e)
    && lo <= page * PAGE_SIZE && (page + Pow2(order)) * PAGE_SIZE <= hi
    && PageSet(Block(order, page)) <= pages
  }

  lemma RunIsBlock(order: nat, e: nat, page: nat)
    requires e >= PAGE_SHIFT + order && Aligned(page * PAGE_SIZE, e)
    ensures IsBlock(Block(order, page))
  {
    PageAligned(page, e);
    AlignedFewerBy(page, e - PAGE_SHIFT, order);
  }

  /** Room found in a free block is a run of free pages. */
  lemma RoomIsRun(s: set<Block>, pages: set<nat>, b: Block, order: nat, lo: nat, hi: nat, e: nat, addr: nat)
    requires PagesAre(pages, s) && b in s && hi <= UINT64_MAX && PAGE_SHIFT + order <= e <= 64
    requires RoomIn(b, Pow2(order) * PAGE_SIZE, lo, hi, e) == Room(addr)
    ensures var page := addr / PAGE_SIZE;
            && addr == page * PAGE_SIZE && FreeRun(pages, order, lo, hi, e, page)
            && IsBlock(Block(order, page)) && Within(Block(order, page), b)
  {
    RangeCanHoldIsExact(b.first * PAGE_SIZE, End(b) * PAGE_SIZE, Pow2(order) * PAGE_SIZE, lo, hi, e);
    ByteAlignedIsPage(addr, e);
    var page := addr / PAGE_SIZE;
    RunIsBlock(order, e, page);
    forall p | p in PageSet(Block(order, page)) ensures p in pages { assert Covers(b, p) && IsFree(s, p); }
  }

  /** In canonical form a free run lies in one free block, and the search finds room in that block. */
  lemma RunGivesRoom(s: set<Block>, m: nat, pages: set<nat>, order: nat, lo: nat, hi: nat, e: nat, page: nat)
    returns (b: Block)
    requires Canonical(s, m) && PagesAre(pages, s) && order <= m && hi <= UINT64_MAX && PAGE_SHIFT + order <= e <= 64
    requires FreeRun(pages, order, lo, hi, e, page)
    ensures b in s && order <= b.order && RoomIn(b, Pow2(order) * PAGE_SIZE, lo, hi, e).Room?
  {
    var r := Block(order, page);
    RunIsBlock(order, e, page);
    forall p: nat | Covers(r, p) ensures IsFree(s, p) { assert p in PageSet(r); }
    b := CoveringBlock(s, m, r);
    WithinIsOrdered(r, b);
    RangeCanHoldIsExact(b.first * PAGE_SIZE, End(b) * PAGE_SIZE, Pow2(order) * PAGE_SIZE, lo, hi, e);
    assert Legal(b.first * PAGE_SIZE, End(b) * PAGE_SIZE, Pow2(order) * PAGE_SIZE, lo, hi, e, page * PAGE_SIZE);
  }

  /** In canonical form a scan that finds no room proves that the window holds no free run at all. */
  lemma NoRoomMeansNoRun(s: set<Block>, m: nat, pages: set<nat>, order: nat, lo: nat, hi: nat, e: nat)
    requires Canonical(s, m) && PagesAre(pages, s) && order <= m && hi <= UINT64_MAX && PAGE_SHIFT + order <= e <= 64
    requires forall b :: b in s && order <= b.order ==> RoomIn(b, Pow2(order) * PAGE_SIZE, lo, hi, e) == NoRoom
    ensures forall page: nat :: !FreeRun(pages, order, lo, hi, e, page)
  {
    forall page: nat ensures !FreeRun(pages, order, lo, hi, e, page) {
      if FreeRun(pages, order, lo, hi, e, page) { var b := RunGivesRoom(s, m, pages, order, lo, hi, e, page); }
    }
  }
}
