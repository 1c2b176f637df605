/**
 The per-order free lists read as a set of blocks, and the pages that set covers.
 A list holds the first page number of each of its blocks, in link order.
 */
module FreeLists {
  import opened Common
  import opened BuddyBlocks
  import opened BuddyOps

  const ORDERS := 19

  type Lists = seq<seq<nat>>

  /** A list of order k repeats no address, and is empty above the top order. */
  ghost predicate GoodList(l: seq<nat>, k: nat, m: nat) {
    && (k > m ==> l == [])
    && (forall i, j :: 0 <= i < j < |l| ==> l[i] != l[j])
  }

  ghost predicate WellLinked(lists: Lists, m: nat) {
    && |lists| == ORDERS && m < ORDERS
    && (forall k :: 0 <= k < ORDERS ==> GoodList(lists[k], k, m))
  }

  predicate OnList(lists: Lists, b: Block) { b.order < |lists| && b.first in lists[b.order] }

  ghost function BlocksOf(lists: Lists): set<Block> {
    set k, j | 0 <= k < |lists| && 0 <= j < |lists[k]| :: Block(k, lists[k][j])
  }

  lemma InBlocks(lists: Lists, b: Block)
    ensures b in BlocksOf(lists) <==> OnList(lists, b)
  {}

  /** Link a block at the head of its list. */
  function Linked(lists: Lists, a: nat, k: nat): Lists
    requires k < |lists|
  {
    lists[k := [a] + lists[k]]
  }

  /** Unlink entry i of list k. */
  function Unlinked(lists: Lists, k: nat, i: nat): Lists
    requires k < |lists| && i < |lists[k]|
  {
    lists[k := lists[k][..i] + lists[k][i + 1..]]
  }

  lemma LinkedView(lists: Lists, m: nat, a: nat, k: nat)
    requires WellLinked(lists, m) && k <= m && Block(k, a) !in BlocksOf(lists)
    ensures WellLinked(Linked(lists, a, k), m)
    ensures BlocksOf(Linked(lists, a, k)) == BlocksOf(lists) + {Block(k, a)}
  {
    var after := Linked(lists, a, k);
    InBlocks(lists, Block(k, a));
    assert GoodList(lists[k], k, m) && GoodList(after[k], k, m);
    forall b ensures b in BlocksOf(after) <==> b in BlocksOf(lists) + {Block(k, a)} {
      InBlocks(lists, b);
      InBlocks(after, b);
      assert OnList(after, b) <==> OnList(lists, b) || b == Block(k, a);
    }
  }

  lemma WithoutEntry(l: seq<nat>, i: nat, k: nat, m: nat)
    requires GoodList(l, k, m) && i < |l|
    ensures GoodList(l[..i] + l[i + 1..], k, m)
    ensures forall a :: a in l[..i] + l[i + 1..] <==> a in l && a != l[i]
  {
    var r := l[..i] + l[i + 1..];
    assert forall j :: 0 <= j < |r| ==> r[j] == if j < i then l[j] else l[j + 1];
    forall a | a in l && a != l[i] ensures a in r {
      var j :| 0 <= j < |l| && l[j] == a;
      assert r[if j < i then j else j - 1] == a;
    }
  }

  lemma UnlinkedView(lists: Lists, m: nat, k: nat, i: nat)
    requires WellLinked(lists, m) && k < ORDERS && i < |lists[k]|
    ensures WellLinked(Unlinked(lists, k, i), m)
    ensures var b := Block(k, lists[k][i]);
            b in BlocksOf(lists) && BlocksOf(Unlinked(lists, k, i)) == BlocksOf(lists) - {b}
  {
    var after := Unlinked(lists, k, i);
    assert GoodList(lists[k], k, m);
    WithoutEntry(lists[k], i, k, m);
    InBlocks(lists, Block(k, lists[k][i]));
    forall b ensures b in BlocksOf(after) <==> b in BlocksOf(lists) - {Block(k, lists[k][i])} {
      InBlocks(lists, b);
      InBlocks(after, b);
      assert OnList(after, b) <==> OnList(lists, b) && b != Block(k, lists[k][i]);
    }
  }

  // ---------------------------------------------------------------- page sets

  ghost function PageSet(b: Block): set<nat> { set p: nat | p < End(b) && Covers(b, p) }

  /** The set `pages` is exactly the pages covered by the blocks of s. */
  ghost predicate PagesAre(pages: set<nat>, s: set<Block>) {
    forall p: nat {:trigger IsFree(s, p)} :: p in pages <==> IsFree(s, p)
  }

  predicate InSpan(p: nat, first: nat, n: nat) { first <= p < first + n }

  ghost function Span(first: nat, n: nat): set<nat> { set p: nat | p < first + n && InSpan(p, first, n) }

  lemma {:induction false} SpanSize(first: nat, n: nat)
    ensures |Span(first, n)| == n
    decreases n
  {
    if n == 0 {
      assert Span(first, n) == {};
    } else {
      SpanSize(first, n - 1);
      assert Span(first, n) == Span(first, n - 1) + {first + n - 1};
    }
  }

  lemma PageSetSize(b: Block)
    ensures |PageSet(b)| == Pow2(b.order)
  {
    SpanSize(b.first, Pow2(b.order));
    forall p: nat ensures p in PageSet(b) <==> p in Span(b.first, Pow2(b.order)) {
      assert Covers(b, p) <==> InSpan(p, b.first, Pow2(b.order));
    }
    assert PageSet(b) == Span(b.first, Pow2(b.order));
  }

  lemma SinglePage(p: nat)
    ensures PageSet(Block(0, p)) == {p}
  {
    assert Pow2(0) == 1;
    forall q: nat ensures q in PageSet(Block(0, p)) <==> q == p {
      assert Covers(Block(0, p), q) <==> q == p;
    }
  }

  /** Adding a block apart from s adds exactly its pages. */
  lemma PagesAdd(s: set<Block>, b: Block, pages: set<nat>)
    requires Apart(s, b) && PagesAre(pages, s)
    ensures PagesAre(pages + PageSet(b), s + {b})
    ensures pages !! PageSet(b) && |pages + PageSet(b)| == |pages| + Pow2(b.order)
  {
    forall p: nat ensures p in pages + PageSet(b) <==> IsFree(s + {b}, p) {
      FreeAdd(s, b, p);
      assert p in pages <==> IsFree(s, p);
    }
    ApartIsTaken(s, b);
    forall p: nat | p in PageSet(b) ensures p !in pages { assert !IsFree(s, p); }
    PageSetSize(b);
  }

  lemma PagesRemove(s: set<Block>, m: nat, b: Block, pages: set<nat>)
    requires Disjoint(s, m) && b in s && PagesAre(pages, s)
    ensures PagesAre(pages - PageSet(b), s - {b})
    ensures PageSet(b) <= pages && |pages| == |pages - PageSet(b)| + Pow2(b.order)
  {
    forall p: nat ensures p in pages - PageSet(b) <==> IsFree(s - {b}, p) {
      RemoveFree(s, m, b, p);
      assert p in pages <==> IsFree(s, p);
    }
    forall p: nat | p in PageSet(b) ensures p in pages { assert IsFree(s, p); }
    PageSetSize(b);
    assert pages == (pages - PageSet(b)) + PageSet(b);
  }

  // ---------------------------------------------------------------- the lists and their summaries

  /** The free lists, the block count of each order, the non-empty order mask and the free byte count. */
  datatype FreeState = FreeState(lists: Lists, counts: seq<int>, mask: set<nat>, bytes: int) {
    ghost function Blocks(): set<Block> { BlocksOf(lists) }

    /** The per-order counts, the non-empty mask and the free byte count are exact. */
    ghost predicate ExactSummary(pages: set<nat>) {
      && |counts| == |lists| == ORDERS
      && (forall k :: 0 <= k < ORDERS ==> counts[k] == |lists[k]|)
      && (forall k :: k in mask <==> 0 <= k < ORDERS && lists[k] != [])
      && bytes == PAGE_SIZE * |pages|
    }

    /** Blocks are aligned, disjoint, in range and off page 0, cover `pages`, and the summaries are exact. */
    ghost predicate Ok(m: nat, total: nat, pages: set<nat>) {
      && WellLinked(lists, m)
      && Disjoint(Blocks(), m)
      && (forall b :: b in Blocks() ==> 0 < b.first && End(b) <= total)
      && PagesAre(pages, Blocks())
      && ExactSummary(pages)
    }

    function Push(a: nat, k: nat): FreeState
      requires k < |lists| && k < |counts|
    {
      FreeState(Linked(lists, a, k), counts[k := counts[k] + 1], mask + {k}, bytes + Pow2(k) * PAGE_SIZE)
    }

    function Drop(k: nat, i: nat): FreeState
      requires k < |lists| && k < |counts| && i < |lists[k]|
    {
      FreeState(Unlinked(lists, k, i), counts[k := counts[k] - 1], if |lists[k]| == 1 then mask - {k} else mask,
                bytes - Pow2(k) * PAGE_SIZE)
    }
  }

  /** The block b may be linked in. */
  ghost predicate CanPush(f: FreeState, m: nat, total: nat, pages: set<nat>, b: Block) {
    f.Ok(m, total, pages) && b.order <= m && IsBlock(b) && 0 < b.first && End(b) <= total && Apart(f.Blocks(), b)
  }

  /** push_block panics on any other block. */
  predicate PushAccepts(page: nat, order: nat, m: nat) { order <= m && (page == 0 || order <= TrailingZeros(page)) }

  lemma PushAcceptsIff(page: nat, order: nat, m: nat)
    ensures PushAccepts(page, order, m) <==> order <= m && Aligned(page, order)
  {
    if page == 0 {
      ZeroIsAligned(order);
    } else {
      AlignedIsTrailingZeros(page, order);
    }
  }

  lemma PushSummary(f: FreeState, pages: set<nat>, after: set<nat>, a: nat, k: nat)
    requires f.ExactSummary(pages) && k < ORDERS && |after| == |pages| + Pow2(k)
    ensures f.Push(a, k).ExactSummary(after)
  {
    var g := f.Push(a, k);
    assert forall i :: 0 <= i < ORDERS && i != k ==> g.lists[i] == f.lists[i] && g.counts[i] == f.counts[i];
  }

  lemma DropSummary(f: FreeState, pages: set<nat>, after: set<nat>, k: nat, i: nat)
    requires f.ExactSummary(pages) && k < ORDERS && i < |f.lists[k]| && |pages| == |after| + Pow2(k)
    ensures f.Drop(k, i).ExactSummary(after)
  {
    var g := f.Drop(k, i);
    assert forall j :: 0 <= j < ORDERS && j != k ==> g.lists[j] == f.lists[j] && g.counts[j] == f.counts[j];
  }

  lemma PushOk(f: FreeState, m: nat, total: nat, pages: set<nat>, a: nat, k: nat)
    requires CanPush(f, m, total, pages, Block(k, a))
    ensures f.Push(a, k).Ok(m, total, pages + PageSet(Block(k, a)))
    ensures f.Push(a, k).Blocks() == f.Blocks() + {Block(k, a)}
  {
    var b := Block(k, a);
    assert b !in f.Blocks() by { assert !Clear(b, b); }
    LinkedView(f.lists, m, a, k);
    AddDisjoint(f.Blocks(), m, b);
    PagesAdd(f.Blocks(), b, pages);
    PushSummary(f, pages, pages + PageSet(b), a, k);
  }

  /** Pushing the upper half of a block taken off the lists leaves the lower half off them. */
  lemma SplitPush(f: FreeState, m: nat, total: nat, pages: set<nat>, b: Block)
    requires CanPush(f, m, total, pages, b) && b.order > 0
    ensures CanPush(f.Push(Upper(b).first, b.order - 1), m, total, pages + PageSet(Upper(b)), Lower(b))
    ensures f.Push(Upper(b).first, b.order - 1).Blocks() == f.Blocks() + {Upper(b)}
  {
    SplitStep(f.Blocks(), b, m);
    PushOk(f, m, total, pages, Upper(b).first, b.order - 1);
  }

  lemma DropOk(f: FreeState, m: nat, total: nat, pages: set<nat>, k: nat, i: nat)
    requires f.Ok(m, total, pages) && k < ORDERS && i < |f.lists[k]|
    ensures var b := Block(k, f.lists[k][i]);
            && b in f.Blocks() && f.Drop(k, i).Blocks() == f.Blocks() - {b}
            && f.Drop(k, i).Ok(m, total, pages - PageSet(b))
  {
    var b := Block(k, f.lists[k][i]);
    UnlinkedView(f.lists, m, k, i);
    RemoveKeeps(f.Blocks(), m, b);
    PagesRemove(f.Blocks(), m, b, pages);
    DropSummary(f, pages, pages - PageSet(b), k, i);
  }

  // ---------------------------------------------------------------- effects on the free pages

  /** Splitting a free block takes the pages of the part that is kept. */
  lemma TakeEffect(s: set<Block>, m: nat, pages: set<nat>, b: Block, k: nat)
    requires Disjoint(s, m) && b in s && k <= b.order && PagesAre(pages, s)
    ensures var r, t := Block(k, b.first), SplitRest(s - {b}, b, k);
            && IsBlock(r) && Apart(t, r) && End(r) <= End(b) && PageSet(r) <= pages
            && PagesAre(pages - PageSet(r), t)
            && (NoBuddies(s, m) ==> NoBuddies(t, m))
  {
    var r, t := Block(k, b.first), SplitRest(s - {b}, b, k);
    RemoveKeeps(s, m, b);
    SplitKeeps(s - {b}, b, k, m);
    SplitPages(s, b, k, b.first);
    forall p: nat ensures p in pages - PageSet(r) <==> IsFree(t, p) {
      SplitPages(s - {b}, b, k, p);
      RemoveFree(s, m, b, p);
      assert Covers(b, p) ==> IsFree(s, p);
    }
    forall p: nat | p in PageSet(r) ensures p in pages { assert Covers(b, p) && IsFree(s, p); }
  }

  /** Two sets that list the pages of the same blocks are equal. */
  lemma PagesAreUnique(pages: set<nat>, other: set<nat>, s: set<Block>)
    requires PagesAre(pages, s) && PagesAre(other, s)
    ensures pages == other
  {
    forall p: nat ensures p in pages <==> p in other { assert p in pages <==> IsFree(s, p); }
  }

  lemma MergeEffect(s: set<Block>, m: nat, pages: set<nat>, b: Block)
    requires Disjoint(s, m) && Apart(s, b) && IsBlock(b) && b.order <= m && PagesAre(pages, s)
    ensures PagesAre(pages + PageSet(b), MergeIn(s, b, m))
    ensures NoBuddies(s, m) ==> NoBuddies(MergeIn(s, b, m), m)
  {
    MergeInKeeps(s, b, m);
    forall p: nat ensures p in pages + PageSet(b) <==> IsFree(MergeIn(s, b, m), p) {
      assert p in pages <==> IsFree(s, p);
    }
  }

  lemma CutEffect(s: set<Block>, m: nat, pages: set<nat>, b: Block, c: Block)
    requires Disjoint(s, m) && b in s && Within(c, b) && PagesAre(pages, s)
    ensures PagesAre(pages - PageSet(c), CutOut(s, b, c, m)) && PageSet(c) <= pages
    ensures NoBuddies(s, m) ==> NoBuddies(CutOut(s, b, c, m), m)
  {
    CutOutKeeps(s, b, c, m);
    forall p: nat ensures p in pages - PageSet(c) <==> IsFree(CutOut(s, b, c, m), p) {
      assert p in pages <==> IsFree(s, p);
    }
    forall p: nat | p in PageSet(c) ensures p in pages { assert Covers(b, p) && IsFree(s, p); }
  }
}
