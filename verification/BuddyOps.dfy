/**
 What the allocator does to its set of free blocks, as functions on sets: merging a freed block
 upwards, splitting a block downwards, and carving an interval greedily.
 */
module BuddyOps {
  import opened Common
  import opened BuddyBlocks

  // ---------------------------------------------------------------- freeing

  /** The merge loop of free: swallow the buddy and move one order up while the buddy is free. */
  ghost function MergeIn(s: set<Block>, b: Block, m: nat): set<Block>
    requires IsBlock(b)
    decreases m - b.order
  {
    BuddyIsBlock(b);
    if b.order < m && Buddy(b) in s then MergeIn(s - {Buddy(b)}, Parent(b), m) else s + {b}
  }

  lemma MergeStep(s: set<Block>, b: Block, m: nat)
    requires Disjoint(s, m) && Apart(s, b) && IsBlock(b) && b.order < m && Buddy(b) in s
    ensures IsBlock(Parent(b)) && Disjoint(s - {Buddy(b)}, m) && Apart(s - {Buddy(b)}, Parent(b))
    ensures NoBuddies(s, m) ==> NoBuddies(s - {Buddy(b)}, m)
    ensures forall p: nat :: IsFree(s - {Buddy(b)}, p) || Covers(Parent(b), p) <==> IsFree(s, p) || Covers(b, p)
  {
    BuddyIsBlock(b);
    RemoveKeeps(s, m, Buddy(b));
    forall p: nat
      ensures IsFree(s - {Buddy(b)}, p) || Covers(Parent(b), p) <==> IsFree(s, p) || Covers(b, p)
    {
      RemoveFree(s, m, Buddy(b), p);
      if Covers(Buddy(b), p) { assert IsFree(s, p); }
    }
  }

  lemma {:induction false} MergeInKeeps(s: set<Block>, b: Block, m: nat)
    requires Disjoint(s, m) && Apart(s, b) && IsBlock(b) && b.order <= m
    ensures Disjoint(MergeIn(s, b, m), m)
    ensures NoBuddies(s, m) ==> NoBuddies(MergeIn(s, b, m), m)
    ensures forall p: nat :: IsFree(MergeIn(s, b, m), p) <==> IsFree(s, p) || Covers(b, p)
    decreases m - b.order
  {
    if b.order < m && Buddy(b) in s {
      MergeStep(s, b, m);
      MergeInKeeps(s - {Buddy(b)}, Parent(b), m);
    } else {
      AddDisjoint(s, m, b);
      if NoBuddies(s, m) { AddNoBuddies(s, m, b); }
      forall p: nat ensures IsFree(s + {b}, p) <==> IsFree(s, p) || Covers(b, p) { FreeAdd(s, b, p); }
    }
  }

  ghost predicate AllBlocks(bs: seq<Block>) { forall i :: 0 <= i < |bs| ==> IsBlock(bs[i]) }

  /** A run of frees, first block first. */
  ghost function MergeAll(s: set<Block>, bs: seq<Block>, m: nat): set<Block>
    requires AllBlocks(bs)
    decreases |bs|
  {
    if bs == [] then s else MergeAll(MergeIn(s, bs[0], m), bs[1..], m)
  }

  /** The blocks of bs are live: taken in s, and pairwise apart. */
  ghost predicate Live(s: set<Block>, bs: seq<Block>, m: nat) {
    && AllBlocks(bs)
    && (forall i :: 0 <= i < |bs| ==> bs[i].order <= m && Apart(s, bs[i]))
    && (forall i, j :: 0 <= i < j < |bs| ==> Clear(bs[i], bs[j]))
  }

  ghost predicate CoveredBy(bs: seq<Block>, p: nat) { exists i :: 0 <= i < |bs| && Covers(bs[i], p) }

  lemma CoveredByHead(bs: seq<Block>, p: nat)
    requires bs != []
    ensures CoveredBy(bs, p) <==> Covers(bs[0], p) || CoveredBy(bs[1..], p)
  {
    var rest := bs[1..];
    if CoveredBy(bs, p) {
      var i :| 0 <= i < |bs| && Covers(bs[i], p);
      if i > 0 { assert rest[i - 1] == bs[i]; }
    }
    if CoveredBy(rest, p) {
      var i :| 0 <= i < |rest| && Covers(rest[i], p);
      assert bs[i + 1] == rest[i];
    }
  }

  lemma LiveTail(s: set<Block>, bs: seq<Block>, m: nat)
    requires Disjoint(s, m) && Live(s, bs, m) && bs != []
    ensures Live(MergeIn(s, bs[0], m), bs[1..], m)
  {
    var t, rest := MergeIn(s, bs[0], m), bs[1..];
    MergeInKeeps(s, bs[0], m);
    forall i | 0 <= i < |rest| ensures IsBlock(rest[i]) && rest[i].order <= m && Apart(t, rest[i]) {
      assert rest[i] == bs[i + 1];
      ApartIsTaken(s, rest[i]);
      assert Clear(bs[0], rest[i]);
      ApartIsTaken(t, rest[i]);
    }
    forall i, j | 0 <= i < j < |rest| ensures Clear(rest[i], rest[j]) {
      assert rest[i] == bs[i + 1] && rest[j] == bs[j + 1];
    }
  }

  lemma {:induction false} MergeAllKeeps(s: set<Block>, bs: seq<Block>, m: nat)
    requires Canonical(s, m) && Live(s, bs, m)
    ensures Canonical(MergeAll(s, bs, m), m)
    ensures forall p: nat :: IsFree(MergeAll(s, bs, m), p) <==> IsFree(s, p) || CoveredBy(bs, p)
    decreases |bs|
  {
    if bs != [] {
      MergeInKeeps(s, bs[0], m);
      LiveTail(s, bs, m);
      MergeAllKeeps(MergeIn(s, bs[0], m), bs[1..], m);
      forall p: nat ensures IsFree(MergeAll(s, bs, m), p) <==> IsFree(s, p) || CoveredBy(bs, p) {
        CoveredByHead(bs, p);
      }
    }
  }

  /** Any two ways of giving the same pages back, in any order and granularity, end in the same blocks. */
  lemma FreeingIsConfluent(s: set<Block>, bs: seq<Block>, cs: seq<Block>, m: nat)
    requires Canonical(s, m) && Live(s, bs, m) && Live(s, cs, m)
    requires forall p: nat :: CoveredBy(bs, p) <==> CoveredBy(cs, p)
    ensures MergeAll(s, bs, m) == MergeAll(s, cs, m)
  {
    MergeAllKeeps(s, bs, m);
    MergeAllKeeps(s, cs, m);
    Unique(MergeAll(s, bs, m), MergeAll(s, cs, m), m);
  }

  /** The single pages of a block, in address order. */
  function PagesOf(b: Block): (ps: seq<Block>)
    ensures |ps| == Pow2(b.order) && forall i :: 0 <= i < |ps| ==> ps[i] == Block(0, b.first + i)
  {
    seq(Pow2(b.order), i requires 0 <= i => Block(0, b.first + i))
  }

  /** Dropping the reference of every page of a block frees the same blocks as freeing it whole. */
  lemma FreeWholeIsFreeByPage(s: set<Block>, b: Block, m: nat)
    requires Canonical(s, m) && IsBlock(b) && b.order <= m && Apart(s, b)
    ensures AllBlocks(PagesOf(b)) && MergeAll(s, PagesOf(b), m) == MergeIn(s, b, m)
  {
    var ps := PagesOf(b);
    assert Pow2(0) == 1;
    forall i | 0 <= i < |ps| ensures IsBlock(ps[i]) && Apart(s, ps[i]) {
      assert Scaled(b.first + i, 0) == b.first + i;
      assert Within(ps[i], b);
    }
    forall p: nat ensures CoveredBy(ps, p) <==> CoveredBy([b], p) {
      if Covers(b, p) { assert Covers(ps[p - b.first], p); }
      assert CoveredBy([b], p) <==> Covers([b][0], p);
    }
    FreeingIsConfluent(s, ps, [b], m);
    assert MergeAll(s, [b], m) == MergeAll(MergeIn(s, b, m), [], m);
  }

  // ---------------------------------------------------------------- splitting

  /** The split loop of alloc: give back upper halves until the lower half has order k. */
  function SplitRest(s: set<Block>, b: Block, k: nat): set<Block>
    decreases b.order
  {
    if b.order <= k then s else SplitRest(s + {Upper(b)}, Lower(b), k)
  }

  /** One split: the upper half goes back to the free set, the lower half stays out of it. */
  lemma SplitStep(s: set<Block>, b: Block, m: nat)
    requires Disjoint(s, m) && Apart(s, b) && IsBlock(b) && 0 < b.order <= m
    ensures IsBlock(Lower(b)) && IsBlock(Upper(b)) && Apart(s, Upper(b)) && End(Upper(b)) == End(b)
    ensures Disjoint(s + {Upper(b)}, m) && Apart(s + {Upper(b)}, Lower(b))
    ensures NoBuddies(s, m) ==> NoBuddies(s + {Upper(b)}, m)
  {
    var u := Upper(b);
    HalvesAreBlocks(b);
    AddDisjoint(s, m, u);
    if NoBuddies(s, m) { AddNoBuddies(s, m, u); }
  }

  lemma {:induction false} SplitPages(s: set<Block>, b: Block, k: nat, p: nat)
    requires k <= b.order
    ensures End(Block(k, b.first)) <= End(b)
    ensures IsFree(SplitRest(s, b, k), p) <==> IsFree(s, p) || (Covers(b, p) && !Covers(Block(k, b.first), p))
    decreases b.order
  {
    if b.order > k {
      SplitPages(s + {Upper(b)}, Lower(b), k, p);
      FreeAdd(s, Upper(b), p);
    }
  }

  lemma {:induction false} SplitKeeps(s: set<Block>, b: Block, k: nat, m: nat)
    requires Disjoint(s, m) && Apart(s, b) && IsBlock(b) && k <= b.order <= m
    ensures IsBlock(Block(k, b.first))
    ensures Disjoint(SplitRest(s, b, k), m) && Apart(SplitRest(s, b, k), Block(k, b.first))
    ensures NoBuddies(s, m) ==> NoBuddies(SplitRest(s, b, k), m)
    ensures forall p: nat :: IsFree(SplitRest(s, b, k), p) <==> IsFree(s, p) || (Covers(b, p) && !Covers(Block(k, b.first), p))
    decreases b.order
  {
    if b.order > k {
      SplitStep(s, b, m);
      SplitKeeps(s + {Upper(b)}, Lower(b), k, m);
    }
    forall p: nat { SplitPages(s, b, k, p); }
  }

  /** Allocating from a free block and freeing the result restores the block set exactly. */
  lemma SplitThenMerge(s: set<Block>, b: Block, k: nat, m: nat)
    requires Canonical(s, m) && b in s && k <= b.order
    ensures IsBlock(Block(k, b.first))
    ensures MergeIn(SplitRest(s - {b}, b, k), Block(k, b.first), m) == s
  {
    RemoveKeeps(s, m, b);
    SplitKeeps(s - {b}, b, k, m);
    var t, r := SplitRest(s - {b}, b, k), Block(k, b.first);
    MergeInKeeps(t, r, m);
    forall p: nat ensures IsFree(MergeIn(t, r, m), p) <==> IsFree(s, p) {
      SplitPages(s - {b}, b, k, p);
      RemoveFree(s, m, b, p);
      if Covers(b, p) { assert IsFree(s, p); }
    }
    Unique(MergeIn(t, r, m), s, m);
  }

  // ---------------------------------------------------------------- greedy carving

  /** Trailing zero bits of a non-zero page number. */
  function TrailingZeros(p: nat): nat
    requires p > 0
  {
    if p % 2 == 1 then 0 else 1 + TrailingZeros(p / 2)
  }

  function FloorLog2(n: nat): nat
    requires n > 0
  {
    if n == 1 then 0 else 1 + FloorLog2(n / 2)
  }

  /** The order push_range chooses at page curr with last - curr pages left. */
  function CarveOrder(curr: nat, last: nat, m: nat): nat
    requires curr < last
  {
    Min(Min(if curr == 0 then m else TrailingZeros(curr), FloorLog2(last - curr)), m)
  }

  lemma {:induction false} AlignedIsTrailingZeros(p: nat, k: nat)
    requires p > 0
    ensures Aligned(p, k) <==> k <= TrailingZeros(p)
    decreases k
  {
    if k == 0 {
      assert Scaled(p, 0) == p;
    } else {
      if p % 2 == 0 {
        AlignedIsTrailingZeros(p / 2, k - 1);
        if Aligned(p / 2, k - 1) {
          var q: nat :| Scaled(q, k - 1) == p / 2;
          assert Scaled(q, k) == p;
        }
      }
      if Aligned(p, k) {
        var q: nat :| Scaled(q, k) == p;
        assert Scaled(q, k - 1) == p / 2;
      }
    }
  }

  lemma {:induction false} Pow2IsFloorLog2(n: nat, k: nat)
    requires n > 0
    ensures Pow2(k) <= n <==> k <= FloorLog2(n)
    decreases k
  {
    if k > 0 && n > 1 { Pow2IsFloorLog2(n / 2, k - 1); }
  }

  lemma {:induction false} FloorLog2OfPow2(k: nat)
    ensures FloorLog2(Pow2(k)) == k
  {
    if k > 0 { FloorLog2OfPow2(k - 1); }
  }

  lemma {:induction false} ZeroIsAligned(k: nat)
    ensures Scaled(0, k) == 0
  {
    if k > 0 { ZeroIsAligned(k - 1); }
  }

  function CarveBlock(curr: nat, last: nat, m: nat): Block
    requires curr < last
  {
    Block(CarveOrder(curr, last, m), curr)
  }

  /** The carved block fits, and no larger aligned block starting at curr fits. */
  lemma CarveBlockFits(curr: nat, last: nat, m: nat)
    requires curr < last
    ensures var b := CarveBlock(curr, last, m);
            && IsBlock(b) && End(b) <= last && b.order <= m
            && forall c: Block :: IsBlock(c) && c.first == curr && c.order <= m && End(c) <= last ==> c.order <= b.order
  {
    var k := CarveOrder(curr, last, m);
    if curr == 0 { ZeroIsAligned(k); } else { AlignedIsTrailingZeros(curr, k); }
    Pow2IsFloorLog2(last - curr, k);
    forall c: Block | IsBlock(c) && c.first == curr && c.order <= m && End(c) <= last ensures c.order <= k {
      Pow2IsFloorLog2(last - curr, c.order);
      if curr > 0 { AlignedIsTrailingZeros(curr, c.order); }
    }
  }

  /** All blocks pushed by push_range for the pages [curr, last). */
  function Carve(curr: nat, last: nat, m: nat): set<Block>
    decreases last - curr
  {
    if curr >= last then {}
    else
      var b := CarveBlock(curr, last, m);
      Carve(End(b), last, m) + {b}
  }

  /** The block is not half of a larger block that also fits in the interval. */
  ghost predicate MaximalIn(b: Block, start: nat, last: nat, m: nat)
    requires IsBlock(b)
  {
    b.order >= m || Parent(b).first < start || End(Parent(b)) > last
  }

  /** A block straddling the cursor sticks out of the interval. */
  ghost predicate CleanCut(start: nat, curr: nat, last: nat, m: nat) {
    forall c: Block :: IsBlock(c) && c.order <= m && start <= c.first < curr < End(c) ==> End(c) > last
  }

  lemma CutStep(start: nat, curr: nat, last: nat, m: nat)
    requires start <= curr < last && CleanCut(start, curr, last, m)
    ensures var b := CarveBlock(curr, last, m);
            && IsBlock(b) && CleanCut(start, End(b), last, m) && MaximalIn(b, start, last, m)
  {
    CarveBlockFits(curr, last, m);
    var b := CarveBlock(curr, last, m);
    forall c: Block | IsBlock(c) && c.order <= m && start <= c.first < End(b) < End(c) ensures End(c) > last {
      if c.first >= curr {
        if c.order <= b.order {
          Nested(c, b, c.first);
        } else {
          Nested(b, c, c.first);
        }
      }
    }
    BuddyIsBlock(b);
  }

  /** Greedy carving covers exactly the interval, with blocks that cannot be paired up. */
  lemma {:induction false} CarveIsExact(start: nat, curr: nat, last: nat, m: nat)
    requires start <= curr <= last && CleanCut(start, curr, last, m)
    ensures Disjoint(Carve(curr, last, m), m)
    ensures forall b :: b in Carve(curr, last, m) ==>
                          IsBlock(b) && curr <= b.first && End(b) <= last && MaximalIn(b, start, last, m)
    ensures forall p: nat :: IsFree(Carve(curr, last, m), p) <==> curr <= p < last
    decreases last - curr
  {
    if curr < last {
      CutStep(start, curr, last, m);
      CarveBlockFits(curr, last, m);
      var b := CarveBlock(curr, last, m);
      CarveIsExact(start, End(b), last, m);
      AddDisjoint(Carve(End(b), last, m), m, b);
      forall p: nat ensures IsFree(Carve(curr, last, m), p) <==> curr <= p < last {
        FreeAdd(Carve(End(b), last, m), b, p);
      }
    }
  }

  /** What constrained allocation leaves: the rest of the block b after cutting out c. */
  function CutOut(s: set<Block>, b: Block, c: Block, m: nat): set<Block> {
    s - {b} + Carve(b.first, c.first, m) + Carve(End(c), End(b), m)
  }

  /** The pages on either side of a hole, carved separately, keep the canonical form. */
  lemma CutOutKeeps(s: set<Block>, b: Block, c: Block, m: nat)
    requires Disjoint(s, m) && b in s && Within(c, b)
    ensures Disjoint(CutOut(s, b, c, m), m)
    ensures NoBuddies(s, m) ==> NoBuddies(CutOut(s, b, c, m), m)
    ensures forall p: nat :: IsFree(CutOut(s, b, c, m), p) <==> IsFree(s, p) && !Covers(c, p)
  {
    var t, l, r := s - {b}, Carve(b.first, c.first, m), Carve(End(c), End(b), m);
    RemoveKeeps(s, m, b);
    CarveIsExact(b.first, b.first, c.first, m);
    CarveIsExact(End(c), End(c), End(b), m);
    CutOutDisjoint(t, l, r, b, c, m);
    if NoBuddies(s, m) { CutOutNoBuddies(t, l, r, b, c, m); }
    forall p: nat ensures IsFree(CutOut(s, b, c, m), p) <==> IsFree(s, p) && !Covers(c, p) {
      FreeUnion(t, l, p);
      FreeUnion(t + l, r, p);
      RemoveFree(s, m, b, p);
      if Covers(b, p) { assert IsFree(s, p); }
    }
  }

  lemma CutOutDisjoint(t: set<Block>, l: set<Block>, r: set<Block>, b: Block, c: Block, m: nat)
    requires Disjoint(t, m) && Disjoint(l, m) && Disjoint(r, m) && Apart(t, b) && Within(c, b)
    requires forall x :: x in l ==> b.first <= x.first && End(x) <= c.first
    requires forall x :: x in r ==> End(c) <= x.first && End(x) <= End(b)
    ensures Disjoint(t + l + r, m)
  {}

  lemma CutOutNoBuddies(t: set<Block>, l: set<Block>, r: set<Block>, b: Block, c: Block, m: nat)
    requires NoBuddies(t, m) && Disjoint(t, m) && Apart(t, b) && IsBlock(b) && Within(c, b)
    requires forall x :: x in l ==> IsBlock(x) && b.first <= x.first && End(x) <= c.first && MaximalIn(x, b.first, c.first, m)
    requires forall x :: x in r ==> IsBlock(x) && End(c) <= x.first && End(x) <= End(b) && MaximalIn(x, End(c), End(b), m)
    ensures NoBuddies(t + l + r, m)
  {
    forall x | x in l + r && x.order < m ensures Buddy(x) !in t + l + r {
      BuddyIsBlock(x);
      ParentIsNext(x, b);
      assert Within(Buddy(x), b) && !Clear(Buddy(x), b);
    }
    forall x | x in t && x.order < m ensures Buddy(x) !in t + l + r { BuddyIsBlock(x); }
  }
}
