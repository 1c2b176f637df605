/**
 The theory of power-of-two page blocks behind the physical allocator.

 A block of order k is a run of 2^k pages whose first page number is a multiple of 2^k.
 The module states when a set of free blocks is in buddy canonical form and proves that such a set
 is determined by the pages it covers.
 */
module BuddyBlocks {

  datatype Block = Block(order: nat, first: nat)

  function Pow2(k: nat): (r: nat)
    ensures r >= 1
  {
    if k == 0 then 1 else 2 * Pow2(k - 1)
  }

  /** q shifted left by k. */
  function Scaled(q: nat, k: nat): nat {
    if k == 0 then q else 2 * Scaled(q, k - 1)
  }

  /** The low k bits of p are zero. */
  ghost predicate Aligned(p: nat, k: nat) { exists q: nat :: Scaled(q, k) == p }

  ghost predicate IsBlock(b: Block) { Aligned(b.first, b.order) }

  /** One past the last page of a block. */
  function End(b: Block): nat { b.first + Pow2(b.order) }

  predicate Covers(b: Block, p: nat) { b.first <= p < End(b) }

  predicate Within(b: Block, c: Block) { c.first <= b.first && End(b) <= End(c) }

  predicate Clear(b: Block, c: Block) { End(b) <= c.first || End(c) <= b.first }

  /** The address of a block with bit `order` flipped. */
  ghost function BuddyAddress(a: nat, k: nat): nat
    requires Aligned(a, k)
  {
    FlipAligned(a, k);
    if Aligned(a, k + 1) then a + Pow2(k) else a - Pow2(k)
  }

  ghost function Buddy(b: Block): Block
    requires IsBlock(b)
  {
    Block(b.order, BuddyAddress(b.first, b.order))
  }

  ghost function Parent(b: Block): Block
    requires IsBlock(b)
  {
    Block(b.order + 1, if b.first < Buddy(b).first then b.first else Buddy(b).first)
  }

  function Lower(b: Block): Block
    requires b.order > 0
  {
    Block(b.order - 1, b.first)
  }

  function Upper(b: Block): Block
    requires b.order > 0
  {
    Block(b.order - 1, b.first + Pow2(b.order - 1))
  }

  ghost predicate IsFree(s: set<Block>, p: nat) { exists b :: b in s && Covers(b, p) }

  ghost predicate AllFree(s: set<Block>, b: Block) { forall p: nat :: Covers(b, p) ==> IsFree(s, p) }

  /** Aligned blocks of order at most m, no two of which overlap. */
  ghost predicate Disjoint(s: set<Block>, m: nat) {
    && (forall b :: b in s ==> b.order <= m && IsBlock(b))
    && (forall b, c :: b in s && c in s && b != c ==> Clear(b, c))
  }

  /** b overlaps no block of s. */
  ghost predicate Apart(s: set<Block>, b: Block) { forall c :: c in s ==> Clear(b, c) }

  /** No two free buddies below the top order m. */
  ghost predicate NoBuddies(s: set<Block>, m: nat) {
    forall b :: b in s && IsBlock(b) && b.order < m ==> Buddy(b) !in s
  }

  ghost predicate Canonical(s: set<Block>, m: nat) { Disjoint(s, m) && NoBuddies(s, m) }

  // ---------------------------------------------------------------- alignment

  lemma {:induction false} ScaledNext(q: nat, k: nat)
    ensures Scaled(q + 1, k) == Scaled(q, k) + Pow2(k)
  {
    if k > 0 { ScaledNext(q, k - 1); }
  }

  lemma {:induction false} ScaledTwice(q: nat, i: nat, j: nat)
    ensures Scaled(Scaled(q, i), j) == Scaled(q, i + j)
    decreases j
  {
    if j > 0 { ScaledTwice(q, i, j - 1); }
  }

  /** Distinct multiples of a block length are a block length apart. */
  lemma {:induction false} ScaledGap(q: nat, r: nat, k: nat)
    requires q < r
    ensures Scaled(q, k) + Pow2(k) <= Scaled(r, k)
    decreases k
  {
    if k > 0 { ScaledGap(q, r, k - 1); }
  }

  lemma AlignedFewerBy(p: nat, k: nat, j: nat)
    requires Aligned(p, k) && j <= k
    ensures Aligned(p, j)
  {
    var q: nat :| Scaled(q, k) == p;
    ScaledTwice(q, k - j, j);
  }

  /** Moving by one block length keeps the alignment. */
  lemma AlignedShift(p: nat, k: nat)
    requires Aligned(p, k)
    ensures Aligned(p + Pow2(k), k)
  {
    var q: nat :| Scaled(q, k) == p;
    ScaledNext(q, k);
  }

  /** Flipping bit k of an aligned address moves it by one block length within the parent. */
  lemma FlipAligned(p: nat, k: nat)
    requires Aligned(p, k)
    ensures Aligned(p, k + 1) ==> !Aligned(p + Pow2(k), k + 1)
    ensures !Aligned(p, k + 1) ==> p >= Pow2(k) && Aligned(p - Pow2(k), k + 1)
  {
    var q: nat :| Scaled(q, k) == p;
    var h := q / 2;
    assert Scaled(h, 1) == 2 * Scaled(h, 0);
    ScaledTwice(h, 1, k);
    if q % 2 == 0 {
      NotBetween(h, p + Pow2(k), k);
    } else {
      ScaledNext(2 * h, k);
      NotBetween(h, p, k);
    }
  }

  /** Half a parent block past an aligned parent address is no parent address. */
  lemma NotBetween(h: nat, p: nat, k: nat)
    requires p == Scaled(h, k + 1) + Pow2(k)
    ensures !Aligned(p, k + 1)
  {
    if Aligned(p, k + 1) {
      var r: nat :| Scaled(r, k + 1) == p;
      if r < h { ScaledGap(r, h, k + 1); } else if r > h { ScaledGap(h, r, k + 1); }
    }
  }

  /** An aligned block that starts inside a larger aligned block also ends inside it. */
  lemma AlignedFits(p: nat, k: nat, q: nat, j: nat)
    requires Aligned(p, k) && Aligned(q, j) && k <= j && q <= p < q + Pow2(j)
    ensures p + Pow2(k) <= q + Pow2(j)
  {
    var x: nat :| Scaled(x, k) == p;
    var y: nat :| Scaled(y, j) == q;
    ScaledNext(y, j);
    ScaledTwice(y + 1, j - k, k);
    var z := Scaled(y + 1, j - k);
    if x < z { ScaledGap(x, z, k); } else if x > z { ScaledGap(z, x, k); }
  }

  lemma {:induction false} Pow2Grows(i: nat, j: nat)
    requires i < j
    ensures Pow2(i) < Pow2(j)
    decreases j
  {
    if i < j - 1 { Pow2Grows(i, j - 1); }
  }

  /** Aligned blocks that share a page are nested. */
  lemma Nested(b: Block, c: Block, p: nat)
    requires IsBlock(b) && IsBlock(c) && b.order <= c.order && Covers(b, p) && Covers(c, p)
    ensures Within(b, c)
  {
    if b.first >= c.first {
      AlignedFits(b.first, b.order, c.first, c.order);
    } else {
      AlignedFewerBy(c.first, c.order, b.order);
      AlignedFits(c.first, b.order, b.first, b.order);
    }
  }

  lemma WithinIsOrdered(b: Block, c: Block)
    requires Within(b, c)
    ensures b.order <= c.order && (b.order == c.order ==> b == c)
  {
    if c.order < b.order { Pow2Grows(c.order, b.order); }
  }

  lemma HalvesAreBlocks(b: Block)
    requires IsBlock(b) && b.order > 0
    ensures IsBlock(Lower(b)) && IsBlock(Upper(b))
    ensures Buddy(Upper(b)) == Lower(b) && Buddy(Lower(b)) == Upper(b)
    ensures Parent(Lower(b)) == b && Parent(Upper(b)) == b
  {
    AlignedFewerBy(b.first, b.order, b.order - 1);
    AlignedShift(b.first, b.order - 1);
    FlipAligned(b.first, b.order - 1);
  }

  lemma BuddyIsBlock(b: Block)
    requires IsBlock(b)
    ensures IsBlock(Buddy(b)) && Buddy(b) != b && Buddy(Buddy(b)) == b
    ensures IsBlock(Parent(b)) && Parent(Buddy(b)) == Parent(b) && Within(b, Parent(b))
    ensures Clear(b, Buddy(b))
    ensures forall p :: Covers(Parent(b), p) <==> Covers(b, p) || Covers(Buddy(b), p)
  {
    var k := b.order;
    FlipAligned(b.first, k);
    if Aligned(b.first, k + 1) {
      AlignedShift(b.first, k);
    } else {
      AlignedFewerBy(b.first - Pow2(k), k + 1, k);
    }
  }

  /** A strictly larger block around b is also around the parent of b. */
  lemma ParentIsNext(b: Block, c: Block)
    requires IsBlock(b) && IsBlock(c) && Within(b, c) && b != c
    ensures Within(Parent(b), c)
  {
    WithinIsOrdered(b, c);
    BuddyIsBlock(b);
    Nested(Parent(b), c, b.first);
  }

  /** a ^ (1 << k), the source's buddy_of in pages. */
  function XorBit(a: nat, k: nat): nat
    decreases k
  {
    if k == 0 then (if a % 2 == 0 then a + 1 else a - 1) else 2 * XorBit(a / 2, k - 1) + a % 2
  }

  lemma {:induction false} XorBitIsBuddy(a: nat, k: nat)
    requires Aligned(a, k)
    ensures XorBit(a, k) == BuddyAddress(a, k)
    decreases k
  {
    var q: nat :| Scaled(q, k) == a;
    ScaledTwice(q / 2, 1, k);
    assert Scaled(q / 2, 1) == 2 * Scaled(q / 2, 0);
    XorScaled(q, k);
    if q % 2 == 0 {
      assert Scaled(q / 2, k + 1) == a;
    } else {
      ScaledNext(q - 1, k);
      assert Scaled(q / 2, k + 1) == a - Pow2(k);
      FlipAligned(a - Pow2(k), k) by { AlignedFewerBy(a - Pow2(k), k + 1, k); }
    }
  }

  lemma {:induction false} XorScaled(q: nat, k: nat)
    ensures XorBit(Scaled(q, k), k) == if q % 2 == 0 then Scaled(q, k) + Pow2(k) else Scaled(q, k) - Pow2(k)
    decreases k
  {
    if k > 0 { XorScaled(q, k - 1); }
  }

  lemma {:induction false} XorTwice(a: nat, k: nat)
    ensures XorBit(XorBit(a, k), k) == a
    decreases k
  {
    if k > 0 {
      XorTwice(a / 2, k - 1);
      var x := XorBit(a / 2, k - 1);
      assert (2 * x + a % 2) / 2 == x && (2 * x + a % 2) % 2 == a % 2;
    }
  }

  // ---------------------------------------------------------------- the central theorem

  /**
   In canonical form an aligned block whose pages are all free lies inside a single free block,
   even if the caller found it free page by page.
   */
  lemma {:induction false} CoveringBlock(s: set<Block>, m: nat, b: Block) returns (c: Block)
    requires Canonical(s, m) && IsBlock(b) && b.order <= m && AllFree(s, b)
    ensures c in s && Within(b, c)
    decreases b.order
  {
    if b.order == 0 {
      assert Covers(b, b.first);
      c :| c in s && Covers(c, b.first);
    } else {
      HalvesAreBlocks(b);
      assert forall p :: Covers(Lower(b), p) || Covers(Upper(b), p) ==> Covers(b, p);
      c := CoveringBlock(s, m, Lower(b));
      var d := CoveringBlock(s, m, Upper(b));
      if c != Lower(b) {
        ParentIsNext(Lower(b), c);
      } else if d != Upper(b) {
        ParentIsNext(Upper(b), d);
        c := d;
      }
    }
  }

  /** Membership in a canonical set, said through free pages alone: the maximal free blocks. */
  lemma MaximalFree(s: set<Block>, m: nat, b: Block)
    requires Canonical(s, m) && IsBlock(b)
    ensures b in s <==> b.order <= m && AllFree(s, b) && (b.order == m || !AllFree(s, Parent(b)))
  {
    BuddyIsBlock(b);
    if b in s && b.order < m && AllFree(s, Parent(b)) {
      var c := CoveringBlock(s, m, Parent(b));
      WithinIsOrdered(Parent(b), c);
      assert false;
    }
    if b.order <= m && AllFree(s, b) && b !in s {
      var c := CoveringBlock(s, m, b);
      ParentIsNext(b, c);
      WithinIsOrdered(Parent(b), c);
      assert forall p :: Covers(Parent(b), p) ==> Covers(c, p);
    }
  }

  /** The free pages determine a canonical set of blocks. */
  lemma Unique(s: set<Block>, t: set<Block>, m: nat)
    requires Canonical(s, m) && Canonical(t, m)
    requires forall p: nat :: IsFree(s, p) <==> IsFree(t, p)
    ensures s == t
  {
    forall b ensures b in s <==> b in t {
      if IsBlock(b) {
        MaximalFree(s, m, b);
        MaximalFree(t, m, b);
        assert AllFree(s, b) <==> AllFree(t, b);
        assert AllFree(s, Parent(b)) <==> AllFree(t, Parent(b));
      }
    }
  }

  // ---------------------------------------------------------------- adding and removing blocks

  lemma FreeUnion(s: set<Block>, t: set<Block>, p: nat)
    ensures IsFree(s + t, p) <==> IsFree(s, p) || IsFree(t, p)
  {
    if IsFree(s, p) {
      var c :| c in s && Covers(c, p);
      assert c in s + t;
    }
    if IsFree(t, p) {
      var c :| c in t && Covers(c, p);
      assert c in s + t;
    }
  }

  lemma FreeAdd(s: set<Block>, b: Block, p: nat)
    ensures IsFree(s + {b}, p) <==> IsFree(s, p) || Covers(b, p)
  {
    FreeUnion(s, {b}, p);
    assert IsFree({b}, p) <==> Covers(b, p) by {
      if Covers(b, p) { assert b in {b}; }
    }
  }

  lemma AddDisjoint(s: set<Block>, m: nat, b: Block)
    requires Disjoint(s, m) && b.order <= m && IsBlock(b) && Apart(s, b)
    ensures Disjoint(s + {b}, m)
  {}

  /** Adding a block whose buddy is taken creates no pair of buddies. */
  lemma AddNoBuddies(s: set<Block>, m: nat, b: Block)
    requires NoBuddies(s, m) && IsBlock(b) && (b.order < m ==> Buddy(b) !in s)
    ensures NoBuddies(s + {b}, m)
  {
    forall c | c in s + {b} && IsBlock(c) && c.order < m ensures Buddy(c) !in s + {b} { BuddyIsBlock(c); }
  }

  lemma RemoveKeeps(s: set<Block>, m: nat, b: Block)
    requires Disjoint(s, m) && b in s
    ensures Disjoint(s - {b}, m) && Apart(s - {b}, b)
    ensures NoBuddies(s, m) ==> NoBuddies(s - {b}, m)
  {}

  lemma RemoveFree(s: set<Block>, m: nat, b: Block, p: nat)
    requires Disjoint(s, m) && b in s
    ensures IsFree(s - {b}, p) <==> IsFree(s, p) && !Covers(b, p)
  {
    if IsFree(s, p) && !Covers(b, p) {
      var c :| c in s && Covers(c, p);
      assert c in s - {b};
    }
    if IsFree(s - {b}, p) {
      var c :| c in s - {b} && Covers(c, p);
      assert c in s && Clear(b, c);
    }
  }

  /** A block overlaps no free block iff none of its pages is free. */
  lemma ApartIsTaken(s: set<Block>, b: Block)
    ensures Apart(s, b) <==> forall p: nat :: Covers(b, p) ==> !IsFree(s, p)
  {
    if forall p: nat :: Covers(b, p) ==> !IsFree(s, p) {
      forall c | c in s ensures Clear(b, c) {
        assert Covers(b, b.first) && Covers(c, c.first);
        if !Clear(b, c) {
          var p := if b.first <= c.first then c.first else b.first;
          assert Covers(b, p) && IsFree(s, p);
        }
      }
    }
  }
}
