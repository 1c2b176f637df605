/**
 What carving several spans of pages, one after another, leaves on the free lists, and exactly when
 that is in canonical form.
 */
module BootSpans {
  import opened Common
  import opened BuddyBlocks
  import opened BuddyOps
  import opened FreeLists

  /** Pages first up to but not including last. */
  datatype Pages = Pages(first: nat, last: nat)

  /** Some span has the page. */
  ghost predicate Among(spans: seq<Pages>, p: nat) {
    exists i :: 0 <= i < |spans| && spans[i].first <= p < spans[i].last
  }

  /** All blocks carved from the spans. */
  function CarveAll(spans: seq<Pages>, m: nat): set<Block> {
    if spans == [] then {}
    else CarveAll(spans[..|spans| - 1], m) + Carve(spans[|spans| - 1].first, spans[|spans| - 1].last, m)
  }

  lemma {:induction false} CarveAllAppend(a: seq<Pages>, b: seq<Pages>, m: nat)
    ensures CarveAll(a + b, m) == CarveAll(a, m) + CarveAll(b, m)
    decreases |b|
  {
    if b == [] {
      assert a + b == a;
    } else {
      CarveAllAppend(a, b[..|b| - 1], m);
      assert (a + b)[..|a + b| - 1] == a + b[..|b| - 1];
    }
  }

  lemma {:induction false} CarveAllMembers(spans: seq<Pages>, m: nat, b: Block)
    ensures b in CarveAll(spans, m) <==> exists i :: 0 <= i < |spans| && b in Carve(spans[i].first, spans[i].last, m)
  {
    if spans != [] {
      var init := spans[..|spans| - 1];
      CarveAllMembers(init, m, b);
      if b in CarveAll(init, m) {
        var i :| 0 <= i < |init| && b in Carve(init[i].first, init[i].last, m);
        assert spans[i] == init[i];
      }
    }
  }

  lemma CarvedFrom(spans: seq<Pages>, m: nat, i: nat, b: Block)
    requires i < |spans| && b in Carve(spans[i].first, spans[i].last, m)
    ensures b in CarveAll(spans, m)
  {
    CarveAllMembers(spans, m, b);
  }

  /** Two spans with pages have none in common. */
  predicate SpansApart(a: Pages, b: Pages) { a.first < a.last && b.first < b.last ==> a.last <= b.first || b.last <= a.first }

  predicate AllApart(spans: seq<Pages>) { forall i, j :: 0 <= i < j < |spans| ==> SpansApart(spans[i], spans[j]) }

  /**
   Span b starts at the page q where span a ends, and the smallest block with q in its middle fits
   below the top order and lies inside the two spans.
   */
  predicate Crosses(a: Pages, b: Pages, m: nat) {
    && 0 < a.last == b.first && TrailingZeros(a.last) < m
    && a.first + Pow2(TrailingZeros(a.last)) <= a.last && b.first + Pow2(TrailingZeros(b.first)) <= b.last
  }

  predicate NoneCross(spans: seq<Pages>, m: nat) {
    forall i, j :: 0 <= i < |spans| && 0 <= j < |spans| ==> !Crosses(spans[i], spans[j], m)
  }

  // ---------------------------------------------------------------- one span

  lemma MaximalAlone(b: Block, first: nat, last: nat, m: nat)
    requires IsBlock(b) && b.order < m && MaximalIn(b, first, last, m) && first <= b.first && End(b) <= last
    ensures Buddy(b).first < first || last < End(Buddy(b))
  {
    BuddyIsBlock(b);
  }

  /** A single span is carved into canonical form. */
  lemma CarveIsCanonical(first: nat, last: nat, m: nat)
    ensures Canonical(Carve(first, last, m), m)
    ensures forall b :: b in Carve(first, last, m) ==> IsBlock(b) && first <= b.first && End(b) <= last
    ensures forall p: nat :: IsFree(Carve(first, last, m), p) <==> first <= p < last
  {
    if first < last {
      CarveIsExact(first, first, last, m);
      forall b | b in Carve(first, last, m) && b.order < m ensures Buddy(b) !in Carve(first, last, m) {
        MaximalAlone(b, first, last, m);
      }
    }
  }

  /** The largest block that ends where a span ends is carved from it. */
  lemma LastCarved(first: nat, q: nat, m: nat)
    requires 0 < q && TrailingZeros(q) < m && first + Pow2(TrailingZeros(q)) <= q
    ensures Block(TrailingZeros(q), q - Pow2(TrailingZeros(q))) in Carve(first, q, m)
  {
    var t := TrailingZeros(q);
    var up, lo := Block(t, q), Block(t, q - Pow2(t));
    MiddleOfParent(q);
    BuddyIsBlock(lo);
    CarveIsCanonical(first, q, m);
    assert !IsFree(Carve(first, q, m), q) && Covers(Parent(lo), q) by { assert Covers(up, q); }
    MaximalFree(Carve(first, q, m), m, lo);
  }

  /** The largest block that starts where a span starts is carved from it. */
  lemma FirstCarved(q: nat, last: nat, m: nat)
    requires 0 < q && TrailingZeros(q) < m && q + Pow2(TrailingZeros(q)) <= last
    ensures Block(TrailingZeros(q), q) in Carve(q, last, m)
  {
    MiddleOfParent(q);
    var t := TrailingZeros(q);
    var up, lo := Block(t, q), Block(t, q - Pow2(t));
    BuddyIsBlock(up);
    CarveIsCanonical(q, last, m);
    assert !IsFree(Carve(q, last, m), q - 1) && Covers(Parent(up), q - 1) by { assert Covers(lo, q - 1); }
    MaximalFree(Carve(q, last, m), m, up);
  }

  /** Around any page q but the first, the smallest block with q in its middle. */
  lemma MiddleOfParent(q: nat)
    requires 0 < q
    ensures var t := TrailingZeros(q);
            && Pow2(t) <= q && IsBlock(Block(t, q)) && IsBlock(Block(t, q - Pow2(t)))
            && Buddy(Block(t, q)) == Block(t, q - Pow2(t)) && Buddy(Block(t, q - Pow2(t))) == Block(t, q)
  {
    var t := TrailingZeros(q);
    AlignedIsTrailingZeros(q, t);
    AlignedIsTrailingZeros(q, t + 1);
    BuddyIsBlock(Block(t, q));
  }

  // ---------------------------------------------------------------- several spans

  /** Buddies carved from two spans are the two sides of a crossing. */
  lemma SidesCross(a: Pages, b: Pages, m: nat, lo: Block)
    requires SpansApart(a, b) && IsBlock(lo) && lo.order < m && lo.first < Buddy(lo).first
    requires a.first <= lo.first && End(lo) <= a.last && b.first <= Buddy(lo).first && End(Buddy(lo)) <= b.last
    ensures Crosses(a, b, m)
  {
    var up := Buddy(lo);
    BuddyIsBlock(lo);
    AlignedIsTrailingZeros(up.first, lo.order);
    AlignedIsTrailingZeros(up.first, lo.order + 1);
  }

  /** The span a block was carved from. */
  lemma SpanOf(spans: seq<Pages>, m: nat, b: Block) returns (i: nat)
    requires b in CarveAll(spans, m)
    ensures i < |spans| && IsBlock(b) && spans[i].first <= b.first && End(b) <= spans[i].last
    ensures b in Carve(spans[i].first, spans[i].last, m)
  {
    CarveAllMembers(spans, m, b);
    i :| 0 <= i < |spans| && b in Carve(spans[i].first, spans[i].last, m);
    CarveIsCanonical(spans[i].first, spans[i].last, m);
  }

  lemma AloneInSpan(s: Pages, m: nat, b: Block)
    requires IsBlock(b) && b.order < m && b in Carve(s.first, s.last, m)
    ensures Buddy(b) !in Carve(s.first, s.last, m)
  {
    CarveIsCanonical(s.first, s.last, m);
  }

  /** Two buddies carved from the spans come from two spans that cross. */
  lemma BuddiesCross(spans: seq<Pages>, m: nat, lo: Block)
    requires AllApart(spans) && IsBlock(lo) && lo.order < m && lo.first < Buddy(lo).first
    requires lo in CarveAll(spans, m) && Buddy(lo) in CarveAll(spans, m)
    ensures !NoneCross(spans, m)
  {
    var i := SpanOf(spans, m, lo);
    var j := SpanOf(spans, m, Buddy(lo));
    AloneInSpan(spans[i], m, lo);
    assert SpansApart(if i < j then spans[i] else spans[j], if i < j then spans[j] else spans[i]);
    SidesCross(spans[i], spans[j], m, lo);
  }

  /** A crossing leaves the two buddies around its page. */
  lemma CrossingLeavesBuddies(spans: seq<Pages>, m: nat, i: nat, j: nat)
    requires i < |spans| && j < |spans| && Crosses(spans[i], spans[j], m)
    ensures !NoBuddies(CarveAll(spans, m), m)
  {
    var q := spans[i].last;
    var k := TrailingZeros(q);
    MiddleOfParent(q);
    var up, lo := Block(k, q), Block(k, q - Pow2(k));
    LastCarved(spans[i].first, q, m);
    FirstCarved(q, spans[j].last, m);
    CarvedFrom(spans, m, i, lo);
    CarvedFrom(spans, m, j, up);
  }

  /**
   Carving spans that do not overlap gives canonical form if and only if no two of them cross: touch
   at a page that is the middle of a block below the top order inside the two.
   */
  lemma CanonicalIff(spans: seq<Pages>, m: nat)
    requires AllApart(spans)
    ensures NoBuddies(CarveAll(spans, m), m) <==> NoneCross(spans, m)
  {
    if NoneCross(spans, m) {
      forall b | b in CarveAll(spans, m) && IsBlock(b) && b.order < m ensures Buddy(b) !in CarveAll(spans, m) {
        NotBuddies(spans, m, b);
      }
    } else {
      var i, j :| 0 <= i < |spans| && 0 <= j < |spans| && Crosses(spans[i], spans[j], m);
      CrossingLeavesBuddies(spans, m, i, j);
    }
  }

  lemma NotBuddies(spans: seq<Pages>, m: nat, b: Block)
    requires AllApart(spans) && NoneCross(spans, m) && b in CarveAll(spans, m) && IsBlock(b) && b.order < m
    ensures Buddy(b) !in CarveAll(spans, m)
  {
    BuddyIsBlock(b);
    if Buddy(b) in CarveAll(spans, m) { BuddiesCross(spans, m, if b.first < Buddy(b).first then b else Buddy(b)); }
  }

  /** Spans that nowhere touch are carved into canonical form. */
  lemma UntouchingIsCanonical(spans: seq<Pages>, m: nat)
    requires AllApart(spans)
    requires forall i, j :: 0 <= i < |spans| && 0 <= j < |spans| && spans[i].first < spans[i].last ==> spans[i].last != spans[j].first
    ensures NoBuddies(CarveAll(spans, m), m)
  {
    CanonicalIff(spans, m);
  }

  lemma CarveTwo(a: Pages, b: Pages, m: nat)
    ensures CarveAll([a, b], m) == Carve(a.first, a.last, m) + Carve(b.first, b.last, m)
  {
    assert [a, b][..1] == [a] && [a][..0] == [] && CarveAll([a], m) == Carve(a.first, a.last, m);
  }

  /** Two spans on either side of a page aligned to the top order are carved into canonical form. */
  lemma SidesAreCanonical(first: nat, q: nat, last: nat, m: nat)
    requires first <= q <= last && 0 < q && Aligned(q, m)
    ensures Canonical(Carve(first, q, m) + Carve(q, last, m), m)
  {
    var spans := [Pages(first, q), Pages(q, last)];
    CarveTwo(spans[0], spans[1], m);
    AlignedIsTrailingZeros(q, m);
    CanonicalIff(spans, m);
    CarveIsCanonical(first, q, m);
    CarveIsCanonical(q, last, m);
  }

  /** Cutting a span at a page aligned to the top order changes nothing. */
  lemma CarveSplits(first: nat, q: nat, last: nat, m: nat)
    requires first <= q <= last && 0 < q && Aligned(q, m)
    ensures Carve(first, last, m) == Carve(first, q, m) + Carve(q, last, m)
  {
    var s, t, u := Carve(first, q, m), Carve(q, last, m), Carve(first, last, m);
    SidesAreCanonical(first, q, last, m);
    CarveIsCanonical(first, last, m);
    forall p: nat ensures IsFree(s + t, p) <==> IsFree(u, p) {
      CarveIsCanonical(first, q, m);
      CarveIsCanonical(q, last, m);
      FreeUnion(s, t, p);
    }
    Unique(s + t, u, m);
  }

  // ---------------------------------------------------------------- the top order

  const TOP_LEVEL_BLOCKS := 128
  const MIN_ORDER := 8

  function PagesIn(s: Pages): nat { if s.first < s.last then s.last - s.first else 0 }

  /** Pages in all the spans, and in the largest. */
  function Total(spans: seq<Pages>): nat { if spans == [] then 0 else Total(spans[..|spans| - 1]) + PagesIn(spans[|spans| - 1]) }

  function Largest(spans: seq<Pages>): nat {
    if spans == [] then 0 else Max(Largest(spans[..|spans| - 1]), PagesIn(spans[|spans| - 1]))
  }

  function Clamped(order: nat, largest: nat): nat { Min(Min(order, largest), ORDERS - 1) }

  /** The top order for so many pages, the largest span of which has `largest`: about 128 blocks of it. */
  function ChooseMaxOrder(pages: nat, largest: nat): nat {
    if pages == 0 || largest == 0 then 0
    else
      var top, target := FloorLog2(largest), pages / TOP_LEVEL_BLOCKS;
      if target == 0 then Clamped(top, top) else Clamped(Max(FloorLog2(target), MIN_ORDER), top)
  }

  function TopOrder(spans: seq<Pages>): nat { ChooseMaxOrder(Total(spans), Largest(spans)) }

  lemma {:induction false} LargestIsSpan(spans: seq<Pages>)
    ensures Largest(spans) > 0 ==> exists i :: 0 <= i < |spans| && PagesIn(spans[i]) == Largest(spans)
    ensures forall i :: 0 <= i < |spans| ==> PagesIn(spans[i]) <= Largest(spans)
  {
    if spans != [] {
      var n := |spans| - 1;
      LargestIsSpan(spans[..n]);
      assert forall i :: 0 <= i < n ==> spans[..n][i] == spans[i];
      if PagesIn(spans[n]) < Largest(spans) {
        var i :| 0 <= i < n && PagesIn(spans[..n][i]) == Largest(spans);
        assert PagesIn(spans[i]) == Largest(spans);
      }
    }
  }

  /** The order chosen is one of the lists, and unless it is 0 some span has the pages of a block of it. */
  lemma TopOrderFits(spans: seq<Pages>)
    ensures TopOrder(spans) < ORDERS
    ensures TopOrder(spans) > 0 ==> exists i :: 0 <= i < |spans| && Pow2(TopOrder(spans)) <= PagesIn(spans[i])
  {
    LargestIsSpan(spans);
    if TopOrder(spans) > 0 {
      Pow2IsFloorLog2(Largest(spans), TopOrder(spans));
      var i :| 0 <= i < |spans| && PagesIn(spans[i]) == Largest(spans);
    }
  }
}
