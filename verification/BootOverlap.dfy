/**
 What becomes of the free lists when spans are handed over that overlap: the bytes counted free are then
 more than the bytes of the pages, so the lists cannot be right.
 */
module BootOverlap {
  import opened Common
  import opened BuddyBlocks
  import opened BuddyOps
  import opened FreeLists
  import opened PmmSteps
  import opened BootSpans
  import opened Pmm
  import opened Boot

  /** The lists after handing over the spans, one after another. */
  function PushSpans(f: FreeState, spans: seq<Pages>, m: nat): (g: FreeState)
    requires |f.lists| == ORDERS && |f.counts| == ORDERS && m < ORDERS
    ensures |g.lists| == ORDERS && |g.counts| == ORDERS
  {
    if spans == [] then f
    else
      var s := spans[|spans| - 1];
      var g := PushSpans(f, spans[..|spans| - 1], m);
      PushSpanShape(g, s.first, s.last, m);
      PushSpan(g, s.first, s.last, m)
  }

  lemma {:induction false} PushSpanShape(f: FreeState, curr: nat, last: nat, m: nat)
    requires |f.lists| == ORDERS && |f.counts| == ORDERS && m < ORDERS
    ensures var g := PushSpan(f, curr, last, m); |g.lists| == ORDERS && |g.counts| == ORDERS
    decreases last - curr
  {
    if curr < last {
      var b := CarveBlock(curr, last, m);
      PushSpanShape(f.Push(curr, b.order), End(b), last, m);
    }
  }

  /** Whatever the lists hold, the pages of the span are counted and its blocks linked in. */
  lemma {:induction false} PushSpanAdds(f: FreeState, curr: nat, last: nat, m: nat)
    requires |f.lists| == ORDERS && |f.counts| == ORDERS && m < ORDERS
    ensures var g := PushSpan(f, curr, last, m);
            && g.bytes == f.bytes + PAGE_SIZE * PagesIn(Pages(curr, last))
            && g.Blocks() == f.Blocks() + Carve(curr, last, m)
    decreases last - curr
  {
    if curr < last {
      CarveBlockFits(curr, last, m);
      var b := CarveBlock(curr, last, m);
      PushedBlocks(f, curr, b.order);
      PushSpanAdds(f.Push(curr, b.order), End(b), last, m);
    }
  }

  lemma {:induction false} PushSpansAdd(spans: seq<Pages>, m: nat)
    requires m < ORDERS
    ensures var g := PushSpans(NOTHING_FREE, spans, m); g.bytes == PAGE_SIZE * Total(spans) && g.Blocks() == CarveAll(spans, m)
  {
    if spans == [] {
      NothingFreeOk(m, 0);
    } else {
      var s := spans[|spans| - 1];
      PushSpansAdd(spans[..|spans| - 1], m);
      PushSpanAdds(PushSpans(NOTHING_FREE, spans[..|spans| - 1], m), s.first, s.last, m);
    }
  }

  // ---------------------------------------------------------------- counting pages

  ghost function PageSpan(s: Pages): set<nat> { Span(s.first, PagesIn(s)) }

  lemma PageSpanIs(s: Pages)
    ensures |PageSpan(s)| == PagesIn(s) && forall p: nat :: p in PageSpan(s) <==> s.first <= p < s.last
  {
    SpanSize(s.first, PagesIn(s));
    assert forall p: nat :: p in PageSpan(s) <==> InSpan(p, s.first, PagesIn(s));
  }

  ghost function Union(spans: seq<Pages>): set<nat> {
    if spans == [] then {} else Union(spans[..|spans| - 1]) + PageSpan(spans[|spans| - 1])
  }

  lemma {:induction false} UnionIs(spans: seq<Pages>)
    ensures forall p: nat :: p in Union(spans) <==> Among(spans, p)
  {
    if spans != [] {
      var n := |spans| - 1;
      UnionIs(spans[..n]);
      PageSpanIs(spans[n]);
      forall p: nat ensures Among(spans, p) <==> Among(spans[..n], p) || spans[n].first <= p < spans[n].last {
        AmongAppend(spans[..n], [spans[n]], p);
        assert spans[..n] + [spans[n]] == spans && [spans[n]][0] == spans[n];
      }
    }
  }

  /** Only spans that do not overlap have as many pages together as one by one. */
  lemma {:induction false} UnionSize(spans: seq<Pages>)
    ensures |Union(spans)| <= Total(spans)
    ensures |Union(spans)| == Total(spans) ==> AllApart(spans)
  {
    if spans != [] {
      var n := |spans| - 1;
      var a, b := Union(spans[..n]), PageSpan(spans[n]);
      UnionSize(spans[..n]);
      UnionIs(spans[..n]);
      PageSpanIs(spans[n]);
      assert |a + b| == |a| + |b| - |a * b|;
      if |Union(spans)| == Total(spans) {
        assert a * b == {};
        LastApart(spans);
      }
    }
  }

  lemma LastApart(spans: seq<Pages>)
    requires spans != [] && AllApart(spans[..|spans| - 1]) && Union(spans[..|spans| - 1]) * PageSpan(spans[|spans| - 1]) == {}
    ensures AllApart(spans)
  {
    var n := |spans| - 1;
    UnionIs(spans[..n]);
    PageSpanIs(spans[n]);
    forall p: nat ensures !(Among(spans[..n], p) && Among([spans[n]], p)) {
      assert p !in Union(spans[..n]) * PageSpan(spans[n]);
    }
    ApartAppend(spans[..n], [spans[n]]);
    assert spans[..n] + [spans[n]] == spans;
  }

  lemma CarveAllCovers(spans: seq<Pages>, m: nat, p: nat)
    ensures IsFree(CarveAll(spans, m), p) <==> Among(spans, p)
  {
    if IsFree(CarveAll(spans, m), p) {
      var b :| b in CarveAll(spans, m) && Covers(b, p);
      var i := SpanOf(spans, m, b);
    }
    if Among(spans, p) {
      var i :| 0 <= i < |spans| && spans[i].first <= p < spans[i].last;
      CarveIsCanonical(spans[i].first, spans[i].last, m);
      assert IsFree(Carve(spans[i].first, spans[i].last, m), p);
      var b :| b in Carve(spans[i].first, spans[i].last, m) && Covers(b, p);
      CarvedFrom(spans, m, i, b);
    }
  }

  // ---------------------------------------------------------------- right lists

  /** Lists that are right count each page once. */
  lemma OkIsApart(spans: seq<Pages>, m: nat, total: nat, pages: set<nat>)
    requires m < ORDERS && PushSpans(NOTHING_FREE, spans, m).Ok(m, total, pages)
    ensures AllApart(spans)
  {
    PushSpansAdd(spans, m);
    UnionIs(spans);
    forall p: nat ensures p in pages <==> p in Union(spans) {
      CarveAllCovers(spans, m, p);
      assert p in pages <==> IsFree(CarveAll(spans, m), p);
    }
    assert pages == Union(spans);
    UnionSize(spans);
  }

  lemma {:induction false} PushSpanOk(f: FreeState, m: nat, total: nat, pages: set<nat>, curr: nat, last: nat) returns (after: set<nat>)
    requires f.Ok(m, total, pages) && (curr < last ==> 0 < curr && last <= total) && m < ORDERS
    requires forall p :: curr <= p < last ==> p !in pages
    ensures PushSpan(f, curr, last, m).Ok(m, total, after)
    ensures forall p :: p in after <==> p in pages || curr <= p < last
    decreases last - curr
  {
    after := pages;
    if curr < last {
      CarvePush(f, m, total, pages, curr, last);
      var b := CarveBlock(curr, last, m);
      after := PushSpanOk(f.Push(curr, b.order), m, total, pages + PageSet(b), End(b), last);
    }
  }

  lemma {:induction false} ApartIsOk(spans: seq<Pages>, m: nat, total: nat) returns (pages: set<nat>)
    requires m < ORDERS && AllApart(spans)
    requires forall i :: 0 <= i < |spans| && spans[i].first < spans[i].last ==> 0 < spans[i].first && spans[i].last <= total
    ensures PushSpans(NOTHING_FREE, spans, m).Ok(m, total, pages)
    ensures forall p: nat :: p in pages <==> Among(spans, p)
  {
    if spans == [] {
      NothingFreeOk(m, total);
      pages := {};
    } else {
      var n := |spans| - 1;
      var init, s := spans[..n], spans[n];
      assert init + [s] == spans && [s][0] == s;
      ApartSplits(init, [s]);
      pages := ApartIsOk(init, m, total);
      forall p: nat ensures Among(spans, p) <==> Among(init, p) || s.first <= p < s.last { AmongAppend(init, [s], p); }
      forall p: nat | s.first <= p < s.last ensures p !in pages { assert Among([s], p); }
      pages := PushSpanOk(PushSpans(NOTHING_FREE, init, m), m, total, pages, s.first, s.last);
    }
  }

  /** Some set of pages is what the lists hold free, each page once. */
  ghost predicate Right(f: FreeState, m: nat, total: nat) { exists pages :: f.Ok(m, total, pages) }

  /** Handing over spans of allocatable pages leaves the lists right if and only if no two of them overlap. */
  lemma RightIffApart(spans: seq<Pages>, m: nat, total: nat)
    requires m < ORDERS
    requires forall i :: 0 <= i < |spans| && spans[i].first < spans[i].last ==> 0 < spans[i].first && spans[i].last <= total
    ensures Right(PushSpans(NOTHING_FREE, spans, m), m, total) <==> AllApart(spans)
  {
    var f := PushSpans(NOTHING_FREE, spans, m);
    if AllApart(spans) {
      var pages := ApartIsOk(spans, m, total);
      assert f.Ok(m, total, pages);
    }
    if Right(f, m, total) {
      var pages :| f.Ok(m, total, pages);
      OkIsApart(spans, m, total, pages);
    }
  }
}
