/**
 Handing physical memory to the allocator at boot: every available range of the memory map, minus
 the reserved ranges, rounded inwards to pages. Memory above 64 GiB is set aside until it is mapped.
 */
module Boot {
  import opened Common
  import opened BuddyBlocks
  import opened BuddyOps
  import opened FreeLists
  import opened BootSpans
  import opened ConstrainedAlloc
  import opened DirectMap
  import opened Pmm

  const EARLY_PAGES := 0x100_0000
  const EARLY_BYTES := 0x10_0000_0000
  const MAX_DEFERRED := 256

  /** Bytes lo up to but not including hi. */
  datatype Range = Range(lo: nat, hi: nat)

  datatype Boot = Boot(free: FreeState, managed: nat, deferred: seq<Pages>, defer: bool, panicked: bool)

  /** The page lies wholly inside the range. */
  ghost predicate Inside(p: nat, r: Range) { r.lo <= p * PAGE_SIZE && (p + 1) * PAGE_SIZE <= r.hi }

  /** The page has no byte in the range. */
  ghost predicate Outside(p: nat, r: Range) { r.hi <= r.lo || (p + 1) * PAGE_SIZE <= r.lo || r.hi <= p * PAGE_SIZE }

  /**
   A reserved range has bytes, or ends at address 0, or exactly one page boundary lies from its end to
   its start; any other empty range would lose the page it falls in, or hand pages over twice.
   */
  predicate Proper(r: Range) { r.lo < r.hi || r.hi == 0 || FirstPage(r.hi) == LastPage(r.lo) }

  ghost predicate OutsideAll(p: nat, reserved: seq<Range>) {
    forall i :: 0 <= i < |reserved| ==> Outside(p, reserved[i])
  }

  // ---------------------------------------------------------------- pages handed over so far

  /** Spans set aside do not overlap and are allocatable pages. */
  ghost predicate AsideOk(deferred: seq<Pages>, total: nat) {
    AllApart(deferred) && forall i :: 0 <= i < |deferred| ==> 0 < deferred[i].first < deferred[i].last <= total
  }

  /** The blocks on the lists, and those that the spans set aside will add. */
  ghost function Due(b: Boot, m: nat): set<Block> { b.free.Blocks() + CarveAll(b.deferred, m) }

  /** The free pages are `done`, counted exactly, and the pages set aside are others, each once. */
  ghost predicate Sound(b: Boot, m: nat, total: nat, done: set<nat>) {
    && b.free.Ok(m, total, done) && b.managed == PAGE_SIZE * |done| && AsideOk(b.deferred, total)
    && forall p: nat :: p in done ==> !Among(b.deferred, p)
  }

  /** The page is free or set aside. */
  ghost predicate Known(b: Boot, done: set<nat>, p: nat) { p in done || Among(b.deferred, p) }

  // ---------------------------------------------------------------- adding a span

  method AddPages(b: Boot, m: nat, ghost total: nat, ghost done: set<nat>, first: nat, last: nat)
    returns (r: Boot, ghost after: set<nat>)
    requires Sound(b, m, total, done) && (first < last ==> 0 < first && last <= total)
    requires forall p: nat :: first <= p < last ==> !Known(b, done, p)
    ensures Sound(r, m, total, after) && r == b.(free := r.free, managed := r.managed)
    ensures r.free.Blocks() == b.free.Blocks() + Carve(first, last, m)
    ensures forall p :: p in after <==> p in done || first <= p < last
  {
    forall p | first <= p < last ensures p !in done { assert !Known(b, done, p); }
    var free;
    free, after := PushRange(b.free, m, total, done, first, last);
    var n := if first < last then last - first else 0;
    r := b.(free := free, managed := b.managed + n * PAGE_SIZE);
    SizeGrows(done, after, first, n);
    forall p: nat | p in after ensures !Among(r.deferred, p) {
      if p !in done { assert !Known(b, done, p); }
    }
  }

  lemma SizeGrows(done: set<nat>, after: set<nat>, first: nat, n: nat)
    requires forall p :: p in after <==> p in done || first <= p < first + n
    requires forall p: nat :: first <= p < first + n ==> p !in done
    ensures |after| == |done| + n
  {
    SpanSize(first, n);
    assert forall p: nat :: p in Span(first, n) <==> InSpan(p, first, n);
    assert after == done + Span(first, n) && done !! Span(first, n);
  }

  function FirstPage(lo: nat): nat { (lo + PAGE_SIZE - 1) / PAGE_SIZE }

  function LastPage(hi: nat): nat { hi / PAGE_SIZE }

  /** Rounding inwards gives exactly the pages wholly inside. */
  lemma RoundedInwards(p: nat, r: Range)
    ensures Inside(p, r) <==> FirstPage(r.lo) <= p < LastPage(r.hi)
  {
  }

  /** Sets a span aside for later. */
  function Deferring(b: Boot, r: Range): Boot {
    var s := Pages(FirstPage(r.lo), LastPage(r.hi));
    if s.first >= s.last then b
    else if |b.deferred| >= MAX_DEFERRED then b.(panicked := true)
    else b.(deferred := b.deferred + [s])
  }

  lemma SetAside(deferred: seq<Pages>, total: nat, s: Pages)
    requires AsideOk(deferred, total) && 0 < s.first < s.last <= total
    requires forall p: nat :: s.first <= p < s.last ==> !Among(deferred, p)
    ensures AsideOk(deferred + [s], total)
    ensures forall p: nat :: Among(deferred + [s], p) <==> Among(deferred, p) || s.first <= p < s.last
  {
    var d := deferred + [s];
    forall p: nat ensures Among(d, p) <==> Among(deferred, p) || s.first <= p < s.last {
      assert d[|deferred|] == s;
      if Among(deferred, p) {
        var i :| 0 <= i < |deferred| && deferred[i].first <= p < deferred[i].last;
        assert d[i] == deferred[i];
      }
    }
    forall i | 0 <= i < |deferred| ensures deferred[i].last <= s.first || s.last <= deferred[i].first {
      var p := if deferred[i].first < s.first then s.first else deferred[i].first;
      assert p < deferred[i].last ==> Among(deferred, p);
    }
  }

  lemma DeferringSound(b: Boot, m: nat, total: nat, done: set<nat>, r: Range)
    requires Sound(b, m, total, done) && r.hi <= total * PAGE_SIZE
    requires forall p: nat :: Inside(p, r) ==> 0 < p && !Known(b, done, p)
    ensures Sound(Deferring(b, r), m, total, done)
    ensures !Deferring(b, r).panicked ==> forall p: nat :: Known(Deferring(b, r), done, p) <==> Known(b, done, p) || Inside(p, r)
    ensures !Deferring(b, r).panicked ==> Due(Deferring(b, r), m) == Due(b, m) + CarveOf(r, m)
  {
    var d := Deferring(b, r);
    var s := Pages(FirstPage(r.lo), LastPage(r.hi));
    forall p: nat ensures Inside(p, r) <==> s.first <= p < s.last { RoundedInwards(p, r); }
    if s.first < s.last && |b.deferred| < MAX_DEFERRED {
      assert Inside(s.first, r);
      forall p: nat | s.first <= p < s.last ensures !Among(b.deferred, p) && p !in done { assert !Known(b, done, p); }
      SetAside(b.deferred, total, s);
      assert d.deferred[..|b.deferred|] == b.deferred;
    }
  }

  /** The blocks carved from the pages wholly inside a range. */
  function CarveOf(r: Range, m: nat): set<Block> { Carve(FirstPage(r.lo), LastPage(r.hi), m) }

  /** The pages of r, new to the allocator, may be handed over. */
  ghost predicate CanAdd(b: Boot, total: nat, done: set<nat>, r: Range) {
    r.hi <= total * PAGE_SIZE && forall p: nat :: Inside(p, r) ==> 0 < p && !Known(b, done, p)
  }

  method AddWhole(b: Boot, m: nat, ghost total: nat, ghost done: set<nat>, r: Range)
    returns (out: Boot, ghost after: set<nat>)
    requires Sound(b, m, total, done) && CanAdd(b, total, done, r)
    ensures Sound(out, m, total, after) && out == b.(free := out.free, managed := out.managed)
    ensures forall p: nat :: Known(out, after, p) <==> Known(b, done, p) || Inside(p, r)
    ensures Due(out, m) == Due(b, m) + CarveOf(r, m)
  {
    ghost var first, last := FirstPage(r.lo), LastPage(r.hi);
    forall p: nat ensures Inside(p, r) <==> first <= p < last { RoundedInwards(p, r); }
    if first < last { assert Inside(first, r); }
    out, after := AddPages(b, m, total, done, FirstPage(r.lo), LastPage(r.hi));
  }

  /** Splitting a span at a page boundary splits its pages. */
  lemma SplitAt(p: nat, r: Range, page: nat)
    requires r.lo <= page * PAGE_SIZE <= r.hi
    ensures Inside(p, r) <==> Inside(p, Range(r.lo, page * PAGE_SIZE)) || Inside(p, Range(page * PAGE_SIZE, r.hi))
    ensures !(Inside(p, Range(r.lo, page * PAGE_SIZE)) && Inside(p, Range(page * PAGE_SIZE, r.hi)))
  {
  }

  lemma EarlyIsPower()
    ensures EARLY_PAGES == Pow2(24)
  {
    Pow2IsScaled(24);
    Scaled12(1);
    Scaled12(0x1000);
    ScaledTwice(1, 12, 12);
  }

  lemma PowerIsAligned(k: nat, m: nat)
    requires m <= k
    ensures Aligned(Pow2(k), m)
  {
    Pow2IsScaled(k);
    AlignedFewerBy(Pow2(k), k, m);
  }

  /** Cutting a span at a page aligned to every order keeps the same blocks. */
  lemma SplitCarve(r: Range, page: nat, m: nat)
    requires 0 < page && Aligned(page, m) && r.lo <= page * PAGE_SIZE <= r.hi
    ensures CarveOf(r, m) == CarveOf(Range(r.lo, page * PAGE_SIZE), m) + CarveOf(Range(page * PAGE_SIZE, r.hi), m)
  {
    assert FirstPage(page * PAGE_SIZE) == page == LastPage(page * PAGE_SIZE);
    CarveSplits(FirstPage(r.lo), page, LastPage(r.hi), m);
  }

  /** The page where mapped memory ends is such a page. */
  lemma EarlyIsAligned(m: nat)
    requires m < ORDERS
    ensures Aligned(EARLY_PAGES, m)
  {
    EarlyIsPower();
    PowerIsAligned(24, m);
  }

  lemma SplitEarly(r: Range, m: nat)
    requires m < ORDERS && r.lo < EARLY_BYTES < r.hi
    ensures CarveOf(r, m) == CarveOf(Range(r.lo, EARLY_BYTES), m) + CarveOf(Range(EARLY_BYTES, r.hi), m)
  {
    EarlyIsAligned(m);
    SplitCarve(r, EARLY_PAGES, m);
  }

  /** Hands a span over, or as much of it as is mapped yet and sets the rest aside. */
  method AddSpan(b: Boot, m: nat, ghost total: nat, ghost done: set<nat>, r: Range)
    returns (out: Boot, ghost after: set<nat>)
    requires Sound(b, m, total, done) && CanAdd(b, total, done, r)
    ensures Sound(out, m, total, after) && out.defer == b.defer && (b.panicked ==> out.panicked)
    ensures total <= EARLY_PAGES ==> out.panicked == b.panicked
    ensures !out.panicked ==> forall p: nat :: Known(out, after, p) <==> Known(b, done, p) || Inside(p, r)
    ensures !out.panicked ==> Due(out, m) == Due(b, m) + CarveOf(r, m)
  {
    if !(b.defer && r.hi > EARLY_BYTES) {
      out, after := AddWhole(b, m, total, done, r);
      return;
    }
    out, after := b, done;
    var rest := r;
    if r.lo < EARLY_BYTES {
      var low := Range(r.lo, EARLY_BYTES);
      rest := Range(EARLY_BYTES, r.hi);
      forall p: nat ensures (Inside(p, r) <==> Inside(p, low) || Inside(p, rest)) && !(Inside(p, low) && Inside(p, rest)) {
        SplitAt(p, r, EARLY_PAGES);
      }
      SplitEarly(r, m);
      out, after := AddWhole(b, m, total, done, low);
    }
    DeferringSound(out, m, total, after, rest);
    out := Deferring(out, rest);
  }

  // ---------------------------------------------------------------- leaving out reserved ranges

  predicate Overlaps(r: Range, s: Range) { r.lo < s.hi && s.lo < r.hi }

  /** The parts of r before and after s have the pages of r that are clear of s, each in one part. */
  ghost predicate Beside(p: nat, r: Range, s: Range) {
    && (Inside(p, r) && Outside(p, s) <==>
          (r.lo < s.lo && Inside(p, Range(r.lo, s.lo))) || (r.hi > s.hi && Inside(p, Range(s.hi, r.hi))))
    && !(Inside(p, Range(r.lo, s.lo)) && Inside(p, Range(s.hi, r.hi)))
  }

  /** Splitting a range around a reserved one is right for every range and page iff the reserved one is proper. */
  lemma BesideIffProper(s: Range)
    ensures (forall p: nat, r :: Overlaps(r, s) ==> Beside(p, r, s)) <==> Proper(s)
  {
    if Proper(s) {
      forall p: nat, r | Overlaps(r, s) ensures Beside(p, r, s) { BesideReserved(p, r, s); }
    } else {
      var p := if FirstPage(s.hi) < LastPage(s.lo) then FirstPage(s.hi) else LastPage(s.lo);
      var r := Range(0, (LastPage(s.lo) + 1) * PAGE_SIZE);
      assert Overlaps(r, s) && !Beside(p, r, s);
    }
  }

  /** A page inside r and outside s is on one side of s. */
  lemma BesideReserved(p: nat, r: Range, s: Range)
    requires Overlaps(r, s) && Proper(s)
    ensures Beside(p, r, s)
  {
  }

  lemma NotOverlapping(p: nat, r: Range, s: Range)
    requires Inside(p, r) && !Overlaps(r, s)
    ensures Outside(p, s)
  {
  }

  ghost predicate Usable(p: nat, r: Range, reserved: seq<Range>) { Inside(p, r) && OutsideAll(p, reserved) }

  predicate AllProper(reserved: seq<Range>) { forall i :: 0 <= i < |reserved| ==> Proper(reserved[i]) }

  /** The spans that r is split into around the reserved ranges, rounded inwards to pages. */
  function SpansOf(r: Range, reserved: seq<Range>): seq<Pages>
    decreases |reserved|
  {
    if r.lo >= r.hi then []
    else if reserved == [] then [Pages(FirstPage(r.lo), LastPage(r.hi))]
    else if !Overlaps(r, reserved[0]) then SpansOf(r, reserved[1..])
    else
      (if r.lo < reserved[0].lo then SpansOf(Range(r.lo, reserved[0].lo), reserved[1..]) else []) +
      (if r.hi > reserved[0].hi then SpansOf(Range(reserved[0].hi, r.hi), reserved[1..]) else [])
  }

  lemma AmongAppend(a: seq<Pages>, b: seq<Pages>, p: nat)
    ensures Among(a + b, p) <==> Among(a, p) || Among(b, p)
  {
    if Among(a, p) {
      var i :| 0 <= i < |a| && a[i].first <= p < a[i].last;
      assert (a + b)[i] == a[i];
    }
    if Among(b, p) {
      var i :| 0 <= i < |b| && b[i].first <= p < b[i].last;
      assert (a + b)[|a| + i] == b[i];
    }
  }

  /** Two lists of spans without a common page go together. */
  lemma ApartAppend(a: seq<Pages>, b: seq<Pages>)
    requires AllApart(a) && AllApart(b) && forall p: nat :: !(Among(a, p) && Among(b, p))
    ensures AllApart(a + b)
  {
    forall i, j | 0 <= i < |a| && 0 <= j < |b| ensures SpansApart(a[i], b[j]) {
      var p := if a[i].first < b[j].first then b[j].first else a[i].first;
      assert p < a[i].last && p < b[j].last ==> Among(a, p) && Among(b, p);
    }
    forall i, j | 0 <= i < j < |a + b| ensures SpansApart((a + b)[i], (a + b)[j]) {
      if j < |a| {
        assert SpansApart(a[i], a[j]);
      } else if i >= |a| {
        assert SpansApart(b[i - |a|], b[j - |a|]);
      }
    }
  }

  lemma ApartSplits(a: seq<Pages>, b: seq<Pages>)
    requires AllApart(a + b)
    ensures AllApart(a) && AllApart(b) && forall p: nat :: !(Among(a, p) && Among(b, p))
  {
    forall i, j | 0 <= i < j < |a| ensures SpansApart(a[i], a[j]) { assert SpansApart((a + b)[i], (a + b)[j]); }
    forall i, j | 0 <= i < j < |b| ensures SpansApart(b[i], b[j]) { assert SpansApart((a + b)[|a| + i], (a + b)[|a| + j]); }
    forall i, j | 0 <= i < |a| && 0 <= j < |b| ensures SpansApart(a[i], b[j]) {
      assert SpansApart((a + b)[i], (a + b)[|a| + j]);
    }
  }

  lemma OutsideHead(p: nat, reserved: seq<Range>)
    requires reserved != []
    ensures OutsideAll(p, reserved) <==> Outside(p, reserved[0]) && OutsideAll(p, reserved[1..])
  {
    assert forall i :: 0 < i < |reserved| ==> reserved[i] == reserved[1..][i - 1];
  }

  /** The spans do not overlap and hold exactly the pages of r that touch no reserved range. */
  lemma {:induction false} SpansAreUsable(r: Range, reserved: seq<Range>)
    requires AllProper(reserved)
    ensures AllApart(SpansOf(r, reserved))
    ensures forall p: nat :: Among(SpansOf(r, reserved), p) <==> Usable(p, r, reserved)
    decreases |reserved|
  {
    if r.lo < r.hi {
      if reserved == [] {
        forall p: nat ensures Among(SpansOf(r, reserved), p) <==> Usable(p, r, reserved) {
          RoundedInwards(p, r);
          assert SpansOf(r, reserved)[0] == Pages(FirstPage(r.lo), LastPage(r.hi));
        }
      } else if !Overlaps(r, reserved[0]) {
        SpansAreUsable(r, reserved[1..]);
        forall p: nat ensures Among(SpansOf(r, reserved), p) <==> Usable(p, r, reserved) {
          OutsideHead(p, reserved);
          if Inside(p, r) { NotOverlapping(p, r, reserved[0]); }
        }
      } else {
        SpansAround(r, reserved);
      }
    }
  }

  lemma {:induction false} SpansAround(r: Range, reserved: seq<Range>)
    requires AllProper(reserved) && reserved != [] && r.lo < r.hi && Overlaps(r, reserved[0])
    ensures AllApart(SpansOf(r, reserved))
    ensures forall p: nat :: Among(SpansOf(r, reserved), p) <==> Usable(p, r, reserved)
    decreases |reserved|, 0
  {
    var s, rest := reserved[0], reserved[1..];
    var left, right := Range(r.lo, s.lo), Range(s.hi, r.hi);
    var a := if r.lo < s.lo then SpansOf(left, rest) else [];
    var b := if r.hi > s.hi then SpansOf(right, rest) else [];
    SpansAreUsable(left, rest);
    SpansAreUsable(right, rest);
    forall p: nat ensures (Among(a + b, p) <==> Usable(p, r, reserved)) && !(Among(a, p) && Among(b, p)) {
      AmongAppend(a, b, p);
      OutsideHead(p, reserved);
      BesideReserved(p, r, s);
    }
    ApartAppend(a, b);
  }

  ghost function Left(r: Range, s: Range, rest: seq<Range>): seq<Pages> {
    if r.lo < s.lo then SpansOf(Range(r.lo, s.lo), rest) else []
  }

  ghost function Right(r: Range, s: Range, rest: seq<Range>): seq<Pages> {
    if r.hi > s.hi then SpansOf(Range(s.hi, r.hi), rest) else []
  }

  /** Whatever the reserved ranges are, the spans stay inside r and clear of every range with bytes. */
  lemma {:induction false} SpansAvoid(r: Range, reserved: seq<Range>, s: Range, p: nat)
    requires Among(SpansOf(r, reserved), p) && s in reserved && s.lo < s.hi
    ensures Inside(p, r) && Outside(p, s)
    decreases |reserved|
  {
    SpansInside(r, reserved, p);
    var head, rest := reserved[0], reserved[1..];
    if !Overlaps(r, head) {
      if s == head { NotOverlapping(p, r, s); } else { SpansAvoid(r, rest, s, p); }
    } else {
      AmongAppend(Left(r, head, rest), Right(r, head, rest), p);
      var side := if Among(Left(r, head, rest), p) then Range(r.lo, head.lo) else Range(head.hi, r.hi);
      SpansInside(side, rest, p);
      if s != head { SpansAvoid(side, rest, s, p); }
    }
  }

  lemma {:induction false} SpansInside(r: Range, reserved: seq<Range>, p: nat)
    requires Among(SpansOf(r, reserved), p)
    ensures Inside(p, r)
    decreases |reserved|
  {
    if reserved == [] {
      RoundedInwards(p, r);
    } else if !Overlaps(r, reserved[0]) {
      SpansInside(r, reserved[1..], p);
    } else {
      var head, rest := reserved[0], reserved[1..];
      AmongAppend(Left(r, head, rest), Right(r, head, rest), p);
      SpansInside(if Among(Left(r, head, rest), p) then Range(r.lo, head.lo) else Range(head.hi, r.hi), rest, p);
    }
  }

  /** The first reserved range that overlaps r. */
  method FirstOverlap(r: Range, reserved: seq<Range>) returns (i: nat)
    requires r.lo < r.hi
    ensures i <= |reserved| && (i < |reserved| ==> Overlaps(r, reserved[i]))
    ensures SpansOf(r, reserved) == SpansOf(r, reserved[i..])
  {
    i := 0;
    while i < |reserved| && !Overlaps(r, reserved[i])
      invariant i <= |reserved| && SpansOf(r, reserved) == SpansOf(r, reserved[i..])
    {
      assert reserved[i..][1..] == reserved[i + 1..];
      i := i + 1;
    }
  }

  /** Every page of the spans is new to the allocator. */
  ghost predicate CanAddAll(b: Boot, done: set<nat>, spans: seq<Pages>) {
    forall p: nat :: Among(spans, p) ==> 0 < p && !Known(b, done, p)
  }

  /** The spans were handed over or set aside. */
  ghost predicate AddedAll(b: Boot, done: set<nat>, out: Boot, after: set<nat>, spans: seq<Pages>, m: nat) {
    && (forall p: nat :: Known(out, after, p) <==> Known(b, done, p) || Among(spans, p))
    && Due(out, m) == Due(b, m) + CarveAll(spans, m)
  }

  lemma AddedOne(b: Boot, done: set<nat>, out: Boot, after: set<nat>, r: Range, m: nat)
    requires forall p: nat :: Known(out, after, p) <==> Known(b, done, p) || Inside(p, r)
    requires Due(out, m) == Due(b, m) + CarveOf(r, m)
    ensures AddedAll(b, done, out, after, [Pages(FirstPage(r.lo), LastPage(r.hi))], m)
  {
    var spans := [Pages(FirstPage(r.lo), LastPage(r.hi))];
    forall p: nat ensures Inside(p, r) <==> Among(spans, p) {
      RoundedInwards(p, r);
      assert spans[0] == Pages(FirstPage(r.lo), LastPage(r.hi));
    }
    assert spans[..0] == [] && CarveAll(spans, m) == {} + CarveOf(r, m);
  }

  lemma AddedBoth(b: Boot, d: set<nat>, c: Boot, e: set<nat>, out: Boot, after: set<nat>, x: seq<Pages>, y: seq<Pages>, m: nat)
    requires AddedAll(b, d, c, e, x, m) && AddedAll(c, e, out, after, y, m)
    ensures AddedAll(b, d, out, after, x + y, m)
  {
    CarveAllAppend(x, y, m);
    forall p: nat ensures Among(x + y, p) <==> Among(x, p) || Among(y, p) { AmongAppend(x, y, p); }
  }

  lemma AddedNone(b: Boot, d: set<nat>, m: nat)
    ensures AddedAll(b, d, b, d, [], m)
  {
  }

  /** A range that meets no reserved range is one span. */
  lemma WholeIsNew(b: Boot, done: set<nat>, r: Range)
    requires r.lo < r.hi && CanAddAll(b, done, SpansOf(r, []))
    ensures forall p: nat :: Inside(p, r) ==> 0 < p && !Known(b, done, p)
  {
    forall p: nat | Inside(p, r) ensures 0 < p && !Known(b, done, p) {
      RoundedInwards(p, r);
      assert SpansOf(r, [])[0] == Pages(FirstPage(r.lo), LastPage(r.hi)) && Among(SpansOf(r, []), p);
    }
  }

  /**
   Splits r around each reserved range that it meets and hands the spans over. If the reserved ranges
   are proper, those are the pages of r that touch no reserved range.
   */
  method FreeWithReservation(b: Boot, m: nat, ghost total: nat, ghost done: set<nat>, r: Range, reserved: seq<Range>)
    returns (out: Boot, ghost after: set<nat>)
    requires Sound(b, m, total, done) && r.hi <= total * PAGE_SIZE
    requires CanAddAll(b, done, SpansOf(r, reserved)) && AllApart(SpansOf(r, reserved))
    ensures Sound(out, m, total, after) && out.defer == b.defer && (b.panicked ==> out.panicked)
    ensures total <= EARLY_PAGES ==> out.panicked == b.panicked
    ensures !out.panicked ==> AddedAll(b, done, out, after, SpansOf(r, reserved), m)
    ensures !out.panicked && AllProper(reserved) ==>
              forall p: nat :: Known(out, after, p) <==> Known(b, done, p) || Usable(p, r, reserved)
    decreases |reserved|, 0
  {
    out, after := b, done;
    AddedNone(b, done, m);
    if AllProper(reserved) { SpansAreUsable(r, reserved); }
    if r.lo >= r.hi { return; }
    var i := FirstOverlap(r, reserved);
    if i == |reserved| {
      assert reserved[i..] == [];
      WholeIsNew(b, done, r);
      out, after := AddSpan(b, m, total, done, r);
      if !out.panicked { AddedOne(b, done, out, after, r, m); }
      return;
    }
    out, after := FreeAround(b, m, total, done, r, reserved[i], reserved[i + 1..]);
    assert reserved[i..][1..] == reserved[i + 1..] && reserved[i..][0] == reserved[i];
  }

  /** Both sides of a reserved range. */
  method FreeAround(b: Boot, m: nat, ghost total: nat, ghost done: set<nat>, r: Range, s: Range, rest: seq<Range>)
    returns (out: Boot, ghost after: set<nat>)
    requires Sound(b, m, total, done) && r.hi <= total * PAGE_SIZE && Overlaps(r, s)
    requires CanAddAll(b, done, Left(r, s, rest) + Right(r, s, rest)) && AllApart(Left(r, s, rest) + Right(r, s, rest))
    ensures Sound(out, m, total, after) && out.defer == b.defer && (b.panicked ==> out.panicked)
    ensures total <= EARLY_PAGES ==> out.panicked == b.panicked
    ensures !out.panicked ==> AddedAll(b, done, out, after, Left(r, s, rest) + Right(r, s, rest), m)
    decreases |rest|, 1
  {
    ApartSplits(Left(r, s, rest), Right(r, s, rest));
    forall p: nat { AmongAppend(Left(r, s, rest), Right(r, s, rest), p); }
    out, after := b, done;
    AddedNone(b, done, m);
    if r.lo < s.lo { out, after := FreeWithReservation(b, m, total, done, Range(r.lo, s.lo), rest); }
    if out.panicked { return; }
    ghost var c, e := out, after;
    AddedNone(c, e, m);
    if r.hi > s.hi { out, after := FreeWithReservation(out, m, total, after, Range(s.hi, r.hi), rest); }
    if !out.panicked { AddedBoth(b, done, c, e, out, after, Left(r, s, rest), Right(r, s, rest), m); }
  }

  /** Hands over the first span set aside. */
  method ReleaseFirst(b: Boot, m: nat, ghost total: nat, ghost done: set<nat>) returns (out: Boot, ghost after: set<nat>)
    requires Sound(b, m, total, done) && b.deferred != []
    ensures Sound(out, m, total, after) && out.deferred == b.deferred[1..]
    ensures forall p: nat :: Known(out, after, p) <==> Known(b, done, p)
    ensures out.free.Blocks() == b.free.Blocks() + Carve(b.deferred[0].first, b.deferred[0].last, m)
  {
    var s := b.deferred[0];
    TakeFirst(b.deferred, total);
    out, after := AddPages(b.(deferred := b.deferred[1..]), m, total, done, s.first, s.last);
  }

  /** Once all memory is mapped, hands over what was set aside. */
  method ReleaseDeferred(b: Boot, m: nat, ghost total: nat, ghost done: set<nat>) returns (out: Boot, ghost after: set<nat>)
    requires Sound(b, m, total, done)
    ensures Sound(out, m, total, after) && out.deferred == []
    ensures forall p: nat :: p in after <==> Known(b, done, p)
    ensures out.free.Blocks() == Due(b, m)
  {
    out, after := b.(defer := false), done;
    var i := 0;
    assert b.deferred[..0] == [];
    while i < |b.deferred|
      invariant i <= |b.deferred| && out.deferred == b.deferred[i..] && Sound(out, m, total, after)
      invariant forall p: nat :: Known(out, after, p) <==> Known(b, done, p)
      invariant out.free.Blocks() == b.free.Blocks() + CarveAll(b.deferred[..i], m)
    {
      NextAside(b.deferred, i, m);
      out, after := ReleaseFirst(out, m, total, after);
      i := i + 1;
    }
    assert b.deferred[..i] == b.deferred;
  }

  lemma NextAside(deferred: seq<Pages>, i: nat, m: nat)
    requires i < |deferred|
    ensures deferred[i..][0] == deferred[i] && deferred[i..][1..] == deferred[i + 1..]
    ensures CarveAll(deferred[..i + 1], m) == CarveAll(deferred[..i], m) + Carve(deferred[i].first, deferred[i].last, m)
  {
    assert deferred[..i + 1][..i] == deferred[..i];
  }

  lemma TakeFirst(deferred: seq<Pages>, total: nat)
    requires AsideOk(deferred, total) && deferred != []
    ensures AsideOk(deferred[1..], total)
    ensures forall p: nat :: Among(deferred, p) <==> Among(deferred[1..], p) || deferred[0].first <= p < deferred[0].last
    ensures forall p: nat :: deferred[0].first <= p < deferred[0].last ==> !Among(deferred[1..], p)
  {
    var rest := deferred[1..];
    assert forall i :: 0 <= i < |rest| ==> rest[i] == deferred[i + 1];
    forall p: nat ensures Among(deferred, p) <==> Among(rest, p) || deferred[0].first <= p < deferred[0].last {
      if Among(deferred, p) {
        var i :| 0 <= i < |deferred| && deferred[i].first <= p < deferred[i].last;
        if i > 0 { assert rest[i - 1] == deferred[i]; }
      }
    }
    forall i | 0 <= i < |rest| ensures SpansApart(deferred[0], rest[i]) { assert rest[i] == deferred[i + 1]; }
  }

  // ---------------------------------------------------------------- the whole memory map

  datatype Entry = Entry(range: Range, available: bool)

  /** Available entries lie within physical memory. */
  predicate MapFits(entries: seq<Entry>, total: nat) {
    forall i :: 0 <= i < |entries| && entries[i].available ==> entries[i].range.hi <= total * PAGE_SIZE
  }

  /** Available entries do not overlap and lie within physical memory. */
  predicate MapOk(entries: seq<Entry>, total: nat) {
    && MapFits(entries, total)
    && forall i, j :: 0 <= i < j < |entries| && entries[i].available && entries[j].available ==>
         !Overlaps(entries[i].range, entries[j].range)
  }

  /** The page belongs to the allocator: wholly available and clear of every reserved range. */
  ghost predicate Released(p: nat, entries: seq<Entry>, reserved: seq<Range>) {
    exists i :: 0 <= i < |entries| && entries[i].available && Usable(p, entries[i].range, reserved)
  }

  function EntrySpans(e: Entry, reserved: seq<Range>): seq<Pages> { if e.available then SpansOf(e.range, reserved) else [] }

  /** All spans that boot hands over, one entry of the map after another. */
  function Spans(entries: seq<Entry>, reserved: seq<Range>): seq<Pages> {
    if entries == [] then []
    else Spans(entries[..|entries| - 1], reserved) + EntrySpans(entries[|entries| - 1], reserved)
  }

  const NOTHING_FREE := FreeState(seq(ORDERS, _ => []), seq(ORDERS, _ => 0), {}, 0)

  lemma NothingFreeOk(m: nat, total: nat)
    requires m < ORDERS
    ensures NOTHING_FREE.Ok(m, total, {}) && NOTHING_FREE.Blocks() == {}
  {
    forall b: Block ensures b !in NOTHING_FREE.Blocks() { InBlocks(NOTHING_FREE.lists, b); }
    assert forall k :: 0 <= k < ORDERS ==> GoodList(NOTHING_FREE.lists[k], k, m);
  }

  lemma NewEntry(entries: seq<Entry>, total: nat, reserved: seq<Range>, i: nat, p: nat)
    requires MapOk(entries, total) && i < |entries|
    ensures Released(p, entries[..i + 1], reserved) <==>
            Released(p, entries[..i], reserved) || (entries[i].available && Usable(p, entries[i].range, reserved))
    ensures entries[i].available && Usable(p, entries[i].range, reserved) ==> !Released(p, entries[..i], reserved)
  {
    var before, after := entries[..i], entries[..i + 1];
    assert after[i] == entries[i];
    if Released(p, before, reserved) {
      var j :| 0 <= j < |before| && before[j].available && Usable(p, before[j].range, reserved);
      assert after[j] == before[j];
    }
    if Released(p, after, reserved) {
      var j :| 0 <= j < |after| && after[j].available && Usable(p, after[j].range, reserved);
      if j < i { assert before[j] == after[j]; }
    }
  }

  /** The spans of a memory map do not overlap and hold exactly the pages released. */
  lemma {:induction false} SpansAreReleased(entries: seq<Entry>, total: nat, reserved: seq<Range>)
    requires MapOk(entries, total) && AllProper(reserved)
    ensures AllApart(Spans(entries, reserved))
    ensures forall p: nat :: Among(Spans(entries, reserved), p) <==> Released(p, entries, reserved)
  {
    if entries != [] {
      var n := |entries| - 1;
      var a, b := Spans(entries[..n], reserved), EntrySpans(entries[n], reserved);
      SpansAreReleased(entries[..n], total, reserved);
      SpansAreUsable(entries[n].range, reserved);
      assert entries[..n + 1] == entries;
      forall p: nat ensures (Among(a + b, p) <==> Released(p, entries, reserved)) && !(Among(a, p) && Among(b, p)) {
        AmongAppend(a, b, p);
        NewEntry(entries, total, reserved, n, p);
      }
      ApartAppend(a, b);
    }
  }

  lemma {:induction false} PrefixApart(entries: seq<Entry>, reserved: seq<Range>, i: nat)
    requires AllApart(Spans(entries, reserved)) && i <= |entries|
    ensures AllApart(Spans(entries[..i], reserved))
  {
    if i < |entries| {
      var n := |entries| - 1;
      ApartSplits(Spans(entries[..n], reserved), EntrySpans(entries[n], reserved));
      PrefixApart(entries[..n], reserved, i);
      assert entries[..n][..i] == entries[..i];
    } else {
      assert entries[..i] == entries;
    }
  }

  lemma NextEntry(entries: seq<Entry>, reserved: seq<Range>, i: nat)
    requires AllApart(Spans(entries, reserved)) && i < |entries| && Range(0, 0x10_0000) in reserved
    ensures Spans(entries[..i + 1], reserved) == Spans(entries[..i], reserved) + EntrySpans(entries[i], reserved)
    ensures AllApart(EntrySpans(entries[i], reserved))
    ensures forall p: nat :: Among(EntrySpans(entries[i], reserved), p) ==> 0 < p && !Among(Spans(entries[..i], reserved), p)
  {
    assert entries[..i + 1][..i] == entries[..i];
    PrefixApart(entries, reserved, i + 1);
    ApartSplits(Spans(entries[..i], reserved), EntrySpans(entries[i], reserved));
    forall p: nat | Among(EntrySpans(entries[i], reserved), p) ensures 0 < p {
      SpansAvoid(entries[i].range, reserved, Range(0, 0x10_0000), p);
    }
  }

  /** The pages that the range touches. */
  function Outward(r: Range): Pages { Pages(LastPage(r.lo), FirstPage(r.hi)) }

  /** The page is to be mapped: an available entry touches it. */
  ghost predicate ToMap(entries: seq<Entry>, p: nat) {
    exists i :: 0 <= i < |entries| && entries[i].available && Has(Outward(entries[i].range), p)
  }

  lemma ToMapNext(entries: seq<Entry>, i: nat, p: nat)
    requires i < |entries|
    ensures ToMap(entries[..i + 1], p) <==> ToMap(entries[..i], p) || (entries[i].available && Has(Outward(entries[i].range), p))
  {
    var before, after := entries[..i], entries[..i + 1];
    assert after[i] == entries[i];
    if ToMap(before, p) {
      var j :| 0 <= j < |before| && before[j].available && Has(Outward(before[j].range), p);
      assert after[j] == before[j];
    }
    if ToMap(after, p) {
      var j :| 0 <= j < |after| && after[j].available && Has(Outward(after[j].range), p);
      if j < i { assert before[j] == after[j]; }
    }
  }

  function Available(entries: seq<Entry>): nat {
    if entries == [] then 0
    else Available(entries[..|entries| - 1]) + if entries[|entries| - 1].available then 1 else 0
  }

  lemma {:induction false} AvailableGrows(entries: seq<Entry>, i: nat)
    requires i <= |entries|
    ensures Available(entries[..i]) <= Available(entries)
  {
    if i < |entries| {
      var n := |entries| - 1;
      AvailableGrows(entries[..n], i);
      assert entries[..n][..i] == entries[..i];
    } else {
      assert entries[..i] == entries;
    }
  }

  const AT_BOOT := Boot(NOTHING_FREE, 0, [], true, false)

  /** The table of ranges to map covers just what the entries touch, and is no longer than they are many. */
  ghost predicate DirectOk(direct: seq<Pages>, entries: seq<Entry>) {
    NoneEmpty(direct) && |direct| <= Available(entries) && forall p: nat :: Among(direct, p) <==> ToMap(entries, p)
  }

  /** The range of one entry goes in the table. */
  method AddEntryDirect(direct: seq<Pages>, entries: seq<Entry>, i: nat) returns (full: bool, out: seq<Pages>)
    requires i < |entries| && DirectOk(direct, entries[..i])
    ensures full ==> Available(entries) > MAX_SPANS
    ensures !full ==> DirectOk(out, entries[..i + 1])
  {
    assert entries[..i + 1][..i] == entries[..i];
    forall p: nat { ToMapNext(entries, i, p); }
    AvailableGrows(entries, i + 1);
    if !entries[i].available { return false, direct; }
    full, out := AddDirect(direct, Outward(entries[i].range));
  }

  /** The spans of one entry are handed over or set aside. */
  method AddEntry(b: Boot, m: nat, ghost total: nat, ghost done: set<nat>, entries: seq<Entry>, reserved: seq<Range>, i: nat)
    returns (out: Boot, ghost after: set<nat>)
    requires m < ORDERS && MapFits(entries, total) && Range(0, 0x10_0000) in reserved && AllApart(Spans(entries, reserved))
    requires i < |entries| && Sound(b, m, total, done) && !b.panicked
    requires AddedAll(AT_BOOT, {}, b, done, Spans(entries[..i], reserved), m)
    ensures Sound(out, m, total, after) && (total <= EARLY_PAGES ==> !out.panicked)
    ensures !out.panicked ==> AddedAll(AT_BOOT, {}, out, after, Spans(entries[..i + 1], reserved), m)
  {
    NextEntry(entries, reserved, i);
    NothingFreeOk(m, total);
    AddedNone(b, done, m);
    out, after := b, done;
    if entries[i].available { out, after := FreeWithReservation(b, m, total, done, entries[i].range, reserved); }
    if !out.panicked {
      AddedBoth(AT_BOOT, {}, b, done, out, after, Spans(entries[..i], reserved), EntrySpans(entries[i], reserved), m);
    }
  }

  /**
   Goes through the memory map: notes the range of every available entry in the table of ranges to map,
   and hands its spans over or sets them aside.
   */
  method AddEntries(m: nat, total: nat, entries: seq<Entry>, reserved: seq<Range>)
    returns (b: Boot, direct: seq<Pages>, ghost pages: set<nat>)
    requires m < ORDERS && MapFits(entries, total) && Range(0, 0x10_0000) in reserved && AllApart(Spans(entries, reserved))
    ensures Sound(b, m, total, pages) && (total <= EARLY_PAGES && Available(entries) <= MAX_SPANS ==> !b.panicked)
    ensures !b.panicked ==> AddedAll(AT_BOOT, {}, b, pages, Spans(entries, reserved), m) && DirectOk(direct, entries)
  {
    NothingFreeOk(m, total);
    b, direct, pages := AT_BOOT, [], {};
    var i := 0;
    AddedNone(AT_BOOT, {}, m);
    while i < |entries|
      invariant i <= |entries| && Sound(b, m, total, pages) && !b.panicked
      invariant AddedAll(AT_BOOT, {}, b, pages, Spans(entries[..i], reserved), m) && DirectOk(direct, entries[..i])
    {
      var full;
      full, direct := AddEntryDirect(direct, entries, i);
      if full {
        b := b.(panicked := true);
        return;
      }
      b, pages := AddEntry(b, m, total, pages, entries, reserved, i);
      if b.panicked { return; }
      i := i + 1;
    }
    assert entries[..i] == entries;
  }

  /** Before boot nothing is free or set aside. */
  lemma AddedAtBoot(b: Boot, pages: set<nat>, spans: seq<Pages>, m: nat, total: nat)
    requires m < ORDERS && AddedAll(AT_BOOT, {}, b, pages, spans, m)
    ensures Due(b, m) == CarveAll(spans, m) && forall p: nat :: Known(b, pages, p) <==> Among(spans, p)
  {
    NothingFreeOk(m, total);
  }

  /**
   The boot sequence frees the pages of the spans, each once, and the count of managed bytes is exact.
   If the map and the reserved ranges are sound, those are the pages that are wholly available and
   clear of all reserved ranges. The lists are in canonical form if and only if no two spans cross. It
   can panic only because one of its tables is full: of spans above 64 GiB or of ranges to map.
   */
  method HandOver(m: nat, total: nat, entries: seq<Entry>, reserved: seq<Range>)
    returns (panicked: bool, free: FreeState, managed: nat, direct: seq<Pages>, ghost pages: set<nat>)
    requires m < ORDERS && MapFits(entries, total) && Range(0, 0x10_0000) in reserved && AllApart(Spans(entries, reserved))
    ensures total <= EARLY_PAGES && Available(entries) <= MAX_SPANS ==> !panicked
    ensures !panicked ==> free.Ok(m, total, pages) && managed == PAGE_SIZE * |pages| && DirectOk(direct, entries)
    ensures !panicked ==> forall p: nat :: p in pages <==> Among(Spans(entries, reserved), p)
    ensures !panicked && MapOk(entries, total) && AllProper(reserved) ==>
              forall p: nat :: p in pages <==> Released(p, entries, reserved)
    ensures !panicked ==> free.Blocks() == CarveAll(Spans(entries, reserved), m)
    ensures !panicked ==> (NoBuddies(free.Blocks(), m) <==> NoneCross(Spans(entries, reserved), m))
  {
    var b;
    b, direct, pages := AddEntries(m, total, entries, reserved);
    if b.panicked { return true, b.free, b.managed, direct, pages; }
    AddedAtBoot(b, pages, Spans(entries, reserved), m, total);
    b, pages := ReleaseDeferred(b, m, total, pages);
    if MapOk(entries, total) && AllProper(reserved) { SpansAreReleased(entries, total, reserved); }
    CanonicalIff(Spans(entries, reserved), m);
    return false, b.free, b.managed, direct, pages;
  }

  /** Two available pages in entries of their own, 256 and 257, and 1 GiB in a third. */
  function TouchingMap(): seq<Entry> {
    [Entry(Range(0x10_0000, 0x10_1000), true), Entry(Range(0x10_1000, 0x10_2000), true),
     Entry(Range(0x4000_0000, 0x8000_0000), true)]
  }

  function TouchingSpans(): seq<Pages> { [Pages(256, 257), Pages(257, 258), Pages(0x4_0000, 0x8_0000)] }

  lemma SpansOfTouchingMap()
    ensures Spans(TouchingMap(), [Range(0, 0x10_0000)]) == TouchingSpans()
  {
    var map0, reserved := TouchingMap(), [Range(0, 0x10_0000)];
    var a, b, c := map0[0], map0[1], map0[2];
    assert reserved[1..] == [];
    assert EntrySpans(a, reserved) == [Pages(256, 257)] && EntrySpans(b, reserved) == [Pages(257, 258)];
    assert EntrySpans(c, reserved) == [Pages(0x4_0000, 0x8_0000)];
    assert Spans([a], reserved) == [Pages(256, 257)] by { assert [a][..0] == [] && Spans([], reserved) == []; }
    assert Spans([a, b], reserved) == [Pages(256, 257), Pages(257, 258)] by { assert [a, b][..1] == [a]; }
    assert map0[..2] == [a, b];
  }

  /** The top order for this map. */
  lemma TopOrderOfTouchingMap()
    ensures TopOrder(TouchingSpans()) == 11
  {
    var s := TouchingSpans();
    assert s[..2] == [s[0], s[1]] && [s[0], s[1]][..1] == [s[0]] && [s[0]][..0] == [];
    assert Total([s[0]]) == 1 && Largest([s[0]]) == 1;
    assert Total(s[..2]) == 2 && Largest(s[..2]) == 1;
    assert Total(s) == 262146 && Largest(s) == 262144;
    FloorLog2OfPow2(18);
    FloorLog2OfPow2(11);
    assert Pow2(18) == 262144 && Pow2(11) == 2048;
  }

  lemma TouchingSpansCross()
    ensures Crosses(Pages(256, 257), Pages(257, 258), 11)
  {
    assert TrailingZeros(257) == 0;
  }

  lemma TouchingMapIsOk()
    ensures MapOk(TouchingMap(), 0x8_0000) && AllProper([Range(0, 0x10_0000)])
  {}

  /** Handing the map over, with the top order that boot chooses for it, leaves two unmerged buddies on the lists. */
  lemma TouchingExample() returns (entries: seq<Entry>, reserved: seq<Range>)
    ensures entries == TouchingMap() && reserved == [Range(0, 0x10_0000)]
    ensures MapOk(entries, 0x8_0000) && AllProper(reserved) && TopOrder(Spans(entries, reserved)) == 11
    ensures !NoBuddies(CarveAll(Spans(entries, reserved), TopOrder(Spans(entries, reserved))), 11)
  {
    entries, reserved := TouchingMap(), [Range(0, 0x10_0000)];
    TouchingMapIsOk();
    SpansOfTouchingMap();
    TopOrderOfTouchingMap();
    TouchingSpansCross();
    FirstTwoCross(Spans(entries, reserved), TopOrder(Spans(entries, reserved)));
  }

  lemma FirstTwoCross(spans: seq<Pages>, m: nat)
    requires |spans| >= 2 && Crosses(spans[0], spans[1], m)
    ensures !NoBuddies(CarveAll(spans, m), m)
  {
    CrossingLeavesBuddies(spans, m, 0, 1);
  }
}
