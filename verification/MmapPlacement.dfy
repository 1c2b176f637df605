/**
 Choosing the address of a new mapping: first fit from a hint, then from the bottom of the window,
 over the unordered list of areas of a task.
 */
module MmapPlacement {
  import opened Common

  datatype Area = Area(start: nat, end: nat)

  /** Rounding up to a page; 0 on 64-bit overflow. */
  function PageAlignUp(v: nat): nat {
    if v > UINT64_MAX - (PAGE_SIZE - 1) then 0 else (v + PAGE_SIZE - 1) / PAGE_SIZE * PAGE_SIZE
  }

  predicate Hits(a: Area, at: nat, size: nat) { at < a.end && at + size > a.start }

  /** A page-aligned place of `size` bytes in [lo, limit) that overlaps no area. */
  predicate Fits(areas: seq<Area>, size: nat, lo: nat, limit: nat, at: nat) {
    && at % PAGE_SIZE == 0 && lo <= at && at + size <= limit
    && forall i :: 0 <= i < |areas| ==> !Hits(areas[i], at, size)
  }

  ghost predicate Nowhere(areas: seq<Area>, size: nat, lo: nat, limit: nat) {
    forall at: nat :: !Fits(areas, size, lo, limit, at)
  }

  /** No place between cur and the end of an area that cur hits is any good. */
  lemma SkipIsSafe(areas: seq<Area>, size: nat, lo: nat, limit: nat, cur: nat, h: nat, at: nat)
    requires h < |areas| && Hits(areas[h], cur, size) && cur <= at && at % PAGE_SIZE == 0 && limit <= UINT64_MAX
    requires PageAlignUp(areas[h].end) == 0 || at < PageAlignUp(areas[h].end)
    ensures !Fits(areas, size, lo, limit, at)
  {
    if at + size <= limit && areas[h].end > 0 {
      assert Hits(areas[h], at, size);
    }
  }

  /** One pass of first fit starting at `start`. */
  method FirstFit(areas: seq<Area>, size: nat, lo: nat, limit: nat, start: nat) returns (at: nat)
    requires 0 < lo && start % PAGE_SIZE == 0 && limit <= UINT64_MAX
    ensures at != 0 ==> start <= at && Fits(areas, size, lo, limit, at)
    ensures at != 0 ==> forall b: nat :: start <= b < at ==> !Fits(areas, size, lo, limit, b)
    ensures at == 0 && lo <= start ==> forall b: nat :: start <= b ==> !Fits(areas, size, lo, limit, b)
  {
    var cur := start;
    while cur >= lo && cur <= limit && size <= limit - cur
      invariant cur % PAGE_SIZE == 0
      invariant cur == 0 || start <= cur
      invariant cur == 0 && lo <= start ==> forall b: nat :: start <= b ==> !Fits(areas, size, lo, limit, b)
      invariant forall b: nat :: start <= b < cur ==> !Fits(areas, size, lo, limit, b)
      decreases cur != 0, if cur <= limit then limit - cur + 1 else 0
    {
      var h := 0;
      while h < |areas| && !Hits(areas[h], cur, size)
        invariant 0 <= h <= |areas|
        invariant forall i :: 0 <= i < h ==> !Hits(areas[i], cur, size)
      {
        h := h + 1;
      }
      if h == |areas| { return cur; }
      var next := PageAlignUp(areas[h].end);
      forall b: nat | cur <= b && (next == 0 || b < next) ensures !Fits(areas, size, lo, limit, b) {
        if b % PAGE_SIZE == 0 { SkipIsSafe(areas, size, lo, limit, cur, h, b); }
      }
      cur := next;
    }
    at := 0;
  }

  /** Two passes: from the hint, then from the bottom of the window. */
  method ChooseMmapAddr(areas: seq<Area>, size: nat, hint: nat, mmapMin: nat, window: nat, userTop: nat) returns (at: nat)
    requires 0 < mmapMin && mmapMin % PAGE_SIZE == 0 && mmapMin + window <= UINT64_MAX
    ensures var limit := if mmapMin + window > userTop then userTop else mmapMin + window;
            && (at != 0 ==> Fits(areas, size, mmapMin, limit, at))
            && (at == 0 <==> Nowhere(areas, size, mmapMin, limit))
            && var base := PageAlignUp(if hint != 0 then hint else mmapMin);
               (exists b: nat :: base <= b && mmapMin <= base && Fits(areas, size, mmapMin, limit, b)) ==>
                 base <= at && forall b: nat :: base <= b < at ==> !Fits(areas, size, mmapMin, limit, b)
  {
    var base := PageAlignUp(if hint != 0 then hint else mmapMin);
    var limit := if mmapMin + window > userTop then userTop else mmapMin + window;
    at := FirstFit(areas, size, mmapMin, limit, base);
    if at == 0 { at := FirstFit(areas, size, mmapMin, limit, mmapMin); }
  }
}
