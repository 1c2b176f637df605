/**
 The table of physical ranges to be mapped: each available range, rounded outwards to pages, is merged
 with the entries it touches.
 */
module DirectMap {
  import opened Common
  import opened BootSpans

  const MAX_SPANS := 256

  predicate Has(s: Pages, p: nat) { s.first <= p < s.last }

  /** The two overlap or one starts where the other ends. */
  predicate Touching(a: Pages, b: Pages) { !(a.last < b.first || a.first > b.last) }

  function Hull(a: Pages, b: Pages): Pages { Pages(Min(a.first, b.first), Max(a.last, b.last)) }

  predicate NoneEmpty(table: seq<Pages>) { forall i :: 0 <= i < |table| ==> table[i].first < table[i].last }

  /** No two entries touch. */
  predicate Separate(table: seq<Pages>) { forall i, j :: 0 <= i < j < |table| ==> !Touching(table[i], table[j]) }

  /** Entry i is replaced by the last one. */
  function Removed(t: seq<Pages>, i: nat): seq<Pages>
    requires i < |t|
  {
    t[i := t[|t| - 1]][..|t| - 1]
  }

  lemma RemovedHas(t: seq<Pages>, i: nat, p: nat)
    requires i < |t|
    ensures Among(t, p) <==> Among(Removed(t, i), p) || Has(t[i], p)
  {
    var u, n := Removed(t, i), |t| - 1;
    assert forall j :: 0 <= j < n ==> u[j] == if j == i then t[n] else t[j];
    if Among(t, p) && !Has(t[i], p) {
      var j :| 0 <= j < |t| && t[j].first <= p < t[j].last;
      assert u[if j == n then i else j] == t[j];
    }
  }

  lemma RemovedSeparate(t: seq<Pages>, i: nat)
    requires i < |t| && Separate(t)
    ensures Separate(Removed(t, i))
    ensures forall j :: 0 <= j < |t| - 1 ==> !Touching(t[i], Removed(t, i)[j])
  {
    var u, n := Removed(t, i), |t| - 1;
    assert forall j :: 0 <= j < n ==> u[j] == if j == i then t[n] else t[j];
  }

  /** Merging ranges that touch covers just the two. */
  lemma HullHas(a: Pages, b: Pages, p: nat)
    requires a.first < a.last && b.first < b.last && Touching(a, b)
    ensures Has(Hull(a, b), p) <==> Has(a, p) || Has(b, p)
  {}

  lemma HullTouches(a: Pages, b: Pages, c: Pages)
    requires a.first < a.last && b.first < b.last && c.first < c.last && Touching(a, b)
    ensures Touching(Hull(a, b), c) <==> Touching(a, c) || Touching(b, c)
  {}

  /** The new range touches the first entry, so the last one takes its place and is not looked at; and it touches that too. */
  predicate Missed(table: seq<Pages>, r: Pages) {
    |table| >= 2 && Touching(r, table[0]) && Touching(r, table[|table| - 1])
  }

  /** What is known of entry 0, which is looked at once, and of the entries from 1 up to i. */
  ghost predicate Looked(table: seq<Pages>, r: Pages, t: seq<Pages>, cur: Pages, i: nat) {
    && (forall j :: 0 <= j < |t| ==> (Touching(cur, t[j]) <==> Touching(r, t[j])))
    && (forall j :: 1 <= j < |t| && j < i ==> !Touching(cur, t[j]))
    && (i > 0 && |t| > 0 ==> !Touching(r, t[0]) || Missed(table, r))
    && (i > 0 && Missed(table, r) ==> |t| > 0 && t[0] == table[|table| - 1])
    && (i == 0 ==> t == table && cur == r)
  }

  lemma LookedOn(table: seq<Pages>, r: Pages, t: seq<Pages>, cur: Pages, i: nat)
    requires Looked(table, r, t, cur, i) && i < |t| && !Touching(cur, t[i])
    ensures Looked(table, r, t, cur, i + 1)
  {}

  lemma LookedMerged(table: seq<Pages>, r: Pages, t: seq<Pages>, cur: Pages, i: nat)
    requires NoneEmpty(t) && Separate(t) && cur.first < cur.last && Looked(table, r, t, cur, i) && i < |t| && Touching(cur, t[i])
    ensures Looked(table, r, Removed(t, i), Hull(cur, t[i]), 1)
  {
    var u, n := Removed(t, i), |t| - 1;
    RemovedSeparate(t, i);
    assert forall j :: 0 <= j < n ==> u[j] == if j == i then t[n] else t[j];
    forall j | 0 <= j < n ensures Touching(Hull(cur, t[i]), u[j]) <==> Touching(r, u[j]) {
      assert !Touching(t[i], u[j]);
      HullTouches(cur, t[i], u[j]);
    }
  }

  /** Turning one entry into part of the current range changes no coverage. */
  lemma MergedHas(t: seq<Pages>, cur: Pages, i: nat)
    requires NoneEmpty(t) && cur.first < cur.last && i < |t| && Touching(cur, t[i])
    ensures forall p: nat :: Among(Removed(t, i), p) || Has(Hull(cur, t[i]), p) <==> Among(t, p) || Has(cur, p)
  {
    forall p: nat ensures Among(Removed(t, i), p) || Has(Hull(cur, t[i]), p) <==> Among(t, p) || Has(cur, p) {
      RemovedHas(t, i, p);
      HullHas(cur, t[i], p);
    }
  }

  lemma AppendedHas(t: seq<Pages>, cur: Pages, p: nat)
    ensures Among(t + [cur], p) <==> Among(t, p) || Has(cur, p)
  {
    assert (t + [cur])[|t|] == cur;
    if Among(t, p) {
      var i :| 0 <= i < |t| && t[i].first <= p < t[i].last;
      assert (t + [cur])[i] == t[i];
    }
  }

  /** At the end the current range joins the entries that are left. */
  lemma AppendedSeparate(table: seq<Pages>, r: Pages, t: seq<Pages>, cur: Pages, i: nat)
    requires Separate(table) && Separate(t) && Looked(table, r, t, cur, i) && |t| <= i
    ensures Separate(t + [cur]) <==> !Missed(table, r)
  {
    var out := t + [cur];
    if Missed(table, r) {
      assert out[0] == t[0] && out[|t|] == cur && Touching(out[0], out[|t|]);
    }
  }

  /**
   Adds a range to the table. The table then covers just the pages it did and those of the range. Its
   entries stay separate if and only if the range did not touch both the first and the last of them.
   */
  method AddDirect(table: seq<Pages>, r: Pages) returns (full: bool, out: seq<Pages>)
    requires NoneEmpty(table)
    ensures full ==> |table| >= MAX_SPANS
    ensures !full ==> NoneEmpty(out) && |out| <= |table| + 1
    ensures !full ==> forall p: nat :: Among(out, p) <==> Among(table, p) || Has(r, p)
    ensures !full && Separate(table) ==> (Separate(out) <==> !(r.first < r.last && Missed(table, r)))
  {
    if r.first >= r.last { return false, table; }
    var t, cur := table, r;
    var i := 0;
    while i < |t|
      invariant 0 <= i && |t| <= |table| && NoneEmpty(t) && cur.first < cur.last
      invariant forall p: nat :: Among(t, p) || Has(cur, p) <==> Among(table, p) || Has(r, p)
      invariant Separate(table) ==> Separate(t) && Looked(table, r, t, cur, i)
      decreases |t|, |t| - i
    {
      if Touching(cur, t[i]) {
        MergedHas(t, cur, i);
        if Separate(table) {
          LookedMerged(table, r, t, cur, i);
          RemovedSeparate(t, i);
        }
        t, cur, i := Removed(t, i), Hull(cur, t[i]), 1;
      } else {
        if Separate(table) { LookedOn(table, r, t, cur, i); }
        i := i + 1;
      }
    }
    if |t| >= MAX_SPANS { return true, t; }
    full, out := false, t + [cur];
    forall p: nat { AppendedHas(t, cur, p); }
    if Separate(table) { AppendedSeparate(table, r, t, cur, i); }
  }

  /** Filling the gap between the only two entries leaves two that touch. */
  method GapExample() returns (out: seq<Pages>)
    ensures Separate([Pages(256, 257), Pages(258, 259)]) && !Separate(out)
    ensures forall p: nat :: Among(out, p) <==> 256 <= p < 259
  {
    var table := [Pages(256, 257), Pages(258, 259)];
    var full;
    full, out := AddDirect(table, Pages(257, 258));
    forall p: nat ensures Among(table, p) <==> p == 256 || p == 258 {
      assert table[0].first <= 256 < table[0].last && table[1].first <= 258 < table[1].last;
    }
  }
}
