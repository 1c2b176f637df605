/**
 Page tables of 4 or 5 levels with 4 KiB, 2 MiB and 1 GiB leaves. Virtual and physical addresses are
 page numbers; tables are named by the frame that holds them.
 */
module Paging {
  import opened Common

  const FANOUT := 512
  const BIG := 0x4_0000

  /** A table entry; `addr` is a frame number, and `mark` says that an absent entry marks a demand-zero or guard page. */
  datatype Entry = Entry(present: bool, user: bool, huge: bool, mark: bool, addr: nat)

  type Tables = map<nat, seq<Entry>>
  type Path = seq<nat>
  type Places = map<nat, Path>

  datatype Mapping = Unmapped | Mapped(frame: nat)

  const EMPTY := Entry(false, false, false, false, 0)

  function EmptyTable(): (t: seq<Entry>)
    ensures |t| == FANOUT && forall i :: 0 <= i < FANOUT ==> t[i] == EMPTY
  {
    seq(FANOUT, _ => EMPTY)
  }

  // ---------------------------------------------------------------- addresses as paths

  /** The table indexes of a page number, one per level, top level first. */
  function Digits(v: nat, levels: nat): (ds: Path)
    ensures |ds| == levels && forall i :: 0 <= i < levels ==> ds[i] < FANOUT
  {
    if levels == 0 then [] else Digits(v / FANOUT, levels - 1) + [v % FANOUT]
  }

  /** Page numbers that share an entry k levels above the leaf level agree after dropping k digits. */
  function Drop(v: nat, k: nat): nat { if k == 0 then v else Drop(v / FANOUT, k - 1) }

  lemma {:induction false} DigitsPrefix(v: nat, levels: nat, k: nat)
    requires k <= levels
    ensures Digits(v, levels)[..levels - k] == Digits(Drop(v, k), levels - k)
    decreases k
  {
    if k == 0 {
      assert Digits(v, levels)[..levels] == Digits(v, levels);
    } else {
      DigitsPrefix(v / FANOUT, levels - 1, k - 1);
      assert Digits(v, levels)[..levels - k] == Digits(v / FANOUT, levels - 1)[..levels - k];
    }
  }

  /** Number of pages a table of `levels` levels can map. */
  function Reach(levels: nat): nat { if levels == 0 then 1 else FANOUT * Reach(levels - 1) }

  lemma {:induction false} DigitsInjective(v: nat, w: nat, levels: nat)
    requires v < Reach(levels) && w < Reach(levels) && Digits(v, levels) == Digits(w, levels)
    ensures v == w
    decreases levels
  {
    if levels > 0 {
      var a, b := Digits(v, levels), Digits(w, levels);
      assert a[levels - 1] == v % FANOUT && b[levels - 1] == w % FANOUT;
      assert a[..levels - 1] == Digits(v / FANOUT, levels - 1);
      assert b[..levels - 1] == Digits(w / FANOUT, levels - 1);
      DigitsInjective(v / FANOUT, w / FANOUT, levels - 1);
    }
  }

  // ---------------------------------------------------------------- translation

  /** Offset of page v inside a leaf k levels above the last level. */
  function Low(v: nat, k: nat): nat { if k == 0 then 0 else if k == 1 then v % FANOUT else v % BIG }

  predicate IsLeaf(e: Entry, d: nat, levels: nat) { d + 1 == levels || (e.huge && levels <= d + 3) }

  predicate IsTable(t: Tables, f: nat) { f in t && |t[f]| == FANOUT }

  /** get_mapping from table f at level d on. */
  function Resolve(t: Tables, f: nat, v: nat, d: nat, levels: nat): Mapping
    decreases levels - d
  {
    if d >= levels || !IsTable(t, f) then Unmapped
    else
      var e := t[f][Digits(v, levels)[d]];
      if !e.present then Unmapped
      else if IsLeaf(e, d, levels) then Mapped(e.addr + Low(v, levels - 1 - d))
      else if e.huge then Unmapped
      else Resolve(t, e.addr, v, d + 1, levels)
  }

  function Translate(t: Tables, root: nat, v: nat, levels: nat): Mapping { Resolve(t, root, v, 0, levels) }

  /** Every table hangs at one place, and pointers lead to the table of their place. */
  ghost predicate Valid(t: Tables, place: Places, root: nat, levels: nat) {
    && root in t && root in place && place[root] == []
    && (forall f :: f in t ==> f in place && |t[f]| == FANOUT && |place[f]| < levels)
    && (forall f, i :: f in t && 0 <= i < FANOUT && Points(t[f][i], |place[f]|, levels) ==>
          LeadsRight(t, place, f, i))
  }

  predicate Points(e: Entry, d: nat, levels: nat) { e.present && !e.huge && d + 1 < levels }

  ghost predicate LeadsRight(t: Tables, place: Places, f: nat, i: nat)
    requires f in t && i < |t[f]| && f in place
  {
    var g := t[f][i].addr;
    g in t && g in place && place[g] == place[f] + [i]
  }

  /** Table f lies on the way to page v. */
  ghost predicate OnWay(place: Places, f: nat, v: nat, d: nat, levels: nat) {
    f in place && d < levels && place[f] == Digits(v, levels)[..d]
  }

  lemma OneDown(t: Tables, place: Places, root: nat, f: nat, v: nat, d: nat, levels: nat)
    requires Valid(t, place, root, levels) && f in t && OnWay(place, f, v, d, levels)
    requires Points(t[f][Digits(v, levels)[d]], d, levels)
    ensures var g := t[f][Digits(v, levels)[d]].addr; g in t && OnWay(place, g, v, d + 1, levels)
  {
    var ds := Digits(v, levels);
    assert LeadsRight(t, place, f, ds[d]);
    assert ds[..d + 1] == ds[..d] + [ds[d]];
  }

  /** Overwriting entry i of table g leaves every page alone whose way does not use that entry. */
  lemma {:induction false} WriteElsewhere(t: Tables, place: Places, root: nat, g: nat, i: nat, e: Entry,
                                          f: nat, v: nat, d: nat, levels: nat)
    requires Valid(t, place, root, levels) && g in t && i < FANOUT && f in t && OnWay(place, f, v, d, levels)
    requires Digits(v, levels)[..|place[g]| + 1] != place[g] + [i]
    ensures Resolve(t[g := t[g][i := e]], f, v, d, levels) == Resolve(t, f, v, d, levels)
    decreases levels - d
  {
    var ds := Digits(v, levels);
    var u := t[g := t[g][i := e]];
    if f == g { assert ds[..d + 1] == ds[..d] + [ds[d]]; }
    assert u[f][ds[d]] == t[f][ds[d]];
    if Points(t[f][ds[d]], d, levels) {
      OneDown(t, place, root, f, v, d, levels);
      WriteElsewhere(t, place, root, g, i, e, t[f][ds[d]].addr, v, d + 1, levels);
    }
  }

  /** The table found after d pointers on the way to v. */
  function WalkTo(t: Tables, root: nat, v: nat, d: nat, levels: nat): Mapping
    requires d <= levels
    decreases d
  {
    if d == 0 then Mapped(root)
    else
      match WalkTo(t, root, v, d - 1, levels)
      case Unmapped => Unmapped
      case Mapped(f) =>
        if !IsTable(t, f) then Unmapped
        else
          var e := t[f][Digits(v, levels)[d - 1]];
          if e.present && !e.huge then Mapped(e.addr) else Unmapped
  }

  lemma {:induction false} WalkIsOnWay(t: Tables, place: Places, root: nat, v: nat, d: nat, levels: nat)
    requires Valid(t, place, root, levels) && d < levels && WalkTo(t, root, v, d, levels).Mapped?
    ensures var f := WalkTo(t, root, v, d, levels).frame;
            f in t && OnWay(place, f, v, d, levels) && Translate(t, root, v, levels) == Resolve(t, f, v, d, levels)
    decreases d
  {
    if d > 0 {
      WalkIsOnWay(t, place, root, v, d - 1, levels);
      OneDown(t, place, root, WalkTo(t, root, v, d - 1, levels).frame, v, d - 1, levels);
    }
  }

  // ---------------------------------------------------------------- adding tables

  function WithEntry(t: Tables, g: nat, i: nat, e: Entry): Tables
    requires g in t && i < |t[g]|
  {
    t[g := t[g][i := e]]
  }

  /** Hang the empty table n at entry i of table g. */
  function Hang(t: Tables, g: nat, i: nat, n: nat): Tables
    requires g in t && i < |t[g]|
  {
    WithEntry(t, g, i, Entry(true, true, false, false, n))[n := EmptyTable()]
  }

  ghost predicate CanHang(t: Tables, place: Places, root: nat, levels: nat, g: nat, i: nat, n: nat) {
    && Valid(t, place, root, levels) && g in t && i < FANOUT && !t[g][i].present && |place[g]| + 1 < levels
    && n !in t && n !in place
  }

  lemma HangKeepsValid(t: Tables, place: Places, root: nat, levels: nat, g: nat, i: nat, n: nat)
    requires CanHang(t, place, root, levels, g, i, n)
    ensures Valid(Hang(t, g, i, n), place[n := place[g] + [i]], root, levels)
  {
    var u, pl := Hang(t, g, i, n), place[n := place[g] + [i]];
    forall f, j | f in u && 0 <= j < FANOUT && Points(u[f][j], |pl[f]|, levels) ensures LeadsRight(u, pl, f, j) {
      if f != n && !(f == g && j == i) {
        assert u[f][j] == t[f][j];
        assert LeadsRight(t, place, f, j);
      }
    }
  }

  /** An empty table where nothing was present changes no translation. */
  lemma {:induction false} HangIsSilent(t: Tables, place: Places, root: nat, levels: nat, g: nat, i: nat, n: nat,
                                        f: nat, v: nat, d: nat)
    requires CanHang(t, place, root, levels, g, i, n) && f in t && OnWay(place, f, v, d, levels)
    ensures Resolve(Hang(t, g, i, n), f, v, d, levels) == Resolve(t, f, v, d, levels)
    decreases levels - d
  {
    var u, j := Hang(t, g, i, n), Digits(v, levels)[d];
    if f == g && j == i {
      assert Resolve(u, n, v, d + 1, levels) == Unmapped;
    } else {
      assert u[f][j] == t[f][j];
      if Points(t[f][j], d, levels) {
        OneDown(t, place, root, f, v, d, levels);
        HangIsSilent(t, place, root, levels, g, i, n, t[f][j].addr, v, d + 1);
      }
    }
  }

  lemma {:induction false} HangWalk(t: Tables, place: Places, root: nat, levels: nat, g: nat, i: nat, n: nat, v: nat, d: nat)
    requires CanHang(t, place, root, levels, g, i, n) && d < levels && WalkTo(t, root, v, d, levels).Mapped?
    ensures WalkTo(Hang(t, g, i, n), root, v, d, levels) == WalkTo(t, root, v, d, levels)
    decreases d
  {
    if d > 0 {
      HangWalk(t, place, root, levels, g, i, n, v, d - 1);
      WalkIsOnWay(t, place, root, v, d - 1, levels);
    }
  }

  /** The same translations before and after. */
  ghost predicate SameView(t: Tables, u: Tables, root: nat, levels: nat) {
    forall v: nat :: Translate(u, root, v, levels) == Translate(t, root, v, levels)
  }

  /** Frames the allocator will hand out: distinct, and not holding tables. */
  ghost predicate Fresh(supply: seq<nat>, t: Tables, place: Places) {
    && (forall i :: 0 <= i < |supply| ==> supply[i] !in t && supply[i] !in place)
    && (forall i, j :: 0 <= i < j < |supply| ==> supply[i] != supply[j])
  }

  /**
   Walk to the table at level d on the way to v, adding tables where nothing is present. The walk
   fails on a huge leaf and when the allocator runs out.
   */
  method WalkToLevel(t0: Tables, ghost place0: Places, root: nat, levels: nat, v: nat, d: nat, supply0: seq<nat>)
    returns (ok: bool, f: nat, t: Tables, ghost place: Places, supply: seq<nat>)
    requires Valid(t0, place0, root, levels) && d < levels && Fresh(supply0, t0, place0)
    ensures Valid(t, place, root, levels) && Fresh(supply, t, place) && SameView(t0, t, root, levels)
    ensures ok ==> WalkTo(t, root, v, d, levels) == Mapped(f)
    ensures !ok && supply != [] ==> exists c :: 0 <= c < d && HugeAt(t, root, v, c, levels)
  {
    t, place, supply, f := t0, place0, supply0, root;
    var ds := Digits(v, levels);
    var c := 0;
    while c < d
      invariant 0 <= c <= d && Valid(t, place, root, levels) && Fresh(supply, t, place) && SameView(t0, t, root, levels)
      invariant WalkTo(t, root, v, c, levels) == Mapped(f)
    {
      WalkIsOnWay(t, place, root, v, c, levels);
      var e := t[f][ds[c]];
      if e.present && e.huge {
        assert HugeAt(t, root, v, c, levels);
        return false, f, t, place, supply;
      }
      if !e.present {
        if supply == [] { return false, f, t, place, supply; }
        HangEffect(t, place, root, levels, f, ds[c], supply[0], v, c);
        t, place := Hang(t, f, ds[c], supply[0]), place[supply[0] := place[f] + [ds[c]]];
        supply := supply[1..];
      }
      f := t[f][ds[c]].addr;
      c := c + 1;
    }
    ok := true;
  }

  /** A huge leaf sits on the way to v at level c. */
  predicate HugeAt(t: Tables, root: nat, v: nat, c: nat, levels: nat)
    requires c < levels
  {
    match WalkTo(t, root, v, c, levels)
    case Unmapped => false
    case Mapped(f) => IsTable(t, f) && t[f][Digits(v, levels)[c]].present && t[f][Digits(v, levels)[c]].huge
  }

  lemma HangEffect(t: Tables, place: Places, root: nat, levels: nat, g: nat, i: nat, n: nat, v: nat, c: nat)
    requires CanHang(t, place, root, levels, g, i, n) && c + 1 < levels
    requires WalkTo(t, root, v, c, levels) == Mapped(g) && i == Digits(v, levels)[c]
    ensures Valid(Hang(t, g, i, n), place[n := place[g] + [i]], root, levels)
    ensures SameView(t, Hang(t, g, i, n), root, levels)
    ensures WalkTo(Hang(t, g, i, n), root, v, c + 1, levels) == Mapped(n)
  {
    HangKeepsValid(t, place, root, levels, g, i, n);
    forall w: nat ensures Translate(Hang(t, g, i, n), root, w, levels) == Translate(t, root, w, levels) {
      assert Digits(w, levels)[..0] == [];
      HangIsSilent(t, place, root, levels, g, i, n, root, w, 0);
    }
    HangWalk(t, place, root, levels, g, i, n, v, c);
  }

  // ---------------------------------------------------------------- mapping one page

  /** Physical frame numbers are cut to what the processor can address. */
  function Masked(frame: nat, frames: nat): nat
    requires frames > 0
  {
    frame % frames
  }

  /** Page w shares the leaf of page v that sits k levels above the last level. */
  predicate SameLeaf(v: nat, w: nat, k: nat, levels: nat)
    requires k < levels
  {
    Digits(v, levels)[..levels - k] == Digits(w, levels)[..levels - k]
  }

  /** After mapping v to `frame` with a leaf k levels up, exactly the pages of that leaf have changed. */
  ghost predicate MappedLeaf(t: Tables, u: Tables, root: nat, levels: nat, v: nat, k: nat, frame: nat) {
    k < levels && forall w: nat :: Translate(u, root, w, levels) ==
                                   if SameLeaf(v, w, k, levels) then Mapped(frame + Low(w, k)) else Translate(t, root, w, levels)
  }

  lemma WriteKeepsValid(t: Tables, place: Places, root: nat, levels: nat, f: nat, i: nat, e: Entry)
    requires Valid(t, place, root, levels) && f in t && i < FANOUT && !Points(e, |place[f]|, levels)
    ensures Valid(WithEntry(t, f, i, e), place, root, levels)
  {
    var u := WithEntry(t, f, i, e);
    forall g, j | g in u && 0 <= j < FANOUT && Points(u[g][j], |place[g]|, levels) ensures LeadsRight(u, place, g, j) {
      assert LeadsRight(t, place, g, j);
    }
  }

  /** A page of the new leaf is translated through it. */
  lemma WriteHere(t: Tables, place: Places, root: nat, levels: nat, v: nat, k: nat, f: nat, e: Entry, w: nat)
    requires Valid(t, place, root, levels) && k < levels && k <= 2 && e.present && (e.huge <==> k > 0)
    requires WalkTo(t, root, v, levels - 1 - k, levels) == Mapped(f) && SameLeaf(v, w, k, levels)
    requires f in t && Valid(WithEntry(t, f, Digits(v, levels)[levels - 1 - k], e), place, root, levels)
    requires |place[f]| == levels - 1 - k
    ensures Translate(WithEntry(t, f, Digits(v, levels)[levels - 1 - k], e), root, w, levels) == Mapped(e.addr + Low(w, k))
  {
    var d := levels - 1 - k;
    var i := Digits(v, levels)[d];
    var u := WithEntry(t, f, i, e);
    assert Digits(w, levels)[..d] == Digits(v, levels)[..d] && Digits(w, levels)[d] == i by {
      SameStart(Digits(v, levels), Digits(w, levels), d);
    }
    assert WalkTo(u, root, w, d, levels) == Mapped(f) by {
      WalkSame(t, root, v, w, d, levels);
      WalkKept(t, place, root, levels, f, i, e, w, d);
    }
    WalkIsOnWay(u, place, root, w, d, levels);
    LeafHere(u, f, w, d, levels, e);
  }

  lemma SameStart(a: Path, b: Path, d: nat)
    requires d < |a| && d < |b| && a[..d + 1] == b[..d + 1]
    ensures a[..d] == b[..d] && a[d] == b[d]
  {
    assert a[..d + 1][..d] == a[..d] && b[..d + 1][..d] == b[..d];
    assert a[..d + 1][d] == a[d] && b[..d + 1][d] == b[d];
  }

  lemma LeafHere(t: Tables, f: nat, w: nat, d: nat, levels: nat, e: Entry)
    requires d < levels <= d + 3 && IsTable(t, f) && t[f][Digits(w, levels)[d]] == e
    requires e.present && (e.huge <==> d + 1 < levels)
    ensures Resolve(t, f, w, d, levels) == Mapped(e.addr + Low(w, levels - 1 - d))
  {
  }

  lemma WriteLeaf(t: Tables, place: Places, root: nat, levels: nat, v: nat, k: nat, user: bool, f: nat, frame: nat)
    requires Valid(t, place, root, levels) && k < levels && k <= 2
    requires WalkTo(t, root, v, levels - 1 - k, levels) == Mapped(f)
    ensures f in t && Digits(v, levels)[levels - 1 - k] < |t[f]|
    ensures var u := WithEntry(t, f, Digits(v, levels)[levels - 1 - k], Entry(true, user, k > 0, false, frame));
            Valid(u, place, root, levels) && MappedLeaf(t, u, root, levels, v, k, frame)
  {
    var d := levels - 1 - k;
    var i, e := Digits(v, levels)[d], Entry(true, user, k > 0, false, frame);
    WalkIsOnWay(t, place, root, v, d, levels);
    WriteKeepsValid(t, place, root, levels, f, i, e);
    assert Digits(v, levels)[..d + 1] == place[f] + [i];
    forall w: nat ensures Translate(WithEntry(t, f, i, e), root, w, levels) ==
                          if SameLeaf(v, w, k, levels) then Mapped(frame + Low(w, k)) else Translate(t, root, w, levels)
    {
      if SameLeaf(v, w, k, levels) {
        WriteHere(t, place, root, levels, v, k, f, e, w);
      } else {
        assert Digits(w, levels)[..0] == [];
        WriteElsewhere(t, place, root, f, i, e, root, w, 0, levels);
      }
    }
  }

  /** Pages that agree on the first d digits walk to the same table. */
  lemma {:induction false} WalkSame(t: Tables, root: nat, v: nat, w: nat, d: nat, levels: nat)
    requires d <= levels && Digits(v, levels)[..d] == Digits(w, levels)[..d]
    ensures WalkTo(t, root, v, d, levels) == WalkTo(t, root, w, d, levels)
    decreases d
  {
    if d > 0 {
      var a, b := Digits(v, levels), Digits(w, levels);
      assert a[..d][..d - 1] == a[..d - 1] && b[..d][..d - 1] == b[..d - 1];
      assert a[d - 1] == a[..d][d - 1] && b[d - 1] == b[..d][d - 1];
      WalkSame(t, root, v, w, d - 1, levels);
    }
  }

  /** Writing an entry of a table at level d leaves the walk down to that level alone. */
  lemma {:induction false} WalkKept(t: Tables, place: Places, root: nat, levels: nat, g: nat, i: nat, e: Entry, w: nat, c: nat)
    requires Valid(t, place, root, levels) && g in t && i < FANOUT && c <= |place[g]| && c < levels
    requires WalkTo(t, root, w, c, levels).Mapped?
    ensures WalkTo(WithEntry(t, g, i, e), root, w, c, levels) == WalkTo(t, root, w, c, levels)
    decreases c
  {
    if c > 0 {
      WalkKept(t, place, root, levels, g, i, e, w, c - 1);
      WalkIsOnWay(t, place, root, w, c - 1, levels);
    }
  }

  // ---------------------------------------------------------------- arithmetic of leaves

  /** A page o pages into the leaf c leaves up, q times around s * r pages. */
  lemma WindowToLeaf(w: int, s: nat, r: nat, c: nat, q: int, o: nat)
    requires s > 0 && r > 0 && o < s && w == s * c + (s * r) * q + o
    ensures (w / s) % r == c % r && w % s == o
  {
    assert (s * r) * q == s * (r * q);
    assert s * (c + r * q) == s * c + s * (r * q);
    DivModUnique(w, s, c + r * q, o);
    ModShift(c, r, q);
  }

  lemma LeafToWindow(w: nat, s: nat, r: nat, c: nat)
    requires s > 0 && r > 0 && (w / s) % r == c % r
    ensures exists m: int :: w == s * c + (s * r) * m + w % s
  {
    var h := w / s;
    var m := h / r - c / r;
    assert h == r * (h / r) + h % r && c == r * (c / r) + c % r;
    assert r * m == r * (h / r) - r * (c / r);
    assert s * h == s * (c + r * m) == s * c + s * (r * m);
    assert s * (r * m) == (s * r) * m;
    assert w == s * h + w % s;
  }

  /** The pages of the aligned leaf of s pages at v are those at distance less than s from v, counting around n = s * r pages. */
  lemma LeafIsWindow(v: nat, w: nat, s: nat, r: nat, n: nat)
    requires s > 0 && r > 0 && n == s * r && v % s == 0
    ensures 0 < s <= n
    ensures (w / s) % r == (v / s) % r <==> (w - v) % n < s
    ensures (w - v) % n < s ==> w % s == (w - v) % n
  {
    MulAtLeast(s, r);
    var c := v / s;
    assert v == s * c;
    var q, a := (w - v) / n, (w - v) % n;
    assert w - v == n * q + a;
    if a < s { WindowToLeaf(w, s, r, c, q, a); }
    if (w / s) % r == c % r {
      LeafToWindow(w, s, r, c);
      var m: int :| w == s * c + n * m + w % s;
      DivModUnique(w - v, n, m, w % s);
    }
  }

  /** Cutting an aligned frame number keeps the whole leaf together. */
  lemma MaskedLeaf(x: nat, o: nat, s: nat, c: nat)
    requires s > 0 && c > 0 && s * c > 0 && x % s == 0 && o < s
    ensures Masked(x, s * c) + o == Masked(x + o, s * c)
  {
    var q, b := LeafSplit(x, s, c);
    DivModUnique(x, s * c, q, s * b);
    DivModUnique(x + o, s * c, q, s * b + o);
  }

  /** An aligned number x is b leaves of s pages past q rounds of c leaves. */
  lemma LeafSplit(x: nat, s: nat, c: nat) returns (q: nat, b: nat)
    requires s > 0 && c > 0 && x % s == 0
    ensures x == (s * c) * q + s * b && s * b + s <= s * c
  {
    var a := x / s;
    q, b := a / c, a % c;
    assert x == s * a && a == c * q + b;
    assert s * a == s * (c * q) + s * b;
    assert s * (c * q) == (s * c) * q;
    assert s * (c - b) == s * c - s * b;
    MulAtLeast(s, c - b);
  }

  /** A page number cut to `levels` digits. */
  function Wrap(v: nat, levels: nat): nat { if levels == 0 then 0 else FANOUT * Wrap(v / FANOUT, levels - 1) + v % FANOUT }

  lemma {:induction false} DigitsAreWrap(v: nat, w: nat, levels: nat)
    ensures Digits(v, levels) == Digits(w, levels) <==> Wrap(v, levels) == Wrap(w, levels)
    decreases levels
  {
    if levels > 0 {
      var a, b := Digits(v, levels), Digits(w, levels);
      assert a[levels - 1] == v % FANOUT && b[levels - 1] == w % FANOUT;
      assert a[..levels - 1] == Digits(v / FANOUT, levels - 1);
      assert b[..levels - 1] == Digits(w / FANOUT, levels - 1);
      DigitsAreWrap(v / FANOUT, w / FANOUT, levels - 1);
    }
  }

  lemma {:induction false} WrapIsMod(v: nat, levels: nat)
    ensures Reach(levels) > 0 && Wrap(v, levels) == v % Reach(levels)
    decreases levels
  {
    if levels > 0 {
      WrapIsMod(v / FANOUT, levels - 1);
      var r := Reach(levels - 1);
      var h := v / FANOUT;
      assert h == r * (h / r) + h % r;
      assert v == FANOUT * h + v % FANOUT;
      assert FANOUT * (r * (h / r)) == (FANOUT * r) * (h / r);
      DivModUnique(v, FANOUT * r, h / r, FANOUT * (h % r) + v % FANOUT);
    } else {
      assert v == 1 * v + 0;
      DivModUnique(v, 1, v, 0);
    }
  }

  /** Pages under one leaf k levels above the last level. */
  function LeafPages(k: nat): nat { if k == 0 then 1 else if k == 1 then FANOUT else BIG }

  lemma DropIsDiv(v: nat, k: nat)
    requires k <= 2
    ensures Drop(v, k) == v / LeafPages(k)
  {
    if k == 2 {
      assert Drop(v, 2) == Drop(v / FANOUT, 1) == v / FANOUT / FANOUT;
    } else if k == 1 {
      assert Drop(v, 1) == Drop(v / FANOUT, 0);
    }
  }

  lemma ReachSplits(levels: nat, k: nat)
    requires k <= 2 && k <= levels
    ensures Reach(levels) == LeafPages(k) * Reach(levels - k)
  {
    if k == 2 { assert Reach(levels) == FANOUT * (FANOUT * Reach(levels - 2)); }
  }

  /** Page w is at this distance after page v, counting around the address space. */
  function Distance(v: nat, w: nat, levels: nat): nat
    requires Reach(levels) > 0
  {
    (w - v) % Reach(levels)
  }

  /** Sharing a leaf k levels up, in numbers. */
  lemma SameLeafIsMod(v: nat, w: nat, k: nat, levels: nat)
    requires k <= 2 && k < levels
    ensures Reach(levels - k) > 0
    ensures SameLeaf(v, w, k, levels) <==>
            (w / LeafPages(k)) % Reach(levels - k) == (v / LeafPages(k)) % Reach(levels - k)
  {
    DigitsPrefix(v, levels, k);
    DigitsPrefix(w, levels, k);
    DigitsAreWrap(Drop(v, k), Drop(w, k), levels - k);
    WrapIsMod(Drop(v, k), levels - k);
    WrapIsMod(Drop(w, k), levels - k);
    DropIsDiv(v, k);
    DropIsDiv(w, k);
  }

  /** Sharing a leaf with its first page, in terms of the distance from there. */
  lemma SameLeafIsWindow(v: nat, w: nat, k: nat, levels: nat)
    requires k <= 2 && k < levels && v % LeafPages(k) == 0
    ensures LeafPages(k) <= Reach(levels)
    ensures SameLeaf(v, w, k, levels) <==> Distance(v, w, levels) < LeafPages(k)
    ensures SameLeaf(v, w, k, levels) ==> Low(w, k) == Distance(v, w, levels)
  {
    SameLeafIsMod(v, w, k, levels);
    ReachSplits(levels, k);
    LeafIsWindow(v, w, LeafPages(k), Reach(levels - k), Reach(levels));
    LowIsMod(w, k);
  }

  lemma LowIsMod(w: nat, k: nat)
    requires k <= 2
    ensures Low(w, k) == w % LeafPages(k)
  {
    if k == 0 { DivModUnique(w, 1, w, 0); }
  }

  // ---------------------------------------------------------------- mapping pages and ranges

  /** A huge leaf is in the way of the tables of page v. */
  ghost predicate Blocked(t: Tables, root: nat, levels: nat, v: nat) {
    exists c :: 0 <= c < levels && HugeAt(t, root, v, c, levels)
  }

  /** Install one leaf, k levels above the last level. */
  method MapPage(t0: Tables, ghost place0: Places, root: nat, levels: nat, frames: nat, v: nat, frame: nat, k: nat, user: bool,
                 supply0: seq<nat>)
    returns (ok: bool, t: Tables, ghost place: Places, supply: seq<nat>)
    requires Valid(t0, place0, root, levels) && Fresh(supply0, t0, place0) && frames > 0 && k <= 2 && k < levels
    ensures Valid(t, place, root, levels) && Fresh(supply, t, place)
    ensures if ok then MappedLeaf(t0, t, root, levels, v, k, Masked(frame, frames)) else SameView(t0, t, root, levels)
    ensures !ok && supply != [] ==> Blocked(t, root, levels, v)
  {
    var f;
    ok, f, t, place, supply := WalkToLevel(t0, place0, root, levels, v, levels - 1 - k, supply0);
    if ok {
      ghost var t1 := t;
      WriteLeaf(t, place, root, levels, v, k, user, f, Masked(frame, frames));
      t := WithEntry(t, f, Digits(v, levels)[levels - 1 - k], Entry(true, user, k > 0, false, Masked(frame, frames)));
      SameThenMapped(t0, t1, t, root, levels, v, k, Masked(frame, frames));
    }
  }

  lemma SameThenMapped(t: Tables, u: Tables, w: Tables, root: nat, levels: nat, v: nat, k: nat, frame: nat)
    requires SameView(t, u, root, levels) && MappedLeaf(u, w, root, levels, v, k, frame)
    ensures MappedLeaf(t, w, root, levels, v, k, frame)
  {}

  /** The last of the numbers d, d + r, d + 2 * r, ... below n. */
  function LastBelow(d: nat, n: nat, r: nat): nat
    requires d < n && r > 0
  {
    d + r * ((n - 1 - d) / r)
  }

  lemma LastBelowIs(d: nat, n: nat, r: nat, i: nat)
    requires r > 0 && d + r * i < n <= d + r * i + r
    ensures d <= d + r * i && LastBelow(d, n, r) == d + r * i
  {
    DivModUnique(n - 1 - d, r, i, n - 1 - (d + r * i));
  }

  /**
   The n pages from v on map to the frames from `frame` on, and every other page is as in t. A range
   longer than the address space goes around it, and a page met several times keeps its last frame.
   */
  ghost predicate MappedRange(t: Tables, u: Tables, root: nat, levels: nat, frames: nat, v: nat, frame: nat, n: nat)
    requires Reach(levels) > 0 && frames > 0
  {
    forall w: nat :: MappedAt(t, u, root, levels, frames, v, frame, n, w)
  }

  ghost predicate MappedAt(t: Tables, u: Tables, root: nat, levels: nat, frames: nat, v: nat, frame: nat, n: nat, w: nat)
    requires Reach(levels) > 0 && frames > 0
  {
    var d := Distance(v, w, levels);
    Translate(u, root, w, levels) ==
      if d < n then Mapped(Masked(frame + LastBelow(d, n, Reach(levels)), frames)) else Translate(t, root, w, levels)
  }

  /** How the distances of a page from v and from v + done are related. */
  lemma DistanceShifts(x: int, done: nat, r: nat) returns (i: nat)
    requires r > 0
    ensures done + (x - done) % r == x % r + r * i
  {
    var d, e := x % r, (x - done) % r;
    var q, p := x / r, (x - done) / r;
    assert x == r * q + d && x - done == r * p + e;
    assert r * (q - p) == r * q - r * p && r * (p - q) == r * p - r * q;
    if q < p { MulAtLeast(r, p - q); }
    i := q - p;
  }

  /** Which page of the range a page is last met at, after one leaf more. */
  lemma WindowGrows(x: int, done: nat, s: nat, r: nat)
    requires 0 < s <= r
    ensures var d, e := x % r, (x - done) % r;
            if e < s then d < done + s && LastBelow(d, done + s, r) == done + e
            else (d < done + s <==> d < done) && (d < done ==> LastBelow(d, done + s, r) == LastBelow(d, done, r))
  {
    var d, e := x % r, (x - done) % r;
    var i := DistanceShifts(x, done, r);
    if e < s {
      LastBelowIs(d, done + s, r, i);
    } else if i > 0 {
      assert r * i == r * (i - 1) + r;
      LastBelowIs(d, done + s, r, i - 1);
      LastBelowIs(d, done, r, i - 1);
    }
  }

  lemma RangeGrowsAt(t: Tables, u: Tables, x: Tables, root: nat, levels: nat, frames: nat, v: nat, frame: nat, done: nat,
                     k: nat, c: nat, w: nat)
    requires Reach(levels) > 0 && frames > 0 && c > 0 && frames == LeafPages(k) * c && k <= 2 && k < levels
    requires (v + done) % LeafPages(k) == 0 && (frame + done) % LeafPages(k) == 0
    requires MappedAt(t, u, root, levels, frames, v, frame, done, w)
    requires MappedLeaf(u, x, root, levels, v + done, k, Masked(frame + done, frames))
    ensures MappedAt(t, x, root, levels, frames, v, frame, done + LeafPages(k), w)
  {
    SameLeafIsWindow(v + done, w, k, levels);
    WindowGrows(w - v, done, LeafPages(k), Reach(levels));
    assert w - (v + done) == w - v - done;
    if SameLeaf(v + done, w, k, levels) { MaskedLeaf(frame + done, Low(w, k), LeafPages(k), c); }
  }

  /** The addressable frames are a whole number of leaves of every size. */
  lemma FramesInLeaves(frames: nat, k: nat) returns (c: nat)
    requires frames > 0 && frames % BIG == 0 && k <= 2
    ensures c > 0 && frames == LeafPages(k) * c
  {
    var q := frames / BIG;
    assert frames == BIG * q;
    c := if k == 0 then frames else if k == 1 then FANOUT * q else q;
  }

  lemma RangeGrows(t: Tables, u: Tables, x: Tables, root: nat, levels: nat, frames: nat, v: nat, frame: nat, done: nat, k: nat)
    requires Reach(levels) > 0 && frames > 0 && frames % BIG == 0 && k <= 2 && k < levels
    requires (v + done) % LeafPages(k) == 0 && (frame + done) % LeafPages(k) == 0
    requires MappedRange(t, u, root, levels, frames, v, frame, done)
    requires MappedLeaf(u, x, root, levels, v + done, k, Masked(frame + done, frames))
    ensures MappedRange(t, x, root, levels, frames, v, frame, done + LeafPages(k))
  {
    var c := FramesInLeaves(frames, k);
    var n := done + LeafPages(k);
    forall w: nat ensures MappedAt(t, x, root, levels, frames, v, frame, n, w) {
      assert MappedAt(t, u, root, levels, frames, v, frame, done, w);
      RangeGrowsAt(t, u, x, root, levels, frames, v, frame, done, k, c, w);
    }
  }

  /** The largest leaf size the hardware, the alignment and the remaining length allow. */
  function LeafSize(v: nat, frame: nat, remaining: nat, user: bool, gigabyte: bool, twoMegabyte: bool): (k: nat)
    ensures k <= 2 && v % LeafPages(k) == 0 && frame % LeafPages(k) == 0 && (remaining > 0 ==> LeafPages(k) <= remaining)
  {
    if !user && gigabyte && remaining >= BIG && v % BIG == 0 && frame % BIG == 0 then 2
    else if !user && twoMegabyte && remaining >= FANOUT && v % FANOUT == 0 && frame % FANOUT == 0 then 1
    else 0
  }

  /** Mapping stopped after `done` pages, for want of table pages or because a huge leaf is in the way. */
  ghost predicate StoppedAt(t: Tables, u: Tables, root: nat, levels: nat, frames: nat, v: nat, frame: nat, done: nat, supply: seq<nat>)
    requires Reach(levels) > 0 && frames > 0
  {
    MappedRange(t, u, root, levels, frames, v, frame, done) && (supply == [] || Blocked(u, root, levels, v + done))
  }

  lemma SameThenRange(t: Tables, u: Tables, x: Tables, root: nat, levels: nat, frames: nat, v: nat, frame: nat, n: nat)
    requires Reach(levels) > 0 && frames > 0 && MappedRange(t, u, root, levels, frames, v, frame, n) && SameView(u, x, root, levels)
    ensures MappedRange(t, x, root, levels, frames, v, frame, n)
  {
    forall w: nat ensures MappedAt(t, x, root, levels, frames, v, frame, n, w) {
      assert MappedAt(t, u, root, levels, frames, v, frame, n, w);
    }
  }

  /** Map n pages from v to the frames from `frame` on, with the largest leaves that fit. */
  method MapRange(t0: Tables, ghost place0: Places, root: nat, levels: nat, frames: nat, v: nat, frame: nat, n: nat,
                  user: bool, gigabyte: bool, twoMegabyte: bool, supply0: seq<nat>)
    returns (ok: bool, t: Tables, ghost place: Places, supply: seq<nat>)
    requires Valid(t0, place0, root, levels) && Fresh(supply0, t0, place0) && (levels == 4 || levels == 5)
    requires frames > 0 && frames % BIG == 0 && Reach(levels) > 0
    ensures Valid(t, place, root, levels) && Fresh(supply, t, place)
    ensures ok ==> MappedRange(t0, t, root, levels, frames, v, frame, n)
    ensures !ok ==> exists done: nat :: done < n && StoppedAt(t0, t, root, levels, frames, v, frame, done, supply)
  {
    ok, t, place, supply := true, t0, place0, supply0;
    var done := 0;
    while done < n
      invariant 0 <= done <= n && Valid(t, place, root, levels) && Fresh(supply, t, place)
      invariant MappedRange(t0, t, root, levels, frames, v, frame, done)
    {
      var k := LeafSize(v + done, frame + done, n - done, user, gigabyte, twoMegabyte);
      ghost var t1 := t;
      ok, t, place, supply := MapPage(t, place, root, levels, frames, v + done, frame + done, k, user, supply);
      if !ok {
        SameThenRange(t0, t1, t, root, levels, frames, v, frame, done);
        assert StoppedAt(t0, t, root, levels, frames, v, frame, done, supply);
        return;
      }
      RangeGrows(t0, t1, t, root, levels, frames, v, frame, done, k);
      done := done + LeafPages(k);
    }
  }

  predicate TranslatesTo(t: Tables, root: nat, levels: nat, v: nat, frame: nat, i: nat) {
    Translate(t, root, v + i, levels) == Mapped(frame + i)
  }

  lemma MetLast(i: nat, n: nat, r: nat)
    requires r > 0 && i < n <= i + r
    ensures i % r < n && LastBelow(i % r, n, r) == i
  {
    assert i == r * (i / r) + i % r;
    LastBelowIs(i % r, n, r, i / r);
  }

  /** Page i of a range of n, when i is not met again. */
  lemma PageOfRange(t: Tables, u: Tables, root: nat, levels: nat, frames: nat, v: nat, frame: nat, n: nat, i: nat)
    requires Reach(levels) > 0 && frames > 0 && i < n <= i + Reach(levels)
    requires MappedRange(t, u, root, levels, frames, v, frame, n)
    ensures TranslatesTo(u, root, levels, v, frame, i) <==> frame + i < frames
  {
    assert MappedAt(t, u, root, levels, frames, v, frame, n, v + i);
    MetLast(i, n, Reach(levels));
    assert v + i - v == i;
    if frame + i < frames { MaskedSmall(frame + i, frames); }
  }

  lemma MetAgain(n: nat, r: nat)
    requires 0 < r < n
    ensures 0 < LastBelow(0, n, r) < n
  {
    var q := (n - 1) / r;
    assert n - 1 == r * q + (n - 1) % r;
    assert q != 0;
    MulAtLeast(r, q);
  }

  lemma MaskedSmall(frame: nat, frames: nat)
    requires frame < frames
    ensures Masked(frame, frames) == frame
  {
    DivModUnique(frame, frames, 0, frame);
  }

  lemma DistanceFromSelf(v: nat, levels: nat)
    requires Reach(levels) > 0
    ensures Distance(v, v, levels) == 0
  {
    DivModUnique(0, Reach(levels), 0, 0);
  }

  /** The first page of a range longer than the address space is met again. */
  lemma PageMetAgain(t: Tables, u: Tables, root: nat, levels: nat, frames: nat, v: nat, frame: nat, n: nat)
    requires 0 < Reach(levels) < n && frame + n <= frames
    requires MappedRange(t, u, root, levels, frames, v, frame, n)
    ensures !TranslatesTo(u, root, levels, v, frame, 0)
  {
    var last := LastBelow(0, n, Reach(levels));
    MetAgain(n, Reach(levels));
    MaskedSmall(frame + last, frames);
    DistanceFromSelf(v, levels);
    assert MappedAt(t, u, root, levels, frames, v, frame, n, v);
  }

  /** A mapped range translates page for page iff it fits in the address space and lies below the addressable limit. */
  lemma RangeIsExactIff(t: Tables, u: Tables, root: nat, levels: nat, frames: nat, v: nat, frame: nat, n: nat)
    requires Reach(levels) > 0 && frames > 0 && 0 < n
    requires MappedRange(t, u, root, levels, frames, v, frame, n)
    ensures (forall i: nat :: i < n ==> TranslatesTo(u, root, levels, v, frame, i)) <==> n <= Reach(levels) && frame + n <= frames
  {
    PageOfRange(t, u, root, levels, frames, v, frame, n, n - 1);
    if n <= Reach(levels) {
      forall i: nat | i < n ensures TranslatesTo(u, root, levels, v, frame, i) <==> frame + i < frames {
        PageOfRange(t, u, root, levels, frames, v, frame, n, i);
      }
      assert TranslatesTo(u, root, levels, v, frame, n - 1) <==> frame + (n - 1) < frames;
    } else if frame + n <= frames {
      PageMetAgain(t, u, root, levels, frames, v, frame, n);
    } else {
      assert !TranslatesTo(u, root, levels, v, frame, n - 1);
    }
  }
}
