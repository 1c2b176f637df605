/**
 The recursion over the page tables of an address space by which fork copies its leaves and teardown
 drops them. Every user leaf and every marked entry below the top of user memory is met once, in
 address order, and nothing else is; so both do what the model of address spaces says.
 */
module UserWalk {
  import opened Common
  import opened Paging
  import CoW = CopyOnWrite

  /** The recursion came to entry `index` of table `table`, whose first page is `page`. */
  datatype Visit = Visit(page: nat, table: nat, index: nat)

  /** The first page whose number, without its last k digits, is x. */
  function Lift(x: nat, k: nat): nat { if k == 0 then x else FANOUT * Lift(x, k - 1) }

  /** An entry of a last-level table that belongs to user memory. */
  predicate Visible(e: Entry) { e.user && (e.present || e.mark) }

  /** The user entries met from entry i of table f on, at level d; q is the page number so far. */
  function Walked(t: Tables, f: nat, d: nat, q: nat, levels: nat, top: nat, i: nat): seq<Visit>
    decreases levels - d, FANOUT - i
  {
    if d >= levels || !IsTable(t, f) || i >= FANOUT then []
    else AtEntry(t, f, d, q, levels, top, i) + Walked(t, f, d, q, levels, top, i + 1)
  }

  function AtEntry(t: Tables, f: nat, d: nat, q: nat, levels: nat, top: nat, i: nat): seq<Visit>
    requires d < levels && IsTable(t, f) && i < FANOUT
    decreases levels - d, 0
  {
    var e, x := t[f][i], q * FANOUT + i;
    var page := Lift(x, levels - 1 - d);
    if page >= top then []
    else if d + 1 == levels then if Visible(e) then [Visit(page, f, i)] else []
    else if !e.present || !e.user then []
    else if e.huge then if levels <= d + 3 then [Visit(page, f, i)] else []
    else Walked(t, e.addr, d + 1, x, levels, top, 0)
  }

  // ---------------------------------------------------------------- the entry of a page

  /** The user entry that a page is looked up in, k levels above the last. */
  datatype Slot = Nowhere | At(table: nat, index: nat, k: nat)

  function SlotOf(t: Tables, f: nat, v: nat, d: nat, levels: nat): Slot
    decreases levels - d
  {
    if d >= levels || !IsTable(t, f) then Nowhere
    else
      var i := Digits(v, levels)[d];
      var e := t[f][i];
      if d + 1 == levels then if Visible(e) then At(f, i, 0) else Nowhere
      else if !e.present || !e.user then Nowhere
      else if e.huge then if levels <= d + 3 then At(f, i, levels - 1 - d) else Nowhere
      else SlotOf(t, e.addr, v, d + 1, levels)
  }

  /** The page is the first of its leaf. */
  predicate IsFirst(v: nat, k: nat) { Lift(Drop(v, k), k) == v }

  // ---------------------------------------------------------------- digits

  lemma {:induction false} DropLift(x: nat, k: nat)
    ensures Drop(Lift(x, k), k) == x
  {
    if k > 0 {
      assert Lift(x, k) / FANOUT == Lift(x, k - 1);
      DropLift(x, k - 1);
    }
  }

  lemma {:induction false} DropNext(v: nat, k: nat)
    ensures Drop(v, k + 1) == Drop(v, k) / FANOUT
  {
    if k > 0 { DropNext(v / FANOUT, k - 1); }
  }

  lemma {:induction false} LiftBelow(v: nat, k: nat)
    ensures Lift(Drop(v, k), k) <= v
  {
    if k > 0 { LiftBelow(v / FANOUT, k - 1); }
  }

  lemma {:induction false} DropOrders(v: nat, w: nat, k: nat)
    requires Drop(v, k) < Drop(w, k)
    ensures v < w
  {
    if k > 0 { DropOrders(v / FANOUT, w / FANOUT, k - 1); }
  }

  /** The index of page v at level d, and what comes before it. */
  lemma DigitAt(v: nat, levels: nat, d: nat)
    requires d < levels
    ensures Digits(v, levels)[d] == Drop(v, levels - 1 - d) % FANOUT
    ensures Drop(v, levels - 1 - d) == Drop(v, levels - d) * FANOUT + Digits(v, levels)[d]
  {
    var k := levels - 1 - d;
    DigitsPrefix(v, levels, k);
    assert Digits(v, levels)[d] == Digits(v, levels)[..d + 1][d] == Digits(Drop(v, k), d + 1)[d];
    DropNext(v, k);
  }

  // ---------------------------------------------------------------- every entry, once

  /** Page w lies under table f at level d, at entry i or after, and its entry is w's. */
  predicate Meets(t: Tables, f: nat, d: nat, q: nat, levels: nat, top: nat, i: nat, w: Visit) {
    && d < levels && w.page < top && Drop(w.page, levels - d) == q && i <= Digits(w.page, levels)[d]
    && match SlotOf(t, f, w.page, d, levels)
       case Nowhere => false
       case At(g, j, k) => w.table == g && w.index == j && IsFirst(w.page, k)
  }

  /** Being under entry i of table f, in terms of the page number. */
  lemma UnderEntry(v: nat, levels: nat, d: nat, q: nat, i: nat)
    requires d < levels && i < FANOUT
    ensures Drop(v, levels - d) == q && Digits(v, levels)[d] == i <==> Drop(v, levels - 1 - d) == q * FANOUT + i
    ensures Lift(Drop(v, levels - 1 - d), levels - 1 - d) <= v
  {
    DigitAt(v, levels, d);
    LiftBelow(v, levels - 1 - d);
  }

  lemma LeafIs(v: nat, x: nat, k: nat)
    ensures v == Lift(x, k) <==> Drop(v, k) == x && IsFirst(v, k)
  {
    DropLift(x, k);
  }

  lemma {:induction false} AtEntryIs(t: Tables, f: nat, d: nat, q: nat, levels: nat, top: nat, i: nat, w: Visit)
    requires d < levels && IsTable(t, f) && i < FANOUT
    ensures w in AtEntry(t, f, d, q, levels, top, i) <==> Meets(t, f, d, q, levels, top, i, w) && Digits(w.page, levels)[d] == i
    decreases levels - d, 0
  {
    var k, x := levels - 1 - d, q * FANOUT + i;
    UnderEntry(w.page, levels, d, q, i);
    if d + 1 < levels && !t[f][i].huge {
      WalkedIs(t, t[f][i].addr, d + 1, x, levels, top, 0, w);
    } else {
      LeafIs(w.page, x, k);
    }
  }

  /** The recursion meets exactly the user entries of pages below the top. */
  lemma {:induction false} WalkedIs(t: Tables, f: nat, d: nat, q: nat, levels: nat, top: nat, i: nat, w: Visit)
    requires i <= FANOUT
    ensures w in Walked(t, f, d, q, levels, top, i) <==> Meets(t, f, d, q, levels, top, i, w)
    decreases levels - d, FANOUT - i
  {
    if d < levels && IsTable(t, f) && i < FANOUT {
      AtEntryIs(t, f, d, q, levels, top, i, w);
      WalkedIs(t, f, d, q, levels, top, i + 1, w);
    }
  }

  predicate Ascending(ws: seq<Visit>) { forall i, j :: 0 <= i < j < |ws| ==> ws[i].page < ws[j].page }

  lemma AscendingAppend(a: seq<Visit>, b: seq<Visit>)
    requires Ascending(a) && Ascending(b) && forall v, w :: v in a && w in b ==> v.page < w.page
    ensures Ascending(a + b)
  {
    forall i, j | 0 <= i < j < |a + b| ensures (a + b)[i].page < (a + b)[j].page {
      if i < |a| <= j { assert a[i] in a && b[j - |a|] in b; }
    }
  }

  /** The recursion goes up in address order. */
  lemma {:induction false} WalkAscends(t: Tables, f: nat, d: nat, q: nat, levels: nat, top: nat, i: nat)
    requires i <= FANOUT
    ensures Ascending(Walked(t, f, d, q, levels, top, i))
    decreases levels - d, FANOUT - i
  {
    if d < levels && IsTable(t, f) && i < FANOUT {
      var a, b := AtEntry(t, f, d, q, levels, top, i), Walked(t, f, d, q, levels, top, i + 1);
      if d + 1 < levels { WalkAscends(t, t[f][i].addr, d + 1, q * FANOUT + i, levels, top, 0); }
      WalkAscends(t, f, d, q, levels, top, i + 1);
      forall v, w | v in a && w in b ensures v.page < w.page { EntryBefore(t, f, d, q, levels, top, i, v, w); }
      AscendingAppend(a, b);
    }
  }

  lemma EntryBefore(t: Tables, f: nat, d: nat, q: nat, levels: nat, top: nat, i: nat, v: Visit, w: Visit)
    requires d < levels && IsTable(t, f) && i < FANOUT
    requires v in AtEntry(t, f, d, q, levels, top, i) && w in Walked(t, f, d, q, levels, top, i + 1)
    ensures v.page < w.page
  {
    AtEntryIs(t, f, d, q, levels, top, i, v);
    WalkedIs(t, f, d, q, levels, top, i + 1, w);
    DigitAt(v.page, levels, d);
    DigitAt(w.page, levels, d);
    DropOrders(v.page, w.page, levels - 1 - d);
  }

  // ---------------------------------------------------------------- the pages of an address space

  function PagesOf(ws: seq<Visit>): (ps: seq<nat>)
    ensures |ps| == |ws| && forall i :: 0 <= i < |ws| ==> ps[i] == ws[i].page
  {
    seq(|ws|, i requires 0 <= i < |ws| => ws[i].page)
  }

  /** All pages that the recursion from the root meets. */
  function UserPages(t: Tables, root: nat, levels: nat, top: nat): seq<nat> { PagesOf(Walked(t, root, 0, 0, levels, top, 0)) }

  predicate IsUserPage(t: Tables, root: nat, levels: nat, top: nat, v: nat) {
    v < top && match SlotOf(t, root, v, 0, levels) case Nowhere => false case At(_, _, k) => IsFirst(v, k)
  }

  lemma {:induction false} DropAll(v: nat, levels: nat)
    requires v < Reach(levels)
    ensures Drop(v, levels) == 0
  {
    if levels > 0 { DropAll(v / FANOUT, levels - 1); }
  }

  /** Each user page is met once, in ascending order, and no other page is. */
  lemma UserPagesAreExact(t: Tables, root: nat, levels: nat, top: nat)
    requires 0 < levels && top <= Reach(levels)
    ensures forall v: nat :: v in UserPages(t, root, levels, top) <==> IsUserPage(t, root, levels, top, v)
    ensures forall i, j :: 0 <= i < j < |UserPages(t, root, levels, top)| ==>
                             UserPages(t, root, levels, top)[i] < UserPages(t, root, levels, top)[j]
  {
    var ws := Walked(t, root, 0, 0, levels, top, 0);
    WalkAscends(t, root, 0, 0, levels, top, 0);
    forall v: nat ensures v in PagesOf(ws) <==> IsUserPage(t, root, levels, top, v) {
      if v in PagesOf(ws) {
        var i :| 0 <= i < |ws| && PagesOf(ws)[i] == v;
        WalkedIs(t, root, 0, 0, levels, top, 0, ws[i]);
      }
      if IsUserPage(t, root, levels, top, v) {
        var s := SlotOf(t, root, v, 0, levels);
        var w := Visit(v, s.table, s.index);
        DropAll(v, levels);
        WalkedIs(t, root, 0, 0, levels, top, 0, w);
        var i :| 0 <= i < |ws| && ws[i] == w;
        assert PagesOf(ws)[i] == v;
      }
    }
  }

  /** The tables hold the entries that the model of address spaces gives the space. */
  ghost predicate Represents(t: Tables, root: nat, levels: nat, top: nat, vm: CoW.Vm, space: nat) {
    && 0 < levels && top <= Reach(levels)
    && forall v: nat :: CoW.Loc(space, v) in vm.ptes <==> IsUserPage(t, root, levels, top, v)
  }

  // ---------------------------------------------------------------- fork

  lemma {:induction false} CloneAppend(vm: CoW.Vm, parent: nat, child: nat, a: seq<nat>, b: seq<nat>)
    ensures CoW.CloneLeaves(vm, parent, child, a + b) ==
            CoW.CloneLeaves(CoW.CloneLeaves(vm, parent, child, a), parent, child, b)
    decreases |a|
  {
    if a == [] {
      assert a + b == b;
    } else {
      assert (a + b)[1..] == a[1..] + b;
      CloneAppend(CoW.CloneLeaf(vm, parent, child, a[0]), parent, child, a[1..], b);
    }
  }

  /** No user leaf is larger than 4 KiB. */
  predicate NoneHuge(t: Tables) { forall f, i :: f in t && 0 <= i < |t[f]| && t[f][i].present && t[f][i].user ==> !t[f][i].huge }

  /** What an entry leads to. */
  datatype Kind = Skip | Leaf | Descend | TooHigh

  function KindOf(t: Tables, f: nat, d: nat, q: nat, levels: nat, top: nat, i: nat): Kind
    requires d < levels && IsTable(t, f) && i < FANOUT
  {
    var e := t[f][i];
    if Lift(q * FANOUT + i, levels - 1 - d) >= top then Skip
    else if d + 1 == levels then if Visible(e) then Leaf else Skip
    else if !e.present || !e.user then Skip
    else if e.huge then if levels <= d + 3 then Leaf else TooHigh
    else Descend
  }

  lemma PagesAppend(a: seq<Visit>, b: seq<Visit>)
    ensures PagesOf(a + b) == PagesOf(a) + PagesOf(b)
  {
  }

  lemma NextEntry(t: Tables, f: nat, d: nat, q: nat, levels: nat, top: nat, i: nat)
    requires d < levels && IsTable(t, f) && i < FANOUT
    ensures PagesOf(Walked(t, f, d, q, levels, top, i)) ==
            PagesOf(AtEntry(t, f, d, q, levels, top, i)) + PagesOf(Walked(t, f, d, q, levels, top, i + 1))
  {
    PagesAppend(AtEntry(t, f, d, q, levels, top, i), Walked(t, f, d, q, levels, top, i + 1));
  }

  lemma EntryPages(t: Tables, f: nat, d: nat, q: nat, levels: nat, top: nat, i: nat)
    requires d < levels && IsTable(t, f) && i < FANOUT
    ensures var x := q * FANOUT + i;
            PagesOf(AtEntry(t, f, d, q, levels, top, i)) ==
            match KindOf(t, f, d, q, levels, top, i)
            case Leaf => [Lift(x, levels - 1 - d)]
            case Descend => PagesOf(Walked(t, t[f][i].addr, d + 1, x, levels, top, 0))
            case _ => []
  {
  }

  /** What fork does at one entry. */
  method CloneEntry(t: Tables, f: nat, d: nat, q: nat, levels: nat, top: nat, i: nat, vm: CoW.Vm, parent: nat, child: nat)
    returns (ok: bool, r: CoW.Vm)
    requires d < levels && IsTable(t, f) && i < FANOUT
    ensures ok ==> r == CoW.CloneLeaves(vm, parent, child, PagesOf(AtEntry(t, f, d, q, levels, top, i)))
    ensures NoneHuge(t) ==> ok
    decreases levels - d, 0
  {
    ok, r := true, vm;
    EntryPages(t, f, d, q, levels, top, i);
    match KindOf(t, f, d, q, levels, top, i)
    case Skip =>
    case TooHigh => ok := false;
    case Leaf => r := CoW.CloneLeaf(r, parent, child, Lift(q * FANOUT + i, levels - 1 - d));
    case Descend => ok, r := CloneTable(t, t[f][i].addr, d + 1, q * FANOUT + i, levels, top, r, parent, child);
  }

  /** Copying what is at entry i leaves the entries after it. */
  lemma ClonedNext(t: Tables, f: nat, d: nat, q: nat, levels: nat, top: nat, i: nat, vm: CoW.Vm, parent: nat, child: nat)
    requires d < levels && IsTable(t, f) && i < FANOUT
    ensures CoW.CloneLeaves(vm, parent, child, PagesOf(Walked(t, f, d, q, levels, top, i))) ==
            CoW.CloneLeaves(CoW.CloneLeaves(vm, parent, child, PagesOf(AtEntry(t, f, d, q, levels, top, i))),
                            parent, child, PagesOf(Walked(t, f, d, q, levels, top, i + 1)))
  {
    NextEntry(t, f, d, q, levels, top, i);
    CloneAppend(vm, parent, child, PagesOf(AtEntry(t, f, d, q, levels, top, i)), PagesOf(Walked(t, f, d, q, levels, top, i + 1)));
  }

  /** clone_user_table: copies the leaves under one table; fails at a huge entry above the 1 GiB level. */
  method CloneTable(t: Tables, f: nat, d: nat, q: nat, levels: nat, top: nat, vm: CoW.Vm, parent: nat, child: nat)
    returns (ok: bool, r: CoW.Vm)
    requires d <= levels
    ensures ok ==> r == CoW.CloneLeaves(vm, parent, child, PagesOf(Walked(t, f, d, q, levels, top, 0)))
    ensures NoneHuge(t) ==> ok
    decreases levels - d, 1
  {
    ok, r := true, vm;
    if d == levels || !IsTable(t, f) { return; }
    ghost var copied := CoW.CloneLeaves(vm, parent, child, PagesOf(Walked(t, f, d, q, levels, top, 0)));
    var i := 0;
    while i < FANOUT
      invariant 0 <= i <= FANOUT
      invariant CoW.CloneLeaves(r, parent, child, PagesOf(Walked(t, f, d, q, levels, top, i))) == copied
    {
      ClonedNext(t, f, d, q, levels, top, i, r, parent, child);
      ok, r := CloneEntry(t, f, d, q, levels, top, i, r, parent, child);
      if !ok { return; }
      i := i + 1;
    }
  }

  /** clone_address_space: the child gets exactly the parent's memory, as if all of it had been copied. */
  method CloneAddressSpace(t: Tables, root: nat, levels: nat, top: nat, vm: CoW.Vm, parent: nat, child: nat)
    returns (ok: bool, r: CoW.Vm)
    requires CoW.Inv(vm) && parent in vm.spaces && child !in vm.spaces && Represents(t, root, levels, top, vm, parent)
    ensures ok ==> CoW.Inv(r) && CoW.View(r) == CoW.DeepCopy(CoW.View(vm), parent, child)
    ensures ok ==> r == CoW.Fork(vm, parent, child, UserPages(t, root, levels, top))
    ensures NoneHuge(t) ==> ok
  {
    ghost var pages := UserPages(t, root, levels, top);
    UserPagesAreExact(t, root, levels, top);
    CoW.ForkIsDeepCopy(vm, parent, child, pages);
    ok, r := CloneTable(t, root, 0, 0, levels, top, vm.(spaces := vm.spaces + {child}), parent, child);
  }

  // ---------------------------------------------------------------- teardown

  /** The tables under entries i and after of table f, each after the tables under it. */
  function TablesBelow(t: Tables, f: nat, d: nat, q: nat, levels: nat, top: nat, i: nat): seq<nat>
    decreases levels - d, FANOUT - i
  {
    if d >= levels || !IsTable(t, f) || i >= FANOUT then []
    else TablesAt(t, f, d, q, levels, top, i) + TablesBelow(t, f, d, q, levels, top, i + 1)
  }

  function TablesAt(t: Tables, f: nat, d: nat, q: nat, levels: nat, top: nat, i: nat): seq<nat>
    requires d < levels && IsTable(t, f) && i < FANOUT
    decreases levels - d, 0
  {
    if KindOf(t, f, d, q, levels, top, i) != Descend then []
    else TablesBelow(t, t[f][i].addr, d + 1, q * FANOUT + i, levels, top, 0) + [t[f][i].addr]
  }

  /** The table at level c on the way to page v through user entries, from table f at level d. */
  function TableOn(t: Tables, f: nat, v: nat, d: nat, c: nat, levels: nat): Option<nat>
    requires d <= c < levels
    decreases c - d
  {
    if d == c then Some(f)
    else if !IsTable(t, f) then None
    else
      var e := t[f][Digits(v, levels)[d]];
      if e.present && e.user && !e.huge then TableOn(t, e.addr, v, d + 1, c, levels) else None
  }

  predicate Leads(t: Tables, f: nat, d: nat, q: nat, levels: nat, top: nat, i: nat, g: nat, v: nat, c: nat) {
    && d < c < levels && v < top && Drop(v, levels - d) == q && i <= Digits(v, levels)[d]
    && TableOn(t, f, v, d, c, levels) == Some(g)
  }

  lemma {:induction false} TablesLead(t: Tables, f: nat, d: nat, q: nat, levels: nat, top: nat, i: nat, g: nat) returns (v: nat, c: nat)
    requires g in TablesBelow(t, f, d, q, levels, top, i)
    ensures Leads(t, f, d, q, levels, top, i, g, v, c)
    decreases levels - d, FANOUT - i
  {
    var k, x := levels - 1 - d, q * FANOUT + i;
    if g in TablesBelow(t, f, d, q, levels, top, i + 1) {
      v, c := TablesLead(t, f, d, q, levels, top, i + 1, g);
    } else if g == t[f][i].addr {
      v, c := Lift(x, k), d + 1;
      DropLift(x, k);
      DigitAt(v, levels, d);
    } else {
      v, c := TablesLead(t, t[f][i].addr, d + 1, x, levels, top, 0, g);
      DigitAt(v, levels, d);
    }
  }

  lemma {:induction false} LeadsToTables(t: Tables, f: nat, d: nat, q: nat, levels: nat, top: nat, i: nat, g: nat, v: nat, c: nat)
    requires i < FANOUT && Leads(t, f, d, q, levels, top, i, g, v, c)
    ensures g in TablesBelow(t, f, d, q, levels, top, i)
    decreases levels - d, FANOUT - i
  {
    if i < Digits(v, levels)[d] {
      LeadsToTables(t, f, d, q, levels, top, i + 1, g, v, c);
    } else {
      LeadsDown(t, f, d, q, levels, top, i, g, v, c);
      if d + 1 < c { LeadsToTables(t, t[f][i].addr, d + 1, q * FANOUT + i, levels, top, 0, g, v, c); }
      assert g in TablesAt(t, f, d, q, levels, top, i);
    }
  }

  lemma LeadsDown(t: Tables, f: nat, d: nat, q: nat, levels: nat, top: nat, i: nat, g: nat, v: nat, c: nat)
    requires i < FANOUT && Leads(t, f, d, q, levels, top, i, g, v, c) && Digits(v, levels)[d] == i
    ensures IsTable(t, f) && KindOf(t, f, d, q, levels, top, i) == Descend
    ensures if d + 1 == c then g == t[f][i].addr else Leads(t, t[f][i].addr, d + 1, q * FANOUT + i, levels, top, 0, g, v, c)
  {
    DigitAt(v, levels, d);
    LiftBelow(v, levels - 1 - d);
    var e := t[f][i];
    assert e.present && e.user && !e.huge && TableOn(t, f, v, d, c, levels) == TableOn(t, e.addr, v, d + 1, c, levels);
  }

  /** Tables under entry i and after hang below f there. */
  lemma {:induction false} TablesHang(t: Tables, place: Places, root: nat, f: nat, d: nat, q: nat, levels: nat, top: nat, i: nat, g: nat)
    requires Valid(t, place, root, levels) && f in t && |place[f]| == d && g in TablesBelow(t, f, d, q, levels, top, i)
    ensures g in t && d < |place[g]| && place[g][..d] == place[f] && i <= place[g][d]
    decreases levels - d, FANOUT - i
  {
    if g in TablesBelow(t, f, d, q, levels, top, i + 1) {
      TablesHang(t, place, root, f, d, q, levels, top, i + 1, g);
    } else {
      EntryHangs(t, place, root, f, d, q, levels, top, i, g);
    }
  }

  /** Tables under entry i hang below f just there. */
  lemma {:induction false} EntryHangs(t: Tables, place: Places, root: nat, f: nat, d: nat, q: nat, levels: nat, top: nat, i: nat, g: nat)
    requires Valid(t, place, root, levels) && f in t && |place[f]| == d && d < levels && i < FANOUT && IsTable(t, f)
    requires KindOf(t, f, d, q, levels, top, i) == Descend
    requires g == t[f][i].addr || g in TablesBelow(t, t[f][i].addr, d + 1, q * FANOUT + i, levels, top, 0)
    ensures g in t && d < |place[g]| && place[g][..d] == place[f] && place[g][d] == i
    decreases levels - d, 0
  {
    assert LeadsRight(t, place, f, i);
    var h := t[f][i].addr;
    assert place[h] == place[f] + [i];
    if g != h {
      TablesHang(t, place, root, h, d + 1, q * FANOUT + i, levels, top, 0, g);
      assert place[g][..d + 1][..d] == place[g][..d] && place[g][..d + 1][d] == place[g][d];
    }
  }

  lemma DistinctAppend(a: seq<nat>, b: seq<nat>)
    requires Distinct(a) && Distinct(b) && forall g :: g in a ==> g !in b
    ensures Distinct(a + b)
  {
    forall i, j | 0 <= i < j < |a + b| ensures (a + b)[i] != (a + b)[j] {
      if i < |a| <= j { assert a[i] in a && b[j - |a|] in b; }
    }
  }

  lemma {:induction false} TablesOnce(t: Tables, place: Places, root: nat, f: nat, d: nat, q: nat, levels: nat, top: nat, i: nat)
    requires Valid(t, place, root, levels) && f in t && |place[f]| == d && i <= FANOUT
    ensures Distinct(TablesBelow(t, f, d, q, levels, top, i))
    decreases levels - d, FANOUT - i
  {
    if d < levels && i < FANOUT {
      TablesOnce(t, place, root, f, d, q, levels, top, i + 1);
      var b := TablesBelow(t, f, d, q, levels, top, i + 1);
      if KindOf(t, f, d, q, levels, top, i) == Descend {
        assert LeadsRight(t, place, f, i);
        var h := t[f][i].addr;
        var a := TablesBelow(t, h, d + 1, q * FANOUT + i, levels, top, 0);
        TablesOnce(t, place, root, h, d + 1, q * FANOUT + i, levels, top, 0);
        if h in a { TablesHang(t, place, root, h, d + 1, q * FANOUT + i, levels, top, 0, h); }
        DistinctAppend(a, [h]);
        forall g | g in a + [h] ensures g !in b {
          EntryHangs(t, place, root, f, d, q, levels, top, i, g);
          if g in b { TablesHang(t, place, root, f, d, q, levels, top, i + 1, g); }
        }
        DistinctAppend(a + [h], b);
      }
    }
  }

  /** Table g is at level c on the way to page v of user memory. */
  predicate OnUserWay(t: Tables, root: nat, levels: nat, top: nat, g: nat, v: nat, c: nat) {
    v < top && c < levels && TableOn(t, root, v, 0, c, levels) == Some(g)
  }

  /** The tables that teardown frees: all under the root, then the root. */
  function FreedTables(t: Tables, root: nat, levels: nat, top: nat): seq<nat> { TablesBelow(t, root, 0, 0, levels, top, 0) + [root] }

  /** Teardown frees every table on the way to user memory, and only those, each once. */
  lemma TablesFreedOnce(t: Tables, place: Places, root: nat, levels: nat, top: nat)
    requires Valid(t, place, root, levels) && 0 < top <= Reach(levels)
    ensures Distinct(FreedTables(t, root, levels, top))
    ensures forall g: nat :: g in FreedTables(t, root, levels, top) <==>
                             exists v: nat, c: nat :: OnUserWay(t, root, levels, top, g, v, c)
  {
    var a := TablesBelow(t, root, 0, 0, levels, top, 0);
    TablesOnce(t, place, root, root, 0, 0, levels, top, 0);
    if root in a { TablesHang(t, place, root, root, 0, 0, levels, top, 0, root); }
    DistinctAppend(a, [root]);
    forall g: nat ensures g in a + [root] <==> exists v: nat, c: nat :: OnUserWay(t, root, levels, top, g, v, c) {
      if g in a {
        var v, c := TablesLead(t, root, 0, 0, levels, top, 0, g);
        assert OnUserWay(t, root, levels, top, g, v, c);
      } else if g == root {
        assert OnUserWay(t, root, levels, top, g, 0, 0);
      }
      if v: nat, c: nat :| OnUserWay(t, root, levels, top, g, v, c) {
        if c > 0 {
          DropAll(v, levels);
          LeadsToTables(t, root, 0, 0, levels, top, 0, g, v, c);
        }
      }
    }
  }

  lemma {:induction false} UnmapAppend(vm: CoW.Vm, space: nat, a: seq<nat>, b: seq<nat>)
    ensures CoW.UnmapAll(vm, space, a + b) == CoW.UnmapAll(CoW.UnmapAll(vm, space, a), space, b)
    decreases |a|
  {
    if a == [] {
      assert a + b == b;
    } else {
      assert (a + b)[1..] == a[1..] + b;
      UnmapAppend(CoW.Unmap(vm, CoW.Loc(space, a[0])), space, a[1..], b);
    }
  }

  /** What teardown does at one entry. */
  method DestroyEntry(t: Tables, f: nat, d: nat, q: nat, levels: nat, top: nat, i: nat, vm: CoW.Vm, space: nat)
    returns (r: CoW.Vm, freed: seq<nat>)
    requires d < levels && IsTable(t, f) && i < FANOUT
    ensures r == CoW.UnmapAll(vm, space, PagesOf(AtEntry(t, f, d, q, levels, top, i)))
    ensures freed == TablesAt(t, f, d, q, levels, top, i)
    decreases levels - d, 0
  {
    r, freed := vm, [];
    EntryPages(t, f, d, q, levels, top, i);
    match KindOf(t, f, d, q, levels, top, i)
    case Leaf => r := CoW.Unmap(r, CoW.Loc(space, Lift(q * FANOUT + i, levels - 1 - d)));
    case Descend => r, freed := DestroyTable(t, t[f][i].addr, d + 1, q * FANOUT + i, levels, top, r, space);
    case _ =>
  }

  /** Dropping what is at entry i leaves the entries after it. */
  lemma UnmappedNext(t: Tables, f: nat, d: nat, q: nat, levels: nat, top: nat, i: nat, vm: CoW.Vm, space: nat)
    requires d < levels && IsTable(t, f) && i < FANOUT
    ensures CoW.UnmapAll(vm, space, PagesOf(Walked(t, f, d, q, levels, top, i))) ==
            CoW.UnmapAll(CoW.UnmapAll(vm, space, PagesOf(AtEntry(t, f, d, q, levels, top, i))),
                         space, PagesOf(Walked(t, f, d, q, levels, top, i + 1)))
  {
    NextEntry(t, f, d, q, levels, top, i);
    UnmapAppend(vm, space, PagesOf(AtEntry(t, f, d, q, levels, top, i)), PagesOf(Walked(t, f, d, q, levels, top, i + 1)));
  }

  lemma FreedNext(t: Tables, f: nat, d: nat, q: nat, levels: nat, top: nat, i: nat, freed: seq<nat>)
    requires d < levels && IsTable(t, f) && i < FANOUT
    ensures freed + TablesBelow(t, f, d, q, levels, top, i) ==
            (freed + TablesAt(t, f, d, q, levels, top, i)) + TablesBelow(t, f, d, q, levels, top, i + 1)
  {
  }

  /** destroy_user_table: drops the leaves under one table, frees the tables under it and then the table. */
  method DestroyTable(t: Tables, f: nat, d: nat, q: nat, levels: nat, top: nat, vm: CoW.Vm, space: nat)
    returns (r: CoW.Vm, freed: seq<nat>)
    requires d <= levels
    ensures r == CoW.UnmapAll(vm, space, PagesOf(Walked(t, f, d, q, levels, top, 0)))
    ensures freed == TablesBelow(t, f, d, q, levels, top, 0) + [f]
    decreases levels - d, 1
  {
    r, freed := vm, [];
    if d == levels || !IsTable(t, f) { return vm, [f]; }
    ghost var dropped := CoW.UnmapAll(vm, space, PagesOf(Walked(t, f, d, q, levels, top, 0)));
    ghost var tables := TablesBelow(t, f, d, q, levels, top, 0);
    var i := 0;
    while i < FANOUT
      invariant 0 <= i <= FANOUT
      invariant CoW.UnmapAll(r, space, PagesOf(Walked(t, f, d, q, levels, top, i))) == dropped
      invariant freed + TablesBelow(t, f, d, q, levels, top, i) == tables
    {
      UnmappedNext(t, f, d, q, levels, top, i, r, space);
      FreedNext(t, f, d, q, levels, top, i, freed);
      var below;
      r, below := DestroyEntry(t, f, d, q, levels, top, i, r, space);
      freed := freed + below;
      i := i + 1;
    }
    freed := freed + [f];
  }

  /** destroy_user_address_space: the space is gone with all its tables, and no other space has changed. */
  method DestroyAddressSpace(t: Tables, ghost place: Places, root: nat, levels: nat, top: nat, vm: CoW.Vm, space: nat)
    returns (r: CoW.Vm, freed: seq<nat>)
    requires CoW.Inv(vm) && space in vm.spaces && Represents(t, root, levels, top, vm, space)
    requires Valid(t, place, root, levels) && 0 < top
    ensures CoW.Inv(r) && CoW.View(r) == CoW.WithoutSpace(CoW.View(vm), space)
    ensures r == CoW.Exit(vm, space, UserPages(t, root, levels, top))
    ensures freed == FreedTables(t, root, levels, top) && Distinct(freed)
  {
    ghost var pages := UserPages(t, root, levels, top);
    UserPagesAreExact(t, root, levels, top);
    CoW.ExitRemovesSpace(vm, space, pages);
    TablesFreedOnce(t, place, root, levels, top);
    r, freed := DestroyTable(t, root, 0, 0, levels, top, vm, space);
    r := r.(spaces := r.spaces - {space});
  }
}
