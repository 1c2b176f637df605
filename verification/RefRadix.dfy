/**
 The sparse page reference counts: a four-level radix tree of 512-entry pages over leaves of
 1024 counts. The pages of the tree are themselves physical pages, named by page number; 0 is the
 null pointer and also names the static root array, which is not an allocatable page.
 */
module RefRadix {

  const FANOUT := 512
  const COUNTS_PER_LEAF := 1024
  const LEVELS := 4
  const MAX_CHUNK := 0x10_0000_0000
  const ROOT := 0

  datatype Radix = Radix(nodes: map<nat, seq<nat>>, leaves: map<nat, seq<nat>>)

  datatype Lookup = Missing | Found(page: nat)

  /** The indexes followed from the root to a page of the tree. */
  type Path = seq<nat>

  type Places = map<nat, Path>

  predicate IsPath(path: Path) { |path| <= LEVELS && forall i :: 0 <= i < |path| ==> path[i] < FANOUT }

  /** The four 9-bit digits of a chunk number, most significant first. */
  function Digits(chunk: nat): (ds: Path)
    requires chunk < MAX_CHUNK
    ensures |ds| == LEVELS && IsPath(ds)
  {
    var c1 := chunk / FANOUT;
    var c2 := c1 / FANOUT;
    [c2 / FANOUT % FANOUT, c2 % FANOUT, c1 % FANOUT, chunk % FANOUT]
  }

  lemma DigitsInjective(c: nat, d: nat)
    requires c < MAX_CHUNK && d < MAX_CHUNK && Digits(c) == Digits(d)
    ensures c == d
  {
    DigitsValue(c);
    DigitsValue(d);
  }

  lemma DigitsValue(c: nat)
    requires c < MAX_CHUNK
    ensures var ds := Digits(c); c == ((ds[0] * FANOUT + ds[1]) * FANOUT + ds[2]) * FANOUT + ds[3]
  {
    var c1 := c / FANOUT;
    var c2 := c1 / FANOUT;
    assert c2 / FANOUT < FANOUT;
  }

  function ZeroNode(): (z: seq<nat>)
    ensures |z| == FANOUT && forall i :: 0 <= i < FANOUT ==> z[i] == 0
  {
    seq(FANOUT, _ => 0)
  }

  function ZeroLeaf(): (z: seq<nat>)
    ensures |z| == COUNTS_PER_LEAF && forall i :: 0 <= i < COUNTS_PER_LEAF ==> z[i] == 0
  {
    seq(COUNTS_PER_LEAF, _ => 0)
  }

  /** Every pointer leads to the one page that hangs at that place. */
  ghost predicate Valid(t: Radix, place: Places) {
    && ROOT in t.nodes
    && (forall f :: f in t.nodes ==> f in place && f !in t.leaves)
    && (forall f :: f in t.leaves ==> f in place)
    && (forall f :: f in place ==> f in t.nodes || f in t.leaves)
    && place[ROOT] == []
    && (forall f :: f in t.nodes ==> |t.nodes[f]| == FANOUT && |place[f]| < LEVELS)
    && (forall f :: f in t.leaves ==> |t.leaves[f]| == COUNTS_PER_LEAF && |place[f]| == LEVELS)
    && (forall f, i :: f in t.nodes && 0 <= i < FANOUT && t.nodes[f][i] != 0 ==> PointsRight(t, place, f, i))
  }

  ghost predicate PointsRight(t: Radix, place: Places, f: nat, i: nat)
    requires f in t.nodes && i < |t.nodes[f]| && f in place
  {
    var g := t.nodes[f][i];
    g in place && place[g] == place[f] + [i]
  }

  function Init(path: Path): Path
    requires path != []
  {
    path[..|path| - 1]
  }

  function Last(path: Path): nat
    requires path != []
  {
    path[|path| - 1]
  }

  function Entry(t: Radix, f: nat, i: nat): Lookup {
    if f in t.nodes && i < |t.nodes[f]| && t.nodes[f][i] != 0 then Found(t.nodes[f][i]) else Missing
  }

  /** The page found by following a path from the root. */
  function Walk(t: Radix, path: Path): Lookup
    decreases |path|
  {
    if path == [] then Found(ROOT)
    else
      match Walk(t, Init(path))
      case Missing => Missing
      case Found(f) => Entry(t, f, Last(path))
  }

  /** The leaf that holds the counts of a chunk of pages. */
  function LeafOf(t: Radix, pfn: nat): Lookup
    requires pfn / COUNTS_PER_LEAF < MAX_CHUNK
  {
    Walk(t, Digits(pfn / COUNTS_PER_LEAF))
  }

  /** The count of a page; pages without a leaf have count 0. */
  function Count(t: Radix, pfn: nat): nat
    requires pfn / COUNTS_PER_LEAF < MAX_CHUNK
  {
    match LeafOf(t, pfn)
    case Missing => 0
    case Found(f) =>
      if f in t.leaves && |t.leaves[f]| == COUNTS_PER_LEAF then t.leaves[f][pfn % COUNTS_PER_LEAF] else 0
  }

  /** Before any count is stored, every count is 0. */
  lemma EmptyCounts(t: Radix)
    requires t.nodes == map[ROOT := ZeroNode()] && t.leaves == map[]
    ensures Valid(t, map[ROOT := []])
    ensures forall p: nat :: p / COUNTS_PER_LEAF < MAX_CHUNK ==> Count(t, p) == 0
  {
  }

  /** A walk ends at the page whose place is the path followed. */
  lemma {:induction false} WalkPlace(t: Radix, place: Places, path: Path)
    requires Valid(t, place) && IsPath(path) && Walk(t, path).Found?
    ensures Walk(t, path).page in place && place[Walk(t, path).page] == path
    decreases |path|
  {
    if path != [] {
      WalkPlace(t, place, Init(path));
      assert PointsRight(t, place, Walk(t, Init(path)).page, Last(path));
      assert path == Init(path) + [Last(path)];
    }
  }

  /** Distinct pages have distinct count slots. */
  lemma SlotsDistinct(t: Radix, place: Places, p: nat, q: nat)
    requires Valid(t, place) && p / COUNTS_PER_LEAF < MAX_CHUNK && q / COUNTS_PER_LEAF < MAX_CHUNK
    requires LeafOf(t, p).Found? && LeafOf(t, p) == LeafOf(t, q) && p % COUNTS_PER_LEAF == q % COUNTS_PER_LEAF
    ensures p == q
  {
    WalkPlace(t, place, Digits(p / COUNTS_PER_LEAF));
    WalkPlace(t, place, Digits(q / COUNTS_PER_LEAF));
    DigitsInjective(p / COUNTS_PER_LEAF, q / COUNTS_PER_LEAF);
  }

  /** Hang a zeroed page g at entry i of node f. */
  function Hang(t: Radix, f: nat, i: nat, g: nat, leaf: bool): Radix
    requires f in t.nodes && i < |t.nodes[f]|
  {
    var node: seq<nat> := t.nodes[f][i := g];
    var nodes := t.nodes[f := node];
    if leaf then Radix(nodes, t.leaves[g := ZeroLeaf()]) else Radix(nodes[g := ZeroNode()], t.leaves)
  }

  ghost function HangPlace(place: Places, f: nat, i: nat, g: nat): Places
    requires f in place
  {
    place[g := place[f] + [i]]
  }

  ghost predicate CanHang(t: Radix, place: Places, f: nat, i: nat, g: nat, leaf: bool) {
    && Valid(t, place) && f in t.nodes && i < FANOUT && t.nodes[f][i] == 0
    && g != 0 && g !in place && (leaf <==> |place[f]| == LEVELS - 1)
  }

  lemma HangKeepsValid(t: Radix, place: Places, f: nat, i: nat, g: nat, leaf: bool)
    requires CanHang(t, place, f, i, g, leaf)
    ensures Valid(Hang(t, f, i, g, leaf), HangPlace(place, f, i, g))
  {
    var u, pl := Hang(t, f, i, g, leaf), HangPlace(place, f, i, g);
    forall h, j | h in u.nodes && 0 <= j < FANOUT && u.nodes[h][j] != 0 ensures PointsRight(u, pl, h, j) {
      if !(h == f && j == i) {
        assert h != g && u.nodes[h][j] == t.nodes[h][j];
        assert PointsRight(t, place, h, j);
      }
    }
  }

  /** After hanging a page a walk is unchanged, or was missing and now stops at the new page. */
  lemma {:induction false} HangWalk(t: Radix, place: Places, f: nat, i: nat, g: nat, leaf: bool, path: Path)
    requires CanHang(t, place, f, i, g, leaf) && IsPath(path)
    ensures var u := Hang(t, f, i, g, leaf);
            Walk(u, path) == Walk(t, path) || (Walk(t, path).Missing? && Walk(u, path) == Found(g))
    decreases |path|
  {
    if path != [] {
      HangWalk(t, place, f, i, g, leaf, Init(path));
      if Walk(t, Init(path)).Found? { WalkPlace(t, place, Init(path)); }
    }
  }

  /** Hanging a page where a walk stopped lets the walk go one step further. */
  lemma HangWalkDown(t: Radix, place: Places, f: nat, g: nat, leaf: bool, path: Path)
    requires path != [] && IsPath(path) && CanHang(t, place, f, Last(path), g, leaf)
    requires Walk(t, Init(path)) == Found(f)
    ensures Walk(Hang(t, f, Last(path), g, leaf), path) == Found(g)
  {
    HangWalk(t, place, f, Last(path), g, leaf, Init(path));
  }

  /** A walk that is missing at some depth is missing below it. */
  lemma {:induction false} WalkMissing(t: Radix, path: Path, d: nat)
    requires d <= |path| && Walk(t, path[..d]).Missing?
    ensures Walk(t, path).Missing?
    decreases |path|
  {
    if d < |path| {
      assert Init(path)[..d] == path[..d];
      WalkMissing(t, Init(path), d);
    } else {
      assert path[..d] == path;
    }
  }

  /** Creating metadata pages changes no count. */
  lemma HangKeepsCounts(t: Radix, place: Places, f: nat, i: nat, g: nat, leaf: bool, pfn: nat)
    requires CanHang(t, place, f, i, g, leaf) && pfn / COUNTS_PER_LEAF < MAX_CHUNK
    ensures Count(Hang(t, f, i, g, leaf), pfn) == Count(t, pfn)
  {
    var path := Digits(pfn / COUNTS_PER_LEAF);
    HangWalk(t, place, f, i, g, leaf, path);
    if Walk(t, path).Found? { WalkPlace(t, place, path); }
  }

  /** Store a count in slot j of leaf f. */
  function Store(t: Radix, f: nat, j: nat, value: nat): Radix
    requires f in t.leaves && j < |t.leaves[f]|
  {
    var leaf: seq<nat> := t.leaves[f][j := value];
    t.(leaves := t.leaves[f := leaf])
  }

  lemma {:induction false} StoreWalk(t: Radix, f: nat, j: nat, value: nat, path: Path)
    requires f in t.leaves && j < |t.leaves[f]|
    ensures Walk(Store(t, f, j, value), path) == Walk(t, path)
    decreases |path|
  {
    if path != [] { StoreWalk(t, f, j, value, Init(path)); }
  }

  lemma StoreKeepsValid(t: Radix, place: Places, f: nat, j: nat, value: nat)
    requires Valid(t, place) && f in t.leaves && j < COUNTS_PER_LEAF
    ensures Valid(Store(t, f, j, value), place)
  {
    var u := Store(t, f, j, value);
    forall h, i | h in u.nodes && 0 <= i < FANOUT && u.nodes[h][i] != 0 ensures PointsRight(u, place, h, i) {
      assert PointsRight(t, place, h, i);
    }
  }

  lemma LeafIsLeaf(t: Radix, place: Places, pfn: nat)
    requires Valid(t, place) && pfn / COUNTS_PER_LEAF < MAX_CHUNK && LeafOf(t, pfn).Found?
    ensures LeafOf(t, pfn).page in t.leaves && |t.leaves[LeafOf(t, pfn).page]| == COUNTS_PER_LEAF
  {
    WalkPlace(t, place, Digits(pfn / COUNTS_PER_LEAF));
  }

  /** Storing the slot of page p changes the count of p and of no other page. */
  lemma StoreCounts(t: Radix, place: Places, p: nat, value: nat, q: nat)
    requires Valid(t, place) && p / COUNTS_PER_LEAF < MAX_CHUNK && q / COUNTS_PER_LEAF < MAX_CHUNK
    requires LeafOf(t, p).Found?
    ensures var f := LeafOf(t, p).page;
            && f in t.leaves && |t.leaves[f]| == COUNTS_PER_LEAF
            && Count(Store(t, f, p % COUNTS_PER_LEAF, value), q) == if p == q then value else Count(t, q)
  {
    LeafIsLeaf(t, place, p);
    var f := LeafOf(t, p).page;
    StoreWalk(t, f, p % COUNTS_PER_LEAF, value, Digits(q / COUNTS_PER_LEAF));
    if LeafOf(t, q).Found? {
      LeafIsLeaf(t, place, q);
      if p != q && LeafOf(t, q) == Found(f) && p % COUNTS_PER_LEAF == q % COUNTS_PER_LEAF {
        SlotsDistinct(t, place, p, q);
      }
    }
  }
}
