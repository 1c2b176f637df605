/**
 The user-space heap: a list of blocks, each a header followed by its payload, carved out of arenas
 and of mappings of their own. Headers live in the same memory as payloads, so writing one spoils
 the bytes under it.
 */
module UserHeap {
  import opened Common

  const HEADER := 64
  const ALIGNMENT := 16
  const ARENA_SIZE := 65536
  const LARGE_LIMIT := 32768
  const SIZE_LIMIT := 0x1_0000_0000_0000_0000

  /** A header; `want` is the size the caller asked for. */
  datatype Block = Block(
    addr: nat, size: nat, free: bool, large: bool, mapBase: nat, mapSize: nat, want: nat)

  type Memory = nat -> nat

  type Region = nat -> bool

  /** The blocks in list order, the mapped addresses and their contents. */
  datatype Heap = Heap(blocks: seq<Block>, mapped: Region, mem: Memory)

  function Payload(b: Block): nat { b.addr + HEADER }

  function End(b: Block): nat { b.addr + HEADER + b.size }

  // ---------------------------------------------------------------- what is always true of the blocks

  ghost predicate InMapped(from: nat, to: nat, mapped: Region) { forall a: nat :: from <= a < to ==> mapped(a) }

  /** What a block has to itself: its whole mapping if it is large, otherwise header and payload. */
  function Low(b: Block): nat { if b.large then b.mapBase else b.addr }

  function High(b: Block): nat { if b.large then b.mapBase + b.mapSize else End(b) }

  ghost predicate Good(b: Block, mapped: Region) {
    && b.addr % ALIGNMENT == 0 && Low(b) <= b.addr && End(b) <= High(b) <= SIZE_LIMIT && InMapped(Low(b), High(b), mapped)
    && (!b.large ==> b.size % ALIGNMENT == 0) && (!b.free ==> b.want <= b.size)
  }

  /** Two blocks have nothing in common. */
  ghost predicate Clear(b: Block, c: Block) { High(b) <= Low(c) || High(c) <= Low(b) }

  ghost predicate AllGood(bs: seq<Block>, mapped: Region) {
    forall i {:trigger Good(bs[i], mapped)} :: 0 <= i < |bs| ==> Good(bs[i], mapped)
  }

  ghost predicate AllClear(bs: seq<Block>) {
    forall i, j {:trigger Clear(bs[i], bs[j])} :: 0 <= i < |bs| && 0 <= j < |bs| && i != j ==> Clear(bs[i], bs[j])
  }

  ghost predicate Inv(h: Heap) { AllGood(h.blocks, h.mapped) && AllClear(h.blocks) }

  // ---------------------------------------------------------------- replacing part of the list

  function Splice(bs: seq<Block>, i: nat, n: nat, xs: seq<Block>): seq<Block>
    requires i + n <= |bs|
  {
    bs[..i] + xs + bs[i + n..]
  }

  lemma SpliceClear(bs: seq<Block>, i: nat, n: nat, xs: seq<Block>)
    requires i + n <= |bs| && AllClear(bs) && AllClear(xs)
    requires forall x, j {:trigger Clear(xs[x], bs[j])} ::
               0 <= x < |xs| && 0 <= j < |bs| && !(i <= j < i + n) ==> Clear(xs[x], bs[j])
    ensures AllClear(Splice(bs, i, n, xs))
  {
    var r := Splice(bs, i, n, xs);
    forall j, k | 0 <= j < |r| && 0 <= k < |r| && j != k ensures Clear(r[j], r[k]) {
      var oj := if j < i then j else j - |xs| + n;
      var ok := if k < i then k else k - |xs| + n;
      if i <= j < i + |xs| {
        if i <= k < i + |xs| {
          assert Clear(xs[j - i], xs[k - i]);
        } else {
          assert Clear(xs[j - i], bs[ok]);
        }
      } else if i <= k < i + |xs| {
        assert Clear(xs[k - i], bs[oj]);
      } else {
        assert Clear(bs[oj], bs[ok]);
      }
    }
  }

  lemma SpliceGood(bs: seq<Block>, i: nat, n: nat, xs: seq<Block>, mapped: Region)
    requires i + n <= |bs| && AllGood(bs, mapped) && AllGood(xs, mapped)
    ensures AllGood(Splice(bs, i, n, xs), mapped)
  {
    var r := Splice(bs, i, n, xs);
    forall j | 0 <= j < |r| ensures Good(r[j], mapped) {
      if j < i {
        assert Good(bs[j], mapped);
      } else if j < i + |xs| {
        assert Good(xs[j - i], mapped);
      } else {
        assert Good(bs[j - |xs| + n], mapped);
      }
    }
  }

  /** Blocks made out of the space of one small block are clear of all the others. */
  lemma InsideClear(b: Block, x: Block, c: Block)
    requires Clear(b, c) && Low(b) <= x.addr && End(x) <= High(b) && !x.large
    ensures Clear(x, c)
  {
  }

  // ---------------------------------------------------------------- split and merge

  function Spoil(mem: Memory, a: nat, n: nat): Memory { (x: nat) => if a <= x < a + n then 0 else mem(x) }

  /** Cuts the payload of block i down to `size`, and puts what is left, if enough, in a block behind it. */
  function Split(h: Heap, i: nat, size: nat): Heap
    requires i < |h.blocks| && size <= h.blocks[i].size
  {
    var b := h.blocks[i];
    var remain := b.size - size;
    if remain < HEADER + ALIGNMENT then h
    else
      var tail := Block(Payload(b) + size, remain - HEADER, true, false, 0, 0, 0);
      h.(blocks := Splice(h.blocks, i, 1, [b.(size := size), tail]), mem := Spoil(h.mem, tail.addr, HEADER))
  }

  /** Swallows the next block if it is free and starts where block i ends. */
  function MergeNext(h: Heap, i: nat): Heap
    requires i < |h.blocks|
  {
    if !(i + 1 < |h.blocks| && h.blocks[i + 1].free && !h.blocks[i + 1].large && End(h.blocks[i]) == h.blocks[i + 1].addr)
    then h
    else
      var b := h.blocks[i];
      h.(blocks := Splice(h.blocks, i, 2, [b.(size := b.size + HEADER + h.blocks[i + 1].size)]))
  }

  lemma SplitGood(b: Block, size: nat, mapped: Region)
    requires Good(b, mapped) && !b.large && size % ALIGNMENT == 0 && size + HEADER <= b.size && (!b.free ==> b.want <= size)
    ensures Good(b.(size := size), mapped)
    ensures Good(Block(Payload(b) + size, b.size - size - HEADER, true, false, 0, 0, 0), mapped)
  {
  }

  lemma SplitKeeps(h: Heap, i: nat, size: nat)
    requires Inv(h) && i < |h.blocks| && size <= h.blocks[i].size && size % ALIGNMENT == 0 && !h.blocks[i].large
    requires !h.blocks[i].free ==> h.blocks[i].want <= size
    ensures Inv(Split(h, i, size))
  {
    var b := h.blocks[i];
    var r := Split(h, i, size);
    if b.size - size >= HEADER + ALIGNMENT {
      var head, tail := b.(size := size), Block(Payload(b) + size, b.size - size - HEADER, true, false, 0, 0, 0);
      assert Good(h.blocks[i], h.mapped);
      SplitGood(b, size, h.mapped);
      var xs := [head, tail];
      assert forall x :: 0 <= x < |xs| ==> xs[x] == head || xs[x] == tail;
      SpliceGood(h.blocks, i, 1, xs, h.mapped);
      forall x, j | 0 <= x < |xs| && 0 <= j < |h.blocks| && !(i <= j < i + 1) ensures Clear(xs[x], h.blocks[j]) {
        assert Clear(h.blocks[i], h.blocks[j]);
        InsideClear(b, xs[x], h.blocks[j]);
      }
      assert Clear(head, tail) && Clear(tail, head);
      SpliceClear(h.blocks, i, 1, xs);
    }
  }

  lemma UnionClear(b: Block, n: Block, c: Block, mapped: Region)
    requires Clear(b, c) && Clear(n, c) && Good(c, mapped) && !b.large && !n.large && End(b) == n.addr
    ensures Clear(b.(size := b.size + HEADER + n.size), c)
  {
  }

  lemma MergeKeeps(h: Heap, i: nat)
    requires Inv(h) && i < |h.blocks| && !h.blocks[i].large
    ensures Inv(MergeNext(h, i))
  {
    if i + 1 < |h.blocks| && h.blocks[i + 1].free && !h.blocks[i + 1].large && End(h.blocks[i]) == h.blocks[i + 1].addr {
      var b, n := h.blocks[i], h.blocks[i + 1];
      var m := b.(size := b.size + HEADER + n.size);
      assert Good(h.blocks[i], h.mapped) && Good(h.blocks[i + 1], h.mapped);
      SpliceGood(h.blocks, i, 2, [m], h.mapped);
      forall x, j | 0 <= x < |[m]| && 0 <= j < |h.blocks| && !(i <= j < i + 2) ensures Clear([m][x], h.blocks[j]) {
        assert Clear(h.blocks[i], h.blocks[j]) && Clear(h.blocks[i + 1], h.blocks[j]) && Good(h.blocks[j], h.mapped);
        UnionClear(b, n, h.blocks[j], h.mapped);
      }
      SpliceClear(h.blocks, i, 2, [m]);
    }
  }

  // ---------------------------------------------------------------- what stays as it was

  ghost predicate SameBytes(before: Memory, after: Memory, from: nat, n: nat) {
    forall x: nat :: from <= x < from + n ==> after(x) == before(x)
  }

  /** Apart from the allocations named, both heaps have the same live blocks, with the same contents. */
  ghost predicate Others(h: Heap, r: Heap, except: set<nat>) {
    && (forall b :: b in h.blocks && !b.free && Payload(b) !in except ==>
          b in r.blocks && SameBytes(h.mem, r.mem, Payload(b), b.size))
    && (forall b :: b in r.blocks && !b.free && Payload(b) !in except ==> b in h.blocks)
  }

  lemma OthersTrans(h: Heap, q: Heap, r: Heap, e: set<nat>, f: set<nat>)
    requires Others(h, q, e) && Others(q, r, f)
    ensures Others(h, r, e + f)
  {
  }

  lemma SpliceMembers(bs: seq<Block>, i: nat, n: nat, xs: seq<Block>)
    requires i + n <= |bs|
    ensures forall b :: b in Splice(bs, i, n, xs) <==> b in bs[..i] || b in xs || b in bs[i + n..]
    ensures forall b :: b in bs <==> b in bs[..i] || b in bs[i..i + n] || b in bs[i + n..]
  {
    assert bs == bs[..i] + bs[i..i + n] + bs[i + n..];
  }

  /** Headers and payloads of different blocks do not overlap. */
  lemma BlocksApart(h: Heap, i: nat, j: nat)
    requires Inv(h) && i < |h.blocks| && j < |h.blocks| && i != j
    ensures End(h.blocks[i]) <= h.blocks[j].addr || End(h.blocks[j]) <= h.blocks[i].addr
  {
    assert Good(h.blocks[i], h.mapped) && Good(h.blocks[j], h.mapped) && Clear(h.blocks[i], h.blocks[j]);
  }

  /** A live payload is aligned, large enough, mapped, and clear of every other header and payload. */
  lemma LiveIsSafe(h: Heap, i: nat, j: nat)
    requires Inv(h) && i < |h.blocks| && j < |h.blocks| && i != j && !h.blocks[i].free
    ensures var b, c := h.blocks[i], h.blocks[j];
            && Payload(b) % ALIGNMENT == 0 && b.want <= b.size && InMapped(Payload(b), Payload(b) + b.want, h.mapped)
            && (Payload(b) + b.want <= c.addr || Payload(c) + c.size <= Payload(b))
  {
    BlocksApart(h, i, j);
    assert Good(h.blocks[i], h.mapped);
  }

  lemma SplitOthers(h: Heap, i: nat, size: nat)
    requires Inv(h) && i < |h.blocks| && size <= h.blocks[i].size
    ensures Others(h, Split(h, i, size), {Payload(h.blocks[i])})
    ensures Split(h, i, size).blocks[i].(size := 0) == h.blocks[i].(size := 0)
    ensures SameBytes(h.mem, Split(h, i, size).mem, Payload(h.blocks[i]), size)
  {
    var b, r := h.blocks[i], Split(h, i, size);
    if b.size - size >= HEADER + ALIGNMENT {
      var tail := Block(Payload(b) + size, b.size - size - HEADER, true, false, 0, 0, 0);
      SpliceMembers(h.blocks, i, 1, [b.(size := size), tail]);
      assert h.blocks[i..i + 1] == [b];
      forall c | c in h.blocks && !c.free && Payload(c) != Payload(b)
        ensures c in r.blocks && SameBytes(h.mem, r.mem, Payload(c), c.size)
      {
        var j :| 0 <= j < |h.blocks| && h.blocks[j] == c;
        BlocksApart(h, i, j);
      }
    }
  }

  lemma MergeOthers(h: Heap, i: nat)
    requires Inv(h) && i < |h.blocks|
    ensures Others(h, MergeNext(h, i), {Payload(h.blocks[i])})
    ensures MergeNext(h, i).mem == h.mem && |MergeNext(h, i).blocks| > i
    ensures MergeNext(h, i).blocks[i].(size := 0) == h.blocks[i].(size := 0)
    ensures MergeNext(h, i).blocks[..i] == h.blocks[..i]
  {
    if i + 1 < |h.blocks| && h.blocks[i + 1].free && !h.blocks[i + 1].large && End(h.blocks[i]) == h.blocks[i + 1].addr {
      var b, n := h.blocks[i], h.blocks[i + 1];
      SpliceMembers(h.blocks, i, 2, [b.(size := b.size + HEADER + n.size)]);
      assert h.blocks[i..i + 2] == [b, n];
    }
  }

  /** Changing the flags of one block in place. */
  lemma MarkKeeps(h: Heap, i: nat, b: Block)
    requires Inv(h) && i < |h.blocks| && Good(b, h.mapped)
    requires b.(free := h.blocks[i].free, want := h.blocks[i].want) == h.blocks[i]
    ensures Inv(h.(blocks := h.blocks[i := b])) && Others(h, h.(blocks := h.blocks[i := b]), {Payload(b)})
  {
    var r := h.(blocks := h.blocks[i := b]);
    forall j, k | 0 <= j < |r.blocks| && 0 <= k < |r.blocks| && j != k ensures Clear(r.blocks[j], r.blocks[k]) {
      assert Clear(h.blocks[j], h.blocks[k]);
    }
    forall c | c in h.blocks && !c.free && Payload(c) != Payload(b) ensures c in r.blocks {
      var j :| 0 <= j < |h.blocks| && h.blocks[j] == c;
      assert r.blocks[j] == c;
    }
    forall c | c in r.blocks && !c.free && Payload(c) != Payload(b) ensures c in h.blocks {
      var j :| 0 <= j < |r.blocks| && r.blocks[j] == c;
      assert h.blocks[j] == c;
    }
  }

  // ---------------------------------------------------------------- mappings

  /** Rounds up to a multiple of a power of two, in 64 bits. */
  function AlignUp(v: nat, a: nat): nat
    requires 0 < a
  {
    var w := (v + a - 1) % SIZE_LIMIT;
    RemainderFits(w, a);
    w - w % a
  }

  lemma RemainderFits(w: nat, a: nat)
    requires 0 < a
    ensures w % a <= w
  {
    if w < a { assert w / a == 0; }
  }

  /** Rounding a size up to whole pages, or to zero when that wraps. */
  lemma PageUp(need: nat) returns (pages: nat)
    requires 0 < need < SIZE_LIMIT
    ensures AlignUp(need, PAGE_SIZE) == PAGE_SIZE * pages
    ensures need + PAGE_SIZE - 1 < SIZE_LIMIT ==> need <= PAGE_SIZE * pages < need + PAGE_SIZE
    ensures need + PAGE_SIZE - 1 >= SIZE_LIMIT ==> pages == 0
  {
    var w := need + PAGE_SIZE - 1;
    if w < SIZE_LIMIT {
      pages := w / PAGE_SIZE;
      assert w == PAGE_SIZE * pages + w % PAGE_SIZE;
    } else {
      pages := 0;
      assert w % SIZE_LIMIT == w - SIZE_LIMIT;
    }
  }

  /** A size rounded up to whole pages, or zero if that wraps. */
  method WholePages(need: nat) returns (size: nat)
    requires 0 < need < SIZE_LIMIT
    ensures size % ALIGNMENT == 0
    ensures if need + PAGE_SIZE - 1 < SIZE_LIMIT then need <= size < need + PAGE_SIZE else size == 0
  {
    ghost var pages := PageUp(need);
    size := AlignUp(need, PAGE_SIZE);
    assert size == ALIGNMENT * (256 * pages);
  }

  /** A size rounded up to a multiple of 16, or zero if that wraps. */
  method RoundSize(size: nat) returns (wanted: nat)
    requires 0 < size < SIZE_LIMIT
    ensures wanted == AlignUp(size, ALIGNMENT) && wanted % ALIGNMENT == 0
    ensures if size <= SIZE_LIMIT - ALIGNMENT then size <= wanted < size + ALIGNMENT else wanted == 0
  {
    wanted := AlignUp(size, ALIGNMENT);
  }

  /** Some fresh page-aligned region, or nothing; never an empty one. */
  method Mmap(mapped: Region, size: nat) returns (base: Option<nat>)
    ensures base.Some? ==> 0 < size && base.value % PAGE_SIZE == 0 && base.value + size <= SIZE_LIMIT
    ensures base.Some? ==> Unmapped(base.value, base.value + size, mapped)
  {
    var b: int := *;
    if size == 0 || b < 0 || b % PAGE_SIZE != 0 || b + size > SIZE_LIMIT { return None; }
    var used := exists a: nat :: b <= a < b + size && mapped(a);
    return if used then None else Some(b);
  }

  ghost predicate Unmapped(from: nat, to: nat, mapped: Region) { forall a: nat :: from <= a < to ==> !mapped(a) }

  /** A heap with a new mapping, and one block in it at the head of the list. */
  function Linked(h: Heap, b: Block): Heap {
    h.(blocks := [b] + h.blocks, mapped := Widened(h.mapped, b.mapBase, b.mapSize),
       mem := Spoil(h.mem, b.addr, HEADER))
  }

  function Widened(mapped: Region, base: nat, size: nat): Region { (a: nat) => mapped(a) || base <= a < base + size }

  lemma LinkKeeps(h: Heap, b: Block)
    requires Inv(h) && b.addr % ALIGNMENT == 0 && (!b.large ==> b.size % ALIGNMENT == 0) && (!b.free ==> b.want <= b.size)
    requires b.mapBase <= b.addr && End(b) <= b.mapBase + b.mapSize <= SIZE_LIMIT
    requires Unmapped(b.mapBase, b.mapBase + b.mapSize, h.mapped)
    ensures Inv(Linked(h, b)) && Others(h, Linked(h, b), {Payload(b)})
    ensures forall c :: c in h.blocks ==> Payload(c) != Payload(b)
  {
    var r := Linked(h, b);
    forall j | 0 <= j < |h.blocks| ensures Clear(b, h.blocks[j]) && Clear(h.blocks[j], b) && Good(h.blocks[j], r.mapped) {
      FreshIsClear(h, b, j);
    }
    forall j, k | 0 <= j < |r.blocks| && 0 <= k < |r.blocks| && j != k ensures Clear(r.blocks[j], r.blocks[k]) {
      if j > 0 && k > 0 { assert Clear(h.blocks[j - 1], h.blocks[k - 1]); }
    }
    forall c | c in h.blocks ensures Payload(c) != Payload(b) && SameBytes(h.mem, r.mem, Payload(c), c.size) {
      var j :| 0 <= j < |h.blocks| && h.blocks[j] == c;
      assert Clear(b, c);
    }
  }

  lemma ApartRanges(from: nat, to: nat, base: nat, limit: nat, mapped: Region)
    requires from < to && base < limit && InMapped(from, to, mapped) && Unmapped(base, limit, mapped)
    ensures to <= base || limit <= from
  {
    var a: nat := if from < base then base else from;
    var known := mapped(a);
  }

  /** A fresh mapping is clear of every block there is. */
  lemma FreshIsClear(h: Heap, b: Block, j: nat)
    requires Inv(h) && j < |h.blocks| && b.mapBase <= b.addr && End(b) <= b.mapBase + b.mapSize
    requires Unmapped(b.mapBase, b.mapBase + b.mapSize, h.mapped)
    ensures Clear(b, h.blocks[j]) && Clear(h.blocks[j], b)
    ensures Good(h.blocks[j], Linked(h, b).mapped)
  {
    var c := h.blocks[j];
    assert Good(h.blocks[j], h.mapped);
    ApartRanges(Low(c), High(c), b.mapBase, b.mapBase + b.mapSize, h.mapped);
  }

  // ---------------------------------------------------------------- malloc

  /** The first free block that is large enough. */
  method FindFree(h: Heap, size: nat) returns (i: Option<nat>)
    ensures match i
            case Some(k) => && k < |h.blocks| && Fits(h.blocks[k], size)
                            && forall j :: 0 <= j < k ==> !Fits(h.blocks[j], size)
            case None => forall j :: 0 <= j < |h.blocks| ==> !Fits(h.blocks[j], size)
  {
    var k := 0;
    while k < |h.blocks|
      invariant k <= |h.blocks| && forall j :: 0 <= j < k ==> !Fits(h.blocks[j], size)
    {
      if Fits(h.blocks[k], size) { return Some(k); }
      k := k + 1;
    }
    return None;
  }

  predicate Fits(b: Block, size: nat) { b.free && !b.large && b.size >= size }

  /** Maps memory for a payload, an arena unless it is large, and links one free block in it. */
  method NewMapping(h: Heap, payload: nat, large: bool) returns (ok: bool, r: Heap)
    requires Inv(h) && payload % ALIGNMENT == 0 && payload < SIZE_LIMIT && (!large ==> payload < LARGE_LIMIT)
    ensures Inv(r) && (ok ==> r.blocks != [] && Others(h, r, {Payload(r.blocks[0])}))
    ensures ok ==> r.blocks[0].free && r.blocks[0].large == large && payload <= r.blocks[0].size
    ensures ok ==> forall b :: b in h.blocks ==> Payload(b) != Payload(r.blocks[0])
    ensures !ok ==> r == h
  {
    if payload > SIZE_LIMIT - 1 - HEADER { return false, h; }
    var mapping := WholePages(HEADER + payload);
    if !large && mapping < ARENA_SIZE { mapping := ARENA_SIZE; }
    var base := Mmap(h.mapped, mapping);
    if base.None? { return false, h; }
    var b := Block(base.value, mapping - HEADER, true, large, base.value, mapping, 0);
    LinkKeeps(h, b);
    return true, Linked(h, b);
  }

  /** What malloc promises: a new live block of the size asked for, and nothing else changed. */
  ghost predicate Allocated(h: Heap, r: Heap, p: nat, size: nat) {
    && Inv(r) && Others(h, r, {p}) && p % ALIGNMENT == 0
    && (exists b :: b in r.blocks && !b.free && Payload(b) == p && b.want == size && size <= b.size)
    && (forall b :: b in h.blocks && !b.free ==> Payload(b) != p)
  }

  /** Cuts a free block to size, if it is not large, and hands it out. */
  lemma HandOut(h: Heap, i: nat, size: nat, wanted: nat) returns (r: Heap)
    requires Inv(h) && i < |h.blocks| && h.blocks[i].free && wanted <= h.blocks[i].size
    requires wanted % ALIGNMENT == 0 && size <= wanted
    ensures var s := if h.blocks[i].large then h else Split(h, i, wanted);
            i < |s.blocks| && r == s.(blocks := s.blocks[i := s.blocks[i].(free := false, want := size)])
    ensures Allocated(h, r, Payload(h.blocks[i]), size)
  {
    var s := if h.blocks[i].large then h else Split(h, i, wanted);
    if !h.blocks[i].large {
      SplitKeeps(h, i, wanted);
      SplitOthers(h, i, wanted);
    }
    var b := s.blocks[i].(free := false, want := size);
    assert Good(s.blocks[i], s.mapped);
    MarkKeeps(s, i, b);
    r := s.(blocks := s.blocks[i := b]);
    OthersTrans(h, s, r, {Payload(b)}, {Payload(b)});
    assert {Payload(b)} + {Payload(b)} == {Payload(b)};
    assert r.blocks[i] == b;
    forall c | c in h.blocks && !c.free ensures Payload(c) != Payload(b) {
      var j :| 0 <= j < |h.blocks| && h.blocks[j] == c;
      BlocksApart(h, i, j);
    }
  }

  /** A small request fits in some free block. */
  ghost predicate CanReuse(h: Heap, wanted: nat) { wanted < LARGE_LIMIT && exists b :: b in h.blocks && Fits(b, wanted) }

  method Malloc(h: Heap, size: nat) returns (p: nat, r: Heap)
    requires Inv(h) && size < SIZE_LIMIT
    ensures p == 0 ==> r == h
    ensures p != 0 ==> 0 < size && Allocated(h, r, p, size)
    ensures 0 < size <= SIZE_LIMIT - ALIGNMENT && CanReuse(h, AlignUp(size, ALIGNMENT)) ==> p != 0
  {
    if size == 0 || size > SIZE_LIMIT - ALIGNMENT { return 0, h; }
    var wanted := RoundSize(size);
    var large := wanted >= LARGE_LIMIT;
    var found: Option<nat> := None;
    if !large { found := FindFree(h, wanted); }
    var i := 0;
    r := h;
    if found.Some? {
      i := found.value;
    } else {
      var ok;
      ok, r := NewMapping(h, wanted, large);
      if !ok { return 0, h; }
    }
    p := Payload(r.blocks[i]);
    ghost var q := r;
    ghost var out := HandOut(r, i, size, wanted);
    if !large { r := Split(r, i, wanted); }
    r := r.(blocks := r.blocks[i := r.blocks[i].(free := false, want := size)]);
    if found.None? {
      OthersTrans(h, q, r, {p}, {p});
      assert {p} + {p} == {p};
    }
  }

  // ---------------------------------------------------------------- free

  /** The place in the list of the live block whose payload is at p. */
  function IndexOf(bs: seq<Block>, p: nat): (i: Option<nat>)
    ensures i.Some? ==> i.value < |bs| && !bs[i.value].free && Payload(bs[i.value]) == p
    ensures i.None? ==> forall j :: 0 <= j < |bs| && !bs[j].free ==> Payload(bs[j]) != p
  {
    if bs == [] then None
    else if !bs[|bs| - 1].free && Payload(bs[|bs| - 1]) == p then Some(|bs| - 1)
    else IndexOf(bs[..|bs| - 1], p)
  }

  function Narrowed(mapped: Region, base: nat, size: nat): Region { (a: nat) => mapped(a) && !(base <= a < base + size) }

  function Unlinked(h: Heap, i: nat): Heap
    requires i < |h.blocks|
  {
    h.(blocks := Splice(h.blocks, i, 1, []), mapped := Narrowed(h.mapped, h.blocks[i].mapBase, h.blocks[i].mapSize))
  }

  /** Giving a large block's mapping back takes nothing from any other block. */
  lemma UnlinkKeeps(h: Heap, i: nat)
    requires Inv(h) && i < |h.blocks| && h.blocks[i].large
    ensures Inv(Unlinked(h, i)) && Others(h, Unlinked(h, i), {Payload(h.blocks[i])})
    ensures forall b :: b in Unlinked(h, i).blocks ==> Payload(b) != Payload(h.blocks[i])
  {
    var r := Unlinked(h, i);
    SpliceClear(h.blocks, i, 1, []);
    SpliceMembers(h.blocks, i, 1, []);
    assert h.blocks[i..i + 1] == [h.blocks[i]];
    forall k | 0 <= k < |r.blocks| ensures Good(r.blocks[k], r.mapped) && Payload(r.blocks[k]) != Payload(h.blocks[i]) {
      var j := if k < i then k else k + 1;
      assert r.blocks[k] == h.blocks[j] && Good(h.blocks[j], h.mapped) && Clear(h.blocks[i], h.blocks[j]);
      BlocksApart(h, i, j);
    }
  }

  /** What free promises: the allocation at p is gone and nothing else changed. */
  ghost predicate Freed(h: Heap, r: Heap, p: nat) {
    Inv(r) && Others(h, r, {p}) && r.mem == h.mem && forall b :: b in r.blocks && !b.free ==> Payload(b) != p
  }

  lemma OneAt(h: Heap, i: nat)
    requires Inv(h) && i < |h.blocks|
    ensures forall c :: c in h.blocks && Payload(c) == Payload(h.blocks[i]) ==> c == h.blocks[i]
  {
    forall c | c in h.blocks && Payload(c) == Payload(h.blocks[i]) ensures c == h.blocks[i] {
      var j :| 0 <= j < |h.blocks| && h.blocks[j] == c;
      if j != i { BlocksApart(h, i, j); }
    }
  }

  /** Changing a free block changes no live one. */
  lemma FreeExcept(h: Heap, r: Heap, i: nat)
    requires Inv(h) && Inv(r) && i < |h.blocks| && i < |r.blocks| && h.blocks[i].free && r.blocks[i].free
    requires Payload(r.blocks[i]) == Payload(h.blocks[i]) && Others(h, r, {Payload(h.blocks[i])})
    ensures Others(h, r, {})
  {
    OneAt(h, i);
    OneAt(r, i);
  }

  ghost predicate NoBlockAt(h: Heap, addr: nat) { forall b :: b in h.blocks ==> b.addr != addr }

  /** Block i and the next one are small and free, and touch. */
  predicate Mergeable(h: Heap, i: nat) {
    && i + 1 < |h.blocks| && h.blocks[i].free && !h.blocks[i].large && h.blocks[i + 1].free && !h.blocks[i + 1].large
    && End(h.blocks[i]) == h.blocks[i + 1].addr
  }

  /** Merging takes the header of the second block away and adds none. */
  lemma MergeRemoves(h: Heap, i: nat)
    requires Inv(h) && i < |h.blocks|
    ensures Mergeable(h, i) ==> NoBlockAt(MergeNext(h, i), h.blocks[i + 1].addr)
    ensures forall a :: NoBlockAt(h, a) ==> NoBlockAt(MergeNext(h, i), a)
  {
    if i + 1 < |h.blocks| && h.blocks[i + 1].free && !h.blocks[i + 1].large && End(h.blocks[i]) == h.blocks[i + 1].addr {
      var b, n := h.blocks[i], h.blocks[i + 1];
      var m, r := b.(size := b.size + HEADER + n.size), MergeNext(h, i);
      SpliceMembers(h.blocks, i, 2, [m]);
      assert b in h.blocks;
      forall c | c in r.blocks ensures c.addr != n.addr && (c == m || c in h.blocks) {
        if c != m {
          var j :| 0 <= j < |h.blocks| && h.blocks[j] == c && (j < i || i + 2 <= j);
          BlocksApart(h, j, i + 1);
        }
      }
    }
  }

  /** Merging around a block that was just freed. */
  lemma MergedAround(h: Heap, i: nat) returns (r: Heap)
    requires Inv(h) && i < |h.blocks| && h.blocks[i].free && !h.blocks[i].large
    ensures var m := MergeNext(h, i);
            r == if i > 0 && m.blocks[i - 1].free && !m.blocks[i - 1].large then MergeNext(m, i - 1) else m
    ensures Inv(r) && Others(h, r, {}) && r.mem == h.mem
    ensures Mergeable(h, i) ==> NoBlockAt(r, h.blocks[i + 1].addr)
    ensures i > 0 && Mergeable(h, i - 1) ==> NoBlockAt(r, h.blocks[i].addr)
  {
    var m := MergeNext(h, i);
    MergeKeeps(h, i);
    MergeOthers(h, i);
    r := m;
    FreeExcept(h, m, i);
    MergeRemoves(h, i);
    if i > 0 && m.blocks[i - 1].free && !m.blocks[i - 1].large {
      r := MergeNext(m, i - 1);
      MergeKeeps(m, i - 1);
      MergeOthers(m, i - 1);
      FreeExcept(m, r, i - 1);
      MergeRemoves(m, i - 1);
      var none: set<nat> := {};
      OthersTrans(h, m, r, none, none);
      assert none + none == none;
    }
  }

  /** Once block i is freed, free neighbours in the list that touch it are one block with it. */
  ghost predicate Coalesced(h: Heap, r: Heap, i: nat)
    requires i < |h.blocks|
  {
    var f := h.(blocks := h.blocks[i := h.blocks[i].(free := true)]);
    (Mergeable(f, i) ==> NoBlockAt(r, h.blocks[i + 1].addr)) && (i > 0 && Mergeable(f, i - 1) ==> NoBlockAt(r, h.blocks[i].addr))
  }

  /** Frees an allocation; anything else that is not null aborts the program. */
  method Free(h: Heap, p: nat) returns (ok: bool, r: Heap)
    requires Inv(h)
    ensures p == 0 ==> ok && r == h
    ensures p != 0 ==> (ok <==> IndexOf(h.blocks, p).Some?) && (ok ==> Freed(h, r, p)) && (!ok ==> r == h)
    ensures p != 0 && ok ==> Coalesced(h, r, IndexOf(h.blocks, p).value)
  {
    if p == 0 { return true, h; }
    var index := IndexOf(h.blocks, p);
    if index.None? { return false, h; }
    var i := index.value;
    var b := h.blocks[i].(free := true);
    assert Good(h.blocks[i], h.mapped);
    MarkKeeps(h, i, b);
    r := h.(blocks := h.blocks[i := b]);
    ghost var q := r;
    if b.large {
      UnlinkKeeps(r, i);
      r := Unlinked(r, i);
      OthersTrans(h, q, r, {p}, {p});
      assert {p} + {p} == {p};
    } else {
      OneAt(r, i);
      ghost var m := MergedAround(r, i);
      r := MergeNext(r, i);
      if i > 0 && r.blocks[i - 1].free && !r.blocks[i - 1].large { r := MergeNext(r, i - 1); }
      OthersTrans(h, q, r, {p}, {});
      assert {p} + {} == {p};
    }
    return true, r;
  }

  // ---------------------------------------------------------------- calloc

  /** r has a live block at p that was asked for with this size, and is that large. */
  ghost predicate LiveAt(h: Heap, p: nat, size: nat) {
    exists b :: b in h.blocks && !b.free && Payload(b) == p && b.want == size && size <= b.size
  }

  /** Writing inside one allocation leaves all others as they are. */
  lemma WriteKeeps(h: Heap, p: nat, size: nat, mem: Memory)
    requires Inv(h) && LiveAt(h, p, size) && forall x: nat :: !(p <= x < p + size) ==> mem(x) == h.mem(x)
    ensures Inv(h.(mem := mem)) && Others(h, h.(mem := mem), {p}) && LiveAt(h.(mem := mem), p, size)
  {
    var b :| b in h.blocks && !b.free && Payload(b) == p && b.want == size && size <= b.size;
    var i :| 0 <= i < |h.blocks| && h.blocks[i] == b;
    forall c | c in h.blocks && !c.free && Payload(c) != p ensures SameBytes(h.mem, mem, Payload(c), c.size) {
      var j :| 0 <= j < |h.blocks| && h.blocks[j] == c;
      BlocksApart(h, i, j);
    }
    assert b in h.(mem := mem).blocks;
  }

  /** The test that keeps a product from wrapping is exact. */
  lemma ProductFits(n: nat, size: nat)
    requires 0 < n
    ensures size > (SIZE_LIMIT - 1) / n <==> n * size >= SIZE_LIMIT
  {
    var most, r := (SIZE_LIMIT - 1) / n, (SIZE_LIMIT - 1) % n;
    assert SIZE_LIMIT - 1 == n * most + r;
    if size > most {
      MulAtLeast(n, size - most);
      assert n * size == n * most + n * (size - most);
    } else {
      assert n * most == n * size + n * (most - size);
    }
  }

  method Calloc(h: Heap, n: nat, size: nat) returns (p: nat, r: Heap)
    requires Inv(h) && n < SIZE_LIMIT && size < SIZE_LIMIT
    ensures p == 0 ==> r == h
    ensures p != 0 ==> n * size < SIZE_LIMIT && Allocated(h, r, p, n * size)
    ensures p != 0 ==> forall x: nat :: p <= x < p + n * size ==> r.mem(x) == 0
  {
    if n == 0 || size == 0 || size > (SIZE_LIMIT - 1) / n {
      return 0, h;
    }
    ProductFits(n, size);
    p, r := Malloc(h, n * size);
    if p != 0 {
      ghost var q := r;
      WriteKeeps(r, p, n * size, Spoil(r.mem, p, n * size));
      r := r.(mem := Spoil(r.mem, p, n * size));
      OthersTrans(h, q, r, {p}, {p});
      assert {p} + {p} == {p};
    }
  }

  // ---------------------------------------------------------------- realloc

  function Resized(h: Heap, i: nat, want: nat, wanted: nat): Heap
    requires i < |h.blocks| && wanted <= h.blocks[i].size
  {
    var m := h.(blocks := h.blocks[i := h.blocks[i].(want := want)]);
    if h.blocks[i].large then m else Split(m, i, wanted)
  }

  /** Giving a live block a new size in place. */
  lemma ResizedKeeps(h: Heap, i: nat, p: nat, want: nat, wanted: nat)
    requires i < |h.blocks| && p == Payload(h.blocks[i])
    requires Inv(h) && i < |h.blocks| && !h.blocks[i].free && want <= wanted <= h.blocks[i].size && wanted % ALIGNMENT == 0
    ensures var r := Resized(h, i, want, wanted);
            Inv(r) && Others(h, r, {p}) && LiveAt(r, p, want) && SameBytes(h.mem, r.mem, p, wanted)
  {
    var b := h.blocks[i].(want := want);
    var m := h.(blocks := h.blocks[i := b]);
    var r := Resized(h, i, want, wanted);
    assert Good(h.blocks[i], h.mapped);
    MarkKeeps(h, i, b);
    if !b.large {
      SplitKeeps(m, i, wanted);
      SplitOthers(m, i, wanted);
      OthersTrans(h, m, r, {p}, {p});
      assert {p} + {p} == {p};
    }
    assert r.blocks[i] in r.blocks;
  }

  function Byte(mem: Memory, p: nat, k: nat): nat { mem(p + k) }

  /** What realloc promises when it moves or resizes the allocation at p to q. */
  ghost predicate Reallocated(h: Heap, r: Heap, p: nat, q: nat, kept: nat) {
    && Inv(r) && Others(h, r, {p, q}) && (forall k: nat :: k < kept ==> Byte(r.mem, q, k) == Byte(h.mem, p, k))
    && (q != p ==> (forall b :: b in r.blocks && !b.free ==> Payload(b) != p) &&
                   (forall b :: b in h.blocks && !b.free ==> Payload(b) != q))
  }

  /** Growing into the free block behind, if there is one and it is large enough. */
  predicate CanGrow(h: Heap, i: nat, wanted: nat)
    requires i < |h.blocks|
  {
    && !h.blocks[i].large && i + 1 < |h.blocks| && h.blocks[i + 1].free && !h.blocks[i + 1].large
    && End(h.blocks[i]) == h.blocks[i + 1].addr
    && h.blocks[i].size + HEADER + h.blocks[i + 1].size >= wanted
  }

  lemma GrowKeeps(h: Heap, i: nat, want: nat, wanted: nat)
    requires Inv(h) && i < |h.blocks| && !h.blocks[i].free && CanGrow(h, i, wanted)
    requires want <= wanted && wanted % ALIGNMENT == 0 && h.blocks[i].size <= wanted
    ensures var p, r := Payload(h.blocks[i]), Resized(MergeNext(h, i), i, want, wanted);
            Reallocated(h, r, p, p, h.blocks[i].size) && LiveAt(r, p, want)
  {
    var p, m := Payload(h.blocks[i]), MergeNext(h, i);
    MergeKeeps(h, i);
    MergeOthers(h, i);
    MergedBlock(h, i, wanted);
    ResizedKeeps(m, i, p, want, wanted);
    var r := Resized(m, i, want, wanted);
    OthersTrans(h, m, r, {p}, {p});
    assert {p} + {p} == {p, p};
    SameKept(h, r, p, h.blocks[i].size, wanted);
  }

  lemma MergedBlock(h: Heap, i: nat, wanted: nat)
    requires i < |h.blocks| && CanGrow(h, i, wanted)
    ensures |MergeNext(h, i).blocks| > i
    ensures MergeNext(h, i).blocks[i] == h.blocks[i].(size := h.blocks[i].size + HEADER + h.blocks[i + 1].size)
    ensures MergeNext(h, i).mem == h.mem
  {
  }

  lemma SameKept(h: Heap, r: Heap, p: nat, kept: nat, n: nat)
    requires Inv(r) && Others(h, r, {p, p}) && SameBytes(h.mem, r.mem, p, n) && kept <= n
    ensures Reallocated(h, r, p, p, kept)
  {
    forall k: nat | k < kept ensures Byte(r.mem, p, k) == Byte(h.mem, p, k) { assert p <= p + k < p + n; }
  }

  lemma ShrinkKeeps(h: Heap, i: nat, want: nat, wanted: nat)
    requires Inv(h) && i < |h.blocks| && !h.blocks[i].free && want <= wanted <= h.blocks[i].size && wanted % ALIGNMENT == 0
    ensures var p, r := Payload(h.blocks[i]), Resized(h, i, want, wanted);
            Reallocated(h, r, p, p, want) && LiveAt(r, p, want)
  {
    var p := Payload(h.blocks[i]);
    ResizedKeeps(h, i, p, want, wanted);
    assert {p} == {p, p};
    SameKept(h, Resized(h, i, want, wanted), p, want, wanted);
  }

  function Copied(mem: Memory, to: nat, from: nat, n: nat): Memory {
    (x: nat) => if to <= x < to + n then mem(x - to + from) else mem(x)
  }

  /** Moving an allocation: allocate, copy, free. */
  method Move(h: Heap, i: nat, size: nat) returns (q: nat, r: Heap)
    requires Inv(h) && i < |h.blocks| && !h.blocks[i].free && 0 < size < SIZE_LIMIT
    ensures q == 0 ==> r == h
    ensures q != 0 ==> Reallocated(h, r, Payload(h.blocks[i]), q, Min(h.blocks[i].size, size)) && LiveAt(r, q, size)
  {
    var b := h.blocks[i];
    var p, n := Payload(b), Min(b.size, size);
    ghost var m;
    q, r := Malloc(h, size);
    if q == 0 { return; }
    m := r;
    WriteKeeps(m, q, size, Copied(m.mem, q, p, n));
    r := r.(mem := Copied(r.mem, q, p, n));
    ghost var c := r;
    assert b in m.blocks && p != q;
    CopiedBytes(h.mem, m.mem, q, p, n, b.size);
    var ok;
    ok, r := Free(r, p);
    OthersTrans(h, m, c, {q}, {q});
    OthersTrans(h, c, r, {q} + {q}, {p});
    assert {q} + {q} + {p} == {p, q};
  }

  lemma CopiedBytes(before: Memory, mem: Memory, to: nat, from: nat, n: nat, size: nat)
    requires SameBytes(before, mem, from, size) && n <= size
    ensures forall k: nat :: k < n ==> Byte(Copied(mem, to, from, n), to, k) == Byte(before, from, k)
  {
    forall k: nat | k < n ensures Byte(Copied(mem, to, from, n), to, k) == Byte(before, from, k) {
      assert mem(from + k) == before(from + k);
    }
  }

  /** A live block at p with room for that many bytes. */
  ghost predicate RoomAt(h: Heap, p: nat, size: nat) {
    exists b :: b in h.blocks && !b.free && Payload(b) == p && size <= b.size
  }

  lemma NoRoom(h: Heap, p: nat, size: nat)
    requires Inv(h) && size > SIZE_LIMIT - ALIGNMENT
    ensures !RoomAt(h, p, size)
  {
    forall b | b in h.blocks ensures b.size < size {
      var i :| 0 <= i < |h.blocks| && h.blocks[i] == b;
      assert Good(h.blocks[i], h.mapped);
    }
  }

  /**
   Resizes the allocation at p. A result has room for the size asked for if and only if rounding
   that size does not wrap, and keeps what both sizes have in common.
   */
  method Realloc(h: Heap, p: nat, size: nat) returns (ok: bool, q: nat, r: Heap)
    requires Inv(h) && size < SIZE_LIMIT
    ensures p == 0 ==> ok && (q != 0 ==> Allocated(h, r, q, size)) && (q == 0 ==> r == h)
    ensures p != 0 && size == 0 ==> q == 0 && (ok ==> Freed(h, r, p))
    ensures p != 0 ==> (ok <==> IndexOf(h.blocks, p).Some?)
    ensures !ok || (q == 0 && size != 0) ==> r == h
    ensures ok && p != 0 && size != 0 && AlignUp(size, ALIGNMENT) <= h.blocks[IndexOf(h.blocks, p).value].size ==> q == p
    ensures ok && p != 0 && q != 0 ==>
              && Reallocated(h, r, p, q, if RoomAt(r, q, size) then Min(h.blocks[IndexOf(h.blocks, p).value].size, size) else 0)
              && (RoomAt(r, q, size) <==> size <= SIZE_LIMIT - ALIGNMENT)
  {
    if p == 0 {
      q, r := Malloc(h, size);
      return true, q, r;
    }
    if size == 0 {
      ok, r := Free(h, p);
      return ok, 0, r;
    }
    var index := IndexOf(h.blocks, p);
    if index.None? { return false, 0, h; }
    var i := index.value;
    var wanted := RoundSize(size);
    if h.blocks[i].size >= wanted {
      ShrinkKeeps(h, i, Min(size, wanted), wanted);
      q, r := p, Resized(h, i, Min(size, wanted), wanted);
    } else if CanGrow(h, i, wanted) {
      GrowKeeps(h, i, size, wanted);
      MergedBlock(h, i, wanted);
      q, r := p, Resized(MergeNext(h, i), i, size, wanted);
    } else {
      q, r := Move(h, i, size);
    }
    if size > SIZE_LIMIT - ALIGNMENT && q != 0 { NoRoom(r, q, size); }
    return true, q, r;
  }

  /** Asking for the largest size there is returns a live block of 32 bytes as it is. */
  lemma ReallocWrapExample()
    ensures var size, b := SIZE_LIMIT - 1, Block(65536, 32, false, false, 0, 0, 32);
            var h := Heap([b], _ => true, _ => 0);
            var wanted := AlignUp(size, ALIGNMENT);
            && Inv(h) && wanted == 0 && wanted <= b.size
            && !RoomAt(Resized(h, 0, Min(size, wanted), wanted), Payload(b), size)
  {
    var size, b := SIZE_LIMIT - 1, Block(65536, 32, false, false, 0, 0, 32);
    var h := Heap([b], _ => true, _ => 0);
    assert Good(h.blocks[0], h.mapped);
    ResizedKeeps(h, 0, Payload(b), 0, 0);
    NoRoom(Resized(h, 0, 0, 0), Payload(b), size);
  }

  // ---------------------------------------------------------------- aligned allocation

  predicate PowerOfTwo(a: nat) { a == 1 || (a > 1 && a % 2 == 0 && PowerOfTwo(a / 2)) }

  lemma PowerOfTwoIsMultiple(a: nat)
    requires PowerOfTwo(a) && a >= 16
    ensures a % 16 == 0
  {
    var b := a / 2;
    var c := b / 2;
    var d := c / 2;
    assert PowerOfTwo(b) && a == 2 * b;
    assert PowerOfTwo(c) && b == 2 * c;
    assert PowerOfTwo(d) && c == 2 * d;
    assert d % 2 == 0;
  }

  lemma RoundedDown(w: nat, a: nat)
    requires 0 < a
    ensures w % a <= w && (w - w % a) % a == 0 && w < w - w % a + a
  {
    RemainderFits(w, a);
    assert w == a * (w / a) + w % a;
    DivModUnique(a * (w / a), a, w / a, 0);
  }

  lemma MultipleOfSixteen(v: nat, a: nat)
    requires 0 < a && v % a == 0 && a % 16 == 0
    ensures v % 16 == 0
  {
    var k, m := v / a, a / 16;
    assert v == k * a && a == m * 16;
    assert v == (k * m) * 16;
  }

  /** The first aligned payload address that leaves room for a header. */
  method AlignedPayload(base: nat, alignment: nat) returns (p: nat)
    requires PowerOfTwo(alignment) && ALIGNMENT <= alignment && base + HEADER + alignment - 1 < SIZE_LIMIT
    ensures base + HEADER <= p < base + HEADER + alignment && p % alignment == 0 && p % ALIGNMENT == 0
  {
    var w := base + HEADER + alignment - 1;
    RoundedDown(w, alignment);
    p := w - w % alignment;
    PowerOfTwoIsMultiple(alignment);
    MultipleOfSixteen(p, alignment);
  }

  lemma LinkedIsAllocated(h: Heap, b: Block)
    requires Inv(h) && b.addr % ALIGNMENT == 0 && b.large && !b.free && b.want == b.size
    requires b.mapBase <= b.addr && End(b) <= b.mapBase + b.mapSize <= SIZE_LIMIT
    requires Unmapped(b.mapBase, b.mapBase + b.mapSize, h.mapped)
    ensures Allocated(h, Linked(h, b), Payload(b), b.size)
  {
    LinkKeeps(h, b);
    assert Linked(h, b).blocks[0] == b;
  }

  /** A mapping of its own with an aligned payload in it. */
  method MapAligned(h: Heap, alignment: nat, size: nat) returns (p: nat, r: Heap)
    requires Inv(h) && PowerOfTwo(alignment) && ALIGNMENT <= alignment && HEADER + size + alignment < SIZE_LIMIT
    ensures p == 0 ==> r == h
    ensures p != 0 ==> Allocated(h, r, p, size) && p % alignment == 0
  {
    var total := HEADER + size + alignment;
    var mapping := WholePages(total);
    var base := Mmap(h.mapped, mapping);
    if base.None? { return 0, h; }
    p := AlignedPayload(base.value, alignment);
    var b := Block(p - HEADER, size, false, true, base.value, mapping, size);
    LinkedIsAllocated(h, b);
    r := Linked(h, b);
  }

  method AlignedAlloc(h: Heap, alignment: nat, size: nat) returns (p: nat, r: Heap)
    requires Inv(h) && size < SIZE_LIMIT && alignment < SIZE_LIMIT
    ensures p == 0 ==> r == h
    ensures p != 0 ==> 0 < size && Allocated(h, r, p, size) && ALIGNMENT <= alignment && p % alignment == 0
  {
    if alignment < ALIGNMENT || !PowerOfTwo(alignment) { return 0, h; }
    if size == 0 || size + alignment + HEADER > SIZE_LIMIT - 1 { return 0, h; }
    if alignment == ALIGNMENT {
      p, r := Malloc(h, size);
    } else {
      p, r := MapAligned(h, alignment, size);
    }
  }
}
