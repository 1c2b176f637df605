/**
 Reading and writing block devices through the cache, one caller at a time. A device serves any read
 or write that lies inside it in full; one that reaches past its end it may cut short at any point.
 */
module CachedIo {
  import opened Common
  import opened BlockCache

  const BLOCK := 4096
  const READAHEAD_BLOCKS := 2
  const DIRECT_MIN := 32768
  const BATCH_BLOCKS := 16
  const BATCH_MIN := 2

  type Bytes = seq<nat>
  type Disks = map<nat, Bytes>

  function DiskOf(disks: Disks, node: nat): Bytes { if node in disks then disks[node] else [] }

  predicate Readable(d: Bytes, block: nat) { (block + 1) * BLOCK <= |d| }

  function BlockAt(d: Bytes, block: nat): Bytes
    requires Readable(d, block)
  {
    d[block * BLOCK..(block + 1) * BLOCK]
  }

  // ---------------------------------------------------------------- a cache that agrees with the devices

  ghost predicate Holds(s: Slot, disks: Disks) {
    Readable(DiskOf(disks, s.key.node), s.key.block) && s.data == BlockAt(DiskOf(disks, s.key.node), s.key.block)
  }

  ghost predicate Coherent(c: Cache, disks: Disks) {
    forall i :: 0 <= i < |c.slots| ==> !c.slots[i].loading && (c.slots[i].valid ==> Holds(c.slots[i], disks))
  }

  ghost predicate Sound(c: Cache, h: Hash, disks: Disks) { Linked(c, h) && Keyed(c) && Coherent(c, disks) }

  /** The block has a valid entry. */
  ghost predicate Cached(c: Cache, h: Hash, k: Key) {
    match Find(c, h, k)
    case Some(i) => i < |c.slots| && c.slots[i].valid && c.slots[i].key == k
    case None => false
  }

  /** Changing one entry keeps the cache sound if the entry agrees with its device and its key is its own. */
  lemma OneEntry(c: Cache, r: Cache, h: Hash, disks: Disks, i: nat)
    requires Sound(c, h, disks) && Linked(r, h) && i < ENTRIES
    requires forall j: nat :: j < ENTRIES && j != i ==> r.slots[j] == c.slots[j]
    requires !r.slots[i].loading && (r.slots[i].valid ==> Holds(r.slots[i], disks))
    requires r.slots[i].valid ==> forall j: nat :: Live(c, j) && j != i ==> c.slots[j].key != r.slots[i].key
    ensures Sound(r, h, disks)
  {
    forall j: nat | Live(r, j) ensures Sole(r, j) {
      if j != i { assert Sole(c, j); }
    }
  }

  lemma FindsLive(c: Cache, h: Hash, i: nat)
    requires Linked(c, h) && Keyed(c) && Live(c, i)
    ensures Find(c, h, c.slots[i].key) == Some(i)
  {
    FindIsExact(c, h, c.slots[i].key);
    assert Sole(c, i);
  }

  lemma TouchSound(c: Cache, h: Hash, disks: Disks, i: nat)
    requires Sound(c, h, disks) && Live(c, i)
    ensures Sound(Touch(c, i), h, disks) && Cached(Touch(c, i), h, c.slots[i].key)
  {
    TouchLinked(c, h, i);
    assert Sole(c, i);
    OneEntry(c, Touch(c, i), h, disks, i);
    FindsLive(Touch(c, i), h, i);
  }

  /** Giving an idle entry to a block that has none, with that block's data. */
  lemma EnterSound(c: Cache, h: Hash, disks: Disks, i: nat, slot: Slot)
    requires Sound(c, h, disks) && i < ENTRIES && slot.valid && !slot.loading && Holds(slot, disks)
    requires Find(c, h, slot.key) == None
    ensures Sound(Enter(c, h, i, slot), h, disks) && Cached(Enter(c, h, i, slot), h, slot.key)
  {
    FindIsExact(c, h, slot.key);
    EnterLinked(c, h, i, slot);
    OneEntry(c, Enter(c, h, i, slot), h, disks, i);
    FindsLive(Enter(c, h, i, slot), h, i);
  }

  // ---------------------------------------------------------------- device operations

  method DeviceRead(d: Bytes, offset: nat, size: nat) returns (data: Bytes)
    ensures |data| <= size && (data != [] ==> offset + |data| <= |d| && data == d[offset..offset + |data|])
    ensures offset + size <= |d| ==> |data| == size
  {
    if offset + size <= |d| { return d[offset..offset + size]; }
    var cut: int := *;
    if cut < 0 || size <= cut || |d| < offset + cut { return []; }
    data := d[offset..offset + cut];
  }

  /** The device with `data` written at an offset. */
  function Spliced(d: Bytes, offset: nat, data: Bytes): (r: Bytes)
    requires offset + |data| <= |d|
    ensures |r| == |d|
  {
    d[..offset] + data + d[offset + |data|..]
  }

  method DeviceWrite(d: Bytes, offset: nat, data: Bytes) returns (written: nat, r: Bytes)
    ensures written <= |data| && (written == 0 || offset + written <= |d|)
    ensures r == if written == 0 then d else Spliced(d, offset, data[..written])
    ensures offset + |data| <= |d| ==> written == |data|
  {
    written := |data|;
    if |d| < offset + |data| {
      var cut: int := *;
      written := if 0 <= cut < |data| && offset + cut <= |d| then cut else 0;
    }
    r := if written == 0 then d else Spliced(d, offset, data[..written]);
  }

  // ---------------------------------------------------------------- loading one block

  method Load(c: Cache, h: Hash, disks: Disks, node: nat, block: nat) returns (ok: bool, r: Cache)
    requires Sound(c, h, disks) && block <= UINT64_MAX / BLOCK
    ensures Sound(r, h, disks)
    ensures ok <==> Readable(DiskOf(disks, node), block)
    ensures ok ==> Cached(r, h, Key(node, block))
  {
    var k := Key(node, block);
    var found := Find(c, h, k);
    FindIsExact(c, h, k);
    if found.Some? {
      TouchSound(c, h, disks, found.value);
      return true, Touch(c, found.value);
    }
    PickIsIdle(c, h);
    assert !c.slots[0].loading;
    var i := Pick(c).value;
    var slot := c.slots[i].(key := k, valid := false, loading := true, discard := false);
    var begun := Enter(c, h, i, slot);
    var data := DeviceRead(DiskOf(disks, node), block * BLOCK, BLOCK);
    var done := slot.(data := data, loading := false);
    EnterLinked(c, h, i, slot);
    ok := |data| == BLOCK;
    if ok {
      r := Touch(begun.(slots := begun.slots[i := done.(valid := true)]), i);
      Published(c, h, disks, i, slot, done.(valid := true));
    } else {
      r := Leave(begun, h, i, done);
      LeaveLinked(begun, h, i, done);
      OneEntry(c, r, h, disks, i);
    }
  }

  lemma Published(c: Cache, h: Hash, disks: Disks, i: nat, slot: Slot, done: Slot)
    requires Sound(c, h, disks) && i < ENTRIES && slot.loading && Find(c, h, slot.key) == None
    requires done.key == slot.key && done.valid && !done.loading && Holds(done, disks)
    ensures var b := Enter(c, h, i, slot);
            var r := Touch(b.(slots := b.slots[i := done]), i);
            Sound(r, h, disks) && Cached(r, h, slot.key)
  {
    var b := Enter(c, h, i, slot);
    EnterLinked(c, h, i, slot);
    UpdateLinked(b, h, i, done);
    var p := b.(slots := b.slots[i := done]);
    TouchLinked(p, h, i);
    FindIsExact(c, h, slot.key);
    OneEntry(c, Touch(p, i), h, disks, i);
    FindsLive(Touch(p, i), h, i);
  }

  method LoadMissing(c: Cache, h: Hash, disks: Disks, node: nat, block: nat) returns (r: Cache)
    requires Sound(c, h, disks) && block <= UINT64_MAX / BLOCK
    ensures Sound(r, h, disks) && (Readable(DiskOf(disks, node), block) ==> Cached(r, h, Key(node, block)))
    ensures Cached(c, h, Key(node, block)) ==> r == c
  {
    r := c;
    FindIsExact(c, h, Key(node, block));
    if Find(c, h, Key(node, block)) == None {
      var ok;
      ok, r := Load(c, h, disks, node, block);
    }
  }

  /** Number of blocks readahead looks at. */
  function AheadBlocks(first: nat, last: nat): nat { if last < first then 0 else Min(READAHEAD_BLOCKS, last - first + 1) }

  /**
   Readahead only changes which blocks are cached: nothing if all were, and at the end the last one
   it looked at is, if it can be read.
   */
  method Prefetch(c: Cache, h: Hash, disks: Disks, node: nat, first: nat, last: nat) returns (r: Cache)
    requires Sound(c, h, disks) && last <= UINT64_MAX / BLOCK
    ensures Sound(r, h, disks)
    ensures var n := AheadBlocks(first, last);
            n > 0 && Readable(DiskOf(disks, node), first + n - 1) ==> Cached(r, h, Key(node, first + n - 1))
    ensures (forall b: nat :: first <= b < first + AheadBlocks(first, last) ==> Cached(c, h, Key(node, b))) ==> r == c
  {
    r := c;
    var i := 0;
    while i < READAHEAD_BLOCKS
      invariant i <= AheadBlocks(first, last) && Sound(r, h, disks)
      invariant i > 0 && Readable(DiskOf(disks, node), first + i - 1) ==> Cached(r, h, Key(node, first + i - 1))
      invariant (forall b: nat :: first <= b < first + i ==> Cached(c, h, Key(node, b))) ==> r == c
    {
      var block := first + i;
      if last < block { return; }
      r := LoadMissing(r, h, disks, node, block);
      i := i + 1;
    }
  }

  // ---------------------------------------------------------------- runs of whole blocks

  /** Copies out all the cached blocks a run starts with, up to 16. */
  method CopyHotRun(c: Cache, h: Hash, ghost disks: Disks, node: nat, first: nat, blocks: nat)
    returns (out: Bytes, r: Cache)
    requires Sound(c, h, disks)
    ensures Sound(r, h, disks)
    ensures |out| % BLOCK == 0 && |out| <= blocks * BLOCK
    ensures var d := DiskOf(disks, node);
            out != [] ==> first * BLOCK + |out| <= |d| && out == d[first * BLOCK..first * BLOCK + |out|]
    ensures |out| < Min(blocks, 16) * BLOCK ==> Find(r, h, Key(node, first + |out| / BLOCK)) == None
  {
    out, r := [], c;
    var copied := 0;
    ghost var d := DiskOf(disks, node);
    while copied < blocks && copied < 16
      invariant copied <= blocks && |out| == copied * BLOCK && Sound(r, h, disks)
      invariant out != [] ==> (first + copied) * BLOCK <= |d| && out == d[first * BLOCK..(first + copied) * BLOCK]
    {
      var k := Key(node, first + copied);
      var found := Find(r, h, k);
      FindIsExact(r, h, k);
      if found.None? { break; }
      TouchSound(r, h, disks, found.value);
      var data := r.slots[found.value].data;
      r := Touch(r, found.value);
      Appended(d, out, data, first * BLOCK, (first + copied) * BLOCK, (first + copied + 1) * BLOCK);
      out, copied := out + data, copied + 1;
    }
  }

  lemma Appended(d: Bytes, x: Bytes, y: Bytes, from: nat, mid: nat, to: nat)
    requires from <= mid <= to <= |d| && |x| == mid - from
    requires (x != [] ==> x == d[from..mid]) && y == d[mid..to]
    ensures x + y == d[from..to]
  {
  }

  /** How many blocks from `first` on have no entry, looking at no more than 16. */
  method UncachedRun(c: Cache, h: Hash, node: nat, first: nat, blocks: nat) returns (run: nat)
    requires Linked(c, h)
    ensures run <= blocks && run <= BATCH_BLOCKS
    ensures forall b: nat :: first <= b < first + run ==> Find(c, h, Key(node, b)) == None
    ensures run < blocks && run < BATCH_BLOCKS ==> Find(c, h, Key(node, first + run)) != None
  {
    run := 0;
    while run < blocks && run < BATCH_BLOCKS && Find(c, h, Key(node, first + run)) == None
      invariant run <= blocks && run <= BATCH_BLOCKS
      invariant forall b: nat :: first <= b < first + run ==> Find(c, h, Key(node, b)) == None
    {
      run := run + 1;
    }
  }

  /** The n most recently used entries are those of the n blocks from `first` on, the last one first. */
  ghost predicate Recent(c: Cache, node: nat, first: nat, n: nat) {
    && n <= |c.lru|
    && forall j :: 0 <= j < n ==> Live(c, c.lru[j]) && c.slots[c.lru[j]].key == Key(node, first + n - 1 - j)
  }

  /** Making one more entry the most recent keeps the others behind it. */
  lemma RecentGrows(c: Cache, r: Cache, node: nat, first: nat, n: nat, i: nat)
    requires Recent(c, node, first, n) && r.lru == [i] + Without(c.lru, i) && i !in c.lru[..n]
    requires Live(r, i) && r.slots[i].key == Key(node, first + n)
    requires forall j: nat :: j != i && Live(c, j) ==> Live(r, j) && r.slots[j] == c.slots[j]
    ensures Recent(r, node, first, n + 1)
  {
    WithoutBehind(c.lru, i, n);
    forall j | 0 <= j < n + 1 ensures Live(r, r.lru[j]) && r.slots[r.lru[j]].key == Key(node, first + n - j) {
      if j > 0 {
        assert r.lru[j] == Without(c.lru, i)[..n][j - 1] == c.lru[..n][j - 1];
        assert c.lru[j - 1] in c.lru[..n];
      }
    }
  }

  /** With no load in progress the victim is not among the most recent entries. */
  lemma VictimIsOld(c: Cache, h: Hash, disks: Disks, node: nat, first: nat, n: nat)
    requires Sound(c, h, disks) && Recent(c, node, first, n) && n < ENTRIES
    ensures Pick(c).Some? ==> Pick(c).value !in c.lru[..n]
  {
    PickIsIdle(c, h);
    if c.free == [] && Pick(c).Some? {
      forall i: nat | i < ENTRIES ensures i in c.lru { assert i !in c.free; }
      LongEnough(c.lru, ENTRIES);
      assert c.lru[|c.lru| - 1] in c.lru;
      LastOfAll(c, c.lru, Pick(c).value);
    }
  }

  lemma RecentIsCached(c: Cache, h: Hash, disks: Disks, node: nat, first: nat, n: nat, b: nat)
    requires Sound(c, h, disks) && Recent(c, node, first, n) && first <= b < first + n
    ensures Cached(c, h, Key(node, b))
  {
    FindsLive(c, h, c.lru[first + n - 1 - b]);
  }

  /** Caches blocks just read from the device, up to 16; all of them are then cached. */
  method InstallRun(c: Cache, h: Hash, ghost disks: Disks, node: nat, first: nat, blocks: nat, src: Bytes) returns (r: Cache)
    requires Sound(c, h, disks) && blocks * BLOCK <= |src| && (first + blocks) * BLOCK <= |DiskOf(disks, node)|
    requires src[..blocks * BLOCK] == DiskOf(disks, node)[first * BLOCK..(first + blocks) * BLOCK]
    ensures Sound(r, h, disks)
    ensures forall b: nat :: first <= b < first + Min(blocks, BATCH_BLOCKS) ==> Cached(r, h, Key(node, b))
  {
    r := c;
    var i := 0;
    while i < blocks && i < BATCH_BLOCKS
      invariant i <= blocks && i <= BATCH_BLOCKS && Sound(r, h, disks) && Recent(r, node, first, i)
    {
      var data := src[i * BLOCK..(i + 1) * BLOCK];
      InstalledData(src, DiskOf(disks, node), first, blocks, i);
      r := InstallOne(r, h, disks, node, first, i, data);
      i := i + 1;
    }
    forall b: nat | first <= b < first + i { RecentIsCached(r, h, disks, node, first, i, b); }
  }

  lemma RefillRecent(c: Cache, h: Hash, disks: Disks, node: nat, first: nat, n: nat, i: nat, slot: Slot)
    requires Sound(c, h, disks) && Recent(c, node, first, n) && Live(c, i) && slot.key == c.slots[i].key == Key(node, first + n)
    requires slot.valid && !slot.loading && Holds(slot, disks)
    ensures var r := Touch(c.(slots := c.slots[i := slot]), i); Sound(r, h, disks) && Recent(r, node, first, n + 1)
  {
    Refilled(c, h, disks, i, slot);
    RecentGrows(c, Touch(c.(slots := c.slots[i := slot]), i), node, first, n, i);
  }

  lemma EnterRecent(c: Cache, h: Hash, disks: Disks, node: nat, first: nat, n: nat, i: nat, slot: Slot)
    requires Sound(c, h, disks) && Recent(c, node, first, n) && i < ENTRIES && i !in c.lru[..n]
    requires slot.valid && !slot.loading && Holds(slot, disks) && slot.key == Key(node, first + n) && Find(c, h, slot.key) == None
    ensures Sound(Enter(c, h, i, slot), h, disks) && Recent(Enter(c, h, i, slot), node, first, n + 1)
  {
    EnterSound(c, h, disks, i, slot);
    RecentGrows(c, Enter(c, h, i, slot), node, first, n, i);
  }

  /** Fills the entry of a block, or a victim, and makes it the most recent. */
  method InstallOne(c: Cache, h: Hash, ghost disks: Disks, node: nat, first: nat, i: nat, data: Bytes) returns (r: Cache)
    requires Sound(c, h, disks) && Recent(c, node, first, i) && i < BATCH_BLOCKS
    requires Readable(DiskOf(disks, node), first + i) && data == BlockAt(DiskOf(disks, node), first + i)
    ensures Sound(r, h, disks) && Recent(r, node, first, i + 1)
  {
    var k := Key(node, first + i);
    var found := Find(c, h, k);
    FindIsExact(c, h, k);
    if found.Some? {
      var slot := c.slots[found.value].(data := data, discard := false);
      RefillRecent(c, h, disks, node, first, i, found.value, slot);
      r := Touch(c.(slots := c.slots[found.value := slot]), found.value);
    } else {
      PickIsIdle(c, h);
      assert !c.slots[0].loading;
      VictimIsOld(c, h, disks, node, first, i);
      var victim := Pick(c).value;
      var slot := c.slots[victim].(key := k, data := data, valid := true, discard := false);
      EnterRecent(c, h, disks, node, first, i, victim, slot);
      r := Enter(c, h, victim, slot);
    }
  }

  lemma InstalledData(src: Bytes, d: Bytes, first: nat, blocks: nat, i: nat)
    requires i < blocks && blocks * BLOCK <= |src| && (first + blocks) * BLOCK <= |d|
    requires src[..blocks * BLOCK] == d[first * BLOCK..(first + blocks) * BLOCK]
    ensures Readable(d, first + i) && src[i * BLOCK..(i + 1) * BLOCK] == BlockAt(d, first + i)
  {
    SubSlice(src, 0, blocks * BLOCK, i * BLOCK, (i + 1) * BLOCK);
    SubSlice(d, first * BLOCK, (first + blocks) * BLOCK, i * BLOCK, (i + 1) * BLOCK);
    assert src[0..blocks * BLOCK] == src[..blocks * BLOCK];
  }

  lemma SubSlice(s: Bytes, a: nat, b: nat, i: nat, j: nat)
    requires a <= b <= |s| && i <= j <= b - a
    ensures s[a..b][i..j] == s[a + i..a + j]
  {
    assert forall k :: 0 <= k < j - i ==> s[a..b][i..j][k] == s[a..b][i + k] == s[a + i..a + j][k];
  }

  lemma Refilled(c: Cache, h: Hash, disks: Disks, i: nat, slot: Slot)
    requires Sound(c, h, disks) && Live(c, i) && slot.key == c.slots[i].key
    requires slot.valid && !slot.loading && Holds(slot, disks)
    ensures Sound(Touch(c.(slots := c.slots[i := slot]), i), h, disks)
  {
    UpdateLinked(c, h, i, slot);
    var p := c.(slots := c.slots[i := slot]);
    TouchLinked(p, h, i);
    assert Sole(c, i);
    OneEntry(c, Touch(p, i), h, disks, i);
  }

  // ---------------------------------------------------------------- cached reads

  /** Every block that the range touches lies wholly inside the device. */
  ghost predicate FullyReadable(d: Bytes, offset: nat, size: nat) {
    size == 0 || Readable(d, (offset + size - 1) / BLOCK)
  }

  predicate DirectIo(offset: nat, size: nat) { size >= DIRECT_MIN && offset % BLOCK == 0 && size % BLOCK == 0 }

  /** The part of a large aligned request that goes straight to the device. */
  function AlignedTail(offset: nat, size: nat): (r: nat)
    ensures r <= size
  {
    if offset % BLOCK != 0 || size < DIRECT_MIN then 0 else size - size % BLOCK
  }

  /** What a read has returned so far: the device bytes from the offset on. */
  ghost predicate IsPrefix(d: Bytes, offset: nat, out: Bytes) {
    out != [] ==> offset + |out| <= |d| && out == d[offset..offset + |out|]
  }

  lemma PrefixGrows(d: Bytes, offset: nat, out: Bytes, more: Bytes)
    requires IsPrefix(d, offset, out) && IsPrefix(d, offset + |out|, more)
    ensures IsPrefix(d, offset, out + more)
  {
    if more == [] {
      assert out + more == out;
    } else {
      Appended(d, out, more, offset, offset + |out|, offset + |out| + |more|);
    }
  }

  /** Copies part of a cached block. */
  method CopyOut(c: Cache, h: Hash, ghost disks: Disks, node: nat, block: nat, start: nat, n: nat) returns (out: Bytes, r: Cache)
    requires Sound(c, h, disks) && Cached(c, h, Key(node, block)) && start + n <= BLOCK
    ensures Sound(r, h, disks) && |out| == n
    ensures IsPrefix(DiskOf(disks, node), block * BLOCK + start, out)
  {
    var i := Find(c, h, Key(node, block)).value;
    out := c.slots[i].data[start..start + n];
    SubSlice(DiskOf(disks, node), block * BLOCK, (block + 1) * BLOCK, start, start + n);
    TouchSound(c, h, disks, i);
    r := Touch(c, i);
  }

  /** One block of the read, through the cache, and readahead when its end is reached. */
  method ReadInBlock(c: Cache, h: Hash, disks: Disks, node: nat, abs: nat, left: nat)
    returns (more: Bytes, stop: bool, r: Cache)
    requires Sound(c, h, disks) && 0 < left && abs + left <= UINT64_MAX
    ensures Sound(r, h, disks) && IsPrefix(DiskOf(disks, node), abs, more) && |more| <= left
    ensures stop <==> more == []
    ensures Readable(DiskOf(disks, node), abs / BLOCK) ==> !stop
  {
    var block := abs / BLOCK;
    var start := abs % BLOCK;
    var chunk := if BLOCK - start > left then left else BLOCK - start;
    var ok;
    ok, r := Load(c, h, disks, node, block);
    if !ok { return [], true, r; }
    stop := false;
    more, r := CopyOut(r, h, disks, node, block, start, chunk);
    if start + chunk == BLOCK && chunk < left {
      r := Prefetch(r, h, disks, node, block + 1, (abs + left - 1) / BLOCK);
    }
  }

  /** Whole uncached blocks, read at once and then cached. */
  method ReadBatch(c: Cache, h: Hash, disks: Disks, node: nat, abs: nat, run: nat)
    returns (more: Bytes, stop: bool, r: Cache)
    requires Sound(c, h, disks) && abs % BLOCK == 0 && 0 < run
    ensures Sound(r, h, disks) && IsPrefix(DiskOf(disks, node), abs, more) && |more| <= run * BLOCK
    ensures !stop <==> |more| == run * BLOCK
    ensures abs + run * BLOCK <= |DiskOf(disks, node)| ==> !stop
  {
    var d := DiskOf(disks, node);
    more := DeviceRead(d, abs, run * BLOCK);
    r, stop := c, |more| != run * BLOCK;
    var whole := |more| / BLOCK;
    if whole != 0 {
      SubSlice(d, abs, abs + |more|, 0, whole * BLOCK);
      assert more[..whole * BLOCK] == more[0..whole * BLOCK];
      r := InstallRun(r, h, disks, node, abs / BLOCK, whole, more);
    }
  }

  /** One turn of the read loop: some more bytes, and whether the read ends short here. */
  method ReadSome(c: Cache, h: Hash, disks: Disks, node: nat, abs: nat, left: nat)
    returns (more: Bytes, stop: bool, r: Cache)
    requires Sound(c, h, disks) && 0 < left && abs + left <= UINT64_MAX
    ensures Sound(r, h, disks) && IsPrefix(DiskOf(disks, node), abs, more) && |more| <= left
    ensures !stop ==> more != []
    ensures FullyReadable(DiskOf(disks, node), abs, left) ==> !stop
  {
    var direct := AlignedTail(abs, left);
    if direct != 0 {
      more := DeviceRead(DiskOf(disks, node), abs, direct);
      return more, |more| != direct, c;
    }
    r := c;
    if abs % BLOCK == 0 && left >= BLOCK {
      more, r := CopyHotRun(r, h, disks, node, abs / BLOCK, left / BLOCK);
      if more != [] { return more, false, r; }
      var run := UncachedRun(r, h, node, abs / BLOCK, left / BLOCK);
      if run >= BATCH_MIN {
        more, stop, r := ReadBatch(r, h, disks, node, abs, run);
        return;
      }
    }
    more, stop, r := ReadInBlock(r, h, disks, node, abs, left);
  }

  /**
   A cached read returns the device's own bytes, and as many as were asked for when every block it
   touches is wholly on the device.
   */
  method CachedRead(c: Cache, h: Hash, disks: Disks, node: nat, offset: nat, size: nat) returns (out: Bytes, r: Cache)
    requires Sound(c, h, disks) && offset <= UINT64_MAX && size <= UINT64_MAX
    ensures Sound(r, h, disks)
    ensures |out| <= size && IsPrefix(DiskOf(disks, node), offset, out)
    ensures offset + size <= UINT64_MAX && FullyReadable(DiskOf(disks, node), offset, size) ==> |out| == size
  {
    ghost var d := DiskOf(disks, node);
    out, r := [], c;
    if size > UINT64_MAX - offset { return; }
    if DirectIo(offset, size) {
      out := DeviceRead(DiskOf(disks, node), offset, size);
      return;
    }
    while |out| < size
      invariant |out| <= size && Sound(r, h, disks) && IsPrefix(d, offset, out)
      decreases size - |out|
    {
      var more, stop;
      more, stop, r := ReadSome(r, h, disks, node, offset + |out|, size - |out|);
      PrefixGrows(d, offset, out, more);
      out := out + more;
      if stop { return; }
    }
  }

  // ---------------------------------------------------------------- cached writes

  /** Writing some bytes leaves every block they do not touch as it was. */
  lemma OtherBlocks(d: Bytes, offset: nat, data: Bytes, block: nat)
    requires data != [] && offset + |data| <= |d| && Readable(d, block)
    requires block < offset / BLOCK || (offset + |data| - 1) / BLOCK < block
    ensures BlockAt(Spliced(d, offset, data), block) == BlockAt(d, block)
  {
  }

  /** A write goes to the device and drops what it overwrote from the cache. */
  method CachedWrite(c: Cache, h: Hash, disks: Disks, node: nat, offset: nat, data: Bytes)
    returns (written: nat, r: Cache, after: Disks)
    requires Sound(c, h, disks) && node in disks && offset <= UINT64_MAX && |data| <= UINT64_MAX
    ensures Sound(r, h, after)
    ensures written <= |data| && (written != 0 ==> offset + written <= |disks[node]|)
    ensures after == if written == 0 then disks else disks[node := Spliced(disks[node], offset, data[..written])]
    ensures offset + |data| <= UINT64_MAX && offset + |data| <= |disks[node]| ==> written == |data|
  {
    written, r, after := 0, c, disks;
    if |data| > UINT64_MAX - offset { return; }
    var d;
    written, d := DeviceWrite(disks[node], offset, data);
    if written != 0 {
      after := disks[node := d];
      var first, last := offset / BLOCK, (offset + written - 1) / BLOCK;
      InvalidateIsExact(c, h, node, first, last);
      r := Invalidated(c, h, node, first, last);
      forall i | 0 <= i < ENTRIES && r.slots[i].valid ensures Holds(r.slots[i], after) {
        if r.slots[i].key.node == node { OtherBlocks(disks[node], offset, data[..written], r.slots[i].key.block); }
      }
    }
  }

  /** The block layer: the devices and the one cache in front of them. */
  class BlockLayer {
    const hash: Hash
    var cache: Cache
    var disks: Disks

    ghost predicate Valid()
      reads this
    {
      Sound(cache, hash, disks)
    }

    constructor (hash: Hash, disks: Disks)
      ensures Valid() && this.disks == disks && cache.lru == [] && |cache.free| == ENTRIES
    {
      var slot := Slot(Key(0, 0), false, false, false, [], 0);
      this.hash, this.cache, this.disks := hash, Empty(slot), disks;
      EmptyLinked(slot, hash);
    }

    method Read(node: nat, offset: nat, size: nat) returns (out: Bytes)
      requires Valid() && offset <= UINT64_MAX && size <= UINT64_MAX
      modifies this`cache
      ensures Valid()
      ensures |out| <= size && IsPrefix(DiskOf(disks, node), offset, out)
      ensures offset + size <= UINT64_MAX && FullyReadable(DiskOf(disks, node), offset, size) ==> |out| == size
    {
      out, cache := CachedRead(cache, hash, disks, node, offset, size);
    }

    method Write(node: nat, offset: nat, data: Bytes) returns (written: nat)
      requires Valid() && node in disks && offset <= UINT64_MAX && |data| <= UINT64_MAX
      modifies this
      ensures Valid()
      ensures written <= |data| && (written != 0 ==> offset + written <= |old(disks)[node]|)
      ensures disks == if written == 0 then old(disks)
                       else old(disks)[node := Spliced(old(disks)[node], offset, data[..written])]
      ensures offset + |data| <= UINT64_MAX && offset + |data| <= |old(disks)[node]| ==> written == |data|
    {
      written, cache, disks := CachedWrite(cache, hash, disks, node, offset, data);
    }
  }
}
