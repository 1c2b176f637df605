/**
 Readers and writers of block devices sharing the block cache. A step is one critical section of the
 cache lock, or one device operation on one block, done without the lock; every interleaving of
 steps by any number of threads is a run.
 */
module CacheCoherence {
  import opened Common
  import opened BlockCache

  /** How far the load of an entry has come: no device read yet, or one that was full or short. */
  datatype Phase = Began | Got(full: bool)

  /** A write in progress to blocks first, first + 1, ... ; `wrote` gives the version each write made. */
  datatype Writer = Writer(node: nat, first: nat, next: nat, wrote: map<Key, nat>)

  /** For each block all it ever held, present contents last, and the writes in progress by thread. */
  datatype Disk = Disk(history: map<Key, seq<Data>>, writers: map<nat, Writer>)

  /** The cache, the loads in progress by entry, and the devices. */
  datatype System = System(cache: Cache, loads: map<nat, Phase>, disk: Disk)

  datatype Step =
    | Hit(key: Key)                                 // find a valid entry and use it
    | Begin(key: Key)                               // no entry: claim one and mark it loading
    | DeviceRead(index: nat, full: bool, data: Data) // outside the lock; data is what a short read left
    | Finish(index: nat)                            // publish the load or drop it
    | StartWrite(thread: nat, node: nat, first: nat)
    | DeviceWrite(thread: nat, data: Data)          // outside the lock: the next block of the write
    | Invalidate(thread: nat)                       // drop the written range; the write returns

  // ---------------------------------------------------------------- steps

  function HitStep(s: System, h: Hash, k: Key): System {
    match Find(s.cache, h, k)
    case Some(i) => if Live(s.cache, i) && s.cache.slots[i].valid then s.(cache := Touch(s.cache, i)) else s
    case None => s
  }

  function BeginStep(s: System, h: Hash, k: Key): System {
    if Find(s.cache, h, k) != None then s
    else match Pick(s.cache)
      case None => s
      case Some(i) =>
        if i < |s.cache.slots| then
          var slot := s.cache.slots[i].(key := k, valid := false, loading := true, discard := false);
          s.(cache := Enter(s.cache, h, i, slot), loads := s.loads[i := Began])
        else s
  }

  function Stored(c: Cache, i: nat, slot: Slot): Cache
    requires i < |c.slots|
  {
    c.(slots := c.slots[i := slot])
  }

  function ReadStep(s: System, i: nat, full: bool, junk: Data): System {
    if !(i < |s.cache.slots| && i in s.loads && s.loads[i] == Began) then s
    else
      var slot := s.cache.slots[i];
      if full && slot.key in s.disk.history && s.disk.history[slot.key] != [] then
        var v := |s.disk.history[slot.key]| - 1;
        s.(cache := Stored(s.cache, i, slot.(data := s.disk.history[slot.key][v], version := v)),
           loads := s.loads[i := Got(true)])
      else
        s.(cache := Stored(s.cache, i, slot.(data := junk)), loads := s.loads[i := Got(false)])
  }

  function FinishStep(s: System, h: Hash, i: nat): System {
    if !(i < |s.cache.slots| && i in s.loads && s.loads[i].Got?) then s
    else
      var slot := s.cache.slots[i];
      var c :=
        if s.loads[i].full && !slot.discard then
          Touch(Stored(s.cache, i, slot.(valid := true, loading := false)), i)
        else
          Leave(s.cache, h, i, slot.(valid := false, loading := false, discard := false));
      s.(cache := c, loads := s.loads - {i})
  }

  function StartWriter(d: Disk, t: nat, node: nat, first: nat): Disk {
    if t in d.writers then d else d.(writers := d.writers[t := Writer(node, first, first, map[])])
  }

  function WriteBlock(d: Disk, t: nat, data: Data): Disk {
    if t !in d.writers then d
    else
      var w := d.writers[t];
      var k := Key(w.node, w.next);
      if k !in d.history then d
      else
        Disk(d.history[k := d.history[k] + [data]],
             d.writers[t := w.(next := w.next + 1, wrote := w.wrote[k := |d.history[k]|])])
  }

  function InvalidatedBy(c: Cache, h: Hash, w: Writer): Cache
    requires |c.slots| == ENTRIES
  {
    if w.first < w.next then Invalidated(c, h, w.node, w.first, w.next - 1) else c
  }

  function InvalidateStep(s: System, h: Hash, t: nat): System
    requires |s.cache.slots| == ENTRIES
  {
    if t !in s.disk.writers then s
    else
      var w := s.disk.writers[t];
      s.(cache := InvalidatedBy(s.cache, h, w), disk := s.disk.(writers := s.disk.writers - {t}))
  }

  function Next(s: System, h: Hash, step: Step): System
    requires |s.cache.slots| == ENTRIES
  {
    match step
    case Hit(k) => HitStep(s, h, k)
    case Begin(k) => BeginStep(s, h, k)
    case DeviceRead(i, full, junk) => ReadStep(s, i, full, junk)
    case Finish(i) => FinishStep(s, h, i)
    case StartWrite(t, node, first) => s.(disk := StartWriter(s.disk, t, node, first))
    case DeviceWrite(t, data) => s.(disk := WriteBlock(s.disk, t, data))
    case Invalidate(t) => InvalidateStep(s, h, t)
  }

  // ---------------------------------------------------------------- what every step keeps

  /** Version v of a block was written by a write that has not returned. */
  ghost predicate InFlight(d: Disk, k: Key, v: nat) {
    exists t :: t in d.writers && k in d.writers[t].wrote && d.writers[t].wrote[k] == v
  }

  /** The entry holds a version of its block such that every newer one is by a write in progress. */
  ghost predicate Fresh(d: Disk, slot: Slot) {
    && slot.key in d.history && slot.version < |d.history[slot.key]|
    && slot.data == d.history[slot.key][slot.version]
    && forall v: nat :: slot.version < v < |d.history[slot.key]| ==> InFlight(d, slot.key, v)
  }

  /** The entry has data that readers may see, or that its load is about to publish. */
  ghost predicate Publishable(s: System, i: nat)
    requires i < |s.cache.slots|
  {
    s.cache.slots[i].valid || (i in s.loads && s.loads[i] == Got(true) && !s.cache.slots[i].discard)
  }

  ghost predicate WriterOk(d: Disk, w: Writer) {
    w.first <= w.next &&
    forall k :: k in w.wrote ==> k.node == w.node && w.first <= k.block < w.next && k in d.history
  }

  ghost predicate WritersOk(d: Disk) { forall t :: t in d.writers ==> WriterOk(d, d.writers[t]) }

  ghost predicate LoadsOk(s: System) {
    forall i: nat :: i in s.loads <==> i < |s.cache.slots| && s.cache.slots[i].loading
  }

  ghost predicate AllFresh(s: System) {
    forall i: nat :: i < |s.cache.slots| && Publishable(s, i) ==> Fresh(s.disk, s.cache.slots[i])
  }

  ghost predicate Inv(s: System, h: Hash) {
    Linked(s.cache, h) && Keyed(s.cache) && LoadsOk(s) && WritersOk(s.disk) && AllFresh(s)
  }

  lemma HitKeeps(s: System, h: Hash, k: Key)
    requires Inv(s, h)
    ensures Inv(HitStep(s, h, k), h)
  {
    FindIsExact(s.cache, h, k);
    match Find(s.cache, h, k)
    case Some(i) =>
      TouchLinked(s.cache, h, i);
      assert Sole(s.cache, i);
      OneEntry(s, HitStep(s, h, k), h, i);
    case None =>
  }

  /** A step that changes one entry and its load only: what the rest of the invariant asks of it. */
  lemma OneEntry(s: System, r: System, h: Hash, i: nat)
    requires Inv(s, h) && r.disk == s.disk && Linked(r.cache, h) && i < ENTRIES
    requires forall j: nat :: j < ENTRIES && j != i ==>
               r.cache.slots[j] == s.cache.slots[j] && (j in r.loads <==> j in s.loads)
               && (j in s.loads ==> r.loads[j] == s.loads[j])
    requires forall j: nat :: Live(s.cache, j) && j != i && Live(r.cache, i) ==> s.cache.slots[j].key != r.cache.slots[i].key
    requires r.cache.slots[i].valid ==> !r.cache.slots[i].loading
    requires r.loads.Keys <= s.loads.Keys + {i} && (i in r.loads <==> r.cache.slots[i].loading)
    requires Publishable(r, i) ==> Fresh(r.disk, r.cache.slots[i])
    ensures Inv(r, h)
  {
    forall j: nat | j < ENTRIES && Publishable(r, j) ensures Fresh(r.disk, r.cache.slots[j]) {
      if j != i { assert Publishable(s, j); }
    }
    forall j: nat | Live(r.cache, j) ensures Sole(r.cache, j) {
      if j != i { assert Sole(s.cache, j); }
    }
  }

  lemma BeginKeeps(s: System, h: Hash, k: Key)
    requires Inv(s, h)
    ensures Inv(BeginStep(s, h, k), h)
  {
    FindIsExact(s.cache, h, k);
    PickIsIdle(s.cache, h);
    if Find(s.cache, h, k) == None && Pick(s.cache) != None {
      var i := Pick(s.cache).value;
      EnterLinked(s.cache, h, i, s.cache.slots[i].(key := k, valid := false, loading := true, discard := false));
      OneEntry(s, BeginStep(s, h, k), h, i);
    }
  }

  lemma ReadKeeps(s: System, h: Hash, i: nat, full: bool, junk: Data)
    requires Inv(s, h)
    ensures Inv(ReadStep(s, i, full, junk), h)
  {
    if i < ENTRIES && i in s.loads && s.loads[i] == Began {
      var r := ReadStep(s, i, full, junk);
      UpdateLinked(s.cache, h, i, r.cache.slots[i]);
      assert Sole(s.cache, i);
      OneEntry(s, r, h, i);
    }
  }

  lemma FinishKeeps(s: System, h: Hash, i: nat)
    requires Inv(s, h)
    ensures Inv(FinishStep(s, h, i), h)
  {
    if i < ENTRIES && i in s.loads && s.loads[i].Got? {
      var slot := s.cache.slots[i];
      if s.loads[i].full && !slot.discard {
        var done := slot.(valid := true, loading := false);
        UpdateLinked(s.cache, h, i, done);
        TouchLinked(Stored(s.cache, i, done), h, i);
        assert Publishable(s, i);
      } else {
        LeaveLinked(s.cache, h, i, slot.(valid := false, loading := false, discard := false));
      }
      assert Sole(s.cache, i);
      OneEntry(s, FinishStep(s, h, i), h, i);
    }
  }

  lemma WriteKeepsFresh(d: Disk, t: nat, data: Data, slot: Slot)
    requires Fresh(d, slot) && WritersOk(d)
    ensures Fresh(WriteBlock(d, t, data), slot)
  {
    var r := WriteBlock(d, t, data);
    forall v: nat | slot.version < v < |r.history[slot.key]| ensures InFlight(r, slot.key, v) {
      if v < |d.history[slot.key]| {
        assert InFlight(d, slot.key, v);
        var u :| u in d.writers && slot.key in d.writers[u].wrote && d.writers[u].wrote[slot.key] == v;
        assert WriterOk(d, d.writers[u]);
        assert slot.key in r.writers[u].wrote && r.writers[u].wrote[slot.key] == v;
      } else {
        assert slot.key in r.writers[t].wrote && r.writers[t].wrote[slot.key] == v;
      }
    }
  }

  /** A write that has not touched a block can start or return without making its entry stale. */
  lemma OtherKeepsFresh(d: Disk, r: Disk, t: nat, slot: Slot)
    requires Fresh(d, slot) && r.history == d.history
    requires forall u :: u in d.writers && u != t ==> u in r.writers && r.writers[u] == d.writers[u]
    requires t in d.writers ==> slot.key !in d.writers[t].wrote
    ensures Fresh(r, slot)
  {
    forall v: nat | slot.version < v < |r.history[slot.key]| ensures InFlight(r, slot.key, v) {
      assert InFlight(d, slot.key, v);
      var u :| u in d.writers && slot.key in d.writers[u].wrote && d.writers[u].wrote[slot.key] == v;
      assert u in r.writers && slot.key in r.writers[u].wrote;
    }
  }

  /** What the end of a write does to an entry. */
  function DroppedBy(w: Writer, slot: Slot): Slot {
    if w.first < w.next then Dropped(slot, w.node, w.first, w.next - 1) else slot
  }

  lemma InvalidateDrops(c: Cache, h: Hash, w: Writer)
    requires Linked(c, h) && Keyed(c)
    ensures var r := InvalidatedBy(c, h, w);
            && Linked(r, h) && Keyed(r) && |r.slots| == ENTRIES
            && forall i: nat :: i < ENTRIES ==> r.slots[i] == DroppedBy(w, c.slots[i])
  {
    if w.first < w.next { InvalidateIsExact(c, h, w.node, w.first, w.next - 1); }
  }

  lemma InvalidateKeeps(s: System, h: Hash, t: nat)
    requires Inv(s, h)
    ensures Inv(InvalidateStep(s, h, t), h)
  {
    if t in s.disk.writers {
      InvalidateDrops(s.cache, h, s.disk.writers[t]);
      var r := InvalidateStep(s, h, t);
      forall i: nat | i < ENTRIES && Publishable(r, i) ensures Fresh(r.disk, r.cache.slots[i]) {
        assert Publishable(s, i);
        OtherKeepsFresh(s.disk, r.disk, t, s.cache.slots[i]);
      }
    }
  }

  lemma DiskKeeps(s: System, r: System, h: Hash)
    requires Inv(s, h) && r.cache == s.cache && r.loads == s.loads && WritersOk(r.disk)
    requires forall i: nat :: i < ENTRIES && Fresh(s.disk, s.cache.slots[i]) ==> Fresh(r.disk, s.cache.slots[i])
    ensures Inv(r, h)
  {
    forall i: nat | i < ENTRIES && Publishable(r, i) ensures Fresh(r.disk, r.cache.slots[i]) {
      assert Publishable(s, i);
    }
  }

  lemma StepKeeps(s: System, h: Hash, step: Step)
    requires Inv(s, h)
    ensures Inv(Next(s, h, step), h)
  {
    match step
    case Hit(k) => HitKeeps(s, h, k);
    case Begin(k) => BeginKeeps(s, h, k);
    case DeviceRead(i, full, junk) => ReadKeeps(s, h, i, full, junk);
    case Finish(i) => FinishKeeps(s, h, i);
    case StartWrite(t, node, first) =>
      var d := StartWriter(s.disk, t, node, first);
      forall i: nat | i < ENTRIES && Fresh(s.disk, s.cache.slots[i]) ensures Fresh(d, s.cache.slots[i]) {
        if t !in s.disk.writers { OtherKeepsFresh(s.disk, d, t, s.cache.slots[i]); }
      }
      DiskKeeps(s, s.(disk := d), h);
    case DeviceWrite(t, data) =>
      var d := WriteBlock(s.disk, t, data);
      forall i: nat | i < ENTRIES && Fresh(s.disk, s.cache.slots[i]) ensures Fresh(d, s.cache.slots[i]) {
        WriteKeepsFresh(s.disk, t, data, s.cache.slots[i]);
      }
      DiskKeeps(s, s.(disk := d), h);
    case Invalidate(t) => InvalidateKeeps(s, h, t);
  }

  // ---------------------------------------------------------------- runs

  /** Nothing cached, no load and no write in progress, and some contents in every device block. */
  ghost predicate Initial(s: System) {
    && (exists slot: Slot :: !slot.valid && !slot.loading && s.cache == Empty(slot))
    && s.loads == map[] && s.disk.writers == map[] && forall k :: k in s.disk.history ==> |s.disk.history[k]| == 1
  }

  lemma InitialInv(s: System, h: Hash)
    requires Initial(s)
    ensures Inv(s, h)
  {
    var slot: Slot :| !slot.valid && !slot.loading && s.cache == Empty(slot);
    EmptyLinked(slot, h);
  }

  function Run(s: System, h: Hash, steps: seq<Step>): (r: System)
    requires |s.cache.slots| == ENTRIES
    ensures |r.cache.slots| == ENTRIES
    decreases |steps|
  {
    if steps == [] then s else Run(Next(s, h, steps[0]), h, steps[1..])
  }

  lemma {:induction false} RunKeeps(s: System, h: Hash, steps: seq<Step>)
    requires Inv(s, h)
    ensures Inv(Run(s, h, steps), h)
    decreases |steps|
  {
    if steps != [] {
      StepKeeps(s, h, steps[0]);
      RunKeeps(Next(s, h, steps[0]), h, steps[1..]);
    }
  }

  /**
   In every run, the entry a reader finds holds some version of its block, and all newer versions
   were written by writes that have not returned: no reader sees data older than a completed write.
   */
  lemma ReadersSeeFresh(s: System, h: Hash, steps: seq<Step>, k: Key)
    requires Initial(s)
    ensures var r := Run(s, h, steps);
            Inv(r, h) &&
            match Find(r.cache, h, k)
            case Some(i) =>
              Live(r.cache, i) && r.cache.slots[i].key == k && (r.cache.slots[i].valid ==> Fresh(r.disk, r.cache.slots[i]))
            case None => forall i: nat :: Live(r.cache, i) ==> r.cache.slots[i].key != k
  {
    InitialInv(s, h);
    RunKeeps(s, h, steps);
    var r := Run(s, h, steps);
    FindIsExact(r.cache, h, k);
    match Find(r.cache, h, k)
    case Some(i) => assert r.cache.slots[i].valid ==> Publishable(r, i);
    case None =>
  }

  /** A valid entry is the present device block, unless a write of that block has still to invalidate it. */
  lemma ValidIsCoherent(s: System, h: Hash, steps: seq<Step>, i: nat)
    requires Initial(s) && i < ENTRIES
    ensures var r := Run(s, h, steps); var slot := r.cache.slots[i];
            slot.valid ==>
              && slot.key in r.disk.history && |r.disk.history[slot.key]| > 0
              && (slot.data == r.disk.history[slot.key][|r.disk.history[slot.key]| - 1]
                  || exists t :: t in r.disk.writers && slot.key in r.disk.writers[t].wrote)
  {
    InitialInv(s, h);
    RunKeeps(s, h, steps);
    var r := Run(s, h, steps);
    var slot := r.cache.slots[i];
    if slot.valid {
      assert Publishable(r, i);
      var last := |r.disk.history[slot.key]| - 1;
      if slot.version != last { assert InFlight(r.disk, slot.key, last); }
    }
  }

  /** Entry i is being loaded and the load must not be published. */
  ghost predicate Stale(c: Cache, i: nat) { i < |c.slots| && c.slots[i].loading && c.slots[i].discard }

  /** A load marked stale keeps its mark until it finishes. */
  lemma StaleStays(s: System, h: Hash, step: Step, i: nat)
    requires Inv(s, h) && Stale(s.cache, i) && step != Finish(i)
    ensures Stale(Next(s, h, step).cache, i)
  {
    match step
    case Begin(_) => PickIsIdle(s.cache, h);
    case Invalidate(t) =>
      if t in s.disk.writers { InvalidateDrops(s.cache, h, s.disk.writers[t]); }
    case _ =>
  }

  lemma {:induction false} StaleRun(s: System, h: Hash, steps: seq<Step>, i: nat)
    requires Inv(s, h) && Stale(s.cache, i) && Finish(i) !in steps
    ensures Stale(Run(s, h, steps).cache, i)
    decreases |steps|
  {
    if steps != [] {
      StaleStays(s, h, steps[0], i);
      StepKeeps(s, h, steps[0]);
      StaleRun(Next(s, h, steps[0]), h, steps[1..], i);
    }
  }

  /** The return of a write makes stale every load of a block it wrote. */
  lemma InvalidateMakesStale(s: System, h: Hash, t: nat, i: nat)
    requires Inv(s, h) && i < ENTRIES && s.cache.slots[i].loading
    requires t in s.disk.writers && s.cache.slots[i].key in s.disk.writers[t].wrote
    ensures Stale(InvalidateStep(s, h, t).cache, i)
  {
    var w := s.disk.writers[t];
    assert WriterOk(s.disk, w);
    InvalidateDrops(s.cache, h, w);
  }

  /**
   A load overtaken by the invalidation of its block is never published, whatever happens in
   between: when it finishes, its entry is freed.
   */
  lemma OvertakenIsNotPublished(s: System, h: Hash, t: nat, steps: seq<Step>, i: nat)
    requires Inv(s, h) && i < ENTRIES && s.cache.slots[i].loading && Finish(i) !in steps
    requires t in s.disk.writers && s.cache.slots[i].key in s.disk.writers[t].wrote
    ensures var r := Run(Next(s, h, Invalidate(t)), h, steps);
            i in r.loads && (r.loads[i].Got? ==> !Live(Next(r, h, Finish(i)).cache, i))
  {
    InvalidateMakesStale(s, h, t, i);
    var a := Next(s, h, Invalidate(t));
    StepKeeps(s, h, Invalidate(t));
    StaleRun(a, h, steps, i);
    RunKeeps(a, h, steps);
  }
}
