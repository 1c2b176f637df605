/**
 The file descriptors of a task: a table of open files, a bitmap of taken descriptors kept in 64-bit
 words, and a hint below which every descriptor is taken.
 */
module Descriptors {
  import opened Common

  const WORD := 64
  const INITIAL_CAPACITY := 8
  const DUP2_LIMIT := 512

  datatype Slot = Empty | Holds(file: nat)

  /** `refs` gives the reference count of each open file. */
  datatype State = State(table: seq<Slot>, bits: seq<bool>, hint: nat, refs: map<nat, nat>)

  function Words(capacity: nat): nat { (capacity + WORD - 1) / WORD }

  predicate Taken(s: State, fd: nat) { fd < |s.table| && fd < |s.bits| && s.bits[fd] }

  ghost predicate TakenTo(s: State, n: nat) { forall fd: nat :: fd < n ==> Taken(s, fd) }

  /** Whole words of bits, none of them set past the end of the table. */
  ghost predicate Wide(s: State) {
    |s.bits| == Words(|s.table|) * WORD && forall i :: |s.table| <= i < |s.bits| ==> !s.bits[i]
  }

  /** All descriptors below the hint are taken, and so are those that hold a file. */
  ghost predicate Shape(s: State) {
    && Wide(s) && s.hint <= |s.table| && TakenTo(s, s.hint)
    && forall fd: nat :: fd < |s.table| && s.table[fd] != Empty ==> Taken(s, fd)
  }

  ghost predicate InUse(s: State, fd: nat) { fd < |s.table| && s.table[fd] != Empty }

  /** Between system calls a descriptor is taken iff it holds an open file. */
  ghost predicate Settled(s: State) {
    Wide(s) && s.hint <= |s.table| && TakenTo(s, s.hint) && forall fd: nat :: Taken(s, fd) <==> InUse(s, fd)
  }

  // ---------------------------------------------------------------- how many slots hold a file

  function Count(t: seq<Slot>, f: nat): nat {
    if t == [] then 0 else (if t[|t| - 1] == Holds(f) then 1 else 0) + Count(t[..|t| - 1], f)
  }

  lemma {:induction false} CountUpdate(t: seq<Slot>, i: nat, x: Slot, f: nat)
    requires i < |t|
    ensures Count(t[i := x], f) + (if t[i] == Holds(f) then 1 else 0) == Count(t, f) + if x == Holds(f) then 1 else 0
  {
    if i == |t| - 1 {
      assert t[i := x][..i] == t[..i];
    } else {
      CountUpdate(t[..|t| - 1], i, x, f);
      assert t[i := x][..|t| - 1] == t[..|t| - 1][i := x];
    }
  }

  function Blank(n: nat): seq<Slot> { seq(n, _ => Empty) }

  lemma {:induction false} CountGrown(t: seq<Slot>, n: nat, f: nat)
    ensures Count(t + Blank(n), f) == Count(t, f)
    decreases n
  {
    if n == 0 {
      assert t + Blank(n) == t;
    } else {
      CountGrown(t, n - 1, f);
      assert (t + Blank(n))[..|t| + n - 1] == t + Blank(n - 1);
    }
  }

  /** Each open file is held by this table and by others as often as its reference count says. */
  ghost predicate Counted(table: seq<Slot>, refs: map<nat, nat>, others: map<nat, nat>) {
    && (forall fd :: 0 <= fd < |table| && table[fd] != Empty ==> table[fd].file in refs)
    && (forall f :: f in others ==> f in refs && others[f] > 0)
    && forall f :: f in refs ==> refs[f] > 0 && refs[f] == Count(table, f) + if f in others then others[f] else 0
  }

  // ---------------------------------------------------------------- growing the table

  /** The table of s, with empty slots up to a larger capacity. */
  ghost predicate Grown(s: State, r: State) {
    && |s.table| <= |r.table| && r.table == s.table + Blank(|r.table| - |s.table|)
    && r.hint == s.hint && r.refs == s.refs && (forall fd: nat :: Taken(r, fd) <==> Taken(s, fd))
  }

  method ExpandTable(s: State, needed: nat) returns (ok: bool, r: State)
    requires Shape(s) && 0 < needed <= UINT32_MAX
    ensures Shape(r) && Grown(s, r)
    ensures ok ==> needed <= |r.table|
    ensures !ok ==> r == s
    ensures needed <= |s.table| ==> ok && r == s
  {
    r := s;
    assert s.table + Blank(0) == s.table;
    if |s.table| >= needed { return true, r; }
    var capacity := if |s.table| == 0 then INITIAL_CAPACITY else |s.table|;
    while capacity < needed
      invariant |s.table| <= capacity && 0 < capacity
      decreases needed - capacity
    {
      if capacity > UINT32_MAX / 2 {
        capacity := needed;
      } else {
        capacity := capacity * 2;
      }
    }
    var memory: bool := *;
    if capacity > UINT32_MAX || !memory { return false, r; }
    var extra := Words(capacity) * WORD - |s.bits|;
    r := s.(table := s.table + Blank(capacity - |s.table|), bits := s.bits + seq(extra, _ => false));
    assert forall i :: |s.table| <= i < |r.bits| ==> !r.bits[i];
    assert forall fd: nat :: Taken(r, fd) <==> Taken(s, fd);
    assert TakenTo(r, r.hint);
    assert Grown(s, r);
    return true, r;
  }

  // ---------------------------------------------------------------- the lowest free descriptor

  /** The lowest clear bit of word w, counting bits past the capacity as set. */
  method FindClearBit(s: State, w: nat) returns (found: bool, fd: nat)
    requires Shape(s) && w < Words(|s.table|)
    ensures found ==> w * WORD <= fd < |s.table| && !Taken(s, fd) && forall i: nat :: w * WORD <= i < fd ==> Taken(s, i)
    ensures !found ==> forall i: nat :: w * WORD <= i < (w + 1) * WORD && i < |s.table| ==> Taken(s, i)
    ensures found ==> fd < (w + 1) * WORD
  {
    fd := w * WORD;
    while fd < (w + 1) * WORD
      invariant w * WORD <= fd <= (w + 1) * WORD
      invariant forall i: nat :: w * WORD <= i < fd && i < |s.table| ==> Taken(s, i)
    {
      if fd < |s.table| && !s.bits[fd] { return true, fd; }
      fd := fd + 1;
    }
    return false, fd;
  }

  /** The lowest free descriptor in words first to last - 1. */
  method ScanWords(s: State, first: nat, last: nat) returns (found: bool, fd: nat)
    requires Shape(s) && last <= Words(|s.table|)
    ensures found ==> first * WORD <= fd < |s.table| && !Taken(s, fd) && forall i: nat :: first * WORD <= i < fd ==> Taken(s, i)
    ensures !found ==> forall i: nat :: first * WORD <= i < last * WORD && i < |s.table| ==> Taken(s, i)
  {
    found, fd := false, 0;
    var w := first;
    while w < last
      invariant first <= w && (first <= last ==> w <= last)
      invariant forall i: nat :: first * WORD <= i < w * WORD && i < |s.table| ==> Taken(s, i)
    {
      found, fd := FindClearBit(s, w);
      if found { return; }
      w := w + 1;
    }
  }

  function Marked(s: State, fd: nat): State
    requires fd < |s.bits|
  {
    s.(bits := s.bits[fd := true], hint := fd + 1)
  }

  /** r is s, perhaps with a larger table, and with descriptor fd taken as well. */
  ghost predicate Allotted(s: State, r: State, fd: nat) {
    && |s.table| <= |r.table| && r.table == s.table + Blank(|r.table| - |s.table|)
    && r.refs == s.refs && fd < |r.table| && forall i: nat :: Taken(r, i) <==> Taken(s, i) || i == fd
  }

  lemma MarkedIsAllotted(s: State, g: State, fd: nat)
    requires Shape(s) && Shape(g) && Grown(s, g) && fd < |g.table| && TakenTo(g, fd) && !Taken(g, fd)
    ensures Shape(Marked(g, fd)) && Allotted(s, Marked(g, fd), fd) && g.table[fd] == Empty
  {
    var r := Marked(g, fd);
    assert forall i: nat :: Taken(r, i) <==> Taken(g, i) || i == fd;
  }

  /** Takes the lowest free descriptor, growing the table when all are taken. */
  method AllocFd(s: State) returns (ok: bool, fd: nat, r: State)
    requires Shape(s)
    ensures Shape(r)
    ensures !ok ==> Grown(s, r)
    ensures ok ==> TakenTo(s, fd) && !Taken(s, fd) && fd < |r.table| && r.table[fd] == Empty
    ensures ok ==> Allotted(s, r, fd) && r.hint == fd + 1
    ensures INITIAL_CAPACITY <= |s.table| && !TakenTo(s, |s.table|) ==> ok
  {
    ok, r := ExpandTable(s, INITIAL_CAPACITY);
    if !ok { return false, 0, r; }
    var words := Words(|r.table|);
    ok, fd := ScanWords(r, r.hint / WORD, words);
    if !ok { ok, fd := ScanWords(r, 0, r.hint / WORD); }
    if !ok {
      fd := |r.table|;
      if fd + 1 > UINT32_MAX { return false, 0, r; }
      ghost var g := r;
      ok, r := ExpandTable(r, fd + 1);
      GrownTwice(s, g, r);
      if !ok { return false, 0, r; }
    }
    assert TakenTo(r, fd);
    MarkedIsAllotted(s, r, fd);
    r := Marked(r, fd);
  }

  lemma GrownTwice(s: State, g: State, r: State)
    requires Grown(s, g) && Grown(g, r)
    ensures Grown(s, r)
  {
    assert r.table == s.table + Blank(|r.table| - |s.table|);
  }

  /** Moves the hint past descriptors that are taken. */
  method AdvanceHint(s: State) returns (r: State)
    requires Shape(s)
    ensures Shape(r) && r == s.(hint := r.hint)
  {
    r := s;
    while r.hint < |r.table| && Taken(r, r.hint)
      invariant r == s.(hint := r.hint) && r.hint <= |s.table| && forall fd: nat :: fd < r.hint ==> Taken(s, fd)
      decreases |s.table| - r.hint
    {
      assert Taken(s, r.hint);
      r := r.(hint := r.hint + 1);
    }
    SameTaken(s, r);
  }

  lemma SameTaken(s: State, r: State)
    requires r.bits == s.bits && |r.table| == |s.table|
    ensures forall fd: nat :: Taken(r, fd) <==> Taken(s, fd)
  {
  }

  lemma BitSet(s: State, fd: nat)
    requires Shape(s) && fd < |s.table|
    ensures var r := s.(bits := s.bits[fd := true]); Shape(r) && forall i: nat :: Taken(r, i) <==> Taken(s, i) || i == fd
  {
    var r := s.(bits := s.bits[fd := true]);
    assert forall i: nat :: Taken(r, i) <==> Taken(s, i) || i == fd;
  }

  /** Marks one chosen descriptor as taken, growing the table up to it. */
  method ReserveFd(s: State, fd: nat) returns (ok: bool, r: State)
    requires Shape(s) && fd < UINT32_MAX
    ensures Shape(r)
    ensures !ok ==> r == s
    ensures ok ==> Allotted(s, r, fd)
    ensures fd < |s.table| ==> ok && r.table == s.table
  {
    ok, r := ExpandTable(s, fd + 1);
    if !ok { return; }
    BitSet(r, fd);
    r := r.(bits := r.bits[fd := true]);
    if fd == r.hint {
      ghost var q := r;
      r := AdvanceHint(r);
      SameTaken(q, r);
    }
  }

  /** The state once descriptor fd is free again. */
  function Released(s: State, fd: nat): State
    requires fd < |s.bits|
  {
    s.(bits := s.bits[fd := false], hint := if fd < s.hint then fd else s.hint)
  }

  /** Gives back a descriptor that was taken but holds no file. */
  method ReleaseReservedFd(s: State, fd: nat) returns (r: State)
    requires Shape(s)
    ensures Shape(r) && r.table == s.table && r.refs == s.refs
    ensures forall i: nat :: Taken(r, i) <==> Taken(s, i) && (i != fd || s.table[i] != Empty)
  {
    r := s;
    if fd >= |s.table| || s.table[fd] != Empty { return; }
    r := Released(s, fd);
    ReleasedTaken(s, fd);
  }

  /** One reference fewer; a file with none left is gone. */
  function Dropped(refs: map<nat, nat>, f: nat): map<nat, nat>
    requires f in refs
  {
    if refs[f] > 1 then refs[f := refs[f] - 1] else refs - {f}
  }

  function Closed(s: State, fd: nat): State
    requires fd < |s.table| && fd < |s.bits| && s.table[fd] != Empty && s.table[fd].file in s.refs
  {
    Released(s, fd).(table := s.table[fd := Empty], refs := Dropped(s.refs, s.table[fd].file))
  }

  lemma ReleasedTaken(s: State, fd: nat)
    requires fd < |s.table| && Wide(s) && s.hint <= |s.table| && TakenTo(s, s.hint)
    ensures var r := Released(s, fd);
            Wide(r) && r.hint <= |r.table| && TakenTo(r, r.hint) && forall i: nat :: Taken(r, i) <==> Taken(s, i) && i != fd
  {
    var r := Released(s, fd);
    assert forall i: nat :: Taken(r, i) <==> Taken(s, i) && i != fd;
  }

  lemma ClosedSettled(s: State, fd: nat)
    requires Settled(s) && fd < |s.table| && s.table[fd] != Empty && s.table[fd].file in s.refs
    ensures Settled(Closed(s, fd))
  {
    ReleasedTaken(s, fd);
    SameTaken(Released(s, fd), Closed(s, fd));
  }

  /** Emptying a slot takes one reference from its file, and the last one makes the file go away. */
  lemma ClosedCounted(table: seq<Slot>, refs: map<nat, nat>, others: map<nat, nat>, fd: nat)
    requires Counted(table, refs, others) && fd < |table| && table[fd] != Empty
    ensures Counted(table[fd := Empty], Dropped(refs, table[fd].file), others)
  {
    var t, f := table[fd := Empty], table[fd].file;
    forall g ensures Count(t, g) + (if g == f then 1 else 0) == Count(table, g) { CountUpdate(table, fd, Empty, g); }
    forall i | 0 <= i < |t| && t[i] != Empty ensures t[i].file in Dropped(refs, f) {
      if t[i].file == f { CountPositive(t, i); }
    }
  }

  lemma {:induction false} CountPositive(t: seq<Slot>, i: nat)
    requires i < |t| && t[i] != Empty
    ensures Count(t, t[i].file) > 0
  {
    if i < |t| - 1 { CountPositive(t[..|t| - 1], i); }
  }

  method CloseFd(s: State, fd: int, ghost others: map<nat, nat>) returns (ok: bool, r: State)
    requires Settled(s) && Counted(s.table, s.refs, others)
    ensures Settled(r) && Counted(r.table, r.refs, others)
    ensures ok <==> 0 <= fd < |s.table| && s.table[fd] != Empty
    ensures r == if ok then Closed(s, fd) else s
  {
    if fd < 0 || fd >= |s.table| || s.table[fd] == Empty { return false, s; }
    ClosedSettled(s, fd);
    ClosedCounted(s.table, s.refs, others, fd);
    return true, Closed(s, fd);
  }

  // ---------------------------------------------------------------- open and dup2

  /** Storing one more reference to a file in an empty slot. */
  lemma StoreKeeps(table: seq<Slot>, refs: map<nat, nat>, others: map<nat, nat>, fd: nat, f: nat)
    requires Counted(table, refs, others) && fd < |table| && table[fd] == Empty
    ensures Counted(table[fd := Holds(f)], refs[f := (if f in refs then refs[f] else 0) + 1], others)
  {
    var t := table[fd := Holds(f)];
    forall g ensures Count(t, g) == Count(table, g) + if g == f then 1 else 0 { CountUpdate(table, fd, Holds(f), g); }
    if f !in refs { NoneHeld(table, f); }
  }

  lemma {:induction false} NoneHeld(t: seq<Slot>, f: nat)
    requires forall i :: 0 <= i < |t| && t[i] != Empty ==> t[i].file != f
    ensures Count(t, f) == 0
  {
    if t != [] { NoneHeld(t[..|t| - 1], f); }
  }

  lemma GrownKeeps(s: State, r: State, others: map<nat, nat>)
    requires Counted(s.table, s.refs, others) && r.refs == s.refs
    requires |s.table| <= |r.table| && r.table == s.table + Blank(|r.table| - |s.table|)
    ensures Counted(r.table, r.refs, others)
  {
    forall f ensures Count(r.table, f) == Count(s.table, f) { CountGrown(s.table, |r.table| - |s.table|, f); }
  }

  /** Filling the descriptor that was just allotted. */
  lemma FilledSettled(s: State, a: State, fd: nat, slot: Slot)
    requires Settled(s) && Shape(a) && Allotted(s, a, fd) && slot != Empty
    ensures Settled(a.(table := a.table[fd := slot]))
  {
    var r := a.(table := a.table[fd := slot]);
    SameTaken(a, r);
    forall i: nat ensures Taken(r, i) <==> InUse(r, i) { assert Taken(a, i) <==> Taken(s, i) || i == fd; }
  }

  /** A table that grew, with the same descriptors taken. */
  lemma GrownSettled(s: State, r: State)
    requires Settled(s) && Shape(r) && |s.table| <= |r.table| && r.table == s.table + Blank(|r.table| - |s.table|)
    requires forall i: nat :: Taken(r, i) <==> Taken(s, i)
    ensures Settled(r)
  {
    forall i: nat ensures Taken(r, i) <==> InUse(r, i) { assert Taken(s, i) <==> InUse(s, i); }
  }

  /** Opens a new file f; setting it up may fail after the descriptor was taken. */
  method Open(s: State, f: nat, ghost others: map<nat, nat>) returns (ok: bool, fd: nat, r: State)
    requires Settled(s) && Counted(s.table, s.refs, others) && f !in s.refs
    ensures Settled(r) && Counted(r.table, r.refs, others)
    ensures ok ==> !InUse(s, fd) && forall i: nat :: i < fd ==> InUse(s, i)
    ensures ok ==> |s.table| <= |r.table| && r.refs == s.refs[f := 1] && fd < |r.table|
                   && r.table == (s.table + Blank(|r.table| - |s.table|))[fd := Holds(f)]
    ensures !ok ==> |s.table| <= |r.table| && r.table == s.table + Blank(|r.table| - |s.table|) && r.refs == s.refs
  {
    ok, fd, r := AllocFd(s);
    GrownKeeps(s, r, others);
    if !ok {
      GrownSettled(s, r);
      return;
    }
    var usable: bool := *;
    if !usable {
      ghost var a := r;
      r := ReleaseReservedFd(r, fd);
      assert forall i: nat :: Taken(r, i) <==> Taken(s, i);
      GrownSettled(s, r);
      return false, fd, r;
    }
    StoreKeeps(r.table, r.refs, others, fd, f);
    FilledSettled(s, r, fd, Holds(f));
    r := r.(table := r.table[fd := Holds(f)]);
    SameTaken(r, r.(refs := r.refs[f := 1]));
    r := r.(refs := r.refs[f := 1]);
  }

  /** Puts one more reference to an open file in an empty slot and takes the descriptor. */
  method Share(s: State, fd: nat, f: nat, ghost others: map<nat, nat>) returns (r: State)
    requires Settled(s) && Counted(s.table, s.refs, others) && f in s.refs
    requires fd < |s.table| && fd < UINT32_MAX && s.table[fd] == Empty
    ensures Settled(r) && Counted(r.table, r.refs, others) && r.table == s.table[fd := Holds(f)]
    ensures r.refs == s.refs[f := s.refs[f] + 1]
  {
    StoreKeeps(s.table, s.refs, others, fd, f);
    var ok;
    ok, r := ReserveFd(s, fd);
    FilledSettled(s, r, fd, Holds(f));
    r := r.(table := r.table[fd := Holds(f)]);
    SameTaken(r, r.(refs := r.refs[f := r.refs[f] + 1]));
    r := r.(refs := r.refs[f := r.refs[f] + 1]);
  }

  /** Replaces what newfd holds by oldfd's file. */
  method Replace(s: State, oldfd: nat, newfd: nat, ghost others: map<nat, nat>) returns (r: State)
    requires Settled(s) && Counted(s.table, s.refs, others) && oldfd != newfd && newfd < UINT32_MAX
    requires oldfd < |s.table| && newfd < |s.table| && s.table[oldfd] != Empty
    ensures Settled(r) && Counted(r.table, r.refs, others) && r.table == s.table[newfd := s.table[oldfd]]
  {
    var f := s.table[oldfd].file;
    r := s;
    if r.table[newfd] != Empty {
      var closed;
      closed, r := CloseFd(r, newfd, others);
    }
    assert r.table[oldfd] == Holds(f);
    r := Share(r, newfd, f, others);
  }

  /**
   Makes newfd share oldfd's file, closing what newfd held. Both descriptors then count as references
   to the file, and no other descriptor changes.
   */
  method Dup2(s: State, oldfd: int, newfd: int, ghost others: map<nat, nat>) returns (ok: bool, r: State)
    requires Settled(s) && Counted(s.table, s.refs, others)
    ensures Settled(r) && Counted(r.table, r.refs, others)
    ensures ok ==> 0 <= oldfd < |s.table| && s.table[oldfd] != Empty && 0 <= newfd < DUP2_LIMIT
    ensures ok && oldfd == newfd ==> r == s
    ensures ok ==> |s.table| <= |r.table| && newfd < |r.table|
                   && r.table == (s.table + Blank(|r.table| - |s.table|))[newfd := s.table[oldfd]]
    ensures !ok ==> r == s
    ensures 0 <= oldfd < |s.table| && s.table[oldfd] != Empty && 0 <= newfd < DUP2_LIMIT && newfd < |s.table| ==> ok
  {
    if oldfd < 0 || oldfd >= |s.table| || s.table[oldfd] == Empty { return false, s; }
    if newfd < 0 || newfd >= DUP2_LIMIT { return false, s; }
    if oldfd == newfd { return true, s; }
    ok, r := ExpandTable(s, newfd + 1);
    if ok {
      GrownKeeps(s, r, others);
      GrownSettled(s, r);
      r := Replace(r, oldfd, newfd, others);
    }
  }

  /** A task's descriptors. `others` are the references that other tasks hold. */
  class TaskFiles {
    var st: State
    ghost var others: map<nat, nat>

    ghost predicate Valid()
      reads this
    {
      Settled(st) && Counted(st.table, st.refs, others)
    }

    constructor ()
      ensures Valid() && st.table == [] && st.refs == map[] && others == map[]
    {
      st, others := State([], [], 0, map[]), map[];
    }

    /** The new file gets the lowest descriptor not in use. */
    method OpenFile(f: nat) returns (ok: bool, fd: nat)
      requires Valid() && f !in st.refs
      modifies this`st
      ensures Valid()
      ensures ok ==> !InUse(old(st), fd) && forall i: nat :: i < fd ==> InUse(old(st), i)
      ensures ok ==> fd < |st.table| && |old(st).table| <= |st.table| && st.refs == old(st).refs[f := 1]
                     && st.table == (old(st).table + Blank(|st.table| - |old(st).table|))[fd := Holds(f)]
      ensures !ok ==> st.refs == old(st).refs && |old(st).table| <= |st.table|
                      && st.table == old(st).table + Blank(|st.table| - |old(st).table|)
    {
      ok, fd, st := Open(st, f, others);
    }

    method Close(fd: int) returns (ok: bool)
      requires Valid()
      modifies this`st
      ensures Valid()
      ensures ok <==> 0 <= fd < |old(st).table| && old(st).table[fd] != Empty
      ensures st == if ok then Closed(old(st), fd) else old(st)
    {
      ok, st := CloseFd(st, fd, others);
    }

    method Duplicate(oldfd: int, newfd: int) returns (ok: bool)
      requires Valid()
      modifies this`st
      ensures Valid()
      ensures ok ==> 0 <= oldfd < |old(st).table| && old(st).table[oldfd] != Empty && 0 <= newfd < |st.table|
                     && |old(st).table| <= |st.table|
                     && st.table == (old(st).table + Blank(|st.table| - |old(st).table|))[newfd := old(st).table[oldfd]]
      ensures !ok ==> st == old(st)
    {
      ok, st := Dup2(st, oldfd, newfd, others);
    }
  }
}
