/**
 The block cache of the file layer: 128 entries, a free list, a recency list and hash chains. The
 operations here are the ones done under the cache lock. They are given for every hash function on
 (node, block) pairs, so nothing depends on how keys are mixed into buckets.
 */
module BlockCache {
  import opened Common

  const ENTRIES := 128

  type Data = seq<nat>

  datatype Key = Key(node: nat, block: nat)

  type Hash = Key -> nat

  /** An entry; `version` numbers the write to the block whose data the entry holds. */
  datatype Slot = Slot(key: Key, valid: bool, loading: bool, discard: bool, data: Data, version: nat)

  /** Lists are in link order, head first. A bucket without a chain is empty. */
  datatype Cache = Cache(slots: seq<Slot>, free: seq<nat>, lru: seq<nat>, chains: map<nat, seq<nat>>)

  // ---------------------------------------------------------------- lists without repetition

  /** s without x. */
  function Without(s: seq<nat>, x: nat): seq<nat> {
    if s == [] then [] else if s[0] == x then s[1..] else [s[0]] + Without(s[1..], x)
  }

  lemma {:induction false} WithoutMembers(s: seq<nat>, x: nat)
    requires Distinct(s)
    ensures Distinct(Without(s, x)) && forall y :: y in Without(s, x) <==> y in s && y != x
  {
    if s != [] {
      WithoutMembers(s[1..], x);
      assert s[0] !in s[1..];
      if s[0] != x { FrontMembers(Without(s[1..], x), s[0]); }
    }
  }

  lemma {:induction false} WithoutLength(s: seq<nat>, x: nat)
    requires x in s
    ensures |Without(s, x)| == |s| - 1
  {
    if s[0] != x { WithoutLength(s[1..], x); }
  }

  /** Taking out something further back leaves the front as it is. */
  lemma {:induction false} WithoutBehind(s: seq<nat>, x: nat, n: nat)
    requires n <= |s| && x !in s[..n]
    ensures n <= |Without(s, x)| && Without(s, x)[..n] == s[..n]
  {
    if n > 0 {
      assert s[0] in s[..n] && s[1..][..n - 1] == s[..n][1..];
      WithoutBehind(s[1..], x, n - 1);
      assert s[..n] == [s[0]] + s[1..][..n - 1];
    }
  }

  /** A list with the numbers below n is at least that long. */
  lemma {:induction false} LongEnough(s: seq<nat>, n: nat)
    requires Distinct(s) && forall i: nat :: i < n ==> i in s
    ensures n <= |s|
    decreases n
  {
    if n > 0 {
      WithoutMembers(s, n - 1);
      WithoutLength(s, n - 1);
      LongEnough(Without(s, n - 1), n - 1);
    }
  }

  lemma FrontMembers(s: seq<nat>, x: nat)
    requires Distinct(s) && x !in s
    ensures Distinct([x] + s) && forall y :: y in [x] + s <==> y in s || y == x
  {
    forall i, j | 0 <= i < j < |[x] + s| ensures ([x] + s)[i] != ([x] + s)[j] {
      if i == 0 { assert s[j - 1] in s; }
    }
  }

  // ---------------------------------------------------------------- how the lists agree with the entries

  predicate Live(c: Cache, i: nat) { i < |c.slots| && (c.slots[i].valid || c.slots[i].loading) }

  function Chain(c: Cache, b: nat): seq<nat> { if b in c.chains then c.chains[b] else [] }

  /** The chain of bucket b holds, once each, the live entries whose key falls in b. */
  ghost predicate ChainOk(c: Cache, h: Hash, b: nat) {
    Distinct(Chain(c, b)) && forall i: nat :: i in Chain(c, b) <==> Live(c, i) && h(c.slots[i].key) == b
  }

  /** Entries that are not live are exactly the free list, live ones exactly the recency list. */
  ghost predicate ListsOk(c: Cache) {
    && Distinct(c.free) && (forall i: nat :: i in c.free <==> i < ENTRIES && !Live(c, i))
    && Distinct(c.lru) && (forall i: nat :: i in c.lru <==> Live(c, i))
  }

  ghost predicate Linked(c: Cache, h: Hash) {
    |c.slots| == ENTRIES && ListsOk(c) && forall b: nat :: ChainOk(c, h, b)
  }

  /** No other live entry is for the block of entry i. */
  ghost predicate Sole(c: Cache, i: nat)
    requires i < |c.slots|
  {
    forall j: nat :: Live(c, j) && c.slots[j].key == c.slots[i].key ==> j == i
  }

  /** No block has two live entries, and a valid entry is not being loaded. */
  ghost predicate Keyed(c: Cache) {
    && (forall i: nat {:trigger Sole(c, i)} :: Live(c, i) ==> Sole(c, i))
    && (forall i :: 0 <= i < |c.slots| && c.slots[i].valid ==> !c.slots[i].loading)
  }

  // ---------------------------------------------------------------- finding and picking entries

  function FindIn(c: Cache, chain: seq<nat>, k: Key): Option<nat> {
    if chain == [] then None
    else if Live(c, chain[0]) && c.slots[chain[0]].key == k then Some(chain[0])
    else FindIn(c, chain[1..], k)
  }

  /** The live entry of a block, looked for in the one chain it can be in. */
  function Find(c: Cache, h: Hash, k: Key): Option<nat> { FindIn(c, Chain(c, h(k)), k) }

  lemma {:induction false} FindInIsExact(c: Cache, chain: seq<nat>, k: Key)
    ensures match FindIn(c, chain, k)
            case Some(i) => i in chain && Live(c, i) && c.slots[i].key == k
            case None => forall i: nat :: i in chain && Live(c, i) ==> c.slots[i].key != k
  {
    if chain != [] { FindInIsExact(c, chain[1..], k); }
  }

  /** Looking in one chain finds the entry of a block iff there is one anywhere. */
  lemma FindIsExact(c: Cache, h: Hash, k: Key)
    requires Linked(c, h)
    ensures match Find(c, h, k)
            case Some(i) => Live(c, i) && c.slots[i].key == k
            case None => forall i: nat :: Live(c, i) ==> c.slots[i].key != k
  {
    FindInIsExact(c, Chain(c, h(k)), k);
    assert ChainOk(c, h, h(k));
  }

  /** The entry nearest the tail of the recency list that is not being loaded. */
  function LastIdle(c: Cache, lru: seq<nat>): Option<nat> {
    if lru == [] then None
    else
      var i := lru[|lru| - 1];
      if i < |c.slots| && !c.slots[i].loading then Some(i) else LastIdle(c, lru[..|lru| - 1])
  }

  /** Entry i is idle, and all entries behind it in the list are being loaded. */
  ghost predicate IsLastIdle(c: Cache, lru: seq<nat>, i: nat) {
    && i < |c.slots| && !c.slots[i].loading
    && exists k :: 0 <= k < |lru| && lru[k] == i && forall j :: k < j < |lru| && lru[j] < |c.slots| ==> c.slots[lru[j]].loading
  }

  lemma {:induction false} LastIdleIsIdle(c: Cache, lru: seq<nat>)
    ensures match LastIdle(c, lru)
            case Some(i) => IsLastIdle(c, lru, i)
            case None => forall i: nat :: i in lru && i < |c.slots| ==> c.slots[i].loading
  {
    if lru != [] {
      var last, rest := lru[|lru| - 1], lru[..|lru| - 1];
      assert lru == rest + [last];
      LastIdleIsIdle(c, rest);
      if last < |c.slots| && !c.slots[last].loading {
        assert lru[|lru| - 1] == last;
      } else if LastIdle(c, rest).Some? {
        var k :| 0 <= k < |rest| && rest[k] == LastIdle(c, rest).value &&
                 forall j :: k < j < |rest| && rest[j] < |c.slots| ==> c.slots[rest[j]].loading;
        assert lru[k] == rest[k];
      }
    }
  }

  /** If the entry at the tail is idle, it is the one found. */
  lemma LastOfAll(c: Cache, lru: seq<nat>, i: nat)
    requires IsLastIdle(c, lru, i) && lru != [] && lru[|lru| - 1] < |c.slots| && !c.slots[lru[|lru| - 1]].loading
    ensures i == lru[|lru| - 1]
  {
  }

  /** A victim: the head of the free list, or else the least recently used idle entry. */
  function Pick(c: Cache): Option<nat> { if c.free != [] then Some(c.free[0]) else LastIdle(c, c.lru) }

  /**
   A victim is never being loaded; it is a free entry if there is one, otherwise the least recently
   used idle one; and there is none only when all 128 entries are being loaded.
   */
  lemma PickIsIdle(c: Cache, h: Hash)
    requires Linked(c, h)
    ensures match Pick(c)
            case Some(i) => i < ENTRIES && !c.slots[i].loading && (i in c.free || (c.free == [] && IsLastIdle(c, c.lru, i)))
            case None => forall i: nat :: i < ENTRIES ==> c.slots[i].loading
  {
    LastIdleIsIdle(c, c.lru);
    if c.free == [] {
      forall i: nat | i < ENTRIES ensures i in c.lru { assert i !in c.free; }
    } else {
      assert c.free[0] in c.free;
    }
  }

  // ---------------------------------------------------------------- moving entries between the lists

  function Unhashed(c: Cache, b: nat, i: nat): map<nat, seq<nat>> { c.chains[b := Without(Chain(c, b), i)] }

  /** Gives the idle entry i to the block of `slot`: off the free list, first in recency, hashed. */
  function Enter(c: Cache, h: Hash, i: nat, slot: Slot): Cache
    requires i < |c.slots|
  {
    var d := c.(chains := Unhashed(c, h(c.slots[i].key), i));
    Cache(c.slots[i := slot], Without(c.free, i), [i] + Without(c.lru, i),
          d.chains[h(slot.key) := [i] + Chain(d, h(slot.key))])
  }

  /** Takes entry i out of its chain and the recency list, and frees it. */
  function Leave(c: Cache, h: Hash, i: nat, slot: Slot): Cache
    requires i < |c.slots|
  {
    Cache(c.slots[i := slot], [i] + c.free, Without(c.lru, i), Unhashed(c, h(c.slots[i].key), i))
  }

  /** Makes entry i the most recently used. */
  function Touch(c: Cache, i: nat): Cache { c.(lru := [i] + Without(c.lru, i)) }

  lemma UnhashedOk(c: Cache, h: Hash, i: nat, b: nat)
    requires Linked(c, h) && i < ENTRIES
    ensures var d := c.(chains := Unhashed(c, h(c.slots[i].key), i));
            && Distinct(Chain(d, b))
            && forall j: nat :: j in Chain(d, b) <==> j != i && Live(c, j) && h(c.slots[j].key) == b
  {
    var own := h(c.slots[i].key);
    assert ChainOk(c, h, own) && ChainOk(c, h, b);
    WithoutMembers(Chain(c, own), i);
  }

  lemma EnterLinked(c: Cache, h: Hash, i: nat, slot: Slot)
    requires Linked(c, h) && i < ENTRIES && (slot.valid || slot.loading)
    ensures Linked(Enter(c, h, i, slot), h)
  {
    var d := c.(chains := Unhashed(c, h(c.slots[i].key), i));
    var e := Enter(c, h, i, slot);
    assert forall j: nat :: j != i ==> (Live(e, j) <==> Live(c, j));
    WithoutMembers(c.free, i);
    WithoutMembers(c.lru, i);
    FrontMembers(Without(c.lru, i), i);
    forall b: nat ensures ChainOk(e, h, b) {
      UnhashedOk(c, h, i, b);
      if b == h(slot.key) { FrontMembers(Chain(d, b), i); }
      assert forall j: nat :: j != i && Live(e, j) ==> e.slots[j] == c.slots[j];
    }
  }

  lemma LeaveLinked(c: Cache, h: Hash, i: nat, slot: Slot)
    requires Linked(c, h) && Live(c, i) && !slot.valid && !slot.loading
    ensures Linked(Leave(c, h, i, slot), h)
  {
    var e := Leave(c, h, i, slot);
    assert forall j: nat :: j != i ==> (Live(e, j) <==> Live(c, j));
    WithoutMembers(c.lru, i);
    FrontMembers(c.free, i);
    forall b: nat ensures ChainOk(e, h, b) {
      UnhashedOk(c, h, i, b);
      assert forall j: nat :: j != i && Live(e, j) ==> e.slots[j] == c.slots[j];
    }
  }

  /** Changing a live entry in place, keeping its key and keeping it live. */
  lemma UpdateLinked(c: Cache, h: Hash, i: nat, slot: Slot)
    requires Linked(c, h) && Live(c, i) && slot.key == c.slots[i].key && (slot.valid || slot.loading)
    ensures Linked(c.(slots := c.slots[i := slot]), h)
  {
    var e := c.(slots := c.slots[i := slot]);
    assert forall j: nat :: Live(e, j) <==> Live(c, j);
    forall b: nat ensures ChainOk(e, h, b) {
      assert ChainOk(c, h, b) && Chain(e, b) == Chain(c, b);
    }
  }

  lemma TouchLinked(c: Cache, h: Hash, i: nat)
    requires Linked(c, h) && Live(c, i)
    ensures Linked(Touch(c, i), h)
  {
    var e := Touch(c, i);
    assert forall j: nat :: Live(e, j) <==> Live(c, j);
    WithoutMembers(c.lru, i);
    FrontMembers(Without(c.lru, i), i);
    forall b: nat ensures ChainOk(e, h, b) { assert ChainOk(c, h, b) && Chain(e, b) == Chain(c, b); }
  }

  // ---------------------------------------------------------------- invalidation

  predicate InRange(k: Key, node: nat, first: nat, last: nat) { k.node == node && first <= k.block <= last }

  /** One turn of the invalidation loop: a matching entry loses its data, or its load is marked stale. */
  function Drop(c: Cache, h: Hash, i: nat, node: nat, first: nat, last: nat): (r: Cache)
    requires i < |c.slots|
    ensures |r.slots| == |c.slots|
  {
    var s := c.slots[i];
    if !InRange(s.key, node, first, last) then c
    else if s.loading then c.(slots := c.slots[i := s.(valid := false, discard := true)])
    else if s.valid then Leave(c, h, i, s.(valid := false))
    else c
  }

  /** The invalidation loop over the first n entries. */
  function InvalidateTo(c: Cache, h: Hash, n: nat, node: nat, first: nat, last: nat): (r: Cache)
    requires n <= |c.slots|
    ensures |r.slots| == |c.slots|
  {
    if n == 0 then c else Drop(InvalidateTo(c, h, n - 1, node, first, last), h, n - 1, node, first, last)
  }

  /** What invalidation leaves of an entry. */
  function Dropped(s: Slot, node: nat, first: nat, last: nat): Slot {
    if !InRange(s.key, node, first, last) then s else s.(valid := false, discard := s.discard || s.loading)
  }

  /** One turn of the loop changes one entry, as it should, and keeps the lists in step. */
  lemma DropIs(c: Cache, h: Hash, i: nat, node: nat, first: nat, last: nat)
    requires Linked(c, h) && Keyed(c) && i < ENTRIES
    ensures var r := Drop(c, h, i, node, first, last);
            Linked(r, h) && Keyed(r) && r.slots == c.slots[i := Dropped(c.slots[i], node, first, last)]
  {
    var s, r := c.slots[i], Drop(c, h, i, node, first, last);
    forall j: nat | Live(r, j) ensures Sole(r, j) { assert Sole(c, j); }
    if InRange(s.key, node, first, last) {
      if s.loading {
        UpdateLinked(c, h, i, s.(valid := false, discard := true));
      } else if s.valid {
        LeaveLinked(c, h, i, s.(valid := false));
      }
    }
  }

  lemma {:induction false} InvalidateToIs(c: Cache, h: Hash, n: nat, node: nat, first: nat, last: nat)
    requires Linked(c, h) && Keyed(c) && n <= ENTRIES
    ensures var r := InvalidateTo(c, h, n, node, first, last);
            && Linked(r, h) && Keyed(r)
            && forall i: nat :: i < ENTRIES ==>
                 r.slots[i] == if i < n then Dropped(c.slots[i], node, first, last) else c.slots[i]
  {
    if n != 0 {
      InvalidateToIs(c, h, n - 1, node, first, last);
      DropIs(InvalidateTo(c, h, n - 1, node, first, last), h, n - 1, node, first, last);
    }
  }

  /** Drops all cached blocks from first to last of a node. */
  function Invalidated(c: Cache, h: Hash, node: nat, first: nat, last: nat): (r: Cache)
    ensures |r.slots| == |c.slots|
  {
    InvalidateTo(c, h, |c.slots|, node, first, last)
  }

  /**
   Invalidating a range takes the data of exactly the entries in it, marks exactly the loads in it
   stale, and keeps lists and chains in step with the entries.
   */
  lemma InvalidateIsExact(c: Cache, h: Hash, node: nat, first: nat, last: nat)
    requires Linked(c, h) && Keyed(c)
    ensures var r := Invalidated(c, h, node, first, last);
            && Linked(r, h) && Keyed(r)
            && forall i: nat :: i < ENTRIES ==> r.slots[i] == Dropped(c.slots[i], node, first, last)
  {
    InvalidateToIs(c, h, |c.slots|, node, first, last);
  }

  // ---------------------------------------------------------------- the cache before first use

  /** All entries free, pushed on the free list in index order. */
  function Empty(slot: Slot): Cache {
    Cache(seq(ENTRIES, i => slot), seq(ENTRIES, i => ENTRIES - 1 - i), [], map[])
  }

  lemma EmptyLinked(slot: Slot, h: Hash)
    requires !slot.valid && !slot.loading
    ensures Linked(Empty(slot), h) && Keyed(Empty(slot))
  {
    var c := Empty(slot);
    forall i: nat | i < ENTRIES ensures i in c.free { assert c.free[ENTRIES - 1 - i] == i; }
  }
}
