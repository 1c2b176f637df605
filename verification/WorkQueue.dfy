/**
 Deferred work: a first-in first-out queue served by one worker, and a list of delayed items that a
 timer moves to the queue when they fall due. A step is one critical section of the queue's lock;
 every interleaving of callers, worker and timer is a run.
 */
module WorkQueue {
  import opened Common

  const TICK_MODULUS := 0x1_0000_0000_0000_0000

  type Id = nat

  datatype Flag = Idle | Pending | Running

  /** An entry of the delayed list; `asked` is the tick that the caller asked for. */
  datatype Item = Item(id: Id, due: nat, asked: nat)

  datatype Worker = Nobody | Runs(id: Id)

  /** `log` is everything ever queued, in order, and `taken` everything the worker took. */
  datatype State = State(
    queue: seq<Id>, flags: map<Id, Flag>, worker: Worker,
    delayed: seq<Item>, waiting: set<Id>, now: nat,
    queued: nat, completed: nat, rejected: nat, depth: nat,
    log: seq<Id>, taken: seq<Id>)

  const EMPTY := State([], map[], Nobody, [], {}, 0, 0, 0, 0, 0, [], [])

  function FlagOf(s: State, id: Id): Flag { if id in s.flags then s.flags[id] else Idle }

  // ---------------------------------------------------------------- steps

  datatype Step =
    | Queue(id: Id)
    | Take
    | Complete
    | QueueDelayed(id: Id, delay: nat)
    | Cancel(id: Id)
    | Tick
    | Timer

  function Enqueue(s: State, id: Id): State {
    s.(queue := s.queue + [id], flags := s.flags[id := Pending], queued := s.queued + 1, depth := s.depth + 1,
       log := s.log + [id])
  }

  function TakeOne(s: State): State {
    if s.queue == [] || s.worker != Nobody then s
    else
      var id := s.queue[0];
      s.(queue := s.queue[1..], flags := s.flags[id := Running], worker := Runs(id), taken := s.taken + [id],
         depth := if s.depth == 0 then 0 else s.depth - 1)
  }

  function Completed(s: State): State {
    if s.worker == Nobody then s
    else s.(flags := s.flags[s.worker.id := Idle], worker := Nobody, completed := s.completed + 1)
  }

  /** The item goes behind all items due no later. */
  function Insert(l: seq<Item>, item: Item): seq<Item> {
    if l == [] || l[0].due > item.due then [item] + l else [l[0]] + Insert(l[1..], item)
  }

  function Removed(l: seq<Item>, id: Id): seq<Item> {
    if l == [] then [] else if l[0].id == id then l[1..] else [l[0]] + Removed(l[1..], id)
  }

  function Delayed(s: State, id: Id, delay: nat): State {
    if id in s.waiting || FlagOf(s, id) == Pending then s.(rejected := s.rejected + 1)
    else s.(delayed := Insert(s.delayed, Item(id, (s.now + delay) % TICK_MODULUS, s.now + delay)),
            waiting := s.waiting + {id})
  }

  predicate OnList(l: seq<Item>, id: Id) { exists i :: 0 <= i < |l| && l[i].id == id }

  function Cancelled(s: State, id: Id): State {
    if OnList(s.delayed, id) then s.(delayed := Removed(s.delayed, id), waiting := s.waiting - {id}) else s
  }

  predicate Ready(s: State, it: Item) { it.due <= s.now && FlagOf(s, it.id) == Idle }

  /** An item that stays on the list: postponed to the next tick if it is due but still busy. */
  function Postponed(s: State, it: Item): Item {
    if it.due <= s.now then it.(due := (s.now + 1) % TICK_MODULUS) else it
  }

  /** One pass of the timer over a list: the state it leaves and what stays on the list. */
  function Sweep(s: State, l: seq<Item>): (State, seq<Item>)
    decreases |l|
  {
    if l == [] then (s, [])
    else if Ready(s, l[0]) then Sweep(Enqueue(s.(waiting := s.waiting - {l[0].id}), l[0].id), l[1..])
    else
      var (r, rest) := Sweep(s, l[1..]);
      (r, [Postponed(s, l[0])] + rest)
  }

  function TimerStep(s: State): State {
    var (r, rest) := Sweep(s, s.delayed);
    r.(delayed := rest)
  }

  function Next(s: State, step: Step): State {
    match step
    case Queue(id) => if FlagOf(s, id) != Idle then s.(rejected := s.rejected + 1) else Enqueue(s, id)
    case Take => TakeOne(s)
    case Complete => Completed(s)
    case QueueDelayed(id, delay) => Delayed(s, id, delay)
    case Cancel(id) => Cancelled(s, id)
    case Tick => if s.now + 1 < TICK_MODULUS then s.(now := s.now + 1) else s
    case Timer => TimerStep(s)
  }

  // ---------------------------------------------------------------- the loops over the delayed list

  /** The timer's loop, which edits the list in place, does what one pass of the list says. */
  method QueueReadyDelayed(s: State) returns (r: State)
    ensures r == TimerStep(s)
  {
    var kept, rest := [], s.delayed;
    r := s;
    while rest != []
      invariant Sweep(s, s.delayed).0 == Sweep(r, rest).0
      invariant Sweep(s, s.delayed).1 == kept + Sweep(r, rest).1
      invariant r.now == s.now
      decreases |rest|
    {
      var it := rest[0];
      if it.due > r.now {
        kept := kept + [it];
      } else if FlagOf(r, it.id) != Idle {
        kept := kept + [it.(due := (r.now + 1) % TICK_MODULUS)];
      } else {
        r := Enqueue(r.(waiting := r.waiting - {it.id}), it.id);
      }
      rest := rest[1..];
    }
    r := r.(delayed := kept);
  }

  lemma {:induction false} InsertIs(l: seq<Item>, item: Item, p: nat)
    requires p <= |l| && (forall i :: 0 <= i < p ==> l[i].due <= item.due) && (p < |l| ==> item.due < l[p].due)
    ensures Insert(l, item) == l[..p] + [item] + l[p..]
    decreases p
  {
    if p > 0 {
      InsertIs(l[1..], item, p - 1);
      assert l[..p] == [l[0]] + l[1..][..p - 1] && l[p..] == l[1..][p - 1..];
    }
  }

  method InsertByDue(l: seq<Item>, item: Item) returns (r: seq<Item>)
    ensures r == Insert(l, item)
  {
    var p := 0;
    while p < |l| && l[p].due <= item.due
      invariant p <= |l| && forall i :: 0 <= i < p ==> l[i].due <= item.due
    {
      p := p + 1;
    }
    InsertIs(l, item, p);
    r := l[..p] + [item] + l[p..];
  }

  method CancelDelayed(s: State, id: Id) returns (found: bool, r: State)
    ensures r == Cancelled(s, id) && (found <==> OnList(s.delayed, id))
  {
    var p := 0;
    while p < |s.delayed|
      invariant p <= |s.delayed| && (forall i :: 0 <= i < p ==> s.delayed[i].id != id)
      invariant Removed(s.delayed, id) == s.delayed[..p] + Removed(s.delayed[p..], id)
    {
      if s.delayed[p].id == id {
        return true, s.(delayed := s.delayed[..p] + s.delayed[p + 1..], waiting := s.waiting - {id});
      }
      p := p + 1;
    }
    return false, s;
  }

  // ---------------------------------------------------------------- what every step keeps

  /** Pending means queued once; running means held by the worker. */
  ghost predicate FlagsOk(s: State) {
    && Distinct(s.queue)
    && forall id :: (FlagOf(s, id) == Pending <==> id in s.queue) && (FlagOf(s, id) == Running <==> s.worker == Runs(id))
  }

  /** Work is taken in the order it was queued, and the counters add up. */
  ghost predicate Accounted(s: State) {
    && s.log == s.taken + s.queue && s.queued == |s.log| && s.depth == |s.queue|
    && s.completed + (if s.worker == Nobody then 0 else 1) == |s.taken|
    && (s.worker != Nobody ==> s.taken[|s.taken| - 1] == s.worker.id)
  }

  ghost predicate WorkOk(s: State) {
    FlagsOk(s) && Accounted(s)
  }

  ghost predicate Sorted(l: seq<Item>) { forall i, j :: 0 <= i < j < |l| ==> l[i].due <= l[j].due }

  ghost predicate DistinctItems(l: seq<Item>) { forall i, j :: 0 <= i < j < |l| ==> l[i].id != l[j].id }

  /** Due ticks are in order, and the waiting items are those listed, once each. */
  ghost predicate ListOk(s: State, l: seq<Item>) {
    && Sorted(l) && DistinctItems(l)
    && forall id :: id in s.waiting <==> OnList(l, id)
  }

  /** An item is not due before the tick asked for, unless that tick is past or beyond 64 bits. */
  ghost predicate Punctual(s: State, l: seq<Item>) {
    forall i :: 0 <= i < |l| ==> l[i].asked <= l[i].due || l[i].asked <= s.now || TICK_MODULUS <= l[i].asked
  }

  ghost predicate Inv(s: State) {
    && WorkOk(s) && ListOk(s, s.delayed) && Punctual(s, s.delayed) && s.now < TICK_MODULUS
  }

  lemma EnqueueKeeps(s: State, id: Id)
    requires WorkOk(s) && FlagOf(s, id) == Idle
    ensures WorkOk(Enqueue(s, id))
  {
    var r := Enqueue(s, id);
    assert forall j :: j != id ==> FlagOf(r, j) == FlagOf(s, j);
    assert r.log == s.taken + r.queue;
  }

  lemma TakeKeeps(s: State)
    requires WorkOk(s)
    ensures WorkOk(TakeOne(s))
  {
    if s.queue != [] && s.worker == Nobody {
      var r := TakeOne(s);
      assert s.queue == [s.queue[0]] + r.queue;
      assert forall j :: j != s.queue[0] ==> FlagOf(r, j) == FlagOf(s, j);
      assert r.taken + r.queue == s.taken + s.queue;
    }
  }

  lemma CompleteKeeps(s: State)
    requires WorkOk(s)
    ensures WorkOk(Completed(s))
  {
    if s.worker != Nobody {
      var r := Completed(s);
      assert forall j :: j != s.worker.id ==> FlagOf(r, j) == FlagOf(s, j);
    }
  }

  /** Where an inserted item lands. */
  lemma {:induction false} InsertAt(l: seq<Item>, item: Item) returns (p: nat)
    ensures p <= |l| && Insert(l, item) == l[..p] + [item] + l[p..]
    ensures (forall i :: 0 <= i < p ==> l[i].due <= item.due) && (p < |l| ==> item.due < l[p].due)
  {
    if l == [] || l[0].due > item.due {
      p := 0;
    } else {
      p := InsertAt(l[1..], item);
      p := p + 1;
    }
  }

  lemma InsertMembers(l: seq<Item>, item: Item, p: nat, id: Id)
    requires p <= |l|
    ensures OnList(l[..p] + [item] + l[p..], id) <==> OnList(l, id) || id == item.id
  {
    var r := l[..p] + [item] + l[p..];
    assert r[p] == item;
    if OnList(l, id) {
      var i :| 0 <= i < |l| && l[i].id == id;
      assert r[if i < p then i else i + 1] == l[i];
    }
  }

  lemma InsertSorted(l: seq<Item>, item: Item, p: nat)
    requires p <= |l| && Sorted(l) && DistinctItems(l) && !OnList(l, item.id)
    requires (forall i :: 0 <= i < p ==> l[i].due <= item.due) && (p < |l| ==> item.due < l[p].due)
    ensures Sorted(l[..p] + [item] + l[p..]) && DistinctItems(l[..p] + [item] + l[p..])
  {
    var r := l[..p] + [item] + l[p..];
    assert forall i :: 0 <= i < |r| ==> r[i] == if i < p then l[i] else if i == p then item else l[i - 1];
  }

  lemma InsertKeeps(s: State, l: seq<Item>, item: Item)
    requires ListOk(s, l) && item.id !in s.waiting
    ensures ListOk(s.(waiting := s.waiting + {item.id}), Insert(l, item))
    ensures Punctual(s, l) && Punctual(s, [item]) ==> Punctual(s, Insert(l, item))
  {
    var p := InsertAt(l, item);
    InsertSorted(l, item, p);
    forall id { InsertMembers(l, item, p, id); }
  }

  lemma {:induction false} RemovedAt(l: seq<Item>, id: Id) returns (p: nat)
    requires OnList(l, id)
    ensures p < |l| && l[p].id == id && Removed(l, id) == l[..p] + l[p + 1..]
  {
    if l[0].id == id {
      p := 0;
    } else {
      var i :| 0 <= i < |l| && l[i].id == id;
      assert l[1..][i - 1].id == id;
      p := RemovedAt(l[1..], id);
      p := p + 1;
    }
  }

  lemma RemoveMembers(l: seq<Item>, p: nat, id: Id)
    requires p < |l| && DistinctItems(l)
    ensures OnList(l[..p] + l[p + 1..], id) <==> OnList(l, id) && id != l[p].id
  {
    var r := l[..p] + l[p + 1..];
    assert forall i :: 0 <= i < |r| ==> r[i] == l[if i < p then i else i + 1];
    if OnList(l, id) && id != l[p].id {
      var i :| 0 <= i < |l| && l[i].id == id;
      assert r[if i < p then i else i - 1] == l[i];
    }
  }

  lemma RemoveSorted(s: State, l: seq<Item>, p: nat)
    requires p < |l| && Sorted(l) && DistinctItems(l) && Punctual(s, l)
    ensures Sorted(l[..p] + l[p + 1..]) && DistinctItems(l[..p] + l[p + 1..]) && Punctual(s, l[..p] + l[p + 1..])
  {
    var r := l[..p] + l[p + 1..];
    assert forall i :: 0 <= i < |r| ==> r[i] == l[if i < p then i else i + 1];
  }

  lemma RemoveKeeps(s: State, l: seq<Item>, id: Id)
    requires ListOk(s, l) && OnList(l, id) && Punctual(s, l)
    ensures ListOk(s.(waiting := s.waiting - {id}), Removed(l, id)) && Punctual(s, Removed(l, id))
  {
    var p := RemovedAt(l, id);
    RemoveSorted(s, l, p);
    forall j { RemoveMembers(l, p, j); }
  }

  // ---------------------------------------------------------------- what a pass of the timer does

  /** The work a pass moves to the queue: what is due and not busy when it starts, in list order. */
  function Fired(s: State, l: seq<Item>): seq<Id> {
    if l == [] then [] else (if Ready(s, l[0]) then [l[0].id] else []) + Fired(s, l[1..])
  }

  /** What stays listed. */
  function Kept(s: State, l: seq<Item>): seq<Item> {
    if l == [] then [] else (if Ready(s, l[0]) then [] else [Postponed(s, l[0])]) + Kept(s, l[1..])
  }

  /** Moves work from the delayed list to the queue. */
  function Fire(s: State, ids: seq<Id>): State
    decreases |ids|
  {
    if ids == [] then s else Fire(Enqueue(s.(waiting := s.waiting - {ids[0]}), ids[0]), ids[1..])
  }

  lemma {:induction false} SameReady(s: State, r: State, l: seq<Item>)
    requires r.now == s.now && forall i :: 0 <= i < |l| ==> FlagOf(r, l[i].id) == FlagOf(s, l[i].id)
    ensures Fired(r, l) == Fired(s, l) && Kept(r, l) == Kept(s, l)
  {
    if l != [] { SameReady(s, r, l[1..]); }
  }

  /** Work queued during a pass does not change what the rest of the pass does. */
  lemma {:induction false} SweepIs(s: State, l: seq<Item>)
    requires DistinctItems(l)
    ensures Sweep(s, l).0 == Fire(s, Fired(s, l)) && Sweep(s, l).1 == Kept(s, l)
    decreases |l|
  {
    if l != [] {
      assert DistinctItems(l[1..]);
      if Ready(s, l[0]) {
        var r := Enqueue(s.(waiting := s.waiting - {l[0].id}), l[0].id);
        SweepIs(r, l[1..]);
        SameReady(s, r, l[1..]);
        assert Fired(s, l)[1..] == Fired(s, l[1..]);
      } else {
        SweepIs(s, l[1..]);
        assert Fired(s, l) == Fired(s, l[1..]);
      }
    }
  }

  lemma FireOne(s: State, id: Id)
    requires WorkOk(s) && FlagOf(s, id) == Idle
    ensures var q := Enqueue(s.(waiting := s.waiting - {id}), id);
            WorkOk(q) && forall j :: j != id ==> FlagOf(q, j) == FlagOf(s, j)
  {
    var q := s.(waiting := s.waiting - {id});
    SameWork(s, q);
    EnqueueKeeps(q, id);
  }

  lemma {:induction false} FireMoves(s: State, ids: seq<Id>)
    ensures var r := Fire(s, ids);
            && r.log == s.log + ids && r.queue == s.queue + ids && r.now == s.now
            && forall id :: id in r.waiting <==> id in s.waiting && id !in ids
    decreases |ids|
  {
    if ids != [] {
      FireMoves(Enqueue(s.(waiting := s.waiting - {ids[0]}), ids[0]), ids[1..]);
      assert ids == [ids[0]] + ids[1..];
    }
  }

  lemma {:induction false} FireKeeps(s: State, ids: seq<Id>)
    requires WorkOk(s) && Distinct(ids) && forall id :: id in ids ==> FlagOf(s, id) == Idle
    ensures WorkOk(Fire(s, ids))
    decreases |ids|
  {
    if ids != [] {
      FireOne(s, ids[0]);
      var q := Enqueue(s.(waiting := s.waiting - {ids[0]}), ids[0]);
      forall id | id in ids[1..] ensures FlagOf(q, id) == Idle { assert id != ids[0]; }
      FireKeeps(q, ids[1..]);
    }
  }

  /** Every listed item is either moved to the queue or kept, and only one of the two. */
  lemma {:induction false} Partition(s: State, l: seq<Item>)
    requires DistinctItems(l)
    ensures Distinct(Fired(s, l)) && DistinctItems(Kept(s, l))
    ensures forall id :: OnList(l, id) <==> OnList(Kept(s, l), id) || id in Fired(s, l)
    ensures forall id :: id in Fired(s, l) ==> !OnList(Kept(s, l), id) && FlagOf(s, id) == Idle
  {
    if l != [] {
      assert DistinctItems(l[1..]);
      Partition(s, l[1..]);
      var rest, kept := l[1..], Kept(s, l);
      assert forall id :: OnList(l, id) <==> l[0].id == id || OnList(rest, id) by { OnListHead(l); }
      OnListHead(kept);
      assert !OnList(rest, l[0].id);
      if Ready(s, l[0]) {
        assert kept == Kept(s, rest) && Fired(s, l) == [l[0].id] + Fired(s, rest);
      } else {
        assert kept[1..] == Kept(s, rest) && Fired(s, l) == Fired(s, rest);
      }
    }
  }

  lemma OnListHead(l: seq<Item>)
    ensures forall id :: OnList(l, id) <==> l != [] && (l[0].id == id || OnList(l[1..], id))
  {
    forall id ensures OnList(l, id) <==> l != [] && (l[0].id == id || OnList(l[1..], id)) {
      if OnList(l, id) {
        var i :| 0 <= i < |l| && l[i].id == id;
        if i > 0 { assert l[1..][i - 1].id == id; }
      }
      if l != [] && OnList(l[1..], id) {
        var i :| 0 <= i < |l[1..]| && l[1..][i].id == id;
        assert l[i + 1].id == id;
      }
    }
  }

  /** Each kept item comes from the list, and postponing keeps the due ticks in order. */
  lemma {:induction false} KeptSorted(s: State, l: seq<Item>)
    requires Sorted(l) && s.now < TICK_MODULUS
    ensures Sorted(Kept(s, l))
    ensures forall i :: 0 <= i < |Kept(s, l)| ==> exists j :: 0 <= j < |l| && Kept(s, l)[i] == Postponed(s, l[j])
  {
    if l != [] {
      var rest := l[1..];
      assert Sorted(rest);
      KeptSorted(s, rest);
      var tail := Kept(s, rest);
      forall i | 0 <= i < |tail|
        ensures Postponed(s, l[0]).due <= tail[i].due && exists j :: 0 <= j < |l| && tail[i] == Postponed(s, l[j])
      {
        var j :| 0 <= j < |rest| && tail[i] == Postponed(s, rest[j]);
        assert rest[j] == l[j + 1] && l[0].due <= l[j + 1].due;
      }
      if !Ready(s, l[0]) { assert Kept(s, l) == [Postponed(s, l[0])] + tail; }
    }
  }

  lemma TimerKeeps(s: State)
    requires Inv(s)
    ensures Inv(TimerStep(s))
  {
    var l := s.delayed;
    var r := TimerStep(s);
    SweepIs(s, l);
    Partition(s, l);
    FireKeeps(s, Fired(s, l));
    FireMoves(s, Fired(s, l));
    KeptSorted(s, l);
    forall i | 0 <= i < |r.delayed|
      ensures r.delayed[i].asked <= r.delayed[i].due || r.delayed[i].asked <= r.now || TICK_MODULUS <= r.delayed[i].asked
    {
      var j :| 0 <= j < |l| && r.delayed[i] == Postponed(s, l[j]);
    }
    assert forall id :: FlagOf(r, id) == FlagOf(Fire(s, Fired(s, l)), id);
  }

  lemma DelayedKeeps(s: State, id: Id, delay: nat)
    requires Inv(s)
    ensures Inv(Delayed(s, id, delay))
  {
    if id !in s.waiting && FlagOf(s, id) != Pending {
      var item := Item(id, (s.now + delay) % TICK_MODULUS, s.now + delay);
      InsertKeeps(s, s.delayed, item);
    }
    SameWork(s, Delayed(s, id, delay));
  }

  lemma CancelKeeps(s: State, id: Id)
    requires Inv(s)
    ensures Inv(Cancelled(s, id))
  {
    if OnList(s.delayed, id) { RemoveKeeps(s, s.delayed, id); }
    SameWork(s, Cancelled(s, id));
  }

  lemma SameWork(s: State, r: State)
    requires WorkOk(s) && r.queue == s.queue && r.flags == s.flags && r.worker == s.worker
    requires r.queued == s.queued && r.completed == s.completed && r.depth == s.depth
    requires r.log == s.log && r.taken == s.taken
    ensures WorkOk(r)
  {
    assert forall id :: FlagOf(r, id) == FlagOf(s, id);
  }

  lemma StepKeeps(s: State, step: Step)
    requires Inv(s)
    ensures Inv(Next(s, step))
  {
    match step
    case Queue(id) =>
      if FlagOf(s, id) == Idle { EnqueueKeeps(s, id); } else { SameWork(s, s.(rejected := s.rejected + 1)); }
    case Take => TakeKeeps(s);
    case Complete => CompleteKeeps(s);
    case QueueDelayed(id, delay) => DelayedKeeps(s, id, delay);
    case Cancel(id) => CancelKeeps(s, id);
    case Tick => SameWork(s, s.(now := s.now + 1));
    case Timer => TimerKeeps(s);
  }

  // ---------------------------------------------------------------- runs

  function Run(s: State, steps: seq<Step>): State
    decreases |steps|
  {
    if steps == [] then s else Run(Next(s, steps[0]), steps[1..])
  }

  lemma {:induction false} RunKeeps(s: State, steps: seq<Step>)
    requires Inv(s)
    ensures Inv(Run(s, steps))
    decreases |steps|
  {
    if steps != [] {
      StepKeeps(s, steps[0]);
      RunKeeps(Next(s, steps[0]), steps[1..]);
    }
  }

  /**
   In every run: an item is pending iff it is on the queue, then exactly once, and running iff the
   worker holds it; the worker takes work in the order it was queued; the counters balance; and the
   delayed list is sorted by due tick.
   */
  lemma WorkIsAccounted(steps: seq<Step>)
    ensures var r := Run(EMPTY, steps);
            && Distinct(r.queue)
            && (forall id :: (FlagOf(r, id) == Pending <==> id in r.queue) && (FlagOf(r, id) == Running <==> r.worker == Runs(id)))
            && r.taken + r.queue == r.log
            && r.queued == r.completed + r.depth + (if r.worker == Nobody then 0 else 1)
            && Sorted(r.delayed) && DistinctItems(r.delayed)
  {
    RunKeeps(EMPTY, steps);
  }

  /** A delayed item whose tick fits in 64 bits never reaches the queue before the tick asked for. */
  lemma NeverEarly(steps: seq<Step>, item: Item)
    ensures var r := Run(EMPTY, steps);
            item in r.delayed && item.asked < TICK_MODULUS && !OnList(TimerStep(r).delayed, item.id) ==>
              item.asked <= r.now && item.id in TimerStep(r).queue
  {
    RunKeeps(EMPTY, steps);
    var r := Run(EMPTY, steps);
    if item in r.delayed && !OnList(TimerStep(r).delayed, item.id) { FiredIsDue(r, item); }
  }

  lemma FiredIsDue(s: State, item: Item)
    requires Inv(s) && item in s.delayed && !OnList(TimerStep(s).delayed, item.id)
    ensures item.due <= s.now && item.id in TimerStep(s).queue
  {
    var l := s.delayed;
    var i :| 0 <= i < |l| && l[i] == item;
    SweepIs(s, l);
    Partition(s, l);
    if !Ready(s, item) { KeptListed(s, l, i); }
    assert OnList(l, item.id);
    FireKeeps(s, Fired(s, l));
    FireMoves(s, Fired(s, l));
  }

  lemma {:induction false} KeptListed(s: State, l: seq<Item>, i: nat)
    requires i < |l| && !Ready(s, l[i])
    ensures OnList(Kept(s, l), l[i].id)
  {
    OnListHead(Kept(s, l));
    if i > 0 {
      KeptListed(s, l[1..], i - 1);
      if !Ready(s, l[0]) { assert Kept(s, l)[1..] == Kept(s, l[1..]); } else { assert Kept(s, l) == Kept(s, l[1..]); }
    }
  }

  /** A fresh delay is already over iff it is zero or its tick does not fit in 64 bits. */
  lemma DueAtOnceIff(s: State, id: Id, delay: nat)
    requires s.now < TICK_MODULUS && delay < TICK_MODULUS && FlagOf(s, id) == Idle && id !in s.waiting
    ensures var p := InsertedItem(s, id, delay);
            p in Delayed(s, id, delay).delayed && (Ready(Delayed(s, id, delay), p) <==> delay == 0 || s.now + delay >= TICK_MODULUS)
  {
    var p := InsertAt(s.delayed, InsertedItem(s, id, delay));
    assert Delayed(s, id, delay).delayed[p] == InsertedItem(s, id, delay);
  }

  function InsertedItem(s: State, id: Id, delay: nat): Item { Item(id, (s.now + delay) % TICK_MODULUS, s.now + delay) }
}
