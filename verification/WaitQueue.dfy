/**
 Sleeping until a wait queue's sequence number changes. A step is one critical section of the queue
 lock (going to sleep and dropping the lock is one), or one wake by a waker that holds no lock.
 */
module WaitQueue {
  import opened Common

  const MAX_WAITERS := 64
  const SEQ_MODULUS := 0x1_0000_0000_0000_0000

  type Task = nat

  /**
   Where a task is: not using the queue, holding a sequence number it read after `wakes` wake-ups,
   about to look at the queue, asleep, or sleeping a tick because the queue was full. `since` is
   the number of wake-ups before the sequence number was read.
   */
  datatype Phase =
    | Out
    | Holding(number: nat, since: nat)
    | Looking(number: nat, since: nat)
    | Asleep(number: nat, since: nat)
    | Napping(number: nat, since: nat)

  /** `wakers` holds, for each running wake-up, the tasks it has taken and not yet woken. */
  datatype System = System(
    number: nat, waiters: seq<Task>, tasks: map<Task, Phase>, wakers: map<nat, seq<Task>>, wakes: nat)

  datatype Step =
    | ReadSeq(task: Task)
    | Wait(task: Task)
    | Look(task: Task)
    | NapOver(task: Task)
    | Disturb(task: Task)     // a wake from elsewhere
    | WakeAll(waker: nat)     // take the whole list
    | WakeNext(waker: nat)    // wake the first of the tasks taken

  function PhaseOf(s: System, t: Task): Phase { if t in s.tasks then s.tasks[t] else Out }

  function Moved(s: System, t: Task, p: Phase): System { s.(tasks := s.tasks[t := p]) }

  function LookStep(s: System, t: Task): System {
    match PhaseOf(s, t)
    case Looking(n, since) =>
      if s.number != n then Moved(s, t, Out)
      else if t in s.waiters then Moved(s, t, Asleep(n, since))
      else if |s.waiters| < MAX_WAITERS then Moved(s.(waiters := s.waiters + [t]), t, Asleep(n, since))
      else Moved(s, t, Napping(n, since))
    case _ => s
  }

  function Woken(s: System, t: Task): System {
    match PhaseOf(s, t)
    case Asleep(n, since) => Moved(s, t, Looking(n, since))
    case _ => s
  }

  function Next(s: System, step: Step): System {
    match step
    case ReadSeq(t) =>
      if PhaseOf(s, t).Out? || PhaseOf(s, t).Holding? then Moved(s, t, Holding(s.number, s.wakes)) else s
    case Wait(t) =>
      (match PhaseOf(s, t)
       case Holding(n, since) => Moved(s, t, Looking(n, since))
       case _ => s)
    case Look(t) => LookStep(s, t)
    case NapOver(t) =>
      (match PhaseOf(s, t)
       case Napping(n, since) => Moved(s, t, Looking(n, since))
       case _ => s)
    case Disturb(t) => Woken(s, t)
    case WakeAll(w) =>
      if w in s.wakers then s
      else s.(number := (s.number + 1) % SEQ_MODULUS, waiters := [], wakers := s.wakers[w := s.waiters], wakes := s.wakes + 1)
    case WakeNext(w) =>
      if w !in s.wakers then s
      else if s.wakers[w] == [] then s.(wakers := s.wakers - {w})
      else Woken(s, s.wakers[w][0]).(wakers := s.wakers[w := s.wakers[w][1..]])
  }

  // ---------------------------------------------------------------- what every step keeps

  /** Some running wake-up still has to wake t. */
  ghost predicate Claimed(s: System, t: Task) { exists w :: w in s.wakers && t in s.wakers[w] }

  /** A listed task is asleep on the current number, or about to look and go back to sleep. */
  ghost predicate ListOk(s: System) {
    && |s.waiters| <= MAX_WAITERS && Distinct(s.waiters)
    && forall t :: t in s.waiters ==>
         (PhaseOf(s, t).Asleep? || PhaseOf(s, t).Looking?) && PhaseOf(s, t).number == s.number
  }

  /** A sleeping task is on the list or about to be woken. */
  ghost predicate SleepersFound(s: System) {
    forall t :: PhaseOf(s, t).Asleep? ==> t in s.waiters || Claimed(s, t)
  }

  /** The number a task read is the count of wake-ups at that time, in 64 bits. */
  ghost predicate NumbersOk(s: System) {
    && s.number == s.wakes % SEQ_MODULUS
    && forall t :: !PhaseOf(s, t).Out? ==>
         PhaseOf(s, t).since <= s.wakes && PhaseOf(s, t).number == PhaseOf(s, t).since % SEQ_MODULUS
  }

  ghost predicate Inv(s: System) { ListOk(s) && SleepersFound(s) && NumbersOk(s) }

  lemma LookList(s: System, t: Task)
    requires Inv(s)
    ensures ListOk(LookStep(s, t))
  {
    var r := LookStep(s, t);
    assert forall u :: u != t ==> PhaseOf(r, u) == PhaseOf(s, u);
  }

  lemma LookSleepers(s: System, t: Task)
    requires Inv(s)
    ensures SleepersFound(LookStep(s, t))
  {
    var r := LookStep(s, t);
    forall u | PhaseOf(r, u).Asleep? ensures u in r.waiters || Claimed(r, u) {
      if u != t { assert PhaseOf(s, u).Asleep? && (Claimed(s, u) ==> Claimed(r, u)); }
    }
  }

  lemma LookKeeps(s: System, t: Task)
    requires Inv(s)
    ensures Inv(LookStep(s, t))
  {
    LookList(s, t);
    LookSleepers(s, t);
    var r := LookStep(s, t);
    assert forall u :: u != t ==> PhaseOf(r, u) == PhaseOf(s, u);
  }

  lemma WokenKeeps(s: System, t: Task)
    requires Inv(s)
    ensures Inv(Woken(s, t))
  {
    var r := Woken(s, t);
    assert forall u :: u != t ==> PhaseOf(r, u) == PhaseOf(s, u);
    assert forall u :: Claimed(s, u) ==> Claimed(r, u);
  }

  lemma WakeNextKeeps(s: System, w: nat)
    requires Inv(s)
    ensures Inv(Next(s, WakeNext(w)))
  {
    var r := Next(s, WakeNext(w));
    if w in s.wakers {
      if s.wakers[w] != [] {
        var t := s.wakers[w][0];
        WokenKeeps(s, t);
        var q := Woken(s, t);
        assert forall u :: PhaseOf(r, u) == PhaseOf(q, u);
        forall u | PhaseOf(r, u).Asleep? && u !in r.waiters ensures Claimed(r, u) {
          assert u != t && Claimed(s, u);
          var v :| v in s.wakers && u in s.wakers[v];
          if v == w { assert u in s.wakers[w][1..]; }
          assert v in r.wakers && u in r.wakers[v];
        }
      } else {
        assert forall u :: PhaseOf(r, u) == PhaseOf(s, u);
        forall u | PhaseOf(r, u).Asleep? && u !in r.waiters ensures Claimed(r, u) {
          assert Claimed(s, u);
          var v :| v in s.wakers && u in s.wakers[v];
          assert v in r.wakers && u in r.wakers[v];
        }
      }
    }
  }

  lemma WakeAllKeeps(s: System, w: nat)
    requires Inv(s)
    ensures Inv(Next(s, WakeAll(w)))
  {
    var r := Next(s, WakeAll(w));
    assert forall u :: PhaseOf(r, u) == PhaseOf(s, u);
    if w !in s.wakers {
      forall u | PhaseOf(r, u).Asleep? ensures Claimed(r, u) {
        if u in s.waiters {
          assert u in r.wakers[w];
        } else {
          assert Claimed(s, u);
          var v :| v in s.wakers && u in s.wakers[v];
          assert v in r.wakers && u in r.wakers[v];
        }
      }
    }
  }

  lemma StepKeeps(s: System, step: Step)
    requires Inv(s)
    ensures Inv(Next(s, step))
  {
    match step
    case Look(t) => LookKeeps(s, t);
    case Disturb(t) => WokenKeeps(s, t);
    case WakeAll(w) => WakeAllKeeps(s, w);
    case WakeNext(w) => WakeNextKeeps(s, w);
    case _ =>
      var r := Next(s, step);
      assert forall u :: u != step.task ==> PhaseOf(r, u) == PhaseOf(s, u);
      assert forall u :: Claimed(s, u) ==> Claimed(r, u);
  }

  // ---------------------------------------------------------------- runs

  const INITIAL := System(0, [], map[], map[], 0)

  function Run(s: System, steps: seq<Step>): System
    decreases |steps|
  {
    if steps == [] then s else Run(Next(s, steps[0]), steps[1..])
  }

  lemma {:induction false} RunKeeps(s: System, steps: seq<Step>)
    requires Inv(s)
    ensures Inv(Run(s, steps))
    decreases |steps|
  {
    if steps != [] {
      StepKeeps(s, steps[0]);
      RunKeeps(Next(s, steps[0]), steps[1..]);
    }
  }

  /**
   No wake-up is lost: in every run, a task asleep although the number has moved on is among those
   a running wake-up has yet to wake; and the list holds at most 64 different tasks.
   */
  lemma NoLostWakeup(steps: seq<Step>, t: Task)
    ensures var r := Run(INITIAL, steps);
            && |r.waiters| <= MAX_WAITERS && Distinct(r.waiters)
            && (PhaseOf(r, t).Asleep? && PhaseOf(r, t).number != r.number ==> Claimed(r, t))
            && (PhaseOf(r, t).Asleep? && r.wakers == map[] ==> PhaseOf(r, t).number == r.number)
  {
    RunKeeps(INITIAL, steps);
  }

  /** A wait returns only if a wake-up came after the caller read the number it waited on. */
  lemma ReturnsOnlyAfterWake(steps: seq<Step>, t: Task)
    ensures var r := Run(INITIAL, steps);
            PhaseOf(r, t).Looking? && PhaseOf(Next(r, Look(t)), t).Out? ==> PhaseOf(r, t).since < r.wakes
  {
    RunKeeps(INITIAL, steps);
  }
}
