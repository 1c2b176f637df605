/**
 Messages between CPUs. Each CPU owns three reusable message objects, linked by their own `next`
 fields into the list of the CPU they are sent to. A step is one critical section of a mail lock or
 one unlocked action of a handler or of the sender of TLB shootdowns; every interleaving is a run.
 */
module Mailbox {

  datatype Kind = Halt | Shootdown | Reschedule

  /** A message object, named by the CPU that owns it. */
  datatype Id = Id(cpu: nat, kind: Kind)

  datatype Link = Null | To(id: Id)

  /** The address range of a shootdown; no pages means the whole TLB. */
  datatype Range = Range(cr3: nat, addr: nat, pages: nat)

  datatype Mail = Mail(next: Link, queued: bool, handled: bool, range: Range)

  /** Where the mailbox interrupt handler of a CPU is. */
  datatype Handler = Off | Looping | Popped(id: Id) | Executed(id: Id) | Leaving | Stopped

  /** `flushed` records the shootdowns the CPU has executed, oldest first. */
  datatype Cpu = Cpu(
    head: Link, tail: Link, depth: nat, pending: bool, handler: Handler, reschedule: bool, flushed: seq<Range>)

  /**
   The holder of the shootdown lock: sending to CPU i next, or waiting for CPU i. `sent` are the
   CPUs sent to, `base` what each CPU had executed when the lock was taken.
   */
  datatype Flush =
    | Free
    | Sending(i: nat, self: nat, range: Range, sent: set<nat>, base: seq<seq<Range>>)
    | Waiting(i: nat, self: nat, range: Range, sent: set<nat>, base: seq<seq<Range>>)
    | Panicked

  datatype System = System(cpus: seq<Cpu>, mails: map<Id, Mail>, flush: Flush)

  datatype Step =
    | SendHalt(target: nat)
    | SendReschedule(target: nat)
    | StartFlush(self: nat, cr3: nat, addr: nat, pages: nat)
    | FlushNext(skip: bool)          // send to the next CPU, or skip one that needs no flush
    | FlushWait                      // look at one CPU's message
    | FlushReturn
    | Interrupt(cpu: nat)
    | Pop(cpu: nat)
    | Execute(cpu: nat)
    | MarkHandled(cpu: nat)
    | Leave(cpu: nat)

  // ---------------------------------------------------------------- the lists

  /** Appends a message to the list of CPU c. */
  function Append(s: System, c: nat, id: Id): System
    requires c < |s.cpus| && id in s.mails
  {
    var cpu := s.cpus[c];
    var m := s.mails[id := s.mails[id].(next := Null, queued := true, handled := false)];
    if cpu.tail.To? && cpu.tail.id in m then
      s.(mails := m[cpu.tail.id := m[cpu.tail.id].(next := To(id))],
         cpus := s.cpus[c := cpu.(tail := To(id), depth := cpu.depth + 1)])
    else
      s.(mails := m, cpus := s.cpus[c := cpu.(head := To(id), tail := To(id), depth := cpu.depth + 1)])
  }

  /** Unlinks the first message of CPU c and hands it to the handler; with none, the handler is done. */
  function PopHead(s: System, c: nat): System
    requires c < |s.cpus|
  {
    var cpu := s.cpus[c];
    if cpu.head.To? && cpu.head.id in s.mails then
      var id := cpu.head.id;
      var next := s.mails[id].next;
      s.(mails := s.mails[id := s.mails[id].(next := Null, queued := false)],
         cpus := s.cpus[c := cpu.(head := next, tail := if next.Null? then Null else cpu.tail,
                                  depth := if cpu.depth == 0 then 0 else cpu.depth - 1, handler := Popped(id))])
    else
      s.(cpus := s.cpus[c := cpu.(tail := Null, depth := 0, handler := Leaving)])
  }

  function LinkAt(l: seq<Id>, i: nat): Link { if i < |l| then To(l[i]) else Null }

  /** The links of CPU c spell out the list l, which ends, repeats nothing and has the right length. */
  ghost predicate Spells(mails: map<Id, Mail>, cpu: Cpu, l: seq<Id>) {
    && cpu.depth == |l| && cpu.head == LinkAt(l, 0) && cpu.tail == (if l == [] then Null else To(l[|l| - 1]))
    && (forall i :: 0 <= i < |l| ==> l[i] in mails && mails[l[i]].next == LinkAt(l, i + 1))
    && NoRepeat(l)
  }

  ghost predicate NoRepeat(l: seq<Id>) { l != [] ==> l[0] !in l[1..] && NoRepeat(l[1..]) }

  lemma {:induction false} NoRepeatAt(l: seq<Id>, i: nat, j: nat)
    requires NoRepeat(l) && i < j < |l|
    ensures l[i] != l[j]
  {
    if i > 0 { NoRepeatAt(l[1..], i - 1, j - 1); } else { assert l[j] in l[1..]; }
  }

  lemma {:induction false} NoRepeatAppend(l: seq<Id>, id: Id)
    requires NoRepeat(l) && id !in l
    ensures NoRepeat(l + [id])
  {
    if l != [] {
      NoRepeatAppend(l[1..], id);
      assert (l + [id])[1..] == l[1..] + [id];
    }
  }

  lemma AppendSpells(s: System, c: nat, id: Id, l: seq<Id>)
    requires c < |s.cpus| && id in s.mails && Spells(s.mails, s.cpus[c], l) && id !in l
    ensures Spells(Append(s, c, id).mails, Append(s, c, id).cpus[c], l + [id])
  {
    var r := Append(s, c, id);
    var m := l + [id];
    forall i | 0 <= i < |m| ensures m[i] in r.mails && r.mails[m[i]].next == LinkAt(m, i + 1) {
      if i < |l| - 1 { NoRepeatAt(l, i, |l| - 1); }
    }
    NoRepeatAppend(l, id);
  }

  lemma PopSpells(s: System, c: nat, l: seq<Id>)
    requires c < |s.cpus| && Spells(s.mails, s.cpus[c], l) && l != []
    ensures PopHead(s, c).cpus[c].handler == Popped(l[0])
    ensures Spells(PopHead(s, c).mails, PopHead(s, c).cpus[c], l[1..])
  {
    var r := PopHead(s, c);
    assert forall i :: 0 <= i < |l[1..]| ==> l[1..][i] == l[i + 1] && l[1..][i] in l[1..];
  }

  /** A list none of whose messages changed its link still spells the same. */
  lemma SpellsFrame(before: map<Id, Mail>, after: map<Id, Mail>, cpu: Cpu, l: seq<Id>)
    requires Spells(before, cpu, l)
    requires forall id :: id in l ==> id in after && after[id].next == before[id].next
    ensures Spells(after, cpu, l)
  {
  }

  // ---------------------------------------------------------------- steps

  /** Sends a message to the CPU that owns it, unless an earlier use of it is still in progress. */
  function Send(s: System, c: nat, kind: Kind): System
    requires c < |s.cpus| && Id(c, kind) in s.mails
  {
    var mail := s.mails[Id(c, kind)];
    if mail.queued || !mail.handled then s
    else if kind == Reschedule && s.cpus[c].pending then s
    else if kind == Reschedule then
      Append(s.(cpus := s.cpus[c := s.cpus[c].(pending := true)]), c, Id(c, kind))
    else Append(s, c, Id(c, kind))
  }

  /** What the sender is told. A halt that finds its message in use panics, unless it is sent by a panic. */
  datatype Status = Queued | Busy | AlreadyPending

  function StatusOf(s: System, c: nat, kind: Kind): Status
    requires c < |s.cpus| && Id(c, kind) in s.mails
  {
    var mail := s.mails[Id(c, kind)];
    if mail.queued || !mail.handled then if kind == Reschedule then AlreadyPending else Busy
    else if kind == Reschedule && s.cpus[c].pending then AlreadyPending
    else Queued
  }

  /** Ranges of more than 256 pages are flushed as a whole. */
  function PageCount(pages: nat): nat { if pages > 256 then 0 else pages }

  function Flushed(s: System): seq<seq<Range>> { seq(|s.cpus|, i requires 0 <= i < |s.cpus| => s.cpus[i].flushed) }

  function Filled(mails: map<Id, Mail>, id: Id, range: Range): map<Id, Mail>
    requires id in mails
  {
    mails[id := mails[id].(range := range)]
  }

  /** Fills in and sends the shootdown message of CPU c. */
  function SendShootdown(s: System, c: nat, range: Range): System
    requires c < |s.cpus| && Id(c, Shootdown) in s.mails
  {
    Send(s.(mails := Filled(s.mails, Id(c, Shootdown), range)), c, Shootdown)
  }

  function FlushStep(s: System, skip: bool): System {
    match s.flush
    case Sending(i, self, range, sent, base) =>
      if i >= |s.cpus| then s.(flush := Waiting(if sent == {} then i else 0, self, range, sent, base))
      else if i == self || skip then s.(flush := Sending(i + 1, self, range, sent, base))
      else if Id(i, Shootdown) !in s.mails || !s.mails[Id(i, Shootdown)].handled || s.mails[Id(i, Shootdown)].queued then
        s.(flush := Panicked)
      else SendShootdown(s, i, range).(flush := Sending(i + 1, self, range, sent + {i}, base))
    case _ => s
  }

  function WaitStep(s: System): System {
    match s.flush
    case Waiting(i, self, range, sent, base) =>
      if i < |s.cpus| && (i == self || (Id(i, Shootdown) in s.mails && s.mails[Id(i, Shootdown)].handled)) then
        s.(flush := Waiting(i + 1, self, range, sent, base))
      else s
    case _ => s
  }

  /** What the handler does with the message it popped. */
  function ExecuteStep(s: System, c: nat): System
    requires c < |s.cpus|
  {
    var cpu := s.cpus[c];
    if !cpu.handler.Popped? || cpu.handler.id !in s.mails then s
    else
      var id := cpu.handler.id;
      match id.kind
      case Halt =>
        s.(mails := s.mails[id := s.mails[id].(handled := true)], cpus := s.cpus[c := cpu.(handler := Stopped)])
      case Shootdown =>
        s.(cpus := s.cpus[c := cpu.(handler := Executed(id), flushed := cpu.flushed + [s.mails[id].range])])
      case Reschedule => s.(cpus := s.cpus[c := cpu.(handler := Executed(id), reschedule := true)])
  }

  function HandledStep(s: System, c: nat): System
    requires c < |s.cpus|
  {
    var cpu := s.cpus[c];
    if !cpu.handler.Executed? || cpu.handler.id !in s.mails then s
    else
      var id := cpu.handler.id;
      s.(mails := s.mails[id := s.mails[id].(handled := true)], cpus := s.cpus[c := cpu.(handler := Looping)])
  }

  function SetCpu(s: System, c: nat, cpu: Cpu): System
    requires c < |s.cpus|
  {
    s.(cpus := s.cpus[c := cpu])
  }

  function Entered(cpu: Cpu): Cpu { cpu.(handler := Looping) }

  /** The handler returns; a reschedule it saw is then done with, by a switch or as deferred. */
  function Left(cpu: Cpu): Cpu {
    cpu.(handler := Off, reschedule := false, pending := if cpu.reschedule then false else cpu.pending)
  }

  function Next(s: System, step: Step): (r: System)
    ensures |r.cpus| == |s.cpus|
  {
    match step
    case SendHalt(c) => if c < |s.cpus| && Id(c, Halt) in s.mails then Send(s, c, Halt) else s
    case SendReschedule(c) => if c < |s.cpus| && Id(c, Reschedule) in s.mails then Send(s, c, Reschedule) else s
    case StartFlush(self, cr3, addr, pages) =>
      if s.flush != Free then s
      else s.(flush := Sending(0, self, Range(cr3, addr, PageCount(pages)), {}, Flushed(s)))
    case FlushNext(skip) => FlushStep(s, skip)
    case FlushWait => WaitStep(s)
    case FlushReturn => if s.flush.Waiting? && s.flush.i >= |s.cpus| then s.(flush := Free) else s
    case Interrupt(c) => if c < |s.cpus| && s.cpus[c].handler == Off then SetCpu(s, c, Entered(s.cpus[c])) else s
    case Pop(c) => if c < |s.cpus| && s.cpus[c].handler == Looping then PopHead(s, c) else s
    case Execute(c) => if c < |s.cpus| then ExecuteStep(s, c) else s
    case MarkHandled(c) => if c < |s.cpus| then HandledStep(s, c) else s
    case Leave(c) => if c < |s.cpus| && s.cpus[c].handler == Leaving then SetCpu(s, c, Left(s.cpus[c])) else s
  }

  // ---------------------------------------------------------------- what every step keeps

  /** The handler has unlinked the message and not finished with it. */
  predicate Held(cpu: Cpu, id: Id) { cpu.handler == Popped(id) || cpu.handler == Executed(id) }

  /** A message is queued iff it is on its CPU's list, and unhandled iff it is there or with the handler. */
  ghost predicate FlagsOk(mail: Mail, cpu: Cpu, l: seq<Id>, id: Id) {
    && (mail.queued <==> id in l) && !(mail.queued && Held(cpu, id))
    && (!mail.handled <==> mail.queued || Held(cpu, id))
  }

  /** A reschedule that was promised is with a message, or with a handler that has seen it and not yet returned. */
  ghost predicate PromiseKept(mail: Mail, cpu: Cpu, c: nat) {
    && (cpu.pending ==> !mail.handled || cpu.reschedule)
    && (cpu.handler == Executed(Id(c, Reschedule)) ==> cpu.reschedule)
    && (cpu.handler == Off ==> !cpu.reschedule)
  }

  ghost predicate CpuOk(mails: map<Id, Mail>, cpu: Cpu, c: nat, l: seq<Id>) {
    && Spells(mails, cpu, l) && (forall id :: id in l ==> id.cpu == c)
    && (forall kind :: Id(c, kind) in mails && FlagsOk(mails[Id(c, kind)], cpu, l, Id(c, kind)))
    && ((cpu.handler.Popped? || cpu.handler.Executed?) ==> cpu.handler.id.cpu == c)
    && PromiseKept(mails[Id(c, Reschedule)], cpu, c)
  }

  /** CPU c was sent `range` and has executed exactly that since, or has yet to. */
  ghost predicate Delivered(mail: Mail, cpu: Cpu, c: nat, range: Range, base: seq<Range>) {
    && mail.range == range
    && cpu.flushed == base + if mail.handled || cpu.handler == Executed(Id(c, Shootdown)) then [range] else []
  }

  /** What the shootdown in progress, if any, has done to CPU c. */
  ghost predicate FlushCpu(mail: Mail, cpu: Cpu, c: nat, flush: Flush) {
    match flush
    case Free => mail.handled
    case Sending(i, self, range, sent, base) =>
      if c in sent then c < i && c != self && c < |base| && Delivered(mail, cpu, c, range, base[c])
      else mail.handled && c < |base| && cpu.flushed == base[c]
    case Waiting(i, self, range, sent, base) =>
      && (c < i && c != self ==> mail.handled)
      && if c in sent then c != self && c < |base| && Delivered(mail, cpu, c, range, base[c])
         else mail.handled && c < |base| && cpu.flushed == base[c]
    case Panicked => false
  }

  ghost predicate Good(s: System, c: nat, l: seq<Id>)
    requires c < |s.cpus|
  {
    CpuOk(s.mails, s.cpus[c], c, l) && FlushCpu(s.mails[Id(c, Shootdown)], s.cpus[c], c, s.flush)
  }

  /** l gives the list of each CPU. */
  ghost predicate Inv(s: System, l: seq<seq<Id>>) {
    && s.flush != Panicked && |l| == |s.cpus|
    && (forall c: nat :: c < |s.cpus| ==> Good(s, c, l[c]))
  }

  /** A step that touches one CPU and that CPU's messages only. */
  lemma OneCpu(s: System, r: System, l: seq<seq<Id>>, c: nat, m: seq<Id>)
    requires Inv(s, l) && c < |s.cpus| && |r.cpus| == |s.cpus| && r.flush == s.flush
    requires forall d: nat :: d < |s.cpus| && d != c ==> r.cpus[d] == s.cpus[d]
    requires forall id :: id in s.mails && id.cpu != c ==> id in r.mails && r.mails[id] == s.mails[id]
    requires Good(r, c, m)
    ensures Inv(r, l[c := m])
  {
    var after := l[c := m];
    forall d: nat | d < |r.cpus| ensures Good(r, d, after[d]) {
      if d != c {
        assert Good(s, d, l[d]);
        SpellsFrame(s.mails, r.mails, s.cpus[d], l[d]);
      }
    }
  }

  /** Sending a message only touches the CPU it is for and that CPU's messages. */
  lemma SendFrame(s: System, c: nat, kind: Kind, l: seq<Id>)
    requires c < |s.cpus| && CpuOk(s.mails, s.cpus[c], c, l)
    ensures var r := Send(s, c, kind);
            && r.flush == s.flush && |r.cpus| == |s.cpus|
            && (forall d: nat :: d < |s.cpus| && d != c ==> r.cpus[d] == s.cpus[d])
            && (forall id :: id in s.mails && id.cpu != c ==> id in r.mails && r.mails[id] == s.mails[id])
  {
    if l != [] { assert l[|l| - 1] in l; }
  }

  lemma AppendFlags(s: System, c: nat, kind: Kind, l: seq<Id>, k: Kind)
    requires c < |s.cpus| && CpuOk(s.mails, s.cpus[c], c, l) && s.mails[Id(c, kind)].handled
    ensures var r := Append(s, c, Id(c, kind));
            Id(c, k) in r.mails && FlagsOk(r.mails[Id(c, k)], r.cpus[c], l + [Id(c, kind)], Id(c, k))
  {
    assert FlagsOk(s.mails[Id(c, k)], s.cpus[c], l, Id(c, k));
    assert FlagsOk(s.mails[Id(c, kind)], s.cpus[c], l, Id(c, kind));
  }

  lemma AppendGood(s: System, c: nat, kind: Kind, l: seq<Id>)
    requires c < |s.cpus| && CpuOk(s.mails, s.cpus[c], c, l) && s.mails[Id(c, kind)].handled
    ensures var r := Append(s, c, Id(c, kind)); CpuOk(r.mails, r.cpus[c], c, l + [Id(c, kind)])
  {
    assert FlagsOk(s.mails[Id(c, kind)], s.cpus[c], l, Id(c, kind));
    AppendSpells(s, c, Id(c, kind), l);
    forall k { AppendFlags(s, c, kind, l, k); }
  }

  /** Marking the promise of a reschedule along with its message. */
  lemma PromisedGood(s: System, c: nat, l: seq<Id>)
    requires c < |s.cpus| && CpuOk(s.mails, s.cpus[c], c, l) && s.mails[Id(c, Reschedule)].handled
    ensures var r := Append(s.(cpus := s.cpus[c := s.cpus[c].(pending := true)]), c, Id(c, Reschedule));
            CpuOk(r.mails, r.cpus[c], c, l + [Id(c, Reschedule)])
  {
    AppendGood(s, c, Reschedule, l);
    var q := Append(s, c, Id(c, Reschedule));
    var r := Append(s.(cpus := s.cpus[c := s.cpus[c].(pending := true)]), c, Id(c, Reschedule));
    assert r.mails == q.mails && r.cpus[c] == q.cpus[c].(pending := true);
    forall k ensures FlagsOk(r.mails[Id(c, k)], r.cpus[c], l + [Id(c, Reschedule)], Id(c, k)) {
      assert FlagsOk(q.mails[Id(c, k)], q.cpus[c], l + [Id(c, Reschedule)], Id(c, k));
    }
  }

  lemma SendGood(s: System, c: nat, kind: Kind, l: seq<Id>) returns (m: seq<Id>)
    requires c < |s.cpus| && CpuOk(s.mails, s.cpus[c], c, l)
    ensures var r := Send(s, c, kind); CpuOk(r.mails, r.cpus[c], c, m)
  {
    var mail := s.mails[Id(c, kind)];
    m := l;
    if !mail.queued && mail.handled && !(kind == Reschedule && s.cpus[c].pending) {
      m := l + [Id(c, kind)];
      if kind == Reschedule { PromisedGood(s, c, l); } else { AppendGood(s, c, kind, l); }
    }
  }

  /** Sending a message other than a shootdown, at any time and from anywhere. */
  lemma SendKeeps(s: System, l: seq<seq<Id>>, c: nat, kind: Kind) returns (m: seq<seq<Id>>)
    requires Inv(s, l) && c < |s.cpus| && kind != Shootdown
    ensures Id(c, kind) in s.mails && Inv(Send(s, c, kind), m)
  {
    assert Good(s, c, l[c]);
    var mc := SendGood(s, c, kind, l[c]);
    var r := Send(s, c, kind);
    SendFrame(s, c, kind, l[c]);
    SendMovesOne(s, c, kind, l[c]);
    OneCpu(s, r, l, c, mc);
    m := l[c := mc];
  }

  /** Sending one message leaves the contents and flags of the owner's other messages alone. */
  lemma SendMovesOne(s: System, c: nat, kind: Kind, l: seq<Id>)
    requires c < |s.cpus| && CpuOk(s.mails, s.cpus[c], c, l)
    ensures var r := Send(s, c, kind);
            && r.cpus[c].flushed == s.cpus[c].flushed && r.cpus[c].handler == s.cpus[c].handler
            && forall k :: Id(c, k) in r.mails && r.mails[Id(c, k)].range == s.mails[Id(c, k)].range &&
                           (k != kind ==> r.mails[Id(c, k)].handled == s.mails[Id(c, k)].handled)
  {
  }

  /** Popping unqueues the first message and hands it to the handler; the others stay as they are. */
  lemma PopFirst(s: System, c: nat, l: seq<Id>)
    requires c < |s.cpus| && CpuOk(s.mails, s.cpus[c], c, l) && l != []
    ensures l[0] in s.mails && l[0] !in l[1..] && l[0].cpu == c
    ensures PopHead(s, c).mails == s.mails[l[0] := s.mails[l[0]].(next := Null, queued := false)]
    ensures PopHead(s, c).cpus[c].handler == Popped(l[0])
    ensures PopHead(s, c).cpus[c].flushed == s.cpus[c].flushed
  {
    assert l[0] in l;
  }

  /** The flags of a message of the CPU still agree with its list and its handler. */
  lemma PopFlags(mail: Mail, cpu: Cpu, after: Cpu, l: seq<Id>, id: Id)
    requires l != [] && l[0] !in l[1..] && FlagsOk(mail, cpu, l, id)
    requires cpu.handler == Looping && after.handler == Popped(l[0])
    ensures FlagsOk(if id == l[0] then mail.(next := Null, queued := false) else mail, after, l[1..], id)
  {
    assert id in l <==> id == l[0] || id in l[1..] by { assert l == [l[0]] + l[1..]; }
  }

  lemma PopFlagsAll(s: System, c: nat, l: seq<Id>)
    requires c < |s.cpus| && CpuOk(s.mails, s.cpus[c], c, l) && s.cpus[c].handler == Looping && l != []
    ensures var r := PopHead(s, c);
            forall k :: Id(c, k) in r.mails && FlagsOk(r.mails[Id(c, k)], r.cpus[c], l[1..], Id(c, k))
  {
    var r := PopHead(s, c);
    PopFirst(s, c, l);
    forall k ensures Id(c, k) in r.mails && FlagsOk(r.mails[Id(c, k)], r.cpus[c], l[1..], Id(c, k)) {
      assert FlagsOk(s.mails[Id(c, k)], s.cpus[c], l, Id(c, k));
      PopFlags(s.mails[Id(c, k)], s.cpus[c], r.cpus[c], l, Id(c, k));
    }
  }

  /** Popping leaves promises alone: the message stays unhandled while the handler has it. */
  lemma PopPromise(s: System, c: nat, l: seq<Id>)
    requires c < |s.cpus| && CpuOk(s.mails, s.cpus[c], c, l) && s.cpus[c].handler == Looping && l != []
    ensures var r := PopHead(s, c);
            Id(c, Reschedule) in r.mails && PromiseKept(r.mails[Id(c, Reschedule)], r.cpus[c], c)
  {
    PopFirst(s, c, l);
  }

  lemma PopGood(s: System, c: nat, l: seq<Id>)
    requires c < |s.cpus| && CpuOk(s.mails, s.cpus[c], c, l) && s.cpus[c].handler == Looping && l != []
    ensures CpuOk(PopHead(s, c).mails, PopHead(s, c).cpus[c], c, l[1..])
  {
    assert l[0] in l && forall id :: id in l[1..] ==> id in l;
    PopSpells(s, c, l);
    PopFlagsAll(s, c, l);
    PopPromise(s, c, l);
  }

  /** The parts of CPU c that say what its list is. */
  ghost predicate SameLinks(s: System, r: System, c: nat)
    requires c < |s.cpus| && |r.cpus| == |s.cpus|
  {
    && r.cpus[c].head == s.cpus[c].head && r.cpus[c].tail == s.cpus[c].tail && r.cpus[c].depth == s.cpus[c].depth
    && forall id :: id in s.mails ==> id in r.mails && r.mails[id].next == s.mails[id].next
  }

  lemma SameList(s: System, r: System, c: nat, l: seq<Id>)
    requires c < |s.cpus| && |r.cpus| == |s.cpus| && Spells(s.mails, s.cpus[c], l) && SameLinks(s, r, c)
    ensures Spells(r.mails, r.cpus[c], l)
  {
  }

  lemma EnterLeaveGood(s: System, c: nat, l: seq<Id>)
    requires c < |s.cpus| && Good(s, c, l)
    ensures s.cpus[c].handler == Off ==> Good(SetCpu(s, c, Entered(s.cpus[c])), c, l)
    ensures s.cpus[c].handler == Leaving ==> Good(SetCpu(s, c, Left(s.cpus[c])), c, l)
  {
    SameList(s, SetCpu(s, c, Entered(s.cpus[c])), c, l);
    SameList(s, SetCpu(s, c, Left(s.cpus[c])), c, l);
  }

  lemma ExecuteHalt(s: System, c: nat, l: seq<Id>)
    requires c < |s.cpus| && Good(s, c, l) && s.cpus[c].handler == Popped(Id(c, Halt))
    ensures Good(ExecuteStep(s, c), c, l)
  {
    SameList(s, ExecuteStep(s, c), c, l);
    assert FlagsOk(s.mails[Id(c, Halt)], s.cpus[c], l, Id(c, Halt));
  }

  lemma ExecuteShootdown(s: System, c: nat, l: seq<Id>)
    requires c < |s.cpus| && Good(s, c, l) && s.cpus[c].handler == Popped(Id(c, Shootdown))
    ensures Good(ExecuteStep(s, c), c, l)
  {
    SameList(s, ExecuteStep(s, c), c, l);
    assert FlagsOk(s.mails[Id(c, Shootdown)], s.cpus[c], l, Id(c, Shootdown));
  }

  lemma ExecuteReschedule(s: System, c: nat, l: seq<Id>)
    requires c < |s.cpus| && Good(s, c, l) && s.cpus[c].handler == Popped(Id(c, Reschedule))
    ensures Good(ExecuteStep(s, c), c, l)
  {
    SameList(s, ExecuteStep(s, c), c, l);
    assert FlagsOk(s.mails[Id(c, Reschedule)], s.cpus[c], l, Id(c, Reschedule));
  }

  lemma ExecuteGood(s: System, c: nat, l: seq<Id>)
    requires c < |s.cpus| && Good(s, c, l)
    ensures Good(ExecuteStep(s, c), c, l)
  {
    if s.cpus[c].handler.Popped? {
      match s.cpus[c].handler.id.kind
      case Halt => ExecuteHalt(s, c, l);
      case Shootdown => ExecuteShootdown(s, c, l);
      case Reschedule => ExecuteReschedule(s, c, l);
    }
  }

  lemma HandledGood(s: System, c: nat, l: seq<Id>)
    requires c < |s.cpus| && Good(s, c, l)
    ensures Good(HandledStep(s, c), c, l)
  {
    SameList(s, HandledStep(s, c), c, l);
    if s.cpus[c].handler.Executed? {
      var id := s.cpus[c].handler.id;
      assert id == Id(c, id.kind) && FlagsOk(s.mails[id], s.cpus[c], l, id);
    }
  }

  /** A step of the handler of one CPU keeps the invariant everywhere. */
  lemma HandlerKeeps(s: System, r: System, l: seq<seq<Id>>, c: nat)
    requires Inv(s, l) && c < |s.cpus|
    requires || (s.cpus[c].handler == Off && r == SetCpu(s, c, Entered(s.cpus[c])))
             || (s.cpus[c].handler == Leaving && r == SetCpu(s, c, Left(s.cpus[c])))
             || r == ExecuteStep(s, c) || r == HandledStep(s, c)
    ensures Inv(r, l)
  {
    assert Good(s, c, l[c]);
    EnterLeaveGood(s, c, l[c]);
    ExecuteGood(s, c, l[c]);
    HandledGood(s, c, l[c]);
    OneCpu(s, r, l, c, l[c]);
    assert l[c := l[c]] == l;
  }

  /** With an empty list the handler only stops looking. */
  lemma PopNothing(s: System, c: nat, l: seq<Id>)
    requires c < |s.cpus| && Good(s, c, l) && s.cpus[c].handler == Looping && l == []
    ensures Good(PopHead(s, c), c, l) && PopHead(s, c).mails == s.mails
  {
    SameList(s, PopHead(s, c), c, l);
  }

  lemma PopKeeps(s: System, l: seq<seq<Id>>, c: nat) returns (m: seq<seq<Id>>)
    requires Inv(s, l) && c < |s.cpus| && s.cpus[c].handler == Looping
    ensures Inv(PopHead(s, c), m)
  {
    assert Good(s, c, l[c]);
    var mc := if l[c] == [] then [] else l[c][1..];
    if l[c] == [] {
      PopNothing(s, c, l[c]);
    } else {
      PopGood(s, c, l[c]);
      PopFirst(s, c, l[c]);
    }
    OneCpu(s, PopHead(s, c), l, c, mc);
    m := l[c := mc];
  }

  // ---------------------------------------------------------------- shootdowns

  /** While the lock is free every shootdown message is idle, so the sender never finds one in use. */
  lemma ShootdownIsIdle(s: System, l: seq<seq<Id>>, c: nat)
    requires Inv(s, l) && s.flush.Sending? && s.flush.i == c < |s.cpus|
    ensures Id(c, Shootdown) in s.mails && s.mails[Id(c, Shootdown)].handled && !s.mails[Id(c, Shootdown)].queued
    ensures c !in s.flush.sent
  {
    assert Good(s, c, l[c]);
    assert FlagsOk(s.mails[Id(c, Shootdown)], s.cpus[c], l[c], Id(c, Shootdown));
  }

  /** Filling in the range of an idle message disturbs nothing. */
  lemma FillGood(s: System, c: nat, range: Range, l: seq<Id>)
    requires c < |s.cpus| && CpuOk(s.mails, s.cpus[c], c, l)
    ensures CpuOk(Filled(s.mails, Id(c, Shootdown), range), s.cpus[c], c, l)
  {
    var mails := Filled(s.mails, Id(c, Shootdown), range);
    SpellsFrame(s.mails, mails, s.cpus[c], l);
    forall k ensures Id(c, k) in mails && FlagsOk(mails[Id(c, k)], s.cpus[c], l, Id(c, k)) {
      assert FlagsOk(s.mails[Id(c, k)], s.cpus[c], l, Id(c, k));
    }
  }

  /** Sending a shootdown leaves the CPU's list exact. */
  lemma ShootdownSent(s: System, c: nat, range: Range, l: seq<Id>) returns (m: seq<Id>)
    requires c < |s.cpus| && CpuOk(s.mails, s.cpus[c], c, l)
    ensures var r := SendShootdown(s, c, range); CpuOk(r.mails, r.cpus[c], c, m)
  {
    FillGood(s, c, range, l);
    m := SendGood(s.(mails := Filled(s.mails, Id(c, Shootdown), range)), c, Shootdown, l);
  }

  /** Sending a shootdown touches no other CPU. */
  lemma ShootdownFrame(s: System, c: nat, range: Range, l: seq<Id>)
    requires c < |s.cpus| && CpuOk(s.mails, s.cpus[c], c, l)
    ensures var r := SendShootdown(s, c, range);
            && |r.cpus| == |s.cpus|
            && (forall d: nat :: d < |s.cpus| && d != c ==> r.cpus[d] == s.cpus[d])
            && (forall id :: id in s.mails && id.cpu != c ==> id in r.mails && r.mails[id] == s.mails[id])
  {
    FillGood(s, c, range, l);
    SendFrame(s.(mails := Filled(s.mails, Id(c, Shootdown), range)), c, Shootdown, l);
  }

  /** An idle shootdown message that is sent carries the range and waits for the handler. */
  lemma ShootdownCarries(s: System, c: nat, range: Range, l: seq<Id>)
    requires c < |s.cpus| && CpuOk(s.mails, s.cpus[c], c, l)
    requires s.mails[Id(c, Shootdown)].handled && !s.mails[Id(c, Shootdown)].queued
    ensures var r := SendShootdown(s, c, range);
            && Id(c, Shootdown) in r.mails && r.mails[Id(c, Shootdown)].range == range && !r.mails[Id(c, Shootdown)].handled
            && c < |r.cpus| && r.cpus[c].flushed == s.cpus[c].flushed && r.cpus[c].handler != Executed(Id(c, Shootdown))
  {
    assert FlagsOk(s.mails[Id(c, Shootdown)], s.cpus[c], l, Id(c, Shootdown));
    FillGood(s, c, range, l);
    SendMovesOne(s.(mails := Filled(s.mails, Id(c, Shootdown), range)), c, Shootdown, l);
  }

  lemma FlushKeeps(s: System, l: seq<seq<Id>>, skip: bool) returns (m: seq<seq<Id>>)
    requires Inv(s, l) && s.flush.Sending?
    ensures Inv(FlushStep(s, skip), m)
  {
    m := l;
    var r := FlushStep(s, skip);
    var i := s.flush.i;
    if i >= |s.cpus| || i == s.flush.self || skip {
      forall c: nat | c < |r.cpus| ensures Good(r, c, m[c]) { assert Good(s, c, l[c]); }
    } else {
      ShootdownIsIdle(s, l, i);
      assert Good(s, i, l[i]);
      var mi := ShootdownSent(s, i, s.flush.range, l[i]);
      ShootdownFrame(s, i, s.flush.range, l[i]);
      ShootdownCarries(s, i, s.flush.range, l[i]);
      m := l[i := mi];
      forall c: nat | c < |r.cpus| ensures Good(r, c, m[c]) {
        assert Good(s, c, l[c]);
        if c != i { SpellsFrame(s.mails, r.mails, s.cpus[c], l[c]); }
      }
    }
  }

  /** Steps that only move the shootdown sender on. */
  lemma SenderKeeps(s: System, l: seq<seq<Id>>, step: Step)
    requires Inv(s, l) && (step.StartFlush? || step.FlushWait? || step.FlushReturn?)
    ensures Inv(Next(s, step), l)
  {
    var r := Next(s, step);
    forall c: nat | c < |r.cpus| ensures Good(r, c, l[c]) { assert Good(s, c, l[c]); }
  }

  lemma StepKeeps(s: System, l: seq<seq<Id>>, step: Step) returns (m: seq<seq<Id>>)
    requires Inv(s, l)
    ensures Inv(Next(s, step), m)
  {
    m := l;
    match step
    case SendHalt(c) => if c < |s.cpus| { m := SendKeeps(s, l, c, Halt); }
    case SendReschedule(c) => if c < |s.cpus| { m := SendKeeps(s, l, c, Reschedule); }
    case FlushNext(skip) => if s.flush.Sending? { m := FlushKeeps(s, l, skip); }
    case Pop(c) => if c < |s.cpus| && s.cpus[c].handler == Looping { m := PopKeeps(s, l, c); }
    case Interrupt(c) => if c < |s.cpus| && s.cpus[c].handler == Off { HandlerKeeps(s, Next(s, step), l, c); }
    case Leave(c) => if c < |s.cpus| && s.cpus[c].handler == Leaving { HandlerKeeps(s, Next(s, step), l, c); }
    case Execute(c) => if c < |s.cpus| { HandlerKeeps(s, Next(s, step), l, c); }
    case MarkHandled(c) => if c < |s.cpus| { HandlerKeeps(s, Next(s, step), l, c); }
    case _ => SenderKeeps(s, l, step);
  }

  // ---------------------------------------------------------------- runs

  const FRESH_CPU := Cpu(Null, Null, 0, false, Off, false, [])

  /** n CPUs with empty lists, and all their messages idle. */
  function Initial(n: nat, range: Range): System {
    System(seq(n, _ => FRESH_CPU),
           map c: nat, kind: Kind | c < n :: Id(c, kind) := Mail(Null, false, true, range), Free)
  }

  lemma InitialInv(n: nat, range: Range)
    ensures Inv(Initial(n, range), seq(n, _ => []))
  {
    var s, l := Initial(n, range), seq(n, _ => []);
    forall c: nat | c < n ensures Good(s, c, l[c]) {
      forall kind ensures Id(c, kind) in s.mails && FlagsOk(s.mails[Id(c, kind)], s.cpus[c], l[c], Id(c, kind)) { }
    }
  }

  function Run(s: System, steps: seq<Step>): (r: System)
    ensures |r.cpus| == |s.cpus|
    decreases |steps|
  {
    if steps == [] then s else Run(Next(s, steps[0]), steps[1..])
  }

  lemma {:induction false} RunKeeps(s: System, l: seq<seq<Id>>, steps: seq<Step>) returns (m: seq<seq<Id>>)
    requires Inv(s, l)
    ensures Inv(Run(s, steps), m)
    decreases |steps|
  {
    m := l;
    if steps != [] {
      m := StepKeeps(s, l, steps[0]);
      m := RunKeeps(Next(s, steps[0]), m, steps[1..]);
    }
  }

  /**
   In every run from the start, there are lists that the links spell out: acyclic, with the right
   tail and depth, each message on the list of its own CPU iff it is queued and then unhandled; and
   the sender of shootdowns has not found a message it could not use.
   */
  lemma ListsAreExact(n: nat, range: Range, steps: seq<Step>) returns (l: seq<seq<Id>>)
    ensures var r := Run(Initial(n, range), steps);
            && Inv(r, l) && r.flush != Panicked
            && (forall c: nat :: c < |r.cpus| ==> Spells(r.mails, r.cpus[c], l[c]))
            && (forall c: nat, id :: c < |r.cpus| && id in l[c] ==> id.cpu == c && id in r.mails && !r.mails[id].handled)
            && (forall id: Id :: id.cpu < |r.cpus| ==> id in r.mails && (r.mails[id].queued <==> id in l[id.cpu]))
  {
    InitialInv(n, range);
    l := RunKeeps(Initial(n, range), seq(n, _ => []), steps);
    var r := Run(Initial(n, range), steps);
    forall c: nat | c < |r.cpus| ensures Spells(r.mails, r.cpus[c], l[c]) { assert Good(r, c, l[c]); }
    forall id: Id | id.cpu < |r.cpus| ensures id in r.mails && FlagsOk(r.mails[id], r.cpus[id.cpu], l[id.cpu], id) {
      assert Good(r, id.cpu, l[id.cpu]) && id == Id(id.cpu, id.kind);
    }
    forall c: nat, id | c < |r.cpus| && id in l[c] ensures id.cpu == c { assert Good(r, c, l[c]); }
  }

  /** A promised reschedule is not lost: when no handler is running, its message is on the list. */
  lemma PromiseIsListed(s: System, l: seq<seq<Id>>, c: nat)
    requires Inv(s, l) && c < |s.cpus| && s.cpus[c].pending && s.cpus[c].handler == Off
    ensures Id(c, Reschedule) in l[c]
  {
    assert Good(s, c, l[c]);
    assert FlagsOk(s.mails[Id(c, Reschedule)], s.cpus[c], l[c], Id(c, Reschedule));
  }

  /**
   A halt or reschedule reaches its CPU or is refused with nothing changed. Queued: the message is now
   on the list. Busy, for a halt only: exactly if an earlier halt is on the list or with the handler.
   Already pending, for a reschedule only: it is on the list or with the handler, or the handler has
   just seen it and switches tasks before it returns, or counts it as deferred if it interrupted
   kernel code other than idling.
   */
  lemma SendReaches(s: System, l: seq<seq<Id>>, c: nat, kind: Kind)
    requires Inv(s, l) && c < |s.cpus| && kind != Shootdown
    ensures Id(c, kind) in s.mails
    ensures var r := Send(s, c, kind);
            match StatusOf(s, c, kind)
            case Queued => Id(c, kind) in r.mails && r.mails[Id(c, kind)].queued && !r.mails[Id(c, kind)].handled
            case Busy => kind == Halt && r == s
            case AlreadyPending =>
              && kind == Reschedule && r == s
              && (Id(c, kind) in l[c] || Held(s.cpus[c], Id(c, kind)) || (s.cpus[c].pending && s.cpus[c].reschedule))
    ensures StatusOf(s, c, kind) == Busy <==> kind == Halt && (Id(c, kind) in l[c] || Held(s.cpus[c], Id(c, kind)))
  {
    assert Good(s, c, l[c]);
    assert FlagsOk(s.mails[Id(c, kind)], s.cpus[c], l[c], Id(c, kind));
  }

  /** A shootdown in progress keeps its sender, its range and its snapshot until it returns. */
  ghost predicate Underway(flush: Flush, self: nat, range: Range, base: seq<seq<Range>>) {
    (flush.Sending? || flush.Waiting?) && flush.self == self && flush.range == range && flush.base == base
  }

  lemma {:induction false} StaysUnderway(s: System, l: seq<seq<Id>>, steps: seq<Step>)
    requires Inv(s, l) && FlushReturn !in steps && (s.flush.Sending? || s.flush.Waiting?)
    ensures Underway(Run(s, steps).flush, s.flush.self, s.flush.range, s.flush.base)
    decreases |steps|
  {
    if steps != [] {
      var m := StepKeeps(s, l, steps[0]);
      StaysUnderwayStep(s, l, steps[0]);
      StaysUnderway(Next(s, steps[0]), m, steps[1..]);
    }
  }

  lemma StaysUnderwayStep(s: System, l: seq<seq<Id>>, step: Step)
    requires Inv(s, l) && step != FlushReturn && (s.flush.Sending? || s.flush.Waiting?)
    ensures Underway(Next(s, step).flush, s.flush.self, s.flush.range, s.flush.base)
  {
    if step.FlushNext? && s.flush.Sending? && s.flush.i < |s.cpus| { ShootdownIsIdle(s, l, s.flush.i); }
  }

  /**
   A TLB flush returns only after each CPU it sent to has executed exactly one more shootdown, the
   one with the flush's own range, and no other CPU has executed any.
   */
  lemma FlushIsDelivered(
    s: System, l: seq<seq<Id>>, self: nat, cr3: nat, addr: nat, pages: nat, steps: seq<Step>, c: nat)
    requires Inv(s, l) && s.flush == Free && FlushReturn !in steps
    ensures var r := Run(Next(s, StartFlush(self, cr3, addr, pages)), steps);
            r.flush.Waiting? && r.flush.i >= |r.cpus| && c < |s.cpus| ==>
              r.cpus[c].flushed == s.cpus[c].flushed +
                                   if c in r.flush.sent then [Range(cr3, addr, PageCount(pages))] else []
  {
    var step := StartFlush(self, cr3, addr, pages);
    var a := Next(s, step);
    var m := StepKeeps(s, l, step);
    StaysUnderway(a, m, steps);
    var k := RunKeeps(a, m, steps);
    var r := Run(a, steps);
    if c < |s.cpus| { assert Good(r, c, k[c]); }
  }
}
