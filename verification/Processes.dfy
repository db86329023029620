/**
 * The process table (kernel/fork.cpp): schedule, spawn_handler, fork_handler and taskend as
 * steps over eight slots, and what holds of every run of them.  An interrupt is one step.
 */
module Processes {
  import opened Common
  import opened Paging
  import opened Stacks

  /** The saved registers; segments and interrupt numbers travel along unchanged and are left out. */
  datatype Frame = Frame(
    edi: nat, esi: nat, ebp: nat, esp: nat, ebx: nat, edx: nat, ecx: nat, eax: nat, eip: nat, cs: nat, eflags: nat)

  datatype Proc = Proc(valid: bool, frame: Frame)

  /** The table, the index of the running process (-1 before the first switch), and whether ticks schedule. */
  datatype Sched = Sched(procs: seq<Proc>, cur: int, started: bool)

  ghost predicate SchedOk(s: Sched) {
    |s.procs| == 8 && -1 <= s.cur < 8 && (s.started && s.cur == -1 ==> exists p :: 0 <= p < 8 && s.procs[p].valid)
  }

  predicate Live(s: Sched, p: int)
    requires |s.procs| == 8
  {
    0 <= p < 8 && s.procs[p].valid
  }

  // ---------- the slot search of schedule ----------

  /** The k-th slot after cur, going round. */
  function SlotAfter(cur: int, k: nat): nat {
    (cur + 1 + k) % 8
  }

  /** Where the search stops: at the first live slot, or back at cur. */
  predicate Stops(s: Sched, k: nat)
    requires |s.procs| == 8
  {
    SlotAfter(s.cur, k) == s.cur || s.procs[SlotAfter(s.cur, k)].valid
  }

  /** The search ends exactly if there is a process to come back to or one to find. */
  lemma SearchEnds(s: Sched)
    requires |s.procs| == 8 && -1 <= s.cur < 8
    ensures (exists k: nat :: Stops(s, k)) <==> s.cur >= 0 || exists p :: 0 <= p < 8 && s.procs[p].valid
  {
    if s.cur >= 0 {
      assert SlotAfter(s.cur, 7) == s.cur;
      assert Stops(s, 7);
    } else if p :| 0 <= p < 8 && s.procs[p].valid {
      assert SlotAfter(s.cur, p) == p;
      assert Stops(s, p);
    }
    if k: nat :| Stops(s, k) {
      assert s.cur >= 0 || s.procs[SlotAfter(s.cur, k)].valid;
    }
  }

  /** How many slots the search passes over; 8 when it never stops. */
  function Passed(s: Sched, k: nat): (n: nat)
    requires |s.procs| == 8 && k <= 8
    ensures k <= n <= 8
    ensures n < 8 ==> Stops(s, n)
    ensures forall i :: k <= i < n ==> !Stops(s, i)
    decreases 8 - k
  {
    if k == 8 || Stops(s, k) then k else Passed(s, k + 1)
  }

  function NextProcess(s: Sched): nat
    requires |s.procs| == 8
  {
    SlotAfter(s.cur, Passed(s, 0))
  }

  /** How far p is behind the running process in the order of the search. */
  function Distance(cur: int, p: nat): nat {
    (p - cur - 1) % 8
  }

  lemma SlotAtDistance(cur: int, p: nat)
    requires -1 <= cur < 8 && p < 8
    ensures SlotAfter(cur, Distance(cur, p)) == p && Distance(cur, p) < 8
    ensures p == cur ==> Distance(cur, p) == 7
  {
  }

  lemma DistanceOfSlot(cur: int, k: nat)
    requires -1 <= cur < 8 && k < 8
    ensures Distance(cur, SlotAfter(cur, k)) == k
  {
  }

  lemma CloserBy(cur: int, q: nat, p: nat)
    requires -1 <= cur < 8 && q < 8 && p < 8 && Distance(cur, q) < Distance(cur, p)
    ensures Distance(q, p) < Distance(cur, p)
  {
  }

  /** Whoever is chosen is live or the running process itself, and no live process is nearer. */
  lemma NextIsNearest(s: Sched)
    requires SchedOk(s) && (s.cur >= 0 || s.started)
    ensures NextProcess(s) < 8 && (NextProcess(s) != s.cur ==> s.procs[NextProcess(s)].valid)
    ensures forall p :: 0 <= p < 8 && s.procs[p].valid ==> Distance(s.cur, NextProcess(s)) <= Distance(s.cur, p)
  {
    SearchEnds(s);
    var n := Passed(s, 0);
    if s.cur >= 0 {
      assert SlotAfter(s.cur, 7) == s.cur && Stops(s, 7);
    } else {
      var p :| 0 <= p < 8 && s.procs[p].valid;
      assert SlotAfter(s.cur, p) == p && Stops(s, p);
    }
    DistanceOfSlot(s.cur, n);
    forall p | 0 <= p < 8 && s.procs[p].valid
      ensures Distance(s.cur, NextProcess(s)) <= Distance(s.cur, p)
    {
      SlotAtDistance(s.cur, p);
      assert Stops(s, Distance(s.cur, p));
    }
  }

  // ---------- steps ----------

  datatype Op =
    | Tick(r: Frame)
    | Spawn(r: Frame, page: nat)
    | Fork(r: Frame, page: nat)
    | TaskEnd

  /** What a run does to the processes, in order. */
  datatype Event =
    | Created(p: nat, frame: Frame)
    | SwitchedOut(p: nat, frame: Frame)
    | Resumed(p: nat, frame: Frame)
    | Ended(p: nat)

  /** A tick switches unless it hit kernel code outside any process, or there is nobody else. */
  predicate Switches(s: Sched, r: Frame)
    requires |s.procs| == 8
  {
    s.started && !(r.esp < 0x30_0000 && 0 <= s.cur < 8) && NextProcess(s) != s.cur
  }

  predicate Saves(s: Sched, r: Frame)
    requires |s.procs| == 8
  {
    r.esp >= 0x26_0000 && Live(s, s.cur)
  }

  function AfterTick(s: Sched, r: Frame): Sched
    requires |s.procs| == 8
  {
    if !Switches(s, r) then s
    else
      var procs := if Saves(s, r) then s.procs[s.cur := s.procs[s.cur].(frame := r)] else s.procs;
      Sched(procs, NextProcess(s), s.started)
  }

  /** The lowest slot that is not in use, 8 when all are. */
  function FreeSlot(procs: seq<Proc>, i: nat): (k: nat)
    requires |procs| == 8 && i <= 8
    ensures i <= k <= 8
    ensures k < 8 ==> !procs[k].valid
    ensures forall j :: i <= j < k ==> procs[j].valid
    decreases 8 - i
  {
    if i == 8 || !procs[i].valid then i else FreeSlot(procs, i + 1)
  }

  /** The context of a spawned process: the caller's, on a stack of its own, at the entry point in ebx. */
  function SpawnFrame(r: Frame, page: nat, slot: nat): Frame {
    Frame(0, 0, 0, page + 4 * 1017, 0, 0, 0, slot + 1, r.ebx, r.cs, r.eflags)
  }

  /** The context of a forked process: the caller's, with the stack pointers moved over. */
  function ForkFrame(r: Frame, page: nat, slot: nat): Frame
    requires r.ebp >= r.esp
  {
    r.(esp := page + 4 * 524, ebp := page + 4 * 524 + 4 * ((r.ebp - r.esp) / 4), eax := slot + 1)
  }

  /** What schedule resumes: a frame, and the entry point stored in the third word of its stack. */
  datatype Resumption = Resumption(frame: Frame, at: nat, word: nat)

  function Resuming(frame: Frame): Resumption {
    Resumption(frame, frame.esp + 8, frame.eip)
  }

  /** On a process's first resumption that store lands in its own page, for a spawned one on its entry point. */
  lemma FirstStore(r: Frame, page: nat, slot: nat)
    requires r.ebp >= r.esp
    ensures Resuming(SpawnFrame(r, page, slot)).at == page + 4 * (1017 + 2)
    ensures Resuming(SpawnFrame(r, page, slot)).word == r.ebx
    ensures page <= Resuming(ForkFrame(r, page, slot)).at && Resuming(ForkFrame(r, page, slot)).at + 4 <= page + 4096
  {
  }

  function Occupied(s: Sched, slot: nat, frame: Frame): Sched
    requires slot < |s.procs|
  {
    s.(procs := s.procs[slot := Proc(true, frame)])
  }

  /** Only a live process, or the kernel before the first switch, can call or end. */
  predicate Enabled(s: Sched, op: Op)
    requires |s.procs| == 8
  {
    match op
    case Tick(r) => true
    case Spawn(r, page) => s.cur == -1 || Live(s, s.cur)
    case Fork(r, page) => (s.cur == -1 || Live(s, s.cur)) && r.ebp >= r.esp
    case TaskEnd => Live(s, s.cur)
  }

  function Step(s: Sched, op: Op): (s': Sched)
    requires |s.procs| == 8 && Enabled(s, op)
    ensures |s'.procs| == 8
  {
    match op
    case Tick(r) => AfterTick(s, r)
    case Spawn(r, page) =>
      var slot := FreeSlot(s.procs, 0);
      (if slot == 8 then s else Occupied(s, slot, SpawnFrame(r, page, slot))).(started := true)
    case Fork(r, page) =>
      var slot := FreeSlot(s.procs, 0);
      if slot == 8 then s else Occupied(s, slot, ForkFrame(r, page, slot))
    case TaskEnd => s.(procs := s.procs[s.cur := s.procs[s.cur].(valid := false)])
  }

  function Events(s: Sched, op: Op): seq<Event>
    requires |s.procs| == 8 && Enabled(s, op)
  {
    match op
    case Tick(r) =>
      if !Switches(s, r) then []
      else
        (if Saves(s, r) then [SwitchedOut(s.cur, r)] else [])
        + [Resumed(NextProcess(s), s.procs[NextProcess(s)].frame)]
    case Spawn(r, page) =>
      var slot := FreeSlot(s.procs, 0);
      if slot == 8 then [] else [Created(slot, SpawnFrame(r, page, slot))]
    case Fork(r, page) =>
      var slot := FreeSlot(s.procs, 0);
      if slot == 8 then [] else [Created(slot, ForkFrame(r, page, slot))]
    case TaskEnd => [Ended(s.cur)]
  }

  lemma StepKeepsSched(s: Sched, op: Op)
    requires SchedOk(s) && Enabled(s, op)
    ensures SchedOk(Step(s, op))
  {
    var s' := Step(s, op);
    match op {
      case Tick(r) =>
      case Spawn(r, page) =>
        var slot := FreeSlot(s.procs, 0);
        assert if slot == 8 then s'.procs[0].valid else s'.procs[slot].valid;
      case Fork(r, page) =>
        forall p | 0 <= p < 8 && s.procs[p].valid ensures s'.procs[p].valid { }
      case TaskEnd =>
    }
  }

  /** A step writes the slot of the running process, or a slot that is not in use, and no other. */
  lemma StepWritesOwnSlot(s: Sched, op: Op, p: nat)
    requires SchedOk(s) && Enabled(s, op) && p < 8 && p != s.cur && s.procs[p].valid
    ensures Step(s, op).procs[p] == s.procs[p]
  {
  }

  /** spawn and fork fail exactly when all eight slots are in use. */
  lemma NoSlotIffAllLive(s: Sched)
    requires SchedOk(s)
    ensures FreeSlot(s.procs, 0) == 8 <==> forall p :: 0 <= p < 8 ==> s.procs[p].valid
  {
  }

  // ---------- runs ----------

  ghost predicate Runs(s: Sched, ops: seq<Op>)
    requires |s.procs| == 8
    decreases |ops|
  {
    ops == [] || (Enabled(s, ops[0]) && Runs(Step(s, ops[0]), ops[1..]))
  }

  function After(s: Sched, ops: seq<Op>): (s': Sched)
    requires |s.procs| == 8 && Runs(s, ops)
    ensures |s'.procs| == 8
    decreases |ops|
  {
    if ops == [] then s else After(Step(s, ops[0]), ops[1..])
  }

  function Log(s: Sched, ops: seq<Op>): seq<Event>
    requires |s.procs| == 8 && Runs(s, ops)
    decreases |ops|
  {
    if ops == [] then [] else Events(s, ops[0]) + Log(Step(s, ops[0]), ops[1..])
  }

  lemma {:induction false} RunKeepsSched(s: Sched, ops: seq<Op>)
    requires SchedOk(s) && Runs(s, ops)
    ensures SchedOk(After(s, ops))
    decreases |ops|
  {
    if ops != [] {
      StepKeepsSched(s, ops[0]);
      RunKeepsSched(Step(s, ops[0]), ops[1..]);
    }
  }

  // ---------- context preservation ----------

  /** The last event of a log that is about p. */
  function Latest(log: seq<Event>, p: nat): Option<Event> {
    if log == [] then None
    else if log[|log| - 1].p == p then Some(log[|log| - 1])
    else Latest(log[..|log| - 1], p)
  }

  lemma LatestOfLonger(log: seq<Event>, e: Event, p: nat)
    ensures Latest(log + [e], p) == if e.p == p then Some(e) else Latest(log, p)
  {
    assert (log + [e])[..|log|] == log;
  }

  /** The context with which p was last made or left the processor. */
  predicate Holds(e: Option<Event>, p: nat, frame: Frame) {
    e == Some(Created(p, frame)) || e == Some(SwitchedOut(p, frame))
  }

  /** The table agrees with the log. */
  ghost predicate Agrees(s: Sched, log: seq<Event>) {
    && SchedOk(s)
    && forall p: nat :: p < 8 ==>
      var e := Latest(log, p);
      if !s.procs[p].valid then e == None || e == Some(Ended(p))
      else if p == s.cur then e.Some? && e.value.Resumed?
      else Holds(e, p, s.procs[p].frame)
  }

  /** Every resumption installs the context last saved, or the one the process was made with. */
  ghost predicate Faithful(log: seq<Event>) {
    forall k :: 0 <= k < |log| && log[k].Resumed? ==> Holds(Latest(log[..k], log[k].p), log[k].p, log[k].frame)
  }

  lemma FaithfulLonger(log: seq<Event>, e: Event)
    requires Faithful(log) && (e.Resumed? ==> Holds(Latest(log, e.p), e.p, e.frame))
    ensures Faithful(log + [e])
  {
    var log' := log + [e];
    forall k | 0 <= k < |log'| && log'[k].Resumed?
      ensures Holds(Latest(log'[..k], log'[k].p), log'[k].p, log'[k].frame)
    {
      assert log'[..k] == log[..k];
      assert k == |log| ==> log[..k] == log;
    }
  }

  lemma StepStaysFaithful(s: Sched, log: seq<Event>, op: Op)
    requires Agrees(s, log) && Faithful(log) && Enabled(s, op)
    ensures Agrees(Step(s, op), log + Events(s, op)) && Faithful(log + Events(s, op))
  {
    StepKeepsSched(s, op);
    match op {
      case Tick(r) =>
        if Switches(s, r) {
          TickStaysFaithful(s, log, r);
        } else {
          assert log + [] == log;
        }
      case Spawn(r, page) => CreationStaysFaithful(s, log, op);
      case Fork(r, page) => CreationStaysFaithful(s, log, op);
      case TaskEnd =>
        OneEvent(log, Ended(s.cur));
    }
  }

  lemma OneEvent(log: seq<Event>, e: Event)
    requires Faithful(log) && (e.Resumed? ==> Holds(Latest(log, e.p), e.p, e.frame))
    ensures Faithful(log + [e])
    ensures forall p: nat :: Latest(log + [e], p) == if e.p == p then Some(e) else Latest(log, p)
  {
    FaithfulLonger(log, e);
    forall p: nat ensures Latest(log + [e], p) == if e.p == p then Some(e) else Latest(log, p) {
      LatestOfLonger(log, e, p);
    }
  }

  lemma CreationStaysFaithful(s: Sched, log: seq<Event>, op: Op)
    requires Agrees(s, log) && Faithful(log) && Enabled(s, op) && (op.Spawn? || op.Fork?) && SchedOk(Step(s, op))
    ensures Agrees(Step(s, op), log + Events(s, op)) && Faithful(log + Events(s, op))
  {
    var slot := FreeSlot(s.procs, 0);
    if slot == 8 {
      assert log + [] == log;
    } else {
      OneEvent(log, Events(s, op)[0]);
    }
  }

  lemma TickStaysFaithful(s: Sched, log: seq<Event>, r: Frame)
    requires Agrees(s, log) && Faithful(log) && Switches(s, r) && SchedOk(AfterTick(s, r))
    ensures Agrees(AfterTick(s, r), log + Events(s, Tick(r))) && Faithful(log + Events(s, Tick(r)))
  {
    var next := NextProcess(s);
    NextIsNearest(s);
    var resumed := Resumed(next, s.procs[next].frame);
    if Saves(s, r) {
      var out := SwitchedOut(s.cur, r);
      OneEvent(log, out);
      OneEvent(log + [out], resumed);
      assert log + [out] + [resumed] == log + Events(s, Tick(r));
    } else {
      OneEvent(log, resumed);
      assert Events(s, Tick(r)) == [resumed];
    }
  }

  lemma {:induction false} RunStaysFaithful(s: Sched, log: seq<Event>, ops: seq<Op>)
    requires Agrees(s, log) && Faithful(log) && Runs(s, ops)
    ensures Agrees(After(s, ops), log + Log(s, ops)) && Faithful(log + Log(s, ops))
    decreases |ops|
  {
    if ops == [] {
      assert log + [] == log;
    } else {
      StepStaysFaithful(s, log, ops[0]);
      RunStaysFaithful(Step(s, ops[0]), log + Events(s, ops[0]), ops[1..]);
      assert log + Events(s, ops[0]) + Log(Step(s, ops[0]), ops[1..]) == log + Log(s, ops);
    }
  }

  ghost predicate Booted(s: Sched) {
    |s.procs| == 8 && s.cur == -1 && !s.started && forall p :: 0 <= p < 8 ==> !s.procs[p].valid
  }

  /**
   * Context preservation: in every run from boot, each resumption of a process installs the
   * frame saved when it last left the processor, or the one it was made with, and nothing has
   * happened to the process in between.
   */
  lemma ContextPreserved(s: Sched, ops: seq<Op>)
    requires Booted(s) && Runs(s, ops)
    ensures Faithful(Log(s, ops)) && Agrees(After(s, ops), Log(s, ops))
  {
    RunStaysFaithful(s, [], ops);
    assert [] + Log(s, ops) == Log(s, ops);
  }

  // ---------- what the events stand for ----------

  /** The context made by spawn: the entry point, an identity of its own, and a stack in its page. */
  predicate SpawnedWith(f: Frame, r: Frame, page: nat, p: nat) {
    && f.eip == r.ebx && f.eax == p + 1 && f.esp == page + 4096 - 28 && f.ebp == 0
    && f.ebx == f.ecx == f.edx == f.esi == f.edi == 0 && f.cs == r.cs && f.eflags == r.eflags
  }

  /** The context made by fork: the parent's, but for its identity and a stack in its page. */
  predicate ForkedWith(f: Frame, r: Frame, page: nat, p: nat) {
    && f.eip == r.eip && f.eax == p + 1 && f.esp == page + 4096 - 2000
    && (r.ebp >= r.esp && (r.ebp - r.esp) % 4 == 0 ==> f.ebp - f.esp == r.ebp - r.esp)
    && f.ebx == r.ebx && f.ecx == r.ecx && f.edx == r.edx && f.esi == r.esi && f.edi == r.edi
    && f.cs == r.cs && f.eflags == r.eflags
  }

  /** A tick that switches saves the running process, if it is live, exactly as it was interrupted. */
  lemma TickMeans(s: Sched, r: Frame)
    requires SchedOk(s)
    ensures !Switches(s, r) ==> AfterTick(s, r) == s && Events(s, Tick(r)) == []
    ensures Switches(s, r) ==>
      var s', p := AfterTick(s, r), NextProcess(s);
      && p < 8 && s.procs[p].valid && s'.cur == p != s.cur && s'.started
      && (forall q :: 0 <= q < 8 ==>
            s'.procs[q] == if q == s.cur && s.procs[q].valid then Proc(true, r) else s.procs[q])
      && Events(s, Tick(r)) ==
           (if Live(s, s.cur) then [SwitchedOut(s.cur, r)] else []) + [Resumed(p, s.procs[p].frame)]
  {
    if Switches(s, r) {
      NextIsNearest(s);
    }
  }

  /** Where the context in an event comes from. */
  ghost predicate Origin(s: Sched, op: Op, p: nat, f: Frame)
    requires |s.procs| == 8
  {
    match op
    case Tick(r) => f == r && s.cur == p && s.procs[p % 8].valid
    case Spawn(r, page) => p < 8 && !s.procs[p].valid && SpawnedWith(f, r, page, p)
    case Fork(r, page) => p < 8 && !s.procs[p].valid && ForkedWith(f, r, page, p)
    case TaskEnd => false
  }

  lemma EventMeans(s: Sched, op: Op, k: nat)
    requires SchedOk(s) && Enabled(s, op) && k < |Events(s, op)|
    ensures var e := Events(s, op)[k];
      e.Created? || e.SwitchedOut? ==> Origin(s, op, e.p, e.frame)
  {
  }

  /** spawn and fork make a process in the lowest free slot, if there is one. */
  lemma CreationMeans(s: Sched, op: Op)
    requires SchedOk(s) && Enabled(s, op) && (op.Spawn? || op.Fork?)
    ensures var s', slot := Step(s, op), FreeSlot(s.procs, 0);
      && s'.cur == s.cur && (op.Spawn? ==> s'.started) && (op.Fork? ==> s'.started == s.started)
      && (slot == 8 ==> s'.procs == s.procs && Events(s, op) == [])
      && (slot < 8 ==>
            && s'.procs == s.procs[slot := Proc(true, s'.procs[slot].frame)]
            && Events(s, op) == [Created(slot, s'.procs[slot].frame)]
            && Origin(s, op, slot, s'.procs[slot].frame))
  {
  }

  /** The event is one of step j of the run, and its context comes from there. */
  ghost predicate MadeBy(s: Sched, ops: seq<Op>, j: nat, e: Event)
    requires |s.procs| == 8
  {
    && j < |ops| && Runs(s, ops[..j]) && Enabled(After(s, ops[..j]), ops[j])
    && e in Events(After(s, ops[..j]), ops[j])
    && (e.Created? || e.SwitchedOut? ==> Origin(After(s, ops[..j]), ops[j], e.p, e.frame))
  }

  lemma {:induction false} EventOfStep(s: Sched, ops: seq<Op>, k: nat) returns (j: nat)
    requires SchedOk(s) && Runs(s, ops) && k < |Log(s, ops)|
    ensures MadeBy(s, ops, j, Log(s, ops)[k])
    decreases |ops|
  {
    hide Events, Origin, Step;
    var first := Events(s, ops[0]);
    if k < |first| {
      assert ops[..0] == [];
      EventMeans(s, ops[0], k);
      j := 0;
    } else {
      StepKeepsSched(s, ops[0]);
      j := EventOfStep(Step(s, ops[0]), ops[1..], k - |first|);
      assert ops[..j + 1][0] == ops[0] && ops[..j + 1][1..] == ops[1..][..j];
      j := j + 1;
    }
  }

  lemma {:induction false} LatestIndex(log: seq<Event>, p: nat) returns (k: nat)
    requires Latest(log, p).Some?
    ensures k < |log| && log[k] == Latest(log, p).value && log[k].p == p
    ensures forall m :: k < m < |log| ==> log[m].p != p
    decreases |log|
  {
    k := |log| - 1;
    if log[k].p != p {
      k := LatestIndex(log[..k], p);
    }
  }

  /**
   * In every run from boot, a process resumes with exactly the registers it was interrupted
   * with when it last left the processor, or that spawn or fork made for it, and nothing
   * happened to it in between.
   */
  lemma ResumedAsLeft(s: Sched, ops: seq<Op>, k: nat)
    requires Booted(s) && Runs(s, ops) && k < |Log(s, ops)| && Log(s, ops)[k].Resumed?
    ensures var log := Log(s, ops);
      exists m: nat, j: nat ::
        && m < k && log[m].p == log[k].p && (forall i :: m < i < k ==> log[i].p != log[k].p)
        && (log[m].Created? || log[m].SwitchedOut?) && log[m].frame == log[k].frame && MadeBy(s, ops, j, log[m])
  {
    hide Events, Log, MadeBy, Runs, Step;
    var log := Log(s, ops);
    ContextPreserved(s, ops);
    var m := LatestIndex(log[..k], log[k].p);
    var j := EventOfStep(s, ops, m);
  }

  // ---------- from boot to the first process ----------

  /** Ticks schedule from the first spawn on, and not before. */
  lemma {:induction false} StartedIffSpawned(s: Sched, ops: seq<Op>)
    requires SchedOk(s) && Runs(s, ops)
    ensures After(s, ops).started <==> s.started || exists i :: 0 <= i < |ops| && ops[i].Spawn?
    decreases |ops|
  {
    if ops != [] {
      StepKeepsSched(s, ops[0]);
      var rest := ops[1..];
      StartedIffSpawned(Step(s, ops[0]), rest);
      assert forall i :: 1 <= i < |ops| ==> ops[i] == rest[i - 1];
    }
  }

  lemma BootOk(s: Sched)
    requires Booted(s)
    ensures SchedOk(s)
  {
  }

  /** The first spawn of all is resumed by the next tick, at its entry point and on its own stack. */
  lemma FirstDispatch(s: Sched, r: Frame, page: nat, t: Frame)
    requires Booted(s)
    ensures Runs(s, [Spawn(r, page), Tick(t)])
    ensures var log := Log(s, [Spawn(r, page), Tick(t)]);
      && |log| == 2 && log[0].Created? && log[1] == Resumed(0, log[0].frame)
      && log[1].frame.eip == r.ebx && page <= log[1].frame.esp < page + 4096
  {
    hide SchedOk, Switches, NextProcess;
    var op, ops := Op.Spawn(r, page), [Spawn(r, page), Tick(t)];
    assert ops[1..] == [Tick(t)] && [Tick(t)][1..] == [];
    BootOk(s);
    CreationMeans(s, op);
    var s1 := Step(s, op);
    StepKeepsSched(s, op);
    SwitchesIff(s1, t);
    TickMeans(s1, t);
    assert FreeSlot(s.procs, 0) == 0 && s1.procs[0].valid;
    assert Runs(Step(s1, Tick(t)), []) && Runs(s1, [Tick(t)]) && Runs(s, ops);
    assert Log(s1, [Tick(t)]) == Events(s1, Tick(t)) + Log(Step(s1, Tick(t)), []);
    assert Log(s, ops) == Events(s, op) + Events(s1, Tick(t));
  }

  // ---------- fairness ----------

  /** The number of ticks of a run that switch. */
  function SwitchCount(s: Sched, ops: seq<Op>): nat
    requires |s.procs| == 8 && Runs(s, ops)
    decreases |ops|
  {
    if ops == [] then 0
    else (if ops[0].Tick? && Switches(s, ops[0].r) then 1 else 0) + SwitchCount(Step(s, ops[0]), ops[1..])
  }

  ghost predicate StaysLive(s: Sched, ops: seq<Op>, p: nat)
    requires |s.procs| == 8 && Runs(s, ops)
    decreases |ops|
  {
    Live(s, p) && (ops != [] ==> StaysLive(Step(s, ops[0]), ops[1..], p))
  }

  ghost predicate Dispatched(log: seq<Event>, p: nat) {
    exists k :: 0 <= k < |log| && log[k].Resumed? && log[k].p == p
  }

  lemma DispatchedInLonger(a: seq<Event>, b: seq<Event>, p: nat)
    ensures Dispatched(a, p) || Dispatched(b, p) ==> Dispatched(a + b, p)
  {
    if k :| 0 <= k < |a| && a[k].Resumed? && a[k].p == p {
      assert (a + b)[k] == a[k];
    }
    if k :| 0 <= k < |b| && b[k].Resumed? && b[k].p == p {
      assert (a + b)[|a| + k] == b[k];
    }
  }

  /** A switch goes to p or brings it closer. */
  lemma SwitchComesCloser(s: Sched, r: Frame, p: nat)
    requires SchedOk(s) && Live(s, p) && Switches(s, r)
    ensures Dispatched(Events(s, Tick(r)), p) || Distance(AfterTick(s, r).cur, p) < Distance(s.cur, p)
  {
    hide Passed, SlotAfter, Distance;
    var next := NextProcess(s);
    NextIsNearest(s);
    SlotAtDistance(s.cur, next);
    SlotAtDistance(s.cur, p);
    if next == p {
      var log := Events(s, Tick(r));
      assert log[|log| - 1] == Resumed(p, s.procs[p].frame);
    } else {
      CloserBy(s.cur, next, p);
    }
  }

  lemma {:induction false} DispatchedWithin(s: Sched, ops: seq<Op>, p: nat)
    requires SchedOk(s) && Runs(s, ops) && StaysLive(s, ops, p)
    requires SwitchCount(s, ops) > Distance(s.cur, p)
    ensures Dispatched(Log(s, ops), p)
    decreases |ops|
  {
    var op := ops[0];
    StepKeepsSched(s, op);
    DispatchedInLonger(Events(s, op), Log(Step(s, op), ops[1..]), p);
    if op.Tick? && Switches(s, op.r) {
      SwitchComesCloser(s, op.r, p);
    }
    if !Dispatched(Events(s, op), p) {
      DispatchedWithin(Step(s, op), ops[1..], p);
    }
  }

  /**
   * Fairness: in any mix of steps, a process that stays live is dispatched within eight ticks
   * that switch.
   */
  lemma Fairness(s: Sched, ops: seq<Op>, p: nat)
    requires SchedOk(s) && Runs(s, ops) && StaysLive(s, ops, p) && SwitchCount(s, ops) >= 8
    ensures Dispatched(Log(s, ops), p)
  {
    SlotAtDistance(s.cur, p);
    DispatchedWithin(s, ops, p);
  }

  /**
   * A tick switches if and only if ticks schedule, it did not hit a low stack while a process
   * runs, and some other process is live.
   */
  lemma SwitchesIff(s: Sched, r: Frame)
    requires SchedOk(s)
    ensures Switches(s, r) <==>
      s.started && (s.cur == -1 || r.esp >= 0x30_0000) && exists p :: 0 <= p < 8 && p != s.cur && s.procs[p].valid
  {
    hide Passed, SlotAfter, Distance;
    if s.started {
      NextIsNearest(s);
      if s.cur >= 0 {
        SlotAtDistance(s.cur, s.cur);
      }
      forall p | 0 <= p < 8 && p != s.cur && s.procs[p].valid ensures NextProcess(s) != s.cur {
        SlotAtDistance(s.cur, p);
      }
    }
  }

  /** A process on a page of its own passes the stack guard, wherever in the page its stack pointer is. */
  lemma OwnStackPassesGuard(i: nat, esp: nat)
    requires i < 1024 && PageAddr(i) <= esp < PageAddr(i) + 4096
    ensures esp >= 0x30_0000
  {
    AddressDecodes(i, 0);
  }
}
