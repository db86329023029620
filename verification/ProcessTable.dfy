/** The process table in place: the handlers of kernel/fork.cpp, proved against the steps of Processes. */
module ProcessTables {
  import opened Common
  import opened Paging
  import opened Stacks
  import opened Processes

  class ProcessTable {
    const pg: PageAllocator
    const processes: array<Proc>
    var currentProcess: int
    var scheduling_started: bool

    ghost function View(): Sched
      reads this, processes
    {
      Sched(processes[..], currentProcess, scheduling_started)
    }

    /** The table is none of the page layer's arrays. */
    ghost predicate Apart() {
      var table: object := processes;
      table != pg.kernelPageDir && table != pg.kernelImagePageTable
      && table != pg.kernelHeapPageTable && table != pg.freeMem
    }

    ghost predicate Valid()
      reads this, processes, pg, pg.kernelPageDir, pg.kernelImagePageTable, pg.kernelHeapPageTable, pg.freeMem
    {
      processes.Length == 8 && SchedOk(View()) && pg.Valid() && Apart()
    }

    constructor (pg: PageAllocator)
      requires pg.Valid()
      ensures Valid() && Booted(View()) && this.pg == pg && fresh(processes)
    {
      this.pg := pg;
      var none := Frame(0, 0, 0, 0, 0, 0, 0, 0, 0, 0, 0);
      processes := new Proc[8](_ => Proc(false, none));
      currentProcess, scheduling_started := -1, false;
    }

    /** schedule: what the interrupt returns to, or none (-1) when nothing is switched. */
    method Schedule(r: Frame) returns (next: Option<Resumption>)
      requires Valid() && scheduling_started
      modifies `currentProcess, processes
      ensures Valid() && View() == AfterTick(old(View()), r)
      ensures next == if Switches(old(View()), r)
                      then Some(Resuming(old(View()).procs[NextProcess(old(View()))].frame)) else None
      ensures next.None? ==> unchanged(`currentProcess, processes)
      ensures next.Some? ==>
        var p, f := currentProcess, next.value.frame;
        && 0 <= p < 8 && p != old(currentProcess) && old(processes[..])[p] == Proc(true, f)
        && next.value.at == f.esp + 4 * 2 && next.value.word == f.eip
        && forall q :: 0 <= q < 8 ==>
             processes[q] ==
               if q == old(currentProcess) && old(processes[q].valid) then Proc(true, r) else old(processes[q])
    {
      hide SchedOk, NextProcess, PageAllocator.Valid, Enabled;
      StepKeepsSched(View(), Tick(r));
      TickMeans(View(), r);
      if r.esp < 0x30_0000 {
        if currentProcess >= 0 && currentProcess < 8 {
          return None;
        }
      }
      var nextProcess := FindNext();
      if currentProcess == nextProcess {
        return None;
      }
      if r.esp >= 0x26_0000 && currentProcess >= 0 && currentProcess < 8 && processes[currentProcess].valid {
        processes[currentProcess] := processes[currentProcess].(frame := r);
      }
      currentProcess := nextProcess;
      var frame := processes[nextProcess].frame;
      next := Some(Resumption(frame, frame.esp + 4 * 2, frame.eip));
    }

    /** The search of schedule: round the table to the first live slot, or back to the running one. */
    method FindNext() returns (nextProcess: nat)
      requires processes.Length == 8 && SchedOk(View()) && scheduling_started
      ensures nextProcess == NextProcess(View()) && nextProcess < 8
    {
      hide Passed, SchedOk;
      ghost var s := View();
      NextIsNearest(s);
      CurrentBounds(s);
      nextProcess := (currentProcess + 1) % 8;
      ghost var k := 0;
      while nextProcess != currentProcess
        invariant 0 <= k < 8 && nextProcess == SlotAfter(currentProcess, k) && Passed(s, 0) == Passed(s, k)
        decreases 8 - k
      {
        assert processes[nextProcess] == s.procs[nextProcess];
        if processes[nextProcess].valid {
          break;
        }
        SearchGoesOn(s, k);
        nextProcess := (nextProcess + 1) % 8;
        k := k + 1;
      }
      PassedIs(s, k);
    }

    /** The search of both handlers for a slot that is not in use. */
    method FindSlot() returns (procIndex: nat)
      requires processes.Length == 8
      ensures procIndex == FreeSlot(processes[..], 0)
    {
      procIndex := 0;
      while procIndex < 8
        invariant 0 <= procIndex <= 8 && FreeSlot(processes[..], 0) == FreeSlot(processes[..], procIndex)
      {
        if !processes[procIndex].valid {
          return;
        }
        procIndex := procIndex + 1;
      }
    }

    /** Both handlers mark the slot as in use before they ask for a page. */
    method Occupy(procIndex: nat, frame: Frame)
      requires processes.Length == 8 && procIndex < 8 && pg.Valid() && Apart()
      modifies processes
      ensures pg.Valid() && pg.mapped == old(pg.mapped)
      ensures processes[..] == old(processes[..])[procIndex := Proc(true, frame)]
    {
      hide PageAllocator.Shape, PageAllocator.Agrees;
      processes[procIndex] := Proc(true, frame);
    }

    /** spawn: -1 when all slots are in use; a panic when no page is left for the stack. */
    method Spawn(r: Frame, taskend: nat) returns (ret: Outcome<int>, parent: Frame, stack: array<nat>)
      requires Valid() && Enabled(View(), Op.Spawn(r, 0))
      modifies `scheduling_started, processes, pg`mapped, pg.kernelHeapPageTable, pg.freeMem
      ensures ret == if FreeSlot(old(processes[..]), 0) == 8 then Ret(-1)
                     else if |old(pg.mapped)| == 1024 then Panic(OutOfMemory) else Ret(0)
      ensures ret.Ret? ==> Valid() && View() == Step(old(View()), Op.Spawn(r, PageAddr(NextPage(old(pg.mapped)))))
      ensures ret.Ret? ==> pg.mapped == if ret.value == 0 then AfterAlloc(old(pg.mapped)) else old(pg.mapped)
      ensures parent == if ret == Ret(0) then r.(eax := 0) else r
      ensures ret.Ret? ==> scheduling_started
      ensures ret == Ret(0) ==>
        var slot, page := FreeSlot(old(processes[..]), 0), PageAddr(NextPage(old(pg.mapped)));
        slot < 8 && processes[..] == old(processes[..])[slot := Proc(true,
          Frame(0, 0, 0, page + 4096 - 28, 0, 0, 0, slot + 1, r.ebx, r.cs, r.eflags))]
      ensures ret == Ret(0) ==>
        stack.Length == 1024 && stack[1017..] == [0x11_2211, 0x22_1122, r.ebx, r.cs, r.eflags, 0, taskend]
    {
      hide PageAllocator.Valid, NextPage, AfterAlloc, PageAddr, SchedOk, FreeSlot, PageMapOk;
      ghost var s, m := View(), pg.mapped;
      pg.MapBounds();
      StepKeepsSched(s, Op.Spawn(r, PageAddr(NextPage(m))));
      parent, stack := r, new nat[0];
      var procIndex := FindSlot();
      if procIndex >= 8 {
        scheduling_started := true;
        assert View() == Step(s, Op.Spawn(r, PageAddr(NextPage(m))));
        return Ret(-1), parent, stack;
      }
      Occupy(procIndex, r);
      var page := pg.AllocPage();
      if page.Panic? {
        return Panic(page.why), parent, stack;
      }
      var top;
      stack, top := SpawnStack(r.ebx, r.cs, r.eflags, taskend);
      processes[procIndex] := Proc(true,
        Frame(0, 0, 0, page.value + 4 * top, 0, 0, 0, procIndex + 1, r.ebx, r.cs, r.eflags));
      scheduling_started := true;
      assert View() == Step(s, Op.Spawn(r, page.value));
      parent := r.(eax := 0);
      ret := Ret(0);
    }

    /**
     * fork_handler, for a caller whose frame-pointer chain ends inside the words that are
     * copied.  `words` is what the 500 words from the caller's stack pointer on hold.
     */
    method ForkHandler(r: Frame, words: seq<nat>, taskend: nat, ghost chain: seq<nat>)
      returns (ret: Outcome<int>, parent: Frame, stack: array<nat>)
      requires Valid() && r.ebp >= r.esp && Enabled(View(), Op.Fork(r, 0))
      requires |words| == 500 && IsChain(words, r.esp, chain) && |chain| >= 2 && chain[1] + 1 < 500
      requires r.ebp == r.esp + 4 * chain[0]
      modifies processes, pg`mapped, pg.kernelHeapPageTable, pg.freeMem
      ensures ret == if FreeSlot(old(processes[..]), 0) == 8 then Ret(-1)
                     else if |old(pg.mapped)| == 1024 then Panic(OutOfMemory) else Ret(0)
      ensures ret.Ret? ==> Valid() && View() == Step(old(View()), Op.Fork(r, PageAddr(NextPage(old(pg.mapped)))))
      ensures ret.Ret? ==> pg.mapped == if ret.value == 0 then AfterAlloc(old(pg.mapped)) else old(pg.mapped)
      ensures parent == if ret == Ret(0) then r.(eax := 0) else r
      ensures ret == Ret(0) ==>
        var slot, base := FreeSlot(old(processes[..]), 0), PageAddr(NextPage(old(pg.mapped))) + 4 * 524;
        && slot < 8 && processes[..] == old(processes[..])[slot := Proc(true, Frame(
             r.edi, r.esi, base + 4 * chain[0], base, r.ebx, r.edx, r.ecx, slot + 1, r.eip, r.cs, r.eflags))]
        && IsChild(stack[..], words, base, chain, taskend)
    {
      hide PageAllocator.Valid, NextPage, AfterAlloc, PageAddr, IsChain, IsChild, SchedOk, FreeSlot, PageMapOk;
      ghost var s, m := View(), pg.mapped;
      pg.MapBounds();
      StepKeepsSched(s, Op.Fork(r, PageAddr(NextPage(m))));
      parent, stack := r, new nat[0];
      var procIndex := FindSlot();
      if procIndex >= 8 {
        assert View() == Step(s, Op.Fork(r, PageAddr(NextPage(m))));
        return Ret(-1), parent, stack;
      }
      Occupy(procIndex, r);
      var page := pg.AllocPage();
      if page.Panic? {
        return Panic(page.why), parent, stack;
      }
      var base := page.value + 4 * (1024 - 500);
      WordsBetween(r.esp, chain[0]);
      stack := ForkStack(words, r.esp, r.ebp, base, taskend, chain);
      processes[procIndex] := Proc(true,
        r.(esp := base, ebp := base + 4 * ((r.ebp - r.esp) / 4), eax := procIndex + 1));
      assert View() == Step(s, Op.Fork(r, page.value));
      parent := r.(eax := 0);
      ret := Ret(0);
    }

    /** taskend: the running process gives up its slot and waits for the next tick. */
    method Taskend()
      requires Valid() && Live(View(), currentProcess)
      modifies processes
      ensures Valid() && View() == Step(old(View()), TaskEnd)
      ensures forall p :: 0 <= p < 8 ==>
        processes[p] == if p == currentProcess then Proc(false, old(processes[p].frame)) else old(processes[p])
    {
      StepKeepsSched(View(), TaskEnd);
      processes[currentProcess] := processes[currentProcess].(valid := false);
    }
  }

  lemma CurrentBounds(s: Sched)
    requires SchedOk(s)
    ensures -1 <= s.cur < 8
  {
  }

  lemma PassedIs(s: Sched, k: nat)
    requires |s.procs| == 8 && k < 8
    ensures Passed(s, k) == if Stops(s, k) then k else Passed(s, k + 1)
  {
  }

  lemma SearchGoesOn(s: Sched, k: nat)
    requires SchedOk(s) && (s.cur >= 0 || s.started) && k < 8 && Passed(s, 0) == Passed(s, k) && !Stops(s, k)
    ensures k + 1 < 8 && Passed(s, k) == Passed(s, k + 1)
    ensures SlotAfter(s.cur, k + 1) == (SlotAfter(s.cur, k) + 1) % 8
  {
    hide Passed, Stops, SlotAfter;
    PassedIs(s, k);
    SlotStep(s.cur, k);
    if k == 7 {
      LastSlotStops(s);
    }
  }

  lemma SlotStep(cur: int, k: nat)
    ensures SlotAfter(cur, k + 1) == (SlotAfter(cur, k) + 1) % 8
  {
    var a := cur + 1 + k;
    assert a == 8 * (a / 8) + a % 8;
    assert a % 8 < 7 ==> (a + 1) / 8 == a / 8;
    assert a % 8 == 7 ==> (a + 1) / 8 == a / 8 + 1;
  }

  /** When the search has passed over seven slots, it stops at the eighth. */
  lemma LastSlotStops(s: Sched)
    requires SchedOk(s) && (s.cur >= 0 || s.started) && Passed(s, 0) == Passed(s, 7)
    ensures Stops(s, 7)
  {
    hide Passed;
    if s.cur >= 0 {
      assert SlotAfter(s.cur, 7) == s.cur;
    } else {
      var p :| 0 <= p < 8 && s.procs[p].valid;
      assert SlotAfter(s.cur, p) == p && Stops(s, p);
      assert Passed(s, 7) >= 7;
    }
  }
}
