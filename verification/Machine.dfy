/**
 * The heap and the process table over one page layer: what either does keeps the other, and
 * together they take the steps of KernelMemory.
 */
module Machines {
  import opened Common
  import opened HeapLayout
  import opened Paging
  import opened Liballoc
  import opened KernelMemory
  import opened Stacks
  import P = Processes
  import opened ProcessTables

  class Machine {
    const heap: Allocator
    const table: ProcessTable
    ghost var stacks: set<nat>

    ghost function View(): Memory
      reads this, heap, heap.pg
    {
      Memory(heap.View(), heap.pg.mapped, stacks)
    }

    ghost predicate Valid()
      reads this, heap, heap.majors, heap.headers.Values, table, table.processes, heap.pg, heap.pg.kernelPageDir
      reads heap.pg.kernelImagePageTable, heap.pg.kernelHeapPageTable, heap.pg.freeMem
    {
      table.pg == heap.pg && heap.Valid() && table.Valid() && MemoryOk(View())
    }

    /** Right after init_paging: an empty heap and no process. */
    constructor (pg: PageAllocator)
      requires pg.Valid() && pg.mapped == map[]
      ensures Valid() && View() == BOOT
    {
      heap := new Allocator(pg);
      table := new ProcessTable(pg);
      stacks := {};
    }

    /** Any heap and process table over one page layer; what the heap does not own counts as stacks. */
    constructor Of(heap: Allocator, table: ProcessTable)
      requires heap.Valid() && table.Valid() && table.pg == heap.pg
      ensures Valid() && this.heap == heap && this.table == table
    {
      AllocatorOk(heap);
      this.heap, this.table := heap, table;
      stacks := set i | i in heap.pg.mapped && !OwnsPage(heap.blocks, i);
    }

    method Malloc(n: nat) returns (r: Outcome<nat>)
      requires Valid() && n < 0x1_0000_0000 - 48
      modifies heap, heap.majors, heap.headers.Values
      modifies heap.pg`mapped, heap.pg.kernelHeapPageTable, heap.pg.freeMem
      ensures r.Panic? ==> Step(old(View()), Op.Malloc(n)) == Stopped(r.why)
      ensures r.Ret? ==> Valid() && Step(old(View()), Op.Malloc(n)) == Reached(View())
    {
      hide HeapOk, Allocator.Linked, HeadersOk, PagesHeld, Inuse, P.SchedOk, Step, MemoryOk;
      ghost var k := View();
      r := heap.Malloc(n);
      MallocIsStep(heap, k.heap, k.pages, stacks, n, r);
      if r.Ret? {
        StepKeepsMemory(k, Op.Malloc(n));
      }
    }

    /** free; as in Allocator.Free, nothing is promised when other data spells the magic. */
    method Free(p: nat, word: nat) returns (r: Outcome<()>)
      requires Valid() && p < 0x1_0000_0000
      modifies heap, heap.majors, heap.headers.Values
      modifies heap.pg`mapped, heap.pg.kernelImagePageTable, heap.pg.kernelHeapPageTable, heap.pg.freeMem
      ensures p != 0 && !MagicMapped(old(View()).pages, p) ==>
        r == Panic(PageFault) && Step(old(View()), Op.Free(p, word)) == Stopped(PageFault)
      ensures IsLive(old(View()).heap, p) || p == 0 || (MagicMapped(old(View()).pages, p) && word != LIBALLOC_MAGIC) ==>
        r.Ret? && Valid() && Step(old(View()), Op.Free(p, word)) == Reached(View())
    {
      hide HeapOk, Allocator.Linked, HeadersOk, PagesHeld, Inuse, P.SchedOk, MemoryOk, IsLive, MagicMapped,
        EmptiesBlock, AfterFree, MagicAddress;
      ghost var k := View();
      ghost var known := IsLive(k.heap, p) || p == 0 || word != LIBALLOC_MAGIC;
      if IsLive(k.heap, p) {
        FreeKeeps(k, p, word);
      }
      NullIsNotLive(k.heap);
      r := heap.Free(p, word);
      if r.Ret? && known {
        StepKeepsMemory(k, Op.Free(p, word));
      }
    }

    /** spawn takes a page of its own, which is a stack from then on. */
    method Spawn(r: P.Frame, taskend: nat) returns (ret: Outcome<int>, parent: P.Frame, stack: array<nat>)
      requires Valid() && P.Enabled(table.View(), P.Op.Spawn(r, 0))
      modifies `stacks, table`scheduling_started, table.processes
      modifies heap.pg`mapped, heap.pg.kernelHeapPageTable, heap.pg.freeMem
      ensures ret.Panic? ==> Step(old(View()), StackPage) == Stopped(ret.why)
      ensures ret.Ret? ==> Valid()
      ensures ret.Ret? ==>
        Reached(View()) == if ret.value == 0 then Step(old(View()), StackPage) else Reached(old(View()))
      ensures ret.Ret? ==>
        table.View() == P.Step(old(table.View()), P.Op.Spawn(r, PageAddr(NextPage(old(View()).pages))))
    {
      hide HeapOk, Allocator.Linked, HeadersOk, PagesHeld, Inuse, P.SchedOk, MemoryOk, P.Enabled, P.Step, NextPage,
        AfterAlloc, PageAddr, P.FreeSlot, PageMapOk, HeapOk;
      ghost var k := View();
      ret, parent, stack := table.Spawn(r, taskend);
      if ret == Ret(0) {
        TakesStack(k);
        stacks := stacks + {NextPage(k.pages)};
      }
    }

    /** So does fork. */
    method Fork(r: P.Frame, words: seq<nat>, taskend: nat, ghost chain: seq<nat>)
      returns (ret: Outcome<int>, parent: P.Frame, stack: array<nat>)
      requires Valid() && r.ebp >= r.esp && P.Enabled(table.View(), P.Op.Fork(r, 0))
      requires |words| == 500 && IsChain(words, r.esp, chain) && |chain| >= 2 && chain[1] + 1 < 500
      requires r.ebp == r.esp + 4 * chain[0]
      modifies `stacks, table.processes, heap.pg`mapped, heap.pg.kernelHeapPageTable, heap.pg.freeMem
      ensures ret.Panic? ==> Step(old(View()), StackPage) == Stopped(ret.why)
      ensures ret.Ret? ==> Valid()
      ensures ret.Ret? ==>
        Reached(View()) == if ret.value == 0 then Step(old(View()), StackPage) else Reached(old(View()))
      ensures ret.Ret? ==>
        table.View() == P.Step(old(table.View()), P.Op.Fork(r, PageAddr(NextPage(old(View()).pages))))
    {
      hide HeapOk, Allocator.Linked, HeadersOk, PagesHeld, Inuse, P.SchedOk, MemoryOk, P.Enabled, P.Step, NextPage,
        AfterAlloc, PageAddr, IsChain, IsChild, P.FreeSlot, PageMapOk, HeapOk;
      ghost var k := View();
      ret, parent, stack := table.ForkHandler(r, words, taskend, chain);
      if ret == Ret(0) {
        TakesStack(k);
        stacks := stacks + {NextPage(k.pages)};
      }
    }
  }

  /** A page taken for a stack leaves every page of the heap mapped. */
  lemma TakesStack(k: Memory)
    requires MemoryOk(k) && |k.pages| != 1024
    ensures Step(k, StackPage).Reached? && MemoryOk(Step(k, StackPage).mem)
    ensures PagesHeld(k.heap.blocks, AfterAlloc(k.pages))
  {
    StepKeepsMemory(k, StackPage);
  }
}
