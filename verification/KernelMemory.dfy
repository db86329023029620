/**
 * The memory stack as a whole: malloc and free over the page layer, with other users of
 * alloc_page (process stacks) beside them.  Everything here is about whole runs.
 */
module KernelMemory {
  import opened Common
  import opened HeapLayout
  import opened Paging
  import opened Liballoc

  /** The heap, the heap half of the page tables, and the table entries handed out as stacks. */
  datatype Memory = Memory(heap: Heap, pages: PageMap, stacks: set<nat>)

  /** For a free, word is what memory holds where the header of p would keep its magic. */
  datatype Op = Malloc(n: nat) | Free(p: nat, word: nat) | StackPage

  /**
   * A call returns, or stops the machine, or does what is not modelled here: it accepts a
   * request that does not fit a page, or takes other data for a header.
   */
  datatype Result = Reached(mem: Memory) | Stopped(why: PanicReason) | Undefined

  const BOOT: Memory := Memory(Heap([], 0), map[], {})

  function Request(n: nat): nat {
    if n == 0 then 1 else n
  }

  ghost function Step(k: Memory, op: Op): Result {
    match op
    case Malloc(n) =>
      var size, page := Request(n), PageAddr(NextPage(k.pages));
      if size >= 0x1_0000_0000 - 48 then Undefined
      else if !NeedsPage(k.heap, size) then Reached(k.(heap := AfterMalloc(k.heap, size, page)))
      else if size > 4048 then Stopped(TooManyPages)
      else if |k.pages| == 1024 then Stopped(OutOfMemory)
      else Reached(k.(heap := AfterMalloc(k.heap, size, page), pages := AfterAlloc(k.pages)))
    case Free(p, word) =>
      if p != 0 && !MagicMapped(k.pages, p) then Stopped(PageFault)
      else if !IsLive(k.heap, p) then (if p != 0 && word == LIBALLOC_MAGIC then Undefined else Reached(k))
      else
        var pages := if EmptiesBlock(k.heap, p) then k.pages - {TableIndex(p)} else k.pages;
        Reached(k.(heap := AfterFree(k.heap, p), pages := pages))
    case StackPage =>
      if |k.pages| == 1024 then Stopped(OutOfMemory)
      else Reached(k.(pages := AfterAlloc(k.pages), stacks := k.stacks + {NextPage(k.pages)}))
  }

  ghost function Run(k: Memory, ops: seq<Op>): Result
    decreases |ops|
  {
    if ops == [] then Reached(k)
    else match Step(k, ops[0])
      case Reached(k') => Run(k', ops[1..])
      case other => other
  }

  /** The methods of the allocator take these steps. */
  lemma MallocIsStep(a: Allocator, h: Heap, mapped: PageMap, stacks: set<nat>, n: nat, r: Outcome<nat>)
    requires HeapOk(h) && n < 0x1_0000_0000 - 48 && a.MallocDone(h, mapped, Request(n), r)
    ensures Step(Memory(h, mapped, stacks), Malloc(n)) ==
      match r
      case Ret(p) => Reached(Memory(a.View(), a.pg.mapped, stacks))
      case Panic(why) => Stopped(why)
  {
  }

  lemma FreeIsStep(a: Allocator, h: Heap, mapped: PageMap, stacks: set<nat>, p: nat, word: nat)
    requires HeapOk(h) && PagesHeld(h.blocks, mapped) && IsLive(h, p) && a.FreeDone(h, mapped, p)
    ensures Step(Memory(h, mapped, stacks), Free(p, word)) == Reached(Memory(a.View(), a.pg.mapped, stacks))
  {
    LiveMagicMapped(h, mapped, p);
  }

  // ---------- the invariant ----------

  ghost predicate OwnsPage(blocks: seq<Block>, i: nat) {
    exists b :: 0 <= b < |blocks| && TableIndex(blocks[b].base) == i
  }

  /** Every mapped page belongs to exactly one block or is exactly one stack. */
  ghost predicate MemoryOk(k: Memory) {
    && HeapOk(k.heap) && PageMapOk(k.pages)
    && PagesHeld(k.heap.blocks, k.pages) && k.stacks <= k.pages.Keys
    && forall i :: i in k.pages ==> (OwnsPage(k.heap.blocks, i) <==> i !in k.stacks)
  }

  lemma BootOk()
    ensures MemoryOk(BOOT)
  {
  }

  /** Whatever a valid allocator does not own may be regarded as stacks. */
  lemma AllocatorOk(a: Allocator)
    requires a.Valid()
    ensures MemoryOk(Memory(a.View(), a.pg.mapped, set i | i in a.pg.mapped && !OwnsPage(a.blocks, i)))
  {
  }

  lemma StepKeepsMemory(k: Memory, op: Op)
    requires MemoryOk(k) && Step(k, op).Reached?
    ensures MemoryOk(Step(k, op).mem)
  {
    match op {
      case Malloc(n) => MallocKeeps(k, Request(n));
      case Free(p, word) => if IsLive(k.heap, p) { FreeKeeps(k, p, word); }
      case StackPage => StackKeeps(k);
    }
  }

  lemma StackKeeps(k: Memory)
    requires MemoryOk(k) && Step(k, StackPage).Reached?
    ensures MemoryOk(Step(k, StackPage).mem)
  {
    hide HeapOk, PageMapOk, NextPage, NextFrame, TableIndex;
    UsedUpTogether(k.pages);
    AfterAllocOk(k.pages);
    assert !OwnsPage(k.heap.blocks, NextPage(k.pages));
  }

  lemma MallocKeeps(k: Memory, n: nat)
    requires MemoryOk(k) && n >= 1 && Step(k, Malloc(n)).Reached?
    ensures MemoryOk(Step(k, Malloc(n)).mem)
    ensures n <= 4048
    ensures NeedsPage(k.heap, n) ==> NextPage(k.pages) < 1024 && IsPage(PageAddr(NextPage(k.pages)))
    ensures NeedsPage(k.heap, n) ==> !HasBase(k.heap.blocks, PageAddr(NextPage(k.pages)))
  {
    hide HeapOk, BlocksOk, AfterMalloc, PageMapOk;
    var next := NextPage(k.pages);
    if NeedsPage(k.heap, n) {
      UsedUpTogether(k.pages);
      AfterAllocOk(k.pages);
      FreshPage(k, next);
    } else {
      RoomFor(k.heap, n);
    }
    MallocKeepsHeap(k.heap, n, PageAddr(next));
    MallocBases(k.heap, n, PageAddr(next));
    KeepOwners(k, Step(k, Malloc(n)).mem, n, next);
  }

  lemma RoomFor(h: Heap, n: nat)
    requires HeapOk(h) && !NeedsPage(h, n)
    ensures n <= 4048
  {
    var i, j := TargetBlock(h, n), TargetGap(h, n);
    NoGapExceedsFree(h.blocks[i], j);
    assert FreeBytes(h.blocks[i]) <= 4072;
  }

  lemma FreshPage(k: Memory, i: nat)
    requires MemoryOk(k) && i < 1024 && i !in k.pages
    ensures IsPage(PageAddr(i)) && !HasBase(k.heap.blocks, PageAddr(i)) && TableIndex(PageAddr(i)) == i
  {
    AddressDecodes(i, 0);
  }

  /** malloc keeps the bases of all blocks and adds at most the one of the new page. */
  lemma MallocBases(h: Heap, n: nat, page: nat)
    ensures var blocks := AfterMalloc(h, n, page).blocks;
      && (forall b :: 0 <= b < |h.blocks| ==> b < |blocks| && blocks[b].base == h.blocks[b].base)
      && (if NeedsPage(h, n) then |blocks| == |h.blocks| + 1 && blocks[|h.blocks|].base == page
          else |blocks| == |h.blocks|)
  {
  }

  lemma KeepOwners(k: Memory, k': Memory, n: nat, next: nat)
    requires MemoryOk(k) && k'.stacks == k.stacks
    requires HeapOk(k'.heap) && PageMapOk(k'.pages) && PagesHeld(k.heap.blocks, k.pages)
    requires forall b :: 0 <= b < |k.heap.blocks| ==>
      b < |k'.heap.blocks| && k'.heap.blocks[b].base == k.heap.blocks[b].base
    requires if NeedsPage(k.heap, n) then
        && |k'.heap.blocks| == |k.heap.blocks| + 1 && TableIndex(k'.heap.blocks[|k.heap.blocks|].base) == next
        && next !in k.pages && k'.pages.Keys == k.pages.Keys + {next}
      else |k'.heap.blocks| == |k.heap.blocks| && k'.pages == k.pages
    ensures MemoryOk(k')
  {
    hide HeapOk, PageMapOk, TableIndex, NeedsPage;
    forall i | i in k'.pages ensures OwnsPage(k'.heap.blocks, i) <==> i !in k'.stacks {
      if i in k.pages {
        if b :| 0 <= b < |k.heap.blocks| && TableIndex(k.heap.blocks[b].base) == i {
          assert TableIndex(k'.heap.blocks[b].base) == i;
        }
      } else {
        assert TableIndex(k'.heap.blocks[|k.heap.blocks|].base) == i;
      }
    }
  }

  lemma FreeKeeps(k: Memory, p: nat, word: nat)
    requires MemoryOk(k) && IsLive(k.heap, p)
    ensures Step(k, Free(p, word)).Reached? && MemoryOk(Step(k, Free(p, word)).mem)
  {
    LiveMagicMapped(k.heap, k.pages, p);
    hide HeapOk, PageMapOk, BlocksOk;
    FreeKeepsHeap(k.heap, p);
    var (i, j) := LiveIndex(k.heap, p);
    var k' := Step(k, Free(p, word)).mem;
    FreeCases(k.heap, p, k.pages);
    LiveBounds(k.heap, p);
    if EmptiesBlock(k.heap, p) {
      PageDropped(k.heap, i, k.pages);
      SamePage(p, k.heap.blocks[i].base);
      AfterFreeOk(k.pages, TableIndex(p));
      OwnersWithout(k, k', i);
    } else {
      SameBases(k.heap.blocks, k'.heap.blocks);
    }
  }

  lemma SameBases(blocks: seq<Block>, blocks': seq<Block>)
    requires |blocks| == |blocks'| && forall b :: 0 <= b < |blocks| ==> blocks'[b].base == blocks[b].base
    ensures forall i :: OwnsPage(blocks', i) <==> OwnsPage(blocks, i)
  {
    forall i ensures OwnsPage(blocks', i) <==> OwnsPage(blocks, i) {
      if b :| 0 <= b < |blocks| && TableIndex(blocks[b].base) == i {
        assert TableIndex(blocks'[b].base) == i;
      }
    }
  }

  lemma OwnersWithout(k: Memory, k': Memory, i: nat)
    requires MemoryOk(k) && i < |k.heap.blocks|
    requires k'.heap.blocks == RemoveAt(k.heap.blocks, i) && k'.stacks == k.stacks
    requires k'.pages == k.pages - {TableIndex(k.heap.blocks[i].base)}
    requires HeapOk(k'.heap) && PageMapOk(k'.pages) && PagesHeld(k'.heap.blocks, k'.pages)
    ensures MemoryOk(k')
  {
    hide HeapOk, PageMapOk;
    var blocks, blocks' := k.heap.blocks, k'.heap.blocks;
    forall x | x in k'.pages ensures OwnsPage(blocks', x) <==> x !in k'.stacks {
      if b :| 0 <= b < |blocks| && TableIndex(blocks[b].base) == x {
        assert blocks'[if b < i then b else b - 1] == blocks[b];
      }
      if b :| 0 <= b < |blocks'| && TableIndex(blocks'[b].base) == x {
        assert blocks[if b < i then b else b + 1] == blocks'[b];
      }
    }
    assert OwnsPage(blocks, TableIndex(blocks[i].base));
  }

  /** Every state of every run from boot is well formed. */
  lemma {:induction false} RunKeepsMemory(k: Memory, ops: seq<Op>)
    requires MemoryOk(k) && Run(k, ops).Reached?
    ensures MemoryOk(Run(k, ops).mem)
    decreases |ops|
  {
    if ops != [] {
      StepKeepsMemory(k, ops[0]);
      RunKeepsMemory(Step(k, ops[0]).mem, ops[1..]);
    }
  }

  // ---------- separation ----------

  /** Byte o of the live payload p. */
  ghost predicate PayloadByte(k: Memory, p: nat, o: nat) {
    IsLive(k.heap, p) && o < SizeAt(k.heap, p)
  }

  lemma PayloadMapped(k: Memory, p: nat, o: nat)
    requires MemoryOk(k) && PayloadByte(k, p, o)
    ensures 0x40_0000 <= p + o < 0x80_0000 && Translate(k.pages, p + o).Some?
    ensures TableIndex(p + o) !in k.stacks
  {
    LiveBounds(k.heap, p);
    var (i, j) := LiveIndex(k.heap, p);
    var base := k.heap.blocks[i].base;
    PageBounds(base);
    SamePage(p + o, base);
    assert OwnsPage(k.heap.blocks, TableIndex(base));
  }

  /**
   * End-to-end separation: after any run, the bytes of the live payloads lie at distinct
   * physical addresses in the second 4 MB, and no byte of a stack page lies there.
   */
  lemma Separation(ops: seq<Op>, k: Memory, p: nat, o: nat, v: nat)
    requires Run(BOOT, ops) == Reached(k) && PayloadByte(k, p, o)
    ensures Translate(k.pages, p + o).Some?
    ensures 0x40_0000 <= Translate(k.pages, p + o).value < 0x80_0000
    ensures forall q: nat, u: nat :: PayloadByte(k, q, u) && Translate(k.pages, q + u) == Translate(k.pages, p + o) ==>
      q == p && u == o
    ensures 0x40_0000 <= v < 0x80_0000 && TableIndex(v) in k.stacks ==>
      Translate(k.pages, v) != Translate(k.pages, p + o)
  {
    hide IsLive, SizeAt, HeapOk, PageMapOk, Translate, Run;
    RunFromBoot(ops);
    PayloadMapped(k, p, o);
    TranslateInjective(k.pages, p + o, v);
    forall q: nat, u: nat | PayloadByte(k, q, u) && Translate(k.pages, q + u) == Translate(k.pages, p + o)
      ensures q == p && u == o
    {
      TranslateInjective(k.pages, p + o, q + u);
      SameByte(k, p, o, q, u);
    }
  }

  lemma RunFromBoot(ops: seq<Op>)
    requires Run(BOOT, ops).Reached?
    ensures MemoryOk(Run(BOOT, ops).mem)
  {
    BootOk();
    RunKeepsMemory(BOOT, ops);
  }

  lemma SameByte(k: Memory, p: nat, o: nat, q: nat, u: nat)
    requires MemoryOk(k) && PayloadByte(k, p, o) && PayloadByte(k, q, u) && p + o == q + u
    ensures p == q && o == u
  {
    hide IsLive, SizeAt, HeapOk;
    if p != q {
      LiveRegionsDisjoint(k.heap, p, q);
    }
  }

  /** The payload p and its place in physical memory are the same in both. */
  ghost predicate SamePayload(k: Memory, k': Memory, p: nat, o: nat) {
    && PayloadByte(k, p, o) && PayloadByte(k', p, o) && SizeAt(k'.heap, p) == SizeAt(k.heap, p)
    && Translate(k'.pages, p + o) == Translate(k.pages, p + o)
  }

  /** No step touches a payload it is not told to free, nor moves it in physical memory. */
  lemma StepLeavesPayload(k: Memory, op: Op, p: nat, o: nat)
    requires MemoryOk(k) && PayloadByte(k, p, o) && !(op.Free? && op.p == p) && Step(k, op).Reached?
    ensures SamePayload(k, Step(k, op).mem, p, o)
  {
    hide HeapOk, BlocksOk, PageMapOk, AfterMalloc, AfterFree, NeedsPage, IsLive, LiveIndex, EmptiesBlock, NextPage,
      AfterAlloc, AddsPayload;
    var k' := Step(k, op).mem;
    StepKeepsMemory(k, op);
    match op {
      case Malloc(n) => MallocLeaves(k, Request(n), p);
      case StackPage =>
      case Free(q, word) => FreeLeaves(k, q, word, p);
    }
    PagesStay(k, op);
    SameFrame(k, k', p, o);
  }

  lemma MallocLeaves(k: Memory, n: nat, p: nat)
    requires MemoryOk(k) && n >= 1 && Step(k, Malloc(n)).Reached? && IsLive(k.heap, p)
    ensures var h := Step(k, Malloc(n)).mem.heap; IsLive(h, p) && SizeAt(h, p) == SizeAt(k.heap, p)
  {
    hide HeapOk, BlocksOk, PageMapOk, AfterMalloc, NeedsPage, IsLive, SizeAt, NextPage, AfterAlloc;
    MallocKeeps(k, n);
    MallocAddsOne(k.heap, n, PageAddr(NextPage(k.pages)));
  }

  lemma FreeLeaves(k: Memory, q: nat, word: nat, p: nat)
    requires MemoryOk(k) && IsLive(k.heap, p) && p != q && Step(k, Free(q, word)).Reached?
    ensures var h := Step(k, Free(q, word)).mem.heap; IsLive(h, p) && SizeAt(h, p) == SizeAt(k.heap, p)
  {
    hide HeapOk, BlocksOk, PageMapOk, AfterFree, IsLive, SizeAt, EmptiesBlock;
    if IsLive(k.heap, q) {
      FreeRemovesOne(k.heap, q);
    }
  }

  /** A page that stays mapped keeps its frame. */
  lemma PagesStay(k: Memory, op: Op)
    requires MemoryOk(k) && Step(k, op).Reached?
    ensures var m := Step(k, op).mem.pages; forall i :: i in m && i in k.pages ==> m[i] == k.pages[i]
  {
    hide HeapOk, BlocksOk, AfterMalloc, AfterFree, NeedsPage, IsLive, EmptiesBlock, NextPage, NextFrame, PageMapOk,
      TableIndex;
    UsedUpTogether(k.pages);
    if |k.pages| < 1024 {
      AfterAllocOk(k.pages);
    }
  }

  lemma SameFrame(k: Memory, k': Memory, p: nat, o: nat)
    requires MemoryOk(k) && MemoryOk(k') && PayloadByte(k, p, o) && PayloadByte(k', p, o)
    requires forall i :: i in k'.pages && i in k.pages ==> k'.pages[i] == k.pages[i]
    ensures Translate(k'.pages, p + o) == Translate(k.pages, p + o)
  {
    hide MemoryOk, PayloadByte;
    PayloadMapped(k, p, o);
    PayloadMapped(k', p, o);
  }

  /** a is a byte of a header, of a major or of a minor. */
  ghost predicate HeaderByte(h: Heap, a: nat) {
    exists i: nat :: i < |h.blocks| && HeaderByteOf(h.blocks[i], a)
  }

  ghost predicate HeaderByteOf(b: Block, a: nat) {
    || b.base <= a < b.base + 24
    || exists j: nat :: j < |b.chunks| && b.chunks[j].addr <= a < b.chunks[j].addr + 24
  }

  /**
   * malloc and free write fields of headers that are linked before or after the call.  No such
   * byte is a payload byte, in virtual or in physical memory, so no payload is written.
   */
  lemma StepWritesNoPayload(k: Memory, op: Op, p: nat, o: nat, a: nat)
    requires MemoryOk(k) && PayloadByte(k, p, o) && !(op.Free? && op.p == p) && Step(k, op).Reached?
    requires HeaderByte(k.heap, a) || HeaderByte(Step(k, op).mem.heap, a)
    ensures a != p + o
    ensures Translate(Step(k, op).mem.pages, a) != Translate(k.pages, p + o)
    ensures Translate(k.pages, a) != Translate(k.pages, p + o)
  {
    hide HeapOk, PageMapOk, HeaderByte, IsLive, SizeAt, Step, Translate;
    var k' := Step(k, op).mem;
    StepKeepsMemory(k, op);
    StepLeavesPayload(k, op, p, o);
    PayloadMapped(k, p, o);
    if HeaderByte(k.heap, a) {
      HeaderMissesPayload(k.heap, p, o, a);
    } else {
      HeaderMissesPayload(k'.heap, p, o, a);
    }
    TranslateInjective(k.pages, p + o, a);
    TranslateInjective(k'.pages, p + o, a);
  }

  lemma HeaderMissesPayload(h: Heap, p: nat, o: nat, a: nat)
    requires HeapOk(h) && IsLive(h, p) && o < SizeAt(h, p) && HeaderByte(h, a)
    ensures a != p + o
  {
    hide HeapOk, IsLive, SizeAt;
    var i: nat :| i < |h.blocks| && HeaderByteOf(h.blocks[i], a);
    if h.blocks[i].base <= a < h.blocks[i].base + 24 {
      MajorHeaderApart(h, p, i);
    } else {
      var j: nat :| j < |h.blocks[i].chunks| && h.blocks[i].chunks[j].addr <= a < h.blocks[i].chunks[j].addr + 24;
      PointerFindsChunk(h, i, j);
      var q := h.blocks[i].chunks[j].addr + 24;
      if q != p {
        LiveRegionsDisjoint(h, p, q);
      }
    }
  }

  lemma MajorHeaderApart(h: Heap, p: nat, i: nat)
    requires HeapOk(h) && IsLive(h, p) && i < |h.blocks|
    ensures p + SizeAt(h, p) <= h.blocks[i].base || h.blocks[i].base + 24 <= p
  {
    LiveBounds(h, p);
    var t := LiveIndex(h, p).0;
    if t != i {
      PagesApart(h.blocks[t].base, h.blocks[i].base);
    }
  }

  // ---------- running out, and giving everything back ----------

  /**
   * The machine runs out of memory exactly when all 1024 pages are live and no gap of any
   * block takes the request; a request that no page takes is refused as such.  Otherwise
   * malloc returns a pointer that is never null.
   */
  lemma MallocOutcome(k: Memory, n: nat)
    requires MemoryOk(k)
    ensures var size := Request(n);
      var noRoom := forall i, j: nat :: 0 <= i < |k.heap.blocks| && j <= |k.heap.blocks[i].chunks| ==>
        !Fits(k.heap.blocks[i], j, size);
      && (Step(k, Malloc(n)) == Stopped(TooManyPages) <==> 4048 < size < 0x1_0000_0000 - 48)
      && (Step(k, Malloc(n)) == Stopped(OutOfMemory) <==> size <= 4048 && noRoom && |k.pages| == 1024)
      && (Step(k, Malloc(n)) == Undefined <==> size >= 0x1_0000_0000 - 48)
      && (Step(k, Malloc(n)).Reached? ==> MallocPtr(k.heap, size, PageAddr(NextPage(k.pages))) >= 0x40_0000 + 48)
  {
    var size := Request(n);
    SearchComplete(k.heap, size);
    if !NeedsPage(k.heap, size) {
      RoomFor(k.heap, size);
      var i, j := TargetBlock(k.heap, size), TargetGap(k.heap, size);
      if j > 0 { ChunkBounds(k.heap.blocks[i], j - 1); }
    }
  }

  /** The number of mapped pages is the number of blocks plus the number of stacks. */
  lemma PageCount(k: Memory)
    requires MemoryOk(k)
    ensures |k.pages| == |k.heap.blocks| + |k.stacks|
  {
    var owned := Pages(k.heap.blocks);
    PagesOf(k.heap.blocks);
    assert k.pages.Keys == owned + k.stacks;
    assert owned !! k.stacks;
  }

  ghost function Pages(blocks: seq<Block>): set<nat> {
    if blocks == [] then {} else {TableIndex(blocks[0].base)} + Pages(blocks[1..])
  }

  lemma {:induction false} PagesOf(blocks: seq<Block>)
    requires BlocksOk(blocks)
    ensures |Pages(blocks)| == |blocks|
    ensures forall i :: i in Pages(blocks) <==> OwnsPage(blocks, i)
  {
    if blocks != [] {
      PagesOf(blocks[1..]);
      OwnersSplit(blocks);
      FirstIsAlone(blocks);
    }
  }

  lemma OwnersSplit(blocks: seq<Block>)
    requires blocks != []
    ensures forall i :: OwnsPage(blocks, i) <==> i == TableIndex(blocks[0].base) || OwnsPage(blocks[1..], i)
  {
    hide TableIndex;
    forall i ensures OwnsPage(blocks, i) <==> i == TableIndex(blocks[0].base) || OwnsPage(blocks[1..], i) {
      if b :| 0 <= b < |blocks| && TableIndex(blocks[b].base) == i {
        assert b > 0 ==> blocks[1..][b - 1] == blocks[b];
      }
      if b :| 0 <= b < |blocks[1..]| && TableIndex(blocks[1..][b].base) == i {
        assert blocks[b + 1] == blocks[1..][b];
      }
    }
  }

  lemma FirstIsAlone(blocks: seq<Block>)
    requires BlocksOk(blocks) && blocks != []
    ensures !OwnsPage(blocks[1..], TableIndex(blocks[0].base))
  {
    forall b | 1 <= b < |blocks| ensures TableIndex(blocks[b].base) != TableIndex(blocks[0].base) {
      HeapHalf(blocks[0].base);
      HeapHalf(blocks[b].base);
    }
  }

  /** A list that names every live payload once. */
  ghost predicate NamesLive(h: Heap, ps: seq<nat>) {
    && (forall p: nat :: p in ps <==> IsLive(h, p))
    && (forall i, j :: 0 <= i < j < |ps| ==> ps[i] != ps[j])
  }

  function Frees(ps: seq<nat>): seq<Op> {
    if ps == [] then [] else [Free(ps[0], LIBALLOC_MAGIC)] + Frees(ps[1..])
  }

  /**
   * No leak over whole runs: from any reachable state, freeing every live payload in any
   * order leaves no block, no best bet, zero totals, and no page but the stacks.
   */
  lemma {:induction false} FreeAllReturnsAll(k: Memory, ps: seq<nat>)
    requires MemoryOk(k) && NamesLive(k.heap, ps)
    ensures Run(k, Frees(ps)).Reached?
    ensures var k' := Run(k, Frees(ps)).mem;
      && k'.heap == Heap([], 0) && Inuse(k'.heap.blocks) == 0
      && k'.stacks == k.stacks && k'.pages.Keys == k.stacks
    decreases |ps|
  {
    if ps == [] {
      forall p: nat ensures !IsLive(k.heap, p) {
        assert p !in ps;
      }
      NothingLiveNothingHeld(k.heap);
    } else {
      assert ps[0] in ps;
      FreeKeeps(k, ps[0], LIBALLOC_MAGIC);
      var k' := Step(k, Free(ps[0], LIBALLOC_MAGIC)).mem;
      StepKeepsMemory(k, Free(ps[0], LIBALLOC_MAGIC));
      FreeRemovesOne(k.heap, ps[0]);
      OthersLive(k.heap, k'.heap, ps);
      FreeAllReturnsAll(k', ps[1..]);
      assert Frees(ps)[1..] == Frees(ps[1..]);
    }
  }

  lemma OthersLive(h: Heap, h': Heap, ps: seq<nat>)
    requires ps != [] && NamesLive(h, ps) && IsLive(h, ps[0]) && AddsPayload(h', h, ps[0], SizeAt(h, ps[0]))
    ensures NamesLive(h', ps[1..])
  {
    forall p: nat ensures p in ps[1..] <==> IsLive(h', p) {
      assert ps == [ps[0]] + ps[1..];
      assert p in ps <==> p == ps[0] || p in ps[1..];
    }
  }

  /** malloc and then free of the result gives back the page too. */
  lemma FreeUndoesMallocStep(k: Memory, n: nat)
    requires MemoryOk(k) && Step(k, Malloc(n)).Reached?
    ensures var p := MallocPtr(k.heap, Request(n), PageAddr(NextPage(k.pages)));
      var k' := Run(k, [Malloc(n), Free(p, LIBALLOC_MAGIC)]);
      k'.Reached? && k'.mem.heap.blocks == k.heap.blocks && k'.mem.pages == k.pages && k'.mem.stacks == k.stacks
  {
    hide HeapOk, BlocksOk, PageMapOk, AfterMalloc, AfterFree, IsLive, MallocPtr, EmptiesBlock, NeedsPage, NextPage,
      AfterAlloc, MemoryOk;
    var size, page := Request(n), PageAddr(NextPage(k.pages));
    var p := MallocPtr(k.heap, size, page);
    var k1 := Step(k, Malloc(n)).mem;
    MallocThenFree(k, size);
    StepKeepsMemory(k, Malloc(n));
    FreeKeeps(k1, p, LIBALLOC_MAGIC);
    var k2 := Step(k1, Free(p, LIBALLOC_MAGIC)).mem;
    assert [Malloc(n), Free(p, LIBALLOC_MAGIC)][1..] == [Free(p, LIBALLOC_MAGIC)];
    assert Run(k1, [Free(p, LIBALLOC_MAGIC)]) == Reached(k2);
  }

  lemma MallocThenFree(k: Memory, n: nat)
    requires MemoryOk(k) && n >= 1 && Step(k, Malloc(n)).Reached?
    ensures var p := MallocPtr(k.heap, n, PageAddr(NextPage(k.pages)));
      var h := AfterMalloc(k.heap, n, PageAddr(NextPage(k.pages)));
      && IsLive(h, p) && AfterFree(h, p).blocks == k.heap.blocks
      && (EmptiesBlock(h, p) <==> NeedsPage(k.heap, n))
      && (NeedsPage(k.heap, n) ==> AfterAlloc(k.pages) - {TableIndex(p)} == k.pages)
  {
    hide HeapOk, BlocksOk, PageMapOk, AfterMalloc, AfterFree, IsLive, NextPage, NeedsPage, EmptiesBlock, TargetGap,
      TargetBlock, AfterAlloc, Search, HasBase, PagesHeld, OwnsPage, MallocPtr, PageAddr, TableIndex, IsPage;
    var page := PageAddr(NextPage(k.pages));
    MallocKeeps(k, n);
    FreeUndoesMalloc(k.heap, n, page);
    MallocKeepsHeap(k.heap, n, page);
    BlockEmpties(k.heap, n, page);
    if NeedsPage(k.heap, n) {
      UsedUpTogether(k.pages);
      PageReturns(k.pages);
    }
  }

  lemma PageReturns(m: PageMap)
    requires PageMapOk(m) && |m| < 1024
    ensures AfterAlloc(m) - {TableIndex(PageAddr(NextPage(m)) + 48)} == m
  {
    hide NextPage, AfterAlloc, PageMapOk, TableIndex, PageAddr;
    AfterAllocOk(m);
    AllocThenFree(m);
    AddressDecodes(NextPage(m), 48);
  }

  lemma BlockEmpties(h: Heap, n: nat, page: nat)
    requires HeapOk(h) && HeapOk(AfterMalloc(h, n, page))
    requires IsLive(AfterMalloc(h, n, page), MallocPtr(h, n, page))
    ensures EmptiesBlock(AfterMalloc(h, n, page), MallocPtr(h, n, page)) <==> NeedsPage(h, n)
    ensures NeedsPage(h, n) ==> MallocPtr(h, n, page) == page + 48
  {
    hide Search, IsLive;
    MallocIsOneMore(h, n, page);
    PointerFindsChunk(AfterMalloc(h, n, page), TargetBlock(h, n), TargetGap(h, n));
  }
}
