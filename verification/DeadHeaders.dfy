/**
 * What free finds in front of a pointer that was freed before (mm/liballoc.cpp): the magic
 * words that liballoc has written, for as long as nothing has overwritten or unmapped them.
 */
module DeadHeaders {
  import opened Common
  import opened HeapLayout
  import opened Paging
  import opened Liballoc
  import opened KernelMemory

  /** Header addresses and the magic words there that liballoc wrote and that still stand. */
  type Words = map<nat, nat>

  /** The magic word of the header at x has a byte in lo..hi. */
  predicate Hit(x: nat, lo: int, hi: int) {
    x + 12 < hi && lo < x + 16
  }

  /**
   * The step may change the word of the header at x: malloc hands out the bytes it takes, with
   * their header, and puts a header on a new page; free gives back the page of a last payload.
   */
  ghost predicate Overwrites(k: Memory, op: Op, x: nat) {
    match op
    case Malloc(n) =>
      var size, page := Request(n), PageAddr(NextPage(k.pages));
      var p := MallocPtr(k.heap, size, page);
      Hit(x, p - 24, p + size) || (NeedsPage(k.heap, size) && Hit(x, page, page + 24))
    case Free(p, word) => IsLive(k.heap, p) && EmptiesBlock(k.heap, p) && (x + 12) / 4096 == p / 4096
    case StackPage => false
  }

  ghost function StepWords(k: Memory, op: Op, words: Words): Words {
    var kept := map x | x in words && !Overwrites(k, op, x) :: words[x];
    match op
    case Malloc(n) =>
      kept[MallocPtr(k.heap, Request(n), PageAddr(NextPage(k.pages))) - 24 := LIBALLOC_MAGIC]
    case Free(p, word) =>
      if IsLive(k.heap, p) && p >= 24 && !EmptiesBlock(k.heap, p) then kept[p - 24 := LIBALLOC_DEAD] else kept
    case StackPage => kept
  }

  /** Four bytes that no payload and no header takes. */
  ghost predicate InGap(h: Heap, y: nat) {
    exists i: nat, j: nat :: GapHolds(h, i, j, y)
  }

  ghost predicate GapHolds(h: Heap, i: nat, j: nat, y: nat) {
    && i < |h.blocks| && j <= |h.blocks[i].chunks|
    && GapStart(h.blocks[i], j) <= y && y + 4 <= GapEnd(h.blocks[i], j)
  }

  /** Live headers hold the magic, and every other word that stands is dead and lies in a gap. */
  ghost predicate WordsOk(k: Memory, words: Words) {
    && (forall p: nat :: IsLive(k.heap, p) ==> p >= 24 && p - 24 in words && words[p - 24] == LIBALLOC_MAGIC)
    && (forall x :: x in words && !IsLive(k.heap, x + 24) ==> words[x] == LIBALLOC_DEAD && InGap(k.heap, x + 12))
  }

  // ---------- gaps after malloc and free ----------

  lemma GapAfterMalloc(h: Heap, n: nat, page: nat, i: nat, j: nat, y: nat)
    requires HeapOk(h) && 1 <= n <= 4048 && GapHolds(h, i, j, y)
    requires !NeedsPage(h, n) ==> !(y < MallocPtr(h, n, page) + n && MallocPtr(h, n, page) - 24 < y + 4)
    ensures InGap(AfterMalloc(h, n, page), y)
  {
    hide FirstGap, Search;
    var t, g := TargetBlock(h, n), TargetGap(h, n);
    var h' := AfterMalloc(h, n, page);
    if t == |h.blocks| || i != t {
      assert h'.blocks[i] == h.blocks[i];
      assert GapHolds(h', i, j, y);
    } else {
      SplitGap(h.blocks[t], g, n, j, y);
      assert GapHolds(h', i, if j < g then j else j + 1, y);
    }
  }

  /** A new chunk takes the start of its gap; the other gaps move up by one. */
  lemma SplitGap(b: Block, g: nat, n: nat, j: nat, y: nat)
    requires g <= |b.chunks| && j <= |b.chunks| && GapStart(b, j) <= y && y + 4 <= GapEnd(b, j)
    requires j == g ==> y >= GapStart(b, g) + 24 + n
    ensures var b', j' := WithChunk(b, g, n), if j < g then j else j + 1;
      j' <= |b'.chunks| && GapStart(b', j') <= y && y + 4 <= GapEnd(b', j')
  {
  }

  lemma GapAfterFree(h: Heap, p: nat, i: nat, j: nat, y: nat)
    requires HeapOk(h) && IsLive(h, p) && GapHolds(h, i, j, y)
    requires !(EmptiesBlock(h, p) && y / 4096 == p / 4096)
    ensures InGap(AfterFree(h, p), y)
  {
    var (t, g) := LiveIndex(h, p);
    var h' := AfterFree(h, p);
    LiveBounds(h, p);
    GapInPage(h, i, j, y);
    if EmptiesBlock(h, p) {
      var i' := if i < t then i else i - 1;
      assert i != t;
      assert h'.blocks[i'] == h.blocks[i];
      assert GapHolds(h', i', j, y);
    } else if i != t {
      assert h'.blocks[i] == h.blocks[i];
      assert GapHolds(h', i, j, y);
    } else {
      MergedGap(h.blocks[t], g, j, y);
      assert GapHolds(h', t, if j <= g then j else j - 1, y);
    }
  }

  /** A chunk that goes joins the gaps on both its sides. */
  lemma MergedGap(b: Block, g: nat, j: nat, y: nat)
    requires BlockOk(b) && g < |b.chunks| && j <= |b.chunks| && GapStart(b, j) <= y && y + 4 <= GapEnd(b, j)
    ensures var b', j' := WithoutChunk(b, g), if j <= g then j else j - 1;
      j' <= |b'.chunks| && GapStart(b', j') <= y && y + 4 <= GapEnd(b', j')
  {
    assert GapStart(b, g) <= GapEnd(b, g) && GapStart(b, g + 1) <= GapEnd(b, g + 1);
  }

  lemma GapInPage(h: Heap, i: nat, j: nat, y: nat)
    requires HeapOk(h) && GapHolds(h, i, j, y)
    ensures h.blocks[i].base + 24 <= y && y + 4 <= h.blocks[i].base + 4096
    ensures y / 4096 * 4096 == h.blocks[i].base
  {
    var b := h.blocks[i];
    if j > 0 {
      ChunkBounds(b, j - 1);
    }
    if j < |b.chunks| {
      ChunkBounds(b, j);
    }
    PageOfAddress(b.base, y);
  }

  /** The header that free leaves behind lies in the gap it makes. */
  lemma FreedInGap(h: Heap, p: nat)
    requires HeapOk(h) && IsLive(h, p) && !EmptiesBlock(h, p)
    ensures InGap(AfterFree(h, p), p - 12)
  {
    var (t, g) := LiveIndex(h, p);
    var h' := AfterFree(h, p);
    LiveBounds(h, p);
    var b := h.blocks[t];
    assert GapStart(b, g) <= GapEnd(b, g) && GapStart(b, g + 1) <= GapEnd(b, g + 1);
    assert GapHolds(h', t, g, p - 12);
  }

  // ---------- the invariant ----------

  lemma MallocKeepsWords(k: Memory, n: nat, words: Words)
    requires MemoryOk(k) && WordsOk(k, words) && Step(k, Malloc(n)).Reached?
    ensures WordsOk(Step(k, Malloc(n)).mem, StepWords(k, Malloc(n), words))
  {
    hide HeapOk, PageMapOk, IsLive, SizeAt, StepWords, InGap, Step, MemoryOk, Overwrites;
    LiveAfterMalloc(k, n, words);
    DeadStays(k, n, words);
  }

  lemma DeadStays(k: Memory, n: nat, words: Words)
    requires MemoryOk(k) && WordsOk(k, words) && Step(k, Malloc(n)).Reached?
    ensures var h', words' := Step(k, Malloc(n)).mem.heap, StepWords(k, Malloc(n), words);
      forall x :: x in words' && !IsLive(h', x + 24) ==> words'[x] == LIBALLOC_DEAD && InGap(h', x + 12)
  {
    hide HeapOk, PageMapOk, IsLive, SizeAt, AfterMalloc, NextPage, MallocPtr, InGap, HasBase, NeedsPage, PageAddr;
    var size, page := Request(n), PageAddr(NextPage(k.pages));
    MallocKeeps(k, size);
    MallocAddsOne(k.heap, size, page);
    var h' := AfterMalloc(k.heap, size, page);
    LiveFrom48(h', MallocPtr(k.heap, size, page));
    forall x | x in StepWords(k, Malloc(n), words) && !IsLive(h', x + 24)
      ensures StepWords(k, Malloc(n), words)[x] == LIBALLOC_DEAD && InGap(h', x + 12)
    {
      assert x in words && !Overwrites(k, Malloc(n), x);
      GapStays(k.heap, size, page, x);
    }
  }

  lemma LiveAfterMalloc(k: Memory, n: nat, words: Words)
    requires MemoryOk(k) && WordsOk(k, words) && Step(k, Malloc(n)).Reached?
    ensures forall q: nat :: IsLive(Step(k, Malloc(n)).mem.heap, q) ==>
      q >= 24 && q - 24 in StepWords(k, Malloc(n), words) && StepWords(k, Malloc(n), words)[q - 24] == LIBALLOC_MAGIC
  {
    hide HeapOk, PageMapOk, IsLive, SizeAt, AfterMalloc, NextPage, MallocPtr, InGap, HasBase, NeedsPage, PageAddr;
    var size, page := Request(n), PageAddr(NextPage(k.pages));
    var p := MallocPtr(k.heap, size, page);
    MallocKeeps(k, size);
    MallocAddsOne(k.heap, size, page);
    var h' := AfterMalloc(k.heap, size, page);
    LiveFrom48(h', p);
    forall q: nat | IsLive(h', q)
      ensures q >= 24 && q - 24 in StepWords(k, Malloc(n), words)
      ensures StepWords(k, Malloc(n), words)[q - 24] == LIBALLOC_MAGIC
    {
      LiveFrom48(h', q);
      if q != p {
        LiveWordStands(k, n, page, q);
      }
    }
  }

  lemma LiveFrom48(h: Heap, p: nat)
    requires HeapOk(h) && IsLive(h, p)
    ensures p >= 48
  {
    LiveBounds(h, p);
  }

  lemma GapStays(h: Heap, n: nat, page: nat, x: nat)
    requires HeapOk(h) && 1 <= n <= 4048 && InGap(h, x + 12)
    requires !Hit(x, MallocPtr(h, n, page) - 24, MallocPtr(h, n, page) + n)
    ensures InGap(AfterMalloc(h, n, page), x + 12)
  {
    hide HeapOk, MallocPtr, AfterMalloc, NeedsPage;
    var i: nat, j: nat :| GapHolds(h, i, j, x + 12);
    GapAfterMalloc(h, n, page, i, j, x + 12);
  }

  /** Neither the new payload nor the header of a new page touches the word of a live header. */
  lemma LiveWordStands(k: Memory, n: nat, page: nat, q: nat)
    requires MemoryOk(k) && Step(k, Malloc(n)).Reached? && page == PageAddr(NextPage(k.pages)) && q >= 24
    requires var h', p := AfterMalloc(k.heap, Request(n), page), MallocPtr(k.heap, Request(n), page);
      HeapOk(h') && IsLive(h', q) && IsLive(h', p) && q != p && SizeAt(h', p) == Request(n)
    ensures !Overwrites(k, Malloc(n), q - 24)
  {
    hide HeapOk, IsLive, SizeAt, NextPage, MallocPtr, Search;
    var h', p := AfterMalloc(k.heap, Request(n), page), MallocPtr(k.heap, Request(n), page);
    LiveRegionsDisjoint(h', q, p);
    if NeedsPage(k.heap, Request(n)) {
      assert h'.blocks[|k.heap.blocks|].base == page;
    }
  }

  lemma FreeKeepsWords(k: Memory, p: nat, word: nat, words: Words)
    requires MemoryOk(k) && WordsOk(k, words) && Step(k, Free(p, word)).Reached? && IsLive(k.heap, p)
    ensures WordsOk(Step(k, Free(p, word)).mem, StepWords(k, Free(p, word), words))
  {
    hide HeapOk, PageMapOk, IsLive, SizeAt, AfterFree, InGap, EmptiesBlock, MagicMapped;
    var h' := AfterFree(k.heap, p);
    FreeKeepsHeap(k.heap, p);
    FreeRemovesOne(k.heap, p);
    LiveFrom48(k.heap, p);
    forall q: nat | IsLive(h', q)
      ensures q >= 24 && q - 24 in StepWords(k, Free(p, word), words)
      ensures StepWords(k, Free(p, word), words)[q - 24] == LIBALLOC_MAGIC
    {
      LiveFrom48(h', q);
      OtherPageIfEmptied(k.heap, p, q);
    }
    forall x | x in StepWords(k, Free(p, word), words) && !IsLive(h', x + 24)
      ensures StepWords(k, Free(p, word), words)[x] == LIBALLOC_DEAD && InGap(h', x + 12)
    {
      if x == p - 24 {
        FreedWord(k.heap, p);
      } else {
        assert x in words && !Overwrites(k, Free(p, word), x);
        GapStaysFree(k.heap, p, x);
      }
    }
  }

  lemma FreedWord(h: Heap, p: nat)
    requires HeapOk(h) && IsLive(h, p) && p >= 24
    ensures EmptiesBlock(h, p) ==> (p - 24 + 12) / 4096 == p / 4096
    ensures !EmptiesBlock(h, p) ==> InGap(AfterFree(h, p), p - 24 + 12)
  {
    LiveBounds(h, p);
    if EmptiesBlock(h, p) {
      PageOfAddress(h.blocks[LiveIndex(h, p).0].base, p - 12);
    } else {
      FreedInGap(h, p);
    }
  }

  lemma GapStaysFree(h: Heap, p: nat, x: nat)
    requires HeapOk(h) && IsLive(h, p) && InGap(h, x + 12)
    requires !(EmptiesBlock(h, p) && (x + 12) / 4096 == p / 4096)
    ensures InGap(AfterFree(h, p), x + 12)
  {
    hide HeapOk, AfterFree, IsLive, EmptiesBlock;
    var i: nat, j: nat :| GapHolds(h, i, j, x + 12);
    GapAfterFree(h, p, i, j, x + 12);
  }

  lemma OtherPageIfEmptied(h: Heap, p: nat, q: nat)
    requires HeapOk(h) && IsLive(h, p) && IsLive(h, q) && p != q && q >= 24
    ensures EmptiesBlock(h, p) ==> (q - 24 + 12) / 4096 != p / 4096
  {
    LiveBounds(h, p);
    LiveBounds(h, q);
    PageOfAddress(h.blocks[LiveIndex(h, q).0].base, q - 12);
  }

  /** Every step keeps the words that stand true of memory. */
  lemma StepKeepsWords(k: Memory, op: Op, words: Words)
    requires MemoryOk(k) && WordsOk(k, words) && Step(k, op).Reached?
    ensures WordsOk(Step(k, op).mem, StepWords(k, op, words))
  {
    hide HeapOk, PageMapOk, IsLive, SizeAt, AfterFree, AfterMalloc, InGap, EmptiesBlock, MagicMapped, MallocPtr,
      NeedsPage, NextPage, AfterAlloc, PageAddr;
    match op {
      case Malloc(n) =>
        MallocKeepsWords(k, n, words);
      case Free(p, word) =>
        if IsLive(k.heap, p) {
          FreeKeepsWords(k, p, word, words);
        } else {
          assert StepWords(k, op, words) == words;
        }
      case StackPage =>
        assert StepWords(k, op, words) == words;
    }
  }

  ghost function RunWords(k: Memory, ops: seq<Op>, words: Words): Words
    requires Run(k, ops).Reached?
    decreases |ops|
  {
    if ops == [] then words else RunWords(Step(k, ops[0]).mem, ops[1..], StepWords(k, ops[0], words))
  }

  lemma {:induction false} RunKeepsWords(k: Memory, ops: seq<Op>, words: Words)
    requires MemoryOk(k) && WordsOk(k, words) && Run(k, ops).Reached?
    ensures MemoryOk(Run(k, ops).mem) && WordsOk(Run(k, ops).mem, RunWords(k, ops, words))
    decreases |ops|
  {
    if ops != [] {
      StepKeepsMemory(k, ops[0]);
      StepKeepsWords(k, ops[0], words);
      RunKeepsWords(Step(k, ops[0]).mem, ops[1..], StepWords(k, ops[0], words));
    }
  }

  // ---------- double free ----------

  /** A dead word that stands is mapped, so free reads it, takes it for no header and changes nothing. */
  lemma DeadWordIsRead(k: Memory, words: Words, x: nat)
    requires MemoryOk(k) && WordsOk(k, words) && x in words && words[x] == LIBALLOC_DEAD
    ensures !IsLive(k.heap, x + 24) && MagicMapped(k.pages, x + 24) && InGap(k.heap, x + 12)
    ensures Step(k, Free(x + 24, LIBALLOC_DEAD)) == Reached(k)
  {
    hide HeapOk, PageMapOk, IsLive, MagicMapped, GapHolds, MemoryOk;
    DeadIsInGap(k, words, x);
    var i: nat, j: nat :| GapHolds(k.heap, i, j, x + 12);
    DeadWordAt(k, x, i, j);
  }

  lemma DeadIsInGap(k: Memory, words: Words, x: nat)
    requires WordsOk(k, words) && x in words && words[x] == LIBALLOC_DEAD
    ensures !IsLive(k.heap, x + 24) && InGap(k.heap, x + 12)
  {
    hide IsLive, InGap;
    var p: nat := x + 24;
    assert LIBALLOC_DEAD != LIBALLOC_MAGIC;
    assert p - 24 == x;
  }

  lemma DeadWordAt(k: Memory, x: nat, i: nat, j: nat)
    requires MemoryOk(k) && GapHolds(k.heap, i, j, x + 12)
    ensures MagicMapped(k.pages, x + 24)
  {
    hide HeapOk, PageMapOk, MagicMapped;
    GapOk(k, i, j, x + 12);
    MappedInPage(k.pages, k.heap.blocks[i].base, x + 24);
  }

  lemma GapOk(k: Memory, i: nat, j: nat, y: nat)
    requires MemoryOk(k) && GapHolds(k.heap, i, j, y)
    ensures i < |k.heap.blocks|
    ensures var base := k.heap.blocks[i].base;
      IsPage(base) && TableIndex(base) in k.pages && base + 24 <= y && y + 4 <= base + 4096
  {
    GapInPage(k.heap, i, j, y);
    PageOk(k, i);
  }

  /** No payload and no header shares a byte with it, so nobody who keeps to his payload writes it. */
  lemma DeadWordIsApart(k: Memory, words: Words, x: nat, p: nat)
    requires MemoryOk(k) && WordsOk(k, words) && x in words && words[x] == LIBALLOC_DEAD && IsLive(k.heap, p)
    ensures !Hit(x, p - 24, p + SizeAt(k.heap, p))
  {
    hide HeapOk, PageMapOk, IsLive, SizeAt, MagicMapped, GapHolds;
    DeadWordIsRead(k, words, x);
    var i: nat, j: nat :| GapHolds(k.heap, i, j, x + 12);
    GapMissesPayload(k.heap, i, j, x + 12, p);
  }

  lemma PageOk(k: Memory, i: nat)
    requires MemoryOk(k) && i < |k.heap.blocks|
    ensures IsPage(k.heap.blocks[i].base) && TableIndex(k.heap.blocks[i].base) in k.pages
  {
  }

  lemma GapMissesPayload(h: Heap, i: nat, j: nat, y: nat, p: nat)
    requires HeapOk(h) && GapHolds(h, i, j, y) && IsLive(h, p)
    ensures p + SizeAt(h, p) <= y || y + 4 <= p - 24
  {
    LiveBounds(h, p);
    GapInPage(h, i, j, y);
    var (t, g) := LiveIndex(h, p);
    if t != i {
      PagesApart(h.blocks[t].base, h.blocks[i].base);
    } else if g < j {
      if g < j - 1 {
        ChunkOrder(h.blocks[i], g, j - 1);
      }
    } else if g > j {
      ChunkOrder(h.blocks[i], j, g);
    }
  }

  /**
   * Freeing twice in a row faults exactly when the first call gave back the page (and the
   * processor has no old translation of it left); otherwise the second call finds the dead
   * header and changes nothing.
   */
  lemma FreeTwice(k: Memory, words: Words, p: nat, word: nat)
    requires MemoryOk(k) && WordsOk(k, words) && IsLive(k.heap, p)
    ensures Step(k, Free(p, word)).Reached? && p >= 24
    ensures Run(k, [Free(p, word), Free(p, LIBALLOC_DEAD)]) ==
      if EmptiesBlock(k.heap, p) then Stopped(PageFault) else Step(k, Free(p, word))
    ensures !EmptiesBlock(k.heap, p) ==> IsDead(StepWords(k, Free(p, word), words), p - 24)
  {
    hide HeapOk, PageMapOk, IsLive, MagicMapped, EmptiesBlock, WordsOk;
    LiveFrom48(k.heap, p);
    FreeKeeps(k, p, word);
    var k1 := Step(k, Free(p, word)).mem;
    var again := Free(p, LIBALLOC_DEAD);
    StepKeepsWords(k, Free(p, word), words);
    FreeRemovesOne(k.heap, p);
    assert [Free(p, word), again][1..] == [again];
    if EmptiesBlock(k.heap, p) {
      GoneUnmapped(k, p);
    } else {
      DeadWordIsRead(k1, StepWords(k, Free(p, word), words), p - 24);
      assert Run(k1, [again]) == Run(k1, []);
    }
  }

  lemma GoneUnmapped(k: Memory, p: nat)
    requires MemoryOk(k) && IsLive(k.heap, p) && EmptiesBlock(k.heap, p)
    ensures !MagicMapped(k.pages - {TableIndex(p)}, p)
  {
    LiveBounds(k.heap, p);
    var (i, j) := LiveIndex(k.heap, p);
    var base := k.heap.blocks[i].base;
    UnmappedInPage(k.pages, base, p);
  }

  lemma UnmappedInPage(m: PageMap, base: nat, p: nat)
    requires IsPage(base) && base + 12 <= p < base + 4096
    ensures !MagicMapped(m - {TableIndex(p)}, p)
  {
    hide TableIndex;
    PageBounds(base);
    SamePage(p, base);
    SamePage(p - 12, base);
    assert MagicAddress(p) == p - 12;
  }

  ghost predicate IsDead(words: Words, x: nat) {
    x in words && words[x] == LIBALLOC_DEAD
  }

  /** The step frees the live payload behind the header at x, and its page stays. */
  ghost predicate Kills(k: Memory, op: Op, x: nat) {
    op.Free? && op.p == x + 24 && IsLive(k.heap, x + 24) && !EmptiesBlock(k.heap, x + 24)
  }

  lemma NewHeader(k: Memory, n: nat)
    requires MemoryOk(k) && Step(k, Malloc(n)).Reached?
    ensures var p := MallocPtr(k.heap, Request(n), PageAddr(NextPage(k.pages)));
      p >= 24 && Overwrites(k, Malloc(n), p - 24)
  {
    MallocOutcome(k, n);
  }

  lemma DeadAfterStep(k: Memory, op: Op, words: Words, x: nat)
    requires MemoryOk(k) && WordsOk(k, words) && Step(k, op).Reached?
    ensures IsDead(StepWords(k, op, words), x) <==> (IsDead(words, x) && !Overwrites(k, op, x)) || Kills(k, op, x)
  {
    hide HeapOk, PageMapOk, IsLive, MagicMapped, EmptiesBlock, WordsOk, MemoryOk, StepWords, Overwrites, Step;
    match op {
      case Malloc(n) =>
        NewHeader(k, n);
        DeadAfterMalloc(k, n, words, x);
      case Free(p, word) =>
        if IsLive(k.heap, p) {
          LiveStart(k, p, word);
        }
        DeadAfterFree(k, p, word, words, x);
      case StackPage =>
        DeadAfterStack(k, words, x);
    }
  }

  lemma DeadAfterMalloc(k: Memory, n: nat, words: Words, x: nat)
    requires Overwrites(k, Malloc(n), MallocPtr(k.heap, Request(n), PageAddr(NextPage(k.pages))) - 24)
    ensures IsDead(StepWords(k, Malloc(n), words), x) <==> IsDead(words, x) && !Overwrites(k, Malloc(n), x)
  {
    hide Overwrites, MallocPtr, NextPage, PageAddr;
  }

  lemma DeadAfterFree(k: Memory, p: nat, word: nat, words: Words, x: nat)
    requires IsLive(k.heap, p) ==> p >= 24
    ensures IsDead(StepWords(k, Free(p, word), words), x) <==>
      (IsDead(words, x) && !Overwrites(k, Free(p, word), x)) || Kills(k, Free(p, word), x)
  {
    hide IsLive, EmptiesBlock;
  }

  lemma DeadAfterStack(k: Memory, words: Words, x: nat)
    ensures IsDead(StepWords(k, StackPage, words), x) <==> IsDead(words, x) && !Overwrites(k, StackPage, x)
  {
  }

  ghost predicate Stands(k: Memory, ops: seq<Op>, x: nat)
    requires Run(k, ops).Reached?
    decreases |ops|
  {
    ops == [] || (!Overwrites(k, ops[0], x) && Stands(Step(k, ops[0]).mem, ops[1..], x))
  }

  /** Call i of the run frees the payload behind the header at x, and no later one overwrites that. */
  ghost predicate DiesAt(k: Memory, ops: seq<Op>, x: nat, i: nat)
    requires Run(k, ops).Reached? && i < |ops|
    decreases |ops|
  {
    var k' := Step(k, ops[0]).mem;
    if i == 0 then Kills(k, ops[0], x) && Stands(k', ops[1..], x) else DiesAt(k', ops[1..], x, i - 1)
  }

  ghost predicate Dies(k: Memory, ops: seq<Op>, x: nat)
    requires Run(k, ops).Reached?
  {
    exists i: nat :: i < |ops| && DiesAt(k, ops, x, i)
  }

  /**
   * The header at x is dead at the end of a run if and only if it was before and no call
   * overwrote it, or some call of the run freed it and no later one overwrote it.
   */
  lemma {:induction false} DeadAtEndIff(k: Memory, ops: seq<Op>, words: Words, x: nat)
    requires MemoryOk(k) && WordsOk(k, words) && Run(k, ops).Reached?
    ensures IsDead(RunWords(k, ops, words), x) <==>
      (IsDead(words, x) && Stands(k, ops, x)) || Dies(k, ops, x)
    decreases |ops|
  {
    hide HeapOk, PageMapOk, IsLive, MagicMapped, Overwrites, StepWords, WordsOk, MemoryOk, Step, Kills;
    if ops != [] {
      var k', rest, words' := Step(k, ops[0]).mem, ops[1..], StepWords(k, ops[0], words);
      StepKeepsMemory(k, ops[0]);
      StepKeepsWords(k, ops[0], words);
      DeadAfterStep(k, ops[0], words, x);
      DeadAtEndIff(k', rest, words', x);
      DiesNowOrLater(k, ops, x);
      assert Stands(k, ops, x) <==> !Overwrites(k, ops[0], x) && Stands(k', rest, x);
    }
  }

  lemma DiesNowOrLater(k: Memory, ops: seq<Op>, x: nat)
    requires Run(k, ops).Reached? && ops != []
    ensures var k' := Step(k, ops[0]).mem;
      Dies(k, ops, x) <==> (Kills(k, ops[0], x) && Stands(k', ops[1..], x)) || Dies(k', ops[1..], x)
  {
    hide Kills, Stands, Step;
    var k', rest := Step(k, ops[0]).mem, ops[1..];
    if Kills(k, ops[0], x) && Stands(k', rest, x) {
      assert DiesAt(k, ops, x, 0);
    }
    if Dies(k', rest, x) {
      var i: nat :| i < |rest| && DiesAt(k', rest, x, i);
      assert DiesAt(k, ops, x, i + 1);
    }
    if Dies(k, ops, x) {
      var i: nat :| i < |ops| && DiesAt(k, ops, x, i);
      if i > 0 {
        assert DiesAt(k', rest, x, i - 1);
      }
    }
  }

  /** Call i of the run is a malloc that returns p. */
  ghost predicate HandsOutAt(k: Memory, ops: seq<Op>, p: nat, i: nat)
    requires Run(k, ops).Reached? && i < |ops|
    decreases |ops|
  {
    if i == 0 then HandsOut(k, ops[0], p) else HandsOutAt(Step(k, ops[0]).mem, ops[1..], p, i - 1)
  }

  ghost predicate HandsOut(k: Memory, op: Op, p: nat) {
    op.Malloc? && MallocPtr(k.heap, Request(op.n), PageAddr(NextPage(k.pages))) == p
  }

  lemma BecomesLive(k: Memory, op: Op, p: nat)
    requires MemoryOk(k) && Step(k, op).Reached? && !IsLive(k.heap, p) && IsLive(Step(k, op).mem.heap, p)
    ensures HandsOut(k, op, p)
  {
    hide HeapOk, PageMapOk, IsLive, MagicMapped, MallocPtr, PageAddr, NextPage, AfterMalloc, AfterFree, NeedsPage;
    match op {
      case Malloc(n) =>
        MallocKeeps(k, Request(n));
        MallocAddsOne(k.heap, Request(n), PageAddr(NextPage(k.pages)));
      case Free(q, word) =>
        if IsLive(k.heap, q) {
          FreeRemovesOne(k.heap, q);
        }
      case StackPage =>
    }
  }

  lemma {:induction false} LiveAgain(k: Memory, ops: seq<Op>, p: nat)
    requires MemoryOk(k) && Run(k, ops).Reached? && !IsLive(k.heap, p) && IsLive(Run(k, ops).mem.heap, p)
    ensures exists i: nat :: i < |ops| && HandsOutAt(k, ops, p, i)
    decreases |ops|
  {
    hide HeapOk, PageMapOk, IsLive, MagicMapped, Step, MemoryOk, HandsOut;
    var k', rest := Step(k, ops[0]).mem, ops[1..];
    StepKeepsMemory(k, ops[0]);
    if IsLive(k'.heap, p) {
      BecomesLive(k, ops[0], p);
      assert HandsOutAt(k, ops, p, 0);
    } else {
      LiveAgain(k', rest, p);
      var i: nat :| i < |rest| && HandsOutAt(k', rest, p, i);
      assert HandsOutAt(k, ops, p, i + 1);
    }
  }

  /**
   * Every outcome of a second free, after any calls: if the header is not mapped, it faults; if
   * malloc has handed the place out again, it frees the new owner's payload; otherwise it
   * counts an error and changes nothing, unless other data there spells the magic.  A header
   * that is still dead is always found out.
   */
  lemma SecondFree(k: Memory, ops: seq<Op>, words: Words, p: nat, word1: nat, word2: nat)
    requires MemoryOk(k) && WordsOk(k, words) && IsLive(k.heap, p)
    requires Run(k, [Free(p, word1)] + ops).Reached?
    ensures Step(k, Free(p, word1)).Reached? && Run(Step(k, Free(p, word1)).mem, ops).Reached?
    ensures var k1 := Step(k, Free(p, word1)).mem;
      var k2 := Run(k1, ops).mem;
      && p >= 24
      && Step(k2, Free(p, word2)) ==
           (if !MagicMapped(k2.pages, p) then Stopped(PageFault)
            else if IsLive(k2.heap, p) then
              var pages := if EmptiesBlock(k2.heap, p) then k2.pages - {TableIndex(p)} else k2.pages;
              Reached(Memory(AfterFree(k2.heap, p), pages, k2.stacks))
            else if word2 == LIBALLOC_MAGIC then Undefined
            else Reached(k2))
      && (IsLive(k2.heap, p) ==> exists i: nat :: i < |ops| && HandsOutAt(k1, ops, p, i))
      && (IsDead(RunWords(k1, ops, StepWords(k, Free(p, word1), words)), p - 24) ==>
            MagicMapped(k2.pages, p) && !IsLive(k2.heap, p))
  {
    hide HeapOk, PageMapOk, IsLive, MagicMapped, WordsOk, EmptiesBlock, AfterFree, MemoryOk, TableIndex, Step;
    hide StepWords;
    var first := Free(p, word1);
    LiveStart(k, p, word1);
    assert ([first] + ops)[1..] == ops;
    var k1, words1 := Step(k, first).mem, StepWords(k, first, words);
    StepKeepsMemory(k, first);
    StepKeepsWords(k, first, words);
    RunKeepsWords(k1, ops, words1);
    var k2, words2 := Run(k1, ops).mem, RunWords(k1, ops, words1);
    FreeOutcome(k2, p, word2);
    if IsLive(k2.heap, p) {
      LiveAgain(k1, ops, p);
    }
    if IsDead(words2, p - 24) {
      DeadWordIsRead(k2, words2, p - 24);
    }
  }

  /** So a double free with any calls in between is found out if none of them overwrote the dead header. */
  lemma DoubleFree(k: Memory, ops: seq<Op>, words: Words, p: nat)
    requires MemoryOk(k) && WordsOk(k, words) && Run(k, ops).Reached?
    requires p >= 24 && IsDead(words, p - 24) && Stands(k, ops, p - 24)
    ensures IsDead(RunWords(k, ops, words), p - 24)
    ensures Step(Run(k, ops).mem, Free(p, LIBALLOC_DEAD)) == Reached(Run(k, ops).mem)
  {
    hide HeapOk, PageMapOk, IsLive, MagicMapped, WordsOk, MemoryOk, Step;
    DeadAtEndIff(k, ops, words, p - 24);
    RunKeepsWords(k, ops, words);
    DeadWordIsRead(Run(k, ops).mem, RunWords(k, ops, words), p - 24);
  }

  lemma FreeOutcome(k: Memory, p: nat, word: nat)
    requires p > 0
    ensures Step(k, Free(p, word)) ==
      if !MagicMapped(k.pages, p) then Stopped(PageFault)
      else if IsLive(k.heap, p) then
        var pages := if EmptiesBlock(k.heap, p) then k.pages - {TableIndex(p)} else k.pages;
        Reached(Memory(AfterFree(k.heap, p), pages, k.stacks))
      else if word == LIBALLOC_MAGIC then Undefined
      else Reached(k)
  {
    hide IsLive, MagicMapped, EmptiesBlock, AfterFree, TableIndex;
  }

  lemma LiveStart(k: Memory, p: nat, word: nat)
    requires MemoryOk(k) && IsLive(k.heap, p)
    ensures p >= 48 && Step(k, Free(p, word)).Reached? && !IsLive(Step(k, Free(p, word)).mem.heap, p)
  {
    LiveFrom48(k.heap, p);
    FreeKeeps(k, p, word);
    FreeRemovesOne(k.heap, p);
  }

  /** From boot, every magic word that stands is that of a live header, or dead and in a gap. */
  lemma WordsAfterRun(ops: seq<Op>)
    requires Run(BOOT, ops).Reached?
    ensures WordsOk(Run(BOOT, ops).mem, RunWords(BOOT, ops, map[]))
  {
    BootOk();
    RunKeepsWords(BOOT, ops, map[]);
  }
}
