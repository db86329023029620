/**
 * liballoc as linked objects (mm/liballoc.cpp, mm/liballoc_link.cpp).  Headers are mutable
 * objects that know the address they are written at; `headers` is memory read as minor headers.
 * Every method is proved against the functions of HeapLayout.
 */
module Liballoc {
  import opened Common
  import opened HeapLayout
  import opened Paging

  const LIBALLOC_MAGIC: nat := 0xc001_c0de
  const LIBALLOC_DEAD: nat := 0xdead_dead

  class Major {
    const base: nat
    var prev: Major?
    var next: Major?
    var pages: nat
    var size: nat
    var usage: nat
    var first: Minor?

    constructor (base: nat)
      ensures this.base == base && prev == null && next == null && first == null
      ensures pages == 1 && size == 4096 && usage == 24
    {
      this.base := base;
      prev, next, first := null, null, null;
      pages, size, usage := 1, 4096, 24;
    }
  }

  class Minor {
    const addr: nat
    var prev: Minor?
    var next: Minor?
    var block: Major
    var magic: nat
    var size: nat
    var reqSize: nat

    /** Writes a header at addr: the four assignments every placement case makes, and no links. */
    constructor (addr: nat, block: Major, size: nat)
      ensures this.addr == addr && this.block == block && this.size == size && reqSize == size
      ensures magic == LIBALLOC_MAGIC && prev == null && next == null
    {
      this.addr, this.block, this.size, reqSize := addr, block, size, size;
      magic := LIBALLOC_MAGIC;
      prev, next := null, null;
    }
  }

  // ---------- when the linked headers spell a block ----------

  /** The header m, field by field. */
  ghost predicate NodeIs(m: Minor, c: Chunk, maj: Major, prev: Minor?, next: Minor?)
    reads m`prev, m`next, m`block, m`magic, m`size, m`reqSize
  {
    && m.addr == c.addr && m.size == m.reqSize == c.size
    && m.magic == LIBALLOC_MAGIC && m.block == maj
    && m.prev == prev && m.next == next
  }

  /** The minor at index j, null off both ends. */
  function MinorAt(ms: seq<Minor>, j: int): Minor? {
    if 0 <= j < |ms| then ms[j] else null
  }

  ghost predicate MinorOk(maj: Major, ms: seq<Minor>, cs: seq<Chunk>, j: nat)
    requires |ms| == |cs| && j < |ms|
    reads ms`prev, ms`next, ms`block, ms`magic, ms`size, ms`reqSize
  {
    NodeIs(ms[j], cs[j], maj, MinorAt(ms, j - 1), MinorAt(ms, j + 1))
  }

  ghost predicate MajorOk(maj: Major, ms: seq<Minor>, b: Block)
    reads maj`pages, maj`size, maj`usage, maj`first
    reads ms`prev, ms`next, ms`block, ms`magic, ms`size, ms`reqSize
  {
    && maj.base == b.base && maj.pages == 1 && maj.size == 4096 && maj.usage == 24 + Used(b.chunks)
    && |ms| == |b.chunks|
    && maj.first == (if ms == [] then null else ms[0])
    && (forall j: nat :: j < |ms| ==> MinorOk(maj, ms, b.chunks, j))
    && (forall j, k :: 0 <= j < k < |ms| ==> ms[j] != ms[k])
  }

  function MajorAt(majors: seq<Major>, i: int): Major? {
    if 0 <= i < |majors| then majors[i] else null
  }

  ghost predicate LinksOk(majors: seq<Major>, i: nat)
    requires i < |majors|
    reads majors`prev, majors`next
  {
    majors[i].prev == MajorAt(majors, i - 1) && majors[i].next == MajorAt(majors, i + 1)
  }

  /** The majors form a doubly linked list that starts at root. */
  ghost predicate ListOk(majors: seq<Major>, root: Major?)
    reads majors`prev, majors`next
  {
    && root == MajorAt(majors, 0)
    && (forall i: nat :: i < |majors| ==> LinksOk(majors, i))
    && (forall i, j :: 0 <= i < j < |majors| ==> majors[i] != majors[j])
  }

  // ---------- the placement cases of malloc ----------

  function Inserted<T>(s: seq<T>, j: nat, x: T): seq<T>
    requires j <= |s|
  {
    s[..j] + [x] + s[j..]
  }

  /** Case 2: the first minor of a page. */
  method PutFirst(maj: Major, size: nat, ghost b: Block) returns (m: Minor)
    requires MajorOk(maj, [], b)
    modifies maj`first, maj`usage
    ensures fresh(m) && m.addr == GapStart(b, 0)
    ensures MajorOk(maj, [m], WithChunk(b, 0, size))
  {
    m := new Minor(maj.base + 24, maj, size);
    maj.first := m;
    maj.usage := maj.usage + size + 24;
    UsedInsert(b.chunks, 0, Chunk(GapStart(b, 0), size));
  }

  /** Case 3: room in front of the first minor. */
  method PutFront(maj: Major, size: nat, ghost ms: seq<Minor>, ghost b: Block) returns (m: Minor)
    requires MajorOk(maj, ms, b) && ms != []
    modifies maj`first, maj`usage, ms`prev
    ensures fresh(m) && m.addr == GapStart(b, 0)
    ensures MajorOk(maj, Inserted(ms, 0, m), WithChunk(b, 0, size))
  {
    assert MinorOk(maj, ms, b.chunks, 0);
    m := new Minor(maj.base + 24, maj, size);
    maj.first.prev := m;
    m.next := maj.first;
    maj.first := m;
    m.prev := null;
    maj.usage := maj.usage + size + 24;
    UsedInsert(b.chunks, 0, Chunk(GapStart(b, 0), size));
    forall i: nat | i < |ms| ensures Spliced(maj, ms, b.chunks, 0, m, i) {
      assert old(MinorOk(maj, ms, b.chunks, i));
    }
    SplicedMinors(maj, ms, b, 0, m, size);
  }

  /** Cases 4.1 and 4.2: room behind a minor, after the last one or between two. */
  method PutAfter(maj: Major, min: Minor, size: nat, ghost ms: seq<Minor>, ghost b: Block, ghost j: nat)
    returns (m: Minor)
    requires MajorOk(maj, ms, b) && j < |ms| && min == ms[j]
    modifies maj`usage, ms`prev, ms`next
    ensures fresh(m) && m.addr == GapStart(b, j + 1)
    ensures MajorOk(maj, Inserted(ms, j + 1, m), WithChunk(b, j + 1, size))
  {
    assert MinorOk(maj, ms, b.chunks, j);
    m := new Minor(min.addr + 24 + min.size, maj, size);
    if min.next == null {
      min.next := m;
      m.prev := min;
      m.next := null;
    } else {
      m.next := min.next;
      m.prev := min;
      min.next.prev := m;
      min.next := m;
    }
    maj.usage := maj.usage + size + 24;
    ghost var k := j + 1;
    UsedInsert(b.chunks, k, Chunk(GapStart(b, k), size));
    forall i: nat | i < |ms| ensures Spliced(maj, ms, b.chunks, k, m, i) {
      assert old(MinorOk(maj, ms, b.chunks, i));
    }
    SplicedMinors(maj, ms, b, k, m, size);
  }

  /** The minors of a list into which m has been linked at index j. */
  ghost predicate Spliced(maj: Major, ms: seq<Minor>, cs: seq<Chunk>, j: nat, m: Minor, i: nat)
    requires |ms| == |cs| && i < |ms|
    reads ms`prev, ms`next, ms`block, ms`magic, ms`size, ms`reqSize
  {
    NodeIs(ms[i], cs[i], maj, if i == j then m else MinorAt(ms, i - 1), if i + 1 == j then m else MinorAt(ms, i + 1))
  }

  /** Linking m in between its neighbours yields the list with m inserted. */
  lemma SplicedMinors(maj: Major, ms: seq<Minor>, b: Block, j: nat, m: Minor, size: nat)
    requires |ms| == |b.chunks| && j <= |ms| && m !in ms
    requires forall i, k :: 0 <= i < k < |ms| ==> ms[i] != ms[k]
    requires forall i: nat :: i < |ms| ==> Spliced(maj, ms, b.chunks, j, m, i)
    requires NodeIs(m, Chunk(GapStart(b, j), size), maj, MinorAt(ms, j - 1), MinorAt(ms, j))
    ensures var ms' := Inserted(ms, j, m);
      && (forall k: nat :: k < |ms'| ==> MinorOk(maj, ms', WithChunk(b, j, size).chunks, k))
      && (forall i, k :: 0 <= i < k < |ms'| ==> ms'[i] != ms'[k])
  {
    var ms' := Inserted(ms, j, m);
    var cs' := WithChunk(b, j, size).chunks;
    forall k: nat | k < |ms'|
      ensures MinorOk(maj, ms', cs', k)
    {
      if k < j {
        assert Spliced(maj, ms, b.chunks, j, m, k);
      } else if k > j {
        assert Spliced(maj, ms, b.chunks, j, m, k - 1);
      }
    }
  }

  /** The unlinking steps of free: usage, magic, the two neighbours and the head of the list. */
  method Unlink(min: Minor, ghost ms: seq<Minor>, ghost b: Block, ghost j: nat)
    requires j < |ms| && min == ms[j] && MajorOk(min.block, ms, b)
    modifies min.block`usage, min.block`first, ms`prev, ms`next, min`magic
    ensures min.magic == LIBALLOC_DEAD
    ensures MajorOk(min.block, RemoveAt(ms, j), WithoutChunk(b, j))
  {
    var maj := min.block;
    UsedRemove(b.chunks, j);
    assert MinorOk(maj, ms, b.chunks, j);
    maj.usage := maj.usage - (min.size + 24);
    min.magic := LIBALLOC_DEAD;
    if min.next != null {
      min.next.prev := min.prev;
    }
    if min.prev != null {
      min.prev.next := min.next;
    }
    if min.prev == null {
      maj.first := min.next;
    }
    forall i: nat | i < |ms| && i != j ensures Bridged(maj, ms, b.chunks, j, i) {
      assert old(MinorOk(maj, ms, b.chunks, i));
    }
    BridgedMinors(maj, ms, b, j);
  }

  /** The minors of a list from which index j has been unlinked. */
  ghost predicate Bridged(maj: Major, ms: seq<Minor>, cs: seq<Chunk>, j: nat, i: nat)
    requires |ms| == |cs| && i < |ms|
    reads ms`prev, ms`next, ms`block, ms`magic, ms`size, ms`reqSize
  {
    NodeIs(ms[i], cs[i], maj,
      MinorAt(ms, if i == j + 1 then j - 1 else i - 1), MinorAt(ms, if i + 1 == j then j + 1 else i + 1))
  }

  lemma BridgedMinors(maj: Major, ms: seq<Minor>, b: Block, j: nat)
    requires |ms| == |b.chunks| && j < |ms|
    requires forall i, k :: 0 <= i < k < |ms| ==> ms[i] != ms[k]
    requires forall i: nat :: i < |ms| && i != j ==> Bridged(maj, ms, b.chunks, j, i)
    ensures var ms' := RemoveAt(ms, j);
      && (forall k: nat :: k < |ms'| ==> MinorOk(maj, ms', WithoutChunk(b, j).chunks, k))
      && (forall i, k :: 0 <= i < k < |ms'| ==> ms'[i] != ms'[k])
  {
    var ms' := RemoveAt(ms, j);
    forall k: nat | k < |ms'|
      ensures MinorOk(maj, ms', WithoutChunk(b, j).chunks, k)
    {
      assert Bridged(maj, ms, b.chunks, j, if k < j then k else k + 1);
    }
  }

  // ---------- the allocator ----------

  ghost predicate IsLinked(minors: seq<seq<Minor>>, m: Minor) {
    exists i, j :: 0 <= i < |minors| && 0 <= j < |minors[i]| && minors[i][j] == m
  }

  /** The memory map finds exactly the linked minors. */
  ghost predicate HeadersOk(headers: map<nat, Minor>, minors: seq<seq<Minor>>) {
    && (forall a :: a in headers ==> headers[a].addr == a && IsLinked(minors, headers[a]))
    && (forall i, j :: 0 <= i < |minors| && 0 <= j < |minors[i]| ==>
          minors[i][j].addr in headers && headers[minors[i][j].addr] == minors[i][j])
  }

  ghost predicate MajorsOk(majors: seq<Major>, minors: seq<seq<Minor>>, blocks: seq<Block>, all: set<Minor>)
    reads majors`pages, majors`size, majors`usage, majors`first
    reads all`prev, all`next, all`block, all`magic, all`size, all`reqSize
  {
    && |majors| == |minors| == |blocks|
    && (forall i, j :: 0 <= i < |minors| && 0 <= j < |minors[i]| ==> minors[i][j] in all)
    && (forall i :: 0 <= i < |majors| ==> MajorOk(majors[i], minors[i], blocks[i]))
  }

  /** Minors of different majors are different objects: each points back to its own major. */
  lemma MinorsApart(majors: seq<Major>, minors: seq<seq<Minor>>, blocks: seq<Block>, all: set<Minor>, i: nat, k: nat)
    requires MajorsOk(majors, minors, blocks, all) && i < |majors| && k < |majors|
    requires majors[i] != majors[k]
    ensures forall m :: m in minors[i] ==> m !in minors[k]
  {
    forall a: nat, b: nat | a < |minors[i]| && b < |minors[k]|
      ensures minors[i][a] != minors[k][b]
    {
      assert MinorOk(majors[i], minors[i], blocks[i].chunks, a);
      assert MinorOk(majors[k], minors[k], blocks[k].chunks, b);
    }
  }

  /** A header in memory is linked in one of the majors, at the chunk with its address. */
  lemma HeaderIsLinked(headers: map<nat, Minor>, majors: seq<Major>, minors: seq<seq<Minor>>, blocks: seq<Block>,
    all: set<Minor>, a: nat)
    returns (i: nat, j: nat)
    requires MajorsOk(majors, minors, blocks, all) && HeadersOk(headers, minors) && a in headers
    ensures i < |blocks| && j < |minors[i]| && headers[a] == minors[i][j]
    ensures j < |blocks[i].chunks| && blocks[i].chunks[j].addr == a
  {
    i, j :| 0 <= i < |minors| && 0 <= j < |minors[i]| && minors[i][j] == headers[a];
    MinorAddress(majors, minors, blocks, all, i, j);
  }

  lemma MinorAddress(majors: seq<Major>, minors: seq<seq<Minor>>, blocks: seq<Block>, all: set<Minor>, i: nat, j: nat)
    requires MajorsOk(majors, minors, blocks, all) && i < |minors| && j < |minors[i]|
    ensures j < |blocks[i].chunks| && minors[i][j].addr == blocks[i].chunks[j].addr
  {
    assert MinorOk(majors[i], minors[i], blocks[i].chunks, j);
  }

  lemma LiveAt(h: Heap, i: nat, j: nat, a: nat)
    requires HeapOk(h) && i < |h.blocks| && j < |h.blocks[i].chunks| && h.blocks[i].chunks[j].addr == a
    ensures IsLive(h, a + 24) && LiveIndex(h, a + 24) == (i, j)
  {
    PointerFindsChunk(h, i, j);
  }

  lemma HeaderIsLive(h: Heap, headers: map<nat, Minor>, majors: seq<Major>, minors: seq<seq<Minor>>,
    all: set<Minor>, a: nat)
    requires HeapOk(h) && MajorsOk(majors, minors, h.blocks, all) && HeadersOk(headers, minors)
    ensures a in headers ==> IsLive(h, a + 24)
  {
    if a in headers {
      var i, j := HeaderIsLinked(headers, majors, minors, h.blocks, all, a);
      LiveAt(h, i, j, a);
    }
  }

  /** Where free looks for the magic of a pointer's header, in the 32-bit arithmetic of the source. */
  function MagicAddress(ptr: nat): nat {
    (ptr + 0x1_0000_0000 - 12) % 0x1_0000_0000
  }

  /** All four bytes there are mapped. */
  ghost predicate MagicMapped(m: PageMap, ptr: nat) {
    && Translate(m, MagicAddress(ptr)).Some?
    && Translate(m, (MagicAddress(ptr) + 3) % 0x1_0000_0000).Some?
  }

  lemma NullIsNotLive(h: Heap)
    ensures !IsLive(h, 0)
  {
  }

  lemma LiveMagicMapped(h: Heap, m: PageMap, p: nat)
    requires HeapOk(h) && IsLive(h, p) && PagesHeld(h.blocks, m)
    ensures p < 0x1_0000_0000 && MagicMapped(m, p)
  {
    LiveBounds(h, p);
    var base := h.blocks[LiveIndex(h, p).0].base;
    MappedInPage(m, base, p);
  }

  lemma MappedInPage(m: PageMap, base: nat, p: nat)
    requires IsPage(base) && TableIndex(base) in m && base + 12 <= p && p - 8 <= base + 4096
    ensures MagicMapped(m, p) && p < 0x1_0000_0000
  {
    PageBounds(base);
    SamePage(p - 12, base);
    SamePage(p - 9, base);
  }

  ghost predicate PagesHeld(blocks: seq<Block>, m: PageMap) {
    forall i :: 0 <= i < |blocks| ==> TableIndex(blocks[i].base) in m
  }

  /** The number of pages allocate_new_page asks for, in the 32-bit arithmetic of the source. */
  function PagesFor(size: nat): nat {
    var st := (size + 24 + 24) % 0x1_0000_0000;
    var pages := if st % 4096 == 0 then st / 4096 else st / 4096 + 1;
    if pages < 1 then 1 else pages
  }

  /**
   * The one-page guard of liballoc_alloc lets a request through exactly when it fits a page
   * with both headers, or when adding the headers wraps around the machine word.
   */
  lemma OnePageGuard(size: nat)
    requires size < 0x1_0000_0000
    ensures PagesFor(size) <= 1 <==> size <= 4048 || size >= 0x1_0000_0000 - 48
  {
  }

  /**
   * So the guard does its work, letting through only what a fresh page takes, exactly for
   * requests that do not wrap around: 0xffff_ffff bytes, for one, pass it.
   */
  lemma GuardProtectsIff(size: nat, page: nat)
    requires size < 0x1_0000_0000
    ensures (PagesFor(size) <= 1 ==> Fits(Block(page, []), 0, size)) <==> size < 0x1_0000_0000 - 48
    ensures PagesFor(0xffff_ffff) == 1
  {
    OnePageGuard(size);
  }

  class Allocator {
    const pg: PageAllocator
    var l_memRoot: Major?
    var l_bestBet: Major?
    var l_allocated: int
    var l_inuse: int
    var l_warningCount: nat
    var l_errorCount: nat
    var l_possibleOverruns: nat
    var headers: map<nat, Minor>

    ghost var majors: seq<Major>
    ghost var minors: seq<seq<Minor>>
    ghost var blocks: seq<Block>

    ghost function View(): Heap
      reads this
    {
      Heap(blocks, if l_bestBet == null then 0 else l_bestBet.base)
    }

    /** The linked structure alone; it also holds while a page without minors is being added. */
    ghost predicate Linked()
      reads this, majors, headers.Values
    {
      ListOk(majors, l_memRoot) && MajorsOk(majors, minors, blocks, headers.Values)
    }

    ghost predicate Valid()
      reads this, majors, headers.Values, pg, pg.kernelPageDir, pg.kernelImagePageTable
      reads pg.kernelHeapPageTable, pg.freeMem
    {
      && Linked()
      && HeapOk(View())
      && (l_bestBet == null || l_bestBet in majors)
      && HeadersOk(headers, minors)
      && l_inuse == Inuse(blocks) && l_allocated == 4096 * |blocks|
      && pg.Valid() && PagesHeld(blocks, pg.mapped)
    }

    constructor (pg: PageAllocator)
      requires pg.Valid()
      ensures Valid() && this.pg == pg && blocks == [] && l_bestBet == null
    {
      this.pg := pg;
      l_memRoot, l_bestBet := null, null;
      l_allocated, l_inuse := 0, 0;
      l_warningCount, l_errorCount, l_possibleOverruns := 0, 0, 0;
      headers := map[];
      majors, minors, blocks := [], [], [];
    }

    /** liballoc_alloc: one page or a panic. */
    method LiballocAlloc(pages: nat) returns (r: Outcome<nat>)
      requires pg.Valid()
      modifies pg`mapped, pg.kernelHeapPageTable, pg.freeMem
      ensures pg.Valid()
      ensures pages > 1 ==> r == Panic(TooManyPages)
      ensures pages <= 1 && |old(pg.mapped)| == 1024 ==> r == Panic(OutOfMemory)
      ensures pages <= 1 && |old(pg.mapped)| < 1024 ==>
        r == Ret(PageAddr(NextPage(old(pg.mapped)))) && pg.mapped == AfterAlloc(old(pg.mapped))
    {
      if pages > 1 {
        return Panic(TooManyPages);
      }
      r := pg.AllocPage();
      UsedUpTogether(old(pg.mapped));
    }

    /** liballoc_free on a page the allocator holds. */
    method LiballocFree(ptr: nat, pages: nat) returns (r: Outcome<()>)
      requires pg.Valid() && 0x40_0000 <= ptr < 0x80_0000 && TableIndex(ptr) in pg.mapped
      modifies pg`mapped, pg.kernelImagePageTable, pg.kernelHeapPageTable, pg.freeMem
      ensures pages > 1 ==> r == Panic(TooManyPages)
      ensures pages <= 1 ==> r == Ret(()) && pg.Valid() && pg.mapped == old(pg.mapped) - {TableIndex(ptr)}
    {
      if pages > 1 {
        return Panic(TooManyPages);
      }
      r := pg.FreePage(ptr);
    }

    method AllocateNewPage(size: nat) returns (r: Outcome<Major>)
      requires pg.Valid() && size < 0x1_0000_0000
      modifies `l_allocated, pg`mapped, pg.kernelHeapPageTable, pg.freeMem
      ensures pg.Valid()
      ensures PagesFor(size) > 1 ==> r == Panic(TooManyPages)
      ensures PagesFor(size) <= 1 && |old(pg.mapped)| == 1024 ==> r == Panic(OutOfMemory)
      ensures PagesFor(size) <= 1 && |old(pg.mapped)| < 1024 ==> r.Ret?
      ensures r.Ret? ==>
        && fresh(r.value) && r.value.base == PageAddr(NextPage(old(pg.mapped)))
        && MajorOk(r.value, [], Block(r.value.base, [])) && r.value.prev == null && r.value.next == null
        && pg.mapped == AfterAlloc(old(pg.mapped)) && l_allocated == old(l_allocated) + 4096
    {
      UsedUpTogether(pg.mapped);
      var page := LiballocAlloc(PagesFor(size));
      if page.Panic? {
        return Panic(page.why);
      }
      var maj := new Major(page.value);
      l_allocated := l_allocated + maj.size;
      r := Ret(maj);
    }

    /** The links and the bookkeeping that all placement cases share. */
    method LinkAndCount(maj: Major, min: Minor?, size: nat, ghost i: nat, ghost j: nat) returns (p: nat)
      requires Linked() && HeadersOk(headers, minors)
      requires |majors| == |minors| == |blocks| && i < |majors| && maj == majors[i]
      requires forall k, l :: 0 <= k < l < |majors| ==> majors[k] != majors[l]
      requires j <= |minors[i]| == |blocks[i].chunks| && min == MinorAt(minors[i], j - 1)
      requires GapStart(blocks[i], j) !in headers
      modifies `l_inuse, `headers, `minors, `blocks
      modifies maj`first, maj`usage, minors[i]`prev, minors[i]`next
      ensures Linked() && HeadersOk(headers, minors)
      ensures blocks == old(blocks)[i := WithChunk(old(blocks[i]), j, size)]
      ensures p == GapStart(old(blocks[i]), j) + 24 && l_inuse == old(l_inuse) + size
    {
      hide HeadersOk, MajorsOk, ListOk, WithChunk, Inserted, GapStart;
      var m := LinkAt(majors, minors, blocks, headers.Values, maj, min, size, i, j);
      p := m.addr + 24;
      HeadersInserted(headers, minors, i, j, m);
      l_inuse := l_inuse + size;
      headers := headers[m.addr := m];
      minors := minors[i := Inserted(minors[i], j, m)];
      blocks := blocks[i := WithChunk(blocks[i], j, size)];
    }

    /** Places a minor in a gap: at the front (min is null) or behind min, and counts it. */
    method PlaceAt(maj: Major, min: Minor?, size: nat, ghost i: nat, ghost j: nat) returns (p: nat)
      requires Valid() && size >= 1 && i < |majors| && maj == majors[i]
      requires j <= |minors[i]| && min == MinorAt(minors[i], j - 1) && Fits(blocks[i], j, size)
      modifies `l_inuse, `headers, `minors, `blocks
      modifies maj`first, maj`usage, minors[i]`prev, minors[i]`next
      ensures Valid()
      ensures blocks == old(blocks)[i := WithChunk(old(blocks[i]), j, size)]
      ensures p == GapStart(old(blocks[i]), j) + 24
    {
      hide HeapOk, HeadersOk, MajorsOk, ListOk, WithChunk, IsLive, Fits, PagesHeld, PageAllocator.Valid, GapStart,
        Inuse;
      Shape(View(), majors, minors, l_memRoot, headers.Values);
      ghost var a := GapStart(blocks[i], j);
      RecordOk(View(), i, j, size);
      HeaderIsLive(View(), headers, majors, minors, headers.Values, a);
      KeepPages(blocks, i, j, size, pg.mapped);
      p := LinkAndCount(maj, min, size, i, j);
    }

    /** A page without minors has just been appended to the heap with these blocks and pages. */
    ghost predicate HasNewPage(before: seq<Block>, mapped: PageMap)
      reads this, majors, headers.Values, pg, pg.kernelPageDir, pg.kernelImagePageTable
      reads pg.kernelHeapPageTable, pg.freeMem
    {
      && Linked() && HeadersOk(headers, minors)
      && BlocksOk(before) && PagesHeld(before, mapped) && PageMapOk(mapped) && |mapped| < 1024
      && blocks == before + [Block(PageAddr(NextPage(mapped)), [])]
      && (l_bestBet == null || l_bestBet in majors)
      && l_inuse == Inuse(before) && l_allocated == 4096 * |blocks|
      && pg.Valid() && pg.mapped == AfterAlloc(mapped)
    }

    /** Obtains a page and appends it to the list (or makes it the root of an empty list). */
    method AppendPage(last: Major?, size: nat) returns (r: Outcome<Major>)
      requires Valid() && size < 0x1_0000_0000 - 48
      requires last == if majors == [] then null else majors[|majors| - 1]
      modifies `l_memRoot, `l_allocated, `majors, `minors, `blocks, majors`next
      modifies pg`mapped, pg.kernelHeapPageTable, pg.freeMem
      ensures size > 4048 ==> r == Panic(TooManyPages)
      ensures size <= 4048 && |old(pg.mapped)| == 1024 ==> r == Panic(OutOfMemory)
      ensures size <= 4048 && |old(pg.mapped)| < 1024 ==> r.Ret?
      ensures r.Ret? ==> fresh(r.value) && majors == old(majors) + [r.value] && minors == old(minors) + [[]]
      ensures r.Ret? ==> HasNewPage(old(blocks), old(pg.mapped))
      ensures r.Ret? ==> size <= 4048 && |old(pg.mapped)| < 1024
    {
      hide HeadersOk, MajorsOk, ListOk, MajorOk, BlocksOk, PagesHeld, PageMapOk, PageAllocator.Valid, Inuse, PagesFor,
        NextPage, AfterAlloc, HasBase, Used, MinorOk, LinksOk;
      pg.MapBounds();
      OnePageGuard(size);
      r := AllocateNewPage(size);
      if r.Ret? {
        AttachPage(last, r.value);
      }
    }

    method AttachPage(last: Major?, maj: Major)
      requires Linked() && HeadersOk(headers, minors)
      requires last == if majors == [] then null else majors[|majors| - 1]
      requires maj !in majors && maj.prev == null && maj.next == null && MajorOk(maj, [], Block(maj.base, []))
      modifies `l_memRoot, `majors, `minors, `blocks, majors`next, maj`prev
      ensures Linked() && HeadersOk(headers, minors)
      ensures majors == old(majors) + [maj] && minors == old(minors) + [[]]
      ensures blocks == old(blocks) + [Block(maj.base, [])]
    {
      hide HeadersOk, MajorsOk, ListOk, MajorOk;
      LastOfList(majors, l_memRoot);
      if last == null {
        l_memRoot := maj;
        SingleList(maj);
        assert majors + [maj] == [maj];
      } else {
        LinkMajor(last, maj, majors, l_memRoot);
      }
      HeadersWithEmptyMajor(headers, minors);
      MajorsWithEmpty(majors, minors, blocks, headers.Values, maj);
      majors := majors + [maj];
      minors := minors + [[]];
      blocks := blocks + [Block(maj.base, [])];
    }

    /** Case 2: the new page takes the request, without a look at its free bytes. */
    method TakePage(maj: Major, size: nat, ghost before: seq<Block>, ghost mapped: PageMap) returns (p: nat)
      requires HasNewPage(before, mapped) && maj == majors[|before|] && 1 <= size <= 4048
      modifies `l_inuse, `headers, `minors, `blocks, maj`first, maj`usage
      ensures Valid()
      ensures blocks == before + [FreshBlock(PageAddr(NextPage(mapped)), size)]
      ensures p == PageAddr(NextPage(mapped)) + 48
    {
      hide HeadersOk, MajorsOk, ListOk, MajorOk, HeapOk, BlocksOk, PagesHeld, PageMapOk, PageAllocator.Valid,
        Inuse, NextPage, AfterAlloc, WithChunk, Inserted, FreshBlock, HasBase, IsPage;
      PageReady(before, mapped, size);
      p := LinkAndCount(maj, null, size, |before|, 0);
    }

    /** Case 4: walk the minors of a major for the first that has room behind it. */
    static method FindRoom(maj: Major, size: nat, ghost ms: seq<Minor>, ghost b: Block)
      returns (min: Minor?, ghost j: nat)
      requires MajorOk(maj, ms, b) && BlockOk(b) && !Fits(b, 0, size)
      ensures min == null ==> FirstGap(b, size, 0) == -1
      ensures min != null ==> 1 <= j <= |ms| && min == ms[j - 1] && FirstGap(b, size, 0) == j
    {
      min, j := maj.first, 1;
      while min != null
        invariant 1 <= j <= |ms| + 1 && min == MinorAt(ms, j - 1)
        invariant FirstGap(b, size, 0) == FirstGap(b, size, j)
        decreases |ms| + 1 - j
      {
        assert MinorOk(maj, ms, b.chunks, j - 1);
        assert GapStart(b, j) <= GapEnd(b, j);
        var diff := 0;
        if min.next == null {
          diff := maj.base + maj.size - min.addr - 24 - min.size;
          if diff >= size + 24 {
            if min.magic != LIBALLOC_MAGIC {
              assert false; // panic "magic of minor is incorrect": live headers keep their magic
            }
            return;
          }
        }
        if min.next != null {
          assert MinorOk(maj, ms, b.chunks, j);
          diff := min.next.addr - min.addr - 24 - min.size;
          if diff >= size + 24 {
            return;
          }
        }
        min, j := min.next, j + 1;
      }
    }

    /** What one turn of the loop reads from a major. */
    lemma MajorFacts(i: nat)
      requires Valid() && i < |majors|
      ensures |majors| == |minors| == |blocks| && |minors[i]| == |blocks[i].chunks|
      ensures l_memRoot == majors[0]
      ensures majors[i].next == MajorAt(majors, i + 1)
      ensures majors[i].size - majors[i].usage == FreeBytes(blocks[i]) && majors[i].base == blocks[i].base
      ensures minors[i] != [] && majors[i].first == minors[i][0]
      ensures minors[i][0].addr == GapEnd(blocks[i], 0)
      ensures BlockOk(blocks[i]) && MajorOk(majors[i], minors[i], blocks[i])
      ensures forall m :: m in minors[i] ==> m in headers.Values
    {
      assert MajorOk(majors[i], minors[i], blocks[i]) && LinksOk(majors, i);
      assert MinorOk(majors[i], minors[i], blocks[i].chunks, 0);
    }

    lemma NewPageFacts(before: seq<Block>, mapped: PageMap)
      requires HasNewPage(before, mapped)
      ensures |majors| == |minors| == |blocks| == |before| + 1
      ensures var maj := majors[|before|];
        maj.first == null && maj.size - maj.usage == 4072 && maj.base == PageAddr(NextPage(mapped))
      ensures FreeBytes(blocks[|before|]) == 4072 && blocks[|before|].base == PageAddr(NextPage(mapped))
    {
      assert MajorOk(majors[|before|], minors[|before|], blocks[|before|]);
      assert Used([]) == 0;
    }

    /** The best-bet bookkeeping at the head of the loop. */
    method ConsiderBet(maj: Major, bestSize: int, ghost i: nat, ghost isNew: bool, ghost before: seq<Block>,
      ghost mapped: PageMap) returns (diff: int, best: int)
      requires if isNew then HasNewPage(before, mapped) && i == |before| else Valid()
      requires i < |majors| && maj == majors[i]
      modifies `l_bestBet
      ensures if isNew then HasNewPage(before, mapped) else Valid()
      ensures i < |blocks| && diff == FreeBytes(blocks[i])
      ensures (View().bet, best) == Bet(blocks[i], old(View().bet), bestSize)
    {
      hide HeadersOk, MajorsOk, ListOk, BlocksOk, PagesHeld, PageMapOk, PageAllocator.Valid, Inuse, NextPage,
        AfterAlloc;
      if isNew {
        NewPageFacts(before, mapped);
      } else {
        MajorFacts(i);
      }
      assert Used([]) == 0;
      diff, best := maj.size - maj.usage, bestSize;
      if best < diff {
        l_bestBet := maj;
        best := diff;
      }
      assert HasBase(blocks, blocks[i].base);
    }

    /** The search is on: at block `at`, the rest of it yields the result of the whole. */
    ghost predicate Searching(h: Heap, mapped: PageMap, n: nat, at: nat, maj: Major, best: int, startedBet: bool)
      reads this, majors, headers.Values, pg, pg.kernelPageDir, pg.kernelImagePageTable
      reads pg.kernelHeapPageTable, pg.freeMem
    {
      && Valid() && blocks == h.blocks && pg.mapped == mapped
      && at < |majors| == |blocks| && maj == majors[at]
      && Resume(blocks, at, n, View().bet, best, startedBet) == Search(h, n)
    }

    /** The search has failed and a page has been appended, which the loop looks at next. */
    ghost predicate PageAdded(h: Heap, mapped: PageMap, n: nat, maj: Major, best: int)
      reads this, majors, headers.Values, pg, pg.kernelPageDir, pg.kernelImagePageTable
      reads pg.kernelHeapPageTable, pg.freeMem
    {
      && HasNewPage(h.blocks, mapped) && |majors| == |h.blocks| + 1 && maj == majors[|h.blocks|]
      && Search(h, n) == Found(|h.blocks|, View().bet, best) && n <= 4048
      && (h.blocks == [] || FreeBytes(h.blocks[|h.blocks| - 1]) >= n + 24)
    }

    /** What malloc promises about its outcome, in terms of the heap and the page map before. */
    ghost predicate MallocDone(h: Heap, mapped: PageMap, n: nat, r: Outcome<nat>)
      reads this, majors, headers.Values, pg, pg.kernelPageDir, pg.kernelImagePageTable
      reads pg.kernelHeapPageTable, pg.freeMem
    {
      var page := PageAddr(NextPage(mapped));
      match r
      case Ret(p) =>
        && n <= 4048 && (NeedsPage(h, n) ==> |mapped| < 1024)
        && Valid() && View() == AfterMalloc(h, n, page) && p == MallocPtr(h, n, page)
        && pg.mapped == if NeedsPage(h, n) then AfterAlloc(mapped) else mapped
      case Panic(why) =>
        && NeedsPage(h, n)
        && if n > 4048 then why == TooManyPages else why == OutOfMemory && |mapped| == 1024
    }

    /** What free of a live payload promises: the heap without it, and its page if that emptied. */
    ghost predicate FreeDone(h: Heap, mapped: PageMap, p: nat)
      requires IsLive(h, p)
      reads this, majors, headers.Values, pg, pg.kernelPageDir, pg.kernelImagePageTable
      reads pg.kernelHeapPageTable, pg.freeMem
    {
      && Valid() && View() == AfterFree(h, p)
      && pg.mapped == if EmptiesBlock(h, p) then mapped - {TableIndex(p)} else mapped
    }

    lemma RootFacts()
      requires Valid()
      ensures l_memRoot == null <==> blocks == []
      ensures |majors| == |blocks| && (blocks == [] ==> l_bestBet == null)
      ensures l_bestBet != null ==>
        var i := IndexOf(blocks, l_bestBet.base);
        i < |blocks| && majors[i] == l_bestBet && l_bestBet.base != 0
        && l_bestBet.size - l_bestBet.usage == FreeBytes(blocks[i])
    {
      if l_bestBet != null {
        var i :| 0 <= i < |majors| && majors[i] == l_bestBet;
        MajorFacts(i);
        IndexOfBase(blocks, i);
      }
    }

    /** When the search has failed a page is appended, or the page source panics. */
    method Grow(last: Major?, size: nat) returns (r: Outcome<Major>)
      requires Valid() && 1 <= size < 0x1_0000_0000 - 48
      requires last == if majors == [] then null else majors[|majors| - 1]
      modifies `l_memRoot, `l_allocated, `majors, `minors, `blocks, majors`next
      modifies pg`mapped, pg.kernelHeapPageTable, pg.freeMem
      ensures l_bestBet == old(l_bestBet)
      ensures r.Panic? ==> if size > 4048 then r.why == TooManyPages
                           else r.why == OutOfMemory && |old(pg.mapped)| == 1024
      ensures r.Ret? ==> size <= 4048 && fresh(r.value) && majors == old(majors) + [r.value]
      ensures r.Ret? ==> HasNewPage(old(blocks), old(pg.mapped)) && |majors| == |blocks|
    {
      hide HeapOk, BlocksOk, HeadersOk, MajorsOk, ListOk, PagesHeld, PageMapOk, PageAllocator.Valid, Inuse,
        NextPage, AfterAlloc;
      pg.MapBounds();
      RootFacts();
      r := AppendPage(last, size);
    }

    /** The first call of all: the root page is obtained before the loop starts. */
    method FirstPage(size: nat) returns (r: Outcome<Major>)
      requires Valid() && 1 <= size < 0x1_0000_0000 - 48 && l_memRoot == null
      modifies `l_memRoot, `l_allocated, `majors, `minors, `blocks, majors`next
      modifies pg`mapped, pg.kernelHeapPageTable, pg.freeMem
      ensures r.Panic? ==> MallocDone(old(View()), old(pg.mapped), size, Panic(r.why))
      ensures r.Ret? ==> PageAdded(old(View()), old(pg.mapped), size, r.value, 0)
      ensures r.Ret? ==> fresh(r.value) && majors == old(majors) + [r.value]
    {
      hide HeapOk, BlocksOk, HeadersOk, MajorsOk, ListOk, PagesHeld, PageMapOk, PageAllocator.Valid, Inuse,
        NextPage, AfterAlloc;
      RootFacts();
      assert Search(View(), size) == Found(0, 0, 0);
      r := Grow(null, size);
    }

    /** Where the loop starts: at the root, or at the best bet when that has more than enough room. */
    method ChooseStart(size: nat) returns (maj: Major, bestSize: int, startedBet: bool, ghost at: nat)
      requires Valid() && l_memRoot != null
      ensures Searching(View(), pg.mapped, size, at, maj, bestSize, startedBet)
    {
      hide HeapOk, BlocksOk, HeadersOk, MajorsOk, ListOk, PagesHeld, PageMapOk, PageAllocator.Valid, Inuse,
        Resume;
      RootFacts();
      MajorFacts(0);
      maj, at, startedBet, bestSize := l_memRoot, 0, false, 0;
      if l_bestBet != null {
        bestSize := l_bestBet.size - l_bestBet.usage;
        if bestSize > size + 24 {
          maj, at, startedBet := l_bestBet, IndexOf(blocks, l_bestBet.base), true;
        }
      }
    }

    /** Placement in a major that has room completes the call. */
    method FinishAt(maj: Major, min: Minor?, size: nat, ghost h: Heap, ghost at: nat, ghost j: nat, ghost best: int)
      returns (p: nat)
      requires Valid() && blocks == h.blocks && 1 <= size
      requires at < |majors| == |blocks| == |minors| && maj == majors[at]
      requires Search(h, size) == Found(at, View().bet, best) && FirstGap(blocks[at], size, 0) == j
      requires j <= |minors[at]| && min == MinorAt(minors[at], j - 1)
      modifies `l_inuse, `headers, `minors, `blocks
      modifies maj`first, maj`usage, minors[at]`prev, minors[at]`next
      ensures MallocDone(h, old(pg.mapped), size, Ret(p))
    {
      hide HeapOk, BlocksOk, HeadersOk, MajorsOk, ListOk, PagesHeld, PageMapOk, PageAllocator.Valid, Inuse,
        Search, NextPage, AfterAlloc, WithChunk;
      MajorFacts(at);
      NoGapExceedsFree(blocks[at], j);
      assert FreeBytes(blocks[at]) <= 4072;
      p := PlaceAt(maj, min, size, at, j);
    }

    /** Placement in the appended page completes the call. */
    method FinishPage(maj: Major, size: nat, ghost h: Heap, ghost mapped: PageMap) returns (p: nat)
      requires HasNewPage(h.blocks, mapped) && |majors| == |h.blocks| + 1 && maj == majors[|h.blocks|]
      requires 1 <= size <= 4048 && Search(h, size).block == |h.blocks|
      requires View().bet == BetWithPage(h.blocks, size, Search(h, size), PageAddr(NextPage(mapped)))
      modifies `l_inuse, `headers, `minors, `blocks, maj`first, maj`usage
      ensures MallocDone(h, mapped, size, Ret(p))
    {
      hide HeapOk, BlocksOk, HeadersOk, MajorsOk, ListOk, PagesHeld, PageMapOk, PageAllocator.Valid, Inuse,
        Search, NextPage, AfterAlloc, WithChunk, BetWithPage;
      p := TakePage(maj, size, h.blocks, mapped);
    }

    /** Cases 3 and 4: room in front of the first minor, or behind one of the minors. */
    method PlaceIn(maj: Major, size: nat, ghost h: Heap, ghost at: nat, ghost best: int) returns (r: Option<nat>)
      requires Valid() && blocks == h.blocks && 1 <= size
      requires at < |majors| == |blocks| == |minors| && maj == majors[at]
      requires FirstGap(blocks[at], size, 0) != -1 ==> Search(h, size) == Found(at, View().bet, best)
      modifies `l_inuse, `headers, `minors, `blocks
      modifies maj`first, maj`usage, minors[at]`prev, minors[at]`next
      ensures r.Some? ==> MallocDone(h, old(pg.mapped), size, Ret(r.value))
      ensures r.None? ==> FirstGap(h.blocks[at], size, 0) == -1
      ensures r.None? ==> l_inuse == old(l_inuse) && headers == old(headers) && minors == old(minors)
      ensures r.None? ==> Valid() && blocks == old(blocks) && maj.first == old(maj.first)
    {
      hide HeapOk, BlocksOk, HeadersOk, MajorsOk, ListOk, PagesHeld, PageMapOk, PageAllocator.Valid, Inuse, NextPage,
        AfterAlloc, Search, FirstGap, BlockOk, MajorOk, WithChunk, MallocDone, Valid;
      MajorFacts(at);
      FrontFits(blocks[at], size);
      var diff := maj.first.addr - maj.base - 24;
      if diff >= size + 24 { // case 3
        var p := FinishAt(maj, null, size, h, at, 0, best);
        return Some(p);
      }
      var min;
      ghost var j;
      min, j := FindRoom(maj, size, minors[at], blocks[at]);
      if min != null { // case 4
        var p := FinishAt(maj, min, size, h, at, j, best);
        return Some(p);
      }
      r := None;
    }

    /** Case 1 at the end of the list: the appended page is used at once. */
    method GrowAndFinish(maj: Major, size: nat, ghost h: Heap, ghost mapped: PageMap, ghost best: int)
      returns (r: Outcome<nat>)
      requires Valid() && blocks == h.blocks && pg.mapped == mapped && 1 <= size < 0x1_0000_0000 - 48
      requires |majors| == |blocks| > 0 && maj == majors[|majors| - 1]
      requires Search(h, size) == Found(|h.blocks|, View().bet, best)
      requires FreeBytes(h.blocks[|h.blocks| - 1]) < size + 24
      modifies `l_memRoot, `l_allocated, `majors, `minors, `blocks, majors`next, `l_inuse, `headers
      modifies pg`mapped, pg.kernelHeapPageTable, pg.freeMem
      ensures MallocDone(h, mapped, size, r)
    {
      hide HeapOk, BlocksOk, HeadersOk, MajorsOk, ListOk, PagesHeld, PageMapOk, PageAllocator.Valid, Inuse, NextPage,
        AfterAlloc, Search, WithChunk;
      var more := Grow(maj, size);
      if more.Panic? {
        return Panic(more.why);
      }
      var p := FinishPage(more.value, size, h, mapped);
      r := Ret(p);
    }

    /** Case 5 at the end of the list: the loop goes on with the appended page. */
    method GrowForLoop(maj: Major, size: nat, ghost h: Heap, ghost mapped: PageMap, ghost best: int)
      returns (r: Outcome<Major>)
      requires Valid() && blocks == h.blocks && pg.mapped == mapped && 1 <= size < 0x1_0000_0000 - 48
      requires |majors| == |blocks| > 0 && maj == majors[|majors| - 1]
      requires Search(h, size) == Found(|h.blocks|, View().bet, best)
      requires FreeBytes(h.blocks[|h.blocks| - 1]) >= size + 24
      modifies `l_memRoot, `l_allocated, `majors, `minors, `blocks, majors`next
      modifies pg`mapped, pg.kernelHeapPageTable, pg.freeMem
      ensures r.Panic? ==> MallocDone(h, mapped, size, Panic(r.why))
      ensures r.Ret? ==> PageAdded(h, mapped, size, r.value, best)
      ensures r.Ret? ==> fresh(r.value) && majors == old(majors) + [r.value]
    {
      hide HeapOk, BlocksOk, HeadersOk, MajorsOk, ListOk, PagesHeld, PageMapOk, PageAllocator.Valid, Inuse, NextPage,
        AfterAlloc, Search, WithChunk;
      r := Grow(maj, size);
    }

    method Malloc(reqSize: nat) returns (r: Outcome<nat>)
      requires Valid() && reqSize < 0x1_0000_0000 - 48
      modifies this, majors, headers.Values, pg`mapped, pg.kernelHeapPageTable, pg.freeMem
      ensures MallocDone(old(View()), old(pg.mapped), if reqSize == 0 then 1 else reqSize, r)
      ensures l_warningCount == old(l_warningCount) + (if reqSize == 0 then 1 else 0)
      ensures unchanged(`l_errorCount, `l_possibleOverruns)
      decreases reqSize == 0
    {
      hide HeapOk, HeadersOk, MajorsOk, ListOk, PagesHeld, PageAllocator.Valid, Inuse, MallocDone;
      if reqSize == 0 {
        l_warningCount := l_warningCount + 1;
        r := Malloc(1);
      } else {
        r := MallocSize(reqSize);
      }
    }

    /** The head of the loop: the free bytes of the major, the best bet, and what they settle. */
    method Visit(maj: Major, bestSize: int, startedBet: bool, size: nat, ghost h: Heap, ghost mapped: PageMap,
      ghost at: nat, ghost isNew: bool) returns (diff: int, best: int)
      requires if isNew then PageAdded(h, mapped, size, maj, bestSize)
               else Searching(h, mapped, size, at, maj, bestSize, startedBet)
      modifies `l_bestBet
      ensures isNew ==>
        && HasNewPage(h.blocks, mapped) && |majors| == |h.blocks| + 1 && maj == majors[|h.blocks|]
        && Search(h, size).block == |h.blocks| && size <= 4048 && diff == 4072 && maj.first == null
        && View().bet == BetWithPage(h.blocks, size, Search(h, size), PageAddr(NextPage(mapped)))
      ensures !isNew ==>
        && Valid() && blocks == h.blocks && pg.mapped == mapped && at < |blocks| == |majors| && maj == majors[at]
        && |minors| == |majors| && (forall m :: m in minors[at] ==> m in headers.Values)
        && diff == FreeBytes(blocks[at]) && BlockOk(blocks[at]) && maj.first != null
        && Search(h, size) == if FirstGap(blocks[at], size, 0) != -1 then Found(at, View().bet, best)
                              else AfterBlock(blocks, at, size, View().bet, best, startedBet)
    {
      hide HeapOk, BlocksOk, HeadersOk, MajorsOk, ListOk, PagesHeld, PageMapOk, PageAllocator.Valid, Inuse, NextPage,
        AfterAlloc, Search, Resume, FirstGap, BlockOk, MajorOk, HasNewPage, Valid, Linked, AfterBlock, FreeBytes;
      ghost var bet0 := View().bet;
      diff, best := ConsiderBet(maj, bestSize, if isNew then |h.blocks| else at, isNew, h.blocks, mapped);
      if isNew {
        NewPageFacts(h.blocks, mapped);
      } else {
        MajorFacts(at);
        ResumeStep(h.blocks, at, size, bet0, bestSize, startedBet);
      }
    }

    /** malloc for a size that is not zero. */
    method MallocSize(size: nat) returns (r: Outcome<nat>)
      requires Valid() && 1 <= size < 0x1_0000_0000 - 48
      modifies `l_memRoot, `l_bestBet, `l_allocated, `l_inuse, `headers, `majors, `minors, `blocks
      modifies majors, headers.Values, pg`mapped, pg.kernelHeapPageTable, pg.freeMem
      ensures MallocDone(old(View()), old(pg.mapped), size, r)
    {
      hide HeapOk, BlocksOk, HeadersOk, MajorsOk, ListOk, PagesHeld, PageMapOk, PageAllocator.Valid, Inuse, NextPage,
        AfterAlloc, Search, Resume, FirstGap, BlockOk, MajorOk, WithChunk, MallocDone, AfterMalloc, Valid, HasNewPage,
        Linked, AfterBlock, BetWithPage, FreeBytes, Used, GapStart, GapEnd, Fits, HasBase, PageAddr, Scan;
      ghost var h, mapped := View(), pg.mapped;
      ghost var isNew := false;
      ghost var at: nat := 0;
      var maj: Major;
      var startedBet, bestSize := false, 0;
      if l_memRoot == null {
        var first := FirstPage(size);
        if first.Panic? {
          return Panic(first.why);
        }
        maj, isNew := first.value, true;
      } else {
        maj, bestSize, startedBet, at := ChooseStart(size);
      }
      while true
        invariant if isNew then PageAdded(h, mapped, size, maj, bestSize) && !startedBet
                  else Searching(h, mapped, size, at, maj, bestSize, startedBet)
        invariant if isNew then fresh(maj) else majors == old(majors) && headers == old(headers)
        decreases startedBet, !isNew, |h.blocks| - at
      {
        var diff;
        diff, bestSize := Visit(maj, bestSize, startedBet, size, h, mapped, at, isNew);
        if diff < size + 24 { // case 1: not enough free bytes
          TooFewFreeBytes(blocks[at], size);
        } else if maj.first == null { // case 2: a brand new page
          assert isNew;
          var p := FinishPage(maj, size, h, mapped);
          return Ret(p);
        } else { // cases 3 and 4: a major in use
          assert forall m :: m in minors[at] ==> m in old(headers.Values);
          var p := PlaceIn(maj, size, h, at, bestSize);
          if p.Some? {
            return Ret(p.value);
          }
        }
        var done;
        done, maj, startedBet, at, isNew :=
          Onward(maj, startedBet, diff >= size + 24, size, h, mapped, at, bestSize);
        if done.Some? {
          return done.value;
        }
      }
    }

    /** The end of a turn: the loop goes on with another major or with a new page, or it is done. */
    method Onward(maj: Major, startedBet: bool, case5: bool, size: nat, ghost h: Heap, ghost mapped: PageMap,
      ghost at: nat, ghost best: int)
      returns (done: Option<Outcome<nat>>, next: Major, started: bool, ghost to: nat, ghost isNew: bool)
      requires Valid() && blocks == h.blocks && pg.mapped == mapped && 1 <= size < 0x1_0000_0000 - 48
      requires at < |majors| == |blocks| && maj == majors[at]
      requires Search(h, size) == AfterBlock(blocks, at, size, View().bet, best, startedBet)
      requires case5 <==> FreeBytes(h.blocks[at]) >= size + 24
      modifies `l_memRoot, `l_allocated, `majors, `minors, `blocks, majors`next, `l_inuse, `headers
      modifies pg`mapped, pg.kernelHeapPageTable, pg.freeMem
      ensures done.Some? ==> MallocDone(h, mapped, size, done.value)
      ensures done.None? && isNew ==> PageAdded(h, mapped, size, next, best) && fresh(next) && !started
      ensures done.None? && !isNew ==> Searching(h, mapped, size, to, next, best, started)
      ensures done.None? && !isNew ==> majors == old(majors) && headers == old(headers)
      ensures done.None? && !isNew ==> (started == startedBet && to == at + 1) || (startedBet && !started)
    {
      hide HeapOk, BlocksOk, HeadersOk, MajorsOk, ListOk, PagesHeld, PageMapOk, PageAllocator.Valid, Inuse, NextPage,
        AfterAlloc, Search, Resume, FirstGap, BlockOk, MajorOk, WithChunk, MallocDone, AfterMalloc, HasNewPage,
        Linked, AfterBlock, BetWithPage, FreeBytes, Used, GapStart, GapEnd, Fits, HasBase, PageAddr, Scan, Valid,
        PageAdded, Searching;
      isNew, next := false, maj;
      var hop;
      hop, started, to := Hop(maj, startedBet, size, h, mapped, at, best);
      if hop != null {
        next, done := hop, None;
      } else {
        done, next := Extend(maj, case5, size, h, mapped, best);
        isNew := true;
      }
    }

    /**
     * The end of the list, and nothing found: a page is appended.  Case 1 falls through to
     * case 2 and uses it at once; case 5 lets the loop come round to it.
     */
    method Extend(maj: Major, case5: bool, size: nat, ghost h: Heap, ghost mapped: PageMap, ghost best: int)
      returns (done: Option<Outcome<nat>>, page: Major)
      requires Valid() && blocks == h.blocks && pg.mapped == mapped && 1 <= size < 0x1_0000_0000 - 48
      requires |majors| == |blocks| > 0 && maj == majors[|majors| - 1]
      requires Search(h, size) == Found(|h.blocks|, View().bet, best)
      requires case5 <==> FreeBytes(h.blocks[|h.blocks| - 1]) >= size + 24
      modifies `l_memRoot, `l_allocated, `majors, `minors, `blocks, majors`next, `l_inuse, `headers
      modifies pg`mapped, pg.kernelHeapPageTable, pg.freeMem
      ensures done.Some? ==> MallocDone(h, mapped, size, done.value)
      ensures done.None? ==> PageAdded(h, mapped, size, page, best)
      ensures done.None? ==> fresh(page) && majors == old(majors) + [page] && headers == old(headers)
    {
      hide HeapOk, BlocksOk, HeadersOk, MajorsOk, ListOk, PagesHeld, PageMapOk, PageAllocator.Valid, Inuse, NextPage,
        AfterAlloc, Search, WithChunk, MallocDone, PageAdded, Valid;
      page := maj;
      if case5 {
        var more := GrowForLoop(maj, size, h, mapped, best);
        if more.Panic? {
          done := Some(Panic(more.why));
        } else {
          done, page := None, more.value;
        }
      } else {
        var r := GrowAndFinish(maj, size, h, mapped, best);
        done := Some(r);
      }
    }

    /** The next major to look at: the next in the list, the root once more, or none. */
    method Hop(maj: Major, startedBet: bool, size: nat, ghost h: Heap, ghost mapped: PageMap, ghost at: nat,
      ghost best: int) returns (hop: Major?, started: bool, ghost next: nat)
      requires Valid() && blocks == h.blocks && pg.mapped == mapped
      requires at < |majors| == |blocks| && maj == majors[at]
      requires Search(h, size) == AfterBlock(blocks, at, size, View().bet, best, startedBet)
      ensures hop != null ==> Searching(h, mapped, size, next, hop, best, started)
      ensures hop != null ==> (started == startedBet && next == at + 1) || (startedBet && !started)
      ensures hop == null ==> Search(h, size) == Found(|blocks|, View().bet, best) && !started
      ensures hop == null ==> at == |majors| - 1
    {
      hide HeapOk, BlocksOk, HeadersOk, MajorsOk, ListOk, PagesHeld, PageMapOk, PageAllocator.Valid, Inuse, Search,
        Resume, MajorOk, BlockOk, Valid;
      MajorFacts(at);
      started, next := startedBet, at + 1;
      if maj.next != null {
        return maj.next, started, next;
      }
      if startedBet {
        return l_memRoot, false, 0;
      }
      hop := null;
    }

    // ---------- free ----------

    /** Unlinks a minor from its major and from memory, and counts it. */
    method UnlinkAndCount(min: Minor, ghost i: nat, ghost j: nat)
      requires Linked() && HeadersOk(headers, minors)
      requires |majors| == |minors| == |blocks| && i < |majors|
      requires forall k, l :: 0 <= k < l < |majors| ==> majors[k] != majors[l]
      requires j < |minors[i]| == |blocks[i].chunks| && min == minors[i][j] && min.block == majors[i]
      modifies `l_inuse, `headers, `minors, `blocks
      modifies min.block`usage, min.block`first, minors[i]`prev, minors[i]`next, min`magic
      ensures Linked() && HeadersOk(headers, minors)
      ensures blocks == old(blocks)[i := WithoutChunk(old(blocks[i]), j)]
      ensures minors == old(minors)[i := RemoveAt(old(minors[i]), j)]
      ensures headers.Values <= old(headers.Values)
      ensures l_inuse == old(l_inuse) - min.size
    {
      hide HeadersOk, MajorsOk, ListOk, MajorOk, WithoutChunk, RemoveAt, MinorOk, LinksOk, IsLinked, NodeIs;
      MinorsDistinct(majors, minors, blocks, headers.Values, i, j);
      l_inuse := l_inuse - min.size;
      UnlinkAt(majors, minors, blocks, headers.Values, min, i, j);
      HeadersRemoved(headers, minors, i, j);
      MajorsInMemory(majors, minors[i := RemoveAt(minors[i], j)], blocks[i := WithoutChunk(blocks[i], j)],
        headers.Values, headers - {min.addr});
      headers := headers - {min.addr};
      minors, blocks := minors[i := RemoveAt(minors[i], j)], blocks[i := WithoutChunk(blocks[i], j)];
      assert MajorsOk(majors, minors, blocks, headers.Values);
    }

    /** An empty major is taken out of the list, the best bet and the totals. */
    method DropMajor(maj: Major, ghost i: nat)
      requires Linked() && HeadersOk(headers, minors) && i < |majors| == |minors| == |blocks|
      requires maj == majors[i] && minors[i] == []
      requires l_bestBet == null || l_bestBet in majors
      modifies `l_memRoot, `l_bestBet, `l_allocated, `majors, `minors, `blocks, majors`prev, majors`next
      ensures Linked() && HeadersOk(headers, minors)
      ensures majors == RemoveAt(old(majors), i) && blocks == RemoveAt(old(blocks), i)
      ensures l_bestBet == (if old(l_bestBet) == maj then null else old(l_bestBet))
      ensures l_bestBet == null || l_bestBet in majors
      ensures l_allocated == old(l_allocated) - 4096
    {
      hide HeadersOk, MajorsOk, ListOk, MajorOk, RemoveAt;
      StillIn(majors, i, if l_bestBet == maj then null else l_bestBet);
      Relink(maj, i);
      MajorDropped(majors, minors, blocks, headers, i);
      majors, minors, blocks := RemoveAt(majors, i), RemoveAt(minors, i), RemoveAt(blocks, i);
    }

    /** The root, the best bet, the neighbours and the total let go of a major. */
    method Relink(maj: Major, ghost i: nat)
      requires Linked() && i < |majors| == |minors| == |blocks| && maj == majors[i]
      modifies `l_memRoot, `l_bestBet, `l_allocated, majors`prev, majors`next
      ensures ListOk(RemoveAt(majors, i), l_memRoot) && MajorsOk(majors, minors, blocks, headers.Values)
      ensures l_bestBet == (if old(l_bestBet) == maj then null else old(l_bestBet))
      ensures l_allocated == old(l_allocated) - 4096
    {
      hide MajorsOk, ListOk, MajorOk, RemoveAt;
      MajorOf(majors, minors, blocks, headers.Values, i);
      if l_memRoot == maj {
        l_memRoot := maj.next;
      }
      if l_bestBet == maj {
        l_bestBet := null;
      }
      l_allocated := l_allocated - maj.size;
      UnlinkMajor(maj, majors, old(l_memRoot), i);
    }

    /** The page of a dropped major goes back to the page layer. */
    method ReleasePage(base: nat, pages: nat, ghost i: nat, ghost was: Heap)
      requires HeapOk(was) && i < |was.blocks| && was.blocks[i].base == base && pages == 1
      requires blocks == RemoveAt(was.blocks, i) && PagesHeld(was.blocks, pg.mapped) && pg.Valid()
      modifies pg`mapped, pg.kernelImagePageTable, pg.kernelHeapPageTable, pg.freeMem
      ensures pg.Valid() && pg.mapped == old(pg.mapped) - {TableIndex(base)} && PagesHeld(blocks, pg.mapped)
    {
      hide PageAllocator.Valid;
      PageDropped(was, i, pg.mapped);
      var released := LiballocFree(base, pages);
    }

    /** The bookkeeping of free when the major stays: it may become the best bet. */
    method ReconsiderBet(maj: Major, ghost i: nat)
      requires Valid() && i < |majors| && maj == majors[i]
      modifies `l_bestBet
      ensures Valid() && i < |blocks|
      ensures View().bet == var h := old(View());
        if h.bet != 0 && FreeBytes(blocks[i]) > BestSize(h) then blocks[i].base else h.bet
    {
      hide HeadersOk, MajorsOk, ListOk, BlocksOk, PagesHeld, PageAllocator.Valid, Inuse;
      RootFacts();
      MajorFacts(i);
      assert HasBase(blocks, blocks[i].base);
      if l_bestBet != null {
        var bestSize := l_bestBet.size - l_bestBet.usage;
        var majSize := maj.size - maj.usage;
        if majSize > bestSize {
          l_bestBet := maj;
        }
      }
    }

    /** The header in front of a live pointer is linked, intact, and of the major it names. */
    lemma LiveFacts(p: nat)
      requires Valid() && IsLive(View(), p)
      ensures |majors| == |minors| == |blocks| && LiveIndex(View(), p).0 < |blocks|
      ensures var (i, j) := LiveIndex(View(), p);
        && j < |minors[i]| == |blocks[i].chunks| && p - 24 in headers && headers[p - 24] == minors[i][j]
        && minors[i][j].block == majors[i] && minors[i][j].magic == LIBALLOC_MAGIC
        && minors[i][j].size == SizeAt(View(), p)
        && IsPage(blocks[i].base) && majors[i].base == blocks[i].base
        && TableIndex(p) == TableIndex(blocks[i].base)
      ensures forall m :: m in minors[LiveIndex(View(), p).0] ==> m in headers.Values
    {
      hide HeadersOk, MajorsOk, ListOk, BlocksOk, PagesHeld, PageAllocator.Valid, Inuse, OwnerOf, ChunkIndex,
        MajorOk, IsPage, TableIndex, BlockOk;
      var (i, j) := LiveIndex(View(), p);
      LiveBounds(View(), p);
      Shape(View(), majors, minors, l_memRoot, headers.Values);
      MajorOf(majors, minors, blocks, headers.Values, i);
      MinorOf(majors, minors, blocks, headers.Values, i, j);
      MajorFacts(i);
      HeaderOf(headers, minors, i, j);
      BlockPage(blocks, i);
      SamePage(p, blocks[i].base);
    }

    lemma BetIsMajor(i: nat)
      requires Valid() && i < |majors|
      ensures i < |blocks| && (l_bestBet == majors[i] <==> View().bet == blocks[i].base)
    {
      MajorFacts(i);
      if l_bestBet != null {
        var k :| 0 <= k < |majors| && majors[k] == l_bestBet;
        MajorFacts(k);
      }
    }

    /** The minor of p is unlinked and counted; its major has not been looked at again. */
    ghost predicate Unlinked(h: Heap, mapped: PageMap, p: nat, maj: Major)
      requires IsLive(h, p)
      reads this, majors, headers.Values, pg, pg.kernelPageDir, pg.kernelImagePageTable
      reads pg.kernelHeapPageTable, pg.freeMem
    {
      var (i, j) := LiveIndex(h, p);
      && HeapOk(h) && Linked() && HeadersOk(headers, minors)
      && i < |majors| == |minors| == |blocks| == |h.blocks| && maj == majors[i] && maj.base == h.blocks[i].base
      && j < |h.blocks[i].chunks| && blocks == h.blocks[i := WithoutChunk(h.blocks[i], j)]
      && View().bet == h.bet && (l_bestBet == null || l_bestBet in majors)
      && (l_bestBet == maj <==> h.bet == maj.base)
      && l_inuse == Inuse(h.blocks) - SizeAt(h, p) && l_allocated == 4096 * |h.blocks|
      && pg.Valid() && pg.mapped == mapped && PagesHeld(h.blocks, mapped)
      && TableIndex(p) == TableIndex(maj.base)
    }

    /** The end of free: an empty major is given back, another may become the best bet. */
    method Tidy(maj: Major, ghost h: Heap, ghost mapped: PageMap, ghost p: nat)
      requires IsLive(h, p) && Unlinked(h, mapped, p, maj)
      modifies `l_memRoot, `l_bestBet, `l_allocated, `majors, `minors, `blocks, majors`prev, majors`next
      modifies pg`mapped, pg.kernelImagePageTable, pg.kernelHeapPageTable, pg.freeMem
      ensures FreeDone(h, mapped, p)
    {
      hide HeapOk, HeadersOk, MajorsOk, ListOk, BlocksOk, PagesHeld, PageAllocator.Valid, Inuse, IsLive, LiveIndex,
        SizeAt, AfterFree, BestSize, FreeBytes, WithoutChunk, RemoveAt, MajorOk, IsPage, TableIndex, EmptiesBlock,
        OwnerOf, ChunkIndex, MinorOk;
      ghost var (i, j) := LiveIndex(h, p);
      FreeKeepsHeap(h, p);
      FreeTotals(h, p);
      FreeCases(h, p, mapped);
      MajorOf(majors, minors, blocks, headers.Values, i);
      FirstOf(maj, minors[i], blocks[i]);
      if maj.first == null {
        var base, pages := maj.base, maj.pages;
        DropMajor(maj, i);
        ReleasePage(base, pages, i, h);
      } else {
        ReconsiderBet(maj, i);
      }
    }

    /** free of a live payload. */
    method FreeLive(ptr: nat)
      requires Valid() && IsLive(View(), ptr)
      modifies this, majors, headers.Values, pg`mapped, pg.kernelImagePageTable, pg.kernelHeapPageTable, pg.freeMem
      ensures FreeDone(old(View()), old(pg.mapped), ptr)
      ensures unchanged(`l_warningCount, `l_errorCount, `l_possibleOverruns)
    {
      hide HeapOk, HeadersOk, MajorsOk, ListOk, BlocksOk, PagesHeld, PageAllocator.Valid, Inuse, IsLive, LiveIndex,
        SizeAt, AfterFree, BestSize, FreeBytes, WithoutChunk, RemoveAt, MajorOk, IsPage, TableIndex, EmptiesBlock,
        OwnerOf, ChunkIndex, MinorOk, FreeDone;
      ghost var h, mapped := View(), pg.mapped;
      ghost var (i, j) := LiveIndex(h, ptr);
      LiveFacts(ptr);
      Shape(h, majors, minors, l_memRoot, headers.Values);
      BetIsMajor(i);
      var min := headers[ptr - 24];
      var maj := min.block;
      UnlinkAndCount(min, i, j);
      Tidy(maj, h, mapped, ptr);
    }

    /** The word in front of ptr that free takes for a magic, unless reading it faults. */
    method ReadMagic(ptr: nat, word: nat) returns (magic: Option<nat>)
      requires Valid() && 0 < ptr < 0x1_0000_0000
      ensures magic.Some? <==> MagicMapped(pg.mapped, ptr)
      ensures IsLive(View(), ptr) ==> magic == Some(LIBALLOC_MAGIC)
      ensures !IsLive(View(), ptr) && magic.Some? ==> magic.value == word
    {
      hide HeapOk, HeadersOk, MajorsOk, ListOk, BlocksOk, PagesHeld, PageAllocator.Valid, Inuse, MajorOk;
      var a := MagicAddress(ptr);
      WalkMagic(ptr);
      if pg.Walk(a) == None || pg.Walk((a + 3) % 0x1_0000_0000) == None {
        if IsLive(View(), ptr) {
          LiveMagicMapped(View(), pg.mapped, ptr);
        }
        return None;
      }
      LiveIffHeader(ptr);
      if ptr >= 24 && ptr - 24 in headers {
        LiveFacts(ptr);
        magic := Some(headers[ptr - 24].magic);
      } else {
        magic := Some(word);
      }
    }

    lemma LiveIffHeader(ptr: nat)
      requires Valid()
      ensures IsLive(View(), ptr) <==> ptr >= 24 && ptr - 24 in headers
    {
      hide HeapOk, HeadersOk, MajorsOk, ListOk, BlocksOk, PagesHeld, PageAllocator.Valid, Inuse, MajorOk;
      if IsLive(View(), ptr) {
        LiveFacts(ptr);
      }
      if ptr >= 24 {
        HeaderIsLive(View(), headers, majors, minors, headers.Values, ptr - 24);
      }
    }

    /** Counts an error, and a possible overrun if the low bytes of the magic are intact. */
    method CountBadMagic(magic: nat)
      requires Valid()
      modifies `l_errorCount, `l_possibleOverruns
      ensures Valid() && View() == old(View())
      ensures l_errorCount == old(l_errorCount) + 1
      ensures l_possibleOverruns == old(l_possibleOverruns) + if magic % 0x100 == 0xde then 1 else 0
    {
      hide HeapOk, HeadersOk, MajorsOk, ListOk, BlocksOk, PagesHeld, PageAllocator.Valid, Inuse, MajorOk;
      l_errorCount := l_errorCount + 1;
      Overrun(magic);
      if magic % 0x100_0000 == LIBALLOC_MAGIC % 0x100_0000 || magic % 0x1_0000 == LIBALLOC_MAGIC % 0x1_0000
        || magic % 0x100 == LIBALLOC_MAGIC % 0x100 {
        l_possibleOverruns := l_possibleOverruns + 1;
      }
    }

    lemma WalkMagic(ptr: nat)
      requires Valid() && 0 < ptr < 0x1_0000_0000
      ensures pg.Shape()
      ensures var a := MagicAddress(ptr);
        a < 0x1_0000_0000 && pg.Walk(a) == Translate(pg.mapped, a)
        && pg.Walk((a + 3) % 0x1_0000_0000) == Translate(pg.mapped, (a + 3) % 0x1_0000_0000)
    {
      pg.WalkIsTranslate(MagicAddress(ptr));
      pg.WalkIsTranslate((MagicAddress(ptr) + 3) % 0x1_0000_0000);
    }

    /**
     * free.  `word` is what memory holds where the header of ptr would keep its magic, if no
     * header is there.  The read faults when that word is not mapped; and nothing is promised
     * when other data spells the magic, as free then takes it for a header.
     */
    method Free(ptr: nat, word: nat) returns (r: Outcome<()>)
      requires Valid() && ptr < 0x1_0000_0000
      modifies this, majors, headers.Values, pg`mapped, pg.kernelImagePageTable, pg.kernelHeapPageTable, pg.freeMem
      ensures IsLive(old(View()), ptr) ==> r == Ret(()) && FreeDone(old(View()), old(pg.mapped), ptr)
      ensures ptr != 0 && !MagicMapped(old(pg.mapped), ptr) ==> r == Panic(PageFault)
      ensures ptr == 0 || (MagicMapped(old(pg.mapped), ptr) && !IsLive(old(View()), ptr) && word != LIBALLOC_MAGIC) ==>
        r == Ret(()) && Valid() && View() == old(View()) && pg.mapped == old(pg.mapped)
      ensures ptr == 0 || IsLive(old(View()), ptr) || word != LIBALLOC_MAGIC ==>
        var bad := ptr != 0 && !IsLive(old(View()), ptr) && MagicMapped(old(pg.mapped), ptr);
        && l_warningCount == old(l_warningCount) + (if ptr == 0 then 1 else 0)
        && l_errorCount == old(l_errorCount) + (if bad then 1 else 0)
        && l_possibleOverruns == old(l_possibleOverruns) + if bad && word % 0x100 == 0xde then 1 else 0
    {
      hide HeapOk, HeadersOk, MajorsOk, ListOk, BlocksOk, PagesHeld, PageAllocator.Valid, Inuse, FreeDone, MajorOk,
        MagicMapped, IsLive, MagicAddress;
      if ptr == 0 {
        NullIsNotLive(View());
        l_warningCount := l_warningCount + 1;
        return Ret(());
      }
      var magic := ReadMagic(ptr, word);
      if magic.None? {
        return Panic(PageFault);
      }
      if magic.value != LIBALLOC_MAGIC {
        CountBadMagic(magic.value);
        return Ret(());
      }
      r := Ret(());
      LiveIffHeader(ptr);
      if ptr >= 24 && ptr - 24 in headers { // otherwise other data is taken for a header
        FreeLive(ptr);
      }
    }

    /** Everything but the links is ready for the first minor of the new page. */
    lemma PageReady(before: seq<Block>, mapped: PageMap, size: nat)
      requires HasNewPage(before, mapped) && 1 <= size <= 4048
      ensures |majors| == |minors| == |blocks| == |before| + 1 && minors[|before|] == []
      ensures forall i, j :: 0 <= i < j < |majors| ==> majors[i] != majors[j]
      ensures PageAddr(NextPage(mapped)) + 24 !in headers
      ensures GapStart(blocks[|before|], 0) == PageAddr(NextPage(mapped)) + 24
      ensures var blocks' := blocks[|before| := WithChunk(blocks[|before|], 0, size)];
        && blocks' == before + [FreshBlock(PageAddr(NextPage(mapped)), size)]
        && HeapOk(Heap(blocks', View().bet)) && Inuse(blocks') == l_inuse + size && PagesHeld(blocks', pg.mapped)
    {
      hide HeadersOk, MajorsOk, ListOk, MajorOk, HeapOk, BlocksOk, PagesHeld, PageMapOk, PageAllocator.Valid,
        Inuse, NextPage, AfterAlloc, WithChunk, FreshBlock, HasBase, IsPage;
      var page := PageAddr(NextPage(mapped));
      NewPage(before, mapped);
      NewPageOk(before, page, size, pg.mapped);
      NewPageInuse(before, page, size);
      Shape(Heap(blocks, 0), majors, minors, l_memRoot, headers.Values);
      BetIsBlock(majors, minors, blocks, headers.Values, l_bestBet);
      NoHeaderInNewPage(headers, majors, minors, before, blocks, headers.Values, page);
      BetKept(blocks, before + [FreshBlock(page, size)], View().bet);
    }
  }

  /** The three overrun tests of free come down to the lowest byte. */
  lemma Overrun(word: nat)
    ensures word % 0x100 == 0xde <==>
      word % 0x100_0000 == LIBALLOC_MAGIC % 0x100_0000 || word % 0x1_0000 == LIBALLOC_MAGIC % 0x1_0000
      || word % 0x100 == LIBALLOC_MAGIC % 0x100
  {
    assert LIBALLOC_MAGIC % 0x100_0000 == 0x01_c0de && LIBALLOC_MAGIC % 0x1_0000 == 0xc0de;
    LowByte(word, word % 0x1_0000, 0x100 * (word / 0x1_0000));
    LowByte(word, word % 0x100_0000, 0x1_0000 * (word / 0x100_0000));
  }

  lemma LowByte(x: nat, y: nat, k: nat)
    requires x == y + 0x100 * k
    ensures x % 0x100 == y % 0x100
  {
  }

  lemma SamePage(p: nat, base: nat)
    requires IsPage(base) && base <= p < base + 4096
    ensures TableIndex(p) == TableIndex(base)
  {
    assert p / 4096 == base / 4096;
  }

  lemma FirstOf(maj: Major, ms: seq<Minor>, b: Block)
    requires MajorOk(maj, ms, b)
    ensures maj.first == null <==> b.chunks == []
    ensures maj.first == null <==> ms == []
  {
  }

  /** No other block lies in the page of a dropped one. */
  lemma PageDropped(h: Heap, i: nat, m: PageMap)
    requires HeapOk(h) && i < |h.blocks| && PagesHeld(h.blocks, m)
    ensures var base := h.blocks[i].base;
      && IsPage(base) && TableIndex(base) in m && 0x40_0000 <= base < 0x80_0000
      && PagesHeld(RemoveAt(h.blocks, i), m - {TableIndex(base)})
  {
    var base := h.blocks[i].base;
    PageBounds(base);
    var rest := RemoveAt(h.blocks, i);
    forall k | 0 <= k < |rest| ensures TableIndex(rest[k].base) in m - {TableIndex(base)} {
      var k' := if k < i then k else k + 1;
      assert rest[k] == h.blocks[k'] && h.blocks[k'].base != base;
      HeapHalf(base);
      HeapHalf(rest[k].base);
    }
  }

  /** The two outcomes of free, in terms of the blocks with the chunk taken out. */
  lemma FreeCases(h: Heap, p: nat, m: PageMap)
    requires HeapOk(h) && IsLive(h, p) && PagesHeld(h.blocks, m)
    ensures var (i, j) := LiveIndex(h, p);
      var b := WithoutChunk(h.blocks[i], j);
      var blocks := h.blocks[i := b];
      && (EmptiesBlock(h, p) <==> b.chunks == [])
      && (b.chunks == [] ==>
        AfterFree(h, p) == Heap(RemoveAt(h.blocks, i), if h.bet == h.blocks[i].base then 0 else h.bet)
        && RemoveAt(h.blocks, i) == RemoveAt(blocks, i) && |RemoveAt(blocks, i)| == |blocks| - 1)
      && (b.chunks != [] ==>
        && HeapOk(Heap(blocks, h.bet)) && PagesHeld(blocks, m) && AfterFree(h, p).blocks == blocks
        && AfterFree(h, p).bet == if h.bet != 0 && FreeBytes(b) > BestSize(Heap(blocks, h.bet)) then b.base else h.bet)
  {
    var (i, j) := LiveIndex(h, p);
    var b := WithoutChunk(h.blocks[i], j);
    WithoutChunkOk(h.blocks[i], j);
    if b.chunks != [] {
      BlockReplacedOk(h, i, b);
    } else {
      assert RemoveAt(h.blocks, i) == RemoveAt(h.blocks[i := b], i);
    }
  }

  /** The page that allocation will return is a heap page that no block owns. */
  lemma NewPage(before: seq<Block>, mapped: PageMap)
    requires BlocksOk(before) && PagesHeld(before, mapped) && PageMapOk(mapped) && |mapped| < 1024
    ensures var page := PageAddr(NextPage(mapped));
      IsPage(page) && !HasBase(before, page) && PagesHeld(before + [Block(page, [])], AfterAlloc(mapped))
  {
    AfterAllocOk(mapped);
    UnownedPage(before, mapped, NextPage(mapped), AfterAlloc(mapped));
  }

  lemma UnownedPage(before: seq<Block>, mapped: PageMap, k: nat, after: PageMap)
    requires BlocksOk(before) && PagesHeld(before, mapped) && k < 1024 && k !in mapped
    requires k in after && forall i :: i in mapped ==> i in after
    ensures IsPage(PageAddr(k)) && !HasBase(before, PageAddr(k))
    ensures PagesHeld(before + [Block(PageAddr(k), [])], after)
  {
    AddressDecodes(k, 0);
  }

  /** The heap and the totals once the new page holds its first minor. */
  lemma NewPageOk(before: seq<Block>, page: nat, size: nat, m: PageMap)
    requires BlocksOk(before) && IsPage(page) && !HasBase(before, page) && 1 <= size <= 4048
    ensures var was := before + [Block(page, [])];
      var blocks := before + [FreshBlock(page, size)];
      && BlocksOk(blocks)
      && blocks == was[|before| := WithChunk(Block(page, []), 0, size)]
      && (PagesHeld(was, m) ==> PagesHeld(blocks, m))
  {
    FreshBlockOk(page, size);
    assert WithChunk(Block(page, []), 0, size) == FreshBlock(page, size);
    var was, blocks := before + [Block(page, [])], before + [FreshBlock(page, size)];
    assert blocks == was[|before| := FreshBlock(page, size)];
    assert forall i :: 0 <= i < |blocks| ==> blocks[i].base == was[i].base;
    forall i, j | 0 <= i < j < |blocks|
      ensures blocks[i].base != blocks[j].base
    {
      assert blocks[i] == before[i];
    }
  }

  lemma NewPageInuse(before: seq<Block>, page: nat, size: nat)
    ensures Inuse(before + [FreshBlock(page, size)]) == Inuse(before) + size
    ensures Inuse(before + [Block(page, [])]) == Inuse(before)
  {
    InuseConcat(before, [FreshBlock(page, size)]);
    InuseConcat(before, [Block(page, [])]);
    assert Used([Chunk(page + 24, size)]) == size + 24;
  }

  lemma BetKept(was: seq<Block>, blocks: seq<Block>, bet: nat)
    requires |was| == |blocks| && forall i :: 0 <= i < |was| ==> blocks[i].base == was[i].base
    requires BlocksOk(blocks) && (bet == 0 || HasBase(was, bet))
    ensures HeapOk(Heap(blocks, bet))
  {
    KeepBases(was, blocks, bet);
  }

  lemma NoHeaderInNewPage(headers: map<nat, Minor>, majors: seq<Major>, minors: seq<seq<Minor>>,
    before: seq<Block>, blocks: seq<Block>, all: set<Minor>, page: nat)
    requires BlocksOk(before) && IsPage(page) && !HasBase(before, page) && blocks == before + [Block(page, [])]
    requires MajorsOk(majors, minors, blocks, all) && HeadersOk(headers, minors)
    ensures page + 24 !in headers
  {
    hide MajorsOk, HeadersOk, BlocksOk, IsPage, HasBase;
    if page + 24 in headers {
      var i, j := HeaderIsLinked(headers, majors, minors, blocks, all, page + 24);
      assert blocks[|before|].chunks == [];
      OtherPage(before, page, i, j);
    }
  }

  lemma OtherPage(before: seq<Block>, page: nat, i: nat, j: nat)
    requires BlocksOk(before) && IsPage(page) && !HasBase(before, page)
    requires i < |before| && j < |before[i].chunks|
    ensures before[i].chunks[j].addr != page + 24
  {
    ChunkBounds(before[i], j);
    PagesApart(before[i].base, page);
  }

  lemma BetIsBlock(majors: seq<Major>, minors: seq<seq<Minor>>, blocks: seq<Block>, all: set<Minor>, bet: Major?)
    requires MajorsOk(majors, minors, blocks, all) && (bet == null || bet in majors)
    ensures bet == null || HasBase(blocks, bet.base)
  {
    if bet != null {
      var i :| 0 <= i < |majors| && majors[i] == bet;
      assert MajorOk(majors[i], minors[i], blocks[i]);
      assert blocks[i].base == bet.base;
    }
  }

  /** maj->next = the new major; maj->next->prev = maj. */
  method LinkMajor(last: Major, maj: Major, ghost majors: seq<Major>, ghost root: Major?)
    requires ListOk(majors, root) && majors != [] && last == majors[|majors| - 1]
    requires maj !in majors && maj.next == null
    modifies last`next, maj`prev
    ensures ListOk(majors + [maj], root)
  {
    last.next := maj;
    maj.prev := last;
    ghost var majors' := majors + [maj];
    forall i: nat | i < |majors'| ensures LinksOk(majors', i) {
      if i < |majors| {
        assert old(LinksOk(majors, i));
      }
    }
  }

  lemma LastOfList(majors: seq<Major>, root: Major?)
    requires ListOk(majors, root)
    ensures majors == [] ==> root == null
  {
  }

  lemma SingleList(maj: Major)
    requires maj.prev == null && maj.next == null
    ensures ListOk([maj], maj)
  {
  }

  lemma MajorsWithEmpty(majors: seq<Major>, minors: seq<seq<Minor>>, blocks: seq<Block>, all: set<Minor>, maj: Major)
    requires MajorsOk(majors, minors, blocks, all) && MajorOk(maj, [], Block(maj.base, []))
    ensures MajorsOk(majors + [maj], minors + [[]], blocks + [Block(maj.base, [])], all)
  {
    forall i, j | 0 <= i < |minors + [[]]| && 0 <= j < |(minors + [[]])[i]|
      ensures (minors + [[]])[i][j] in all
    {
      assert (minors + [[]])[i] == minors[i];
    }
  }

  lemma HeadersWithEmptyMajor(headers: map<nat, Minor>, minors: seq<seq<Minor>>)
    requires HeadersOk(headers, minors)
    ensures HeadersOk(headers, minors + [[]])
  {
    forall a | a in headers ensures IsLinked(minors + [[]], headers[a]) {
      var i, j :| 0 <= i < |minors| && 0 <= j < |minors[i]| && minors[i][j] == headers[a];
      assert (minors + [[]])[i][j] == headers[a];
    }
  }

  lemma KeepPages(blocks: seq<Block>, i: nat, j: nat, size: nat, m: PageMap)
    requires PagesHeld(blocks, m) && i < |blocks| && j <= |blocks[i].chunks|
    ensures PagesHeld(blocks[i := WithChunk(blocks[i], j, size)], m)
  {
  }

  /** What the linked structure says about sizes and about which objects differ. */
  lemma Shape(h: Heap, majors: seq<Major>, minors: seq<seq<Minor>>, root: Major?, all: set<Minor>)
    requires MajorsOk(majors, minors, h.blocks, all) && ListOk(majors, root)
    ensures |majors| == |minors| == |h.blocks|
    ensures forall i :: 0 <= i < |majors| ==> |minors[i]| == |h.blocks[i].chunks|
    ensures forall i, j :: 0 <= i < j < |majors| ==> majors[i] != majors[j]
    ensures HeapOk(h) ==> forall i :: 0 <= i < |minors| ==> minors[i] != []
  {
  }

  lemma HeadersInserted(headers: map<nat, Minor>, minors: seq<seq<Minor>>, i: nat, j: nat, m: Minor)
    requires HeadersOk(headers, minors) && m.addr !in headers
    requires i < |minors| && j <= |minors[i]|
    ensures HeadersOk(headers[m.addr := m], minors[i := Inserted(minors[i], j, m)])
    ensures headers[m.addr := m].Values == headers.Values + {m}
  {
    var minors' := minors[i := Inserted(minors[i], j, m)];
    var headers' := headers[m.addr := m];
    assert minors'[i][j] == m;
    forall a | a in headers'
      ensures headers'[a].addr == a && IsLinked(minors', headers'[a])
    {
      if a != m.addr {
        var k, l :| 0 <= k < |minors| && 0 <= l < |minors[k]| && minors[k][l] == headers[a];
        assert minors'[k][if k == i && l >= j then l + 1 else l] == headers[a];
      }
    }
    forall k, l | 0 <= k < |minors'| && 0 <= l < |minors'[k]|
      ensures minors'[k][l].addr in headers' && headers'[minors'[k][l].addr] == minors'[k][l]
    {
      if k != i || l != j {
        assert minors'[k][l] == minors[k][if k == i && l > j then l - 1 else l];
      }
    }
    forall v | v in headers.Values ensures v in headers'.Values {
      var a :| a in headers && headers[a] == v;
      assert headers'[a] == v;
    }
    assert headers'[m.addr] == m;
  }

  /** Links a new minor at index j of major i; the lists of the other majors do not change. */
  method LinkAt(ghost majors: seq<Major>, ghost minors: seq<seq<Minor>>, ghost blocks: seq<Block>,
    ghost all: set<Minor>, maj: Major, min: Minor?, size: nat, ghost i: nat, ghost j: nat) returns (m: Minor)
    requires MajorsOk(majors, minors, blocks, all) && i < |majors| && maj == majors[i]
    requires forall k, l :: 0 <= k < l < |majors| ==> majors[k] != majors[l]
    requires j <= |minors[i]| && min == MinorAt(minors[i], j - 1)
    modifies maj`first, maj`usage, minors[i]`prev, minors[i]`next
    ensures fresh(m) && m.addr == GapStart(blocks[i], j)
    ensures MajorsOk(majors, minors[i := Inserted(minors[i], j, m)], blocks[i := WithChunk(blocks[i], j, size)],
      all + {m})
  {
    forall k, l | 0 <= k < |majors| && k != i && 0 <= l < |minors[k]| ensures minors[k][l] !in minors[i] {
      MinorsApart(majors, minors, blocks, all, i, k);
    }
    if maj.first == null {
      assert minors[i] == [];
      m := PutFirst(maj, size, blocks[i]);
      assert Inserted(minors[i], j, m) == [m];
    } else if min == null {
      m := PutFront(maj, size, minors[i], blocks[i]);
    } else {
      m := PutAfter(maj, min, size, minors[i], blocks[i], j - 1);
    }
    forall k | 0 <= k < |majors| && k != i ensures MajorOk(majors[k], minors[k], blocks[k]) {
      forall l: nat | l < |minors[k]| ensures MinorOk(majors[k], minors[k], blocks[k].chunks, l) {
        assert old(MinorOk(majors[k], minors[k], blocks[k].chunks, l));
      }
    }
  }

  lemma RecordOk(h: Heap, i: nat, j: nat, size: nat)
    requires HeapOk(h) && i < |h.blocks| && j <= |h.blocks[i].chunks|
    requires Fits(h.blocks[i], j, size) && size >= 1
    ensures var blocks' := h.blocks[i := WithChunk(h.blocks[i], j, size)];
      && HeapOk(Heap(blocks', h.bet)) && Inuse(blocks') == Inuse(h.blocks) + size
    ensures !IsLive(h, GapStart(h.blocks[i], j) + 24)
  {
    hide HeapOk, WithChunk, GapStart, Fits, IsLive, Inuse;
    RecordKeeps(h, i, j, size);
    RecordIsNew(h, i, j, size);
  }

  lemma RecordKeeps(h: Heap, i: nat, j: nat, size: nat)
    requires HeapOk(h) && i < |h.blocks| && j <= |h.blocks[i].chunks|
    requires Fits(h.blocks[i], j, size) && size >= 1
    ensures var blocks' := h.blocks[i := WithChunk(h.blocks[i], j, size)];
      && HeapOk(Heap(blocks', h.bet)) && Inuse(blocks') == Inuse(h.blocks) + size
  {
    var b := WithChunk(h.blocks[i], j, size);
    WithChunkOk(h.blocks[i], j, size);
    BlockReplacedOk(h, i, b);
    UsedInsert(h.blocks[i].chunks, j, Chunk(GapStart(h.blocks[i], j), size));
    InuseUpdate(h.blocks, i, b);
  }

  /** The gap that takes the new header holds none yet. */
  lemma RecordIsNew(h: Heap, i: nat, j: nat, size: nat)
    requires HeapOk(h) && i < |h.blocks| && j <= |h.blocks[i].chunks|
    requires HeapOk(Heap(h.blocks[i := WithChunk(h.blocks[i], j, size)], h.bet))
    ensures !IsLive(h, GapStart(h.blocks[i], j) + 24)
  {
    hide HeapOk, IsLive;
    var a := GapStart(h.blocks[i], j);
    InsertThenRemove(h.blocks[i].chunks, j, Chunk(a, size));
    OneMoreAdds(h, Heap(h.blocks[i := WithChunk(h.blocks[i], j, size)], h.bet), i, j, a + 24, size);
  }

  method UnlinkAt(ghost majors: seq<Major>, ghost minors: seq<seq<Minor>>, ghost blocks: seq<Block>,
    ghost all: set<Minor>, min: Minor, ghost i: nat, ghost j: nat)
    requires MajorsOk(majors, minors, blocks, all) && i < |majors| && min.block == majors[i]
    requires forall k, l :: 0 <= k < l < |majors| ==> majors[k] != majors[l]
    requires j < |minors[i]| && min == minors[i][j]
    modifies min.block`usage, min.block`first, minors[i]`prev, minors[i]`next, min`magic
    ensures MajorsOk(majors, minors[i := RemoveAt(minors[i], j)], blocks[i := WithoutChunk(blocks[i], j)], all)
  {
    forall k, l | 0 <= k < |majors| && k != i && 0 <= l < |minors[k]| ensures minors[k][l] !in minors[i] {
      MinorsApart(majors, minors, blocks, all, i, k);
    }
    Unlink(min, minors[i], blocks[i], j);
    forall k | 0 <= k < |majors| && k != i ensures MajorOk(majors[k], minors[k], blocks[k]) {
      forall l: nat | l < |minors[k]| ensures MinorOk(majors[k], minors[k], blocks[k].chunks, l) {
        assert old(MinorOk(majors[k], minors[k], blocks[k].chunks, l));
      }
    }
  }

  lemma MajorsInMemory(majors: seq<Major>, minors: seq<seq<Minor>>, blocks: seq<Block>, all: set<Minor>,
    headers: map<nat, Minor>)
    requires MajorsOk(majors, minors, blocks, all) && HeadersOk(headers, minors)
    ensures MajorsOk(majors, minors, blocks, headers.Values)
  {
  }

  lemma MinorsDistinct(majors: seq<Major>, minors: seq<seq<Minor>>, blocks: seq<Block>, all: set<Minor>, i: nat, j: nat)
    requires MajorsOk(majors, minors, blocks, all) && i < |majors| && j < |minors[i]|
    requires forall k, l :: 0 <= k < l < |majors| ==> majors[k] != majors[l]
    ensures forall k, l :: 0 <= k < l < |minors[i]| ==> minors[i][k] != minors[i][l]
    ensures forall k, l :: 0 <= k < |minors| && k != i && 0 <= l < |minors[k]| ==> minors[k][l] != minors[i][j]
  {
    assert MajorOk(majors[i], minors[i], blocks[i]);
    forall k, l | 0 <= k < |minors| && k != i && 0 <= l < |minors[k]|
      ensures minors[k][l] != minors[i][j]
    {
      MinorsApart(majors, minors, blocks, all, i, k);
      assert minors[i][j] in minors[i] && minors[k][l] in minors[k];
    }
  }

  lemma HeadersRemoved(headers: map<nat, Minor>, minors: seq<seq<Minor>>, i: nat, j: nat)
    requires HeadersOk(headers, minors) && i < |minors| && j < |minors[i]|
    requires forall k, l :: 0 <= k < l < |minors[i]| ==> minors[i][k] != minors[i][l]
    requires forall k, l :: 0 <= k < |minors| && k != i && 0 <= l < |minors[k]| ==> minors[k][l] != minors[i][j]
    ensures HeadersOk(headers - {minors[i][j].addr}, minors[i := RemoveAt(minors[i], j)])
    ensures (headers - {minors[i][j].addr}).Values <= headers.Values
  {
    var m := minors[i][j];
    var minors' := minors[i := RemoveAt(minors[i], j)];
    var headers' := headers - {m.addr};
    forall a | a in headers'
      ensures headers'[a].addr == a && IsLinked(minors', headers'[a])
    {
      var k, l :| 0 <= k < |minors| && 0 <= l < |minors[k]| && minors[k][l] == headers[a];
      assert headers[a] != m;
      assert minors'[k][if k == i && l > j then l - 1 else l] == headers[a];
    }
    forall k, l | 0 <= k < |minors'| && 0 <= l < |minors'[k]|
      ensures minors'[k][l].addr in headers' && headers'[minors'[k][l].addr] == minors'[k][l]
    {
      var l' := if k == i && l >= j then l + 1 else l;
      assert minors'[k][l] == minors[k][l'];
      assert headers[minors[k][l'].addr] == minors[k][l'] && headers[m.addr] == m;
    }
  }

  lemma PageBounds(base: nat)
    requires IsPage(base)
    ensures 0x40_0000 <= base < 0x80_0000
  {
  }

  lemma MajorOf(majors: seq<Major>, minors: seq<seq<Minor>>, blocks: seq<Block>, all: set<Minor>, i: nat)
    requires MajorsOk(majors, minors, blocks, all) && i < |majors|
    ensures MajorOk(majors[i], minors[i], blocks[i])
    ensures majors[i].pages == 1 && majors[i].size == 4096 && majors[i].base == blocks[i].base
  {
  }

  lemma MinorOf(majors: seq<Major>, minors: seq<seq<Minor>>, blocks: seq<Block>, all: set<Minor>, i: nat, j: nat)
    requires MajorsOk(majors, minors, blocks, all) && i < |majors| && j < |minors[i]|
    ensures j < |blocks[i].chunks| && MinorOk(majors[i], minors[i], blocks[i].chunks, j)
  {
    assert MajorOk(majors[i], minors[i], blocks[i]);
  }

  lemma HeaderOf(headers: map<nat, Minor>, minors: seq<seq<Minor>>, i: nat, j: nat)
    requires HeadersOk(headers, minors) && i < |minors| && j < |minors[i]|
    ensures minors[i][j].addr in headers && headers[minors[i][j].addr] == minors[i][j]
  {
  }

  lemma BlockPage(blocks: seq<Block>, i: nat)
    requires BlocksOk(blocks) && i < |blocks|
    ensures IsPage(blocks[i].base)
  {
  }

  lemma StillIn(majors: seq<Major>, i: nat, bet: Major?)
    requires i < |majors| && (bet == null || bet in majors) && bet != majors[i]
    ensures bet == null || bet in RemoveAt(majors, i)
  {
    if bet != null {
      var k :| 0 <= k < |majors| && majors[k] == bet;
      assert RemoveAt(majors, i)[if k < i then k else k - 1] == bet;
    }
  }

  /** The two relinking steps around a major that leaves the list. */
  method UnlinkMajor(maj: Major, ghost majors: seq<Major>, ghost root: Major?, ghost i: nat)
    requires ListOk(majors, root) && i < |majors| && maj == majors[i]
    modifies majors`prev, majors`next
    ensures ListOk(RemoveAt(majors, i), if root == maj then old(maj.next) else root)
  {
    assert LinksOk(majors, i);
    if maj.prev != null {
      maj.prev.next := maj.next;
    }
    if maj.next != null {
      maj.next.prev := maj.prev;
    }
    ghost var rest := RemoveAt(majors, i);
    forall k: nat | k < |rest| ensures LinksOk(rest, k) {
      var k' := if k < i then k else k + 1;
      assert old(LinksOk(majors, k'));
      assert rest[k] == majors[k'];
    }
  }

  /** Taking out a major without minors leaves the other majors and the memory map as they are. */
  lemma MajorDropped(majors: seq<Major>, minors: seq<seq<Minor>>, blocks: seq<Block>, headers: map<nat, Minor>, i: nat)
    requires MajorsOk(majors, minors, blocks, headers.Values) && HeadersOk(headers, minors)
    requires i < |majors| && minors[i] == []
    ensures MajorsOk(RemoveAt(majors, i), RemoveAt(minors, i), RemoveAt(blocks, i), headers.Values)
    ensures HeadersOk(headers, RemoveAt(minors, i))
  {
    hide MajorOk, HeadersOk;
    EmptyListDropped(headers, minors, i);
    var majors', minors', blocks' := RemoveAt(majors, i), RemoveAt(minors, i), RemoveAt(blocks, i);
    forall k | 0 <= k < |majors'| ensures MajorOk(majors'[k], minors'[k], blocks'[k]) {
      var k' := if k < i then k else k + 1;
      assert majors'[k] == majors[k'] && minors'[k] == minors[k'] && blocks'[k] == blocks[k'];
    }
  }

  lemma EmptyListDropped(headers: map<nat, Minor>, minors: seq<seq<Minor>>, i: nat)
    requires HeadersOk(headers, minors) && i < |minors| && minors[i] == []
    ensures HeadersOk(headers, RemoveAt(minors, i))
    ensures var minors' := RemoveAt(minors, i);
      forall k, l :: 0 <= k < |minors'| && 0 <= l < |minors'[k]| ==> minors'[k][l] in headers.Values
  {
    var minors' := RemoveAt(minors, i);
    forall a | a in headers ensures IsLinked(minors', headers[a]) {
      var k, l :| 0 <= k < |minors| && 0 <= l < |minors[k]| && minors[k][l] == headers[a];
      assert minors'[if k < i then k else k - 1][l] == headers[a];
    }
    forall k, l | 0 <= k < |minors'| && 0 <= l < |minors'[k]|
      ensures minors'[k][l].addr in headers && headers[minors'[k][l].addr] == minors'[k][l]
    {
      assert minors'[k] == minors[if k < i then k else k + 1];
    }
  }
}
