/**
 * malloc (mm/liballoc.cpp) for every 32-bit size.  Its sums of a size and a header are taken
 * modulo 2^32, so that the largest requests look small.
 */
module Requests {
  import opened Common
  import opened HeapLayout
  import opened Liballoc

  /** The size that the comparisons of malloc see: the request, or less than nothing. */
  function Searched(size: nat): int {
    (size + 24) % 0x1_0000_0000 - 24
  }

  /**
   * The blocks after malloc(size), for a page source that yields p and then q.  On an empty
   * heap the first page is obtained before the loop; the loop then appends another one if the
   * first looks too small.
   */
  function MallocBlocks(h: Heap, size: nat, p: nat, q: nat): Outcome<seq<Block>> {
    var n := Searched(size);
    if h.blocks != [] && !NeedsPage(h, n) then
      var i, j := TargetBlock(h, n), TargetGap(h, n);
      Ret(h.blocks[i := WithChunk(h.blocks[i], j, size)])
    else if PagesFor(size) > 1 then Panic(TooManyPages)
    else if h.blocks != [] then Ret(h.blocks + [FreshBlock(p, size)])
    else if 4072 < n + 24 then Ret([Block(p, []), FreshBlock(q, size)])
    else Ret([FreshBlock(p, size)])
  }

  /** Below 2^32 - 48 this is malloc as specified. */
  lemma SmallRequests(h: Heap, size: nat, p: nat, q: nat)
    requires HeapOk(h) && 1 <= size < 0x1_0000_0000 - 48
    ensures MallocBlocks(h, size, p, q) ==
      if NeedsPage(h, size) && size > 4048 then Panic(TooManyPages) else Ret(AfterMalloc(h, size, p).blocks)
  {
    OnePageGuard(size);
    assert Searched(size) == size;
    if h.blocks == [] {
      assert NeedsPage(h, size);
      assert h.blocks + [FreshBlock(p, size)] == [FreshBlock(p, size)];
    }
  }

  ghost predicate InPages(blocks: seq<Block>) {
    forall i :: 0 <= i < |blocks| ==> BlockOk(blocks[i])
  }

  lemma PageBoundsSize(b: Block, j: nat)
    requires j < |b.chunks| && b.chunks[j].size > 4096
    ensures !BlockOk(b)
  {
    if BlockOk(b) {
      ChunkBounds(b, j);
    }
  }

  /**
   * Whatever malloc accepts lies in its page, without overlap, if and only if the request is
   * below 2^32 - 48; and every request from there on is accepted.
   */
  lemma StaysInPageIff(h: Heap, size: nat, p: nat, q: nat)
    requires HeapOk(h) && 1 <= size < 0x1_0000_0000
    ensures size >= 0x1_0000_0000 - 48 ==> MallocBlocks(h, size, p, q).Ret?
    ensures MallocBlocks(h, size, p, q).Ret? ==>
      (InPages(MallocBlocks(h, size, p, q).value) <==> size < 0x1_0000_0000 - 48)
  {
    OnePageGuard(size);
    if size < 0x1_0000_0000 - 48 {
      SmallRequests(h, size, p, q);
      if MallocBlocks(h, size, p, q).Ret? {
        AcceptedInPages(h, size, p);
      }
    } else {
      LargeRequests(h, size, p, q);
    }
  }

  lemma AcceptedInPages(h: Heap, size: nat, p: nat)
    requires HeapOk(h) && 1 <= size && (NeedsPage(h, size) ==> size <= 4048)
    ensures InPages(AfterMalloc(h, size, p).blocks)
  {
    if NeedsPage(h, size) {
      FreshBlockOk(p, size);
    } else {
      var i := TargetBlock(h, size);
      WithChunkOk(h.blocks[i], TargetGap(h, size), size);
    }
  }

  lemma LargeRequests(h: Heap, size: nat, p: nat, q: nat)
    requires HeapOk(h) && 0x1_0000_0000 - 48 <= size < 0x1_0000_0000
    ensures MallocBlocks(h, size, p, q).Ret? && !InPages(MallocBlocks(h, size, p, q).value)
  {
    OnePageGuard(size);
    var n := Searched(size);
    var blocks := MallocBlocks(h, size, p, q).value;
    if h.blocks != [] && !NeedsPage(h, n) {
      PageBoundsSize(blocks[TargetBlock(h, n)], TargetGap(h, n));
    } else {
      PageBoundsSize(blocks[|blocks| - 1], 0);
    }
  }

  /**
   * The blocks after each of the large requests.  Up to 2^32 - 24 they look too large for any
   * block, also for the first page of all, and get a page; from there on they look like n bytes,
   * n < 0, and go to where the search for n leads.
   */
  lemma LargeRequestsGo(h: Heap, size: nat, p: nat, q: nat)
    requires HeapOk(h) && 0x1_0000_0000 - 48 <= size < 0x1_0000_0000
    ensures size < 0x1_0000_0000 - 24 ==>
      MallocBlocks(h, size, p, q) ==
        Ret(if h.blocks == [] then [Block(p, []), FreshBlock(q, size)] else h.blocks + [FreshBlock(p, size)])
    ensures size >= 0x1_0000_0000 - 24 ==>
      var n := size - 0x1_0000_0000;
      var i, j := TargetBlock(h, n), TargetGap(h, n);
      MallocBlocks(h, size, p, q) ==
        Ret(if i < |h.blocks| then h.blocks[i := WithChunk(h.blocks[i], j, size)]
            else h.blocks + [FreshBlock(p, size)])
  {
    hide Search, FirstGap;
    OnePageGuard(size);
    var n := Searched(size);
    if size < 0x1_0000_0000 - 24 {
      assert n == size;
      if h.blocks != [] && !NeedsPage(h, n) {
        TargetFits(h, n);
      }
    } else {
      assert n == size - 0x1_0000_0000;
      assert h.blocks == [] ==> h.blocks + [FreshBlock(p, size)] == [FreshBlock(p, size)];
    }
  }

  lemma TargetFits(h: Heap, n: int)
    requires HeapOk(h) && TargetBlock(h, n) < |h.blocks|
    ensures n <= 4048
  {
    var b, j := h.blocks[TargetBlock(h, n)], TargetGap(h, n);
    NoGapExceedsFree(b, j);
    assert FreeBytes(b) <= 4072;
  }

  /** The largest request of all is put into the first gap of 23 bytes, without asking the guard. */
  lemma LargestRequest(h: Heap, p: nat, q: nat)
    requires HeapOk(h) && h.blocks != []
    ensures var i, j := TargetBlock(h, -1), TargetGap(h, -1);
      MallocBlocks(h, 0xffff_ffff, p, q) ==
        if i < |h.blocks| then Ret(h.blocks[i := WithChunk(h.blocks[i], j, 0xffff_ffff)])
        else Ret(h.blocks + [FreshBlock(p, 0xffff_ffff)])
    ensures TargetBlock(h, -1) < |h.blocks| <==>
      exists i, j: nat :: 0 <= i < |h.blocks| && j <= |h.blocks[i].chunks|
        && GapEnd(h.blocks[i], j) - GapStart(h.blocks[i], j) >= 23
  {
    hide Search, FirstGap;
    OnePageGuard(0xffff_ffff);
    SearchComplete(h, -1);
    assert forall i, j: nat :: 0 <= i < |h.blocks| && j <= |h.blocks[i].chunks| ==>
      (Fits(h.blocks[i], j, -1) <==> GapEnd(h.blocks[i], j) - GapStart(h.blocks[i], j) >= 23);
  }
}
