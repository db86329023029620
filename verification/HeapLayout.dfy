/**
 * What the lists of liballoc (mm/liballoc.cpp) say: a heap is a sequence of blocks (majors,
 * one page each) that hold chunks (minors) in address order.  Both headers take 24 bytes.
 */
module HeapLayout {
  import opened Common
  import opened StaticVectors

  datatype Chunk = Chunk(addr: nat, size: nat) // addr is where the header lies

  datatype Block = Block(base: nat, chunks: seq<Chunk>)

  /** The blocks in list order and the base of the cached start block, 0 for none. */
  datatype Heap = Heap(blocks: seq<Block>, bet: nat)

  function EndOf(c: Chunk): nat {
    c.addr + 24 + c.size
  }

  /** Gap j of a block lies before chunk j; the last gap ends with the page. */
  function GapStart(b: Block, j: nat): nat
    requires j <= |b.chunks|
  {
    if j == 0 then b.base + 24 else EndOf(b.chunks[j - 1])
  }

  function GapEnd(b: Block, j: nat): nat
    requires j <= |b.chunks|
  {
    if j == |b.chunks| then b.base + 4096 else b.chunks[j].addr
  }

  predicate Fits(b: Block, j: nat, n: int)
    requires j <= |b.chunks|
  {
    GapEnd(b, j) - GapStart(b, j) >= n + 24
  }

  /** Chunks are in address order, do not overlap and stay inside the page, after its header. */
  ghost predicate BlockOk(b: Block) {
    && (forall j :: 0 <= j <= |b.chunks| ==> GapStart(b, j) <= GapEnd(b, j))
    && (forall j :: 0 <= j < |b.chunks| ==> b.chunks[j].size >= 1)
  }

  ghost predicate IsPage(base: nat) {
    0x40_0000 <= base < 0x80_0000 && base % 4096 == 0
  }

  ghost predicate BlocksOk(blocks: seq<Block>) {
    && (forall i :: 0 <= i < |blocks| ==> BlockOk(blocks[i]) && IsPage(blocks[i].base) && blocks[i].chunks != [])
    && (forall i, j :: 0 <= i < j < |blocks| ==> blocks[i].base != blocks[j].base)
  }

  ghost predicate HasBase(blocks: seq<Block>, base: nat) {
    exists i :: 0 <= i < |blocks| && blocks[i].base == base
  }

  ghost predicate HeapOk(h: Heap) {
    BlocksOk(h.blocks) && (h.bet == 0 || HasBase(h.blocks, h.bet))
  }

  // ---------- accounting ----------

  function Used(chunks: seq<Chunk>): nat {
    if chunks == [] then 0 else chunks[0].size + 24 + Used(chunks[1..])
  }

  lemma {:induction false} UsedConcat(a: seq<Chunk>, b: seq<Chunk>)
    ensures Used(a + b) == Used(a) + Used(b)
  {
    if a == [] {
      assert a + b == b;
    } else {
      UsedConcat(a[1..], b);
      assert (a + b)[1..] == a[1..] + b;
    }
  }

  lemma UsedInsert(cs: seq<Chunk>, j: nat, c: Chunk)
    requires j <= |cs|
    ensures Used(cs[..j] + [c] + cs[j..]) == Used(cs) + c.size + 24
  {
    hide Used;
    UsedConcat(cs[..j] + [c], cs[j..]);
    UsedConcat(cs[..j], [c]);
    UsedConcat(cs[..j], cs[j..]);
    assert cs[..j] + cs[j..] == cs;
    UsedOne(c);
  }

  lemma UsedOne(c: Chunk)
    ensures Used([c]) == c.size + 24
  {
    assert [c][1..] == [];
  }

  lemma UsedRemove(cs: seq<Chunk>, j: nat)
    requires j < |cs|
    ensures Used(cs[..j] + cs[j + 1..]) == Used(cs) - cs[j].size - 24
  {
    UsedConcat(cs[..j], cs[j..]);
    UsedConcat(cs[..j], cs[j + 1..]);
    assert cs[..j] + cs[j..] == cs;
    assert cs[j..][1..] == cs[j + 1..];
  }

  /** Bytes of the page that no header and no payload occupies (size - usage in the source). */
  function FreeBytes(b: Block): int {
    4096 - 24 - Used(b.chunks)
  }

  function GapSum(b: Block, k: nat): int
    requires k <= |b.chunks| + 1
  {
    if k == 0 then 0 else GapSum(b, k - 1) + GapEnd(b, k - 1) - GapStart(b, k - 1)
  }

  lemma {:induction false} GapPrefix(b: Block, k: nat)
    requires k <= |b.chunks|
    ensures GapSum(b, k) + Used(b.chunks[..k]) == if k == 0 then 0 else GapStart(b, k) - b.base - 24
  {
    if k > 0 {
      GapPrefix(b, k - 1);
      UsedConcat(b.chunks[..k - 1], [b.chunks[k - 1]]);
      assert b.chunks[..k] == b.chunks[..k - 1] + [b.chunks[k - 1]];
    }
  }

  /** The gaps of a block add up to its free bytes. */
  lemma GapsAddUp(b: Block)
    ensures GapSum(b, |b.chunks| + 1) == FreeBytes(b)
  {
    var k := |b.chunks|;
    GapPrefix(b, k);
    assert b.chunks[..k] == b.chunks;
  }

  lemma {:induction false} GapInSum(b: Block, j: nat, k: nat)
    requires BlockOk(b) && j < k <= |b.chunks| + 1
    ensures 0 <= GapEnd(b, j) - GapStart(b, j) <= GapSum(b, k)
    decreases k
  {
    if j < k - 1 {
      GapInSum(b, j, k - 1);
    } else {
      GapSumNonNegative(b, j);
    }
  }

  lemma {:induction false} GapSumNonNegative(b: Block, k: nat)
    requires BlockOk(b) && k <= |b.chunks| + 1
    ensures GapSum(b, k) >= 0
  {
    if k > 0 {
      GapSumNonNegative(b, k - 1);
    }
  }

  /** So the first filter of malloc is sound: too few free bytes means no gap is big enough. */
  lemma NoGapExceedsFree(b: Block, j: nat)
    requires BlockOk(b) && j <= |b.chunks|
    ensures 0 <= GapEnd(b, j) - GapStart(b, j) <= FreeBytes(b)
  {
    GapInSum(b, j, |b.chunks| + 1);
    GapsAddUp(b);
  }

  // ---------- the search of malloc ----------

  /** First gap from j on that takes n bytes and a header, -1 when there is none. */
  function FirstGap(b: Block, n: int, j: nat): (k: int)
    requires j <= |b.chunks| + 1
    ensures k == -1 || j <= k <= |b.chunks|
    ensures k >= 0 ==> Fits(b, k, n)
    ensures forall m: nat :: j <= m <= |b.chunks| && (k == -1 || m < k) ==> !Fits(b, m, n)
    decreases |b.chunks| + 1 - j
  {
    if j == |b.chunks| + 1 then -1
    else if Fits(b, j, n) then j
    else FirstGap(b, n, j + 1)
  }

  lemma FrontFits(b: Block, n: int)
    ensures Fits(b, 0, n) ==> FirstGap(b, n, 0) == 0
  {
  }

  lemma TooFewFreeBytes(b: Block, n: int)
    requires BlockOk(b) && FreeBytes(b) < n + 24
    ensures FirstGap(b, n, 0) == -1
  {
    var j := FirstGap(b, n, 0);
    if j >= 0 {
      NoGapExceedsFree(b, j);
    }
  }

  function Bases(blocks: seq<Block>): (s: seq<nat>)
    ensures |s| == |blocks| && forall k :: 0 <= k < |blocks| ==> s[k] == blocks[k].base
  {
    seq(|blocks|, i requires 0 <= i < |blocks| => blocks[i].base)
  }

  function Addrs(chunks: seq<Chunk>): (s: seq<nat>)
    ensures |s| == |chunks| && forall k :: 0 <= k < |chunks| ==> s[k] == chunks[k].addr
  {
    seq(|chunks|, i requires 0 <= i < |chunks| => chunks[i].addr)
  }

  function IndexOf(blocks: seq<Block>, base: nat): (i: nat)
    ensures i <= |blocks|
    ensures i < |blocks| ==> blocks[i].base == base
    ensures forall k :: 0 <= k < i ==> blocks[k].base != base
  {
    Position(Bases(blocks), base)
  }

  /** Outcome of a scan: a block index (the number of blocks when none fits) and the new best bet. */
  datatype Found = Found(block: nat, bet: nat, best: int)

  /** One step of the best-bet bookkeeping: a block with more free bytes becomes the bet. */
  function Bet(b: Block, bet: nat, best: int): (nat, int) {
    if best < FreeBytes(b) then (b.base, FreeBytes(b)) else (bet, best)
  }

  /** The walk over the majors from i to the end of the list. */
  function Scan(blocks: seq<Block>, i: nat, n: int, bet: nat, best: int): (f: Found)
    requires i <= |blocks|
    ensures i <= f.block <= |blocks|
    ensures forall k :: i <= k < f.block ==> FirstGap(blocks[k], n, 0) == -1
    ensures f.block < |blocks| ==> FirstGap(blocks[f.block], n, 0) != -1
    ensures f.best >= best
    decreases |blocks| - i
  {
    if i == |blocks| then Found(i, bet, best)
    else
      var (bet', best') := Bet(blocks[i], bet, best);
      if FirstGap(blocks[i], n, 0) != -1 then Found(i, bet', best')
      else Scan(blocks, i + 1, n, bet', best')
  }

  /** Where malloc starts: at the best bet when that has more than enough room, else at the root. */
  function StartAtBet(h: Heap, n: int): bool {
    h.bet != 0 && IndexOf(h.blocks, h.bet) < |h.blocks|
    && FreeBytes(h.blocks[IndexOf(h.blocks, h.bet)]) > n + 24
  }

  function BestSize(h: Heap): int {
    if h.bet != 0 && IndexOf(h.blocks, h.bet) < |h.blocks|
    then FreeBytes(h.blocks[IndexOf(h.blocks, h.bet)]) else 0
  }

  /** The whole search: from the start block to the end, then once more from the root. */
  function Resume(blocks: seq<Block>, i: nat, n: int, bet: nat, best: int, startedBet: bool): Found
    requires i <= |blocks|
  {
    var f := Scan(blocks, i, n, bet, best);
    if f.block == |blocks| && startedBet then Scan(blocks, 0, n, f.bet, f.best) else f
  }

  /** What is left of the search when block i has no room: the next block, the root again, or nothing. */
  function AfterBlock(blocks: seq<Block>, i: nat, n: int, bet: nat, best: int, startedBet: bool): Found
    requires i < |blocks|
  {
    if i + 1 < |blocks| then Resume(blocks, i + 1, n, bet, best, startedBet)
    else if startedBet then Resume(blocks, 0, n, bet, best, false)
    else Found(|blocks|, bet, best)
  }

  /** What one turn of malloc's loop does to the rest of the search. */
  lemma ResumeStep(blocks: seq<Block>, i: nat, n: int, bet: nat, best: int, startedBet: bool)
    requires i < |blocks|
    ensures var (bet', best') := Bet(blocks[i], bet, best);
      Resume(blocks, i, n, bet, best, startedBet) ==
        if FirstGap(blocks[i], n, 0) != -1 then Found(i, bet', best')
        else AfterBlock(blocks, i, n, bet', best', startedBet)
  {
    var (bet', best') := Bet(blocks[i], bet, best);
    if FirstGap(blocks[i], n, 0) == -1 && i + 1 == |blocks| {
      assert Scan(blocks, i + 1, n, bet', best') == Found(|blocks|, bet', best');
    }
  }

  function Search(h: Heap, n: int): (f: Found)
    ensures f.block <= |h.blocks|
  {
    if StartAtBet(h, n) then Resume(h.blocks, IndexOf(h.blocks, h.bet), n, h.bet, BestSize(h), true)
    else Resume(h.blocks, 0, n, h.bet, BestSize(h), false)
  }

  predicate NeedsPage(h: Heap, n: int) {
    TargetBlock(h, n) == |h.blocks|
  }

  /**
   * Search completeness: a page is asked for exactly when no gap of any block (front, between
   * two chunks or tail) takes the request, wherever the search started.
   */
  lemma SearchComplete(h: Heap, n: int)
    requires HeapOk(h)
    ensures NeedsPage(h, n) <==>
      forall i, j: nat :: 0 <= i < |h.blocks| && j <= |h.blocks[i].chunks| ==> !Fits(h.blocks[i], j, n)
  {
    if NeedsPage(h, n) {
      forall i, j: nat | 0 <= i < |h.blocks| && j <= |h.blocks[i].chunks|
        ensures !Fits(h.blocks[i], j, n)
      {
        assert FirstGap(h.blocks[i], n, 0) == -1;
      }
    } else {
      var i := Search(h, n).block;
      assert Fits(h.blocks[i], FirstGap(h.blocks[i], n, 0), n);
    }
  }

  // ---------- malloc and free as functions ----------

  function WithChunk(b: Block, j: nat, n: nat): (b': Block)
    requires j <= |b.chunks|
    ensures b'.base == b.base
  {
    b.(chunks := b.chunks[..j] + [Chunk(GapStart(b, j), n)] + b.chunks[j..])
  }

  function WithoutChunk(b: Block, j: nat): Block
    requires j < |b.chunks|
  {
    b.(chunks := b.chunks[..j] + b.chunks[j + 1..])
  }

  function RemoveAt<T>(s: seq<T>, i: nat): seq<T>
    requires i < |s|
  {
    s[..i] + s[i + 1..]
  }

  function FreshBlock(page: nat, n: nat): (b: Block)
    ensures b.base == page
  {
    Block(page, [Chunk(page + 24, n)])
  }

  /**
   * The best bet when the search ends without a block.  The new page is looked at by the loop,
   * and so becomes the bet, only if the last major passed the free-bytes filter (or was the
   * first page of all).
   */
  function BetWithPage(blocks: seq<Block>, n: nat, f: Found, page: nat): nat {
    if (blocks == [] || FreeBytes(blocks[|blocks| - 1]) >= n + 24) && f.best < 4096 - 24
    then page else f.bet
  }

  /** Where the new chunk goes: the index of its block and its index in that block. */
  function TargetBlock(h: Heap, n: int): (i: nat)
    ensures i <= |h.blocks|
  {
    Search(h, n).block
  }

  function TargetGap(h: Heap, n: int): (j: nat)
    ensures TargetBlock(h, n) < |h.blocks| ==>
      j <= |h.blocks[TargetBlock(h, n)].chunks| && Fits(h.blocks[TargetBlock(h, n)], j, n)
  {
    var i := TargetBlock(h, n);
    if i == |h.blocks| then 0 else FirstGap(h.blocks[i], n, 0)
  }

  /** The heap after malloc(n); page is what the page source returns if it is asked. */
  function AfterMalloc(h: Heap, n: nat, page: nat): Heap {
    var i := TargetBlock(h, n);
    if i == |h.blocks| then
      Heap(h.blocks + [FreshBlock(page, n)], BetWithPage(h.blocks, n, Search(h, n), page))
    else
      Heap(h.blocks[i := WithChunk(h.blocks[i], TargetGap(h, n), n)], Search(h, n).bet)
  }

  /** The pointer malloc(n) returns. */
  function MallocPtr(h: Heap, n: nat, page: nat): (p: nat)
    ensures p >= 24
  {
    var i := TargetBlock(h, n);
    if i == |h.blocks| then page + 48 else GapStart(h.blocks[i], TargetGap(h, n)) + 24
  }

  function ChunkIndex(chunks: seq<Chunk>, addr: nat): (j: nat)
    ensures j <= |chunks|
    ensures j < |chunks| ==> chunks[j].addr == addr
    ensures forall k :: 0 <= k < j ==> chunks[k].addr != addr
  {
    Position(Addrs(chunks), addr)
  }

  /** The major and the minor a pointer belongs to: a payload lies in the page of its major. */
  function OwnerOf(h: Heap, p: nat): nat {
    IndexOf(h.blocks, p / 4096 * 4096)
  }

  predicate IsLive(h: Heap, p: nat) {
    var i := OwnerOf(h, p);
    p >= 24 && i < |h.blocks| && ChunkIndex(h.blocks[i].chunks, p - 24) < |h.blocks[i].chunks|
  }

  function LiveIndex(h: Heap, p: nat): (nat, nat)
    requires IsLive(h, p)
  {
    (OwnerOf(h, p), ChunkIndex(h.blocks[OwnerOf(h, p)].chunks, p - 24))
  }

  function SizeAt(h: Heap, p: nat): nat
    requires IsLive(h, p)
  {
    var (i, j) := LiveIndex(h, p);
    h.blocks[i].chunks[j].size
  }

  /** p is the last live payload of its block. */
  predicate EmptiesBlock(h: Heap, p: nat)
    requires IsLive(h, p)
  {
    |h.blocks[LiveIndex(h, p).0].chunks| == 1
  }

  /** free drops a major that became empty; otherwise that major may become the best bet. */
  function AfterFree(h: Heap, p: nat): Heap
    requires IsLive(h, p)
  {
    var (i, j) := LiveIndex(h, p);
    var b := WithoutChunk(h.blocks[i], j);
    if b.chunks == [] then
      Heap(RemoveAt(h.blocks, i), if h.bet == b.base then 0 else h.bet)
    else
      var blocks := h.blocks[i := b];
      Heap(blocks, if h.bet != 0 && FreeBytes(b) > BestSize(Heap(blocks, h.bet)) then b.base else h.bet)
  }

  // ---------- which gap malloc takes ----------

  /** Some gap of the block takes n bytes and a header. */
  ghost predicate HasGap(b: Block, n: int) {
    exists j: nat :: j <= |b.chunks| && GapEnd(b, j) - GapStart(b, j) >= n + 24
  }

  /** Block t is the first from block k on that has such a gap; it is |blocks| if none has. */
  ghost predicate FirstFrom(blocks: seq<Block>, k: nat, n: int, t: nat) {
    && k <= t <= |blocks| && (t < |blocks| ==> HasGap(blocks[t], n))
    && forall i :: k <= i < t ==> !HasGap(blocks[i], n)
  }

  lemma FirstGapIff(b: Block, n: int)
    ensures FirstGap(b, n, 0) != -1 <==> HasGap(b, n)
  {
    var k := FirstGap(b, n, 0);
    if k != -1 {
      assert Fits(b, k, n);
    }
    if j: nat :| j <= |b.chunks| && GapEnd(b, j) - GapStart(b, j) >= n + 24 {
      assert Fits(b, j, n);
    }
  }

  lemma ScanIsFirst(blocks: seq<Block>, k: nat, n: int, bet: nat, best: int)
    requires k <= |blocks|
    ensures FirstFrom(blocks, k, n, Scan(blocks, k, n, bet, best).block)
  {
    forall i: nat | i < |blocks| ensures FirstGap(blocks[i], n, 0) != -1 <==> HasGap(blocks[i], n) {
      FirstGapIff(blocks[i], n);
    }
  }

  /**
   * The block malloc takes: with a best bet of more than n + 24 free bytes the first one with a
   * gap from the bet on, or else the first of all; otherwise the first of all.
   */
  lemma TargetIs(h: Heap, n: int)
    requires HeapOk(h)
    ensures var t, s := TargetBlock(h, n), h.blocks;
      && (forall k: nat :: k < |s| && h.bet == s[k].base && FreeBytes(s[k]) > n + 24 ==>
           if exists i :: k <= i < |s| && HasGap(s[i], n) then FirstFrom(s, k, n, t) && t < |s|
           else FirstFrom(s, 0, n, t))
      && ((forall k :: 0 <= k < |s| && h.bet == s[k].base ==> FreeBytes(s[k]) <= n + 24) ==> FirstFrom(s, 0, n, t))
  {
    hide HasGap, FirstGap, FreeBytes, Scan, BlockOk;
    var s, b := h.blocks, IndexOf(h.blocks, h.bet);
    ScanIsFirst(s, b, n, h.bet, BestSize(h));
    var f := Scan(s, b, n, h.bet, BestSize(h));
    ScanIsFirst(s, 0, n, f.bet, f.best);
    ScanIsFirst(s, 0, n, h.bet, BestSize(h));
    forall k: nat | k < |s| && h.bet == s[k].base ensures k == b && h.bet != 0 {
      assert IsPage(s[k].base);
    }
  }

  /**
   * In that block the header goes to the start of the first gap that is large enough: behind
   * the major's header, or behind the payload before the gap.  No other block changes.
   */
  lemma PlacedAt(h: Heap, n: nat, page: nat)
    requires HeapOk(h)
    ensures var t, s, h', p := TargetBlock(h, n), h.blocks, AfterMalloc(h, n, page), MallocPtr(h, n, page);
      && (forall i :: 0 <= i < |s| && i != t ==> h'.blocks[i] == s[i])
      && if t == |s| then h'.blocks == s + [Block(page, [Chunk(page + 24, n)])] && p == page + 48
         else
           |h'.blocks| == |s| && h'.blocks[t].base == s[t].base
           && exists j: nat :: j <= |s[t].chunks| && GapEnd(s[t], j) - GapStart(s[t], j) >= n + 24
                && (forall i: nat :: i < j ==> GapEnd(s[t], i) - GapStart(s[t], i) < n + 24)
                && p == if j == 0 then s[t].base + 48 else s[t].chunks[j - 1].addr + 24 + s[t].chunks[j - 1].size + 24
  {
    hide Search, FreeBytes, BlockOk;
    var t, s := TargetBlock(h, n), h.blocks;
    if t < |s| {
      var j := TargetGap(h, n);
      FirstGapFits(s[t], n);
      assert forall i: nat :: i < j ==> !Fits(s[t], i, n);
      assert GapStart(s[t], j) ==
        if j == 0 then s[t].base + 24 else s[t].chunks[j - 1].addr + 24 + s[t].chunks[j - 1].size;
    }
  }

  lemma FirstGapFits(b: Block, n: int)
    ensures forall i: nat :: i <= |b.chunks| ==> (Fits(b, i, n) <==> GapEnd(b, i) - GapStart(b, i) >= n + 24)
  {
  }

  // ---------- what they keep ----------

  /** Adding a chunk at the start of a gap that takes it keeps the block in order. */
  lemma WithChunkOk(b: Block, j: nat, n: nat)
    requires BlockOk(b) && j <= |b.chunks| && Fits(b, j, n) && n >= 1
    ensures BlockOk(WithChunk(b, j, n))
    ensures FreeBytes(WithChunk(b, j, n)) == FreeBytes(b) - n - 24
  {
    var b' := WithChunk(b, j, n);
    UsedInsert(b.chunks, j, Chunk(GapStart(b, j), n));
    forall k | 0 <= k <= |b'.chunks|
      ensures GapStart(b', k) <= GapEnd(b', k)
    {
      if k < j {
        assert GapStart(b', k) == GapStart(b, k) && GapEnd(b', k) == GapEnd(b, k);
      } else if k == j {
        assert GapStart(b', k) == GapStart(b, j) == GapEnd(b', k);
      } else if k == j + 1 {
        assert GapEnd(b', k) == GapEnd(b, j);
      } else {
        assert GapStart(b', k) == GapStart(b, k - 1) && GapEnd(b', k) == GapEnd(b, k - 1);
      }
    }
  }

  lemma WithoutChunkOk(b: Block, j: nat)
    requires BlockOk(b) && j < |b.chunks|
    ensures BlockOk(WithoutChunk(b, j))
    ensures FreeBytes(WithoutChunk(b, j)) == FreeBytes(b) + b.chunks[j].size + 24
  {
    var b' := WithoutChunk(b, j);
    UsedRemove(b.chunks, j);
    forall k | 0 <= k <= |b'.chunks|
      ensures GapStart(b', k) <= GapEnd(b', k)
    {
      if k < j {
        assert GapStart(b', k) == GapStart(b, k) && GapEnd(b', k) == GapEnd(b, k);
      } else if k == j {
        assert GapStart(b', k) == GapStart(b, j) && GapEnd(b', k) == GapEnd(b, j + 1);
        assert GapStart(b, j) <= GapEnd(b, j) && GapStart(b, j + 1) <= GapEnd(b, j + 1);
      } else {
        assert GapStart(b', k) == GapStart(b, k + 1) && GapEnd(b', k) == GapEnd(b, k + 1);
      }
    }
  }

  lemma {:induction false} ScanBet(blocks: seq<Block>, i: nat, n: int, bet: nat, best: int)
    requires i <= |blocks|
    ensures Scan(blocks, i, n, bet, best).bet == bet || HasBase(blocks, Scan(blocks, i, n, bet, best).bet)
    decreases |blocks| - i
  {
    if i < |blocks| {
      var (bet', best') := Bet(blocks[i], bet, best);
      ScanBet(blocks, i + 1, n, bet', best');
    }
  }

  lemma SearchBet(h: Heap, n: int)
    requires HeapOk(h)
    ensures Search(h, n).bet == 0 || HasBase(h.blocks, Search(h, n).bet)
  {
    var start := if StartAtBet(h, n) then IndexOf(h.blocks, h.bet) else 0;
    ScanBet(h.blocks, start, n, h.bet, BestSize(h));
    var f := Scan(h.blocks, start, n, h.bet, BestSize(h));
    ScanBet(h.blocks, 0, n, f.bet, f.best);
  }

  lemma FreshBlockOk(page: nat, n: nat)
    requires 1 <= n <= 4048
    ensures BlockOk(FreshBlock(page, n))
  {
  }

  /** malloc keeps the heap well formed. */
  lemma MallocKeepsHeap(h: Heap, n: nat, page: nat)
    requires HeapOk(h) && 1 <= n <= 4048
    requires NeedsPage(h, n) ==> IsPage(page) && !HasBase(h.blocks, page)
    ensures HeapOk(AfterMalloc(h, n, page))
  {
    var i := TargetBlock(h, n);
    var h' := AfterMalloc(h, n, page);
    SearchBet(h, n);
    if i == |h.blocks| {
      FreshBlockOk(page, n);
      assert h'.blocks[i].base == page;
    } else {
      WithChunkOk(h.blocks[i], TargetGap(h, n), n);
    }
    KeepBases(h.blocks, h'.blocks, Search(h, n).bet);
  }

  lemma KeepBases(blocks: seq<Block>, blocks': seq<Block>, base: nat)
    requires |blocks| <= |blocks'| && forall i :: 0 <= i < |blocks| ==> blocks'[i].base == blocks[i].base
    requires HasBase(blocks, base) || base == 0
    ensures HasBase(blocks', base) || base == 0
  {
    if base != 0 {
      var i :| 0 <= i < |blocks| && blocks[i].base == base;
      assert blocks'[i].base == base;
    }
  }

  /** free of a live pointer keeps the heap well formed. */
  lemma FreeKeepsHeap(h: Heap, p: nat)
    requires HeapOk(h) && IsLive(h, p)
    ensures HeapOk(AfterFree(h, p))
  {
    var (i, j) := LiveIndex(h, p);
    WithoutChunkOk(h.blocks[i], j);
    if |h.blocks[i].chunks| == 1 {
      BlockRemovedOk(h, i);
    } else {
      BlockReplacedOk(h, i, WithoutChunk(h.blocks[i], j));
    }
  }

  lemma BlockRemovedOk(h: Heap, i: nat)
    requires HeapOk(h) && i < |h.blocks|
    ensures HeapOk(Heap(RemoveAt(h.blocks, i), if h.bet == h.blocks[i].base then 0 else h.bet))
  {
    var blocks := RemoveAt(h.blocks, i);
    if h.bet != 0 && h.bet != h.blocks[i].base {
      var k :| 0 <= k < |h.blocks| && h.blocks[k].base == h.bet;
      assert blocks[if k < i then k else k - 1].base == h.bet;
    }
  }

  lemma BlockReplacedOk(h: Heap, i: nat, b: Block)
    requires HeapOk(h) && i < |h.blocks|
    requires BlockOk(b) && b.base == h.blocks[i].base && b.chunks != []
    ensures HeapOk(Heap(h.blocks[i := b], h.bet)) && HeapOk(Heap(h.blocks[i := b], b.base))
  {
    KeepBases(h.blocks, h.blocks[i := b], h.bet);
    assert h.blocks[i := b][i].base == b.base;
  }

  // ---------- live payloads ----------

  lemma {:induction false} ChunkOrder(b: Block, j: nat, k: nat)
    requires BlockOk(b) && j < k < |b.chunks|
    ensures EndOf(b.chunks[j]) <= b.chunks[k].addr
    decreases k
  {
    assert GapStart(b, k) <= GapEnd(b, k);
    if j < k - 1 {
      ChunkOrder(b, j, k - 1);
    }
  }

  lemma {:induction false} ChunkBounds(b: Block, j: nat)
    requires BlockOk(b) && j < |b.chunks|
    ensures b.base + 24 <= b.chunks[j].addr
    ensures EndOf(b.chunks[j]) <= b.base + 4096
  {
    assert GapStart(b, 0) <= GapEnd(b, 0);
    assert GapStart(b, |b.chunks|) <= GapEnd(b, |b.chunks|);
    if j > 0 {
      ChunkOrder(b, 0, j);
    }
    if j < |b.chunks| - 1 {
      ChunkOrder(b, j, |b.chunks| - 1);
    }
  }

  lemma ChunkIndexOf(b: Block, j: nat)
    requires BlockOk(b) && j < |b.chunks|
    ensures ChunkIndex(b.chunks, b.chunks[j].addr) == j
  {
    var k := ChunkIndex(b.chunks, b.chunks[j].addr);
    if k < j {
      ChunkOrder(b, k, j);
    }
  }

  lemma IndexOfBase(blocks: seq<Block>, i: nat)
    requires BlocksOk(blocks) && i < |blocks|
    ensures IndexOf(blocks, blocks[i].base) == i
  {
    var k := IndexOf(blocks, blocks[i].base);
    assert k <= i;
  }

  lemma PageOfAddress(base: nat, p: nat)
    requires base % 4096 == 0 && base <= p < base + 4096
    ensures p / 4096 * 4096 == base
  {
  }

  /** Every minor is found again from the pointer handed out for it, and its bytes are in its page. */
  lemma PointerFindsChunk(h: Heap, i: nat, j: nat)
    requires HeapOk(h) && i < |h.blocks| && j < |h.blocks[i].chunks|
    ensures var b := h.blocks[i];
      var p := b.chunks[j].addr + 24;
      && IsLive(h, p) && LiveIndex(h, p) == (i, j)
      && b.base + 48 <= p && p + b.chunks[j].size <= b.base + 4096
  {
    var b := h.blocks[i];
    ChunkBounds(b, j);
    ChunkIndexOf(b, j);
    IndexOfBase(h.blocks, i);
    PageOfAddress(b.base, b.chunks[j].addr + 24);
  }

  lemma LiveBounds(h: Heap, p: nat)
    requires HeapOk(h) && IsLive(h, p)
    ensures var (i, j) := LiveIndex(h, p);
      && h.blocks[i].chunks[j].addr + 24 == p
      && SizeAt(h, p) >= 1
      && h.blocks[i].base + 48 <= p && p + SizeAt(h, p) <= h.blocks[i].base + 4096
      && h.blocks[i].base == p / 4096 * 4096
  {
    var (i, j) := LiveIndex(h, p);
    PointerFindsChunk(h, i, j);
  }

  /** Live regions, header included, are pairwise disjoint and hold no byte of a major header. */
  lemma LiveRegionsDisjoint(h: Heap, p: nat, q: nat)
    requires HeapOk(h) && IsLive(h, p) && IsLive(h, q) && p != q
    ensures p + SizeAt(h, p) <= q - 24 || q + SizeAt(h, q) <= p - 24
    ensures forall i :: 0 <= i < |h.blocks| ==>
      p + SizeAt(h, p) <= h.blocks[i].base || h.blocks[i].base + 24 <= p - 24
  {
    LiveBounds(h, p);
    LiveBounds(h, q);
    var (i, j) := LiveIndex(h, p);
    var (k, l) := LiveIndex(h, q);
    if i == k {
      if j < l { ChunkOrder(h.blocks[i], j, l); } else if l < j { ChunkOrder(h.blocks[i], l, j); }
    } else {
      PagesApart(h.blocks[i].base, h.blocks[k].base);
    }
    forall m | 0 <= m < |h.blocks|
      ensures p + SizeAt(h, p) <= h.blocks[m].base || h.blocks[m].base + 24 <= p - 24
    {
      if m != i {
        assert h.blocks[m].base != h.blocks[i].base;
        PagesApart(h.blocks[i].base, h.blocks[m].base);
      }
    }
  }

  lemma PagesApart(a: nat, b: nat)
    requires a % 4096 == 0 && b % 4096 == 0 && a != b
    ensures a + 4096 <= b || b + 4096 <= a
  {
  }

  /** h' is h with one chunk more, at index j of block i (a block of its own when i is past the end). */
  ghost predicate OneMore(h: Heap, h': Heap, i: nat, j: nat) {
    && i < |h'.blocks| && j < |h'.blocks[i].chunks|
    && (forall k :: 0 <= k < |h.blocks| && k != i ==> k < |h'.blocks| && h'.blocks[k] == h.blocks[k])
    && (if i < |h.blocks| then
          |h'.blocks| == |h.blocks| && h'.blocks[i].base == h.blocks[i].base
          && RemoveAt(h'.blocks[i].chunks, j) == h.blocks[i].chunks
        else |h'.blocks| == |h.blocks| + 1 && i == |h.blocks| && |h'.blocks[i].chunks| == 1)
  }

  lemma CarriesOver(h: Heap, h': Heap, i: nat, j: nat, q: nat)
    requires HeapOk(h) && HeapOk(h') && OneMore(h, h', i, j) && IsLive(h, q)
    ensures IsLive(h', q) && SizeAt(h', q) == SizeAt(h, q)
    ensures LiveIndex(h', q) != (i, j)
  {
    LiveBounds(h, q);
    var (k, l) := LiveIndex(h, q);
    var l' := if k == i && l >= j then l + 1 else l;
    assert h'.blocks[k].chunks[l'] == h.blocks[k].chunks[l];
    PointerFindsChunk(h', k, l');
  }

  lemma CarriesBack(h: Heap, h': Heap, i: nat, j: nat, q: nat)
    requires HeapOk(h) && HeapOk(h') && OneMore(h, h', i, j) && IsLive(h', q)
    requires LiveIndex(h', q) != (i, j)
    ensures IsLive(h, q) && SizeAt(h, q) == SizeAt(h', q)
  {
    LiveBounds(h', q);
    var (k, l) := LiveIndex(h', q);
    var l' := if k == i && l > j then l - 1 else l;
    assert h.blocks[k].chunks[l'] == h'.blocks[k].chunks[l];
    PointerFindsChunk(h, k, l');
  }

  /** What one more chunk does to the live payloads. */
  ghost predicate AddsPayload(h: Heap, h': Heap, p: nat, n: nat) {
    && !IsLive(h, p) && IsLive(h', p) && SizeAt(h', p) == n
    && forall q: nat :: q != p ==>
      (IsLive(h', q) <==> IsLive(h, q)) && (IsLive(h, q) ==> SizeAt(h', q) == SizeAt(h, q))
  }

  lemma OneMoreAdds(h: Heap, h': Heap, i: nat, j: nat, p: nat, n: nat)
    requires HeapOk(h) && HeapOk(h') && OneMore(h, h', i, j)
    requires p >= 24 && h'.blocks[i].chunks[j] == Chunk(p - 24, n)
    ensures AddsPayload(h, h', p, n)
  {
    hide HeapOk, IsLive;
    PointerFindsChunk(h', i, j);
    if IsLive(h, p) {
      CarriesOver(h, h', i, j, p);
    }
    forall q: nat | q != p
      ensures (IsLive(h', q) <==> IsLive(h, q)) && (IsLive(h, q) ==> SizeAt(h', q) == SizeAt(h, q))
    {
      OneMoreElsewhere(h, h', i, j, p, q);
    }
  }

  lemma OneMoreElsewhere(h: Heap, h': Heap, i: nat, j: nat, p: nat, q: nat)
    requires HeapOk(h) && HeapOk(h') && OneMore(h, h', i, j) && q != p
    requires p >= 24 && h'.blocks[i].chunks[j].addr == p - 24
    ensures (IsLive(h', q) <==> IsLive(h, q)) && (IsLive(h, q) ==> SizeAt(h', q) == SizeAt(h, q))
  {
    hide HeapOk, IsLive, SizeAt;
    if IsLive(h, q) {
      CarriesOver(h, h', i, j, q);
    }
    if IsLive(h', q) {
      LiveBounds(h', q);
      CarriesBack(h, h', i, j, q);
    }
  }

  lemma InsertThenRemove<T>(s: seq<T>, j: nat, x: T)
    requires j <= |s|
    ensures RemoveAt(s[..j] + [x] + s[j..], j) == s
  {
  }

  lemma MallocIsOneMore(h: Heap, n: nat, page: nat)
    ensures OneMore(h, AfterMalloc(h, n, page), TargetBlock(h, n), TargetGap(h, n))
    ensures AfterMalloc(h, n, page).blocks[TargetBlock(h, n)].chunks[TargetGap(h, n)]
         == Chunk(MallocPtr(h, n, page) - 24, n)
  {
    var i, j := TargetBlock(h, n), TargetGap(h, n);
    if i < |h.blocks| {
      InsertThenRemove(h.blocks[i].chunks, j, Chunk(GapStart(h.blocks[i], j), n));
    }
  }

  /** malloc adds exactly one live payload, of the size asked for, and changes no other. */
  lemma MallocAddsOne(h: Heap, n: nat, page: nat)
    requires HeapOk(h) && 1 <= n <= 4048
    requires NeedsPage(h, n) ==> IsPage(page) && !HasBase(h.blocks, page)
    ensures HeapOk(AfterMalloc(h, n, page))
    ensures AddsPayload(h, AfterMalloc(h, n, page), MallocPtr(h, n, page), n)
  {
    MallocKeepsHeap(h, n, page);
    MallocIsOneMore(h, n, page);
    OneMoreAdds(h, AfterMalloc(h, n, page), TargetBlock(h, n), TargetGap(h, n), MallocPtr(h, n, page), n);
  }

  lemma FreeLists(h: Heap, p: nat)
    requires HeapOk(h) && IsLive(h, p)
    ensures var (i, j) := LiveIndex(h, p);
      && h.blocks[i].chunks[j] == Chunk(p - 24, SizeAt(h, p))
      && if |h.blocks[i].chunks| > 1 then OneMore(AfterFree(h, p), h, i, j)
         else j == 0 && AfterFree(h, p).blocks == RemoveAt(h.blocks, i)
  {
    LiveBounds(h, p);
  }

  /** free removes exactly the payload it is given and changes no other. */
  lemma FreeRemovesOne(h: Heap, p: nat)
    requires HeapOk(h) && IsLive(h, p)
    ensures HeapOk(AfterFree(h, p))
    ensures AddsPayload(AfterFree(h, p), h, p, SizeAt(h, p))
  {
    FreeKeepsHeap(h, p);
    FreeLists(h, p);
    var (i, j) := LiveIndex(h, p);
    var h' := AfterFree(h, p);
    if |h.blocks[i].chunks| > 1 {
      OneMoreAdds(h', h, i, j, p, SizeAt(h, p));
    } else {
      BlockDropped(h, h', i, p);
    }
  }

  lemma BlockDropped(h: Heap, h': Heap, i: nat, p: nat)
    requires HeapOk(h) && HeapOk(h') && IsLive(h, p)
    requires LiveIndex(h, p) == (i, 0) && |h.blocks[i].chunks| == 1
    requires h'.blocks == RemoveAt(h.blocks, i)
    ensures AddsPayload(h', h, p, SizeAt(h, p))
  {
    if IsLive(h', p) {
      DroppedBack(h, h', i, p);
    }
    forall q: nat | q != p
      ensures IsLive(h, q) <==> IsLive(h', q)
      ensures IsLive(h', q) ==> SizeAt(h, q) == SizeAt(h', q)
    {
      if IsLive(h, q) {
        LiveBounds(h, p);
        LiveBounds(h, q);
        DroppedOver(h, h', i, q);
      }
      if IsLive(h', q) {
        DroppedBack(h, h', i, q);
      }
    }
  }

  lemma DroppedBack(h: Heap, h': Heap, i: nat, q: nat)
    requires HeapOk(h) && HeapOk(h') && i < |h.blocks| && h'.blocks == RemoveAt(h.blocks, i)
    requires IsLive(h', q)
    ensures IsLive(h, q) && SizeAt(h, q) == SizeAt(h', q) && LiveIndex(h, q).0 != i
  {
    LiveBounds(h', q);
    var (k, l) := LiveIndex(h', q);
    var k' := if k < i then k else k + 1;
    assert h.blocks[k'] == h'.blocks[k];
    PointerFindsChunk(h, k', l);
  }

  lemma DroppedOver(h: Heap, h': Heap, i: nat, q: nat)
    requires HeapOk(h) && HeapOk(h') && i < |h.blocks| && h'.blocks == RemoveAt(h.blocks, i)
    requires IsLive(h, q) && LiveIndex(h, q).0 != i
    ensures IsLive(h', q) && SizeAt(h, q) == SizeAt(h', q)
  {
    LiveBounds(h, q);
    var (k, l) := LiveIndex(h, q);
    var k' := if k < i then k else k - 1;
    assert h'.blocks[k'] == h.blocks[k];
    PointerFindsChunk(h', k', l);
  }

  // ---------- totals ----------

  /** Payload bytes of a block: what its chunks use, less their headers. */
  function Payload(chunks: seq<Chunk>): int {
    Used(chunks) - 24 * |chunks|
  }

  /** l_inuse: the payload bytes of all live minors. */
  function Inuse(blocks: seq<Block>): int {
    if blocks == [] then 0 else Payload(blocks[0].chunks) + Inuse(blocks[1..])
  }

  lemma {:induction false} InuseConcat(a: seq<Block>, b: seq<Block>)
    ensures Inuse(a + b) == Inuse(a) + Inuse(b)
  {
    if a == [] {
      assert a + b == b;
    } else {
      InuseConcat(a[1..], b);
      assert (a + b)[1..] == a[1..] + b;
    }
  }

  lemma InuseSplit(blocks: seq<Block>, i: nat)
    requires i < |blocks|
    ensures Inuse(blocks) == Inuse(blocks[..i]) + Payload(blocks[i].chunks) + Inuse(blocks[i + 1..])
  {
    InuseConcat(blocks[..i], blocks[i..]);
    assert blocks[..i] + blocks[i..] == blocks;
    assert blocks[i..][1..] == blocks[i + 1..];
  }

  lemma InuseUpdate(blocks: seq<Block>, i: nat, b: Block)
    requires i < |blocks|
    ensures Inuse(blocks[i := b]) == Inuse(blocks) - Payload(blocks[i].chunks) + Payload(b.chunks)
  {
    InuseSplit(blocks, i);
    InuseSplit(blocks[i := b], i);
    assert blocks[i := b][..i] == blocks[..i] && blocks[i := b][i + 1..] == blocks[i + 1..];
  }

  /** The running totals follow: malloc adds the size and at most one page. */
  lemma MallocTotals(h: Heap, n: nat, page: nat)
    ensures Inuse(AfterMalloc(h, n, page).blocks) == Inuse(h.blocks) + n
    ensures |AfterMalloc(h, n, page).blocks| == |h.blocks| + if NeedsPage(h, n) then 1 else 0
  {
    var i := TargetBlock(h, n);
    if i == |h.blocks| {
      InuseConcat(h.blocks, [FreshBlock(page, n)]);
      assert Used([Chunk(page + 24, n)]) == n + 24;
      assert Inuse([FreshBlock(page, n)]) == n;
    } else {
      var j := TargetGap(h, n);
      InuseUpdate(h.blocks, i, WithChunk(h.blocks[i], j, n));
      UsedInsert(h.blocks[i].chunks, j, Chunk(GapStart(h.blocks[i], j), n));
    }
  }

  lemma FreeTotals(h: Heap, p: nat)
    requires IsLive(h, p)
    ensures Inuse(AfterFree(h, p).blocks) == Inuse(h.blocks) - SizeAt(h, p)
  {
    var (i, j) := LiveIndex(h, p);
    var cs := h.blocks[i].chunks;
    UsedRemove(cs, j);
    if RemoveAt(cs, j) == [] {
      InuseSplit(h.blocks, i);
      InuseConcat(h.blocks[..i], h.blocks[i + 1..]);
    } else {
      InuseUpdate(h.blocks, i, WithoutChunk(h.blocks[i], j));
    }
  }

  /** No leak: a heap without live payloads has no page, no best bet and both totals zero. */
  lemma NothingLiveNothingHeld(h: Heap)
    requires HeapOk(h) && forall p: nat :: !IsLive(h, p)
    ensures h == Heap([], 0) && Inuse(h.blocks) == 0
  {
    if h.blocks != [] {
      PointerFindsChunk(h, 0, 0);
    }
  }

  /** Freeing what malloc just returned puts every list back as it was. */
  lemma FreeUndoesMalloc(h: Heap, n: nat, page: nat)
    requires HeapOk(h) && 1 <= n <= 4048
    requires NeedsPage(h, n) ==> IsPage(page) && !HasBase(h.blocks, page)
    ensures IsLive(AfterMalloc(h, n, page), MallocPtr(h, n, page))
    ensures AfterFree(AfterMalloc(h, n, page), MallocPtr(h, n, page)).blocks == h.blocks
  {
    hide Search, FirstGap;
    MallocKeepsHeap(h, n, page);
    MallocIsOneMore(h, n, page);
    var h' := AfterMalloc(h, n, page);
    var i, j := TargetBlock(h, n), TargetGap(h, n);
    PointerFindsChunk(h', i, j);
    if i < |h.blocks| {
      assert WithoutChunk(h'.blocks[i], j) == h.blocks[i];
    }
  }
}
