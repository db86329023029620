/**
 * The cached start block of liballoc, l_bestBet (mm/liballoc.cpp), which its comment calls the
 * major with the most free memory: when that is so.
 */
module BestBet {
  import opened Common
  import opened HeapLayout
  import opened Paging
  import opened KernelMemory

  /** There is no best bet, or no block has more free bytes than it. */
  ghost predicate BetIsMost(h: Heap) {
    h.bet == 0 || forall i :: 0 <= i < |h.blocks| ==> FreeBytes(h.blocks[i]) <= BestSize(h)
  }

  lemma BestSizeOf(h: Heap, k: nat)
    requires HeapOk(h) && k < |h.blocks| && h.bet == h.blocks[k].base
    ensures BestSize(h) == FreeBytes(h.blocks[k]) && h.bet != 0
  {
    IndexOfBase(h.blocks, k);
  }

  /** free always keeps it: the freed block is compared, and a bet that leaves is forgotten. */
  lemma FreeKeepsBet(h: Heap, p: nat)
    requires HeapOk(h) && IsLive(h, p) && BetIsMost(h)
    ensures BetIsMost(AfterFree(h, p))
  {
    hide FreeBytes, BlockOk, IsPage;
    FreeKeepsHeap(h, p);
    var (i, j) := LiveIndex(h, p);
    var h' := AfterFree(h, p);
    WithoutChunkOk(h.blocks[i], j);
    if h'.bet != 0 {
      BetStands(h, h', i, j);
    }
  }

  lemma BetStands(h: Heap, h': Heap, i: nat, j: nat)
    requires HeapOk(h) && HeapOk(h') && BetIsMost(h) && h'.bet != 0
    requires i < |h.blocks| && j < |h.blocks[i].chunks|
    requires var b := WithoutChunk(h.blocks[i], j);
      && FreeBytes(b) > FreeBytes(h.blocks[i])
      && if b.chunks == [] then
           h'.blocks == RemoveAt(h.blocks, i) && h'.bet == h.bet && h.bet != b.base
         else
           h'.blocks == h.blocks[i := b] && h.bet != 0
           && h'.bet == if FreeBytes(b) > BestSize(Heap(h'.blocks, h.bet)) then b.base else h.bet
    ensures BetIsMost(h')
  {
    hide FreeBytes, BlockOk, IsPage, HeapOk, BestSize, BetIsMost;
    if WithoutChunk(h.blocks[i], j).chunks == [] {
      BetStandsWithout(h, h', i);
    } else {
      BetStandsWith(h, h', i, WithoutChunk(h.blocks[i], j));
    }
  }

  lemma BetStandsWithout(h: Heap, h': Heap, i: nat)
    requires HeapOk(h) && HeapOk(h') && BetIsMost(h) && h.bet != 0 && i < |h.blocks|
    requires h'.blocks == RemoveAt(h.blocks, i) && h'.bet == h.bet && h.bet != h.blocks[i].base
    ensures BetIsMost(h')
  {
    hide FreeBytes, HeapOk, BestSize;
    BetIndex(h);
    var k := IndexOf(h.blocks, h.bet);
    BestSizeOf(h', if k < i then k else k - 1);
    assert forall m :: 0 <= m < |h'.blocks| ==> h'.blocks[m] == h.blocks[if m < i then m else m + 1];
  }

  lemma BetStandsWith(h: Heap, h': Heap, i: nat, b: Block)
    requires HeapOk(h) && HeapOk(h') && BetIsMost(h) && h.bet != 0 && i < |h.blocks|
    requires b.base == h.blocks[i].base && FreeBytes(b) > FreeBytes(h.blocks[i]) && h'.blocks == h.blocks[i := b]
    requires h'.bet == if FreeBytes(b) > BestSize(Heap(h'.blocks, h.bet)) then b.base else h.bet
    ensures BetIsMost(h')
  {
    hide FreeBytes, BestSize, BlockOk;
    BetIndex(h);
    var k := IndexOf(h.blocks, h.bet);
    assert h'.blocks[k].base == h.bet && h'.blocks[i].base == b.base;
    assert HeapOk(Heap(h'.blocks, h.bet));
    BestSizeOf(Heap(h'.blocks, h.bet), k);
    BestSizeOf(h', if h'.bet == h.bet then k else i);
    assert FreeBytes(h'.blocks[k]) >= FreeBytes(h.blocks[k]);
    assert h' == Heap(h'.blocks, h'.bet);
    forall m | 0 <= m < |h'.blocks| ensures FreeBytes(h'.blocks[m]) <= BestSize(h') {
      assert m != i ==> FreeBytes(h'.blocks[m]) <= FreeBytes(h.blocks[k]);
    }
  }

  lemma BetIndex(h: Heap)
    requires HeapOk(h) && h.bet != 0
    ensures var k := IndexOf(h.blocks, h.bet);
      k < |h.blocks| && h.blocks[k].base == h.bet && BestSize(h) == FreeBytes(h.blocks[k])
  {
    var i :| 0 <= i < |h.blocks| && h.blocks[i].base == h.bet;
    IndexOfBase(h.blocks, i);
  }

  lemma OwnerIs(h: Heap, p: nat, i: nat)
    requires HeapOk(h) && IsLive(h, p) && i < |h.blocks| && h.blocks[i].base <= p < h.blocks[i].base + 4096
    ensures LiveIndex(h, p).0 == i
  {
    hide IsLive;
    PageOfAddress(h.blocks[i].base, p);
    IndexOfBase(h.blocks, i);
  }

  /** free of a payload in block i: the block goes if that was the last one, and no other changes. */
  lemma FreedBlocks(h: Heap, p: nat, i: nat)
    requires HeapOk(h) && IsLive(h, p) && i < |h.blocks| && h.blocks[i].base <= p < h.blocks[i].base + 4096
    ensures var s, s' := h.blocks, AfterFree(h, p).blocks;
      if |s[i].chunks| == 1 then s' == s[..i] + s[i + 1..]
      else |s'| == |s| && s'[i].base == s[i].base && forall k :: 0 <= k < |s| && k != i ==> s'[k] == s[k]
  {
    OwnerIs(h, p, i);
  }

  /**
   * What free of a payload in block i leaves as the best bet, with k the block of the bet: none
   * if there was none or its page goes; block i if it then has more free bytes than the bet;
   * else the old bet.
   */
  lemma FreedBet(h: Heap, p: nat, i: nat, k: nat)
    requires HeapOk(h) && IsLive(h, p) && i < |h.blocks| && h.blocks[i].base <= p < h.blocks[i].base + 4096
    requires h.bet != 0 ==> k < |h.blocks| && h.blocks[k].base == h.bet
    ensures var s := h.blocks;
      AfterFree(h, p).bet ==
        if h.bet == 0 || (k == i && |s[i].chunks| == 1) then 0
        else if |s[i].chunks| > 1 && FreeBytes(s[i]) + SizeAt(h, p) + 24 > FreeBytes(s[k]) then s[i].base
        else h.bet
  {
    hide FreeBytes, BlockOk;
    OwnerIs(h, p, i);
    var s, j := h.blocks, LiveIndex(h, p).1;
    WithoutChunkOk(s[i], j);
    if h.bet != 0 && |s[i].chunks| > 1 {
      var b := WithoutChunk(s[i], j);
      BlockReplacedOk(h, i, b);
      BestSizeOf(Heap(s[i := b], h.bet), k);
    }
  }

  // ---------- what the search makes of the bet ----------

  /** The search ends with the first of the largest blocks it looked at, if that is larger than before. */
  lemma {:induction false} ScanSeesMost(blocks: seq<Block>, i: nat, n: int, bet: nat, best: int)
    requires i <= |blocks|
    ensures var f := Scan(blocks, i, n, bet, best);
      && (forall k :: i <= k <= f.block && k < |blocks| ==> FreeBytes(blocks[k]) <= f.best)
      && (f.best == best ==> f.bet == bet)
      && (f.best > best ==> exists k :: i <= k <= f.block && k < |blocks| && IsFirst(blocks, i, k, f.bet, f.best))
    decreases |blocks| - i
  {
    if i < |blocks| {
      var (bet', best') := Bet(blocks[i], bet, best);
      var f := Scan(blocks, i, n, bet, best);
      if FirstGap(blocks[i], n, 0) == -1 {
        ScanSeesMost(blocks, i + 1, n, bet', best');
        if f.best > best' {
          var k :| i + 1 <= k <= f.block && k < |blocks| && IsFirst(blocks, i + 1, k, f.bet, f.best);
          assert IsFirst(blocks, i, k, f.bet, f.best);
        } else if best' > best {
          assert IsFirst(blocks, i, i, f.bet, f.best);
        }
      } else if best' > best {
        assert IsFirst(blocks, i, i, f.bet, f.best);
      }
    }
  }

  ghost predicate IsFirst(blocks: seq<Block>, i: nat, k: nat, bet: nat, best: int) {
    && k < |blocks| && bet == blocks[k].base && best == FreeBytes(blocks[k])
    && forall m :: i <= m < k ==> FreeBytes(blocks[m]) < best
  }

  /** How many blocks the search, going round from block s, looks at before block i. */
  function Turn(i: nat, s: nat, count: nat): int {
    if i >= s then i - s else i - s + count
  }

  /** The block the search starts at: the bet, when that has more than n + 24 free bytes, or the first. */
  ghost predicate StartsAt(h: Heap, n: int, s: nat) {
    || (s < |h.blocks| && h.blocks[s].base == h.bet && FreeBytes(h.blocks[s]) > n + 24)
    || (s == 0 && forall k :: 0 <= k < |h.blocks| && h.blocks[k].base == h.bet ==> FreeBytes(h.blocks[k]) <= n + 24)
  }

  /** The search, going round from block s, gets to block i before or when it stops at its target. */
  ghost predicate Seen(h: Heap, n: int, s: nat, i: nat) {
    var t := TargetBlock(h, n);
    i < |h.blocks| && (t == |h.blocks| || Turn(i, s, |h.blocks|) <= Turn(t, s, |h.blocks|))
  }

  /** The block has more free bytes than the bet had before the call, or any if there was none. */
  ghost predicate BeatsBet(h: Heap, i: nat) {
    && i < |h.blocks|
    && if h.bet == 0 then FreeBytes(h.blocks[i]) > 0
       else
         forall k :: 0 <= k < |h.blocks| && h.blocks[k].base == h.bet ==>
           FreeBytes(h.blocks[i]) > FreeBytes(h.blocks[k])
  }

  /** Block m has the most free bytes of all that are seen, and is seen first of those that do. */
  ghost predicate FirstMost(h: Heap, n: int, s: nat, m: nat) {
    && Seen(h, n, s, m)
    && forall i: nat :: Seen(h, n, s, i) ==>
      && FreeBytes(h.blocks[i]) <= FreeBytes(h.blocks[m])
      && (Turn(i, s, |h.blocks|) < Turn(m, s, |h.blocks|) ==> FreeBytes(h.blocks[i]) < FreeBytes(h.blocks[m]))
  }

  /** What the search has settled when it ends: the bet and its free bytes. */
  ghost predicate Settled(h: Heap, n: int, s: nat, f: Found) {
    && (forall i: nat :: Seen(h, n, s, i) ==> FreeBytes(h.blocks[i]) <= f.best)
    && f.best >= BestSize(h)
    && if f.best == BestSize(h) then f.bet == h.bet
       else
         exists m: nat :: m < |h.blocks| && FirstMost(h, n, s, m)
           && f.bet == h.blocks[m].base && f.best == FreeBytes(h.blocks[m])
  }

  lemma StartIs(h: Heap, n: int, s: nat)
    requires HeapOk(h) && StartsAt(h, n, s)
    ensures StartAtBet(h, n) <==> s < |h.blocks| && h.blocks[s].base == h.bet && FreeBytes(h.blocks[s]) > n + 24
    ensures s == if StartAtBet(h, n) then IndexOf(h.blocks, h.bet) else 0
  {
    hide FreeBytes, BlockOk;
    forall k: nat | k < |h.blocks| && h.blocks[k].base == h.bet ensures IndexOf(h.blocks, h.bet) == k && h.bet != 0 {
      IndexOfBase(h.blocks, k);
      assert IsPage(h.blocks[k].base);
    }
  }

  /** The search ends in its first pass, or starts at the first block anyway. */
  lemma SettledOnce(h: Heap, n: int, s: nat, f: Found)
    requires s <= |h.blocks| && f == Scan(h.blocks, s, n, h.bet, BestSize(h)) && f.block == TargetBlock(h, n)
    requires s == 0 || f.block < |h.blocks|
    ensures Settled(h, n, s, f)
  {
    hide FreeBytes, FirstGap, Search, BestSize;
    ScanSeesMost(h.blocks, s, n, h.bet, BestSize(h));
    if f.best > BestSize(h) {
      var m: nat :| s <= m <= f.block && m < |h.blocks| && IsFirst(h.blocks, s, m, f.bet, f.best);
      assert FirstMost(h, n, s, m);
    }
  }

  /** The first pass finds nothing from the bet on, and the second starts with the first block. */
  lemma SettledTwice(h: Heap, n: int, s: nat, f1: Found, f: Found)
    requires 0 <= s < |h.blocks| && f1 == Scan(h.blocks, s, n, h.bet, BestSize(h)) && f1.block == |h.blocks|
    requires f == Scan(h.blocks, 0, n, f1.bet, f1.best) && f.block == TargetBlock(h, n)
    ensures Settled(h, n, s, f)
  {
    hide FreeBytes, FirstGap, Search, BestSize, FirstMost;
    ScanSeesMost(h.blocks, s, n, h.bet, BestSize(h));
    ScanSeesMost(h.blocks, 0, n, f1.bet, f1.best);
    assert f.block < |h.blocks| ==> f.block < s;
    if f.best > f1.best {
      var m: nat :| 0 <= m <= f.block && m < |h.blocks| && IsFirst(h.blocks, 0, m, f.bet, f.best);
      assert m < s;
      FirstInSecond(h, n, s, m, f, f1.best);
    } else if f1.best > BestSize(h) {
      var m: nat :| s <= m <= f1.block && m < |h.blocks| && IsFirst(h.blocks, s, m, f1.bet, f1.best);
      FirstInFirst(h, n, s, m, f);
    }
  }

  lemma FirstInSecond(h: Heap, n: int, s: nat, m: nat, f: Found, best: int)
    requires m < s < |h.blocks| && m <= f.block == TargetBlock(h, n) && (f.block < |h.blocks| ==> f.block < s)
    requires IsFirst(h.blocks, 0, m, f.bet, f.best) && best < f.best
    requires forall k :: s <= k < |h.blocks| ==> FreeBytes(h.blocks[k]) <= best
    requires forall k :: 0 <= k <= f.block && k < |h.blocks| ==> FreeBytes(h.blocks[k]) <= f.best
    ensures FirstMost(h, n, s, m)
  {
    hide FreeBytes, Search, TargetBlock;
  }

  lemma FirstInFirst(h: Heap, n: int, s: nat, m: nat, f: Found)
    requires s <= m < |h.blocks| && f.block == TargetBlock(h, n) && (f.block < |h.blocks| ==> f.block < s)
    requires IsFirst(h.blocks, s, m, f.bet, f.best)
    requires forall k :: s <= k < |h.blocks| ==> FreeBytes(h.blocks[k]) <= f.best
    requires forall k :: 0 <= k <= f.block && k < |h.blocks| ==> FreeBytes(h.blocks[k]) <= f.best
    ensures FirstMost(h, n, s, m)
  {
    hide FreeBytes, Search, TargetBlock;
  }

  lemma SearchSettles(h: Heap, n: int, s: nat)
    requires HeapOk(h) && StartsAt(h, n, s)
    ensures Settled(h, n, s, Search(h, n))
  {
    hide FreeBytes, FirstGap, BestSize, Settled, Scan;
    StartIs(h, n, s);
    var f1 := Scan(h.blocks, s, n, h.bet, BestSize(h));
    if StartAtBet(h, n) && f1.block == |h.blocks| {
      SettledTwice(h, n, s, f1, Search(h, n));
    } else {
      SettledOnce(h, n, s, f1);
    }
  }

  lemma BeatsIff(h: Heap, i: nat)
    requires HeapOk(h) && i < |h.blocks|
    ensures BeatsBet(h, i) <==> FreeBytes(h.blocks[i]) > BestSize(h)
  {
    hide FreeBytes, BlockOk;
    if h.bet != 0 {
      BetIndex(h);
      var k := IndexOf(h.blocks, h.bet);
      assert forall m :: 0 <= m < |h.blocks| && h.blocks[m].base == h.bet ==> m == k;
    }
  }

  lemma BestSizeBound(h: Heap)
    requires HeapOk(h)
    ensures 0 <= BestSize(h) < 4072
  {
    hide FreeBytes, BlockOk;
    if h.bet != 0 {
      BetIndex(h);
      BlockInUse(h, IndexOf(h.blocks, h.bet));
    }
  }

  /**
   * The best bet after malloc: the appended page, if the loop looks at it; else the first with
   * the most free bytes among the blocks that the search saw, if that beats the old bet; else
   * the old bet.
   */
  lemma BetAfterMalloc(h: Heap, n: nat, page: nat, s: nat)
    requires HeapOk(h) && 1 <= n <= 4048 && StartsAt(h, n, s)
    ensures var bet := AfterMalloc(h, n, page).bet;
      if TargetBlock(h, n) == |h.blocks| && PageIsSeen(h, n) then bet == page
      else if exists i: nat :: Seen(h, n, s, i) && BeatsBet(h, i) then
        exists m: nat :: m < |h.blocks| && FirstMost(h, n, s, m) && bet == h.blocks[m].base
      else bet == h.bet
  {
    hide FreeBytes, FirstGap, HeapOk, Search, BestSize, BeatsBet, FirstMost;
    var f := Search(h, n);
    SearchSettles(h, n, s);
    BestSizeBound(h);
    forall i: nat | i < |h.blocks| ensures BeatsBet(h, i) <==> FreeBytes(h.blocks[i]) > BestSize(h) {
      BeatsIff(h, i);
    }
    if f.best > BestSize(h) {
      var m: nat :| m < |h.blocks| && FirstMost(h, n, s, m)
        && f.bet == h.blocks[m].base && f.best == FreeBytes(h.blocks[m]);
      MostIsSeen(h, n, s, m);
      BlockInUse(h, m);
    }
  }

  lemma MostIsSeen(h: Heap, n: int, s: nat, m: nat)
    requires FirstMost(h, n, s, m)
    ensures Seen(h, n, s, m)
  {
  }

  /** A bet that is the most stays the bet while the search goes on. */
  lemma SearchKeepsMost(h: Heap, n: int)
    requires HeapOk(h) && BetIsMost(h) && h.bet != 0
    ensures Search(h, n).bet == h.bet && Search(h, n).best == BestSize(h)
  {
    hide FreeBytes, FirstGap, BlockOk;
    BetIndex(h);
    var start := if StartAtBet(h, n) then IndexOf(h.blocks, h.bet) else 0;
    ScanStays(h.blocks, start, n, h.bet, BestSize(h));
    ScanStays(h.blocks, 0, n, h.bet, BestSize(h));
  }

  lemma ScanStays(blocks: seq<Block>, i: nat, n: int, bet: nat, best: int)
    requires i <= |blocks| && forall k :: 0 <= k < |blocks| ==> FreeBytes(blocks[k]) <= best
    ensures Scan(blocks, i, n, bet, best).bet == bet && Scan(blocks, i, n, bet, best).best == best
  {
    ScanSeesMost(blocks, i, n, bet, best);
  }

  // ---------- malloc ----------

  /** The page that malloc appends is looked at by its loop, unless case 1 led to it. */
  predicate PageIsSeen(h: Heap, n: nat) {
    h.blocks == [] || FreeBytes(h.blocks[|h.blocks| - 1]) >= n + 24
  }

  /** The free bytes afterwards: the target's shrink, the new page's are what the request leaves. */
  lemma FreeAfterMalloc(h: Heap, n: nat, page: nat)
    requires HeapOk(h) && 1 <= n <= 4048
    ensures var h', t := AfterMalloc(h, n, page), TargetBlock(h, n);
      && (t < |h.blocks| ==> |h'.blocks| == |h.blocks|)
      && (t == |h.blocks| ==> |h'.blocks| == t + 1 && FreeBytes(h'.blocks[t]) == 4048 - n && h'.blocks[t].base == page)
      && forall i :: 0 <= i < |h.blocks| ==>
        && h'.blocks[i].base == h.blocks[i].base
        && FreeBytes(h'.blocks[i]) == FreeBytes(h.blocks[i]) - if i == t then n + 24 else 0
  {
    var t := TargetBlock(h, n);
    if t < |h.blocks| {
      WithChunkOk(h.blocks[t], TargetGap(h, n), n);
    } else {
      assert Used([Chunk(page + 24, n)]) == n + 24;
    }
  }

  /** Every block holds something, so none has the free bytes of a fresh page. */
  lemma BlockInUse(h: Heap, i: nat)
    requires HeapOk(h) && i < |h.blocks|
    ensures 0 <= FreeBytes(h.blocks[i]) < 4072
  {
    var b := h.blocks[i];
    NoGapExceedsFree(b, 0);
    assert Used(b.chunks) == b.chunks[0].size + 24 + Used(b.chunks[1..]);
  }

  /**
   * From a bet that is the most, malloc leaves one exactly if: the target is the bet and still
   * has as much room as any other; or the target is another block; or the page is not seen and
   * what is left of it is no more than the bet has; or it is seen, becomes the bet, and what
   * is left of it is no less than the old bet has.
   */
  lemma MallocKeepsBetIff(h: Heap, n: nat, page: nat)
    requires HeapOk(h) && h.bet != 0 && BetIsMost(h) && 1 <= n <= 4048
    requires NeedsPage(h, n) ==> IsPage(page) && !HasBase(h.blocks, page)
    ensures var t := TargetBlock(h, n);
      BetIsMost(AfterMalloc(h, n, page)) <==>
        if t < |h.blocks| then
          h.blocks[t].base == h.bet ==>
            forall i :: 0 <= i < |h.blocks| && i != t ==> FreeBytes(h.blocks[i]) <= FreeBytes(h.blocks[t]) - n - 24
        else if !PageIsSeen(h, n) then 4048 - n <= BestSize(h)
        else BestSize(h) <= 4048 - n
  {
    hide FreeBytes, FirstGap, BlockOk, Search, IsPage;
    var h', t, k := AfterMalloc(h, n, page), TargetBlock(h, n), IndexOf(h.blocks, h.bet);
    SearchKeepsMost(h, n);
    BetIndex(h);
    BlockInUse(h, k);
    FreeAfterMalloc(h, n, page);
    MallocKeepsHeap(h, n, page);
    if t == |h.blocks| && PageIsSeen(h, n) {
      BestSizeOf(h', t);
      assert FreeBytes(h'.blocks[k]) == BestSize(h);
    } else {
      BestSizeOf(h', k);
      if t < |h.blocks| && k == t {
        assert forall i :: 0 <= i < |h.blocks| && i != t ==> FreeBytes(h'.blocks[i]) == FreeBytes(h.blocks[i]);
      } else if t == |h.blocks| {
        assert FreeBytes(h'.blocks[t]) == 4048 - n;
      }
    }
  }

  /**
   * Without a bet the search starts at the root and ends with the first of the largest blocks
   * up to the target.  Then malloc leaves a bet that is the most exactly if that one is, when
   * the target is the bet, when it is not, and for a page that is not seen or is.
   */
  lemma MallocFindsBetIff(h: Heap, n: nat, page: nat)
    requires HeapOk(h) && h.bet == 0 && 1 <= n <= 4048
    requires NeedsPage(h, n) ==> IsPage(page) && !HasBase(h.blocks, page)
    ensures var t, s := TargetBlock(h, n), h.blocks;
      BetIsMost(AfterMalloc(h, n, page)) <==>
        if t < |s| && (forall i :: 0 <= i < t ==> FreeBytes(s[i]) < FreeBytes(s[t])) then
          forall i :: 0 <= i < |s| && i != t ==> FreeBytes(s[i]) <= FreeBytes(s[t]) - n - 24
        else if t < |s| then
          forall i :: t < i < |s| ==> exists k :: 0 <= k < t && FreeBytes(s[i]) <= FreeBytes(s[k])
        else if !PageIsSeen(h, n) then
          (forall i :: 0 <= i < |s| ==> FreeBytes(s[i]) == 0) || exists k :: 0 <= k < |s| && 4048 - n <= FreeBytes(s[k])
        else forall i :: 0 <= i < |s| ==> FreeBytes(s[i]) <= 4048 - n
  {
    hide FreeBytes, FirstGap, BlockOk, IsPage, BetIsMost;
    if TargetBlock(h, n) < |h.blocks| {
      NoBetBlock(h, n, page);
    } else {
      NoBetPage(h, n, page);
    }
  }

  lemma NoBetBlock(h: Heap, n: nat, page: nat)
    requires HeapOk(h) && h.bet == 0 && 1 <= n <= 4048 && TargetBlock(h, n) < |h.blocks|
    ensures var t, s := TargetBlock(h, n), h.blocks;
      BetIsMost(AfterMalloc(h, n, page)) <==>
        if forall i :: 0 <= i < t ==> FreeBytes(s[i]) < FreeBytes(s[t]) then
          forall i :: 0 <= i < |s| && i != t ==> FreeBytes(s[i]) <= FreeBytes(s[t]) - n - 24
        else forall i :: t < i < |s| ==> exists k :: 0 <= k < t && FreeBytes(s[i]) <= FreeBytes(s[k])
  {
    hide FreeBytes, FirstGap, BlockOk, IsPage, Scan, Search;
    var h', t, s := AfterMalloc(h, n, page), TargetBlock(h, n), h.blocks;
    NoBetSearch(h, n);
    TargetHasRoom(h, n);
    FreeAfterMalloc(h, n, page);
    MallocKeepsHeap(h, n, page);
    var k :| 0 <= k <= t && IsFirst(s, 0, k, Search(h, n).bet, Search(h, n).best);
    BestSizeOf(h', k);
    if k == t {
      assert forall i :: 0 <= i < t ==> FreeBytes(s[i]) < FreeBytes(s[t]);
    } else {
      assert FreeBytes(s[k]) >= FreeBytes(s[t]);
    }
  }

  lemma NoBetPage(h: Heap, n: nat, page: nat)
    requires HeapOk(h) && h.bet == 0 && 1 <= n <= 4048 && NeedsPage(h, n)
    requires IsPage(page) && !HasBase(h.blocks, page)
    ensures var s := h.blocks;
      BetIsMost(AfterMalloc(h, n, page)) <==>
        if !PageIsSeen(h, n) then
          (forall i :: 0 <= i < |s| ==> FreeBytes(s[i]) == 0) || exists k :: 0 <= k < |s| && 4048 - n <= FreeBytes(s[k])
        else forall i :: 0 <= i < |s| ==> FreeBytes(s[i]) <= 4048 - n
  {
    hide FreeBytes, FirstGap, BlockOk, IsPage, Scan, Search;
    var h', s := AfterMalloc(h, n, page), h.blocks;
    var f := Search(h, n);
    NoBetSearch(h, n);
    FreeAfterMalloc(h, n, page);
    MallocKeepsHeap(h, n, page);
    forall i: nat | i < |s| ensures 0 <= FreeBytes(s[i]) < 4072 {
      BlockInUse(h, i);
    }
    if PageIsSeen(h, n) {
      BestSizeOf(h', |s|);
    } else if f.best > 0 {
      var k :| 0 <= k < |s| && IsFirst(s, 0, k, f.bet, f.best);
      BestSizeOf(h', k);
    }
  }

  lemma NoBetSearch(h: Heap, n: nat)
    requires HeapOk(h) && h.bet == 0
    ensures var f, s := Search(h, n), h.blocks;
      && f.best >= 0
      && (forall k :: 0 <= k <= f.block && k < |s| ==> FreeBytes(s[k]) <= f.best)
      && (f.best == 0 ==> f.bet == 0)
      && (f.best > 0 ==> exists k :: 0 <= k <= f.block && k < |s| && IsFirst(s, 0, k, f.bet, f.best))
  {
    assert Search(h, n) == Scan(h.blocks, 0, n, 0, 0);
    ScanSeesMost(h.blocks, 0, n, 0, 0);
  }

  lemma TargetHasRoom(h: Heap, n: nat)
    requires HeapOk(h) && TargetBlock(h, n) < |h.blocks|
    ensures FreeBytes(h.blocks[TargetBlock(h, n)]) >= n + 24
  {
    NoGapExceedsFree(h.blocks[TargetBlock(h, n)], TargetGap(h, n));
  }

  // ---------- where it fails ----------

  /**
   * From an empty heap, malloc(3000) and malloc(2000) leave the bet on the first page, with
   * 1048 free bytes, beside a second one with 2048: case 1 appended it and did not look at it.
   */
  lemma BetFallsBehind(p: nat, q: nat)
    requires IsPage(p) && IsPage(q) && p != q
    ensures var h1 := AfterMalloc(Heap([], 0), 3000, p);
      && HeapOk(h1) && BetIsMost(h1) && NeedsPage(h1, 2000) && !HasBase(h1.blocks, q)
      && !BetIsMost(AfterMalloc(h1, 2000, q))
  {
    var h0 := Heap([], 0);
    var h1 := AfterMalloc(h0, 3000, p);
    MallocKeepsHeap(h0, 3000, p);
    assert Used([Chunk(p + 24, 3000)]) == 3024;
    assert h1.blocks == [FreshBlock(p, 3000)] && h1.bet == p;
    BestSizeOf(h1, 0);
    assert NeedsPage(h1, 2000) by {
      TooFewFreeBytes(h1.blocks[0], 2000);
    }
    MallocKeepsBetIff(h1, 2000, q);
  }

  lemma BetFallsBehindInRun()
    ensures Run(BOOT, [Malloc(3000), Malloc(2000)]).Reached?
    ensures !BetIsMost(Run(BOOT, [Malloc(3000), Malloc(2000)]).mem.heap)
  {
    var ops := [Malloc(3000), Malloc(2000)];
    assert ops[1..] == [Malloc(2000)];
    BootOk();
    MallocKeeps(BOOT, 3000);
    var k1 := Step(BOOT, Malloc(3000)).mem;
    StepKeepsMemory(BOOT, Malloc(3000));
    var p, q := PageAddr(NextPage(BOOT.pages)), PageAddr(NextPage(k1.pages));
    PageCount(k1);
    SecondPage(k1, p);
    BetFallsBehind(p, q);
    assert Run(k1, [Malloc(2000)]) == Run(Step(k1, Malloc(2000)).mem, []);
  }

  lemma SecondPage(k: Memory, p: nat)
    requires MemoryOk(k) && |k.pages| < 1024 && HasBase(k.heap.blocks, p)
    ensures IsPage(PageAddr(NextPage(k.pages))) && PageAddr(NextPage(k.pages)) != p
  {
    AfterAllocOk(k.pages);
    FreshPage(k, NextPage(k.pages));
  }
}
