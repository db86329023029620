/**
 * The fields of a 32-bit page-table or page-directory entry (mm/paging.cpp:8-88).
 * A machine word is a natural; the masks that split it are written with / and %.
 *
 * Sizes appear as literals: a page has 4096 bytes, a table 1024 entries; frames 0..1023 (4 MB)
 * belong to the kernel and 1024..2047 to the heap, 8 MB of memory in all.
 */
module PageEntry {
  import opened Common

  predicate GetBit(x: nat, b: nat)
    decreases b
  {
    if b == 0 then x % 2 == 1 else GetBit(x / 2, b - 1)
  }

  function SetBit(x: nat, b: nat, v: bool): nat
    decreases b
  {
    if b == 0 then x / 2 * 2 + (if v then 1 else 0)
    else x % 2 + 2 * SetBit(x / 2, b - 1, v)
  }

  /** A setter changes the bit it names and no other. */
  lemma {:induction false} SetBitLaw(x: nat, b: nat, v: bool, c: nat)
    ensures GetBit(SetBit(x, b, v), c) == if b == c then v else GetBit(x, c)
    decreases b
  {
    if b != 0 && c != 0 {
      SetBitLaw(x / 2, b - 1, v, c - 1);
    }
  }

  function PageBase(value: nat): nat {
    value / 4096 * 4096
  }

  function SetPageBase(value: nat, base: nat): nat {
    value % 4096 + base / 4096 * 4096
  }

  predicate Present(value: nat) {
    GetBit(value, 0)
  }

  function SetPresent(value: nat, present: bool): nat {
    SetBit(if present then value else 0, 0, present)
  }

  /** The setter calls made for every mapping: supervisor, read/write, present. */
  function Mapping(value: nat, base: nat): nat {
    SetPresent(SetBit(SetBit(SetPageBase(value, base), 2, false), 1, true), true)
  }

  /** A base with the present and writable flags and no other. */
  function EntryFor(base: nat): nat {
    base + 3
  }

  /** Built on an empty entry, a mapping is its base with only the present and writable flags. */
  lemma MappingLaw(frame: nat)
    ensures Mapping(0, frame * 4096) == EntryFor(frame * 4096)
    ensures Present(EntryFor(frame * 4096)) && PageBase(EntryFor(frame * 4096)) == frame * 4096
    ensures GetBit(EntryFor(frame * 4096), 1) && !GetBit(EntryFor(frame * 4096), 2)
  {
    var base := frame * 4096;
    assert base == 8 * (512 * frame);
    LowFlags(512 * frame);
    assert SetPageBase(0, base) == base;
    assert (frame * 4096 + 3) / 4096 == frame;
  }

  lemma LowFlags(k: nat)
    ensures SetBit(8 * k, 2, false) == 8 * k
    ensures SetBit(8 * k, 1, true) == 8 * k + 2
    ensures SetBit(8 * k + 2, 0, true) == 8 * k + 3
    ensures GetBit(8 * k + 3, 1) && !GetBit(8 * k + 3, 2)
  {
    assert 8 * k / 2 == 4 * k && 4 * k / 2 == 2 * k;
    assert SetBit(2 * k, 0, false) == 2 * k;
    assert SetBit(4 * k, 1, false) == 4 * k;
    assert SetBit(4 * k, 0, true) == 4 * k + 1;
    assert (8 * k + 3) / 2 == 4 * k + 1 && (4 * k + 1) / 2 == 2 * k;
    assert GetBit(4 * k + 1, 0) && !GetBit(2 * k, 0) && !GetBit(4 * k + 1, 1);
  }
}

/** Finite sets of page and frame numbers, seen through "the least number that is absent". */
module LeastNumber {

  function LeastAbsent(s: set<nat>, from: nat, limit: nat): (k: nat)
    requires from <= limit
    ensures from <= k <= limit
    ensures forall j :: from <= j < k ==> j in s
    ensures k < limit ==> k !in s
    decreases limit - from
  {
    if from == limit || from !in s then from else LeastAbsent(s, from + 1, limit)
  }

  /** The least absent number is the only one with everything before it present. */
  lemma {:induction false} LeastIs(s: set<nat>, from: nat, limit: nat, k: nat)
    requires from <= k <= limit
    requires forall j :: from <= j < k ==> j in s
    requires k < limit ==> k !in s
    ensures LeastAbsent(s, from, limit) == k
  {
    var l := LeastAbsent(s, from, limit);
    assert l < k ==> l in s;
    assert k < l ==> k in s;
  }

  ghost function Range(lo: nat, hi: nat): (s: set<nat>)
    ensures forall k :: k in s <==> lo <= k < hi
    decreases hi - lo
  {
    if lo >= hi then {} else {lo} + Range(lo + 1, hi)
  }

  lemma {:induction false} RangeSize(lo: nat, hi: nat)
    requires lo <= hi
    ensures |Range(lo, hi)| == hi - lo
    decreases hi - lo
  {
    if lo < hi {
      RangeSize(lo + 1, hi);
    }
  }

  lemma {:induction false} SubsetSize(a: set<nat>, b: set<nat>)
    requires a <= b
    ensures |a| <= |b|
    ensures |a| == |b| ==> a == b
    decreases a
  {
    if a != {} {
      var x :| x in a;
      SubsetSize(a - {x}, b - {x});
    }
  }

  /** A set of numbers below a limit leaves one out exactly when it is smaller than the limit. */
  lemma AbsentIffSmaller(s: set<nat>, lo: nat, hi: nat)
    requires lo <= hi && forall k :: k in s ==> lo <= k < hi
    ensures LeastAbsent(s, lo, hi) < hi <==> |s| < hi - lo
    ensures |s| <= hi - lo
  {
    RangeSize(lo, hi);
    SubsetSize(s, Range(lo, hi));
    if LeastAbsent(s, lo, hi) == hi {
      assert s == Range(lo, hi);
    }
  }

  ghost predicate Injective(m: map<nat, nat>) {
    forall i, j :: i in m && j in m && m[i] == m[j] ==> i == j
  }

  /** An injective map has as many values as keys. */
  lemma {:induction false} InjectiveSize(m: map<nat, nat>)
    requires Injective(m)
    ensures |m.Values| == |m.Keys|
    decreases m.Keys
  {
    if m.Keys != {} {
      var k :| k in m.Keys;
      var rest := m - {k};
      InjectiveSize(rest);
      assert m.Values == rest.Values + {m[k]} by {
        forall v | v in m.Values ensures v in rest.Values + {m[k]} {
          var i :| i in m && m[i] == v;
          assert i == k || (i in rest && rest[i] == v);
        }
        assert forall v :: v in rest.Values ==> v in m.Values;
      }
      assert m[k] !in rest.Values;
      assert m.Keys == rest.Keys + {k};
    } else {
      assert m.Values == {};
    }
  }
}

/** The frame bitmap, the page tables and the page allocator (mm/paging.cpp). */
module Paging {
  import opened Common
  import opened PageEntry
  import opened LeastNumber


  function Mask(b: nat): bv8
    requires b < 8
  {
    (1 as bv8) << b
  }

  predicate BitOn(pack: bv8, b: nat)
    requires b < 8
  {
    pack & Mask(b) != 0
  }

  /** Setting or clearing a bit of a bitmap byte leaves the other seven alone. */
  lemma MaskLaw(x: bv8, b: nat, c: nat)
    requires b < 8 && c < 8
    ensures BitOn(x | Mask(b), c) == (b == c || BitOn(x, c))
    ensures BitOn(x & !Mask(b), c) == (b != c && BitOn(x, c))
  {
    hide BitOn, Mask;
    MaskSets(x, b, c);
    MaskClears(x, b, c);
  }

  lemma MaskSets(x: bv8, b: nat, c: nat)
    requires b < 8 && c < 8
    ensures BitOn(x | Mask(b), c) == (b == c || BitOn(x, c))
  {
  }

  lemma MaskClears(x: bv8, b: nat, c: nat)
    requires b < 8 && c < 8
    ensures BitOn(x & !Mask(b), c) == (b != c && BitOn(x, c))
  {
  }

  lemma MaskLaws(x: bv8, b: nat)
    requires b < 8
    ensures forall c: nat :: c < 8 ==> BitOn(x | Mask(b), c) == (b == c || BitOn(x, c))
    ensures forall c: nat :: c < 8 ==> BitOn(x & !Mask(b), c) == (b != c && BitOn(x, c))
  {
    forall c: nat | c < 8
      ensures BitOn(x | Mask(b), c) == (b == c || BitOn(x, c))
      ensures BitOn(x & !Mask(b), c) == (b != c && BitOn(x, c))
    {
      MaskLaw(x, b, c);
    }
  }

  lemma BitPlace(f: nat, byteIndex: nat, b: nat)
    requires b < 8
    ensures f == byteIndex * 8 + b <==> f / 8 == byteIndex && f % 8 == b
  {
  }

  lemma ClearByte(b: nat)
    requires b < 8
    ensures !BitOn(0, b)
  {
  }

  /** A byte differs from 0xFF exactly when one of its bits is off. */
  lemma FullByte(x: bv8)
    ensures x == 0xFF <==> forall b: nat :: b < 8 ==> BitOn(x, b)
  {
    if forall b: nat :: b < 8 ==> BitOn(x, b) {
      assert BitOn(x, 0) && BitOn(x, 1) && BitOn(x, 2) && BitOn(x, 3);
      assert BitOn(x, 4) && BitOn(x, 5) && BitOn(x, 6) && BitOn(x, 7);
    }
    if x == 0xFF {
      forall b: nat | b < 8 ensures BitOn(x, b) {
      }
    }
  }

  /** The virtual address of the heap page mapped by entry i of the heap table. */
  function PageAddr(i: nat): nat {
    0x40_0000 + i * 4096
  }

  function DirIndex(vaddr: nat): nat {
    vaddr / 0x40_0000 % 1024
  }

  function TableIndex(vaddr: nat): nat {
    vaddr / 4096 % 1024
  }

  /** The address alloc_page builds decodes in free_page to the entry it came from. */
  lemma AddressDecodes(i: nat, offset: nat)
    requires i < 1024 && offset < 4096
    ensures DirIndex(PageAddr(i) + offset) == 1
    ensures TableIndex(PageAddr(i) + offset) == i
    ensures 0x40_0000 <= PageAddr(i) + offset < 0x80_0000
  {
    assert PageAddr(i) + offset == 4096 * (1024 + i) + offset;
    assert (PageAddr(i) + offset) / 4096 == 1024 + i;
  }

  lemma LowHalf(vaddr: nat)
    requires vaddr < 0x40_0000
    ensures DirIndex(vaddr) == 0 && TableIndex(vaddr) == vaddr / 4096
  {
  }

  lemma HeapHalf(vaddr: nat)
    requires 0x40_0000 <= vaddr < 0x80_0000
    ensures DirIndex(vaddr) == 1
    ensures PageAddr(TableIndex(vaddr)) == vaddr / 4096 * 4096
  {
  }

  lemma TableIndexBounds(vaddr: nat)
    ensures TableIndex(vaddr) < 1024 && DirIndex(vaddr) < 1024
  {
  }

  lemma BaseIsAligned(pte: nat)
    ensures PageBase(pte) == PageBase(pte) / 4096 * 4096
  {
  }

  /** The heap half of the page tables: entry of the heap table -> physical frame. */
  type PageMap = map<nat, nat>

  /** The entry and the frame that the next allocation takes: the least of each that is free. */
  ghost function NextPage(m: PageMap): nat {
    LeastAbsent(m.Keys, 0, 1024)
  }

  ghost function NextFrame(m: PageMap): nat {
    LeastAbsent(m.Values, 1024, 2048)
  }

  ghost predicate PageMapOk(m: PageMap) {
    && Injective(m)
    && forall i :: i in m ==> i < 1024 && 1024 <= m[i] < 2048
  }

  /**
   * Counting: pages and frames are used up together, at 1024 live pages and not before.
   * So a free frame always comes with an empty table entry.
   */
  lemma UsedUpTogether(m: PageMap)
    requires PageMapOk(m)
    ensures NextFrame(m) < 2048 <==> |m| < 1024
    ensures NextPage(m) < 1024 <==> |m| < 1024
    ensures |m| <= 1024
  {
    InjectiveSize(m);
    AbsentIffSmaller(m.Keys, 0, 1024);
    AbsentIffSmaller(m.Values, 1024, 2048);
  }

  ghost function AfterAlloc(m: PageMap): PageMap {
    m[NextPage(m) := NextFrame(m)]
  }

  lemma AfterAllocOk(m: PageMap)
    requires PageMapOk(m) && |m| < 1024
    ensures NextPage(m) < 1024 && NextPage(m) !in m
    ensures 1024 <= NextFrame(m) < 2048 && NextFrame(m) !in m.Values
    ensures PageMapOk(AfterAlloc(m))
    ensures AfterAlloc(m).Values == m.Values + {NextFrame(m)}
    ensures |AfterAlloc(m)| == |m| + 1
  {
    UsedUpTogether(m);
    ExtendOk(m, NextPage(m), NextFrame(m));
  }

  lemma ExtendOk(m: PageMap, i: nat, f: nat)
    requires PageMapOk(m)
    requires i < 1024 && i !in m
    requires 1024 <= f < 2048 && f !in m.Values
    ensures PageMapOk(m[i := f])
    ensures m[i := f].Values == m.Values + {f}
    ensures |m[i := f]| == |m| + 1
  {
    hide PageMapOk;
    ValuesAfterUpdate(m, i, f);
    ExtendInjective(m, i, f);
    KeysAfterUpdate(m, i, f);
  }

  lemma ExtendInjective(m: PageMap, i: nat, f: nat)
    requires PageMapOk(m) && i < 1024 && 1024 <= f < 2048 && f !in m.Values
    ensures PageMapOk(m[i := f])
  {
    var m' := m[i := f];
    forall j, k | j in m' && k in m' && m'[j] == m'[k] ensures j == k {
      assert j != i ==> m[j] in m.Values;
      assert k != i ==> m[k] in m.Values;
    }
  }

  lemma KeysAfterUpdate(m: PageMap, i: nat, f: nat)
    requires i !in m
    ensures |m[i := f]| == |m| + 1
  {
    assert m[i := f].Keys == m.Keys + {i};
  }

  lemma ValuesAfterUpdate(m: PageMap, i: nat, f: nat)
    requires i !in m
    ensures m[i := f].Values == m.Values + {f}
  {
    var m' := m[i := f];
    assert m'[i] == f;
    forall v | v in m.Values ensures v in m'.Values {
      var j :| j in m && m[j] == v;
      assert m'[j] == v;
    }
  }

  /** Giving a page back undoes taking it. */
  lemma AllocThenFree(m: PageMap)
    requires PageMapOk(m) && |m| < 1024
    ensures AfterAlloc(m) - {NextPage(m)} == m
  {
    hide PageMapOk, NextPage, NextFrame;
    AfterAllocOk(m);
  }

  lemma AfterFreeOk(m: PageMap, i: nat)
    requires PageMapOk(m) && i in m
    ensures PageMapOk(m - {i})
    ensures (m - {i}).Values == m.Values - {m[i]}
    ensures |m - {i}| == |m| - 1
  {
    var m' := m - {i};
    forall v | v in m.Values - {m[i]} ensures v in m'.Values {
      var j :| j in m && m[j] == v;
      assert j in m' && m'[j] == v;
    }
    assert m.Keys == m'.Keys + {i};
  }

  /** What the tables make of a virtual address: identity in 4 KB..4 MB, the page map above. */
  ghost function Translate(m: PageMap, vaddr: nat): Option<nat> {
    if 4096 <= vaddr < 0x40_0000 then Some(vaddr)
    else if 0x40_0000 <= vaddr < 0x80_0000 && TableIndex(vaddr) in m
    then Some(m[TableIndex(vaddr)] * 4096 + vaddr % 4096)
    else None
  }

  /** No two mapped virtual bytes share a physical byte, and heap bytes lie above the kernel. */
  lemma TranslateInjective(m: PageMap, v: nat, w: nat)
    requires PageMapOk(m)
    requires Translate(m, v).Some?
    ensures v < 0x40_0000 ==> Translate(m, v).value < 0x40_0000
    ensures v >= 0x40_0000 ==> 0x40_0000 <= Translate(m, v).value < 0x80_0000
    ensures Translate(m, v) == Translate(m, w) ==> v == w
  {
    var i, j := TableIndex(v), TableIndex(w);
    if v >= 0x40_0000 {
      FrameBytes(m[i], v % 4096);
      HeapHalf(v);
      if w >= 0x40_0000 && Translate(m, w) == Translate(m, v) {
        FrameBytes(m[j], w % 4096);
        HeapHalf(w);
      }
    }
  }

  lemma FrameBytes(f: nat, o: nat)
    requires o < 4096
    ensures (f * 4096 + o) / 4096 == f && (f * 4096 + o) % 4096 == o
    ensures 1024 <= f < 2048 ==> 0x40_0000 <= f * 4096 + o < 0x80_0000
  {
  }

  ghost predicate TableSays(table: seq<nat>, m: PageMap) {
    && |table| == 1024
    && forall i: nat :: i < 1024 ==> table[i] == if i in m then EntryFor(m[i] * 4096) else 0
  }

  lemma EntryRead(table: seq<nat>, m: PageMap, i: nat)
    requires TableSays(table, m) && i < 1024
    ensures Present(table[i]) <==> i in m
    ensures PageBase(table[i]) / 4096 == if i in m then m[i] else 0
  {
    if i in m {
      MappingLaw(m[i]);
    }
  }

  lemma TableExtended(table: seq<nat>, m: PageMap, i: nat, f: nat)
    requires TableSays(table, m) && i < 1024
    ensures TableSays(table[i := EntryFor(f * 4096)], m[i := f])
  {
  }

  lemma TableReduced(table: seq<nat>, m: PageMap, i: nat)
    requires TableSays(table, m) && i < 1024
    ensures TableSays(table[i := 0], m - {i})
    ensures i !in m ==> table[i := 0] == table
  {
  }

  class PageAllocator {
    const imageBase: nat // physical address of the page table of the kernel image
    const heapBase: nat  // physical address of the page table of the kernel heap
    const kernelPageDir: array<nat>
    const kernelImagePageTable: array<nat>
    const kernelHeapPageTable: array<nat>
    const freeMem: array<bv8> // one bit a frame, set when the frame is in use

    constructor (imageBase: nat, heapBase: nat)
      requires imageBase % 4096 == 0 && heapBase % 4096 == 0
      requires 0 < imageBase < heapBase < 0x40_0000
      ensures Shape() && mapped == map[]
      ensures this.imageBase == imageBase && this.heapBase == heapBase
      ensures fresh(kernelPageDir) && fresh(kernelImagePageTable)
      ensures fresh(kernelHeapPageTable) && fresh(freeMem)
    {
      this.imageBase, this.heapBase := imageBase, heapBase;
      kernelPageDir := new nat[1024];
      kernelImagePageTable := new nat[1024];
      kernelHeapPageTable := new nat[1024];
      freeMem := new bv8[0x80_0000 / 8];
      mapped := map[];
    }

    method InitTables()
      requires Shape()
      modifies kernelPageDir, kernelImagePageTable, kernelHeapPageTable
      ensures KernelTables() && EntriesAgree(map[])
    {
      hide Mapping, EntryFor;
      Fill(kernelPageDir, 1024, 0);
      Fill(kernelImagePageTable, 1024, 0);
      Fill(kernelHeapPageTable, 1024, 0);
      MappingLaw(imageBase / 4096);
      MappingLaw(heapBase / 4096);
      kernelPageDir[0] := Mapping(0, imageBase);
      kernelPageDir[1] := Mapping(0, heapBase);
      IdentityMap(kernelImagePageTable);
    }

    method InitBits()
      requires Shape()
      modifies freeMem
      ensures BitsAgree(map[])
    {
      Fill(freeMem, 0x80_0000 / 8, 0);
      Fill(freeMem, 1024 / 8, 0xFF);
      InitialBits();
    }

    lemma InitialBits()
      requires Shape()
      requires forall j: nat :: j < 128 ==> freeMem[j] == 0xFF
      requires forall j: nat :: 128 <= j < freeMem.Length ==> freeMem[j] == 0
      ensures BitsAgree(map[])
    {
      forall f: nat | f < 2048
        ensures Used(f) <==> f < 1024
      {
        FullByte(0xFF);
        ClearByte(f % 8);
      }
    }

    predicate Used(frame: nat)
      requires frame / 8 < freeMem.Length
      reads freeMem
    {
      BitOn(freeMem[frame / 8], frame % 8)
    }

    ghost predicate Shape() {
      && kernelPageDir.Length == kernelImagePageTable.Length == kernelHeapPageTable.Length == 1024
      && freeMem.Length == 0x80_0000 / 8
      && kernelPageDir != kernelImagePageTable && kernelPageDir != kernelHeapPageTable
      && kernelImagePageTable != kernelHeapPageTable
      && imageBase % 4096 == 0 && heapBase % 4096 == 0
      && 0 < imageBase < heapBase < 0x40_0000
    }

    /** The tables that no allocation touches: the directory and the identity map of 4 KB..4 MB. */
    ghost predicate KernelTables()
      requires Shape()
      reads kernelPageDir, kernelImagePageTable
    {
      && kernelPageDir[0] == EntryFor(imageBase)
      && kernelPageDir[1] == EntryFor(heapBase)
      && (forall i :: 2 <= i < 1024 ==> kernelPageDir[i] == 0)
      && kernelImagePageTable[0] == 0
      && (forall i :: 1 <= i < 1024 ==> kernelImagePageTable[i] == EntryFor(i * 4096))
    }

    ghost predicate EntriesAgree(m: PageMap)
      requires Shape()
      reads kernelHeapPageTable
    {
      TableSays(kernelHeapPageTable[..], m)
    }

    ghost predicate BitsAgree(m: PageMap)
      requires Shape()
      reads freeMem
    {
      && (forall f: nat :: f < 1024 ==> Used(f))
      && (forall f: nat :: 1024 <= f < 2048 ==> (Used(f) <==> f in m.Values))
    }

    /** The heap table and the bitmap both say what m says. */
    ghost predicate Agrees(m: PageMap)
      requires Shape()
      reads kernelHeapPageTable, freeMem
    {
      PageMapOk(m) && EntriesAgree(m) && BitsAgree(m)
    }

    ghost var mapped: PageMap

    ghost predicate Valid()
      reads this, kernelPageDir, kernelImagePageTable, kernelHeapPageTable, freeMem
    {
      Shape() && KernelTables() && Agrees(mapped)
    }

    lemma MapBounds()
      requires Valid()
      ensures PageMapOk(mapped) && |mapped| <= 1024
    {
      UsedUpTogether(mapped);
    }

    /** The frame search of alloc_page: the lowest clear bit of the first byte that is not full. */
    method FindFrame() returns (i: nat, b: int)
      requires Shape()
      ensures 128 <= i <= 256 && BytesFull(i)
      ensures i < 256 ==> 0 <= b < 8 && !BitOn(freeMem[i], b)
      ensures i < 256 ==> forall c: nat :: c < b ==> BitOn(freeMem[i], c)
    {
      i, b := 128, -1;
      while i < 256
        invariant 128 <= i <= 256
        invariant b == -1 && BytesFull(i)
      {
        var pack := freeMem[i];
        if pack == 0xFF {
          i := i + 1;
          continue;
        }
        b := FirstClearBit(pack);
        if b < 0 {
          assert false; // panic "BUG in alloc_page": a byte other than 0xFF has a clear bit
        }
        break;
      }
    }

    /** First half of alloc_page: take the first free frame, or find that there is none. */
    method TakeFrame(ghost m: PageMap) returns (frame: int)
      requires Shape() && PageMapOk(m) && BitsAgree(m)
      modifies freeMem
      ensures frame == if |m| == 1024 then -1 else NextFrame(m)
      ensures frame < 0 ==> freeMem[..] == old(freeMem[..]) && BitsAgree(m)
      ensures frame >= 0 ==> BitsAgree(AfterAlloc(m))
    {
      UsedUpTogether(m);
      var i, b := FindFrame();
      if i == 256 {
        NoFreeFrame(m);
        return -1;
      }
      FirstFreeFrame(m, i, b);
      frame := i * 8 + b;
      ClaimFrame(m, i, b);
    }

    method ClaimFrame(ghost m: PageMap, i: nat, b: nat)
      requires Shape() && PageMapOk(m) && BitsAgree(m) && |m| < 1024
      requires i < 256 && b < 8 && NextFrame(m) == i * 8 + b
      modifies freeMem
      ensures BitsAgree(AfterAlloc(m))
    {
      hide NextPage, NextFrame, AfterAlloc, PageMapOk, Mask, BitOn;
      AfterAllocOk(m);
      SetFrameBit(i, b);
    }

    ghost predicate BytesFull(i: nat)
      requires Shape() && i <= 256
      reads freeMem
    {
      forall j :: 128 <= j < i ==> freeMem[j] == 0xFF
    }

    lemma FullBytesAreUsed(i: nat, f: nat)
      requires Shape() && i <= 256 && BytesFull(i)
      requires 1024 <= f < 8 * i
      ensures Used(f)
    {
      FullByte(freeMem[f / 8]);
    }

    lemma FirstFreeFrame(m: PageMap, i: nat, b: nat)
      requires Shape() && BitsAgree(m)
      requires 128 <= i < 256 && BytesFull(i)
      requires b < 8 && !BitOn(freeMem[i], b) && forall c: nat :: c < b ==> BitOn(freeMem[i], c)
      ensures NextFrame(m) == 8 * i + b
    {
      var frame := 8 * i + b;
      assert frame / 8 == i && frame % 8 == b;
      assert !Used(frame);
      forall f: nat | 1024 <= f < frame
        ensures f in m.Values
      {
        if f < 8 * i {
          FullBytesAreUsed(i, f);
        } else {
          assert f / 8 == i && f % 8 == f - 8 * i;
        }
        assert Used(f);
      }
      LeastIs(m.Values, 1024, 2048, frame);
    }

    lemma NoFreeFrame(m: PageMap)
      requires Shape() && BitsAgree(m) && BytesFull(256)
      ensures NextFrame(m) == 2048
    {
      forall f: nat | 1024 <= f < 2048
        ensures f in m.Values
      {
        FullBytesAreUsed(256, f);
      }
      LeastIs(m.Values, 1024, 2048, 2048);
    }

    /** The inner loop of the frame search: the lowest clear bit of a byte, -1 when it is full. */
    static method FirstClearBit(pack: bv8) returns (b: int)
      ensures b == -1 <==> pack == 0xFF
      ensures b != -1 ==> 0 <= b < 8 && !BitOn(pack, b) && forall c: nat :: c < b ==> BitOn(pack, c)
    {
      b := 0;
      while b < 8
        invariant 0 <= b <= 8
        invariant forall c: nat :: c < b ==> BitOn(pack, c)
      {
        if !BitOn(pack, b) {
          FullByte(pack);
          return;
        }
        b := b + 1;
      }
      FullByte(pack);
      b := -1;
    }

    method SetFrameBit(byteIndex: nat, b: nat)
      requires Shape() && byteIndex < 256 && b < 8
      modifies freeMem
      ensures forall f: nat :: f < 2048 ==> (Used(f) <==> f == byteIndex * 8 + b || old(Used(f)))
    {
      hide BitOn, Mask;
      MaskLaws(freeMem[byteIndex], b);
      freeMem[byteIndex] := freeMem[byteIndex] | Mask(b);
      forall f: nat | f < 2048 ensures Used(f) <==> f == byteIndex * 8 + b || old(Used(f)) {
        BitPlace(f, byteIndex, b);
        assert old(Used(f)) == BitOn(old(freeMem[f / 8]), f % 8);
      }
    }

    method ClearFrameBit(byteIndex: nat, b: nat)
      requires Shape() && byteIndex < 256 && b < 8
      modifies freeMem
      ensures forall f: nat :: f < 2048 ==> (Used(f) <==> f != byteIndex * 8 + b && old(Used(f)))
    {
      hide BitOn, Mask;
      MaskLaws(freeMem[byteIndex], b);
      freeMem[byteIndex] := freeMem[byteIndex] & !Mask(b);
      forall f: nat | f < 2048 ensures Used(f) <==> f != byteIndex * 8 + b && old(Used(f)) {
        BitPlace(f, byteIndex, b);
        assert old(Used(f)) == BitOn(old(freeMem[f / 8]), f % 8);
      }
    }

    /** The table search of alloc_page: the first entry that is not present. */
    method FindEmptyEntry(ghost m: PageMap) returns (emptyPte: int)
      requires Shape() && PageMapOk(m) && EntriesAgree(m) && |m| < 1024
      ensures emptyPte == NextPage(m) && 0 <= emptyPte < 1024
    {
      emptyPte := -1;
      UsedUpTogether(m);
      var i := 0;
      while i < 1024
        invariant 0 <= i <= 1024
        invariant forall j: nat :: j < i ==> j in m
      {
        var pte := kernelHeapPageTable[i];
        EntryRead(kernelHeapPageTable[..], m, i);
        if !Present(pte) {
          LeastIs(m.Keys, 0, 1024, i);
          return i;
        }
        i := i + 1;
      }
      assert false; // panic "no empty PTE although there is an empty physical page"
    }

    method WriteEntry(table: array<nat>, i: nat, pte: nat)
      requires i < table.Length
      modifies table
      ensures table[..] == old(table[..])[i := pte]
    {
      table[i] := pte;
    }

    /** Second half of alloc_page: map the frame at the first empty entry. */
    method MapFrame(ghost m: PageMap, frame: nat) returns (vaddr: nat)
      requires Shape() && PageMapOk(m) && EntriesAgree(m) && |m| < 1024 && frame == NextFrame(m)
      modifies kernelHeapPageTable
      ensures vaddr == PageAddr(NextPage(m))
      ensures EntriesAgree(AfterAlloc(m))
    {
      var paddr := frame * 4096;
      var emptyPte := FindEmptyEntry(m);
      AfterAllocOk(m);
      var pte := kernelHeapPageTable[emptyPte];
      pte := SetPageBase(pte, paddr);
      pte := SetBit(pte, 2, false);
      pte := SetBit(pte, 1, true);
      pte := SetPresent(pte, true);
      MappingLaw(frame);
      TableExtended(kernelHeapPageTable[..], m, emptyPte, frame);
      WriteEntry(kernelHeapPageTable, emptyPte, pte);
      vaddr := 0x40_0000 + emptyPte * 4096;
    }

    method AllocPage() returns (r: Outcome<nat>)
      requires Valid()
      modifies `mapped, kernelHeapPageTable, freeMem
      ensures Valid()
      ensures |old(mapped)| == 1024 ==> r == Panic(OutOfMemory) && mapped == old(mapped)
      ensures |old(mapped)| < 1024 ==>
        r == Ret(PageAddr(NextPage(old(mapped)))) && mapped == AfterAlloc(old(mapped))
    {
      UsedUpTogether(mapped);
      var freePageIndex := TakeFrame(mapped);
      if freePageIndex < 0 {
        return Panic(OutOfMemory);
      }
      var vaddr := MapFrame(mapped, freePageIndex);
      AfterAllocOk(mapped);
      mapped := AfterAlloc(mapped);
      r := Ret(vaddr);
    }

    /** Clears the bit of a frame: frame 0 when the entry was empty, the page's own otherwise. */
    method ReleaseFrame(ghost m: PageMap, frame: nat, ghost i: nat)
      requires Shape() && PageMapOk(m) && BitsAgree(m)
      requires frame == if i in m then m[i] else 0
      modifies freeMem
      ensures BitsAgree(m - {i}) <==> i in m
      ensures i !in m ==> forall f: nat :: f < 2048 ==> (Used(f) <==> f != 0 && old(Used(f)))
    {
      ClearFrameBit(frame / 8, frame % 8);
      if i in m {
        AfterFreeOk(m, i);
      } else {
        assert !Used(0);
      }
    }

    /** Where free_page keeps the invariant: where it faults, and on live pages of the heap. */
    ghost predicate Freeable(vaddr: nat)
      reads this
    {
      vaddr >= 0x80_0000 || (vaddr >= 0x40_0000 && TableIndex(vaddr) in mapped)
    }

    /**
     * free_page on any address.  From 8 MB on there is no table, and the look-up of the entry
     * faults.  On a heap page that is not mapped it clears the bit of frame 0; in the first
     * 4 MB it takes away a page of the kernel.
     */
    method FreePage(vaddr: nat) returns (r: Outcome<()>)
      requires Valid() && vaddr < 0x1_0000_0000
      modifies `mapped, kernelImagePageTable, kernelHeapPageTable, freeMem
      ensures Valid() <==> old(Freeable(vaddr))
      ensures r == if vaddr >= 0x80_0000 then Panic(PageFault) else Ret(())
      ensures mapped == if vaddr < 0x40_0000 || r.Panic? then old(mapped) else old(mapped) - {TableIndex(vaddr)}
      ensures r.Ret? && !old(Freeable(vaddr)) ==>
        var ix, frame := TableIndex(vaddr), if vaddr < 0x40_0000 then vaddr / 4096 else 0;
        && kernelHeapPageTable[..] == old(kernelHeapPageTable[..])
        && kernelImagePageTable[..] ==
             (if vaddr < 0x40_0000 then old(kernelImagePageTable[..])[ix := 0] else old(kernelImagePageTable[..]))
        && forall f: nat :: f < 2048 ==> (Used(f) <==> f != frame && old(Used(f)))
    {
      hide BitsAgree, PageMapOk, TableSays, Used, BitOn;
      var entry, ixPte, frameIndex := LocateEntry(vaddr);
      if entry.None? {
        return Panic(PageFault);
      }
      if vaddr < 0x40_0000 {
        FreeKernelEntry(ixPte, frameIndex);
      } else {
        FreeHeapEntry(ixPte, frameIndex);
      }
      r := Ret(());
    }

    /** Clears the bit and the entry of a page of the heap. */
    method FreeHeapEntry(ixPte: nat, frameIndex: nat)
      requires Valid() && ixPte < 1024 && frameIndex == if ixPte in mapped then mapped[ixPte] else 0
      modifies `mapped, kernelHeapPageTable, freeMem
      ensures Valid() <==> ixPte in old(mapped)
      ensures mapped == old(mapped) - {ixPte}
      ensures ixPte !in old(mapped) ==>
        && kernelHeapPageTable[..] == old(kernelHeapPageTable[..])
        && forall f: nat :: f < 2048 ==> (Used(f) <==> f != 0 && old(Used(f)))
    {
      hide BitsAgree, PageMapOk, TableSays, Used, BitOn;
      NotPresent();
      TableReduced(kernelHeapPageTable[..], mapped, ixPte);
      ReleaseFrame(mapped, frameIndex, ixPte);
      if ixPte in mapped {
        AfterFreeOk(mapped, ixPte);
      }
      mapped := mapped - {ixPte};
      WriteEntry(kernelHeapPageTable, ixPte, SetPresent(kernelHeapPageTable[ixPte], false));
    }

    /** Clears the bit and the entry of a page of the kernel. */
    method FreeKernelEntry(ixPte: nat, frameIndex: nat)
      requires Valid() && ixPte < 1024 && frameIndex == ixPte
      modifies kernelImagePageTable, freeMem
      ensures !Valid()
      ensures kernelImagePageTable[..] == old(kernelImagePageTable[..])[ixPte := 0]
      ensures forall f: nat :: f < 2048 ==> (Used(f) <==> f != frameIndex && old(Used(f)))
    {
      hide BitsAgree, PageMapOk, TableSays, Used, BitOn;
      NotPresent();
      ReleaseKernelFrame(frameIndex);
      WriteEntry(kernelImagePageTable, ixPte, SetPresent(kernelImagePageTable[ixPte], false));
    }

    lemma NotPresent()
      ensures forall x: nat :: SetPresent(x, false) == 0
    {
    }

    /** Clears the bit of a frame of the kernel. */
    method ReleaseKernelFrame(frame: nat)
      requires Shape() && BitsAgree(mapped) && frame < 1024
      modifies freeMem
      ensures !BitsAgree(mapped)
      ensures forall f: nat :: f < 2048 ==> (Used(f) <==> f != frame && old(Used(f)))
    {
      ClearFrameBit(frame / 8, frame % 8);
      assert !Used(frame);
    }

    /** The page table at a physical address, read through the identity map of the first 4 MB. */
    function TableAt(base: nat): array<nat>
      requires base == imageBase || base == heapBase
    {
      if base == heapBase then kernelHeapPageTable else kernelImagePageTable
    }

    /** The walk of free_page: the table and entry of an address and the frame it names, if there is a table. */
    method LocateEntry(vaddr: nat) returns (table: Option<array<nat>>, ixPte: nat, frameIndex: nat)
      requires Valid() && vaddr < 0x1_0000_0000
      ensures table == if vaddr < 0x40_0000 then Some(kernelImagePageTable)
                       else if vaddr < 0x80_0000 then Some(kernelHeapPageTable) else None
      ensures ixPte == TableIndex(vaddr)
      ensures vaddr < 0x40_0000 ==> frameIndex == ixPte == vaddr / 4096
      ensures 0x40_0000 <= vaddr < 0x80_0000 ==> frameIndex == if ixPte in mapped then mapped[ixPte] else 0
    {
      var ixPde := DirIndex(vaddr);
      ixPte := TableIndex(vaddr);
      TableBases(vaddr);
      var tableBase := PageBase(kernelPageDir[ixPde]);
      if tableBase != imageBase && tableBase != heapBase {
        return None, ixPte, 0; // a table in page 0, which is not mapped
      }
      table := Some(TableAt(tableBase));
      EntryRead(kernelHeapPageTable[..], mapped, ixPte);
      frameIndex := PageBase(table.value[ixPte]) / 4096;
    }

    lemma TableBases(vaddr: nat)
      requires Valid() && vaddr < 0x1_0000_0000
      ensures DirIndex(vaddr) < 1024
      ensures PageBase(kernelPageDir[DirIndex(vaddr)]) ==
        if vaddr < 0x40_0000 then imageBase else if vaddr < 0x80_0000 then heapBase else 0
      ensures vaddr < 0x40_0000 ==>
        TableIndex(vaddr) == vaddr / 4096 && PageBase(kernelImagePageTable[TableIndex(vaddr)]) / 4096 == vaddr / 4096
    {
      hide EntryFor, PageBase, Agrees;
      MappingLaw(imageBase / 4096);
      MappingLaw(heapBase / 4096);
      NoBase();
      if vaddr < 0x40_0000 {
        LowHalf(vaddr);
        MappingLaw(vaddr / 4096);
      } else if vaddr < 0x80_0000 {
        HeapHalf(vaddr);
      } else {
        assert 2 <= DirIndex(vaddr) < 1024;
      }
    }

    lemma NoBase()
      ensures PageBase(0) == 0
    {
    }

    /** The two-level walk of section 4.3 of the Intel manual, volume 3A, for 4 KB pages. */
    function Walk(vaddr: nat): Option<nat>
      requires Shape() && vaddr < 0x1_0000_0000
      reads kernelPageDir, kernelImagePageTable, kernelHeapPageTable
    {
      var pde := kernelPageDir[DirIndex(vaddr)];
      var base := PageBase(pde);
      if !Present(pde) || (base != imageBase && base != heapBase) then None
      else
        var pte := TableAt(base)[TableIndex(vaddr)];
        if Present(pte) then Some(PageBase(pte) + vaddr % 4096) else None
    }

    /** The hardware walk over the tables computes the translation, for every 32-bit address. */
    lemma WalkIsTranslate(vaddr: nat)
      requires Valid() && vaddr < 0x1_0000_0000
      ensures Walk(vaddr) == Translate(mapped, vaddr)
    {
      if vaddr < 0x40_0000 {
        WalkKernel(vaddr);
      } else if vaddr < 0x80_0000 {
        WalkHeap(vaddr);
      } else {
        assert 2 <= DirIndex(vaddr) < 1024;
        assert !Present(0);
      }
    }

    lemma WalkKernel(vaddr: nat)
      requires Shape() && KernelTables() && vaddr < 0x40_0000
      ensures Walk(vaddr) == if 4096 <= vaddr then Some(vaddr) else None
    {
      MappingLaw(imageBase / 4096);
      LowHalf(vaddr);
      MappingLaw(vaddr / 4096);
      assert !Present(0);
    }

    lemma WalkHeap(vaddr: nat)
      requires Valid() && 0x40_0000 <= vaddr < 0x80_0000
      ensures Walk(vaddr) == Translate(mapped, vaddr)
    {
      hide TableSays, EntryFor, BitsAgree, PageMapOk, PageBase, Present, TableIndex, DirIndex;
      HeapTableIsPresent();
      HeapHalf(vaddr);
      TableIndexBounds(vaddr);
      var i := TableIndex(vaddr);
      EntryRead(kernelHeapPageTable[..], mapped, i);
      BaseIsAligned(kernelHeapPageTable[i]);
    }

    lemma HeapTableIsPresent()
      requires Shape() && KernelTables()
      ensures PageBase(kernelPageDir[1]) == heapBase && Present(kernelPageDir[1])
    {
      MappingLaw(heapBase / 4096);
    }
  }

  /** memset, and the loops that clear the bitmap and mark the kernel's frames. */
  method Fill<T>(a: array<T>, hi: nat, v: T)
    requires hi <= a.Length
    modifies a
    ensures forall j: nat :: j < hi ==> a[j] == v
    ensures forall j: nat :: hi <= j < a.Length ==> a[j] == old(a[j])
  {
    var i := 0;
    while i < hi
      invariant 0 <= i <= hi
      invariant forall j: nat :: j < i ==> a[j] == v
      invariant forall j: nat :: i <= j < a.Length ==> a[j] == old(a[j])
    {
      a[i] := v;
      i := i + 1;
    }
  }

  /** Maps page i of the first 4 MB to frame i, leaving page 0 unmapped. */
  method IdentityMap(table: array<nat>)
    requires table.Length == 1024 && table[0] == 0
    modifies table
    ensures table[0] == 0
    ensures forall i :: 1 <= i < 1024 ==> table[i] == EntryFor(i * 4096)
  {
    var i := 1;
    while i < 1024
      invariant 1 <= i <= 1024
      invariant table[0] == 0
      invariant forall j :: 1 <= j < i ==> table[j] == EntryFor(j * 4096)
    {
      MappingLaw(i);
      table[i] := Mapping(0, i * 4096);
      i := i + 1;
    }
  }

  function FirstPageAfterKernel(kernelEnd: nat): (first: nat)
    ensures first % 4096 == 0 && kernelEnd < first <= kernelEnd + 4096
  {
    kernelEnd + (4096 - kernelEnd % 4096)
  }

  /**
   * Start-up: the tables lie on the three pages after the kernel, nothing of the heap is
   * mapped, and the machine stops when kernel and tables do not fit in 4 MB.
   */
  method InitPaging(kernelEnd: nat) returns (r: Outcome<PageAllocator>)
    ensures r.Panic? <==> FirstPageAfterKernel(kernelEnd) + 3 * 4096 > 0x40_0000
    ensures r.Panic? ==> r.why == KernelTooBig
    ensures r.Ret? ==>
      var p := r.value;
      && fresh(p) && fresh(p.kernelHeapPageTable) && fresh(p.freeMem)
      && p.Valid() && p.mapped == map[]
      && kernelEnd < p.imageBase - 4096 && p.heapBase == p.imageBase + 4096
  {
    var first := FirstPageAfterKernel(kernelEnd);
    if first + 3 * 4096 > 0x40_0000 {
      return Panic(KernelTooBig);
    }
    var p := new PageAllocator(first + 4096, first + 8192);
    p.InitTables();
    p.InitBits();
    r := Ret(p);
  }
}
