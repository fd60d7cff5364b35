/**
 * The kernel heap (kernel/mm/heap.cpp): first fit over headers kept in the heap's own
 * memory, growing through both lower layers.
 *
 * `list` is the abstract block list; every method says what it does to it, and that the
 * payloads of the other blocks in use keep their bytes.
 */
module KernelHeap {
  import opened Machine
  import opened Bytes
  import opened Blocks
  import opened Layout
  import opened Paging
  import opened TableGrowth
  import opened PageRanges
  import opened PhysicalMemory
  import opened TableAccess
  import opened VirtualMemory
  import opened Ownership

  /** The bytes a growth for `bytes` more bytes adds: whole pages. */
  function Space(bytes: nat): (s: nat)
    requires bytes > 0
    ensures bytes <= s < bytes + FRAME_SIZE && s >= FRAME_SIZE
  {
    PagesFor(bytes) * FRAME_SIZE
  }

  /** What a successful allocation of `want` bytes makes of heap `h`; `payload` is where the new block's bytes start. */
  ghost predicate Allocated(h: Shape, want: nat, h': Shape, payload: nat) {
    var bytes := Space(want + META);
    if NoFit(h.list, want) then
      Enabled(h, GrowAndAllocate(bytes, want)) && h' == After(h, GrowAndAllocate(bytes, want)) && payload == h.end + META
    else
      exists i: nat :: FirstFit(h.list, i, want) && h' == After(h, Allocate(i, want)) && payload == h.list[i].Payload()
  }

  /**
   * Why `pages` pages cannot be put behind address `at`: the free frames hold no run of them, or beside it too
   * few for the tables those pages still need.
   */
  ghost predicate Starved(tables: Tables, free: set<nat>, at: nat, pages: nat) {
    || (forall first: nat :: !Run(free, first, pages))
    || |free| < pages + |Needs(tables, KeysOf(at, pages))|
  }

  lemma NoRunLeft(tables: Tables, free: set<nat>, at: nat, pages: nat)
    requires !exists first: nat :: Run(free, first, pages)
    ensures Starved(tables, free, at, pages)
  {
    hide KeysOf, Needs, Run;
  }

  /** Once the run is taken, what is left must do for the tables. */
  lemma RunTaken(tables: Tables, free: set<nat>, at: nat, first: nat, pages: nat)
    requires LowestRun(free, first, pages) && Frames(first, pages) <= free
    ensures Starved(tables, free, at, pages) <==> |free - Frames(first, pages)| < |Needs(tables, KeysOf(at, pages))|
  {
    hide KeysOf, Needs;
    assert Run(free, first, pages);
    hide Run, Frames;
    assert |free| == |free - Frames(first, pages)| + pages by {
      assert free == (free - Frames(first, pages)) + Frames(first, pages);
    }
  }

  /** What a refused growth leaves free: all that was, or, when tables took the rest, the run that was given back. */
  ghost predicate Leftover(before: set<nat>, after: set<nat>, pages: nat) {
    after == before || exists first: nat :: LowestRun(before, first, pages) && after == Frames(first, pages)
  }

  lemma OnlyRunLeft(before: set<nat>, after: set<nat>, first: nat, pages: nat)
    requires LowestRun(before, first, pages) && after == Frames(first, pages)
    ensures Leftover(before, after, pages)
  {
    hide LowestRun, Frames;
  }

  /** `n` zero bytes. */
  function Zeros(n: nat): (s: seq<byte>)
    ensures |s| == n
  {
    seq(n, _ => 0)
  }

  /**
   * Why heap `h` has no `size` bytes: not a legal size, or nothing fits and it cannot grow, by its limit or
   * for want of frames.
   */
  ghost predicate Refused(h: Shape, tables: Tables, free: set<nat>, start: nat, size: nat) {
    || size == 0 || size > HEAP_MAX
    || (NoFit(h.list, Align16(size))
        && (h.end + Space(Align16(size) + META) > HEAP_MAX
            || Starved(tables, free, start + h.end, PagesFor(Align16(size) + META))))
  }

  /** The pages a growth for `size` bytes maps, if heap `h` has to grow for them. */
  ghost function GrowthKeys(h: Shape, start: nat, size: nat): set<nat> {
    if 0 < size <= HEAP_MAX && NoFit(h.list, Align16(size)) then
      KeysOf(start + h.end, PagesFor(Align16(size) + META))
    else {}
  }

  /** Tables were added only on the paths of `keys`. */
  ghost predicate TablesFor(tables: Tables, tables': Tables, keys: set<nat>) {
    tables'.Keys <= tables.Keys + PathNodes(keys)
  }

  lemma NoMoreTables(t0: Tables, t1: Tables, t2: Tables, keys: set<nat>)
    requires TablesFor(t0, t1, keys) && TablesFor(t1, t2, {})
    ensures TablesFor(t0, t2, keys)
  {
    assert PathNodes({}) == {};
    hide PathNodes;
  }

  lemma TablesSame(tables: Tables, keys: set<nat>)
    ensures TablesFor(tables, tables, keys)
  {}

  class Heap {
    const vmm: Vmm
    const mem: Memory           // the bytes from HeapStart to HeapEnd
    var start: nat              // HeapStart
    var end: nat                // HeapEnd
    var freeList: nat           // free_list, an address

    ghost var list: BlockList
    ghost var backing: seq<nat> // the frame behind each page of the heap
    ghost var pool: set<nat>    // every frame the allocator was given at boot

    constructor (vmm: Vmm, mem: Memory, ghost pool: set<nat>)
      ensures this.vmm == vmm && this.mem == mem && this.pool == pool
      ensures start == 0 && end == 0 && freeList == 0
    {
      this.vmm, this.mem, this.pool := vmm, mem, pool;
      start, end, freeList := 0, 0, 0;
    }

    // ---- The list in memory ----

    /** Memory from HeapStart to HeapEnd is exactly `list`. */
    ghost predicate ListOk()
      reads this`start, this`end, this`freeList, this`list, mem
    {
      && GoodRegion(start) && freeList == start && end == start + |mem.bytes| && |mem.bytes| <= HEAP_MAX
      && Holds(mem.bytes, start, list, |mem.bytes|)
    }

    ghost predicate InHeap(block: nat)
      reads this`start, mem
    {
      start <= block && block - start + META <= |mem.bytes|
    }

    function SizeOf(block: nat): (v: nat)
      requires InHeap(block)
      reads this`start, mem
      ensures v < TWO64
    {
      HeaderBound(mem.bytes, block - start);
      HeaderAt(mem.bytes, block - start).size
    }

    function NextOf(block: nat): (v: nat)
      requires InHeap(block)
      reads this`start, mem
      ensures v < TWO64
    {
      HeaderBound(mem.bytes, block - start);
      HeaderAt(mem.bytes, block - start).next
    }

    function IsFree(block: nat): bool
      requires InHeap(block)
      reads this`start, mem
    {
      HeaderAt(mem.bytes, block - start).free
    }

    method SetSize(block: nat, v: nat)
      requires InHeap(block) && v < TWO64
      modifies mem
      ensures OnlyWithin(old(mem.bytes), mem.bytes, block - start, block - start + META)
      ensures HeaderAt(mem.bytes, block - start) == old(HeaderAt(mem.bytes, block - start)).(size := v)
    {
      WordRange();
      StoreSize(mem.bytes, block - start, v);
      mem.StoreWord(block - start, v);
    }

    method SetNext(block: nat, v: nat)
      requires InHeap(block) && v < TWO64
      modifies mem
      ensures OnlyWithin(old(mem.bytes), mem.bytes, block - start, block - start + META)
      ensures HeaderAt(mem.bytes, block - start) == old(HeaderAt(mem.bytes, block - start)).(next := v)
    {
      WordRange();
      StoreNext(mem.bytes, block - start, v);
      mem.StoreWord(block - start + 8, v);
    }

    method SetFree(block: nat, free: bool)
      requires InHeap(block)
      modifies mem
      ensures OnlyWithin(old(mem.bytes), mem.bytes, block - start, block - start + META)
      ensures HeaderAt(mem.bytes, block - start) == old(HeaderAt(mem.bytes, block - start)).(free := free)
    {
      StoreFree(mem.bytes, block - start, free);
      mem.StoreByte(block - start + 16, if free then 1 else 0);
    }

    /** What the code reads at block `i` of the list. */
    lemma BlockRead(i: nat)
      requires ListOk() && i < |list|
      ensures InHeap(start + list[i].at) && list[i].End() <= |mem.bytes|
      ensures HeaderAt(mem.bytes, list[i].at) == HeaderFor(start, list, i)
      ensures SizeOf(start + list[i].at) == list[i].size && IsFree(start + list[i].at) == list[i].free
      ensures NextOf(start + list[i].at) == if i + 1 < |list| then start + list[i + 1].at else 0
    {
      TiledBounds(list, 0, |mem.bytes|, i);
      assert HeaderOk(mem.bytes, start, list, i);
    }

    /** Cuts the block when what is left over can be a block of its own. */
    method SplitBlock(block: nat, size: nat, ghost i: nat)
      requires ListOk() && i < |list| && block == start + list[i].at && list[i].Fits(size)
      modifies mem, this`list
      ensures ListOk() && |mem.bytes| == |old(mem.bytes)|
      ensures list == Split(old(list), i, size)
      ensures LivePreserved(old(mem.bytes), old(list), mem.bytes, list)
    {
      hide Holds, HeaderAt, Tiled, LivePreserved, Split;
      ghost var m0, bs := mem.bytes, list;
      BlockRead(i);
      if SizeOf(block) < size + META + MIN_SPLIT {
        NoSplit(m0, start, bs, |m0|, i, size);
        return;
      }
      var next := block + META + size;
      ghost var a, b := list[i].at, list[i].at + META + size;
      SetSize(next, SizeOf(block) - size - META);
      ghost var m1 := mem.bytes;
      SetFree(next, true);
      ghost var m2 := mem.bytes;
      SetNext(next, NextOf(block));
      ghost var m3 := mem.bytes;
      SetSize(block, size);
      ghost var m4 := mem.bytes;
      SetNext(block, next);
      SplitStores(m0, m1, m2, m3, m4, mem.bytes, a, b, size, bs[i].size - size - META, next);
      WithinWider(m0, mem.bytes, a, b + META, a, bs[i].End());
      SplitHolds(m0, mem.bytes, start, bs, |m0|, i, size);
      list := Split(list, i, size);
    }

    /** Splits block `i` and takes its first part. */
    method TakeBlock(block: nat, size: nat, ghost i: nat)
      requires ListOk() && i < |list| && block == start + list[i].at && list[i].Fits(size)
      modifies mem, this`list
      ensures ListOk() && |mem.bytes| == |old(mem.bytes)|
      ensures list == Take(old(list), i, size)
      ensures LivePreserved(old(mem.bytes), old(list), mem.bytes, list)
    {
      hide Holds, HeaderAt, Tiled, LivePreserved, Split, Cut, Preserved;
      ghost var m0, bs := mem.bytes, list;
      SplitBlock(block, size, i);
      ghost var m1, split := mem.bytes, list;
      SplitAt(bs, i, size);
      BlockRead(i);
      SetFree(block, false);
      MarkHolds(m1, mem.bytes, start, split, |m1|, i, false);
      list := list[i := list[i].(free := false)];
      TakeLive(m0, bs, m1, split, mem.bytes, i);
    }

    /** Joins block `i` with the next one in the list. */
    method MergeBlocks(b: nat, ghost i: nat)
      requires ListOk() && i + 1 < |list| && b == start + list[i].at && list[i].free && list[i + 1].free
      modifies mem, this`list
      ensures ListOk() && |mem.bytes| == |old(mem.bytes)|
      ensures list == Joined(old(list), i)
      ensures LivePreserved(old(mem.bytes), old(list), mem.bytes, list)
    {
      hide Holds, HeaderAt, Tiled, LivePreserved;
      ghost var m0, bs := mem.bytes, list;
      BlockRead(i);
      BlockRead(i + 1);
      NeighboursHeld(m0, start, bs, |m0|, i);
      SetSize(b, SizeOf(b) + META + SizeOf(NextOf(b)));
      ghost var m1 := mem.bytes;
      OtherHeader(m0, m1, bs[i].at, bs[i + 1].at);
      HeaderNext(m0, m1, bs[i].at);
      SetNext(b, NextOf(NextOf(b)));
      MergeStores(m0, m1, mem.bytes, bs[i].at, bs[i + 1].at, bs[i].size + META + bs[i + 1].size);
      MergeHolds(m0, mem.bytes, start, bs, |m0|, i);
      list := Joined(list, i);
    }

    /** The cleanup pass: joins free neighbours, looking at the list only. */
    method MergeFree()
      requires ListOk()
      modifies mem, this`list
      ensures ListOk() && |mem.bytes| == |old(mem.bytes)|
      ensures list == Coalesce(old(list))
      ensures LivePreserved(old(mem.bytes), old(list), mem.bytes, list)
    {
      hide Holds, HeaderAt, Tiled, LivePreserved, Joined, Coalesce, Preserved, GoodRegion;
      ghost var m0, bs := mem.bytes, list;
      var b := freeList;
      ghost var i := 0;
      MarkedStart(m0, start, bs, |m0|);
      BlockRead(0);
      while b != 0 && NextOf(b) != 0
        invariant ListOk() && |mem.bytes| == |m0|
        invariant i < |list| && b == start + list[i].at && InHeap(b)
        invariant NextOf(b) == if i + 1 < |list| then start + list[i + 1].at else 0
        invariant Coalesce(bs) == list[..i] + Coalesce(list[i..])
        invariant LivePreserved(m0, bs, mem.bytes, list)
        decreases 2 * |list| - i
      {
        assert i + 1 < |list|;
        BlockRead(i);
        BlockRead(i + 1);
        PassStep(list, i);
        if IsFree(b) && IsFree(NextOf(b)) {
          ghost var m, before := mem.bytes, list;
          MergeBlocks(b, i);
          LiveTwice(m0, bs, m, before, mem.bytes, list);
        } else {
          b := NextOf(b);
          i := i + 1;
        }
        BlockRead(i);
      }
      StartPositive();
      PassEnd(list, i);
    }

    lemma StartPositive()
      requires ListOk()
      ensures start > 0
    {}

    /** Block `i` is in use and `ptr` is the address of its payload. */
    ghost predicate Live(ptr: nat, i: nat)
      reads this`start, this`list
    {
      i < |list| && !list[i].free && ptr == start + list[i].Payload()
    }

    /** Marks block `i` free and merges free neighbours in one pass over the list. */
    method FreeBlock(ptr: nat, ghost i: nat)
      requires ListOk() && Live(ptr, i)
      modifies mem, this`list
      ensures ListOk() && |mem.bytes| == |old(mem.bytes)|
      ensures list == Release(old(list), i)
      ensures forall b :: b in old(list) && !b.free && b.at != old(list)[i].at ==>
                Preserved(old(mem.bytes), mem.bytes, list, b)
    {
      hide Holds, HeaderAt, Tiled, LivePreserved, Coalesce, Preserved, GoodRegion;
      ghost var m0, bs := mem.bytes, list;
      var block := ptr - META;
      BlockRead(i);
      SetFree(block, true);
      MarkHolds(m0, mem.bytes, start, bs, |m0|, i, true);
      list := list[i := list[i].(free := true)];
      ghost var m1 := mem.bytes;
      MergeFree();
      FreedLive(m0, bs, m1, i, mem.bytes, list);
    }

    // ---- Growth ----

    /** The frames behind the heap, and where its pages are mapped. */
    ghost predicate Owns()
      reads this`start, this`backing, this`pool, vmm, vmm.pmm, vmm.pmm.bitmap
    {
      && vmm.Valid() && GoodRegion(start) && |backing| <= HEAP_MAX_PAGES
      && Owned(vmm.pmm.free, vmm.tables, backing, pool) && pool <= vmm.direct
      && Backs(vmm.Mapping(), start, backing)
    }

    /**
     * Takes frames and maps them behind the heap's end; gives the frames back if that fails, which it does
     * exactly when there are too few.
     */
    method BackPages(pages: nat) returns (ok: bool)
      requires Owns() && pages > 0 && |backing| + pages <= HEAP_MAX_PAGES
      requires end == start + |backing| * FRAME_SIZE
      modifies this`backing, vmm`ram, vmm`tables, vmm.pmm`freeFrames, vmm.pmm`free, vmm.pmm.bitmap
      ensures Owns()
      ensures Kept(old(vmm.tables), old(vmm.Mapping()), vmm.tables, vmm.Mapping())
      ensures ok <==> !Starved(old(vmm.tables), old(vmm.pmm.free), end, pages)
      ensures TablesFor(old(vmm.tables), vmm.tables, KeysOf(end, pages))
      ensures ok ==> exists first: nat :: LowestRun(old(vmm.pmm.free), first, pages)
                                     && backing == old(backing) + FrameSeq(first, pages)
      ensures !ok ==> backing == old(backing) && vmm.Mapping() == old(vmm.Mapping())
      ensures !ok ==> Leftover(old(vmm.pmm.free), vmm.pmm.free, pages)
    {
      hide View.Good, Paging.Mapping, Owned, Backs, GoodRegion, Frames, FrameSeq, Frame, Address, Distinct, Vmm.Valid,
        ToSet, LowestRun, Run, Kept, Starved, Needs, KeysOf, TablesFor, Leftover;
      ghost var t0, f0 := vmm.tables, vmm.pmm.free;
      KeptSame(vmm.tables, vmm.Mapping());
      TablesSame(vmm.tables, KeysOf(end, pages));
      var phys := vmm.TakeFrames(pages);
      if phys == 0 {
        NoRunLeft(t0, f0, end, pages);
        NothingTaken(f0, pages);
        return false;
      }
      ghost var first := Frame(phys);
      OwnedTake(f0, vmm.tables, backing, pool, first, pages);
      RunTaken(t0, f0, end, first, pages);
      ok := MapBehind(phys, pages);
      if !ok {
        OnlyRunLeft(f0, vmm.pmm.free, first, pages);
      }
    }

    /** Maps frames that were just taken behind the heap's end, or gives them back. */
    method MapBehind(phys: nat, pages: nat) returns (ok: bool)
      requires vmm.Valid() && GoodRegion(start) && pages > 0 && |backing| + pages <= HEAP_MAX_PAGES
      requires pool <= vmm.direct && Backs(vmm.Mapping(), start, backing)
      requires Owned(vmm.pmm.free, vmm.tables, backing + FrameSeq(Frame(phys), pages), pool)
      requires phys == Address(Frame(phys)) && Frame(phys) + pages <= MAX_FRAMES
      requires end == start + |backing| * FRAME_SIZE
      modifies this`backing, vmm`ram, vmm`tables, vmm.pmm`freeFrames, vmm.pmm`free, vmm.pmm.bitmap
      ensures Owns()
      ensures Kept(old(vmm.tables), old(vmm.Mapping()), vmm.tables, vmm.Mapping())
      ensures ok <==> |old(vmm.pmm.free)| >= |Needs(old(vmm.tables), KeysOf(end, pages))|
      ensures TablesFor(old(vmm.tables), vmm.tables, KeysOf(end, pages))
      ensures ok ==> backing == old(backing) + FrameSeq(Frame(phys), pages)
      ensures !ok ==> backing == old(backing) && vmm.Mapping() == old(vmm.Mapping())
      ensures !ok ==> vmm.pmm.free == Frames(Frame(phys), pages)
    {
      hide Needs, KeysOf, TablesFor, View.Good, Vmm.Mapping, Owned, Backs, GoodRegion, Frames, FrameSeq, Frame, Address,
        RangeFree, PageMap, Grown, Distinct, Vmm.Valid, ToSet, Kept, Owns;
      ghost var b0, first := backing, Frame(phys);
      ghost var t1, f1, m1 := vmm.tables, vmm.pmm.free, vmm.Mapping();
      RoomToGrow(m1, start, b0, pages);
      assert RangeFree(m1, end, pages);
      RegionEnd(start, |b0|);
      PhysicalBelow(phys, pages);
      ghost var enough := |f1| >= |Needs(t1, KeysOf(end, pages))|;
      ok := vmm.MapRange(end, phys, pages, HEAP_FLAGS);
      assert ok <==> enough;
      vmm.ValidIsGood();
      GoodTables(vmm.Look());
      ghost var t2, f2, m2 := vmm.tables, vmm.pmm.free, vmm.Mapping();
      RangeMapped(start, b0, end, pool, phys, pages, ok, t1, f1, m1, t2, f2, m2, KeysOf(end, pages));
      if ok {
        backing := backing + FrameSeq(first, pages);
        OwnsAll();
      } else {
        assert vmm.pmm.free == {};
        GiveBack(phys, pages);
      }
      assert vmm.Mapping() == m2;
    }

    lemma OwnsAll()
      requires vmm.Valid() && GoodRegion(start) && |backing| <= HEAP_MAX_PAGES && pool <= vmm.direct
      requires Owned(vmm.pmm.free, vmm.tables, backing, pool) && Backs(vmm.Mapping(), start, backing)
      ensures Owns()
    {}

    /** Frames that were to go behind the heap, when none other are left, go back to the allocator. */
    method GiveBack(phys: nat, pages: nat)
      requires vmm.Valid() && GoodRegion(start) && |backing| <= HEAP_MAX_PAGES
      requires pool <= vmm.direct && Backs(vmm.Mapping(), start, backing)
      requires Owned(vmm.pmm.free, vmm.tables, backing + FrameSeq(Frame(phys), pages), pool) && vmm.pmm.free == {}
      modifies vmm.pmm`freeFrames, vmm.pmm`free, vmm.pmm.bitmap
      ensures Owns() && vmm.pmm.free == Frames(Frame(phys), pages)
    {
      hide View.Good, Paging.Mapping, Owned, Backs, GoodRegion, Frames, FrameSeq, Frame, Address, Distinct, Vmm.Valid, ToSet;
      ghost var f, first := vmm.pmm.free, Frame(phys);
      OwnedReturn(f, vmm.tables, backing, pool, first, pages);
      vmm.ReturnFrames(phys, pages);
      assert f + Frames(first, pages) == Frames(first, pages);
    }

    /** Puts one free block behind the last one, in memory that just became accessible. */
    method AppendBlock(pages: nat)
      requires ListOk() && 0 < pages && |mem.bytes| + pages * FRAME_SIZE <= HEAP_MAX
      modifies this`end, this`list, mem
      ensures ListOk() && |mem.bytes| == |old(mem.bytes)| + pages * FRAME_SIZE
      ensures list == Blocks.Grow(old(list), |old(mem.bytes)|, pages * FRAME_SIZE)
      ensures LivePreserved(old(mem.bytes), old(list), mem.bytes, list)
    {
      hide Holds, HeaderAt, Tiled, LivePreserved, Blocks.Grow;
      ghost var m0, bs, hi := mem.bytes, list, |mem.bytes|;
      HeldBlock(m0, start, bs, hi, 0);
      HeldBlock(m0, start, bs, hi, |bs| - 1);
      mem.Extend(pages * FRAME_SIZE);
      ghost var m1 := mem.bytes;
      LongerHolds(m0, m1, start, bs, hi);
      var block := end;
      SetFree(block, true);
      ghost var m2 := mem.bytes;
      SetSize(block, pages * FRAME_SIZE - META);
      ghost var m3 := mem.bytes;
      SetNext(block, 0);
      ghost var m4 := mem.bytes;
      NewHeader(m1, m2, m3, m4, hi, pages * FRAME_SIZE - META);
      BelowHolds(m1, m4, start, bs, hi);
      var last := LastBlock(hi);
      SetNext(last, block);
      AppendStores(m0, m1, m4, mem.bytes, hi, bs[|bs| - 1].at, block);
      AppendHolds(m0, mem.bytes, start, bs, hi, pages * FRAME_SIZE);
      end := end + pages * FRAME_SIZE;
      list := Blocks.Grow(list, hi, pages * FRAME_SIZE);
    }

    /** Follows the links to the last header. */
    method LastBlock(ghost hi: nat) returns (last: nat)
      requires GoodRegion(start) && freeList == start && hi <= |mem.bytes|
      requires Holds(mem.bytes, start, list, hi)
      ensures list != [] && last == start + list[|list| - 1].at
    {
      hide HeaderAt, Tiled;
      HeldBlock(mem.bytes, start, list, hi, 0);
      last := freeList;
      ghost var i := 0;
      while NextOf(last) != 0
        invariant i < |list| && last == start + list[i].at && InHeap(last)
        invariant NextOf(last) == if i + 1 < |list| then start + list[i + 1].at else 0
        decreases |list| - i
      {
        HeldBlock(mem.bytes, start, list, hi, i + 1);
        last := NextOf(last);
        i := i + 1;
      }
    }

    /** Makes room for `bytes` more bytes, in whole pages, as one free block at the end. */
    method Grow(bytes: nat) returns (ok: bool)
      requires ListOk() && Owns() && |mem.bytes| == |backing| * FRAME_SIZE
      requires 0 < bytes <= HEAP_MAX + META
      modifies this`end, this`list, this`backing, mem, vmm`ram, vmm`tables, vmm.pmm`freeFrames, vmm.pmm`free, vmm.pmm.bitmap
      ensures ListOk() && Owns() && |mem.bytes| == |backing| * FRAME_SIZE
      ensures Kept(old(vmm.tables), old(vmm.Mapping()), vmm.tables, vmm.Mapping())
      ensures ok ==> list == Blocks.Grow(old(list), |old(mem.bytes)|, Space(bytes))
                     && |mem.bytes| == |old(mem.bytes)| + Space(bytes)
      ensures LivePreserved(old(mem.bytes), old(list), mem.bytes, list)
      ensures !ok ==> list == old(list) && mem.bytes == old(mem.bytes) && backing == old(backing)
                      && vmm.Mapping() == old(vmm.Mapping())
      ensures ok <==> |old(mem.bytes)| + Space(bytes) <= HEAP_MAX
                      && !Starved(old(vmm.tables), old(vmm.pmm.free), start + |old(mem.bytes)|, PagesFor(bytes))
      ensures TablesFor(old(vmm.tables), vmm.tables, KeysOf(start + |old(mem.bytes)|, PagesFor(bytes)))
    {
      hide Holds, LivePreserved, Owns, Blocks.Grow, GoodRegion, Starved, Kept, TablesFor, KeysOf, Leftover;
      LiveSame(mem.bytes, start, list, |mem.bytes|);
      KeptSame(vmm.tables, vmm.Mapping());
      TablesSame(vmm.tables, KeysOf(start + |mem.bytes|, PagesFor(bytes)));
      var pages := PagesFor(bytes);
      if end + pages * FRAME_SIZE > start + HEAP_MAX {
        return false;
      }
      ok := BackPages(pages);
      if ok {
        AppendBlock(pages);
      }
    }

    // ---- The public calls ----

    /** What the calls need of a valid heap. */
    lemma ListHolds()
      requires Valid()
      ensures ListOk() && Owns() && |mem.bytes| == |backing| * FRAME_SIZE && Canonical(list)
      ensures Holds(mem.bytes, start, list, |mem.bytes|)
    {
      hide Owns, Canonical, GoodRegion, Holds;
    }

    /** What holds between public calls. */
    ghost predicate Valid()
      reads this, mem, vmm, vmm.pmm, vmm.pmm.bitmap
    {
      ListOk() && Owns() && |mem.bytes| == |backing| * FRAME_SIZE && Canonical(list)
    }

    /** The first free block of at least `want` bytes, or the null pointer. */
    method FindFit(want: nat) returns (block: nat, ghost i: nat)
      requires ListOk()
      ensures block == 0 ==> NoFit(list, want)
      ensures block != 0 ==> FirstFit(list, i, want) && block == start + list[i].at
    {
      hide Holds, HeaderAt, Tiled;
      HeldBlock(mem.bytes, start, list, |mem.bytes|, 0);
      BlockRead(0);
      block, i := freeList, 0;
      while block != 0
        invariant i <= |list| && block == (if i < |list| then start + list[i].at else 0)
        invariant block != 0 ==> InHeap(block)
        invariant forall j :: 0 <= j < i ==> !list[j].Fits(want)
        decreases |list| - i
      {
        BlockRead(i);
        if IsFree(block) && SizeOf(block) >= want {
          return;
        }
        if i + 1 < |list| {
          BlockRead(i + 1);
        }
        block := NextOf(block);
        i := i + 1;
      }
    }

    /** Allocates `size` bytes, growing the heap once if nothing fits; 0 when that is refused. */
    method Alloc(size: nat) returns (ptr: nat)
      requires ListOk() && Owns() && |mem.bytes| == |backing| * FRAME_SIZE
      requires Canonical(list) || (0 < size <= HEAP_MAX && Mendable(list, Align16(size)))
      modifies this`end, this`list, this`backing, mem, vmm`ram, vmm`tables, vmm.pmm`freeFrames, vmm.pmm`free, vmm.pmm.bitmap
      decreases if NoFit(list, Align16(size)) then 1 else 0
      ensures Valid() && Kept(old(vmm.tables), old(vmm.Mapping()), vmm.tables, vmm.Mapping())
      ensures LivePreserved(old(mem.bytes), old(list), mem.bytes, list)
      ensures ptr == 0 ==> list == old(list) && mem.bytes == old(mem.bytes) && backing == old(backing)
                           && vmm.Mapping() == old(vmm.Mapping())
      ensures ptr == 0 <==> Refused(Shape(old(list), |old(mem.bytes)|), old(vmm.tables), old(vmm.pmm.free), start, size)
      ensures TablesFor(old(vmm.tables), vmm.tables, GrowthKeys(Shape(old(list), |old(mem.bytes)|), start, size))
      ensures ptr != 0 ==> 0 < size <= HEAP_MAX && ptr >= start
      ensures ptr != 0 ==> Allocated(Shape(old(list), |old(mem.bytes)|), Align16(size),
                                     Shape(list, |mem.bytes|), ptr - start)
    {
      hide Holds, LivePreserved, Owns, GoodRegion, Starved, Kept, Allocated, Take, Blocks.Grow, Canonical, NoFit, FirstFit, Mendable,
        TablesFor, KeysOf;
      ghost var m0, bs := mem.bytes, list;
      LiveSame(m0, start, bs, |m0|);
      KeptSame(vmm.tables, vmm.Mapping());
      TablesSame(vmm.tables, GrowthKeys(Shape(bs, |m0|), start, size));
      if size == 0 { return 0; }
      if size > HEAP_MAX { return 0; }
      AlignedSize(size);
      var want := Align16(size);
      var block, i := FindFit(want);
      if block != 0 {
        FitTaken(bs, |m0|, i, want);
        TakeBlock(block, want, i);
        StartPositive();
        return block + META;
      }
      NoFitIsCanonical(bs, want);
      var grown := Grow(want + META);
      if !grown {
        return 0;
      }
      ghost var m1, bs1, t1, k1 := mem.bytes, list, vmm.tables, vmm.Mapping();
      GrownFits(m0, start, bs, |m0|, want);
      ptr := Alloc(want);
      LiveTwice(m0, bs, m1, bs1, mem.bytes, list);
      KeptTwice(old(vmm.tables), old(vmm.Mapping()), t1, k1, vmm.tables, vmm.Mapping());
      NoMoreTables(old(vmm.tables), t1, vmm.tables, KeysOf(start + |m0|, PagesFor(want + META)));
      AllocatedGrown(bs, |m0|, want, Shape(list, |mem.bytes|), ptr - start);
    }

    /** Different live payloads share no byte with each other or with any header, and lie inside the heap. */
    lemma LiveApart(p: nat, i: nat, q: nat, j: nat)
      requires ListOk() && Live(p, i) && Live(q, j) && p != q
      ensures p + list[i].size <= q || q + list[j].size <= p
      ensures start <= p && p + list[i].size <= end
      ensures forall h :: 0 <= h < |list| ==>
                            start + list[h].Payload() <= p || p + list[i].size <= start + list[h].at
    {
      TiledBounds(list, 0, |mem.bytes|, i);
      if i < j {
        TiledOrder(list, 0, |mem.bytes|, i, j);
      } else {
        TiledOrder(list, 0, |mem.bytes|, j, i);
      }
      forall h | 0 <= h < |list|
        ensures start + list[h].Payload() <= p || p + list[i].size <= start + list[h].at
      {
        if h < i {
          TiledOrder(list, 0, |mem.bytes|, h, i);
        } else if i < h {
          TiledOrder(list, 0, |mem.bytes|, i, h);
        }
      }
    }

    /** Gives a block back; the null pointer is ignored. */
    method Free(ptr: nat, ghost i: nat)
      requires Valid() && (ptr != 0 ==> Live(ptr, i))
      modifies mem, this`list
      ensures Valid() && |mem.bytes| == |old(mem.bytes)|
      ensures ptr == 0 ==> list == old(list) && mem.bytes == old(mem.bytes)
      ensures ptr != 0 ==> list == Release(old(list), i)
      ensures ptr != 0 ==> forall b :: b in old(list) && !b.free && b != old(list)[i] ==>
                Preserved(old(mem.bytes), mem.bytes, list, b)
    {
      hide Holds, Owns, GoodRegion, Canonical, Release, Preserved, LivePreserved;
      ghost var m0, bs := mem.bytes, list;
      if ptr == 0 {
        return;
      }
      FreeBlock(ptr, i);
      ReleasedIsCanonical(bs, i);
      OneBlockPerPlace(m0, start, bs, |m0|, i);
    }

    /** Giving back what was just allocated restores the block list, up to the free space a growth added. */
    method AllocThenFree(size: nat)
      requires Valid()
      modifies this`end, this`list, this`backing, mem, vmm`ram, vmm`tables, vmm.pmm`freeFrames, vmm.pmm`free, vmm.pmm.bitmap
      ensures Valid() && Kept(old(vmm.tables), old(vmm.Mapping()), vmm.tables, vmm.Mapping())
      ensures |mem.bytes| == |old(mem.bytes)| ==> list == old(list)
      ensures |mem.bytes| != |old(mem.bytes)| ==>
                NoFit(old(list), Align16(size))
                && list == Coalesce(Blocks.Grow(old(list), |old(mem.bytes)|, Space(Align16(size) + META)))
      ensures forall b :: b in old(list) && !b.free ==> Preserved(old(mem.bytes), mem.bytes, list, b)
    {
      hide Holds, Owns, GoodRegion, Kept, Allocated, Align16, Preserved, Refused, Release, Coalesce, Blocks.Grow, NoFit, Canonical,
        TablesFor, GrowthKeys;
      ghost var m0, bs := mem.bytes, list;
      var ptr := Alloc(size);
      if ptr != 0 {
        ghost var m1, bs1 := mem.bytes, list;
        ghost var i := NewBlock(m0, start, bs, Align16(size), bs1, m1, ptr - start);
        Free(ptr, i);
        OneBlockPerPlace(m1, start, bs1, |m1|, i);
        AllocatedReleased(bs, |m0|, Align16(size), m1, start, bs1, i);
        forall b | b in bs && !b.free ensures Preserved(m0, mem.bytes, list, b) {
          InBoth(m0, m1, bs1, b, mem.bytes, list);
        }
      }
    }

    /** Allocates zeroed bytes for `count` items; the product cannot wrap. */
    method Calloc(count: nat, size: nat) returns (ptr: nat, ghost i: nat)
      requires Valid()
      modifies this`end, this`list, this`backing, mem, vmm`ram, vmm`tables, vmm.pmm`freeFrames, vmm.pmm`free, vmm.pmm.bitmap
      ensures Valid() && Kept(old(vmm.tables), old(vmm.Mapping()), vmm.tables, vmm.Mapping())
      ensures LivePreserved(old(mem.bytes), old(list), mem.bytes, list)
      ensures ptr == 0 ==> list == old(list) && mem.bytes == old(mem.bytes) && backing == old(backing)
      ensures ptr == 0 <==>
                Refused(Shape(old(list), |old(mem.bytes)|), old(vmm.tables), old(vmm.pmm.free), start, Times(count, size))
      ensures TablesFor(old(vmm.tables), vmm.tables,
                        GrowthKeys(Shape(old(list), |old(mem.bytes)|), start, Times(count, size)))
      ensures ptr != 0 ==> 0 < Times(count, size) <= HEAP_MAX && Live(ptr, i)
      ensures ptr != 0 ==> Allocated(Shape(old(list), |old(mem.bytes)|), Align16(Times(count, size)),
                                     Shape(list, |mem.bytes|), list[i].Payload())
      ensures ptr != 0 ==> Begins(mem.bytes, list[i], Zeros(Times(count, size)))
      ensures ptr != 0 ==> ItemsZero(mem.bytes, list[i], count, size)
    {
      hide Holds, LivePreserved, Owns, GoodRegion, Kept, Allocated, Canonical, Begins, Times, Refused, Zeros, TablesFor, GrowthKeys,
        ItemsZero;
      if size != 0 && count > HEAP_MAX / size {
        LiveSame(mem.bytes, start, list, |mem.bytes|);
        KeptSame(vmm.tables, vmm.Mapping());
        ProductTooLarge(count, size);
        TooLarge(Shape(list, |mem.bytes|), vmm.tables, vmm.pmm.free, start, Times(count, size));
        TablesSame(vmm.tables, GrowthKeys(Shape(list, |mem.bytes|), start, Times(count, size)));
        return 0, 0;
      }
      ptr, i := AllocZeroed(Times(count, size));
      if ptr != 0 {
        AllItemsZero(mem.bytes, list[i], count, size);
      }
    }

    /** Allocates `size` bytes and fills them with zeros; `i` is the index of the new block. */
    method AllocZeroed(size: nat) returns (ptr: nat, ghost i: nat)
      requires Valid()
      modifies this`end, this`list, this`backing, mem, vmm`ram, vmm`tables, vmm.pmm`freeFrames, vmm.pmm`free, vmm.pmm.bitmap
      ensures Valid() && Kept(old(vmm.tables), old(vmm.Mapping()), vmm.tables, vmm.Mapping())
      ensures LivePreserved(old(mem.bytes), old(list), mem.bytes, list)
      ensures ptr == 0 ==> list == old(list) && mem.bytes == old(mem.bytes) && backing == old(backing)
      ensures ptr == 0 <==> Refused(Shape(old(list), |old(mem.bytes)|), old(vmm.tables), old(vmm.pmm.free), start, size)
      ensures TablesFor(old(vmm.tables), vmm.tables, GrowthKeys(Shape(old(list), |old(mem.bytes)|), start, size))
      ensures ptr != 0 ==> 0 < size <= HEAP_MAX && Live(ptr, i)
      ensures ptr != 0 ==> Allocated(Shape(old(list), |old(mem.bytes)|), Align16(size),
                                     Shape(list, |mem.bytes|), list[i].Payload())
      ensures ptr != 0 ==> Begins(mem.bytes, list[i], Zeros(size))
    {
      hide Holds, LivePreserved, Owns, GoodRegion, Kept, Allocated, Canonical, Align16, Preserved, Begins, Refused,
        TablesFor, GrowthKeys;
      ghost var m0, bs := mem.bytes, list;
      i := 0;
      ptr := Alloc(size);
      if ptr != 0 {
        ghost var m1 := mem.bytes;
        i := NewBlock(m0, start, bs, Align16(size), list, m1, ptr - start);
        AlignedAbove(size);
        BlockRead(i);
        mem.Memset(ptr - start, 0, size);
        FilledHolds(m1, mem.bytes, start, list, |m1|, i, Zeros(size));
        FreshLive(m0, bs, m1, list, mem.bytes, i);
      }
    }

    /** Copies the whole payload of block `o` to the beginning of block `n`. */
    method CopyPayload(ptr: nat, newptr: nat, ghost o: nat, ghost n: nat)
      requires ListOk() && Live(ptr, o) && Live(newptr, n) && o != n && list[n].size >= list[o].size
      modifies mem
      ensures ListOk() && |mem.bytes| == |old(mem.bytes)|
      ensures list[o].End() <= |old(mem.bytes)| && Begins(mem.bytes, list[n], old(Content(mem.bytes, list[o])))
      ensures forall j :: 0 <= j < |list| && j != n ==> Preserved(old(mem.bytes), mem.bytes, list, list[j])
    {
      hide Holds, GoodRegion, Preserved, Begins, Patch, HeaderAt, HeaderFor;
      ghost var m := mem.bytes;
      BlockRead(o);
      BlockRead(n);
      assert ptr - start == list[o].Payload() && newptr - start == list[n].Payload();
      mem.Bcopy(ptr - start, newptr - start, SizeOf(ptr - META));
      FilledHolds(m, mem.bytes, start, list, |m|, n, Content(m, list[o]));
    }

    /**
     * Moves block `i` to a new one, index `k`. The code copies all that the old block holds, without asking
     * whether the new one can take it; where it cannot, `within` is false and the method ends before the
     * copy. `mid` is the list after the allocation, in which the old block has index `o`.
     */
    method Realloc(ptr: nat, size: nat, ghost i: nat)
      returns (newptr: nat, within: bool, ghost k: nat, ghost mid: BlockList, ghost o: nat)
      requires Valid() && Live(ptr, i)
      modifies this`end, this`list, this`backing, mem, vmm`ram, vmm`tables, vmm.pmm`freeFrames, vmm.pmm`free, vmm.pmm.bitmap
      ensures Valid() && Kept(old(vmm.tables), old(vmm.Mapping()), vmm.tables, vmm.Mapping())
      ensures newptr == 0 ==> within && list == old(list) && mem.bytes == old(mem.bytes) && backing == old(backing)
      ensures newptr == 0 <==> Refused(Shape(old(list), |old(mem.bytes)|), old(vmm.tables), old(vmm.pmm.free), start, size)
      ensures TablesFor(old(vmm.tables), vmm.tables, GrowthKeys(Shape(old(list), |old(mem.bytes)|), start, size))
      ensures newptr != 0 ==>
                && 0 < size <= HEAP_MAX && Live(newptr, k)
                && Allocated(Shape(old(list), |old(mem.bytes)|), Align16(size), Shape(mid, |mem.bytes|), list[k].Payload())
                && o < |mid| && mid[o] == old(list[i]) && list[k] in mid && mid[o].at != list[k].at
                && (within <==> list[k].size >= old(list[i].size))
      ensures !within ==> newptr != 0 && list == mid && LivePreserved(old(mem.bytes), old(list), mem.bytes, list)
      ensures newptr != 0 && within ==>
                list == Release(mid, o)
                && old(list[i].End() <= |mem.bytes|) && Begins(mem.bytes, list[k], old(Content(mem.bytes, list[i])))
      ensures newptr != 0 && within ==> OthersPreserved(old(mem.bytes), old(list), i, mem.bytes, list)
    {
      hide Valid, ListOk, Holds, LivePreserved, Owns, Kept, Allocated, Canonical, Align16, Preserved, Begins, Release, Content,
        Refused, Vmm.Mapping, Located, OthersPreserved, TablesFor, GrowthKeys;
      k, mid, o, within := 0, list, 0, true;
      ghost var m0, bs := mem.bytes, list;
      ghost var n;
      newptr, n, o := AllocBeside(ptr, size, i);
      if newptr == 0 {
        return;
      }
      mid := list;
      ListHolds();
      BlockRead(o);
      BlockRead(n);
      within := SizeOf(newptr - META) >= SizeOf(ptr - META);
      if !within {
        k := n;
        return;
      }
      k := MoveAlong(ptr, newptr, o, n, m0, bs, i);
    }

    /** Allocates while block `i` is in use: that block is block `o` afterwards and the new one block `n`. */
    method AllocBeside(ptr: nat, size: nat, ghost i: nat) returns (newptr: nat, ghost n: nat, ghost o: nat)
      requires Valid() && Live(ptr, i)
      modifies this`end, this`list, this`backing, mem, vmm`ram, vmm`tables, vmm.pmm`freeFrames, vmm.pmm`free, vmm.pmm.bitmap
      ensures Valid() && Kept(old(vmm.tables), old(vmm.Mapping()), vmm.tables, vmm.Mapping())
      ensures newptr == 0 ==> list == old(list) && mem.bytes == old(mem.bytes) && backing == old(backing)
      ensures newptr == 0 <==> Refused(Shape(old(list), |old(mem.bytes)|), old(vmm.tables), old(vmm.pmm.free), start, size)
      ensures TablesFor(old(vmm.tables), vmm.tables, GrowthKeys(Shape(old(list), |old(mem.bytes)|), start, size))
      ensures newptr != 0 ==>
                && 0 < size <= HEAP_MAX && Live(ptr, o) && Live(newptr, n) && list[n].Payload() == newptr - start
                && Allocated(Shape(old(list), |old(mem.bytes)|), Align16(size), Shape(list, |mem.bytes|), newptr - start)
                && Located(old(mem.bytes), old(list), i, mem.bytes, list, o, n)
                && list[o] == old(list[i]) && list[o].at != list[n].at && old(list[i].End() <= |mem.bytes|)
                && LivePreserved(old(mem.bytes), old(list), mem.bytes, list)
    {
      hide Valid, ListOk, Holds, LivePreserved, Owns, Kept, Allocated, Canonical, Align16, Preserved, Content,
        Refused, Vmm.Mapping, Located, TablesFor, GrowthKeys;
      n, o := 0, 0;
      ghost var m0, bs := mem.bytes, list;
      ListHolds();
      newptr := Alloc(size);
      if newptr != 0 {
        n, o := Locate(m0, start, bs, i, Align16(size), mem.bytes, list, newptr - start);
      }
    }

    /** The copy and the free after an allocation, told from the state `m0` and the list `bs` before it. */
    method MoveAlong(ptr: nat, newptr: nat, ghost o: nat, ghost n: nat, ghost m0: seq<byte>, ghost bs: BlockList, ghost i: nat)
      returns (ghost k: nat)
      requires Valid() && Live(ptr, o) && Live(newptr, n) && list[n].size >= list[o].size
      requires Located(m0, bs, i, mem.bytes, list, o, n)
      modifies this`list, mem
      ensures Valid() && |mem.bytes| == |old(mem.bytes)|
      ensures list == Release(old(list), o) && Live(newptr, k) && list[k] == old(list[n])
      ensures Begins(mem.bytes, list[k], Content(m0, bs[i]))
      ensures OthersPreserved(m0, bs, i, mem.bytes, list)
    {
      hide Valid, LivePreserved, Preserved, Begins, Release, Content;
      ghost var m1, bs1 := mem.bytes, list;
      k := MoveTo(ptr, newptr, o, n);
      KeptAlong(m0, bs, i, m1, bs1, n, mem.bytes, list);
    }

    /** Copies block `o` to the beginning of block `n` and frees it; `k` is where block `n` is then. */
    method MoveTo(ptr: nat, newptr: nat, ghost o: nat, ghost n: nat) returns (ghost k: nat)
      requires Valid() && Live(ptr, o) && Live(newptr, n) && o != n && list[n].size >= list[o].size
      modifies this`list, mem
      ensures Valid() && |mem.bytes| == |old(mem.bytes)|
      ensures list == Release(old(list), o) && Live(newptr, k) && list[k] == old(list[n])
      ensures old(list[o].End() <= |mem.bytes|) && Begins(mem.bytes, list[k], old(Content(mem.bytes, list[o])))
      ensures forall b :: b in old(list) && !b.free && b.at != old(list[o]).at && b.at != old(list[n]).at ==>
                Preserved(old(mem.bytes), mem.bytes, list, b)
    {
      hide Holds, Owns, GoodRegion, Canonical, Preserved, Begins, Release, Content;
      ghost var m0, bs := mem.bytes, list;
      CopyPayload(ptr, newptr, o, n);
      ghost var m1 := mem.bytes;
      BlocksApart(m0, start, bs, |m0|, o, n);
      FreeBlock(ptr, o);
      ReleasedIsCanonical(bs, o);
      k := MovedBlock(m0, bs, o, n, m1, mem.bytes, list, Content(m0, bs[o]));
    }

    /** The first block: all of the memory the heap starts with. `ok` is false where the source panics. */
    method Init(start0: nat, size0: nat) returns (ok: bool)
      requires vmm.Valid() && GoodRegion(start0) && mem.bytes == []
      requires Owned(vmm.pmm.free, vmm.tables, [], pool) && pool <= vmm.direct
      requires forall i :: 0 <= i < HEAP_MAX_PAGES ==> KeyAt(start0, i) !in vmm.Mapping()
      modifies this, mem, vmm`ram, vmm`tables, vmm.pmm`freeFrames, vmm.pmm`free, vmm.pmm.bitmap
      ensures vmm.Valid() && pool == old(pool) && start == start0
      ensures ok ==> Valid() && Kept(old(vmm.tables), old(vmm.Mapping()), vmm.tables, vmm.Mapping())
      ensures ok ==> list == [Block(0, |mem.bytes| - META, true)]
                     && |backing| == (if size0 > HEAP_MAX_PAGES then HEAP_MAX_PAGES else size0)
      ensures ok <==> size0 != 0
                      && !Starved(old(vmm.tables), old(vmm.pmm.free), start0,
                                  if size0 > HEAP_MAX_PAGES then HEAP_MAX_PAGES else size0)
      ensures TablesFor(old(vmm.tables), vmm.tables, KeysOf(start0, if size0 > HEAP_MAX_PAGES then HEAP_MAX_PAGES else size0))
      ensures Kept(old(vmm.tables), old(vmm.Mapping()), vmm.tables, vmm.Mapping())
      ensures !ok ==> vmm.Mapping() == old(vmm.Mapping())
    {
      hide Holds, Owned, GoodRegion, Starved, Vmm.Valid, Backs, Canonical, Kept, TablesFor, KeysOf, Leftover;
      KeptSame(vmm.tables, vmm.Mapping());
      NothingBacked(vmm.Mapping(), start0);
      var size := if size0 > HEAP_MAX_PAGES then HEAP_MAX_PAGES else size0;
      start, end, freeList := start0, start0, start0;
      backing, list := [], [];
      TablesSame(vmm.tables, KeysOf(start0, size));
      if size == 0 {
        return false;
      }
      ok := BackPages(size);
      if !ok {
        return;
      }
      OpenHeap(size);
    }

    /** One free block over all of the memory that was just mapped. */
    method OpenHeap(size: nat)
      requires GoodRegion(start) && freeList == start && mem.bytes == [] && 0 < size <= HEAP_MAX_PAGES
      modifies this`end, this`list, mem
      ensures ListOk() && Canonical(list) && |mem.bytes| == size * FRAME_SIZE
      ensures list == [Block(0, |mem.bytes| - META, true)]
    {
      hide Holds, HeaderAt, Tiled;
      mem.Extend(size * FRAME_SIZE);
      end := start + size * FRAME_SIZE;
      ghost var m1 := mem.bytes;
      SetSize(freeList, (end - start) - META);
      ghost var m2 := mem.bytes;
      SetFree(freeList, true);
      ghost var m3 := mem.bytes;
      SetNext(freeList, 0);
      FirstBlock(m1, m2, m3, mem.bytes, start);
      list := [Block(0, |mem.bytes| - META, true)];
    }
  }

  /** A list that the allocation of `want` bytes makes canonical. */
  ghost predicate Mendable(bs: BlockList, want: nat) {
    exists i: nat :: FirstFit(bs, i, want) && Canonical(Take(bs, i, want))
  }

  lemma AlignedSize(size: nat)
    requires 0 < size <= HEAP_MAX
    ensures 0 < Align16(size) <= HEAP_MAX && Align16(Align16(size)) == Align16(size)
  {}

  lemma FirstFitUnique(bs: BlockList, i: nat, j: nat, want: nat)
    requires FirstFit(bs, i, want) && FirstFit(bs, j, want)
    ensures i == j
  {}

  /** Taking the first fit gives a canonical list and is what `Allocated` asks for. */
  lemma FitTaken(bs: BlockList, len: nat, i: nat, want: nat)
    requires FirstFit(bs, i, want) && (Canonical(bs) || Mendable(bs, want))
    ensures i < |bs| && bs[i].Fits(want) && Canonical(Take(bs, i, want)) && !NoFit(bs, want)
    ensures Allocated(Shape(bs, len), want, Shape(Take(bs, i, want), len), bs[i].at + META)
  {
    hide Take, Canonical;
    if Canonical(bs) {
      TakeCanonical(bs, i, want);
    } else {
      var j: nat :| FirstFit(bs, j, want) && Canonical(Take(bs, j, want));
      FirstFitUnique(bs, i, j, want);
    }
    assert Shape(Take(bs, i, want), len) == After(Shape(bs, len), Allocate(i, want));
  }

  lemma NoFitIsCanonical(bs: BlockList, want: nat)
    requires NoFit(bs, want) && (Canonical(bs) || Mendable(bs, want))
    ensures Canonical(bs)
  {
    hide Take, Canonical;
  }

  /** After a growth for it, the request fits, in the new block only. */
  lemma GrownFits(mem: seq<byte>, start: nat, bs: BlockList, hi: nat, want: nat)
    requires Holds(mem, start, bs, hi) && Canonical(bs) && NoFit(bs, want)
    ensures Mendable(Blocks.Grow(bs, hi, Space(want + META)), want)
    ensures !NoFit(Blocks.Grow(bs, hi, Space(want + META)), want)
  {
    GrowThenTake(bs, 0, hi, Space(want + META), want);
    var g := Blocks.Grow(bs, hi, Space(want + META));
    assert FirstFit(g, |bs|, want) && Canonical(Take(g, |bs|, want));
  }

  /** Growing and then allocating is one allocation, seen from before the growth. */
  lemma AllocatedGrown(bs: BlockList, hi: nat, want: nat, h: Shape, payload: nat)
    requires NoFit(bs, want)
    requires Allocated(Shape(Blocks.Grow(bs, hi, Space(want + META)), hi + Space(want + META)), want, h, payload)
    ensures Allocated(Shape(bs, hi), want, h, payload)
  {
    hide Take;
    var bytes := Space(want + META);
    var g := Blocks.Grow(bs, hi, bytes);
    assert g[|bs|].Fits(want);
    forall j | 0 <= j < |bs| ensures !g[j].Fits(want) {}
    assert FirstFit(g, |bs|, want);
    var i: nat :| FirstFit(g, i, want) && h == After(Shape(g, hi + bytes), Allocate(i, want)) && payload == g[i].Payload();
    FirstFitUnique(g, i, |bs|, want);
  }

  /** Every table stays where it was, and every mapping stays as it was. */
  ghost predicate Kept(tables: Tables, m: map<nat, Entry>, tables': Tables, m': map<nat, Entry>) {
    && (forall n :: n in tables ==> n in tables' && tables'[n] == tables[n])
    && (forall k :: k in m ==> k in m' && m'[k] == m[k])
  }

  lemma KeptSame(tables: Tables, m: map<nat, Entry>)
    ensures Kept(tables, m, tables, m)
  {}

  lemma KeptTwice(t0: Tables, m0: map<nat, Entry>, t1: Tables, m1: map<nat, Entry>, t2: Tables, m2: map<nat, Entry>)
    requires Kept(t0, m0, t1, m1) && Kept(t1, m1, t2, m2)
    ensures Kept(t0, m0, t2, m2)
  {}

  /** What mapping taken frames behind the heap does to ownership and backing. */
  lemma RangeMapped(start: nat, backing: seq<nat>, end: nat, pool: set<nat>, phys: nat, pages: nat, ok: bool,
                    t1: Tables, f1: set<nat>, m1: map<nat, Entry>, t2: Tables, f2: set<nat>, m2: map<nat, Entry>,
                    keys: set<nat>)
    requires GoodRegion(start) && |backing| + pages <= HEAP_MAX_PAGES && Backs(m1, start, backing)
    requires end == start + |backing| * FRAME_SIZE
    requires phys == Address(Frame(phys)) && Frame(phys) + pages <= MAX_FRAMES
    requires Owned(f1, t1, backing + FrameSeq(Frame(phys), pages), pool)
    requires Grown(t1, f1, t2, f2, keys) && Distinct(t2) && t2.Values !! f2
    requires ok ==> RangeFree(m1, end, pages)
    requires ok ==> m2 == m1 + PageMap(end, phys, pages, HEAP_FLAGS)
    requires !ok ==> m2 == m1
    ensures Kept(t1, m1, t2, m2) && TablesFor(t1, t2, keys) && Owned(f2, t2, backing + FrameSeq(Frame(phys), pages), pool)
    ensures ok ==> Backs(m2, start, backing + FrameSeq(Frame(phys), pages))
  {
    hide Owned, Backs, GoodRegion, FrameSeq, Frame, Address, RangeFree, PageMap, Grown, Distinct, Kept, TablesFor;
    RangeKeeps(t1, f1, t2, f2, m1, m2, end, phys, pages, HEAP_FLAGS, keys);
    GrownFor(t1, f1, t2, f2, keys);
    OwnedGrown(f1, t1, backing + FrameSeq(Frame(phys), pages), pool, f2, t2, keys);
    if ok {
      BackedFurther(m1, start, backing, Frame(phys), pages);
    }
  }

  /** A range mapping over free pages, or one that failed, loses nothing. */
  lemma RangeKeeps(tables: Tables, free: set<nat>, tables': Tables, free': set<nat>, m: map<nat, Entry>, m': map<nat, Entry>,
                   virt: nat, phys: nat, count: nat, flags: Flags, keys: set<nat>)
    requires Grown(tables, free, tables', free', keys)
    requires m' == m || (RangeFree(m, virt, count) && m' == m + PageMap(virt, phys, count, flags))
    ensures Kept(tables, m, tables', m')
  {
    hide KeysOf, DistinctKeys, PathNodes;
  }

  lemma GrownFor(tables: Tables, free: set<nat>, tables': Tables, free': set<nat>, keys: set<nat>)
    requires Grown(tables, free, tables', free', keys)
    ensures TablesFor(tables, tables', keys)
  {
    hide PathNodes;
  }

  lemma NothingTaken(free: set<nat>, pages: nat)
    ensures Leftover(free, free, pages)
  {}

  /** The heap's end is a 64-bit address. */
  lemma RegionEnd(start: nat, n: nat)
    requires GoodRegion(start) && n <= HEAP_MAX_PAGES
    ensures start + n * FRAME_SIZE < TWO64
  {}

  lemma PhysicalBelow(phys: nat, pages: nat)
    requires phys == Address(Frame(phys)) && Frame(phys) + pages <= MAX_FRAMES
    ensures phys < TWO64
  {}

  lemma ReleasedIsCanonical(bs: BlockList, i: nat)
    requires i < |bs|
    ensures Canonical(Release(bs, i))
  {
    CoalesceCanonical(bs[i := bs[i].(free := true)]);
  }

  /** Different blocks have different headers. */
  lemma OneBlockPerPlace(mem: seq<byte>, start: nat, bs: BlockList, hi: nat, i: nat)
    requires Holds(mem, start, bs, hi) && i < |bs|
    ensures forall b :: b in bs && b.at == bs[i].at ==> b == bs[i]
  {
    forall b | b in bs && b.at == bs[i].at ensures b == bs[i] {
      var j :| 0 <= j < |bs| && bs[j] == b;
      if j < i {
        TiledOrder(bs, 0, hi, j, i);
      } else if i < j {
        TiledOrder(bs, 0, hi, i, j);
      }
    }
  }

  /** The division catches exactly the products beyond the heap's limit. */
  /** Where byte `j` of item `i` stands. */
  function ItemByte(i: nat, size: nat, j: nat): nat {
    i * size + j
  }

  /** Every byte of every item lies in the block and is zero. */
  ghost predicate ItemsZero(mem: seq<byte>, b: Block, count: nat, size: nat) {
    b.End() <= |mem| && forall i: nat, j: nat :: i < count && j < size ==> ZeroAt(mem, b, ItemByte(i, size, j))
  }

  ghost predicate ZeroAt(mem: seq<byte>, b: Block, x: nat)
    requires b.End() <= |mem|
  {
    x < b.size && mem[b.Payload() + x] == 0
  }

  lemma AllItemsZero(mem: seq<byte>, b: Block, count: nat, size: nat)
    requires Begins(mem, b, Zeros(Times(count, size)))
    ensures ItemsZero(mem, b, count, size)
  {
    forall i: nat, j: nat | i < count && j < size ensures ZeroAt(mem, b, ItemByte(i, size, j)) {
      ItemInside(i, count, size, j);
      assert Content(mem, b)[ItemByte(i, size, j)] == Zeros(Times(count, size))[ItemByte(i, size, j)];
    }
  }

  lemma ItemInside(i: nat, count: nat, size: nat, j: nat)
    requires i < count && j < size
    ensures ItemByte(i, size, j) < Times(count, size)
  {
    assert (count - i - 1) * size >= 0;
  }

  lemma ProductTooLarge(count: nat, size: nat)
    requires size != 0 && count > HEAP_MAX / size
    ensures Times(count, size) > HEAP_MAX
  {
    var q := HEAP_MAX / size;
    assert (q + 1) * size > HEAP_MAX;
    assert count * size >= (q + 1) * size;
  }

  lemma TooLarge(h: Shape, tables: Tables, free: set<nat>, start: nat, size: nat)
    requires size > HEAP_MAX
    ensures Refused(h, tables, free, start, size)
  {}

  lemma AlignedAbove(x: nat)
    ensures Align16(x) >= x
  {}

  /** The block an allocation returns: in use, large enough, and not in use before. */
  lemma NewBlock(m0: seq<byte>, start: nat, bs: BlockList, want: nat, bs1: BlockList, m1: seq<byte>, payload: nat) returns (k: nat)
    requires Holds(m0, start, bs, |m0|)
    requires Allocated(Shape(bs, |m0|), want, Shape(bs1, |m1|), payload)
    ensures k < |bs1| && !bs1[k].free && bs1[k].Payload() == payload && bs1[k].size >= want
    ensures forall b :: b in bs && !b.free ==> b.at != bs1[k].at
  {
    if NoFit(bs, want) {
      k := |bs|;
      TakenBlock(Blocks.Grow(bs, |m0|, Space(want + META)), k, want);
      AllBelow(m0, start, bs, |m0|);
    } else {
      k :| FirstFit(bs, k, want) && bs1 == Take(bs, k, want) && payload == bs[k].Payload();
      TakenBlock(bs, k, want);
      OneBlockPerPlace(m0, start, bs, |m0|, k);
    }
  }

  lemma InBoth(m0: seq<byte>, m1: seq<byte>, bs1: BlockList, b: Block, m2: seq<byte>, bs2: BlockList)
    requires Preserved(m0, m1, bs1, b) && (b in bs1 ==> Preserved(m1, m2, bs2, b))
    ensures Preserved(m0, m2, bs2, b)
  {
    hide Content;
  }

  /** Freeing the block an allocation took. */
  lemma AllocatedReleased(bs: BlockList, len: nat, want: nat, m1: seq<byte>, start: nat, bs1: BlockList, i: nat)
    requires Canonical(bs) && i < |bs1|
    requires Allocated(Shape(bs, len), want, Shape(bs1, |m1|), bs1[i].Payload())
    requires Holds(m1, start, bs1, |m1|)
    ensures Release(bs1, i) == if NoFit(bs, want) then Coalesce(Blocks.Grow(bs, len, Space(want + META))) else bs
    ensures |m1| == len <==> !NoFit(bs, want)
  {
    hide Release, Coalesce, Canonical, NoFit;
    var k: nat;
    if NoFit(bs, want) {
      k := |bs|;
      TakenBlock(Blocks.Grow(bs, len, Space(want + META)), k, want);
    } else {
      k :| FirstFit(bs, k, want) && bs1 == Take(bs, k, want) && bs1[i].Payload() == bs[k].Payload();
      TakenBlock(bs, k, want);
      ReleaseUndoesTake(bs, k, want);
    }
    if i != k {
      BlocksApart(m1, start, bs1, |m1|, i, k);
    }
    if NoFit(bs, want) {
      ReleaseUndoesGrowth(bs, len, Space(want + META), want);
    }
  }

  lemma AllBelow(mem: seq<byte>, start: nat, bs: BlockList, hi: nat)
    requires Holds(mem, start, bs, hi)
    ensures forall b :: b in bs ==> b.at < hi
  {
    forall b | b in bs ensures b.at < hi {
      var j :| 0 <= j < |bs| && bs[j] == b;
      TiledBounds(bs, 0, hi, j);
    }
  }

  /** After the copy and the free, the new block still begins with the old payload. */
  lemma MovedBlock(m0: seq<byte>, bs: BlockList, o: nat, n: nat, m1: seq<byte>, m2: seq<byte>, bs2: BlockList,
                   payload: seq<byte>) returns (k: nat)
    requires o < |bs| && n < |bs| && !bs[n].free && bs[n].at != bs[o].at
    requires forall j :: 0 <= j < |bs| && j != n ==> Preserved(m0, m1, bs, bs[j])
    requires forall b :: b in bs && !b.free && b.at != bs[o].at ==> Preserved(m1, m2, bs2, b)
    requires Begins(m1, bs[n], payload)
    ensures k < |bs2| && bs2[k] == bs[n] && Begins(m2, bs[n], payload)
    ensures forall b :: b in bs && !b.free && b.at != bs[o].at && b.at != bs[n].at ==> Preserved(m0, m2, bs2, b)
  {
    hide Content;
    assert Preserved(m1, m2, bs2, bs[n]);
    k :| 0 <= k < |bs2| && bs2[k] == bs[n];
    forall b | b in bs && !b.free && b.at != bs[o].at && b.at != bs[n].at ensures Preserved(m0, m2, bs2, b) {
      var j :| 0 <= j < |bs| && bs[j] == b;
      assert Preserved(m0, m1, bs, bs[j]) && Preserved(m1, m2, bs2, b);
    }
  }

  /** Every block in use but block `i` is as it was. */
  ghost predicate OthersPreserved(mem: seq<byte>, bs: BlockList, i: nat, mem': seq<byte>, bs': BlockList) {
    i < |bs| && forall b :: b in bs && !b.free && b != bs[i] ==> Preserved(mem, mem', bs', b)
  }

  /** After an allocation: block `i` of before is block `o` now, and block `n` is the new one. */
  ghost predicate Located(m0: seq<byte>, bs: BlockList, i: nat, m1: seq<byte>, bs1: BlockList, o: nat, n: nat) {
    && i < |bs| && o < |bs1| && n < |bs1| && bs1[o] == bs[i] && bs1[n].at != bs[i].at
    && bs[i].End() <= |m0| && bs[i].End() <= |m1| && Content(m1, bs[i]) == Content(m0, bs[i])
    && LivePreserved(m0, bs, m1, bs1)
    && (forall b :: b in bs && b.at == bs[i].at ==> b == bs[i])
    && (forall b :: b in bs && !b.free ==> b.at != bs1[n].at)
  }

  lemma Locate(m0: seq<byte>, start: nat, bs: BlockList, i: nat, want: nat, m1: seq<byte>, bs1: BlockList, payload: nat)
    returns (n: nat, o: nat)
    requires Holds(m0, start, bs, |m0|) && i < |bs| && !bs[i].free && LivePreserved(m0, bs, m1, bs1)
    requires Allocated(Shape(bs, |m0|), want, Shape(bs1, |m1|), payload)
    ensures Located(m0, bs, i, m1, bs1, o, n)
    ensures n < |bs1| && !bs1[n].free && bs1[n].Payload() == payload && bs1[n].size >= want
    ensures i < |bs| && o < |bs1| && bs1[o] == bs[i] && bs1[n].at != bs[i].at && bs[i].End() <= |m0|
  {
    hide Holds, LivePreserved, Allocated, Content;
    OneBlockPerPlace(m0, start, bs, |m0|, i);
    n := NewBlock(m0, start, bs, want, bs1, m1, payload);
    o := StillThere(m0, start, bs, i, m1, bs1);
    assert bs[i] in bs;
  }

  /** Blocks that were in use before an allocation and a move of block `i` are as they were. */
  lemma KeptAlong(m0: seq<byte>, bs: BlockList, i: nat, m1: seq<byte>, bs1: BlockList, n: nat, m2: seq<byte>, bs2: BlockList)
    requires i < |bs| && n < |bs1| && LivePreserved(m0, bs, m1, bs1)
    requires forall b :: b in bs && b.at == bs[i].at ==> b == bs[i]
    requires forall b :: b in bs && !b.free ==> b.at != bs1[n].at
    requires forall b :: b in bs1 && !b.free && b.at != bs[i].at && b.at != bs1[n].at ==> Preserved(m1, m2, bs2, b)
    ensures forall b :: b in bs && !b.free && b != bs[i] ==> Preserved(m0, m2, bs2, b)
  {
    hide Content;
    forall b | b in bs && !b.free && b != bs[i] ensures Preserved(m0, m2, bs2, b) {
      assert Preserved(m0, m1, bs1, b) && Preserved(m1, m2, bs2, b);
    }
  }

  lemma BlocksApart(mem: seq<byte>, start: nat, bs: BlockList, hi: nat, i: nat, j: nat)
    requires Holds(mem, start, bs, hi) && i < |bs| && j < |bs| && i != j
    ensures bs[i].at != bs[j].at
  {
    if i < j {
      TiledOrder(bs, 0, hi, i, j);
    } else {
      TiledOrder(bs, 0, hi, j, i);
    }
  }

  lemma TakenBlock(bs: BlockList, i: nat, want: nat)
    requires i < |bs| && bs[i].size >= want
    ensures Take(bs, i, want)[i].at == bs[i].at && !Take(bs, i, want)[i].free && Take(bs, i, want)[i].size >= want
  {}

  lemma NothingBacked(m: map<nat, Entry>, start: nat)
    requires forall i :: 0 <= i < HEAP_MAX_PAGES ==> KeyAt(start, i) !in m
    ensures Backs(m, start, [])
  {
    hide KeyAt;
  }
}
