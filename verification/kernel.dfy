/**
 * The three layers together: the order in which the kernel starts them (kernel/entry.cpp),
 * and what holds of all frames once it has.
 */
module KernelStart {
  import opened Machine
  import opened Powers
  import opened Bytes
  import opened Blocks
  import Layout
  import opened Paging
  import opened TableGrowth
  import opened PageRanges
  import opened PhysicalMemory
  import opened Rights
  import opened TableAccess
  import opened BootMap
  import opened VirtualMemory
  import opened Ownership
  import opened KernelHeap

  // Where the kernel puts its heap.
  const HEAP_START: nat := 0xFFFF_C000_0000_0000

  // Physical memory below 2^46: its direct map then ends below the heap.
  const BOOT_FRAMES: nat := 0x4_0000_0000

  /** `size` is the largest power of two up to 256 that `freeCount` frames allow, and more than one. */
  ghost predicate HeapSizeFor(freeCount: nat, size: nat) {
    && 2 <= size <= 256 && size <= freeCount
    && exists e: nat :: 0 < e <= 8 && size == Pow(2, e) && (e < 8 ==> freeCount < Pow(2, e + 1))
  }

  /** The pages the heap starts with: the largest power of two up to 256 the free frames allow; 0 means panic. */
  method ChooseHeapSize(freeCount: nat) returns (size: nat)
    ensures size == 0 <==> freeCount < 2
    ensures size != 0 ==> size <= 256 && HeapSizeFor(freeCount, size)
  {
    hide Pow;
    var target := 256;
    ghost var e := 8;
    SizesHalve(8);
    size := 0;
    while true
      invariant 0 <= e <= 8 && target == Pow(2, e) && target >= 1 && size == 0
      invariant e < 8 ==> freeCount < Pow(2, e + 1)
      decreases e
    {
      SizesHalve(e);
      if target == 1 { break; }
      if freeCount < target {
        target := target / 2;
        e := e - 1;
      } else {
        size := target;
        break;
      }
    }
    SizesHalve(e);
  }

  /** The powers the loop meets. */
  lemma SizesHalve(e: nat)
    requires e <= 8
    ensures Pow(2, 8) == 256 && 1 <= Pow(2, e) <= 256
    ensures Pow(2, e) == 1 <==> e == 0
    ensures e > 0 ==> Pow(2, e) == 2 * Pow(2, e - 1)
    ensures Pow(2, 1) == 2
  {
    hide Pow;
    PowZero(2);
    PowSquare(2);
    PowDouble(2, 2);
    PowDouble(2, 4);
    PowStep(2, 1);
    PowRises(2, e, 8);
    if e > 0 {
      PowStep(2, e);
      PowRises(2, 1, e);
    }
  }

  // ---- Boot ----

  /** Every frame that was handed over at boot, by what the memory map and the bitmap leave. */
  ghost predicate PoolOf(pool: set<nat>, mmap: MemoryMap, pmm: Pmm)
    reads pmm`bitmapBase, pmm`bitmap
  {
    forall f: nat :: f in pool <==> Offered(mmap, f) && f != 0 && !HoldsBitmap(f, pmm.bitmapBase, pmm.bitmap.Length)
  }

  /** The bitmap's own bytes are where the allocator looks for them. */
  ghost predicate BitmapReachable(m: map<nat, Entry>, base: nat, bytes: nat) {
    forall f: nat :: HoldsBitmap(f, base, bytes) ==> Sends(m, f, f)
  }

  /** What the kernel has once all three layers run. */
  ghost predicate Running(h: Heap, mmap: MemoryMap)
    reads h, h.mem, h.vmm, h.vmm.pmm, h.vmm.pmm.bitmap
  {
    && h.Valid() && WordAligned(h.list)
    && h.vmm.cr3 != 0 && h.vmm.physOffset == HHDM_OFFSET
    && PoolOf(h.pool, mmap, h.vmm.pmm)
    && Covers(h.vmm.Mapping(), mmap, |mmap|)
    && BitmapReachable(h.vmm.Mapping(), h.vmm.pmm.bitmapBase, h.vmm.pmm.bitmap.Length)
  }

  /** Managed frames that were never handed over: not conventional, the bitmap's own, or frame 0. */
  function Reserved(pool: set<nat>, total: nat): set<nat> {
    Frames(0, total) - pool
  }

  /** The free counter, the tables, the heap and the frames reserved at boot add up to all managed frames. */
  lemma FramesAccounted(h: Heap, mmap: MemoryMap)
    requires Running(h, mmap)
    ensures h.vmm.pmm.freeFrames + |h.vmm.tables| + |h.backing| == |h.pool|
    ensures |h.pool| + |Reserved(h.pool, h.vmm.pmm.totalFrames)| == h.vmm.pmm.totalFrames
    ensures forall f :: f in h.pool ==> 0 < f < h.vmm.pmm.totalFrames
    ensures forall f: nat :: f in Reserved(h.pool, h.vmm.pmm.totalFrames) <==>
              f < h.vmm.pmm.totalFrames
              && (f == 0 || !Offered(mmap, f)
                  || HoldsBitmap(f, h.vmm.pmm.bitmapBase, h.vmm.pmm.bitmap.Length))
  {
    hide Covers, BitmapReachable, Offered, Pmm.Coherent, Vmm.Valid, Owned, Backs, Layout.Holds, HoldsBitmap, Frame, Blocks.Canonical,
      WordAligned, GoodRegion;
    var total := h.vmm.pmm.totalFrames;
    ManagedFrames(h, mmap);
    Conservation(h.vmm.pmm.free, h.vmm.tables, h.backing, h.pool);
    PoolInside(h.pool, total);
  }

  lemma ManagedFrames(h: Heap, mmap: MemoryMap)
    requires Running(h, mmap)
    ensures h.vmm.pmm.freeFrames == |h.vmm.pmm.free|
    ensures Owned(h.vmm.pmm.free, h.vmm.tables, h.backing, h.pool)
    ensures forall f :: f in h.pool ==> 0 < f < h.vmm.pmm.totalFrames
  {
    hide PoolOf, Covers, BitmapReachable, Offered, Owned, Backs, Layout.Holds;
    h.vmm.ValidIsGood();
    GoodTables(h.vmm.Look());
  }

  lemma PoolInside(pool: set<nat>, total: nat)
    requires forall f :: f in pool ==> f < total
    ensures |pool| + |Reserved(pool, total)| == total
  {
    assert pool + Reserved(pool, total) == Frames(0, total);
  }

  /** The translation in force: where the tables send an address, and what may be done there. */
  ghost predicate Goes(vmm: Vmm, virt: nat, phys: nat, executable: bool)
    reads vmm
  {
    && Key(virt) in vmm.Mapping() && Resolve(vmm.ram, vmm.cr3, virt) == phys
    && MayWrite(vmm.ram, Frame(vmm.cr3), Key(virt), 3)
    && (MayExecute(vmm.ram, Frame(vmm.cr3), Key(virt), 3) <==> executable)
  }

  /**
   * An address inside the heap goes to the same place in a frame that is neither a table nor free nor the
   * bitmap's. It may be written and not executed.
   */
  lemma HeapAddress(h: Heap, mmap: MemoryMap, a: nat)
    requires Running(h, mmap) && h.start <= a < h.end
    ensures var i := (a - h.start) / FRAME_SIZE;
            && i < |h.backing|
            && Key(a) in h.vmm.Mapping() && h.vmm.Mapping()[Key(a)] == PageEntry(Address(h.backing[i]), HEAP_FLAGS)
            && Goes(h.vmm, a, Address(h.backing[i]) + a % FRAME_SIZE, false)
            && h.backing[i] !in h.vmm.tables.Values && h.backing[i] !in h.vmm.pmm.free
            && !HoldsBitmap(h.backing[i], h.vmm.pmm.bitmapBase, h.vmm.pmm.bitmap.Length)
  {
    hide Covers, BitmapReachable, Offered, Layout.Holds, Vmm.Valid, Paging.Mapping, Key, PageEntry, KeyAt, Frames, Frame, HoldsBitmap,
      Blocks.Canonical, WordAligned, Distinct, NoRepeats;
    var i := (a - h.start) / FRAME_SIZE;
    assert i < |h.backing|;
    PageOf(h.start, i, a);
    assert PageGoesTo(h.vmm.Mapping(), h.start, i, h.backing[i]);
    BackingApart(h.vmm.pmm.free, h.vmm.tables, h.backing, h.pool, i);
    ManagedFrames(h, mmap);
    TotalIsSmall(h);
    HeapEntry(h.backing[i]);
    GoesByEntry(h.vmm, a);
  }

  lemma TotalIsSmall(h: Heap)
    requires h.vmm.Valid()
    ensures h.vmm.pmm.totalFrames <= MAX_FRAMES
  {
    hide Pmm.Valid;
    GoodTables(h.vmm.Look());
  }

  lemma PageOf(start: nat, i: nat, a: nat)
    requires GoodRegion(start) && i < HEAP_MAX_PAGES && start <= a && i == (a - start) / FRAME_SIZE
    ensures Key(a) == KeyAt(start, i)
  {
    RegionKey(start, i);
  }

  lemma BackingApart(free: set<nat>, tables: Tables, backing: seq<nat>, pool: set<nat>, i: nat)
    requires Owned(free, tables, backing, pool) && i < |backing|
    ensures backing[i] in pool && backing[i] !in tables.Values && backing[i] !in free
  {
    hide Distinct, NoRepeats;
    assert backing[i] in ToSet(backing);
  }

  lemma HeapEntry(f: nat)
    requires f < MAX_FRAMES
    ensures var e := PageEntry(Address(f), HEAP_FLAGS); e.frame == f && e.CanWrite() && e.NoExecute()
  {}

  /** Where an address goes is what the entry of its page says, once the kernel's own tables are in force. */
  lemma GoesByEntry(vmm: Vmm, virt: nat)
    requires vmm.Valid() && vmm.cr3 != 0 && Key(virt) in vmm.Mapping() && vmm.Mapping()[Key(virt)].CanWrite()
    ensures var e := vmm.Mapping()[Key(virt)]; Goes(vmm, virt, Address(e.frame) + virt % FRAME_SIZE, !e.NoExecute())
  {
    hide Pmm.Valid, MayWrite, MayExecute, Entry.CanWrite, Entry.NoExecute, Key, Leaf, Tree;
    vmm.RightsHold(Key(virt));
    assert vmm.cr3 == vmm.pml4Phys by {
      assert vmm.Look().Good();
    }
  }

  /** A frame below the limit lies at its own address and in the direct map. */
  lemma LowAddressKeys(a: nat)
    requires a < MEMORY_LIMIT
    ensures Key(a) == Frame(a) && Key(a + HHDM_OFFSET) == DirectKey(Frame(a))
    ensures (a + HHDM_OFFSET) % FRAME_SIZE == a % FRAME_SIZE && Address(Frame(a)) + a % FRAME_SIZE == a
  {
    KeysOfFrame(a);
  }

  /**
   * Every byte of the memory map, of whatever kind, lies in the direct map, and at its own address too unless
   * its entry starts at 0. It may be written and executed there.
   */
  lemma MemoryInReach(h: Heap, mmap: MemoryMap, i: nat, a: nat)
    requires Running(h, mmap) && WellFormed(mmap) && Below(mmap, MEMORY_LIMIT)
    requires i < |mmap| && mmap[i].physicalStart <= a < mmap[i].End()
    ensures Goes(h.vmm, a + HHDM_OFFSET, a, true)
    ensures mmap[i].physicalStart != 0 ==> Goes(h.vmm, a, a, true)
  {
    hide BitmapReachable, Offered, Layout.Holds, Vmm.Valid, Paging.Mapping, Key, PageEntry, KeyAt, Frames, HoldsBitmap, Resolve,
      Blocks.Canonical, WordAligned, Distinct, NoRepeats, Heap.Owns, Heap.ListOk, PoolOf, MayWrite, MayExecute, Entry.CanWrite,
      Entry.NoExecute, Address, DirectKey;
    LowAddressKeys(a);
    var f := Frame(a);
    ByteInEntry(mmap[i], a);
    assert CoversOne(h.vmm.Mapping(), mmap[i]);
    assert Sends(h.vmm.Mapping(), DirectKey(f), f);
    ValidHeap(h);
    GoesByEntry(h.vmm, a + HHDM_OFFSET);
    if mmap[i].physicalStart != 0 {
      assert Sends(h.vmm.Mapping(), f, f);
      GoesByEntry(h.vmm, a);
    }
  }

  lemma ByteInEntry(d: Descriptor, a: nat)
    requires Aligned(d) && d.physicalStart <= a < d.End()
    ensures Holds(d, Frame(a))
  {
    FrameInEntry(d, a - d.physicalStart);
  }

  lemma ValidHeap(h: Heap)
    requires h.Valid()
    ensures h.vmm.Valid()
  {
    hide Heap.ListOk, Vmm.Valid, Canonical, GoodRegion, Owned, Backs;
  }

  /** Every byte of the bitmap is reached at the physical address the allocator uses, in a frame nobody else has. */
  lemma BitmapByte(h: Heap, mmap: MemoryMap, b: nat)
    requires Running(h, mmap) && b < h.vmm.pmm.bitmap.Length
    ensures var a := h.vmm.pmm.bitmapBase + b;
            && Goes(h.vmm, a, a, true)
            && Frame(a) !in h.vmm.pmm.free && Frame(a) !in h.vmm.tables.Values && Frame(a) !in h.backing
  {
    hide Covers, Offered, Layout.Holds, Vmm.Valid, Paging.Mapping, Key, PageEntry, KeyAt, Frames, Frame, Resolve,
      Blocks.Canonical, WordAligned, Distinct, NoRepeats, Heap.ListOk, MayWrite, MayExecute, Entry.CanWrite, Entry.NoExecute,
      Address, DirectKey, Backs, Owned;
    var a := h.vmm.pmm.bitmapBase + b;
    assert InBitmap(b, h.vmm.pmm.bitmap.Length);
    assert HoldsBitmap(Frame(a), h.vmm.pmm.bitmapBase, h.vmm.pmm.bitmap.Length);
    hide HoldsBitmap;
    assert Sends(h.vmm.Mapping(), Frame(a), Frame(a));
    MappedLow(h.vmm, a);
    GoesByEntry(h.vmm, a);
    NotInPool(h.vmm.pmm.free, h.vmm.tables, h.backing, h.pool, Frame(a));
  }

  lemma MappedLow(vmm: Vmm, a: nat)
    requires vmm.Valid() && Frame(a) in vmm.Mapping()
    ensures Key(a) == Frame(a) && Address(Frame(a)) + a % FRAME_SIZE == a
  {
    hide Vmm.Valid, Leaf;
    assert Frame(a) < KEYS;
  }

  lemma NotInPool(free: set<nat>, tables: Tables, backing: seq<nat>, pool: set<nat>, f: nat)
    requires Owned(free, tables, backing, pool) && f !in pool
    ensures f !in free && f !in tables.Values && f !in backing
  {
    hide Distinct, NoRepeats;
    assert f in backing ==> f in ToSet(backing);
  }

  /** phys_to_virt leads back to every table and every free frame: its page of the direct map goes to it. */
  lemma DirectMapHolds(h: Heap, mmap: MemoryMap, f: nat)
    requires Running(h, mmap) && (f in h.vmm.tables.Values || f in h.vmm.pmm.free)
    ensures var k := Key(h.vmm.PhysToVirt(Address(f)));
            && k in h.vmm.Mapping() && h.vmm.Mapping()[k].frame == f
            && MayWrite(h.vmm.ram, Frame(h.vmm.cr3), k, 3)
  {
    hide Covers, BitmapReachable, Offered, Paging.Mapping, Wrap, Key, Address, Frames, Layout.Holds, Backs, HoldsBitmap, Resolve,
      Blocks.Canonical, GoodRegion, Vmm.Valid, Distinct, NoRepeats, DirectKey, MayWrite, MayExecute, Entry.CanWrite, Owned,
      Entry.NoExecute, Heap.ListOk, WordAligned;
    TableFramesLow(h.vmm, h.pool);
    InPool(h.vmm.pmm.free, h.vmm.tables, h.backing, h.pool, f);
    OfferedIsCovered(h.vmm.Mapping(), mmap, f);
    PointerKey(f);
    GoesByEntry(h.vmm, h.vmm.PhysToVirt(Address(f)));
  }

  lemma TableFramesLow(vmm: Vmm, pool: set<nat>)
    requires vmm.Valid() && pool <= vmm.direct
    ensures forall f :: f in pool ==> f < MAX_FRAMES
  {
    hide Pmm.Valid, View.Good;
    vmm.ValidIsGood();
    GoodTables(vmm.Look());
  }

  lemma InPool(free: set<nat>, tables: Tables, backing: seq<nat>, pool: set<nat>, f: nat)
    requires Owned(free, tables, backing, pool) && (f in tables.Values || f in free)
    ensures f in pool
  {
    hide Distinct, NoRepeats;
  }

  lemma PointerKey(f: nat)
    requires f < MAX_FRAMES
    ensures Key(Wrap(Address(f) + HHDM_OFFSET)) == DirectKey(f)
  {
    hide Key;
    var virt := Address(f) + HHDM_OFFSET;
    assert virt < TWO64 && Frame(virt) == 0xF_FFF8_0000_0000 + f;
    DirectKeyOf(f, virt);
  }

  lemma BitmapAfterInit(m: map<nat, Entry>, mmap: MemoryMap, total: nat, base: nat, bytes: nat)
    requires WellFormed(mmap) && Covers(m, mmap, |mmap|) && IsBitmapBase(mmap, total, base) && 8 * bytes - 8 < total
    ensures BitmapReachable(m, base, bytes)
  {
    hide WellFormed, Covers, IsBitmapBase, HoldsBitmap, Sends;
    forall f: nat | HoldsBitmap(f, base, bytes) ensures Sends(m, f, f) {
      BitmapStaysMapped(m, mmap, total, base, bytes, f);
    }
  }

  /** Mappings that are only added to keep both. */
  lemma StillReachable(t: Tables, m: map<nat, Entry>, t2: Tables, m2: map<nat, Entry>, mmap: MemoryMap, base: nat, bytes: nat)
    requires Kept(t, m, t2, m2) && Covers(m, mmap, |mmap|) && BitmapReachable(m, base, bytes)
    ensures Covers(m2, mmap, |mmap|) && BitmapReachable(m2, base, bytes)
  {
    CoverKept(m, m2, mmap);
  }

  lemma HeapRegionClear(m: map<nat, Entry>)
    requires LowOnly(m, BOOT_FRAMES)
    ensures GoodRegion(HEAP_START)
    ensures forall i :: 0 <= i < HEAP_MAX_PAGES ==> KeyAt(HEAP_START, i) !in m
  {
    assert Frame(HEAP_START) == 0xF_FFFC_0000_0000;
    forall i | 0 <= i < HEAP_MAX_PAGES ensures KeyAt(HEAP_START, i) == 0xC_0000_0000 + i {
      RegionKey(HEAP_START, i);
    }
    hide KeyAt;
  }

  lemma TotalBelow(mmap: MemoryMap, total: nat)
    requires IsTotal(mmap, total) && Below(mmap, BOOT_FRAMES * FRAME_SIZE)
    ensures total <= BOOT_FRAMES <= MAX_FRAMES
  {}

  lemma OwnedAtBoot(free: set<nat>, tables: Tables, pool: set<nat>)
    requires Distinct(tables) && tables.Values !! free && tables.Values + free == pool
    ensures Owned(free, tables, [], pool)
  {
    assert ToSet([]) == {};
  }

  /** No entry of the map can hold the bitmap for all the memory it describes. */
  ghost predicate NoBitmapPlace(mmap: MemoryMap) {
    forall total: nat :: IsTotal(mmap, total) ==> !exists i :: 0 <= i < |mmap| && CanHoldBitmap(mmap[i], total)
  }

  lemma TotalUnique(mmap: MemoryMap, a: nat, b: nat)
    requires IsTotal(mmap, a) && IsTotal(mmap, b)
    ensures a == b
  {}

  lemma PlaceForBitmap(mmap: MemoryMap, total: nat)
    requires IsTotal(mmap, total)
    ensures NoBitmapPlace(mmap) <==> !exists i :: 0 <= i < |mmap| && CanHoldBitmap(mmap[i], total)
  {
    hide IsTotal, CanHoldBitmap;
    forall t: nat | IsTotal(mmap, t) ensures t == total {
      TotalUnique(mmap, t, total);
    }
  }

  /**
   * What the tables took at boot: `t` are the tables `VMM::init` made and `left` the frames it left. They are
   * all the frames handed over, the tables took the lowest of them, and only for pages mapped at boot, among
   * which are all of the map's entries unless nothing was left.
   */
  ghost predicate TablesTook(pmm: Pmm, mmap: MemoryMap, fbBase: nat, fbSize: nat, t: Tables, left: set<nat>)
    reads pmm`bitmapBase, pmm`bitmap
  {
    && PoolOf(t.Values + left, mmap, pmm) && Distinct(t) && t.Values !! left
    && LowestTaken(t.Values + left, left)
    && t.Keys <= {ROOT} + PathNodes(StartKeys(mmap, fbBase, fbSize))
    && (left != {} ==> PathNodes(BootKeys(mmap, |mmap|)) <= t.Keys)
  }

  /** The same while they are in force: the tables are still there, and the map is covered unless nothing was left. */
  ghost predicate TablesBuilt(vmm: Vmm, mmap: MemoryMap, fbBase: nat, fbSize: nat, t: Tables, left: set<nat>)
    reads vmm, vmm.pmm, vmm.pmm.bitmap
  {
    && TablesTook(vmm.pmm, mmap, fbBase, fbSize, t, left)
    && (left != {} ==> vmm.Valid() && Covers(vmm.Mapping(), mmap, |mmap|))
    && (forall n :: n in t ==> n in vmm.tables && vmm.tables[n] == t[n])
  }

  /** Of the frames the tables left the heap cannot be given the size it asks for. */
  ghost predicate HeapStarved(t: Tables, left: set<nat>) {
    exists size: nat :: HeapSizeFor(|left|, size) && Starved(t, left, HEAP_START, size)
  }

  lemma HeapSizeUnique(count: nat, a: nat, b: nat)
    requires HeapSizeFor(count, a) && HeapSizeFor(count, b)
    ensures a == b
  {
    hide Pow;
    var d: nat :| 0 < d <= 8 && a == Pow(2, d) && (d < 8 ==> count < Pow(2, d + 1));
    var e: nat :| 0 < e <= 8 && b == Pow(2, e) && (e < 8 ==> count < Pow(2, e + 1));
    if d < e {
      PowRises(2, d + 1, e);
    } else if e < d {
      PowRises(2, e + 1, d);
    }
  }

  lemma StarvedFor(t: Tables, left: set<nat>, size: nat)
    requires HeapSizeFor(|left|, size)
    ensures HeapStarved(t, left) <==> Starved(t, left, HEAP_START, size)
  {
    hide HeapSizeFor, Starved;
    forall s: nat | HeapSizeFor(|left|, s) ensures s == size {
      HeapSizeUnique(|left|, s, size);
    }
  }

  /** A heap of the size that `count` free frames allow, all of it one free block. */
  ghost predicate FirstHeap(h: Heap, count: nat)
    reads h`list, h`backing
  {
    HeapSizeFor(count, |h.backing|) && h.list == [Block(0, |h.backing| * FRAME_SIZE - META, true)]
  }

  /**
   * Starts the allocator, the tables and the heap. The result is null, where the source panics, exactly when
   * no entry can hold the bitmap, or the tables left fewer than two frames, or too few for the heap.
   */
  method Boot(mmap: MemoryMap, fbBase: nat, fbSize: nat, ram: Ram)
    returns (heap: Heap?, vmm: Vmm?, ghost t: Tables, ghost left: set<nat>)
    requires WellFormed(mmap) && Below(mmap, BOOT_FRAMES * FRAME_SIZE) && |ram| >= BOOT_FRAMES
    requires fbBase + PagesFor(fbSize) * FRAME_SIZE <= BOOT_FRAMES * FRAME_SIZE
    ensures vmm == null <==> NoBitmapPlace(mmap)
    ensures vmm == null ==> heap == null
    ensures vmm != null ==> TablesBuilt(vmm, mmap, fbBase, fbSize, t, left)
    ensures vmm != null ==> (heap == null <==> |left| < 2 || HeapStarved(t, left))
    ensures heap != null ==> Running(heap, mmap) && heap.start == HEAP_START && heap.vmm == vmm
    ensures heap != null ==> FirstHeap(heap, |left|)
  {
    hide WellFormed, Below, IsTotal, IsBitmapBase, CanHoldBitmap, Frames, Frame, HoldsBitmap, PagesFor, Running, Pmm.Valid,
      Offered, FirstHeap, HeapStarved, TablesBuilt, NoBitmapPlace;
    heap, vmm, t, left := null, null, map[], {};
    var pmm := new Pmm();
    var ok := pmm.Init(mmap);
    PlaceForBitmap(mmap, pmm.totalFrames);
    if !ok {
      return;
    }
    TotalBelow(mmap, pmm.totalFrames);
    vmm := new Vmm(pmm, ram);
    heap, t, left := StartTables(vmm, mmap, fbBase, fbSize);
  }

  /** The tables and the heap on top of a running allocator. */
  method StartTables(vmm: Vmm, mmap: MemoryMap, fbBase: nat, fbSize: nat)
    returns (heap: Heap?, ghost t: Tables, ghost left: set<nat>)
    requires vmm.pmm.Valid() && IsBitmapBase(mmap, vmm.pmm.totalFrames, vmm.pmm.bitmapBase)
    requires PoolOf(vmm.pmm.free, mmap, vmm.pmm)
    requires vmm.cr3 == 0 && vmm.physOffset == 0 && vmm.tables == map[]
    requires WellFormed(mmap) && Below(mmap, BOOT_FRAMES * FRAME_SIZE)
    requires vmm.pmm.totalFrames <= BOOT_FRAMES <= |vmm.ram|
    requires fbBase + PagesFor(fbSize) * FRAME_SIZE <= BOOT_FRAMES * FRAME_SIZE
    modifies vmm, vmm.pmm, vmm.pmm.bitmap
    ensures TablesBuilt(vmm, mmap, fbBase, fbSize, t, left)
    ensures heap == null <==> |left| < 2 || HeapStarved(t, left)
    ensures heap != null ==> Running(heap, mmap) && heap.start == HEAP_START && heap.vmm == vmm && fresh(heap)
    ensures heap != null ==> FirstHeap(heap, |left|)
  {
    hide WellFormed, Below, IsBitmapBase, Covers, LowOnly, PagesFor, Running, Vmm.Valid, Vmm.Mapping, PoolOf, HeapSizeFor,
      HeapStarved, Starved, TablesTook, TablesBuilt, Kept, FirstHeap, Pmm.Valid, Frames;
    heap := null;
    ghost var pool := vmm.pmm.free;
    var ok;
    ok, t, left := BuildTables(vmm, mmap, fbBase, fbSize);
    vmm.pmm.CounterExact();
    var size := 0;
    if ok {
      size := ChooseHeapSize(vmm.pmm.freeFrames);
    }
    if size == 0 {
      return;
    }
    StarvedFor(t, left, size);
    ghost var m := vmm.Mapping();
    heap := StartHeap(vmm, size, mmap, pool);
    StillBuilt(vmm, mmap, fbBase, fbSize, t, left, m);
    if heap != null {
      FirstBlock(heap, size, |left|);
    }
  }

  lemma FirstBlock(h: Heap, size: nat, count: nat)
    requires HeapSizeFor(count, size) && |h.backing| == size && h.list == [Block(0, size * FRAME_SIZE - META, true)]
    ensures FirstHeap(h, count)
  {
    hide HeapSizeFor;
  }

  /** The tables alone; `ok` is false when not even the top-level table could be had. */
  method BuildTables(vmm: Vmm, mmap: MemoryMap, fbBase: nat, fbSize: nat) returns (ok: bool, ghost t: Tables, ghost left: set<nat>)
    requires vmm.pmm.Valid() && PoolOf(vmm.pmm.free, mmap, vmm.pmm)
    requires vmm.cr3 == 0 && vmm.physOffset == 0 && vmm.tables == map[]
    requires WellFormed(mmap) && Below(mmap, BOOT_FRAMES * FRAME_SIZE)
    requires vmm.pmm.totalFrames <= BOOT_FRAMES <= |vmm.ram|
    requires fbBase + PagesFor(fbSize) * FRAME_SIZE <= BOOT_FRAMES * FRAME_SIZE
    modifies vmm, vmm.pmm`freeFrames, vmm.pmm`free, vmm.pmm.bitmap
    ensures vmm.pmm.Valid() && t == vmm.tables && left == vmm.pmm.free && (!ok ==> left == {})
    ensures TablesTook(vmm.pmm, mmap, fbBase, fbSize, t, left) && TablesBuilt(vmm, mmap, fbBase, fbSize, t, left)
    ensures PoolOf(old(vmm.pmm.free), mmap, vmm.pmm)
    ensures ok && left != {} ==>
              && vmm.Valid() && vmm.cr3 != 0 && vmm.physOffset == HHDM_OFFSET && vmm.direct == old(vmm.pmm.free)
              && vmm.tables.Values + vmm.pmm.free == old(vmm.pmm.free)
              && Covers(vmm.Mapping(), mmap, |mmap|) && LowOnly(vmm.Mapping(), BOOT_FRAMES)
  {
    hide WellFormed, Below, Offered, Covers, LowOnly, PagesFor, Vmm.Valid, Pmm.Valid, Vmm.Mapping, PoolOf, TablesTook, TablesBuilt,
      PathNodes, LowestTaken, StartKeys, Distinct;
    ghost var pool := vmm.pmm.free;
    OnlyOffered(pool, mmap, vmm.pmm);
    ghost var all;
    ok, all := vmm.Init(mmap, fbBase, fbSize, BOOT_FRAMES);
    t, left := vmm.tables, vmm.pmm.free;
    BuiltAtBoot(vmm, mmap, fbBase, fbSize, pool, ok);
  }

  lemma OnlyOffered(pool: set<nat>, mmap: MemoryMap, pmm: Pmm)
    requires PoolOf(pool, mmap, pmm)
    ensures forall f: nat :: f in pool ==> Offered(mmap, f)
  {
    hide Offered;
  }

  /** What `VMM::init` leaves. */
  lemma BuiltAtBoot(vmm: Vmm, mmap: MemoryMap, fbBase: nat, fbSize: nat, pool: set<nat>, ok: bool)
    requires WellFormed(mmap) && Below(mmap, BOOT_FRAMES * FRAME_SIZE) && PoolOf(pool, mmap, vmm.pmm)
    requires !ok ==> vmm.pmm.free == pool == {} && vmm.tables == map[]
    requires ok ==> vmm.tables.Values + vmm.pmm.free == pool && Distinct(vmm.tables) && vmm.tables.Values !! vmm.pmm.free
    requires ok ==> vmm.tables.Keys <= {ROOT} + PathNodes(StartKeys(mmap, fbBase, fbSize)) && LowestTaken(pool, vmm.pmm.free)
    requires ok && vmm.pmm.free != {} ==> vmm.Valid() && Covers(vmm.Mapping(), mmap, |mmap|)
    ensures TablesTook(vmm.pmm, mmap, fbBase, fbSize, vmm.tables, vmm.pmm.free)
    ensures TablesBuilt(vmm, mmap, fbBase, fbSize, vmm.tables, vmm.pmm.free)
  {
    hide WellFormed, Below, Covers, PoolOf, Vmm.Valid, Vmm.Mapping, PathNodes, BootKeys, StartKeys;
    if ok && vmm.pmm.free != {} {
      EntriesBelow(mmap);
      CoveredKeys(vmm.Mapping(), mmap, |mmap|);
      vmm.ValidIsGood();
      PathsOfMapped(vmm, BootKeys(mmap, |mmap|));
    } else if !ok {
      assert vmm.tables.Values == {};
    }
    assert vmm.tables.Values + vmm.pmm.free == pool;
  }

  lemma EntriesBelow(mmap: MemoryMap)
    requires Below(mmap, BOOT_FRAMES * FRAME_SIZE)
    ensures forall i :: 0 <= i < |mmap| ==> mmap[i].End() <= MEMORY_LIMIT
  {}

  lemma PathsOfMapped(vmm: Vmm, keys: set<nat>)
    requires vmm.Valid() && keys <= vmm.Mapping().Keys
    ensures PathNodes(keys) <= vmm.tables.Keys
  {
    hide PathNodes, Pmm.Valid, View.Good, Paging.Mapping;
    MappedPathsPresent(vmm.Look(), keys);
  }

  /** The heap only adds tables and mappings. */
  lemma StillBuilt(vmm: Vmm, mmap: MemoryMap, fbBase: nat, fbSize: nat, t: Tables, left: set<nat>, m: map<nat, Entry>)
    requires TablesTook(vmm.pmm, mmap, fbBase, fbSize, t, left)
    requires vmm.Valid() && Covers(m, mmap, |mmap|) && Kept(t, m, vmm.tables, vmm.Mapping())
    ensures TablesBuilt(vmm, mmap, fbBase, fbSize, t, left)
  {
    hide Covers, TablesTook, Vmm.Valid, Vmm.Mapping;
    CoverKept(m, vmm.Mapping(), mmap);
  }

  /** The heap on top of running tables, for which at least two frames are left. */
  method StartHeap(vmm: Vmm, size: nat, ghost mmap: MemoryMap, ghost pool: set<nat>) returns (heap: Heap?)
    requires vmm.Valid() && vmm.cr3 != 0 && vmm.physOffset == HHDM_OFFSET
    requires vmm.tables.Values + vmm.pmm.free == pool && vmm.direct == pool && PoolOf(pool, mmap, vmm.pmm)
    requires WellFormed(mmap) && Covers(vmm.Mapping(), mmap, |mmap|)
    requires IsBitmapBase(mmap, vmm.pmm.totalFrames, vmm.pmm.bitmapBase)
    requires LowOnly(vmm.Mapping(), BOOT_FRAMES) && 0 < size <= 256
    modifies vmm, vmm.pmm, vmm.pmm.bitmap
    ensures vmm.pmm.Valid()
    ensures vmm.pmm.bitmapBase == old(vmm.pmm.bitmapBase) && vmm.pmm.bitmap == old(vmm.pmm.bitmap)
    ensures heap != null ==> Running(heap, mmap) && heap.start == HEAP_START && |heap.backing| == size && fresh(heap)
    ensures heap != null ==> heap.vmm == vmm && heap.list == [Block(0, size * FRAME_SIZE - META, true)]
    ensures heap == null <==> Starved(old(vmm.tables), old(vmm.pmm.free), HEAP_START, size)
    ensures vmm.Valid() && Kept(old(vmm.tables), old(vmm.Mapping()), vmm.tables, vmm.Mapping())
  {
    hide Offered, IsBitmapBase, Covers, LowOnly, Frames, Frame, HoldsBitmap, WellFormed, View.Good, Paging.Mapping, KeyAt,
      GoodRegion, Kept, Vmm.Valid, PoolOf, BitmapReachable, Owned, Distinct, Starved, WordAligned, Heap.Valid, Pmm.Valid,
      Vmm.Mapping;
    AllocatorIsValid(vmm);
    TablesOwn(vmm, pool);
    HeapRegionClear(vmm.Mapping());
    ghost var t, m := vmm.tables, vmm.Mapping();
    ghost var base, total, bytes := vmm.pmm.bitmapBase, vmm.pmm.totalFrames, vmm.pmm.bitmap.Length;
    BitmapAfterInit(m, mmap, total, base, bytes);
    var mem := new Memory([]);
    heap := new Heap(vmm, mem, pool);
    var ok := heap.Init(HEAP_START, size);
    AllocatorIsValid(vmm);
    if !ok {
      heap := null;
      return;
    }
    WholePages(heap);
    FirstBlockAligned(|heap.mem.bytes|, size);
    StillReachable(t, m, vmm.tables, vmm.Mapping(), mmap, base, bytes);
  }

  lemma TablesOwn(vmm: Vmm, pool: set<nat>)
    requires vmm.Valid() && vmm.tables.Values + vmm.pmm.free == pool
    ensures Owned(vmm.pmm.free, vmm.tables, [], pool)
  {
    hide Pmm.Valid, View.Good, Owned, Distinct;
    vmm.ValidIsGood();
    GoodTables(vmm.Look());
    OwnedAtBoot(vmm.pmm.free, vmm.tables, pool);
  }

  lemma AllocatorIsValid(vmm: Vmm)
    requires vmm.Valid()
    ensures vmm.pmm.Valid() && 8 * vmm.pmm.bitmap.Length - 8 < vmm.pmm.totalFrames
  {
    hide Shows;
  }

  lemma WholePages(h: Heap)
    requires h.Valid()
    ensures |h.mem.bytes| == |h.backing| * FRAME_SIZE
  {
    hide Heap.ListOk, Heap.Owns;
  }

  lemma FirstBlockAligned(bytes: nat, pages: nat)
    requires bytes == pages * FRAME_SIZE && bytes >= META
    ensures WordAligned([Block(0, bytes - META, true)])
  {
    assert bytes == 8 * (pages * 512);
    WordsIn(0, bytes - META, 0, pages * 512 - 3);
  }
}
