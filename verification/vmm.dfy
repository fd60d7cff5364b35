/**
 * The virtual memory manager (kernel/mm/vmm.cpp): it walks the page tables through the
 * mapping they implement, takes new tables from the physical memory manager, and maps,
 * unmaps and translates pages.
 *
 * The abstract state is `Mapping()`: which page keys go to which entries, as the processor
 * reads it from memory.
 */
module VirtualMemory {
  import opened Machine
  import opened Paging
  import opened TableGrowth
  import opened PageRanges
  import opened PhysicalMemory
  import opened Rights
  import opened TableAccess
  import opened RangeMapping
  import opened BootMap

  class Vmm {
    const pmm: Pmm
    var pml4Phys: nat
    var physOffset: nat
    var cr3: nat
    var ram: Ram

    ghost var tables: Tables      // where each page table is
    ghost var direct: set<nat>    // the frames the direct map must keep reaching

    /** The state before `Init`: no tables yet, the firmware's identity map in force. */
    constructor (pmm: Pmm, ram: Ram)
      ensures this.pmm == pmm && this.ram == ram
      ensures pml4Phys == 0 && physOffset == 0 && cr3 == 0 && tables == map[] && direct == {}
    {
      this.pmm, this.ram := pmm, ram;
      pml4Phys, physOffset, cr3 := 0, 0, 0;
      tables, direct := map[], {};
    }

    ghost function Look(): View
      reads this, pmm`free, pmm`totalFrames
    {
      View(ram, tables, Frame(pml4Phys), cr3, physOffset, direct, pmm.free, pmm.totalFrames)
    }

    ghost predicate Valid()
      reads this, pmm, pmm.bitmap
    {
      pmm.Valid() && pml4Phys == Address(Frame(pml4Phys)) && Look().Good()
    }

    lemma ValidIsGood()
      requires Valid()
      ensures Look().Good()
    {}

    ghost function Mapping(): map<nat, Entry>
      reads this`ram, this`pml4Phys
    {
      Paging.Mapping(ram, Frame(pml4Phys))
    }

    function PhysToVirt(phys: nat): nat
      reads this`physOffset
    {
      Wrap(phys + physOffset)
    }

    /** The frame an access through pointer `virt` touches. */
    function Deref(virt: nat): nat
      reads this`ram, this`cr3
    {
      Frame(Resolve(ram, cr3, virt))
    }

    /** The pointer the code holds for the table at `n`. */
    ghost function TableAt(n: Node): nat
      requires n in tables
      reads this`physOffset, this`tables
    {
      PhysToVirt(Address(tables[n]))
    }

    /** Takes the lowest free frame, zeroes it and links it in as the missing child of `n`. */
    method CreateTable(table: nat, index: nat, ghost n: Node) returns (ok: bool)
      requires Valid()
      requires n in tables && n.level > 0 && index < 512 && table == TableAt(n) && n.Child(index) !in tables
      modifies this`ram, this`tables, pmm`freeFrames, pmm`free, pmm.bitmap
      ensures Valid() && Mapping() == old(Mapping())
      ensures ok <==> old(pmm.free) != {}
      ensures ok ==> OneMade(old(tables), old(pmm.free), tables, pmm.free, n.Child(index))
      ensures !ok ==> tables == old(tables) && pmm.free == old(pmm.free)
    {
      ghost var v := Look();
      hide Pmm.Valid, Wrap, Tree, Leaf, Resolve, Reachable, Address, Frame, View.Good, Paging.Mapping, AddTable, Write;
      var frame := pmm.AllocFrame();
      if frame == 0 {
        return false;
      }
      ghost var f := Frame(frame);
      ZeroedFrameReach(v, n, f);
      FreeFrameReaches(v, f);
      var target := Deref(PhysToVirt(frame));
      ram := ram[target := Zeroed()];
      var parent := Deref(table);
      ram := Write(ram, parent, index, TableEntry(Frame(frame)));
      tables := tables[n.Child(index) := f];
      InstallTable(v, n, index, f);
      AddTableIs(v.ram, v.tables[n], index, f);
      assert Look() == v.WithTable(n, index, f);
      return true;
    }

    /** The table an entry points to, made first when it is missing and `create` asks for it. */
    method NextTable(table: nat, index: nat, create: bool, ghost n: Node) returns (next: nat)
      requires Valid()
      requires n in tables && n.level > 0 && index < 512 && table == TableAt(n)
      modifies this`ram, this`tables, pmm`freeFrames, pmm`free, pmm.bitmap
      ensures Valid() && Mapping() == old(Mapping())
      ensures (tables == old(tables) && pmm.free == old(pmm.free))
              || OneMade(old(tables), old(pmm.free), tables, pmm.free, n.Child(index))
      ensures !create ==> ram == old(ram) && tables == old(tables) && pmm.free == old(pmm.free)
      ensures next != 0 <==> n.Child(index) in tables
      ensures next != 0 ==> next == TableAt(n.Child(index))
      ensures next == 0 && create ==> pmm.free == {}
    {
      hide Valid, Wrap, Address, Frame, Paging.Mapping;
      var e := ReadEntry(table, index, n);
      if !e.Present() {
        if !create {
          return 0;
        }
        var ok := CreateTable(table, index, n);
        if !ok {
          return 0;
        }
        e := ReadEntry(table, index, n);
      }
      return PhysToVirt(Address(e.frame));
    }

    /** table[index]: present exactly when the tree has a table there, and then it leads to that table. */
    method ReadEntry(table: nat, index: nat, ghost n: Node) returns (e: Entry)
      requires Valid()
      requires n in tables && n.level > 0 && index < 512 && table == TableAt(n)
      ensures e.Present() <==> n.Child(index) in tables
      ensures e.Present() ==>
                n.Child(index) in tables && PhysToVirt(Address(e.frame)) == TableAt(n.Child(index)) && TableAt(n.Child(index)) != 0
    {
      hide Valid, Wrap, Tree, Leaf, Resolve, Reachable, Address, Frame, View.Good, Paging.Mapping;
      ValidIsGood();
      EntryRead(Look(), n, index);
      e := ram[Deref(table)][index];
    }

    /** The slot of the page table that decides where `virt` goes; table 0 is the null pointer. */
    method FindEntry(virt: nat, create: bool) returns (table: nat, slot: nat)
      requires Valid()
      modifies this`ram, this`tables, pmm`freeFrames, pmm`free, pmm.bitmap
      ensures Valid() && Mapping() == old(Mapping())
      ensures Grown(old(tables), old(pmm.free), tables, pmm.free, {Key(virt)})
      ensures !create ==> ram == old(ram) && tables == old(tables) && pmm.free == old(pmm.free)
      ensures slot == Key(virt) % 512
      ensures table != 0 ==> NodeFor(Key(virt), 0) in tables && table == TableAt(NodeFor(Key(virt), 0))
      ensures table == 0 ==> NodeFor(Key(virt), 0) !in tables && (create ==> pmm.free == {})
    {
      hide Pmm.Valid, Wrap, View.Good, Paging.Mapping, Address, Frame, NodeFor, Grown, OneMade, PathNodes, Key, Index, Prefix;
      ghost var k := Key(virt);
      WalkStart(Look(), k);
      GrownByNone(tables, pmm.free, {k});
      SlotIndex(virt);
      slot := Index(virt, 0);
      table := PhysToVirt(pml4Phys);
      for level := 4 downto 1
        invariant Valid() && Mapping() == old(Mapping())
        invariant Grown(old(tables), old(pmm.free), tables, pmm.free, {k})
        invariant !create ==> ram == old(ram) && tables == old(tables) && pmm.free == old(pmm.free)
        invariant NodeFor(k, level - 1) in tables && table == TableAt(NodeFor(k, level - 1)) && table != 0
      {
        ghost var t0, f0 := tables, pmm.free;
        ghost var n := NodeFor(k, level);
        WalkStep(virt, level);
        var index := Index(virt, level);
        ghost var child := n.Child(index);
        table := NextTable(table, index, create, n);
        OnPath(k, level - 1, {k});
        GrownFurther(old(tables), old(pmm.free), t0, f0, tables, pmm.free, child, {k});
        if table == 0 {
          assert child !in tables;
          NoTableBelow(Look(), k, level - 1);
          return;
        }
      }
    }

    /** Maps one page: exactly when it is free and there are frames for the tables it still needs. */
    method Map(virt: nat, phys: nat, flags: Flags) returns (ok: bool)
      requires Valid()
      modifies this`ram, this`tables, pmm`freeFrames, pmm`free, pmm.bitmap
      ensures Valid()
      ensures Grown(old(tables), old(pmm.free), tables, pmm.free, {Key(virt)})
      ensures Mapping() == if ok then old(Mapping())[Key(virt) := PageEntry(phys, flags)] else old(Mapping())
      ensures ok <==> Key(virt) !in old(Mapping()) && |old(pmm.free)| >= |Needs(old(tables), {Key(virt)})|
      ensures !ok ==> Key(virt) in old(Mapping()) || (pmm.free == {} && NodeFor(Key(virt), 0) !in tables)
      ensures ok ==> MapsPage(Mapping()[Key(virt)], phys, flags)
    {
      hide Pmm.Valid, Wrap, View.Good, Paging.Mapping, Address, Frame, NodeFor, Grown, Needs, PathNodes, Key, Index, Prefix, Write,
        Tree, Leaf, Reachable, MapsPage;
      ghost var k := Key(virt);
      var table, slot := FindEntry(virt, true);
      LeafRead(Look(), k);
      if table == 0 {
        WereTooFew(old(Look()), Look(), {k}, k);
      } else {
        PathPresent(Look(), {k});
        WereEnough(old(Look()), Look(), {k});
      }
      if table == 0 || ram[Deref(table)][slot].Present() {
        return false;
      }
      if cr3 != 0 {
        UnmappedIsNotDirect(Look(), k);
      }
      PageEntryPresent(phys, flags);
      PageEntryMaps(phys, flags);
      StoreLeaf(Look(), k, PageEntry(phys, flags));
      ram := Write(ram, Deref(table), slot, PageEntry(phys, flags));
      return true;
    }

    /** None of the direct map's own pages has its key in `keys`. */
    ghost predicate SparesDirectMap(keys: set<nat>)
      reads this`cr3, this`direct
    {
      cr3 != 0 ==> forall f :: f in direct ==> DirectKey(f) !in keys
    }

    /** Clears one entry. The invariant lasts when the page is not one the direct map needs. */
    method Unmap(virt: nat)
      requires Valid()
      modifies this`ram, this`tables, pmm`freeFrames, pmm`free, pmm.bitmap
      ensures pmm.Valid() && Tree(ram, tables, Frame(pml4Phys)) && tables == old(tables) && pmm.free == old(pmm.free)
      ensures Mapping() == old(Mapping()) - {Key(virt)}
      ensures SparesDirectMap({Key(virt)}) ==> Valid()
    {
      hide Pmm.Valid, Wrap, View.Good, Paging.Mapping, Address, Frame, NodeFor, Grown, Key, Index, Prefix, Write, Tree,
        Leaf, Reachable;
      ghost var k := Key(virt);
      var table, slot := FindEntry(virt, false);
      LeafRead(Look(), k);
      TreeHolds(Look());
      if table == 0 {
        return;
      }
      StoreSlot(Look(), k, EMPTY);
      if SparesDirectMap({k}) {
        StoreLeaf(Look(), k, EMPTY);
      }
      ram := Write(ram, Deref(table), slot, EMPTY);
    }

    method UnmapRange(virt: nat, count: nat)
      requires Valid() && virt < TWO64 && SparesDirectMap(KeysOf(virt, count))
      modifies this`ram, this`tables, pmm`freeFrames, pmm`free, pmm.bitmap
      ensures Valid() && tables == old(tables) && pmm.free == old(pmm.free)
      ensures Mapping() == old(Mapping()) - KeysOf(virt, count)
    {
      hide Wrap, View.Good, Paging.Mapping, Address, Frame, Key, PageAt, KeysOf, Valid;
      PageAtZero(virt);
      RemovedNone(Mapping(), virt);
      var at := virt;
      for i := 0 to count
        invariant Valid() && tables == old(tables) && pmm.free == old(pmm.free)
        invariant at == PageAt(virt, i)
        invariant Mapping() == old(Mapping()) - KeysOf(virt, i)
      {
        ghost var now := Mapping();
        KeyInRange(virt, i, count);
        Unmap(at);
        RemovedNext(old(Mapping()), virt, i, now, Mapping());
        PageAtNext(virt, i);
        at := Wrap(at + FRAME_SIZE);
      }
    }

    /**
     * Maps consecutive pages to consecutive frames, or changes no translation at all: the former exactly when
     * all pages are free and there are frames for the tables they still need.
     */
    method MapRange(virt: nat, phys: nat, count: nat, flags: Flags) returns (ok: bool)
      requires Valid() && virt < TWO64 && phys < TWO64
      modifies this`ram, this`tables, pmm`freeFrames, pmm`free, pmm.bitmap
      ensures Valid()
      ensures Grown(old(tables), old(pmm.free), tables, pmm.free, KeysOf(virt, count))
      ensures ok <==> RangeFree(old(Mapping()), virt, count) && |old(pmm.free)| >= |Needs(old(tables), KeysOf(virt, count))|
      ensures Mapping() == if ok then old(Mapping()) + PageMap(virt, phys, count, flags) else old(Mapping())
      ensures !ok ==> pmm.free == {} || !RangeFree(old(Mapping()), virt, count)
      ensures ok ==> PagesIn(Mapping(), virt, phys, count, flags)
    {
      hide Wrap, PageAt, Grown, Needs, PageMap, RangeFree, KeysOf, Valid, Vmm.Mapping, PagesIn, Mid;
      ghost var v := Look();
      PageAtZero(phys);
      MidStart(v, virt, phys, count, flags);
      hide Look;
      var at := phys;
      for i := 0 to count
        invariant at == PageAt(phys, i) && Mid(v, virt, phys, i, count, flags)
      {
        var ok := MapNext(v, virt, phys, at, i, count, flags);
        if !ok {
          RollBack(v, virt, phys, i, count, flags);
          return false;
        }
        PageAtNext(phys, i);
        at := Wrap(at + FRAME_SIZE);
      }
      MidDone(v, virt, phys, count, flags);
      return true;
    }

    /** The first `i` of `count` pages were mapped since `v`. */
    ghost predicate Mid(v: View, virt: nat, phys: nat, i: nat, count: nat, flags: Flags)
      reads this, pmm, pmm.bitmap
    {
      Valid() && Underway(v, Look(), virt, phys, i, count, flags)
    }

    lemma MidStart(v: View, virt: nat, phys: nat, count: nat, flags: Flags)
      requires Valid() && v == Look()
      ensures v.tables == tables && v.free == pmm.free && v.Mapping() == Mapping()
      ensures Mid(v, virt, phys, 0, count, flags)
    {
      hide Pmm.Valid, View.Good, Paging.Mapping, Underway;
      Begun(v, virt, phys, count, flags);
    }

    lemma MidDone(v: View, virt: nat, phys: nat, count: nat, flags: Flags)
      requires Mid(v, virt, phys, count, count, flags)
      ensures Valid() && RangeFits(v, virt, count) && Grown(v.tables, v.free, tables, pmm.free, KeysOf(virt, count))
      ensures Mapping() == v.Mapping() + PageMap(virt, phys, count, flags) && PagesIn(Mapping(), virt, phys, count, flags)
    {
      hide Valid, Paging.Mapping, Underway, RangeFits, Grown, KeysOf, PageMap, PagesIn;
      AllPagesIn(v, Look(), virt, phys, count, flags);
      GrownMeanwhile(v, virt, phys, count, count, flags);
    }

    /** One page of a range, mapped to `at`; when it is refused the range could not have been mapped. */
    method MapNext(ghost v: View, virt: nat, ghost phys: nat, at: nat, i: nat, ghost count: nat, flags: Flags)
      returns (ok: bool)
      requires virt < TWO64 && i < count && at == PageAt(phys, i) && Mid(v, virt, phys, i, count, flags)
      modifies this`ram, this`tables, pmm`freeFrames, pmm`free, pmm.bitmap
      ensures ok ==> Mid(v, virt, phys, i + 1, count, flags)
      ensures !ok ==> Mid(v, virt, phys, i, count, flags)
      ensures !ok ==> !RangeFits(v, virt, count) && (pmm.free == {} || !RangeFree(v.Mapping(), virt, count))
    {
      hide Wrap, View.Good, Paging.Mapping, Address, Frame, Key, PageAt, Grown, Needs, PageEntry, RangeFree, KeysOf,
        Valid, NodeFor, Underway, RangeFits;
      ghost var now := Look();
      ok := Map(PageAt(virt, i), at, flags);
      ValidIsGood();
      if ok {
        OnePageMore(v, now, Look(), virt, phys, i, count, flags);
      } else {
        OnePageRefused(v, now, Look(), virt, phys, i, count, flags);
      }
    }

    /** Unmaps the pages of a range that were mapped since `v`. */
    method RollBack(ghost v: View, virt: nat, ghost phys: nat, n: nat, ghost count: nat, ghost flags: Flags)
      requires virt < TWO64 && Mid(v, virt, phys, n, count, flags)
      modifies this`ram, this`tables, pmm`freeFrames, pmm`free, pmm.bitmap
      ensures Valid() && tables == old(tables) && pmm.free == old(pmm.free)
      ensures Mapping() == v.Mapping()
      ensures Grown(v.tables, v.free, tables, pmm.free, KeysOf(virt, count))
    {
      hide Wrap, View.Good, Paging.Mapping, KeysOf, Underway, Valid, Grown;
      TakenOutAgain(v, Look(), virt, phys, n, count, flags);
      GrownMeanwhile(v, virt, phys, n, count, flags);
      UnmapRange(virt, n);
    }

    lemma GrownMeanwhile(v: View, virt: nat, phys: nat, i: nat, count: nat, flags: Flags)
      requires Underway(v, Look(), virt, phys, i, count, flags)
      ensures Grown(v.tables, v.free, tables, pmm.free, KeysOf(virt, count)) && Look().Mapping() == Mapping()
    {
      hide View.Good, Grown, Added, KeysOf;
    }

    /** What the processor lets the kernel do with a mapped page is what its entry says. */
    lemma RightsHold(k: nat)
      requires Valid() && k in Mapping()
      ensures MayWrite(ram, Frame(pml4Phys), k, 3) <==> Mapping()[k].CanWrite()
      ensures MayExecute(ram, Frame(pml4Phys), k, 3) <==> !Mapping()[k].NoExecute()
    {
      hide Pmm.Valid, View.Good, Tree, Leaf, MayWrite, MayExecute, Entry.Present, Entry.CanWrite, Entry.NoExecute, Frame, Address;
      ValidIsGood();
      TreeHolds(Look());
      RightsOfKey(ram, tables, Frame(pml4Phys), k);
    }

    // ---- The allocator, called by code that must keep the tables' invariant ----

    method TakeFrames(count: nat) returns (addr: nat)
      requires Valid()
      modifies pmm`freeFrames, pmm`free, pmm.bitmap
      ensures Valid()
      ensures addr == 0 <==> count == 0 || !exists first: nat :: Run(old(pmm.free), first, count)
      ensures addr == 0 ==> pmm.free == old(pmm.free)
      ensures addr != 0 ==>
                && addr == Address(Frame(addr)) && Frame(addr) + count <= MAX_FRAMES
                && LowestRun(old(pmm.free), Frame(addr), count)
                && Frames(Frame(addr), count) <= old(pmm.free)
                && pmm.free == old(pmm.free) - Frames(Frame(addr), count)
    {
      hide Pmm.Valid, View.Good, Frames, Address, Frame;
      GoodTables(Look());
      ghost var v := Look();
      addr := pmm.AllocFrames(count);
      if addr != 0 {
        RunIsFree(v.free, Frame(addr), count);
        FramesTaken(v, Frames(Frame(addr), count));
        assert Look() == v.(free := pmm.free);
      }
    }

    method ReturnFrames(first: nat, count: nat)
      requires Valid()
      requires Frames(Frame(first), count) <= direct && Frames(Frame(first), count) !! tables.Values
      modifies pmm`freeFrames, pmm`free, pmm.bitmap
      ensures Valid()
      ensures pmm.free == old(pmm.free) + Frames(Frame(first), count)
    {
      hide Pmm.Valid, View.Good, Frames, Address, Frame;
      GoodTables(Look());
      ghost var v := Look();
      pmm.FreeFrames(first, count);
      FramesReturned(v, Frames(Frame(first), count));
      ReturnsAll(v, Frame(first), count, pmm.free);
      assert Look() == v.(free := pmm.free);
    }

    /** The physical address behind `virt`; 0 when the page is not mapped. */
    method Translate(virt: nat) returns (phys: nat)
      requires Valid()
      modifies this`ram, this`tables, pmm`freeFrames, pmm`free, pmm.bitmap
      ensures Valid() && ram == old(ram) && tables == old(tables) && pmm.free == old(pmm.free)
      ensures phys == if Key(virt) in Mapping() then Address(Mapping()[Key(virt)].frame) + virt % FRAME_SIZE else 0
    {
      hide Pmm.Valid, Wrap, View.Good, Address, Frame, NodeFor, Grown, Key, Index, Prefix, Write, Tree, Leaf, Reachable;
      var table, slot := FindEntry(virt, false);
      LeafRead(Look(), Key(virt));
      if table == 0 || !ram[Deref(table)][slot].Present() {
        return 0;
      }
      return Address(ram[Deref(table)][slot].frame) + virt % FRAME_SIZE;
    }

    /** Identity-maps and direct-maps one physical range; the code drops the results, here summed up in `both`. */
    method MapBoth(phys: nat, count: nat, ghost d: Descriptor) returns (ghost both: bool)
      requires Valid() && phys < TWO64 && d.physicalStart == phys && d.pages == count
      modifies this`ram, this`tables, pmm`freeFrames, pmm`free, pmm.bitmap
      ensures Valid() && Grown(old(tables), old(pmm.free), tables, pmm.free, EntryKeys(d))
      ensures BothAdded(old(Mapping()), d, Mapping(), pmm.free, both)
    {
      hide Wrap, View.Good, Paging.Mapping, Address, Frame, Key, PageAt, Grown, Needs, PageEntry, PageMap, KeysOf, RangeFree,
        BothAdded, Valid, EntryKeys, DirectStart;
      EntryKeysHold(d);
      ghost var m := Mapping();
      var identity := true;
      if phys != 0 {
        identity := MapRange(phys, phys, count, WRITABLE_PAGE);
      }
      ghost var t0, f0, m1 := tables, pmm.free, Mapping();
      var direct := MapRange(Wrap(phys + HHDM_OFFSET), phys, count, WRITABLE_PAGE);
      BothGrown(d, old(tables), old(pmm.free), t0, f0, tables, pmm.free);
      BothCalls(m, d, m1, Mapping(), pmm.free, identity, direct, f0);
      both := identity && direct;
    }

    /** Under the firmware's identity map a physical address is its own pointer. */
    lemma BootPointer(f: nat)
      requires cr3 == 0 && physOffset == 0 && f < MAX_FRAMES
      ensures Deref(PhysToVirt(Address(f))) == f
    {
      assert Address(f) < TWO64;
    }

    /** The empty top-level table: a free frame, zeroed. */
    method NewRoot() returns (ok: bool)
      requires pmm.Valid() && cr3 == 0 && physOffset == 0
      requires pmm.totalFrames <= |ram| && pmm.totalFrames <= MAX_FRAMES
      modifies this`ram, this`tables, this`direct, this`pml4Phys, pmm`freeFrames, pmm`free, pmm.bitmap
      ensures pmm.Valid()
      ensures !ok ==> pmm.free == old(pmm.free) == {} && tables == old(tables)
      ensures ok ==> Valid() && Mapping() == map[] && direct == old(pmm.free)
      ensures ok ==> tables.Values + pmm.free == old(pmm.free) && tables.Keys == {ROOT} && LowestTaken(old(pmm.free), pmm.free)
    {
      hide Pmm.Valid, Tree, Leaf, Paging.Mapping, Frame, Address, View.Good, Resolve, Wrap;
      pmm.FreeAreManaged();
      direct := pmm.free;
      pml4Phys := pmm.AllocFrame();
      if pml4Phys == 0 {
        return false;
      }
      ghost var root := Frame(pml4Phys);
      BootPointer(root);
      var target := Deref(PhysToVirt(pml4Phys));
      FreshRootView(ram, root, direct, pmm.totalFrames);
      ram := ram[target := Zeroed()];
      tables := map[ROOT := root];
      ok := true;
    }

    /** Both maps of every entry; `all` says whether every call succeeded, as it does while frames are left. */
    method MapEntries(mmap: MemoryMap, ghost frames: nat) returns (ghost all: bool)
      requires Valid() && cr3 == 0 && physOffset == 0 && Mapping() == map[]
      requires WellFormed(mmap) && Below(mmap, frames * FRAME_SIZE) && frames <= MAX_FRAMES
      modifies this`ram, this`tables, pmm`freeFrames, pmm`free, pmm.bitmap
      ensures Valid()
      ensures Grown(old(tables), old(pmm.free), tables, pmm.free, BootKeys(mmap, |mmap|))
      ensures Booting(Mapping(), mmap, |mmap|, frames, pmm.free, all)
    {
      hide KeysOf, Valid, Wrap, View.Good, Paging.Mapping, Address, Frame, WellFormed, Below, RangeFree, WithEntry,
        WithIdentity, Booting, Grown, DirectStart, BothAdded, BootKeys, EntryKeys;
      ghost var keys := BootKeys(mmap, |mmap|);
      GrownByNone(tables, pmm.free, keys);
      BootingStart(Mapping(), mmap, frames, pmm.free);
      all := true;
      for i := 0 to |mmap|
        invariant Valid()
        invariant Grown(old(tables), old(pmm.free), tables, pmm.free, keys)
        invariant Booting(Mapping(), mmap, i, frames, pmm.free, all)
      {
        ghost var t0, f0, m0 := tables, pmm.free, Mapping();
        EntryStart(mmap, i);
        ghost var both := MapBoth(mmap[i].physicalStart, mmap[i].pages, mmap[i]);
        EntryInBoot(mmap, i);
        GrownWider(t0, f0, tables, pmm.free, EntryKeys(mmap[i]), keys);
        GrownTwice(old(tables), old(pmm.free), t0, f0, tables, pmm.free, keys);
        GrownShrinksFree(t0, f0, tables, pmm.free, keys);
        BootingNext(m0, mmap, i, i + 1, frames, f0, all, Mapping(), pmm.free, both);
        all := all && both;
      }
    }

    /**
     * Builds the kernel's own tables and switches to them. `ok` is false where the source panics. `all` says
     * whether the descriptors were mapped, which they are while frames are left: then the switch keeps all
     * tables in reach. A framebuffer clear of all descriptors is mapped too while frames are left.
     */
    method Init(mmap: MemoryMap, fbBase: nat, fbSize: nat, ghost frames: nat) returns (ok: bool, ghost all: bool)
      requires pmm.Valid() && cr3 == 0 && physOffset == 0
      requires pmm.totalFrames <= |ram| && pmm.totalFrames <= MAX_FRAMES
      requires WellFormed(mmap) && Below(mmap, frames * FRAME_SIZE) && frames <= MAX_FRAMES
      requires fbBase + PagesFor(fbSize) * FRAME_SIZE <= frames * FRAME_SIZE
      requires forall f: nat :: f in pmm.free ==> Offered(mmap, f)
      modifies this, pmm`freeFrames, pmm`free, pmm.bitmap
      ensures pmm.Valid()
      ensures !ok ==> pmm.free == old(pmm.free) == {} && tables == old(tables)
      ensures ok ==> tables.Values + pmm.free == old(pmm.free) && direct == old(pmm.free)
      ensures ok ==> Distinct(tables) && tables.Values !! pmm.free
      ensures ok ==> tables.Keys <= {ROOT} + PathNodes(StartKeys(mmap, fbBase, fbSize)) && LowestTaken(old(pmm.free), pmm.free)
      ensures ok ==> LowOnly(Mapping(), frames)
      ensures ok && pmm.free != {} ==> all
      ensures ok && all ==>
                && Valid() && cr3 == pml4Phys && cr3 != 0 && physOffset == HHDM_OFFSET
                && Covers(Mapping(), mmap, |mmap|)
      ensures ok && pmm.free != {} && WellFormed(mmap + [Screen(fbBase, fbSize)]) ==>
                Covers(Mapping(), mmap + [Screen(fbBase, fbSize)], |mmap| + 1)
    {
      hide Valid, Pmm.Valid, Mapping, LowOnly, KeysOf, Wrap, Address, Frame, Offered, WellFormed, Below, RangeFree,
        WithEntry, WithIdentity, Covers, Grown, PagesFor, DirectStart, Booting, BothAdded, BootKeys,
        EntryKeys, PathNodes, LowestTaken, Distinct;
      all := false;
      ok := NewRoot();
      if !ok {
        return;
      }
      ghost var t, f := tables, pmm.free;
      all := MapEntries(mmap, frames);
      ghost var t0, f0, m0 := tables, pmm.free, Mapping();
      FramebufferStart(fbBase, fbSize, frames);
      ghost var d := Screen(fbBase, fbSize);
      ghost var both := MapBoth(fbBase, PagesFor(fbSize), d);
      BootingDone(m0, mmap, frames, f0, all);
      ghost var keys := StartKeys(mmap, fbBase, fbSize);
      GrownWider(t, f, t0, f0, BootKeys(mmap, |mmap|), keys);
      GrownWider(t0, f0, tables, pmm.free, EntryKeys(d), keys);
      GrownTwice(t, f, t0, f0, tables, pmm.free, keys);
      GrownShrinksFree(t0, f0, tables, pmm.free, keys);
      GrownConserves(t, f, tables, pmm.free, keys);
      GrownAfterRoot(old(pmm.free), t, f, tables, pmm.free, keys);
      AfterScreen(m0, mmap, d, frames, f0, all, Mapping(), pmm.free, both);
      TablesApart();
      Switch(mmap);
    }

    lemma TablesApart()
      requires Valid()
      ensures Distinct(tables) && tables.Values !! pmm.free
    {
      hide Pmm.Valid, View.Good;
      GoodTables(Look());
    }

    /** Loads the kernel's tables; every pointer keeps working when the map is covered. */
    method Switch(ghost mmap: MemoryMap)
      requires Valid()
      requires forall f: nat :: f in direct ==> Offered(mmap, f)
      modifies this`cr3, this`physOffset
      ensures pmm.Valid() && cr3 == pml4Phys && physOffset == HHDM_OFFSET
      ensures old(Covers(Mapping(), mmap, |mmap|)) ==> Valid() && cr3 != 0
    {
      hide Pmm.Valid, Wrap, View.Good, Paging.Mapping, Frame, Offered, Covers;
      if Covers(Mapping(), mmap, |mmap|) {
        SwitchIsSafe(Look(), mmap);
      }
      cr3 := pml4Phys;
      physOffset := HHDM_OFFSET;
    }
  }
}
