/**
 * How the virtual memory manager reaches its own tables: `phys_to_virt` pointers are
 * translated by the very tables they point to, so the invariant ties memory, the tree and
 * the direct map together.
 */
module TableAccess {
  import opened Machine
  import opened Paging
  import opened TableGrowth

  const HHDM_OFFSET: nat := 0xFFFF_8000_0000_0000

  // Frames the direct map can hold without meeting the identity map: memory below 2^47.
  const MAX_FRAMES: nat := 0x8_0000_0000

  /** The key of the direct-map page of frame `f`. */
  function DirectKey(f: nat): nat {
    MAX_FRAMES + f
  }

  /** Where an access to `virt` goes; with `cr3` 0 the firmware's identity map is in force. */
  function Resolve(ram: Ram, cr3: nat, virt: nat): nat {
    if cr3 == 0 then virt
    else Address(Leaf(ram, Frame(cr3), Key(virt)).frame) + virt % FRAME_SIZE
  }

  /** The direct map has frame `f`, open to writes. */
  ghost predicate DirectMapped(ram: Ram, root: nat, f: nat) {
    var e := Leaf(ram, root, DirectKey(f));
    e.Present() && e.frame == f && e.CanWrite()
  }

  /** `phys_to_virt` reaches the frames in `frames`, by the identity map or by the direct map. */
  ghost predicate Reachable(ram: Ram, root: nat, cr3: nat, physOffset: nat, frames: set<nat>) {
    || (cr3 == 0 && physOffset == 0)
    || (cr3 == Address(root) && physOffset == HHDM_OFFSET && forall f :: f in frames ==> DirectMapped(ram, root, f))
  }

  /**
   * Everything the manager's invariant speaks of: memory, where the tables are, the two
   * registers' worth of state, the frames the direct map must keep reaching, and the
   * allocator's free frames out of `total`.
   */
  datatype View = View(ram: Ram, tables: Tables, root: nat, cr3: nat, physOffset: nat,
                       direct: set<nat>, free: set<nat>, total: nat)
  {
    /** phys_to_virt of frame `f`. */
    function Pointer(f: nat): nat { Wrap(Address(f) + physOffset) }

    /** The frame an access through pointer `virt` touches. */
    function Deref(virt: nat): nat { Frame(Resolve(ram, cr3, virt)) }

    ghost function Mapping(): map<nat, Entry> { Paging.Mapping(ram, root) }

    /** The tables form a tree of used frames, and every one is within the code's reach. */
    ghost predicate Good() {
      && total <= |ram| && total <= MAX_FRAMES
      && Tree(ram, tables, root)
      && (forall n :: n in tables ==> 0 < tables[n] < total && tables[n] !in free)
      && Reachable(ram, root, cr3, physOffset, direct)
      && free + tables.Values <= direct
      && (forall f :: f in direct ==> 0 < f < total)
    }

    ghost function WithTable(n: Node, i: nat, f: nat): View
      requires n in tables && n.level > 0 && i < 512 && tables[n] < |ram| && f < |ram|
    {
      this.(ram := AddTable(ram, tables[n], i, f), tables := tables[n.Child(i) := f], free := free - {f})
    }

    ghost function WithLeaf(k: nat, e: Entry): View
      requires NodeFor(k, 0) in tables && tables[NodeFor(k, 0)] < |ram|
    {
      this.(ram := Write(ram, tables[NodeFor(k, 0)], k % 512, e))
    }
  }

  lemma DirectKeyOf(f: nat, virt: nat)
    requires f < MAX_FRAMES && Frame(virt) == 0xF_FFF8_0000_0000 + f
    ensures Key(virt) == DirectKey(f)
  {}

  /** The direct map, read as an address translation, is the identity on physical addresses. */
  lemma DirectMapReaches(ram: Ram, root: nat, f: nat)
    requires f < MAX_FRAMES && DirectMapped(ram, root, f) && root != 0
    ensures HHDM_OFFSET + Address(f) < TWO64
    ensures Resolve(ram, Address(root), HHDM_OFFSET + Address(f)) == Address(f)
  {
    hide Leaf;
    var virt := HHDM_OFFSET + Address(f);
    assert Frame(virt) == 0xF_FFF8_0000_0000 + f && virt % FRAME_SIZE == 0;
    DirectKeyOf(f, virt);
  }

  lemma PointerReaches(v: View, f: nat)
    requires v.Good() && f in v.direct
    ensures v.Deref(v.Pointer(f)) == f && v.Pointer(f) != 0
  {
    hide Tree, Leaf, Resolve, Address, Frame, Wrap;
    RootPositive(v);
    LowAddress(f);
    if v.cr3 == 0 {
      IdentityReaches(v.ram, f);
    } else {
      DirectMapReaches(v.ram, v.root, f);
    }
  }

  lemma TreeHolds(v: View)
    requires v.Good()
    ensures Tree(v.ram, v.tables, v.root)
  {
    hide Tree, Reachable;
  }

  lemma RootPositive(v: View)
    requires v.Good()
    ensures v.root > 0
  {
    assert ROOT in v.tables;
  }

  lemma LowAddress(f: nat)
    requires f < MAX_FRAMES
    ensures Address(f) < TWO64 && Wrap(Address(f)) == Address(f)
    ensures f > 0 ==> Address(f) > 0
  {}

  lemma IdentityReaches(ram: Ram, f: nat)
    ensures Frame(Resolve(ram, 0, Address(f))) == f
  {}

  lemma TableReaches(v: View, n: Node)
    requires v.Good() && n in v.tables
    ensures v.tables[n] < |v.ram|
    ensures v.Deref(v.Pointer(v.tables[n])) == v.tables[n] && v.Pointer(v.tables[n]) != 0
  {
    hide Tree, Leaf;
    PointerReaches(v, v.tables[n]);
  }

  /** Pointers keep working when no translation changes. */
  lemma SameLeavesSameReach(v: View, ram: Ram)
    requires v.Good()
    requires forall k :: 0 <= k < KEYS ==> Leaf(ram, v.root, k) == Leaf(v.ram, v.root, k)
    ensures Reachable(ram, v.root, v.cr3, v.physOffset, v.direct)
    ensures Paging.Mapping(ram, v.root) == v.Mapping()
    ensures forall virt: nat :: v.(ram := ram).Deref(virt) == v.Deref(virt)
  {
    assert v.root > 0 by { assert ROOT in v.tables; }
    hide Tree, Leaf;
    forall f | f in v.direct ensures DirectMapped(v.ram, v.root, f) == DirectMapped(ram, v.root, f) {}
  }

  lemma AddTableKeepsLeaves(ram: Ram, tables: Tables, root: nat, n: Node, i: nat, f: nat)
    requires Tree(ram, tables, root)
    requires n in tables && n.level > 0 && i < 512 && n.Child(i) !in tables
    requires f < |ram| && f !in tables.Values
    ensures Tree(AddTable(ram, tables[n], i, f), tables[n.Child(i) := f], root)
    ensures forall k :: 0 <= k < KEYS ==> Leaf(AddTable(ram, tables[n], i, f), root, k) == Leaf(ram, root, k)
  {
    AddTableKeepsTree(ram, tables, root, n, i, f);
    forall k | 0 <= k < KEYS ensures Leaf(AddTable(ram, tables[n], i, f), root, k) == Leaf(ram, root, k) {
      AddTableKeepsLeaf(ram, tables, root, n, i, f, k);
    }
  }

  /** Zeroing a free frame leaves the parent table within reach. */
  lemma ZeroedFrameReach(v: View, n: Node, f: nat)
    requires v.Good() && n in v.tables && f in v.free
    ensures f < |v.ram| && v.tables[n] < |v.ram|
    ensures v.(ram := v.ram[f := Zeroed()]).Deref(v.Pointer(v.tables[n])) == v.tables[n]
  {
    TableReaches(v, n);
    assert f !in v.tables.Values && f < |v.ram|;
    hide Tree, Leaf, Reachable, Resolve;
    OtherFrameKeepsTree(v.ram, v.tables, v.root, f, Zeroed());
    SameLeavesSameReach(v, v.ram[f := Zeroed()]);
  }

  lemma FreeFrameIsNoTable(v: View, n: Node, f: nat)
    requires v.Good() && n in v.tables && f in v.free
    ensures v.tables[n] < |v.ram| && f !in v.tables.Values && f < |v.ram|
  {}

  /** A free frame becomes a zeroed table: what `next_table` does when it creates. */
  lemma InstallTable(v: View, n: Node, i: nat, f: nat)
    requires v.Good() && n in v.tables && n.level > 0 && i < 512 && n.Child(i) !in v.tables
    requires f in v.free
    ensures v.tables[n] < |v.ram| && f < |v.ram|
    ensures v.WithTable(n, i, f).Good() && v.WithTable(n, i, f).Mapping() == v.Mapping()
  {
    hide Tree, Leaf, Reachable, AddTable, Resolve;
    FreeFrameIsNoTable(v, n, f);
    var ram' := AddTable(v.ram, v.tables[n], i, f);
    AddTableKeepsLeaves(v.ram, v.tables, v.root, n, i, f);
    SameLeavesSameReach(v, ram');
    AddTableSize(v.ram, v.tables[n], i, f);
    TablesStayUsed(v, n.Child(i), f, v.tables[n.Child(i) := f]);
  }

  /** The new table's frame leaves the free ones, so tables and free frames stay apart. */
  lemma TablesStayUsed(v: View, child: Node, f: nat, tables: Tables)
    requires v.Good() && f in v.free && child !in v.tables && tables == v.tables[child := f]
    ensures forall n :: n in tables ==> 0 < tables[n] < v.total && tables[n] !in v.free - {f}
    ensures v.free - {f} + tables.Values <= v.direct
  {
    hide Tree, Leaf, Reachable, Resolve;
    assert tables.Values <= v.tables.Values + {f};
  }

  lemma AddTableSize(ram: Ram, table: nat, i: nat, f: nat)
    requires table < |ram| && i < 512 && f < |ram|
    ensures |AddTable(ram, table, i, f)| == |ram|
  {}

  lemma AddTableIs(ram: Ram, table: nat, i: nat, f: nat)
    requires table < |ram| && i < 512 && f < |ram|
    ensures AddTable(ram, table, i, f) == Write(ram[f := Zeroed()], table, i, TableEntry(f))
  {}

  lemma LeafTablePlaced(v: View, k: nat, e: Entry)
    requires v.Good() && NodeFor(k, 0) in v.tables
    ensures v.tables[NodeFor(k, 0)] < |v.ram|
    ensures |Write(v.ram, v.tables[NodeFor(k, 0)], k % 512, e)| == |v.ram|
  {
    hide Tree;
  }

  /** One page-table slot is written: the tree stays and one key changes, whatever becomes of the direct map. */
  lemma StoreSlot(v: View, k: nat, e: Entry)
    requires v.Good() && k < KEYS && NodeFor(k, 0) in v.tables
    ensures v.tables[NodeFor(k, 0)] < |v.ram|
    ensures Tree(v.WithLeaf(k, e).ram, v.tables, v.root)
    ensures v.WithLeaf(k, e).Mapping() == if e.Present() then v.Mapping()[k := e] else v.Mapping() - {k}
  {
    LeafTablePlaced(v, k, e);
    TreeHolds(v);
    hide View.Good, Tree, Leaf, Write, Paging.Mapping, NodeFor;
    SetLeafKeepsTree(v.ram, v.tables, v.root, k, e);
    SetLeafChangesKeys(v.ram, v.tables, v.root, k, e);
    MappingChanges(v.ram, Write(v.ram, v.tables[NodeFor(k, 0)], k % 512, e), v.root, k, e);
  }

  lemma MappingChanges(ram: Ram, ram': Ram, root: nat, k: nat, e: Entry)
    requires k < KEYS
    requires forall l :: 0 <= l < KEYS ==> Leaf(ram', root, l) == if l == k then e else Leaf(ram, root, l)
    ensures Paging.Mapping(ram', root)
         == if e.Present() then Paging.Mapping(ram, root)[k := e] else Paging.Mapping(ram, root) - {k}
  {
    hide Leaf;
  }

  /** One page-table slot is written; a slot the direct map uses keeps its entry. */
  lemma StoreLeaf(v: View, k: nat, e: Entry)
    requires v.Good() && k < KEYS && NodeFor(k, 0) in v.tables
    requires v.cr3 != 0 ==> forall f :: f in v.direct ==> DirectKey(f) != k
    ensures v.tables[NodeFor(k, 0)] < |v.ram|
    ensures v.WithLeaf(k, e).Good()
    ensures v.WithLeaf(k, e).Mapping() == if e.Present() then v.Mapping()[k := e] else v.Mapping() - {k}
  {
    RootPositive(v);
    LeafTablePlaced(v, k, e);
    hide Tree, Leaf, Write, Reachable, Resolve, Paging.Mapping;
    var ram' := Write(v.ram, v.tables[NodeFor(k, 0)], k % 512, e);
    SetLeafKeepsTree(v.ram, v.tables, v.root, k, e);
    SetLeafChangesKeys(v.ram, v.tables, v.root, k, e);
    StoreLeafReach(v, k, e, ram');
  }

  lemma StoreLeafReach(v: View, k: nat, e: Entry, ram: Ram)
    requires v.Good() && k < KEYS
    requires v.cr3 != 0 ==> forall f :: f in v.direct ==> DirectKey(f) != k
    requires forall l :: 0 <= l < KEYS ==> Leaf(ram, v.root, l) == if l == k then e else Leaf(v.ram, v.root, l)
    ensures Reachable(ram, v.root, v.cr3, v.physOffset, v.direct)
    ensures Paging.Mapping(ram, v.root) == if e.Present() then v.Mapping()[k := e] else v.Mapping() - {k}
  {
    assert v.root > 0 by { assert ROOT in v.tables; }
    hide Tree, Leaf;
    forall f | f in v.direct && v.cr3 != 0 ensures DirectMapped(ram, v.root, f) {
      assert DirectMapped(v.ram, v.root, f);
    }
  }

  lemma SetLeafChangesKeys(ram: Ram, tables: Tables, root: nat, k: nat, e: Entry)
    requires Tree(ram, tables, root) && NodeFor(k, 0) in tables && k < KEYS
    ensures forall l :: 0 <= l < KEYS ==>
              Leaf(Write(ram, tables[NodeFor(k, 0)], k % 512, e), root, l) == if l == k then e else Leaf(ram, root, l)
  {
    forall l | 0 <= l < KEYS
      ensures Leaf(Write(ram, tables[NodeFor(k, 0)], k % 512, e), root, l) == if l == k then e else Leaf(ram, root, l)
    {
      SetLeafChangesOneKey(ram, tables, root, k, e, l);
    }
  }

  /** A key that is mapped nowhere is not one of the direct map's. */
  lemma UnmappedIsNotDirect(v: View, k: nat)
    requires v.Good() && k !in v.Mapping() && v.cr3 != 0
    ensures forall f :: f in v.direct ==> DirectKey(f) != k
  {
    hide Tree, Leaf;
  }

  lemma FreeFrameReaches(v: View, f: nat)
    requires v.Good() && f in v.free
    ensures v.Deref(v.Pointer(f)) == f
  {
    hide Tree, Leaf, Resolve, Reachable;
    PointerReaches(v, f);
  }

  /** What the code reads at slot `i` of the table at `n`, through its pointer. */
  lemma EntryRead(v: View, n: Node, i: nat)
    requires v.Good() && n in v.tables && n.level > 0 && i < 512
    ensures v.Deref(v.Pointer(v.tables[n])) < |v.ram|
    ensures var e := v.ram[v.Deref(v.Pointer(v.tables[n]))][i];
      if n.Child(i) in v.tables
      then e.Present() && e.frame == v.tables[n.Child(i)] && v.Pointer(e.frame) != 0
      else !e.Present()
  {
    assert Linked(v.ram, v.tables, n, i);
    hide Tree, Leaf, Resolve, Reachable;
    TableReaches(v, n);
    if n.Child(i) in v.tables {
      TableReaches(v, n.Child(i));
    }
  }

  /** A range whose keys are all free cannot touch the direct map. */
  lemma FreeKeysSpareDirect(v: View, keys: set<nat>)
    requires v.Good() && v.Mapping().Keys !! keys && v.cr3 != 0
    ensures forall f :: f in v.direct ==> DirectKey(f) !in keys
  {
    hide Tree, Leaf;
  }

  /** What the code reads for key `k` through the pointer `find_entry` returns. */
  lemma LeafRead(v: View, k: nat)
    requires v.Good() && k < KEYS
    ensures k in v.Mapping() <==> Leaf(v.ram, v.root, k).Present()
    ensures NodeFor(k, 0) !in v.tables ==> k !in v.Mapping()
    ensures NodeFor(k, 0) in v.tables ==>
              && v.tables[NodeFor(k, 0)] < |v.ram|
              && v.Deref(v.Pointer(v.tables[NodeFor(k, 0)])) == v.tables[NodeFor(k, 0)]
              && v.ram[v.tables[NodeFor(k, 0)]][k % 512] == Leaf(v.ram, v.root, k)
  {
    LeafInTree(v.ram, v.tables, v.root, k);
    if NodeFor(k, 0) in v.tables {
      TableReaches(v, NodeFor(k, 0));
    }
  }

  lemma WalkStart(v: View, k: nat)
    requires v.Good() && k < KEYS
    ensures NodeFor(k, 3) == ROOT && ROOT in v.tables && v.tables[ROOT] == v.root && v.Pointer(v.root) != 0
  {
    PrefixOfKey(k);
    TableReaches(v, ROOT);
  }

  /** Where a key has its page table it has all tables above. */
  lemma PathPresent(v: View, keys: set<nat>)
    requires v.Good() && forall k :: k in keys ==> NodeFor(k, 0) in v.tables
    ensures PathNodes(keys) <= v.tables.Keys
  {
    hide NodeFor, Tree;
    forall k, level | k in keys && 0 <= level < 3 ensures NodeFor(k, level) in v.tables {
      if NodeFor(k, level) !in v.tables {
        NoTableBelow(v, k, level);
      }
    }
  }

  /** A mapped key has its page table, and with it all tables on its path. */
  lemma MappedPathsPresent(v: View, keys: set<nat>)
    requires v.Good() && keys <= v.Mapping().Keys
    ensures PathNodes(keys) <= v.tables.Keys
  {
    hide NodeFor, Tree, PathNodes, View.Good, Paging.Mapping;
    forall k | k in keys ensures NodeFor(k, 0) in v.tables {
      KeysInRange(v, k);
      LeafRead(v, k);
    }
    PathPresent(v, keys);
  }

  /** Since all pages of `keys` got mapped, there were frames enough for the tables they needed. */
  lemma WereEnough(v0: View, v1: View, keys: set<nat>)
    requires v0.Good() && v1.Good() && Grown(v0.tables, v0.free, v1.tables, v1.free, keys)
    requires PathNodes(keys) <= v1.tables.Keys
    ensures |v0.free| >= |Needs(v0.tables, keys)|
  {
    hide View.Good, Grown, Distinct, PathNodes, Needs;
    GoodTables(v0);
    GoodTables(v1);
    TakenForNeeds(v0.tables, v0.free, v1.tables, v1.free, keys);
  }

  /** Since the frames ran out before page `k` of `keys` had its table, there were too few. */
  lemma WereTooFew(v0: View, v1: View, keys: set<nat>, k: nat)
    requires v0.Good() && v1.Good() && Grown(v0.tables, v0.free, v1.tables, v1.free, keys)
    requires v1.free == {} && k in keys && NodeFor(k, 0) !in v1.tables
    ensures |v0.free| < |Needs(v0.tables, keys)|
  {
    hide View.Good, NodeFor, Grown, Distinct, PathNodes, Needs;
    GoodTables(v0);
    GoodTables(v1);
    OnPath(k, 0, keys);
    TakenForNeeds(v0.tables, v0.free, v1.tables, v1.free, keys);
  }

  lemma KeysInRange(v: View, k: nat)
    requires k in v.Mapping()
    ensures k < KEYS
  {}

  lemma NoTableBelow(v: View, k: nat, level: nat)
    requires v.Good() && level <= 3 && NodeFor(k, level) !in v.tables
    ensures NodeFor(k, 0) !in v.tables
  {
    MissingBelow(v.tables, |v.ram|, k, level);
  }

  lemma SlotIndex(virt: nat)
    ensures Index(virt, 0) == Key(virt) % 512
  {
    IndexIsPrefix(virt, 0);
  }

  lemma PageEntryPresent(phys: nat, flags: Flags)
    ensures PageEntry(phys, flags).Present()
  {
    var lo := flags.lo;
    assert (lo | PRESENT) & 1 == 1;
  }

  /** A tree of one zeroed table maps nothing. */
  lemma FreshRoot(ram: Ram, root: nat)
    requires root < |ram|
    ensures Tree(ram[root := Zeroed()], map[ROOT := root], root)
    ensures Paging.Mapping(ram[root := Zeroed()], root) == map[]
  {
    var ram', tables := ram[root := Zeroed()], map[ROOT := root];
    forall i | 0 <= i < 512 ensures Linked(ram', tables, ROOT, i) {}
    forall k | 0 <= k < KEYS ensures !Leaf(ram', root, k).Present() {
      LeafInTree(ram', tables, root, k);
    }
  }

  lemma FreshRootView(ram: Ram, root: nat, free: set<nat>, total: nat)
    requires total <= |ram| && total <= MAX_FRAMES && root in free && forall f :: f in free ==> 0 < f < total
    ensures var v := View(ram[root := Zeroed()], map[ROOT := root], root, 0, 0, free, free - {root}, total);
      v.Good() && v.Mapping() == map[] && v.tables.Values + v.free == free
  {
    hide Tree, Leaf;
    FreshRoot(ram, root);
    var tables: Tables := map[ROOT := root];
    assert ROOT in tables && tables[ROOT] == root;
    assert tables.Values == {root};
  }

  // ---- Frames the heap takes and gives back ----

  lemma FramesTaken(v: View, taken: set<nat>)
    requires v.Good()
    ensures v.(free := v.free - taken).Good()
  {
    hide Tree, Leaf, Reachable;
  }

  lemma FramesReturned(v: View, back: set<nat>)
    requires v.Good() && back <= v.direct && back !! v.tables.Values
    ensures v.(free := v.free + back).Good()
  {
    hide Tree, Leaf, Reachable;
  }

  lemma GoodTables(v: View)
    requires v.Good()
    ensures Distinct(v.tables) && v.tables.Values !! v.free
    ensures forall f :: f in v.direct ==> 0 < f < v.total
    ensures v.total <= MAX_FRAMES
  {}
}
