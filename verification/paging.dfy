/**
 * Four-level x86-64 page tables as words in physical memory (Intel SDM volume 3A,
 * section 4.5): what the processor reads from them, the tree they form, and what the
 * two writes the kernel makes do to the mapping.
 */
module Paging {
  import opened Machine

  // ---- Entries ----

  const FRAME_FIELD: nat := 0x100_0000_0000   // values of bits 12..51
  const KEYS: nat := 0x10_0000_0000           // values of bits 12..47 of a virtual address

  /**
   * A 64-bit table entry by its bit fields: bits 0..11, 12..51 and 52..63. Masking with
   * ADDR_MASK keeps `frame`; or-ing in flags that avoid ADDR_MASK changes `lo` and `hi` only.
   */
  datatype Entry = Entry(frame: nat, lo: bv12, hi: bv12) {
    predicate Present() { lo & 1 != 0 }
    predicate CanWrite() { lo & 2 != 0 }
    predicate NoExecute() { hi & 0x800 != 0 }
  }

  datatype Flags = Flags(lo: bv12, hi: bv12) {
    predicate CanWrite() { lo & 2 != 0 }
    predicate NoExecute() { hi & 0x800 != 0 }
  }

  const PRESENT: bv12 := 1
  const WRITABLE: bv12 := 2
  const NO_EXECUTE: bv12 := 0x800   // bit 63, seen as a bit of `hi`

  const EMPTY := Entry(0, 0, 0)

  /** The frame field that masking an address with ADDR_MASK selects. */
  function Field(phys: nat): nat {
    Frame(phys) % FRAME_FIELD
  }

  /** The entry `map` writes: the masked frame with the flags given, and present. */
  function PageEntry(phys: nat, flags: Flags): Entry {
    Entry(Field(phys), flags.lo | PRESENT, flags.hi)
  }

  /** The entry that links a table: its frame, present and writable. */
  function TableEntry(frame: nat): Entry {
    Entry(frame, PRESENT | WRITABLE, 0)
  }

  // ---- Memory ----

  type Table = t: seq<Entry> | |t| == 512 witness seq(512, _ => EMPTY)

  // Physical memory by frame number.
  type Ram = seq<Table>

  function Zeroed(): Table { seq(512, _ => EMPTY) }

  /** Memory after one entry is written. */
  function Write(ram: Ram, frame: nat, i: nat, e: Entry): Ram
    requires frame < |ram| && i < 512
  {
    ram[frame := ram[frame][i := e]]
  }

  // ---- Virtual addresses ----

  /** Bits 12..47: the part of an address the tables look at. */
  function Key(virt: nat): (k: nat)
    ensures k < KEYS
  {
    Frame(virt) % KEYS
  }

  /** The nine bits of an address that select an entry in the table at `level`. */
  function Index(virt: nat, level: nat): (i: nat)
    requires level < 4
    ensures i < 512
  {
    if level == 0 then virt / 0x1000 % 512
    else if level == 1 then virt / 0x20_0000 % 512
    else if level == 2 then virt / 0x4000_0000 % 512
    else virt / 0x80_0000_0000 % 512
  }

  /** What is left of a key above its lowest `n` groups of nine bits. */
  function Prefix(k: nat, n: nat): nat {
    if n == 0 then k else Prefix(k, n - 1) / 512
  }

  /** Shifting by 12 and then nine bits at a time is one shift. */
  lemma ShiftByNines(virt: nat)
    ensures virt / 0x20_0000 == virt / 0x1000 / 512
    ensures virt / 0x4000_0000 == virt / 0x20_0000 / 512
    ensures virt / 0x80_0000_0000 == virt / 0x4000_0000 / 512
  {}

  /** Bits above the key do not reach the nine bits an index keeps. */
  lemma HighBitsDropOut(q: nat, k: nat)
    ensures (q * 0x10_0000_0000 + k) / 512 == q * 0x800_0000 + k / 512
    ensures (q * 0x800_0000 + k) / 512 == q * 0x4_0000 + k / 512
    ensures (q * 0x4_0000 + k) / 512 == q * 0x200 + k / 512
    ensures (q * 0x10_0000_0000 + k) % 512 == k % 512
    ensures (q * 0x800_0000 + k) % 512 == k % 512
    ensures (q * 0x4_0000 + k) % 512 == k % 512
    ensures (q * 0x200 + k) % 512 == k % 512
  {}

  /** What is left of an address above its offset and `n` groups: what is left of its key, and bits that drop out. */
  function Shifted(virt: nat, n: nat): nat
    requires n < 4
  {
    if n == 0 then virt / 0x1000 else if n == 1 then virt / 0x20_0000 else if n == 2 then virt / 0x4000_0000
    else virt / 0x80_0000_0000
  }

  lemma KeyShifted(virt: nat)
    ensures Shifted(virt, 0) == Frame(virt) / KEYS * 0x10_0000_0000 + Key(virt)
    ensures Shifted(virt, 0) % 512 == Key(virt) % 512
  {
    hide Key, Frame;
    KeyParts(virt);
    HighBitsDropOut(Frame(virt) / KEYS, Key(virt));
  }

  lemma KeyShiftedOnce(virt: nat)
    ensures Shifted(virt, 1) == Frame(virt) / KEYS * 0x800_0000 + Prefix(Key(virt), 1)
    ensures Shifted(virt, 1) % 512 == Prefix(Key(virt), 1) % 512
  {
    hide Key, Frame;
    KeyShifted(virt);
    ShiftByNines(virt);
    HighBitsDropOut(Frame(virt) / KEYS, Key(virt));
    HighBitsDropOut(Frame(virt) / KEYS, Prefix(Key(virt), 1));
  }

  lemma KeyShiftedTwice(virt: nat)
    ensures Shifted(virt, 2) == Frame(virt) / KEYS * 0x4_0000 + Prefix(Key(virt), 2)
    ensures Shifted(virt, 2) % 512 == Prefix(Key(virt), 2) % 512
  {
    hide Key, Frame;
    KeyShiftedOnce(virt);
    ShiftByNines(virt);
    HighBitsDropOut(Frame(virt) / KEYS, Prefix(Key(virt), 1));
    HighBitsDropOut(Frame(virt) / KEYS, Prefix(Key(virt), 2));
  }

  lemma KeyShiftedThrice(virt: nat)
    ensures Shifted(virt, 3) % 512 == Prefix(Key(virt), 3) % 512
  {
    hide Key, Frame;
    KeyShiftedTwice(virt);
    ShiftByNines(virt);
    HighBitsDropOut(Frame(virt) / KEYS, Prefix(Key(virt), 2));
    HighBitsDropOut(Frame(virt) / KEYS, Prefix(Key(virt), 3));
  }

  lemma KeyParts(virt: nat)
    ensures virt / 0x1000 == Frame(virt) / KEYS * 0x10_0000_0000 + Key(virt)
  {}

  lemma IndexIsPrefix(virt: nat, level: nat)
    requires level < 4
    ensures Index(virt, level) == Prefix(Key(virt), level) % 512
  {
    hide Key, Frame, Prefix;
    if level == 0 {
      KeyShifted(virt);
      assert Prefix(Key(virt), 0) == Key(virt) by {
        WholePrefix(Key(virt));
      }
    } else if level == 1 {
      KeyShiftedOnce(virt);
    } else if level == 2 {
      KeyShiftedTwice(virt);
    } else {
      KeyShiftedThrice(virt);
    }
  }

  lemma WholePrefix(k: nat)
    ensures Prefix(k, 0) == k
  {}

  // ---- The walk ----

  /** The page table the processor reaches for key `k`, from `table` at `level`. */
  function Descend(ram: Ram, table: nat, k: nat, level: nat): Option<nat>
    decreases level
  {
    if table >= |ram| then None
    else if level == 0 then Some(table)
    else
      var e := ram[table][Prefix(k, level) % 512];
      if e.Present() then Descend(ram, e.frame, k, level - 1) else None
  }

  /** The entry that decides where key `k` goes; EMPTY when a table on the way is missing. */
  function Leaf(ram: Ram, root: nat, k: nat): Entry {
    match Descend(ram, root, k, 3)
    case None => EMPTY
    case Some(table) => if table < |ram| then ram[table][k % 512] else EMPTY
  }

  /** What the tables mean: the page each key is mapped to, with its flags. */
  ghost function Mapping(ram: Ram, root: nat): (m: map<nat, Entry>)
    ensures forall k :: k in m <==> 0 <= k < KEYS && Leaf(ram, root, k).Present()
    ensures forall k :: k in m ==> m[k] == Leaf(ram, root, k)
  {
    map k | 0 <= k < KEYS && Leaf(ram, root, k).Present() :: Leaf(ram, root, k)
  }

  // ---- The tree ----

  /** A table by its place: its level and the key bits that lead to it. */
  datatype Node = Node(level: nat, prefix: nat) {
    function Child(i: nat): Node
      requires level > 0
    {
      Node(level - 1, prefix * 512 + i)
    }
    function Parent(): Node { Node(level + 1, prefix / 512) }
  }

  const ROOT := Node(3, 0)

  /** The table consulted at `level` for key `k`. */
  function NodeFor(k: nat, level: nat): Node {
    Node(level, Prefix(k, level + 1))
  }

  type Tables = map<Node, nat>

  ghost predicate Distinct(tables: Tables) {
    forall a, b :: a in tables && b in tables && tables[a] == tables[b] ==> a == b
  }

  ghost predicate Placed(tables: Tables, size: nat) {
    && (forall n :: n in tables ==> n.level <= 3 && (n.level == 3 ==> n.prefix == 0) && tables[n] < size)
    && (forall n :: n in tables && n.level < 3 ==> n.Parent() in tables)
  }

  /** Slot `i` of the table at `n` holds the child there, or nothing. */
  ghost predicate Linked(ram: Ram, tables: Tables, n: Node, i: nat)
    requires n in tables && n.level > 0 && tables[n] < |ram| && i < 512
  {
    if n.Child(i) in tables then ram[tables[n]][i] == TableEntry(tables[n.Child(i)])
    else !ram[tables[n]][i].Present()
  }

  /** `tables` says where every table lives, and memory holds exactly those links. */
  ghost predicate Tree(ram: Ram, tables: Tables, root: nat) {
    && Placed(tables, |ram|)
    && Distinct(tables)
    && ROOT in tables && tables[ROOT] == root
    && forall n, i :: n in tables && n.level > 0 && 0 <= i < 512 ==> Linked(ram, tables, n, i)
  }

  lemma PrefixOfKey(k: nat)
    requires k < KEYS
    ensures Prefix(k, 4) == 0
  {
    assert Prefix(k, 1) == k / 512;
    assert Prefix(k, 2) == Prefix(k, 1) / 512;
    assert Prefix(k, 3) == Prefix(k, 2) / 512;
  }

  lemma NodeForChild(k: nat, level: nat)
    requires level > 0
    ensures NodeFor(k, level - 1) == NodeFor(k, level).Child(Prefix(k, level) % 512)
    ensures NodeFor(k, level - 1).Parent() == NodeFor(k, level)
  {}

  /** One step of the walk: the index bits of `virt` name the child on the way to its key. */
  lemma WalkStep(virt: nat, level: nat)
    requires 0 < level < 4
    ensures NodeFor(Key(virt), level).level == level
    ensures NodeFor(Key(virt), level - 1) == NodeFor(Key(virt), level).Child(Index(virt, level))
  {
    IndexIsPrefix(virt, level);
    NodeForChild(Key(virt), level);
  }

  /** Two keys with the same page table and the same slot in it are one key. */
  lemma SameSlot(k: nat, l: nat)
    requires NodeFor(k, 0) == NodeFor(l, 0) && k % 512 == l % 512
    ensures k == l
  {
    assert Prefix(k, 1) == k / 512 && Prefix(l, 1) == l / 512;
  }

  /** The walk follows the tree: it finds the page table of `k` when there is one. */
  lemma {:induction false} DescendInTree(ram: Ram, tables: Tables, root: nat, k: nat, level: nat)
    requires Tree(ram, tables, root) && level <= 3
    requires NodeFor(k, level) in tables
    ensures Descend(ram, tables[NodeFor(k, level)], k, level)
         == if NodeFor(k, 0) in tables then Some(tables[NodeFor(k, 0)]) else None
  {
    if level > 0 {
      var n := NodeFor(k, level);
      NodeForChild(k, level);
      assert Linked(ram, tables, n, Prefix(k, level) % 512);
      if NodeFor(k, level - 1) in tables {
        DescendInTree(ram, tables, root, k, level - 1);
      } else {
        MissingBelow(tables, |ram|, k, level - 1);
      }
    }
  }

  lemma {:induction false} MissingBelow(tables: Tables, size: nat, k: nat, level: nat)
    requires Placed(tables, size) && level <= 3 && NodeFor(k, level) !in tables
    ensures NodeFor(k, 0) !in tables
  {
    if level > 0 {
      NodeForChild(k, level);
      MissingBelow(tables, size, k, level - 1);
    }
  }

  /** What the processor reads for a key, in terms of the tree. */
  lemma LeafInTree(ram: Ram, tables: Tables, root: nat, k: nat)
    requires Tree(ram, tables, root) && k < KEYS
    ensures NodeFor(k, 0) in tables ==> tables[NodeFor(k, 0)] < |ram|
    ensures Leaf(ram, root, k)
         == if NodeFor(k, 0) in tables then ram[tables[NodeFor(k, 0)]][k % 512] else EMPTY
  {
    PrefixOfKey(k);
    DescendInTree(ram, tables, root, k, 3);
  }

  // ---- Writes ----

  /** A frame that holds no table can change freely. */
  lemma OtherFrameKeepsTree(ram: Ram, tables: Tables, root: nat, frame: nat, t: Table)
    requires Tree(ram, tables, root) && frame < |ram| && frame !in tables.Values
    ensures Tree(ram[frame := t], tables, root)
    ensures forall k :: 0 <= k < KEYS ==> Leaf(ram[frame := t], root, k) == Leaf(ram, root, k)
  {
    var ram' := ram[frame := t];
    forall m, j | m in tables && m.level > 0 && 0 <= j < 512 ensures Linked(ram', tables, m, j) {
      assert Linked(ram, tables, m, j);
    }
    forall k | 0 <= k < KEYS ensures Leaf(ram', root, k) == Leaf(ram, root, k) {
      LeafInTree(ram, tables, root, k);
      LeafInTree(ram', tables, root, k);
    }
  }

  /** Memory after a zeroed frame is linked in as the missing child of `n` at slot `i`. */
  function AddTable(ram: Ram, table: nat, i: nat, frame: nat): Ram
    requires table < |ram| && i < 512 && frame < |ram|
  {
    Write(ram[frame := Zeroed()], table, i, TableEntry(frame))
  }

  /** Adding an empty table keeps the tree and every translation. */
  lemma AddTableKeepsTree(ram: Ram, tables: Tables, root: nat, n: Node, i: nat, frame: nat)
    requires Tree(ram, tables, root)
    requires n in tables && n.level > 0 && i < 512 && n.Child(i) !in tables
    requires frame < |ram| && frame !in tables.Values
    ensures Tree(AddTable(ram, tables[n], i, frame), tables[n.Child(i) := frame], root)
  {
    hide Linked, AddTable;
    var child := n.Child(i);
    var ram', tables' := AddTable(ram, tables[n], i, frame), tables[child := frame];
    AddTableKeepsPlaces(ram, tables, n, i, frame);
    forall m, j | m in tables' && m.level > 0 && 0 <= j < 512 ensures Linked(ram', tables', m, j) {
      if m == child {
        NewTableLinked(ram, tables, n, i, frame, j);
      } else {
        OldTableLinked(ram, tables, root, n, i, frame, m, j);
      }
    }
  }

  /** The tables stay distinct, inside memory, and each below its parent. */
  lemma AddTableKeepsPlaces(ram: Ram, tables: Tables, n: Node, i: nat, frame: nat)
    requires Distinct(tables) && Placed(tables, |ram|)
    requires n in tables && n.level > 0 && i < 512 && n.Child(i) !in tables
    requires frame < |ram| && frame !in tables.Values
    ensures Distinct(tables[n.Child(i) := frame])
    ensures |AddTable(ram, tables[n], i, frame)| == |ram|
    ensures Placed(tables[n.Child(i) := frame], |ram|)
  {
    assert n.Child(i).Parent() == n;
  }

  /** The new table is empty and has no children. */
  lemma NewTableLinked(ram: Ram, tables: Tables, n: Node, i: nat, frame: nat, j: nat)
    requires Placed(tables, |ram|) && n in tables && n.level > 1 && i < 512 && n.Child(i) !in tables && j < 512
    requires frame < |ram| && frame !in tables.Values
    ensures Linked(AddTable(ram, tables[n], i, frame), tables[n.Child(i) := frame], n.Child(i), j)
  {
    assert n.Child(i).Child(j).Parent() == n.Child(i);
  }

  /** In the tables that were there, one entry changed: the one that links the new table. */
  lemma OldTableLinked(ram: Ram, tables: Tables, root: nat, n: Node, i: nat, frame: nat, m: Node, j: nat)
    requires Tree(ram, tables, root)
    requires n in tables && n.level > 0 && i < 512 && n.Child(i) !in tables
    requires frame < |ram| && frame !in tables.Values
    requires m in tables && m.level > 0 && j < 512
    ensures Linked(AddTable(ram, tables[n], i, frame), tables[n.Child(i) := frame], m, j)
  {
    assert Linked(ram, tables, m, j);
    assert m.Child(j) == n.Child(i) ==> m.Child(j).Parent() == m && n.Child(i).Parent() == n;
    assert m == n && m.Child(j) == n.Child(i) ==> j == i;
  }

  lemma AddTableKeepsLeaf(ram: Ram, tables: Tables, root: nat, n: Node, i: nat, frame: nat, k: nat)
    requires Tree(ram, tables, root)
    requires n in tables && n.level > 0 && i < 512 && n.Child(i) !in tables
    requires frame < |ram| && frame !in tables.Values
    requires k < KEYS
    ensures Leaf(AddTable(ram, tables[n], i, frame), root, k) == Leaf(ram, root, k)
  {
    assert tables[n] < |ram|;
    hide Tree, Leaf;
    AddTableKeepsTree(ram, tables, root, n, i, frame);
    LeafInTree(ram, tables, root, k);
    LeafInTree(AddTable(ram, tables[n], i, frame), tables[n.Child(i) := frame], root, k);
    LeafTableKept(ram, tables, root, n, i, frame, k);
  }

  /** A page table that was there is not written, and a new one holds nothing. */
  lemma LeafTableKept(ram: Ram, tables: Tables, root: nat, n: Node, i: nat, frame: nat, k: nat)
    requires Tree(ram, tables, root)
    requires n in tables && n.level > 0 && i < 512 && n.Child(i) !in tables
    requires frame < |ram| && frame !in tables.Values
    ensures var ram', tables' := AddTable(ram, tables[n], i, frame), tables[n.Child(i) := frame];
            var leaf := NodeFor(k, 0);
            if leaf in tables then
              leaf in tables' && tables'[leaf] == tables[leaf] < |ram| && ram'[tables[leaf]] == ram[tables[leaf]]
            else leaf in tables' ==> ram'[tables'[leaf]] == Zeroed()
  {
    hide Linked;
  }

  /** Writing one page-table slot keeps the tree and changes that key only. */
  lemma SetLeafKeepsTree(ram: Ram, tables: Tables, root: nat, k: nat, e: Entry)
    requires Tree(ram, tables, root) && NodeFor(k, 0) in tables
    ensures Tree(Write(ram, tables[NodeFor(k, 0)], k % 512, e), tables, root)
  {
    var ram' := Write(ram, tables[NodeFor(k, 0)], k % 512, e);
    forall m, j | m in tables && m.level > 0 && 0 <= j < 512 ensures Linked(ram', tables, m, j) {
      assert Linked(ram, tables, m, j);
    }
  }

  lemma SetLeafChangesOneKey(ram: Ram, tables: Tables, root: nat, k: nat, e: Entry, l: nat)
    requires Tree(ram, tables, root) && NodeFor(k, 0) in tables && k < KEYS && l < KEYS
    ensures Leaf(Write(ram, tables[NodeFor(k, 0)], k % 512, e), root, l)
         == if l == k then e else Leaf(ram, root, l)
  {
    SetLeafKeepsTree(ram, tables, root, k, e);
    LeafInTree(ram, tables, root, l);
    LeafInTree(Write(ram, tables[NodeFor(k, 0)], k % 512, e), tables, root, l);
    if NodeFor(l, 0) == NodeFor(k, 0) && l % 512 == k % 512 {
      SameSlot(k, l);
    }
  }
}
