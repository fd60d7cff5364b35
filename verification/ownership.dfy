/**
 * Who owns which frame: every frame the allocator was given at boot is free, a page table,
 * or memory behind the heap, and never two of these (pmm.cpp, vmm.cpp and heap.cpp together).
 */
module Ownership {
  import opened Machine
  import opened Paging
  import opened TableGrowth
  import opened PageRanges
  import opened TableAccess

  // The heap may take 1 GiB of addresses (kernel/include/mm/heap.h).
  const HEAP_MAX: nat := 0x4000_0000
  const HEAP_MAX_PAGES: nat := 0x4_0000

  const HEAP_FLAGS := Flags(WRITABLE, NO_EXECUTE)

  function ToSet(s: seq<nat>): set<nat> {
    set x | x in s
  }

  ghost predicate NoRepeats(s: seq<nat>) {
    forall i, j :: 0 <= i < j < |s| ==> s[i] != s[j]
  }

  /** `pool` falls into three parts. */
  ghost predicate Parts(free: set<nat>, tables: set<nat>, heap: set<nat>, pool: set<nat>) {
    free !! tables !! heap && free + tables + heap == pool
  }

  /** The frames given at boot are split between the allocator, the tables and the heap. */
  ghost predicate Owned(free: set<nat>, tables: Tables, backing: seq<nat>, pool: set<nat>) {
    Distinct(tables) && NoRepeats(backing) && Parts(free, tables.Values, ToSet(backing), pool)
  }

  /** Page `i` of the heap is mapped to frame `i` of its backing, and nothing lies above. */
  ghost predicate Backs(m: map<nat, Entry>, start: nat, backing: seq<nat>) {
    && (forall i :: 0 <= i < |backing| ==> PageGoesTo(m, start, i, backing[i]))
    && (forall i :: |backing| <= i < HEAP_MAX_PAGES ==> KeyAt(start, i) !in m)
  }

  ghost predicate PageGoesTo(m: map<nat, Entry>, start: nat, i: nat, f: nat) {
    KeyAt(start, i) in m && m[KeyAt(start, i)] == PageEntry(Address(f), HEAP_FLAGS)
  }

  /** The region the heap may grow into lies on page boundaries and clear of the address space's end. */
  ghost predicate GoodRegion(start: nat) {
    start > 0 && start % FRAME_SIZE == 0 && start + 4 * HEAP_MAX <= TWO64
  }

  function FrameSeq(first: nat, count: nat): (s: seq<nat>)
    ensures |s| == count && forall i :: 0 <= i < count ==> s[i] == first + i
  {
    seq(count, i requires 0 <= i < count => first + i)
  }

  lemma FrameSeqSet(first: nat, count: nat)
    ensures ToSet(FrameSeq(first, count)) == Frames(first, count) && NoRepeats(FrameSeq(first, count))
  {
    forall f | first <= f < first + count ensures f in FrameSeq(first, count) {
      assert FrameSeq(first, count)[f - first] == f;
    }
  }

  // ---- Counting ----

  lemma {:induction false} SeqSetSize(s: seq<nat>)
    requires NoRepeats(s)
    ensures |ToSet(s)| == |s|
  {
    if s != [] {
      var last := s[|s| - 1];
      SeqSetSize(s[..|s| - 1]);
      assert ToSet(s) == ToSet(s[..|s| - 1]) + {last};
    }
  }

  /** The counts add up: nothing is lost and nothing is counted twice. */
  lemma Conservation(free: set<nat>, tables: Tables, backing: seq<nat>, pool: set<nat>)
    requires Owned(free, tables, backing, pool)
    ensures |free| + |tables| + |backing| == |pool|
  {
    SeqSetSize(backing);
    TablesSize(tables);
    assert |free + tables.Values| == |free| + |tables.Values|;
  }

  // ---- Frames changing hands ----

  lemma PartsTake(free: set<nat>, tables: set<nat>, heap: set<nat>, pool: set<nat>, taken: set<nat>)
    requires Parts(free, tables, heap, pool) && taken <= free
    ensures Parts(free - taken, tables, heap + taken, pool) && heap !! taken
  {}

  lemma PartsReturn(free: set<nat>, tables: set<nat>, heap: set<nat>, pool: set<nat>, back: set<nat>)
    requires Parts(free, tables, heap + back, pool) && heap !! back
    ensures Parts(free + back, tables, heap, pool) && back !! tables && back <= pool
  {}

  /** A run of free frames goes behind the heap. */
  lemma OwnedTake(free: set<nat>, tables: Tables, backing: seq<nat>, pool: set<nat>, first: nat, count: nat)
    requires Owned(free, tables, backing, pool) && Frames(first, count) <= free
    ensures Owned(free - Frames(first, count), tables, backing + FrameSeq(first, count), pool)
  {
    hide Frames, FrameSeq, Distinct, Parts, ToSet, NoRepeats;
    FrameSeqSet(first, count);
    ToSetAppend(backing, FrameSeq(first, count));
    PartsTake(free, tables.Values, ToSet(backing), pool, Frames(first, count));
    NoRepeatsAppend(backing, FrameSeq(first, count));
  }

  lemma ToSetAppend(a: seq<nat>, b: seq<nat>)
    ensures ToSet(a + b) == ToSet(a) + ToSet(b)
  {}

  lemma NoRepeatsAppend(a: seq<nat>, b: seq<nat>)
    requires NoRepeats(a) && NoRepeats(b) && ToSet(a) !! ToSet(b)
    ensures NoRepeats(a + b)
  {
    forall i, j | 0 <= i < |a| && 0 <= j < |b| ensures a[i] != b[j] {
      assert a[i] in ToSet(a) && b[j] in ToSet(b);
    }
  }

  /** Free frames become page tables. */
  lemma OwnedGrown(free: set<nat>, tables: Tables, backing: seq<nat>, pool: set<nat>, free': set<nat>, tables': Tables,
                   keys: set<nat>)
    requires Owned(free, tables, backing, pool) && Grown(tables, free, tables', free', keys)
    requires Distinct(tables') && tables'.Values !! free'
    ensures Owned(free', tables', backing, pool)
  {
    hide ToSet, NoRepeats, Distinct, Grown;
    GrownConserves(tables, free, tables', free', keys);
  }

  /** The frames of a growth that failed go back to the free ones. */
  lemma OwnedReturn(free: set<nat>, tables: Tables, backing: seq<nat>, pool: set<nat>, first: nat, count: nat)
    requires Owned(free, tables, backing + FrameSeq(first, count), pool)
    ensures Owned(free + Frames(first, count), tables, backing, pool)
    ensures Frames(first, count) !! tables.Values && Frames(first, count) <= pool
  {
    hide Frames, FrameSeq, Distinct, Parts, ToSet, NoRepeats;
    FrameSeqSet(first, count);
    NoRepeatsSplit(backing, FrameSeq(first, count));
    PartsReturn(free, tables.Values, ToSet(backing), pool, Frames(first, count));
  }

  lemma NoRepeatsSplit(a: seq<nat>, b: seq<nat>)
    requires NoRepeats(a + b)
    ensures NoRepeats(a) && ToSet(a) !! ToSet(b) && ToSet(a + b) == ToSet(a) + ToSet(b)
  {
    forall i, j | 0 <= i < j < |a| ensures a[i] != a[j] {
      assert (a + b)[i] != (a + b)[j];
    }
    forall i, j | 0 <= i < |a| && 0 <= j < |b| ensures a[i] != b[j] {
      assert (a + b)[i] == a[i] && (a + b)[|a| + j] == b[j];
    }
  }

  // ---- Keys of the heap's pages ----

  /** The pages of the region have keys of their own. */
  lemma RegionKeys(start: nat)
    requires GoodRegion(start)
    ensures DistinctKeys(start, HEAP_MAX_PAGES)
  {
    forall i, j | 0 <= i < j < HEAP_MAX_PAGES ensures KeyAt(start, i) != KeyAt(start, j) {
      RegionKey(start, i);
      RegionKey(start, j);
      KeysApart(Frame(start), i, j);
    }
  }

  lemma RegionKeysDiffer(start: nat, i: nat, j: nat)
    requires GoodRegion(start) && i < HEAP_MAX_PAGES && j < HEAP_MAX_PAGES && i != j
    ensures KeyAt(start, i) != KeyAt(start, j)
  {
    hide KeyAt;
    RegionKeys(start);
  }

  lemma RegionKey(start: nat, i: nat)
    requires GoodRegion(start) && i < HEAP_MAX_PAGES
    ensures KeyAt(start, i) == (Frame(start) + i) % KEYS
  {
    assert start + i * FRAME_SIZE < TWO64;
    assert Frame(start + i * FRAME_SIZE) == Frame(start) + i;
  }

  lemma KeysApart(a: nat, i: nat, j: nat)
    requires i < j < HEAP_MAX_PAGES
    ensures (a + i) % KEYS != (a + j) % KEYS
  {}

  /** Pages counted from the heap's end are pages counted from its start. */
  lemma KeysFromEnd(start: nat, n: nat, p: nat)
    ensures GoodRegion(start) && n <= HEAP_MAX_PAGES ==> KeyAt(start + n * FRAME_SIZE, p) == KeyAt(start, n + p)
  {
    assert start + n * FRAME_SIZE + p * FRAME_SIZE == start + (n + p) * FRAME_SIZE;
  }

  /** The next pages of the heap are free to map. */
  lemma RoomToGrow(m: map<nat, Entry>, start: nat, backing: seq<nat>, pages: nat)
    requires GoodRegion(start) && Backs(m, start, backing) && |backing| + pages <= HEAP_MAX_PAGES
    ensures RangeFree(m, start + |backing| * FRAME_SIZE, pages)
  {
    hide KeyAt;
    var n := |backing|;
    var end := start + n * FRAME_SIZE;
    RegionKeys(start);
    forall p | 0 <= p < pages ensures KeyAt(end, p) == KeyAt(start, n + p) {
      KeysFromEnd(start, n, p);
    }
    forall i, j | 0 <= i < j < pages ensures KeyAt(end, i) != KeyAt(end, j) {
      assert KeyAt(start, n + i) != KeyAt(start, n + j);
    }
    forall k | k in KeysOf(end, pages) ensures k !in m {
      var p :| 0 <= p < pages && k == KeyAt(end, p);
      assert KeyAt(start, n + p) !in m;
    }
  }

  /** The `p`-th page of a run of frames. */
  lemma FramePage(first: nat, p: nat)
    requires first + p < MAX_FRAMES
    ensures PageAt(Address(first), p) == Address(first + p)
  {
    assert Address(first) + p * FRAME_SIZE == Address(first + p);
  }

  /** Where the `p`-th new page goes. */
  lemma NewPage(start: nat, n: nat, first: nat, pages: nat, p: nat)
    requires GoodRegion(start) && n + pages <= HEAP_MAX_PAGES && p < pages
    requires first + pages <= MAX_FRAMES
    requires DistinctKeys(start + n * FRAME_SIZE, pages)
    ensures PageGoesTo(PageMap(start + n * FRAME_SIZE, Address(first), pages, HEAP_FLAGS), start, n + p, first + p)
  {
    hide PageMap, PageEntry, Address, PageAt, KeyAt, KeysOf, DistinctKeys;
    FramePage(first, p);
    KeysFromEnd(start, n, p);
    KeyInRange(start + n * FRAME_SIZE, p, pages);
    PageMapAt(start + n * FRAME_SIZE, Address(first), pages, HEAP_FLAGS, p);
  }

  /** After the next pages were mapped to a run of frames, the longer heap is backed. */
  lemma BackedFurther(m: map<nat, Entry>, start: nat, backing: seq<nat>, first: nat, pages: nat)
    requires GoodRegion(start) && Backs(m, start, backing) && |backing| + pages <= HEAP_MAX_PAGES
    requires first + pages <= MAX_FRAMES
    ensures Backs(m + PageMap(start + |backing| * FRAME_SIZE, Address(first), pages, HEAP_FLAGS),
                  start, backing + FrameSeq(first, pages))
  {
    hide PageMap, PageEntry, Address, PageAt, KeyAt, KeysOf, GoodRegion, DistinctKeys, PageGoesTo;
    var n := |backing|;
    var pm := PageMap(start + n * FRAME_SIZE, Address(first), pages, HEAP_FLAGS);
    var more := backing + FrameSeq(first, pages);
    RoomToGrow(m, start, backing, pages);
    KeysOfPages(start, n, pages);
    forall i | n <= i < |more| ensures PageGoesTo(pm, start, i, more[i]) {
      NewPage(start, n, first, pages, i - n);
      assert more[i] == first + (i - n);
    }
    JoinBacks(m, pm, start, backing, more);
  }

  lemma JoinBacks(m: map<nat, Entry>, pm: map<nat, Entry>, start: nat, backing: seq<nat>, more: seq<nat>)
    requires Backs(m, start, backing) && backing <= more && |more| <= HEAP_MAX_PAGES
    requires forall i :: 0 <= i < HEAP_MAX_PAGES ==> (KeyAt(start, i) in pm <==> |backing| <= i < |more|)
    requires forall i :: |backing| <= i < |more| ==> PageGoesTo(pm, start, i, more[i])
    ensures Backs(m + pm, start, more)
  {
    hide PageEntry, Address, KeyAt;
    forall i | 0 <= i < |more| ensures PageGoesTo(m + pm, start, i, more[i]) {
      if i < |backing| {
        assert PageGoesTo(m, start, i, backing[i]);
      } else {
        assert PageGoesTo(pm, start, i, more[i]);
      }
    }
  }

  /** The keys of the new pages are exactly those of page numbers n .. n + pages. */
  lemma KeysOfPages(start: nat, n: nat, pages: nat)
    requires GoodRegion(start) && n + pages <= HEAP_MAX_PAGES
    ensures forall i :: 0 <= i < HEAP_MAX_PAGES ==>
              (KeyAt(start, i) in KeysOf(start + n * FRAME_SIZE, pages) <==> n <= i < n + pages)
  {
    hide KeyAt;
    var end := start + n * FRAME_SIZE;
    RegionKeys(start);
    forall i | 0 <= i < HEAP_MAX_PAGES
      ensures KeyAt(start, i) in KeysOf(end, pages) <==> n <= i < n + pages
    {
      if n <= i < n + pages {
        KeysFromEnd(start, n, i - n);
        KeyInRange(end, i - n, pages);
      } else {
        forall p | 0 <= p < pages ensures KeyAt(start, i) != KeyAt(end, p) {
          KeysFromEnd(start, n, p);
          RegionKeysDiffer(start, i, n + p);
        }
      }
    }
  }
}
