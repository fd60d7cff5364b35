/** Ranges of consecutive pages: their keys, and the mapping `map_range` builds for them. */
module PageRanges {
  import opened Machine
  import opened Powers
  import opened Paging

  /** `at` advanced by `i` pages, in 64-bit arithmetic. */
  function PageAt(at: nat, i: nat): nat {
    Wrap(at + i * FRAME_SIZE)
  }

  lemma PageAtZero(at: nat)
    requires at < TWO64
    ensures PageAt(at, 0) == at
  {}

  lemma PageAtNext(at: nat, i: nat)
    ensures PageAt(at, i + 1) == Wrap(PageAt(at, i) + FRAME_SIZE)
  {
    var x := at + i * FRAME_SIZE;
    assert at + (i + 1) * FRAME_SIZE == x + FRAME_SIZE;
    var q, r := x / TWO64, x % TWO64;
    var p := (r + FRAME_SIZE) / TWO64;
    assert x + FRAME_SIZE == TWO64 * (q + p) + (r + FRAME_SIZE) % TWO64;
    ModUnique(x + FRAME_SIZE, TWO64, q + p, (r + FRAME_SIZE) % TWO64);
  }

  /** The key of the `i`-th page of a range that starts at `virt`. */
  function KeyAt(virt: nat, i: nat): (k: nat)
    ensures k < KEYS
  {
    Key(PageAt(virt, i))
  }

  ghost function KeysOf(virt: nat, count: nat): set<nat> {
    set i | 0 <= i < count :: KeyAt(virt, i)
  }

  lemma KeysOfNext(virt: nat, count: nat)
    ensures KeysOf(virt, count + 1) == KeysOf(virt, count) + {KeyAt(virt, count)}
  {
    hide KeyAt;
    forall k | k in KeysOf(virt, count + 1) ensures k in KeysOf(virt, count) + {KeyAt(virt, count)} {
      var i :| 0 <= i < count + 1 && k == KeyAt(virt, i);
    }
  }

  /** The mapping `map_range` asks for: page `i` of the range goes to frame `i` from `phys`. */
  ghost function PageMap(virt: nat, phys: nat, count: nat, flags: Flags): (m: map<nat, Entry>)
    ensures m.Keys == KeysOf(virt, count)
  {
    if count == 0 then map[]
    else
      KeysOfNext(virt, count - 1);
      PageMap(virt, phys, count - 1, flags)[KeyAt(virt, count - 1) := PageEntry(PageAt(phys, count - 1), flags)]
  }

  /** No two of the first `count` pages share a key. */
  ghost predicate DistinctKeys(virt: nat, count: nat) {
    forall i, j :: 0 <= i < j < count ==> KeyAt(virt, i) != KeyAt(virt, j)
  }

  /** With distinct keys, `PageMap` sends every page to its own frame. */
  lemma {:induction false} PageMapAt(virt: nat, phys: nat, count: nat, flags: Flags, i: nat)
    requires DistinctKeys(virt, count) && i < count
    ensures PageMap(virt, phys, count, flags)[KeyAt(virt, i)] == PageEntry(PageAt(phys, i), flags)
  {
    hide KeyAt, PageEntry, PageAt, KeysOf;
    if i < count - 1 {
      assert KeyAt(virt, i) != KeyAt(virt, count - 1);
      assert DistinctKeys(virt, count - 1);
      hide DistinctKeys;
      PageMapAt(virt, phys, count - 1, flags, i);
      KeyInRange(virt, i, count - 1);
    }
  }

  /** No page of the range is mapped, and no two share a key. */
  ghost predicate RangeFree(m: map<nat, Entry>, virt: nat, count: nat) {
    DistinctKeys(virt, count) && m.Keys !! KeysOf(virt, count)
  }

  lemma RangeStart(m: map<nat, Entry>, virt: nat, phys: nat, flags: Flags)
    ensures RangeFree(m, virt, 0) && m == m + PageMap(virt, phys, 0, flags)
  {}

  /** One more page whose key was free. */
  lemma RangeNext(m: map<nat, Entry>, virt: nat, phys: nat, count: nat, flags: Flags)
    requires RangeFree(m, virt, count)
    requires KeyAt(virt, count) !in m + PageMap(virt, phys, count, flags)
    ensures RangeFree(m, virt, count + 1)
  {
    hide KeyAt, PageEntry, PageAt;
    KeysOfNext(virt, count);
    forall i | 0 <= i < count ensures KeyAt(virt, i) != KeyAt(virt, count) {
      assert KeyAt(virt, i) in KeysOf(virt, count);
    }
  }

  lemma PageMapNext(m: map<nat, Entry>, virt: nat, phys: nat, count: nat, flags: Flags)
    ensures m + PageMap(virt, phys, count + 1, flags)
         == (m + PageMap(virt, phys, count, flags))[KeyAt(virt, count) := PageEntry(PageAt(phys, count), flags)]
  {
    hide KeyAt, PageEntry, PageAt, KeysOf;
    var p := PageMap(virt, phys, count, flags);
    assert PageMap(virt, phys, count + 1, flags) == p[KeyAt(virt, count) := PageEntry(PageAt(phys, count), flags)];
  }

  /** A key found taken part way means the range met the old mapping or itself. */
  lemma RangeTaken(m: map<nat, Entry>, virt: nat, phys: nat, i: nat, count: nat, flags: Flags)
    requires i < count && KeyAt(virt, i) in m + PageMap(virt, phys, i, flags)
    ensures !RangeFree(m, virt, count)
  {
    hide KeyAt;
    assert KeyAt(virt, i) in KeysOf(virt, count);
    if KeyAt(virt, i) !in m {
      var j :| 0 <= j < i && KeyAt(virt, i) == KeyAt(virt, j);
    }
  }

  /** Removing a range that was added over free keys gives the old mapping back. */
  lemma UndoRange(m: map<nat, Entry>, virt: nat, phys: nat, count: nat, flags: Flags)
    requires RangeFree(m, virt, count)
    ensures (m + PageMap(virt, phys, count, flags)) - KeysOf(virt, count) == m
  {}

  lemma KeyInRange(virt: nat, i: nat, count: nat)
    requires i < count
    ensures KeyAt(virt, i) in KeysOf(virt, count)
  {
    hide KeyAt;
  }

  /** One more page of a range taken out. */
  lemma RemovedNext(m: map<nat, Entry>, virt: nat, i: nat, now: map<nat, Entry>, next: map<nat, Entry>)
    requires now == m - KeysOf(virt, i) && next == now - {KeyAt(virt, i)}
    ensures next == m - KeysOf(virt, i + 1)
  {
    hide KeyAt, KeysOf;
    KeysOfNext(virt, i);
  }

  lemma RemovedNone(m: map<nat, Entry>, virt: nat)
    ensures m == m - KeysOf(virt, 0)
  {}

  /** `now` is `m` with the first `i` pages of the range added over free keys. */
  ghost predicate Added(m: map<nat, Entry>, virt: nat, phys: nat, i: nat, flags: Flags, now: map<nat, Entry>) {
    RangeFree(m, virt, i) && now == m + PageMap(virt, phys, i, flags)
  }

  lemma AddedStart(m: map<nat, Entry>, virt: nat, phys: nat, flags: Flags)
    ensures Added(m, virt, phys, 0, flags, m)
  {
    RangeStart(m, virt, phys, flags);
  }

  lemma AddedDone(m: map<nat, Entry>, virt: nat, phys: nat, i: nat, flags: Flags, now: map<nat, Entry>)
    requires Added(m, virt, phys, i, flags, now)
    ensures RangeFree(m, virt, i) && now == m + PageMap(virt, phys, i, flags)
  {}

  lemma AddedNext(m: map<nat, Entry>, virt: nat, phys: nat, i: nat, flags: Flags, now: map<nat, Entry>, next: map<nat, Entry>)
    requires Added(m, virt, phys, i, flags, now) && KeyAt(virt, i) !in now
    requires next == now[KeyAt(virt, i) := PageEntry(PageAt(phys, i), flags)]
    ensures Added(m, virt, phys, i + 1, flags, next)
  {
    hide KeyAt, PageAt, PageEntry, PageMap, RangeFree;
    RangeNext(m, virt, phys, i, flags);
    PageMapNext(m, virt, phys, i, flags);
  }

  /** Taking the pages added so far out again gives the old mapping back. */
  lemma AddedUndone(m: map<nat, Entry>, virt: nat, phys: nat, i: nat, flags: Flags, now: map<nat, Entry>)
    requires Added(m, virt, phys, i, flags, now)
    ensures now - KeysOf(virt, i) == m
  {
    hide KeyAt, PageMap, KeysOf;
    UndoRange(m, virt, phys, i, flags);
  }

  /** A key found taken part way means the range met the old mapping or itself. */
  lemma AddedBlocked(m: map<nat, Entry>, virt: nat, phys: nat, i: nat, count: nat, flags: Flags, now: map<nat, Entry>)
    requires Added(m, virt, phys, i, flags, now) && i < count && KeyAt(virt, i) in now
    ensures !RangeFree(m, virt, count)
  {
    hide KeyAt, PageMap, RangeFree;
    RangeTaken(m, virt, phys, i, count, flags);
  }
}
