/**
 * What `VMM::init` maps: every entry of the memory map once in the direct map and, unless it
 * starts at address 0, once at its own address.
 */
module BootMap {
  import opened Machine
  import opened Paging
  import opened TableGrowth
  import opened PageRanges
  import opened PhysicalMemory
  import opened TableAccess

  // The highest physical address, exclusive, for which the two maps `Init` makes stay apart.
  const MEMORY_LIMIT: nat := 0x8000_0000_0000

  ghost predicate Below(mmap: MemoryMap, limit: nat) {
    forall i :: 0 <= i < |mmap| ==> mmap[i].End() <= limit
  }

  /** Frame `f` belongs to entry `d`, of whatever kind. */
  predicate Holds(d: Descriptor, f: nat) {
    d.First() <= f < d.First() + d.pages
  }

  /** Page `k` goes to frame `f`, open to writes and to instruction fetches. */
  ghost predicate Sends(m: map<nat, Entry>, k: nat, f: nat) {
    k in m && m[k].frame == f && m[k].CanWrite() && !m[k].NoExecute()
  }

  /** The direct map and, except for an entry that starts at 0, the identity map of entry `d`. */
  ghost predicate CoversOne(m: map<nat, Entry>, d: Descriptor) {
    forall f: nat :: Holds(d, f) ==> Sends(m, DirectKey(f), f) && (d.physicalStart != 0 ==> Sends(m, f, f))
  }

  ghost predicate Covers(m: map<nat, Entry>, mmap: MemoryMap, n: nat)
    requires n <= |mmap|
  {
    forall i :: 0 <= i < n ==> CoversOne(m, mmap[i])
  }

  /** One of the first `n` entries has frame `f`. */
  ghost predicate HeldBefore(mmap: MemoryMap, n: nat, f: nat)
    requires n <= |mmap|
  {
    exists i :: 0 <= i < n && Holds(mmap[i], f)
  }

  /** Nothing but those two maps of the first `n` entries. */
  ghost predicate Within(keys: set<nat>, mmap: MemoryMap, n: nat)
    requires n <= |mmap|
  {
    forall k {:trigger k in keys} :: k in keys ==> HeldBefore(mmap, n, k) || (k >= MAX_FRAMES && HeldBefore(mmap, n, k - MAX_FRAMES))
  }

  /** Keys of the pages of a low physical range, at the same virtual address and in the direct map. */
  lemma LowKeys(phys: nat, p: nat)
    requires phys % FRAME_SIZE == 0 && phys + p * FRAME_SIZE < MEMORY_LIMIT
    ensures KeyAt(phys, p) == Frame(phys) + p
    ensures KeyAt(Wrap(phys + HHDM_OFFSET), p) == DirectKey(Frame(phys) + p)
    ensures PageAt(phys, p) == Address(Frame(phys) + p)
    ensures Field(PageAt(phys, p)) == Frame(phys) + p
  {
    var at := phys + p * FRAME_SIZE;
    assert Frame(at) == Frame(phys) + p;
    assert Frame(at + HHDM_OFFSET) == Frame(phys) + p + 0xF_FFF8_0000_0000;
    assert phys + HHDM_OFFSET < TWO64;
  }

  predicate Aligned(d: Descriptor) {
    d.physicalStart % FRAME_SIZE == 0
  }

  /** The pages of the identity map of one entry are its frames. */
  lemma IdentityKeys(d: Descriptor)
    requires Aligned(d) && d.End() <= MEMORY_LIMIT
    ensures DistinctKeys(d.physicalStart, d.pages)
    ensures forall p :: 0 <= p < d.pages ==> KeyAt(d.physicalStart, p) == d.First() + p
    ensures forall k {:trigger k in KeysOf(d.physicalStart, d.pages)} :: k in KeysOf(d.physicalStart, d.pages) <==> Holds(d, k)
  {
    var at := d.physicalStart;
    forall p | 0 <= p < d.pages ensures KeyAt(at, p) == d.First() + p {
      LowKeys(at, p);
    }
    hide KeyAt;
    forall f: nat | Holds(d, f) ensures f in KeysOf(at, d.pages) {
      assert KeyAt(at, f - d.First()) == f;
    }
  }

  /** The pages of its direct map are its frames' direct-map keys. */
  lemma DirectKeys(d: Descriptor)
    requires Aligned(d) && d.End() <= MEMORY_LIMIT
    ensures DistinctKeys(DirectStart(d), d.pages)
    ensures forall p :: 0 <= p < d.pages ==> KeyAt(DirectStart(d), p) == MAX_FRAMES + d.First() + p
    ensures forall k {:trigger k in KeysOf(DirectStart(d), d.pages)} :: k in KeysOf(DirectStart(d), d.pages) <==>
              k >= MAX_FRAMES && Holds(d, k - MAX_FRAMES)
  {
    var virt := DirectStart(d);
    forall p | 0 <= p < d.pages ensures KeyAt(virt, p) == MAX_FRAMES + d.First() + p {
      LowKeys(d.physicalStart, p);
    }
    hide KeyAt, DirectStart;
    forall k | k >= MAX_FRAMES && Holds(d, k - MAX_FRAMES) ensures k in KeysOf(virt, d.pages) {
      assert KeyAt(virt, k - MAX_FRAMES - d.First()) == k;
    }
  }

  lemma TargetField(d: Descriptor, p: nat)
    requires Aligned(d) && d.End() <= MEMORY_LIMIT && p < d.pages
    ensures Field(PageAt(d.physicalStart, p)) == d.First() + p
  {
    LowKeys(d.physicalStart, p);
  }

  /** Flags that allow writes and instruction fetches. */
  predicate Open(flags: Flags) {
    flags.CanWrite() && !flags.NoExecute()
  }

  lemma EntryWritable(phys: nat, flags: Flags)
    ensures PageEntry(phys, flags).frame == Field(phys) && (PageEntry(phys, flags).CanWrite() <==> flags.CanWrite())
    ensures PageEntry(phys, flags).NoExecute() <==> flags.NoExecute()
  {}

  /** Both maps of an entry send its frame `f` to `f`. */
  lemma EntryTargets(d: Descriptor, flags: Flags, f: nat)
    requires Aligned(d) && d.End() <= MEMORY_LIMIT && Holds(d, f) && Open(flags)
    ensures Sends(PageMap(d.physicalStart, d.physicalStart, d.pages, flags), f, f)
    ensures Sends(PageMap(DirectStart(d), d.physicalStart, d.pages, flags), DirectKey(f), f)
  {
    hide KeyAt, PageAt, Field, Frame, DirectStart, PageMap, KeysOf, PageEntry, Entry.CanWrite, Entry.NoExecute,
      Flags.CanWrite, Flags.NoExecute;
    var p := f - d.First();
    EntryWritable(PageAt(d.physicalStart, p), flags);
    TargetField(d, p);
    IdentityKeys(d);
    DirectKeys(d);
    PageMapAt(d.physicalStart, d.physicalStart, d.pages, flags, p);
    PageMapAt(DirectStart(d), d.physicalStart, d.pages, flags, p);
    assert KeyAt(DirectStart(d), p) in KeysOf(DirectStart(d), d.pages);
    assert KeyAt(d.physicalStart, p) in KeysOf(d.physicalStart, d.pages);
  }

  /** The pages `map_both` maps for entry `d`. */
  ghost function EntryKeys(d: Descriptor): set<nat> {
    (if d.physicalStart == 0 then {} else KeysOf(d.physicalStart, d.pages)) + KeysOf(DirectStart(d), d.pages)
  }

  /** The pages of the first `n` entries. */
  ghost function BootKeys(mmap: MemoryMap, n: nat): set<nat>
    requires n <= |mmap|
  {
    if n == 0 then {} else BootKeys(mmap, n - 1) + EntryKeys(mmap[n - 1])
  }

  lemma {:induction false} BootKeysGrow(mmap: MemoryMap, i: nat, n: nat)
    requires i <= n <= |mmap|
    ensures BootKeys(mmap, i) <= BootKeys(mmap, n)
  {
    hide EntryKeys;
    if i < n {
      BootKeysGrow(mmap, i, n - 1);
    }
  }

  lemma EntryKeysHold(d: Descriptor)
    ensures d.physicalStart != 0 ==> KeysOf(d.physicalStart, d.pages) <= EntryKeys(d)
    ensures DirectStart(d) == Wrap(d.physicalStart + HHDM_OFFSET) && KeysOf(DirectStart(d), d.pages) <= EntryKeys(d)
  {
    hide KeysOf, Wrap;
  }

  /** Tables made for the first range of an entry, if it has one, and then for the second. */
  lemma BothGrown(d: Descriptor, t0: Tables, f0: set<nat>, t1: Tables, f1: set<nat>, t2: Tables, f2: set<nat>)
    requires if d.physicalStart == 0 then t1 == t0 && f1 == f0
             else Grown(t0, f0, t1, f1, KeysOf(d.physicalStart, d.pages))
    requires Grown(t1, f1, t2, f2, KeysOf(DirectStart(d), d.pages))
    ensures Grown(t0, f0, t2, f2, EntryKeys(d)) && f2 <= f1
  {
    hide Grown, KeysOf, DirectStart, EntryKeys;
    var keys := EntryKeys(d);
    EntryKeysHold(d);
    if d.physicalStart == 0 {
      GrownByNone(t0, f0, keys);
    } else {
      GrownWider(t0, f0, t1, f1, KeysOf(d.physicalStart, d.pages), keys);
    }
    GrownWider(t1, f1, t2, f2, KeysOf(DirectStart(d), d.pages), keys);
    GrownTwice(t0, f0, t1, f1, t2, f2, keys);
    GrownShrinksFree(t1, f1, t2, f2, keys);
  }

  lemma EntryInBoot(mmap: MemoryMap, i: nat)
    requires i < |mmap|
    ensures EntryKeys(mmap[i]) <= BootKeys(mmap, |mmap|)
  {
    hide EntryKeys;
    BootKeysGrow(mmap, i + 1, |mmap|);
  }

  /** Where the direct map of entry `d` starts. */
  function DirectStart(d: Descriptor): nat {
    Wrap(d.physicalStart + HHDM_OFFSET)
  }

  /** Entry `i` has frames below the limit that no earlier entry has. */
  lemma NextEntryApart(mmap: MemoryMap, i: nat)
    requires WellFormed(mmap) && Below(mmap, MEMORY_LIMIT) && i < |mmap|
    ensures Aligned(mmap[i]) && mmap[i].End() <= MEMORY_LIMIT
    ensures forall f: nat :: Holds(mmap[i], f) ==> f < MAX_FRAMES && !HeldBefore(mmap, i, f)
    ensures forall f: nat :: HeldBefore(mmap, i, f) ==> f < MAX_FRAMES
    ensures forall f: nat :: HeldBefore(mmap, i + 1, f) <==> HeldBefore(mmap, i, f) || Holds(mmap[i], f)
  {
    assert mmap[i].physicalStart == mmap[i].First() * FRAME_SIZE;
    forall f: nat, j | 0 <= j < i && Holds(mmap[j], f) ensures f < MAX_FRAMES && !Holds(mmap[i], f) {
      assert mmap[j].physicalStart == mmap[j].First() * FRAME_SIZE;
    }
  }

  /** The next entry's pages are free: entries do not overlap, and the two maps stay apart. */
  lemma NextEntryIsFree(m: map<nat, Entry>, mmap: MemoryMap, i: nat, flags: Flags)
    requires WellFormed(mmap) && Below(mmap, MEMORY_LIMIT) && i < |mmap| && Within(m.Keys, mmap, i)
    ensures RangeFree(m, mmap[i].physicalStart, mmap[i].pages)
    ensures RangeFree(WithIdentity(m, mmap[i], flags), DirectStart(mmap[i]), mmap[i].pages)
  {
    hide KeysOf, PageMap, WellFormed, Below, Holds, HeldBefore, DistinctKeys, DirectStart;
    var d := mmap[i];
    NextEntryApart(mmap, i);
    IdentityKeys(d);
    DirectKeys(d);
    var m1 := WithIdentity(m, d, flags);
    assert forall k :: k in m1 ==> k in m || k in KeysOf(d.physicalStart, d.pages);
  }

  /** Both maps of entry `i` are added, and nothing else. */
  lemma WithinNext(m: map<nat, Entry>, mmap: MemoryMap, i: nat, flags: Flags)
    requires WellFormed(mmap) && Below(mmap, MEMORY_LIMIT) && i < |mmap| && Within(m.Keys, mmap, i)
    ensures Within(WithEntry(m, mmap[i], flags).Keys, mmap, i + 1)
  {
    hide KeysOf, PageMap, WellFormed, Below, Holds, HeldBefore, DistinctKeys, DirectStart;
    var d := mmap[i];
    NextEntryApart(mmap, i);
    IdentityKeys(d);
    DirectKeys(d);
    assert forall k :: k in WithEntry(m, d, flags) ==>
        k in m || k in KeysOf(d.physicalStart, d.pages) || k in KeysOf(DirectStart(d), d.pages);
  }

  /** The maps of a new entry cover it, and those of the entries before stay. */
  lemma CoverNext(m: map<nat, Entry>, mmap: MemoryMap, i: nat, next: nat, flags: Flags)
    requires WellFormed(mmap) && Below(mmap, MEMORY_LIMIT) && next == i + 1 <= |mmap| && Open(flags)
    requires Within(m.Keys, mmap, i) && Covers(m, mmap, i)
    ensures Covers(WithEntry(m, mmap[i], flags), mmap, next)
  {
    hide WithEntry, WithIdentity, RangeFree, WellFormed, Below, Within, CoversOne, DirectStart, Wrap;
    var m2 := WithEntry(m, mmap[i], flags);
    NextEntryIsFree(m, mmap, i, flags);
    NextEntryApart(mmap, i);
    EntryAdds(m, mmap[i], flags);
    EntryCovered(m, mmap[i], flags);
    forall j | 0 <= j < i ensures CoversOne(m2, mmap[j]) {
      KeepsCover(m, m2, mmap[j]);
    }
  }

  /** Over free pages the maps of an entry only add. */
  lemma EntryAdds(m: map<nat, Entry>, d: Descriptor, flags: Flags)
    requires RangeFree(m, d.physicalStart, d.pages)
    requires RangeFree(WithIdentity(m, d, flags), DirectStart(d), d.pages)
    ensures forall k :: k in m ==> k in WithEntry(m, d, flags) && WithEntry(m, d, flags)[k] == m[k]
  {
    hide DirectStart, PageMap, DistinctKeys, KeysOf, KeyAt;
    RangeAdds(m, d.physicalStart, d.physicalStart, d.pages, flags);
    RangeAdds(WithIdentity(m, d, flags), DirectStart(d), d.physicalStart, d.pages, flags);
  }

  lemma RangeAdds(m: map<nat, Entry>, virt: nat, phys: nat, count: nat, flags: Flags)
    requires RangeFree(m, virt, count)
    ensures forall k :: k in m ==> k in m + PageMap(virt, phys, count, flags) && (m + PageMap(virt, phys, count, flags))[k] == m[k]
  {
    hide PageMap, KeyAt, DistinctKeys;
  }

  lemma EntryCovered(m: map<nat, Entry>, d: Descriptor, flags: Flags)
    requires Aligned(d) && d.End() <= MEMORY_LIMIT && Open(flags)
    requires forall f: nat :: Holds(d, f) ==> f < MAX_FRAMES
    ensures CoversOne(WithEntry(m, d, flags), d)
  {
    hide WithEntry, DirectStart, PageMap;
    forall f: nat | Holds(d, f)
      ensures Sends(WithEntry(m, d, flags), DirectKey(f), f) && (d.physicalStart != 0 ==> Sends(WithEntry(m, d, flags), f, f))
    {
      EntryTargets(d, flags, f);
      FrameSent(m, d, flags, f);
    }
  }

  /** The direct map's keys lie above the frames, so it hides nothing of the identity map. */
  lemma FrameSent(m: map<nat, Entry>, d: Descriptor, flags: Flags, f: nat)
    requires Aligned(d) && d.End() <= MEMORY_LIMIT && f < MAX_FRAMES
    requires Sends(PageMap(d.physicalStart, d.physicalStart, d.pages, flags), f, f)
    requires Sends(PageMap(DirectStart(d), d.physicalStart, d.pages, flags), DirectKey(f), f)
    ensures Sends(WithEntry(m, d, flags), DirectKey(f), f) && (d.physicalStart != 0 ==> Sends(WithEntry(m, d, flags), f, f))
  {
    hide DirectStart, PageMap, DistinctKeys, KeysOf, KeyAt;
    DirectKeys(d);
  }

  /** Adding free keys keeps what an entry already had. */
  lemma KeepsCover(m: map<nat, Entry>, m2: map<nat, Entry>, d: Descriptor)
    requires CoversOne(m, d)
    requires forall k :: k in m ==> k in m2 && m2[k] == m[k]
    ensures CoversOne(m2, d)
  {}

  ghost function WithIdentity(m: map<nat, Entry>, d: Descriptor, flags: Flags): map<nat, Entry> {
    if d.physicalStart == 0 then m else m + PageMap(d.physicalStart, d.physicalStart, d.pages, flags)
  }

  /** The mapping after both ranges of entry `d` were mapped. */
  ghost function WithEntry(m: map<nat, Entry>, d: Descriptor, flags: Flags): map<nat, Entry> {
    WithIdentity(m, d, flags) + PageMap(DirectStart(d), d.physicalStart, d.pages, flags)
  }

  /** A covered map has all pages of its entries mapped. */
  lemma {:induction false} CoveredKeys(m: map<nat, Entry>, mmap: MemoryMap, n: nat)
    requires WellFormed(mmap) && n <= |mmap| && Covers(m, mmap, n)
    requires forall i :: 0 <= i < |mmap| ==> mmap[i].End() <= MEMORY_LIMIT
    ensures BootKeys(mmap, n) <= m.Keys
  {
    hide EntryKeys, CoversOne;
    if n > 0 {
      CoveredKeys(m, mmap, n - 1);
      EntryCoveredKeys(m, mmap[n - 1]);
    }
  }

  lemma EntryCoveredKeys(m: map<nat, Entry>, d: Descriptor)
    requires Aligned(d) && d.End() <= MEMORY_LIMIT && CoversOne(m, d)
    ensures EntryKeys(d) <= m.Keys
  {
    hide KeysOf, KeyAt, DirectStart, DistinctKeys;
    IdentityKeys(d);
    DirectKeys(d);
    forall k | k in EntryKeys(d) ensures k in m {
      if k in KeysOf(d.physicalStart, d.pages) && d.physicalStart != 0 {
        assert Holds(d, k);
      } else {
        assert Holds(d, k - MAX_FRAMES) && DirectKey(k - MAX_FRAMES) == k;
      }
    }
  }

  lemma RunIsFree(free: set<nat>, first: nat, count: nat)
    requires LowestRun(free, first, count)
    ensures Frames(first, count) <= free
  {
    hide Frames;
  }

  /** Frames below the total, none of them 0, are all given back. */
  lemma ReturnsAll(v: View, first: nat, count: nat, free: set<nat>)
    requires v.Good() && Frames(first, count) <= v.direct
    requires free == if first + count <= v.total then v.free + (Frames(first, count) - {0}) else v.free
    ensures free == v.free + Frames(first, count)
  {
    hide Frames, Tree, Leaf;
    if count > 0 {
      assert first + count - 1 in Frames(first, count);
    } else {
      assert Frames(first, count) == {};
    }
  }

  const WRITABLE_PAGE := Flags(WRITABLE, 0)

  lemma EntryStart(mmap: MemoryMap, i: nat)
    requires WellFormed(mmap) && i < |mmap|
    ensures mmap[i].physicalStart < TWO64
  {}

  /** Later mappings only add. */
  lemma CoverKept(m: map<nat, Entry>, m2: map<nat, Entry>, mmap: MemoryMap)
    requires Covers(m, mmap, |mmap|)
    requires forall k :: k in m ==> k in m2 && m2[k] == m[k]
    ensures Covers(m2, mmap, |mmap|)
  {
    forall i | 0 <= i < |mmap| ensures CoversOne(m2, mmap[i]) {
      assert CoversOne(m, mmap[i]);
      KeepsCover(m, m2, mmap[i]);
    }
  }

  /** Every frame the map offers can be reached through the direct map. */
  lemma OfferedIsCovered(m: map<nat, Entry>, mmap: MemoryMap, f: nat)
    requires Covers(m, mmap, |mmap|) && Offered(mmap, f)
    ensures Sends(m, DirectKey(f), f)
  {
    var i :| 0 <= i < |mmap| && mmap[i].Offers(f);
    assert CoversOne(m, mmap[i]) && Holds(mmap[i], f);
  }

  /** Once the whole map is covered, the code may switch to its own tables. */
  lemma SwitchIsSafe(v: View, mmap: MemoryMap)
    requires v.Good() && Covers(v.Mapping(), mmap, |mmap|)
    requires forall f: nat :: f in v.direct ==> Offered(mmap, f)
    ensures v.(cr3 := Address(v.root), physOffset := HHDM_OFFSET).Good()
    ensures v.root != 0
  {
    hide Tree, Leaf, Covers, Offered;
    forall f | f in v.direct ensures DirectMapped(v.ram, v.root, f) {
      OfferedIsCovered(v.Mapping(), mmap, f);
    }
    RootIsFrame(v);
  }

  lemma RootIsFrame(v: View)
    requires v.Good()
    ensures v.root != 0
  {
    assert ROOT in v.tables;
  }

  /** The bitmap itself stays reachable at the physical address the allocator uses for it. */
  lemma BitmapStaysMapped(m: map<nat, Entry>, mmap: MemoryMap, total: nat, base: nat, bytes: nat, f: nat)
    requires WellFormed(mmap) && Covers(m, mmap, |mmap|) && IsBitmapBase(mmap, total, base)
    requires 8 * bytes - 8 < total && HoldsBitmap(f, base, bytes)
    ensures Sends(m, f, f)
  {
    hide Sends;
    var i :| 0 <= i < |mmap| && base == mmap[i].physicalStart && CanHoldBitmap(mmap[i], total);
    var b: nat :| InBitmap(b, bytes) && f == Frame(base + b);
    FrameInEntry(mmap[i], b);
    assert CoversOne(m, mmap[i]) && Holds(mmap[i], f);
  }

  lemma FrameInEntry(d: Descriptor, b: nat)
    requires Aligned(d) && b < d.pages * FRAME_SIZE
    ensures Holds(d, Frame(d.physicalStart + b))
  {
    assert Frame(d.physicalStart + b) == d.First() + b / FRAME_SIZE;
  }

  // ---- How high the boot mappings reach ----

  /** Only pages of the first `frames` frames are mapped, at their own address or in the direct map. */
  ghost predicate LowOnly(m: map<nat, Entry>, frames: nat) {
    forall k {:trigger k in m} :: k in m ==> k < frames || MAX_FRAMES <= k < MAX_FRAMES + frames
  }

  lemma LowKey(phys: nat, p: nat, frames: nat)
    requires phys + (p + 1) * FRAME_SIZE <= frames * FRAME_SIZE && frames <= MAX_FRAMES
    ensures KeyAt(phys, p) < frames
    ensures MAX_FRAMES <= KeyAt(Wrap(phys + HHDM_OFFSET), p) < MAX_FRAMES + frames
  {
    hide Frame, Key;
    var at := phys + p * FRAME_SIZE;
    assert at + FRAME_SIZE <= frames * FRAME_SIZE;
    FrameBelow(at, frames);
    KeysOfFrame(at);
    assert PageAt(phys, p) == at;
    assert Wrap(phys + HHDM_OFFSET) == phys + HHDM_OFFSET && PageAt(phys + HHDM_OFFSET, p) == at + HHDM_OFFSET;
  }

  lemma FrameBelow(at: nat, frames: nat)
    requires at + FRAME_SIZE <= frames * FRAME_SIZE
    ensures Frame(at) < frames
  {}

  /** An address below the limit has its frame as its key, and its direct-map address the direct key. */
  lemma KeysOfFrame(at: nat)
    requires at < MEMORY_LIMIT
    ensures Key(at) == Frame(at) && Key(at + HHDM_OFFSET) == MAX_FRAMES + Frame(at)
  {
    assert Frame(at) < MAX_FRAMES;
    assert Frame(at + HHDM_OFFSET) == Frame(at) + 0xF_FFF8_0000_0000;
  }

  lemma LowRange(phys: nat, count: nat, frames: nat)
    requires phys + count * FRAME_SIZE <= frames * FRAME_SIZE && frames <= MAX_FRAMES
    ensures forall k {:trigger k in KeysOf(phys, count)} :: k in KeysOf(phys, count) ==> k < frames
    ensures forall k {:trigger k in KeysOf(Wrap(phys + HHDM_OFFSET), count)} ::
              k in KeysOf(Wrap(phys + HHDM_OFFSET), count) ==> MAX_FRAMES <= k < MAX_FRAMES + frames
  {
    hide KeyAt, Wrap;
    forall p | 0 <= p < count ensures KeyAt(phys, p) < frames {
      LowKey(phys, p, frames);
    }
    var virt := Wrap(phys + HHDM_OFFSET);
    forall p | 0 <= p < count ensures MAX_FRAMES <= KeyAt(virt, p) && KeyAt(virt, p) < MAX_FRAMES + frames {
      LowKey(phys, p, frames);
    }
  }

  /** Both maps of a low range only add low keys. */
  lemma LowKept(m: map<nat, Entry>, m2: map<nat, Entry>, d: Descriptor, frames: nat)
    requires LowOnly(m, frames)
    requires d.End() <= frames * FRAME_SIZE && frames <= MAX_FRAMES
    requires m2.Keys <= m.Keys + KeysOf(d.physicalStart, d.pages) + KeysOf(DirectStart(d), d.pages)
    ensures LowOnly(m2, frames)
  {
    hide KeysOf, Wrap;
    LowRange(d.physicalStart, d.pages, frames);
    forall k | k in m2 ensures k < frames || MAX_FRAMES <= k < MAX_FRAMES + frames {
      assert k in m || k in KeysOf(d.physicalStart, d.pages) || k in KeysOf(Wrap(d.physicalStart + HHDM_OFFSET), d.pages);
    }
  }

  lemma FramebufferStart(base: nat, size: nat, frames: nat)
    requires base + PagesFor(size) * FRAME_SIZE <= frames * FRAME_SIZE && frames <= MAX_FRAMES
    ensures base < TWO64
  {}

  lemma EntryLow(mmap: MemoryMap, i: nat, frames: nat)
    requires Below(mmap, frames * FRAME_SIZE) && i < |mmap|
    ensures mmap[i].End() <= frames * FRAME_SIZE
  {}

  lemma BelowLimit(mmap: MemoryMap, frames: nat)
    requires Below(mmap, frames * FRAME_SIZE) && frames <= MAX_FRAMES
    ensures Below(mmap, MEMORY_LIMIT)
  {}

  // ---- The boot mapping, entry by entry ----

  /**
   * What one call of `map_both` for entry `d` does: it adds, and both ranges are mapped unless their pages
   * are taken or the frames run out.
   */
  ghost predicate BothAdded(m: map<nat, Entry>, d: Descriptor, m2: map<nat, Entry>, free2: set<nat>, both: bool) {
    && (forall k :: k in m ==> k in m2 && m2[k] == m[k])
    && m2.Keys <= m.Keys + KeysOf(d.physicalStart, d.pages) + KeysOf(DirectStart(d), d.pages)
    && (both ==> m2 == WithEntry(m, d, WRITABLE_PAGE))
    && (RangeFree(m, d.physicalStart, d.pages) && RangeFree(WithIdentity(m, d, WRITABLE_PAGE), DirectStart(d), d.pages)
        ==> free2 == {} || both)
  }

  /** After `n` entries: nothing high, and if all calls succeeded, which they do while frames are left, all is covered. */
  ghost predicate Booting(m: map<nat, Entry>, mmap: MemoryMap, n: nat, frames: nat, free: set<nat>, all: bool)
    requires n <= |mmap|
  {
    && LowOnly(m, frames)
    && (free == {} || all)
    && (all ==> Covers(m, mmap, n) && Within(m.Keys, mmap, n))
  }

  lemma BootingStart(m: map<nat, Entry>, mmap: MemoryMap, frames: nat, free: set<nat>)
    requires m == map[]
    ensures Booting(m, mmap, 0, frames, free, true)
  {}

  /** One more entry was mapped, as far as the frames allowed. */
  lemma BootingNext(m: map<nat, Entry>, mmap: MemoryMap, i: nat, next: nat, frames: nat, free: set<nat>, all: bool,
                    m2: map<nat, Entry>, free2: set<nat>, both: bool)
    requires next == i + 1 <= |mmap| && Booting(m, mmap, i, frames, free, all) && free2 <= free
    requires WellFormed(mmap) && Below(mmap, frames * FRAME_SIZE) && frames <= MAX_FRAMES
    requires BothAdded(m, mmap[i], m2, free2, both)
    ensures Booting(m2, mmap, next, frames, free2, all && both)
  {
    hide WellFormed, Below, KeysOf, RangeFree, WithIdentity, WithEntry, DirectStart, Covers, Within, LowOnly, Wrap;
    EntryLow(mmap, i, frames);
    LowKept(m, m2, mmap[i], frames);
    BelowLimit(mmap, frames);
    if all {
      NextEntryIsFree(m, mmap, i, WRITABLE_PAGE);
      WithinNext(m, mmap, i, WRITABLE_PAGE);
      CoverNext(m, mmap, i, next, WRITABLE_PAGE);
    }
  }

  lemma BootingDone(m: map<nat, Entry>, mmap: MemoryMap, frames: nat, free: set<nat>, all: bool)
    requires Booting(m, mmap, |mmap|, frames, free, all)
    ensures LowOnly(m, frames) && (free == {} || all) && (all ==> Covers(m, mmap, |mmap|))
  {}

  /** The framebuffer's pages, as one more entry of the map. */
  function Screen(base: nat, size: nat): Descriptor {
    Descriptor(0, base, PagesFor(size))
  }

  /** All pages mapped at boot. */
  ghost function StartKeys(mmap: MemoryMap, base: nat, size: nat): set<nat> {
    BootKeys(mmap, |mmap|) + EntryKeys(Screen(base, size))
  }

  /** Mapping the framebuffer keeps what the entries have. */
  lemma AfterScreen(m: map<nat, Entry>, mmap: MemoryMap, d: Descriptor, frames: nat, free: set<nat>, all: bool,
                    m2: map<nat, Entry>, free2: set<nat>, both: bool)
    requires Booting(m, mmap, |mmap|, frames, free, all) && BothAdded(m, d, m2, free2, both) && free2 <= free
    requires Below(mmap, frames * FRAME_SIZE) && d.End() <= frames * FRAME_SIZE && frames <= MAX_FRAMES
    ensures LowOnly(m2, frames) && (all ==> Covers(m2, mmap, |mmap|))
    ensures WellFormed(mmap + [d]) ==> free2 == {} || Covers(m2, mmap + [d], |mmap| + 1)
  {
    hide WellFormed, KeysOf, RangeFree, WithIdentity, WithEntry, DirectStart, Covers, Within, LowOnly, Wrap;
    LowKept(m, m2, d, frames);
    if all {
      CoverKept(m, m2, mmap);
    }
    if WellFormed(mmap + [d]) {
      ScreenMapped(m, mmap, d, frames, free, all, m2, free2, both);
    }
  }

  /** The framebuffer, mapped after all entries, is one entry more when it overlaps none of them. */
  lemma ScreenMapped(m: map<nat, Entry>, mmap: MemoryMap, d: Descriptor, frames: nat, free: set<nat>, all: bool,
                     m2: map<nat, Entry>, free2: set<nat>, both: bool)
    requires Booting(m, mmap, |mmap|, frames, free, all) && free2 <= free
    requires WellFormed(mmap + [d]) && Below(mmap + [d], frames * FRAME_SIZE) && frames <= MAX_FRAMES
    requires BothAdded(m, d, m2, free2, both)
    ensures free2 == {} || Covers(m2, mmap + [d], |mmap| + 1)
  {
    hide WellFormed, Below, CoversOne, LowOnly, BothAdded;
    var longer := mmap + [d];
    forall k ensures HeldBefore(mmap, |mmap|, k) <==> HeldBefore(longer, |mmap|, k) {
      forall i | 0 <= i < |mmap| ensures longer[i] == mmap[i] {}
    }
    hide HeldBefore;
    assert Booting(m, longer, |mmap|, frames, free, all);
    hide Booting;
    BootingNext(m, longer, |mmap|, |mmap| + 1, frames, free, all, m2, free2, both);
    BootingDone(m2, longer, frames, free2, all && both);
  }

  /** The two calls `map_both` makes, with the results it drops. */
  lemma BothCalls(m: map<nat, Entry>, d: Descriptor, m1: map<nat, Entry>, m2: map<nat, Entry>, free2: set<nat>,
                  first: bool, second: bool, free1: set<nat>)
    requires free2 <= free1
    requires d.physicalStart == 0 ==> m1 == m && first
    requires d.physicalStart != 0 && first ==>
               RangeFree(m, d.physicalStart, d.pages) && m1 == m + PageMap(d.physicalStart, d.physicalStart, d.pages, WRITABLE_PAGE)
    requires d.physicalStart != 0 && !first ==> m1 == m && (free1 == {} || !RangeFree(m, d.physicalStart, d.pages))
    requires second ==> RangeFree(m1, DirectStart(d), d.pages)
                        && m2 == m1 + PageMap(DirectStart(d), d.physicalStart, d.pages, WRITABLE_PAGE)
    requires !second ==> m2 == m1 && (free2 == {} || !RangeFree(m1, DirectStart(d), d.pages))
    ensures BothAdded(m, d, m2, free2, first && second)
  {
    hide KeysOf, KeyAt, DirectStart, PageMap, DistinctKeys;
  }
}
