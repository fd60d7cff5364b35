/**
 * Runs of the whole memory manager as its callers see them: whatever buffers are taken, resized, written
 * and given back, in whatever order, every buffer still held keeps what was last written into it, and the
 * frames of the machine stay accounted for (kernel/mm/heap.cpp over kernel/mm/vmm.cpp and kernel/mm/pmm.cpp).
 */
module HeapSessions {
  import opened Machine
  import opened Powers
  import opened Bytes
  import opened Blocks
  import opened Layout
  import opened PhysicalMemory
  import opened BootMap
  import opened Paging
  import opened TableAccess
  import opened VirtualMemory
  import opened Ownership
  import opened KernelHeap
  import opened KernelStart
  import CopySizes

  /** A buffer a caller holds: its address, the size asked for, and the bytes it knows, by offset. */
  datatype Held = Held(ptr: nat, size: nat, known: map<nat, byte>)

  datatype Request =
    | Allocate(size: nat)
    | AllocateZeroed(count: nat, size: nat)
    | Resize(n: nat, size: nat)
    | Write(n: nat, at: nat, s: seq<byte>)
    | GiveBack(n: nat)

  /** The offsets [at, at + n). */
  function Range(at: nat, n: nat): set<nat> {
    Frames(at, n)
  }

  function ZeroBytes(n: nat): map<nat, byte> {
    map k | k in Range(0, n) :: 0
  }

  /** Bytes `s` as they stand from offset `at` on. */
  function Placed(at: nat, s: seq<byte>): map<nat, byte> {
    map k | k in Range(at, |s|) :: s[k - at]
  }

  /** A caller may write inside what it asked for. */
  predicate MayWrite(held: seq<Held>, n: nat, at: nat, s: seq<byte>) {
    n < |held| && at + |s| <= held[n].size
  }

  /** A caller may resize when the new block cannot be too small for the copy. */
  predicate MayResize(held: seq<Held>, n: nat, size: nat) {
    n < |held| && CopySizes.SafeToResize(held[n].size, size, HEAP_MAX)
  }

  /** What callers hold after a request; `ptr` is the pointer an allocation returned. */
  function Next(held: seq<Held>, r: Request, ptr: nat): seq<Held> {
    match r
    case Allocate(size) => if ptr == 0 then held else held + [Held(ptr, size, map[])]
    case AllocateZeroed(count, size) =>
      if ptr == 0 then held else held + [Held(ptr, Times(count, size), ZeroBytes(Times(count, size)))]
    case Resize(n, size) =>
      if ptr != 0 && MayResize(held, n, size) then held[n := Held(ptr, size, held[n].known)] else held
    case Write(n, at, s) =>
      if MayWrite(held, n, at, s) then held[n := held[n].(known := held[n].known + Placed(at, s))] else held
    case GiveBack(n) => if n < |held| then held[..n] + held[n + 1..] else held
  }

  /** What callers hold after a run of requests with these results. */
  function Replay(requests: seq<Request>, ptrs: seq<nat>, n: nat): seq<Held>
    requires n <= |requests| && n <= |ptrs|
  {
    if n == 0 then [] else Next(Replay(requests, ptrs, n - 1), requests[n - 1], ptrs[n - 1])
  }

  // ---- Buffers in memory ----

  /** The payload of `b` has the bytes `m` knows. */
  ghost predicate Knows(mem: seq<byte>, b: Block, m: map<nat, byte>) {
    b.End() <= |mem| && forall k :: k in m ==> k < b.size && mem[b.Payload() + k] == m[k]
  }

  /** Block `i` is the one behind `x`: in use, of the size an allocation gives, and holding the bytes `x` knows. */
  ghost predicate BackedBy(mem: seq<byte>, start: nat, bs: BlockList, x: Held, i: nat) {
    && i < |bs| && !bs[i].free && x.ptr == start + bs[i].Payload()
    && Align16(x.size) <= bs[i].size < Align16(x.size) + META + MIN_SPLIT
    && (forall k :: k in x.known ==> k < x.size) && Knows(mem, bs[i], x.known)
  }

  ghost predicate Backed(mem: seq<byte>, start: nat, bs: BlockList, x: Held) {
    exists i: nat :: BackedBy(mem, start, bs, x, i)
  }

  /** Every held buffer is backed, and no two are the same. */
  ghost predicate Keeps(mem: seq<byte>, start: nat, bs: BlockList, held: seq<Held>) {
    && (forall n :: 0 <= n < |held| ==> Backed(mem, start, bs, held[n]))
    && (forall m, n :: 0 <= m < n < |held| ==> held[m].ptr != held[n].ptr)
  }

  lemma StillBacked(mem: seq<byte>, start: nat, bs: BlockList, x: Held, i: nat, mem': seq<byte>, bs': BlockList)
    requires BackedBy(mem, start, bs, x, i) && Preserved(mem, mem', bs', bs[i])
    ensures Backed(mem', start, bs', x)
  {
    var k: nat :| k < |bs'| && bs'[k] == bs[i];
    StillKnown(mem, mem', bs[i], x.known);
    assert BackedBy(mem', start, bs', x, k);
  }

  lemma StillKnown(mem: seq<byte>, mem': seq<byte>, b: Block, m: map<nat, byte>)
    requires Knows(mem, b, m) && b.End() <= |mem'| && Content(mem', b) == Content(mem, b)
    ensures Knows(mem', b, m)
  {
    forall k | k in m ensures mem'[b.Payload() + k] == m[k] {
      assert Content(mem', b)[k] == Content(mem, b)[k];
    }
  }

  lemma AllBacked(mem: seq<byte>, start: nat, bs: BlockList, held: seq<Held>, mem': seq<byte>, bs': BlockList)
    requires Keeps(mem, start, bs, held) && LivePreserved(mem, bs, mem', bs')
    ensures Keeps(mem', start, bs', held)
  {
    hide Preserved;
    forall n | 0 <= n < |held| ensures Backed(mem', start, bs', held[n]) {
      var i: nat :| BackedBy(mem, start, bs, held[n], i);
      StillBacked(mem, start, bs, held[n], i, mem', bs');
    }
  }

  /** A buffer that was not in use before joins the ones held. */
  lemma OneMore(mem: seq<byte>, start: nat, bs: BlockList, held: seq<Held>, mem': seq<byte>, bs': BlockList, x: Held, k: nat)
    requires Keeps(mem, start, bs, held) && LivePreserved(mem, bs, mem', bs')
    requires BackedBy(mem', start, bs', x, k) && forall b :: b in bs && !b.free ==> b.at != bs'[k].at
    ensures Keeps(mem', start, bs', held + [x])
  {
    hide LivePreserved, Knows;
    AllBacked(mem, start, bs, held, mem', bs');
    forall n | 0 <= n < |held| ensures held[n].ptr != x.ptr {
      var i: nat :| BackedBy(mem, start, bs, held[n], i);
      assert bs[i] in bs;
    }
  }

  /** Block `i`, which was behind buffer `n`, is gone; the other buffers are where they were. */
  lemma OthersBacked(mem: seq<byte>, start: nat, bs: BlockList, held: seq<Held>, n: nat, i: nat, m: nat,
                     mem': seq<byte>, bs': BlockList)
    requires Keeps(mem, start, bs, held) && n < |held| && BackedBy(mem, start, bs, held[n], i)
    requires forall b :: b in bs && !b.free && b != bs[i] ==> Preserved(mem, mem', bs', b)
    requires m < |held| && m != n
    ensures Backed(mem', start, bs', held[m])
  {
    hide Preserved, Knows;
    assert held[m].ptr != held[n].ptr;
    var j: nat :| BackedBy(mem, start, bs, held[m], j);
    assert bs[j] in bs && bs[j] != bs[i];
    StillBacked(mem, start, bs, held[m], j, mem', bs');
  }

  lemma OneLess(mem: seq<byte>, start: nat, bs: BlockList, held: seq<Held>, n: nat, i: nat, mem': seq<byte>, bs': BlockList)
    requires Keeps(mem, start, bs, held) && n < |held| && BackedBy(mem, start, bs, held[n], i)
    requires forall b :: b in bs && !b.free && b != bs[i] ==> Preserved(mem, mem', bs', b)
    ensures Keeps(mem', start, bs', held[..n] + held[n + 1..])
  {
    hide Preserved, Backed, BackedBy;
    var rest := held[..n] + held[n + 1..];
    forall m | 0 <= m < |rest| ensures Backed(mem', start, bs', rest[m]) {
      var o := if m < n then m else m + 1;
      assert rest[m] == held[o];
      OthersBacked(mem, start, bs, held, n, i, o, mem', bs');
    }
  }

  /** Buffer `n` moved to a block that was not in use before. */
  lemma OneMoved(mem: seq<byte>, start: nat, bs: BlockList, held: seq<Held>, n: nat, i: nat,
                 mem': seq<byte>, bs': BlockList, x: Held, k: nat)
    requires Keeps(mem, start, bs, held) && n < |held| && BackedBy(mem, start, bs, held[n], i)
    requires forall b :: b in bs && !b.free && b != bs[i] ==> Preserved(mem, mem', bs', b)
    requires BackedBy(mem', start, bs', x, k) && forall b :: b in bs && !b.free ==> b.at != bs'[k].at
    ensures Keeps(mem', start, bs', held[n := x])
  {
    hide Preserved, Knows;
    var after := held[n := x];
    assert Backed(mem', start, bs', x);
    forall m | 0 <= m < |after| ensures Backed(mem', start, bs', after[m]) {
      if m != n {
        OthersBacked(mem, start, bs, held, n, i, m, mem', bs');
      }
    }
    forall m | 0 <= m < |held| ensures held[m].ptr != x.ptr {
      var j: nat :| BackedBy(mem, start, bs, held[m], j);
      assert bs[j] in bs;
    }
  }

  /** Bytes were written at an offset in buffer `n`. */
  lemma OneWritten(mem: seq<byte>, start: nat, bs: BlockList, held: seq<Held>, n: nat, i: nat, at: nat, s: seq<byte>,
                   mem': seq<byte>)
    requires Keeps(mem, start, bs, held) && MayWrite(held, n, at, s) && BackedBy(mem, start, bs, held[n], i)
    requires bs[i].End() <= |mem| && mem' == Patch(mem, bs[i].Payload() + at, s)
    requires forall j :: 0 <= j < |bs| && j != i ==> Preserved(mem, mem', bs, bs[j])
    ensures Keeps(mem', start, bs, held[n := held[n].(known := held[n].known + Placed(at, s))])
  {
    hide Preserved, Patch, Placed, Knows;
    var x := held[n].(known := held[n].known + Placed(at, s));
    WrittenInto(mem, bs[i], held[n].known, at, s, mem');
    PlacedBelow(at, s, held[n].size);
    assert BackedBy(mem', start, bs, x, i);
    var after := held[n := x];
    forall m | 0 <= m < |after| ensures Backed(mem', start, bs, after[m]) {
      if m != n {
        assert held[m].ptr != held[n].ptr;
        var j: nat :| BackedBy(mem, start, bs, held[m], j);
        StillBacked(mem, start, bs, held[m], j, mem', bs);
      }
    }
  }

  lemma PlacedBelow(at: nat, s: seq<byte>, size: nat)
    requires at + |s| <= size
    ensures forall k :: k in Placed(at, s) ==> k < size
  {}

  lemma WrittenInto(mem: seq<byte>, b: Block, m: map<nat, byte>, at: nat, s: seq<byte>, mem': seq<byte>)
    requires Knows(mem, b, m) && at + |s| <= b.size && mem' == Patch(mem, b.Payload() + at, s)
    ensures Knows(mem', b, m + Placed(at, s))
  {
    var p := b.Payload();
    forall k | k in m + Placed(at, s) ensures k < b.size && mem'[p + k] == (m + Placed(at, s))[k] {
      assert mem'[p + k] == if at <= k < at + |s| then s[k - at] else mem[p + k];
    }
  }

  /** Bytes written inside a payload change neither a header nor another payload. */
  lemma WriteHolds(mem: seq<byte>, mem': seq<byte>, start: nat, bs: BlockList, hi: nat, i: nat, at: nat, s: seq<byte>)
    requires Layout.Holds(mem, start, bs, hi) && i < |bs| && bs[i].End() <= |mem| && at + |s| <= bs[i].size
    requires mem' == Patch(mem, bs[i].Payload() + at, s)
    ensures Layout.Holds(mem', start, bs, hi)
    ensures forall j :: 0 <= j < |bs| && j != i ==> Preserved(mem, mem', bs, bs[j])
  {
    PayloadHolds(mem, mem', start, bs, hi, i);
  }

  /** What a fresh buffer knows of its bytes. */
  lemma ZerosKnown(mem: seq<byte>, b: Block, n: nat)
    requires Begins(mem, b, Zeros(n))
    ensures Knows(mem, b, ZeroBytes(n))
  {
    forall k | k in ZeroBytes(n) ensures k < b.size && mem[b.Payload() + k] == 0 {
      assert Zeros(n)[k] == Content(mem, b)[k];
    }
  }

  /** A block that begins with another one's content knows what was known of that one. */
  lemma CopyKnown(mem: seq<byte>, b: Block, mem': seq<byte>, b': Block, m: map<nat, byte>)
    requires Knows(mem, b, m) && b.End() <= |mem| && Begins(mem', b', Content(mem, b))
    ensures Knows(mem', b', m)
  {
    forall k | k in m ensures k < b'.size && mem'[b'.Payload() + k] == m[k] {
      assert Content(mem, b)[k] == Content(mem', b')[k];
    }
  }

  // ---- What an allocation gives ----

  /** The list after an allocation is sound and aligned, and the new block is of the size asked for, or little more. */
  lemma AllocatedFacts(bs: BlockList, len: nat, want: nat, bs1: BlockList, len1: nat, b: Block)
    requires Sound(Shape(bs, len)) && WordAligned(bs) && len % 8 == 0 && want % 16 == 0
    requires KernelHeap.Allocated(Shape(bs, len), want, Shape(bs1, len1), b.Payload()) && b in bs1
    ensures Sound(Shape(bs1, len1)) && WordAligned(bs1) && len1 % 8 == 0
    ensures want <= b.size < want + META + MIN_SPLIT && b.size % 8 == 0
  {
    hide After, Enabled, Sound, WordAligned, NoFit, FirstFit, Space;
    var h, h1 := Shape(bs, len), Shape(bs1, len1);
    var c := AllocationCall(h, want, h1, b.Payload());
    StepSound(h, c);
    StepAligned(h, c);
    CopySizes.NewBlockSize(h, c);
    SamePlaceSame(h1, CopySizes.NewBlock(h, c), b);
    CopySizes.InWordsOf(bs1, b);
  }

  /** The abstract call an allocation makes. */
  lemma AllocationCall(h: Shape, want: nat, h1: Shape, payload: nat) returns (c: Call)
    requires KernelHeap.Allocated(h, want, h1, payload) && want % 16 == 0
    ensures Enabled(h, c) && CopySizes.Allocates(c) && c.want == want && Rounded(c) && h1 == After(h, c)
    ensures CopySizes.NewBlock(h, c).Payload() == payload
  {
    hide Take, NoFit, Space;
    if NoFit(h.list, want) {
      c := GrowAndAllocate(Space(want + META), want);
      SpaceInWords(want + META);
      GrownLast(h.list, h.end, c.bytes);
      TakenBlock(Grow(h.list, h.end, c.bytes), |h.list|, want);
      LastStarts(h.list, h.end, c.bytes);
    } else {
      var i: nat :| FirstFit(h.list, i, want) && h1 == After(h, Call.Allocate(i, want)) && payload == h.list[i].Payload();
      c := Call.Allocate(i, want);
      TakenBlock(h.list, i, want);
    }
  }

  lemma SpaceInWords(bytes: nat)
    requires bytes > 0
    ensures Space(bytes) % 8 == 0
  {
    hide PagesFor;
    PagesInWords(PagesFor(bytes));
  }

  lemma LastStarts(bs: BlockList, end: nat, bytes: nat)
    requires bytes >= META
    ensures |Grow(bs, end, bytes)| == |bs| + 1 && Grow(bs, end, bytes)[|bs|].at == end
  {}

  lemma SamePlaceSame(h: Shape, a: Block, b: Block)
    requires Sound(h) && a in h.list && b in h.list && a.at == b.at
    ensures a == b
  {
    var i :| 0 <= i < |h.list| && h.list[i] == a;
    var j :| 0 <= j < |h.list| && h.list[j] == b;
    if i < j {
      TiledOrder(h.list, 0, h.end, i, j);
    } else if j < i {
      TiledOrder(h.list, 0, h.end, j, i);
    }
  }

  /** When a caller may resize, the new block takes the whole old one. */
  lemma NewBlockSuffices(s: nat, n: nat, bs: BlockList, len: nat, a: Block, b: Block)
    requires Sound(Shape(bs, len)) && WordAligned(bs) && len <= HEAP_MAX && a in bs && b in bs && a.at != b.at
    requires Align16(s) <= a.size < Align16(s) + META + MIN_SPLIT && Align16(n) <= b.size
    requires CopySizes.SafeToResize(s, n, HEAP_MAX)
    ensures b.size >= a.size && n >= s
  {
    hide Align16, CopySizes.SafeToResize, WordAligned;
    CopySizes.BothFit(bs, len, a, b);
    LargerRequest(s, n, HEAP_MAX);
    CopySizes.InWordsOf(bs, a);
    if a.size > b.size {
      CopySizes.NotSafe(s, n, HEAP_MAX, a.size, b.size);
    }
  }

  lemma LargerRequest(s: nat, n: nat, limit: nat)
    requires CopySizes.SafeToResize(s, n, limit) && Align16(s) + Align16(n) + 2 * META <= limit
    ensures n >= s
  {}

  // ---- The memory manager over a run ----

  /** The heap's shape, where the page tables are, and the free frames, at one moment. */
  datatype Snapshot = Snapshot(shape: Shape, tables: Tables, free: set<nat>)

  ghost function Look(h: Heap): Snapshot
    reads h`list, h.mem, h.vmm`tables, h.vmm.pmm`free
  {
    Snapshot(Shape(h.list, |h.mem.bytes|), h.vmm.tables, h.vmm.pmm.free)
  }

  /** Room for `size` bytes is refused exactly when it has to be; tables are made only for pages a growth maps. */
  ghost predicate Decided(before: Snapshot, after: Snapshot, start: nat, size: nat, ptr: nat) {
    && (ptr == 0 <==> Refused(before.shape, before.tables, before.free, start, size))
    && (ptr == 0 ==> after.shape == before.shape)
    && (ptr != 0 ==> ptr >= start)
    && TablesFor(before.tables, after.tables, GrowthKeys(before.shape, start, size))
  }

  /** An allocation of `size` bytes: refused, or the block that first fit gives. */
  ghost predicate Given(before: Snapshot, after: Snapshot, start: nat, size: nat, ptr: nat) {
    && Decided(before, after, start, size, ptr)
    && (ptr != 0 ==> KernelHeap.Allocated(before.shape, Align16(size), after.shape, ptr - start))
  }

  /** The block behind `was` was freed after the one behind `ptr` was allocated. */
  ghost predicate Moved(before: Snapshot, after: Snapshot, start: nat, size: nat, was: nat, ptr: nat) {
    ptr >= start
    && exists mid: BlockList, o: nat ::
         && KernelHeap.Allocated(before.shape, Align16(size), Shape(mid, after.shape.end), ptr - start)
         && o < |mid| && !mid[o].free && start + mid[o].Payload() == was && after.shape.list == Release(mid, o)
  }

  /** The block behind `was` was freed, and nothing else changed. */
  ghost predicate Freed(before: Snapshot, after: Snapshot, start: nat, was: nat) {
    && after.shape.end == before.shape.end && after.tables == before.tables && after.free == before.free
    && exists i: nat :: i < |before.shape.list| && !before.shape.list[i].free
                        && start + before.shape.list[i].Payload() == was && after.shape.list == Release(before.shape.list, i)
  }

  /** How a request is answered. */
  ghost predicate Answered(before: Snapshot, after: Snapshot, start: nat, held: seq<Held>, r: Request, ptr: nat) {
    match r
    case Allocate(size) => Given(before, after, start, size, ptr)
    case AllocateZeroed(count, size) => Given(before, after, start, Times(count, size), ptr)
    case Resize(n, size) =>
      if MayResize(held, n, size) then
        Decided(before, after, start, size, ptr) && (ptr != 0 ==> Moved(before, after, start, size, held[n].ptr, ptr))
      else ptr == 0 && after == before
    case Write(_, _, _) => after == before
    case GiveBack(n) => if n < |held| then Freed(before, after, start, held[n].ptr) else after == before
  }

  // ---- What is in use is what is held ----

  /** Every block in use is behind a held buffer. */
  ghost predicate OnlyHeld(bs: BlockList, start: nat, held: seq<Held>) {
    forall b :: b in bs && !b.free ==> Holder(start + b.Payload(), held)
  }

  ghost predicate Holder(ptr: nat, held: seq<Held>) {
    exists n :: 0 <= n < |held| && held[n].ptr == ptr
  }

  lemma InUseAfterTake(bs: BlockList, i: nat, want: nat, b: Block)
    requires i < |bs| && bs[i].Fits(want) && b in Take(bs, i, want) && !b.free
    ensures (b in bs && !b.free) || b == Take(bs, i, want)[i]
  {
    hide Take, InUse;
    TakeInUse(bs, i, want);
    InUseMember(Take(bs, i, want), b);
    InUseMember(bs[..i], b);
    InUseMember(bs[i + 1..], b);
  }

  /** An allocation brings only its own block into use. */
  lemma InUseAfterAllocation(h: Shape, want: nat, h1: Shape, payload: nat, b: Block)
    requires KernelHeap.Allocated(h, want, h1, payload) && b in h1.list && !b.free
    ensures (b in h.list && !b.free) || b.Payload() == payload
  {
    hide Take, NoFit;
    if NoFit(h.list, want) {
      var g := Grow(h.list, h.end, Space(want + META));
      GrownLast(h.list, h.end, Space(want + META));
      LastStarts(h.list, h.end, Space(want + META));
      InUseAfterTake(g, |h.list|, want, b);
      TakenBlock(g, |h.list|, want);
      assert b in g && !b.free ==> b in h.list;
    } else {
      var i: nat :| FirstFit(h.list, i, want) && h1 == After(h, Call.Allocate(i, want)) && payload == h.list[i].Payload();
      InUseAfterTake(h.list, i, want, b);
      TakenBlock(h.list, i, want);
    }
  }

  /** Freeing takes its own block out of use and brings none into it. */
  lemma InUseAfterRelease(bs: BlockList, hi: nat, i: nat, b: Block)
    requires Tiled(bs, 0, hi) && i < |bs| && !bs[i].free && b in Release(bs, i) && !b.free
    ensures b in bs && !b.free && b.at != bs[i].at
  {
    hide Release, InUse;
    ReleaseInUse(bs, i);
    InUseMember(Release(bs, i), b);
    InUseMember(bs[..i], b);
    InUseMember(bs[i + 1..], b);
    if b in bs[..i] {
      var j :| 0 <= j < i && bs[j] == b;
      OrderedApart(bs, hi, j, i);
    } else {
      var j :| i < j < |bs| && bs[j] == b;
      OrderedApart(bs, hi, j, i);
    }
  }

  lemma HolderStays(ptr: nat, held: seq<Held>, x: Held)
    requires Holder(ptr, held) || ptr == x.ptr
    ensures Holder(ptr, held + [x])
  {
    if Holder(ptr, held) {
      var n :| 0 <= n < |held| && held[n].ptr == ptr;
      assert (held + [x])[n].ptr == ptr;
    } else {
      assert (held + [x])[|held|].ptr == ptr;
    }
  }

  lemma HolderLeft(ptr: nat, held: seq<Held>, n: nat)
    requires Holder(ptr, held) && n < |held| && ptr != held[n].ptr
    ensures Holder(ptr, held[..n] + held[n + 1..])
  {
    var m :| 0 <= m < |held| && held[m].ptr == ptr;
    assert (held[..n] + held[n + 1..])[if m < n then m else m - 1].ptr == ptr;
  }

  lemma HolderMoves(ptr: nat, held: seq<Held>, n: nat, x: Held)
    requires n < |held| && ((Holder(ptr, held) && ptr != held[n].ptr) || ptr == x.ptr)
    ensures Holder(ptr, held[n := x])
  {
    if ptr == x.ptr {
      assert held[n := x][n].ptr == ptr;
    } else {
      var m :| 0 <= m < |held| && held[m].ptr == ptr;
      assert held[n := x][m].ptr == ptr;
    }
  }

  lemma GivenOnlyHeld(before: Snapshot, after: Snapshot, start: nat, held: seq<Held>, size: nat, ptr: nat, x: Held)
    requires Given(before, after, start, size, ptr) && OnlyHeld(before.shape.list, start, held) && x.ptr == ptr
    ensures OnlyHeld(after.shape.list, start, if ptr == 0 then held else held + [x])
  {
    hide KernelHeap.Allocated, Refused, Holder, TablesFor, GrowthKeys;
    if ptr != 0 {
      forall b | b in after.shape.list && !b.free ensures Holder(start + b.Payload(), held + [x]) {
        InUseAfterAllocation(before.shape, Align16(size), after.shape, ptr - start, b);
        HolderStays(start + b.Payload(), held, x);
      }
    }
  }

  lemma MovedOnlyHeld(before: Snapshot, after: Snapshot, start: nat, held: seq<Held>, n: nat, size: nat, ptr: nat, x: Held)
    requires n < |held| && Moved(before, after, start, size, held[n].ptr, ptr) && OnlyHeld(before.shape.list, start, held)
    requires x.ptr == ptr && Sound(before.shape) && WordAligned(before.shape.list) && before.shape.end % 8 == 0
    ensures OnlyHeld(after.shape.list, start, held[n := x])
  {
    hide KernelHeap.Allocated, Holder, Release, Sound, WordAligned, Align16;
    var want, was := Align16(size), held[n].ptr;
    var mid: BlockList, o: nat :| KernelHeap.Allocated(before.shape, want, Shape(mid, after.shape.end), ptr - start)
                       && o < |mid| && !mid[o].free && start + mid[o].Payload() == was && after.shape.list == Release(mid, o);
    AllocatedSound(before.shape, want, Shape(mid, after.shape.end), ptr - start);
    SoundIsTiled(Shape(mid, after.shape.end));
    forall b | b in after.shape.list && !b.free ensures Holder(start + b.Payload(), held[n := x]) {
      InUseAfterRelease(mid, after.shape.end, o, b);
      InUseAfterAllocation(before.shape, want, Shape(mid, after.shape.end), ptr - start, b);
      HolderMoves(start + b.Payload(), held, n, x);
    }
  }

  lemma AllocatedSound(h: Shape, want: nat, h1: Shape, payload: nat)
    requires KernelHeap.Allocated(h, want, h1, payload) && want % 16 == 0 && Sound(h)
    ensures Sound(h1)
  {
    hide KernelHeap.Allocated, Sound, After, Enabled;
    var c := AllocationCall(h, want, h1, payload);
    StepSound(h, c);
  }

  lemma SoundIsTiled(h: Shape)
    requires Sound(h)
    ensures Tiled(h.list, 0, h.end)
  {}

  lemma FreedOnlyHeld(before: Snapshot, after: Snapshot, start: nat, held: seq<Held>, n: nat)
    requires n < |held| && Freed(before, after, start, held[n].ptr) && OnlyHeld(before.shape.list, start, held)
    requires Sound(before.shape)
    ensures OnlyHeld(after.shape.list, start, held[..n] + held[n + 1..])
  {
    hide Holder, Release, Sound;
    var bs := before.shape.list;
    var i: nat :| i < |bs| && !bs[i].free && start + bs[i].Payload() == held[n].ptr && after.shape.list == Release(bs, i);
    SoundIsTiled(before.shape);
    forall b | b in after.shape.list && !b.free ensures Holder(start + b.Payload(), held[..n] + held[n + 1..]) {
      InUseAfterRelease(bs, before.shape.end, i, b);
      HolderLeft(start + b.Payload(), held, n);
    }
  }

  /** If everything in use was held before a request, it is after it. */
  lemma AnsweredOnlyHeld(before: Snapshot, after: Snapshot, start: nat, held: seq<Held>, r: Request, ptr: nat)
    requires Answered(before, after, start, held, r, ptr) && OnlyHeld(before.shape.list, start, held)
    requires Sound(before.shape) && WordAligned(before.shape.list) && before.shape.end % 8 == 0
    ensures OnlyHeld(after.shape.list, start, Next(held, r, ptr))
  {
    hide Given, Moved, Freed, Sound, WordAligned, MayResize, Refused, TablesFor, GrowthKeys, Holder;
    match r
    case Allocate(size) => GivenOnlyHeld(before, after, start, held, size, ptr, Held(ptr, size, map[]));
    case AllocateZeroed(count, size) =>
      var n := Times(count, size);
      GivenOnlyHeld(before, after, start, held, n, ptr, Held(ptr, n, ZeroBytes(n)));
    case Resize(n, size) =>
      if MayResize(held, n, size) && ptr != 0 {
        ResizeIndex(held, n, size);
        MovedOnlyHeld(before, after, start, held, n, size, ptr, Held(ptr, size, held[n].known));
      }
    case Write(n, at, s) =>
      if MayWrite(held, n, at, s) {
        SameHolders(held, n, held[n].(known := held[n].known + Placed(at, s)));
      }
    case GiveBack(n) =>
      if n < |held| {
        FreedOnlyHeld(before, after, start, held, n);
      }
  }

  lemma ResizeIndex(held: seq<Held>, n: nat, size: nat)
    requires MayResize(held, n, size)
    ensures n < |held|
  {}

  lemma SameHolders(held: seq<Held>, n: nat, x: Held)
    requires n < |held| && x.ptr == held[n].ptr
    ensures forall ptr :: Holder(ptr, held) ==> Holder(ptr, held[n := x])
  {
    forall ptr | Holder(ptr, held) ensures Holder(ptr, held[n := x]) {
      var m :| 0 <= m < |held| && held[m].ptr == ptr;
      assert held[n := x][m].ptr == ptr;
    }
  }

  /** One free block, as large as the heap. */
  ghost predicate OneFree(h: Shape) {
    h.end >= META && h.list == [Block(0, h.end - META, true)]
  }

  /** Once nothing is held, the heap is one free block. */
  lemma AllGivenBack(h: Shape, start: nat)
    requires Sound(h) && OnlyHeld(h.list, start, [])
    ensures OneFree(h)
  {
    forall i | 0 <= i < |h.list| ensures h.list[i].free {
      assert h.list[i] in h.list && !Holder(start + h.list[i].Payload(), []);
    }
    if |h.list| > 1 {
      TwoFreeNeighbours(h.list);
    }
  }

  // ---- One request, and runs of them ----

  /** What one request leaves: the system runs on, and the buffers are as `Next` says. */
  method Perform(h: Heap, ghost mmap: MemoryMap, held: seq<Held>, r: Request) returns (ptr: nat)
    requires Running(h, mmap) && Keeps(h.mem.bytes, h.start, h.list, held)
    modifies h`end, h`list, h`backing, h.mem, h.vmm`ram, h.vmm`tables, h.vmm.pmm`freeFrames, h.vmm.pmm`free, h.vmm.pmm.bitmap
    ensures Running(h, mmap) && Keeps(h.mem.bytes, h.start, h.list, Next(held, r, ptr))
    ensures Answered(old(Look(h)), Look(h), h.start, held, r, ptr)
  {
    hide Running, Keeps, Given, Decided, Moved, Freed, Refused, MayResize, MayWrite;
    match r
    case Allocate(size) => ptr := TakeBuffer(h, mmap, held, size);
    case AllocateZeroed(count, size) => ptr := TakeZeroed(h, mmap, held, count, size);
    case Resize(n, size) =>
      ptr := 0;
      if MayResize(held, n, size) {
        ptr := Move(h, mmap, held, n, size);
      }
    case Write(n, at, s) =>
      ptr := 0;
      if MayWrite(held, n, at, s) {
        Fill(h, mmap, held, n, at, s);
      }
    case GiveBack(n) =>
      ptr := 0;
      if n < |held| {
        Drop(h, mmap, held, n);
      }
  }

  /** Mappings `m` and tables `t` were only added to: what they gave a running system is still there. */
  lemma StillRuns(h: Heap, mmap: MemoryMap, t: Tables, m: map<nat, Entry>)
    requires h.Valid() && WordAligned(h.list)
    requires h.vmm.cr3 != 0 && h.vmm.physOffset == HHDM_OFFSET && PoolOf(h.pool, mmap, h.vmm.pmm)
    requires Covers(m, mmap, |mmap|) && BitmapReachable(m, h.vmm.pmm.bitmapBase, h.vmm.pmm.bitmap.Length)
    requires Kept(t, m, h.vmm.tables, h.vmm.Mapping())
    ensures Running(h, mmap)
  {
    hide Kept, Covers, BitmapReachable, Paging.Mapping, PoolOf, Heap.Valid, WordAligned;
    StillReachable(t, m, h.vmm.tables, h.vmm.Mapping(), mmap, h.vmm.pmm.bitmapBase, h.vmm.pmm.bitmap.Length);
  }

  /** What a running heap's list is like. */
  lemma RunningList(h: Heap, mmap: MemoryMap)
    requires Running(h, mmap)
    ensures Sound(Shape(h.list, |h.mem.bytes|)) && WordAligned(h.list) && |h.mem.bytes| % 8 == 0
    ensures |h.mem.bytes| <= HEAP_MAX
  {
    hide WordAligned, Heap.Owns, PoolOf, Covers, BitmapReachable;
    PagesInWords(|h.backing|);
  }

  lemma PagesInWords(n: nat)
    ensures n * FRAME_SIZE % 8 == 0
  {
    assert n * FRAME_SIZE == 8 * (n * 512);
    MultipleOf(8, n * 512);
  }

  method TakeBuffer(h: Heap, ghost mmap: MemoryMap, held: seq<Held>, size: nat) returns (ptr: nat)
    requires Running(h, mmap) && Keeps(h.mem.bytes, h.start, h.list, held)
    modifies h`end, h`list, h`backing, h.mem, h.vmm`ram, h.vmm`tables, h.vmm.pmm`freeFrames, h.vmm.pmm`free, h.vmm.pmm.bitmap
    ensures Running(h, mmap)
    ensures Keeps(h.mem.bytes, h.start, h.list, Next(held, Request.Allocate(size), ptr))
    ensures Given(old(Look(h)), Look(h), h.start, size, ptr)
  {
    hide Covers, BitmapReachable, PoolOf, Vmm.Mapping, Keeps, KernelHeap.Allocated, Kept, Heap.Owns, Layout.Holds, LivePreserved,
      Canonical, GoodRegion, Align16, Refused, WordAligned, Sound, TablesFor, GrowthKeys;
    RunningList(h, mmap);
    ghost var m0, bs, t, m := h.mem.bytes, h.list, h.vmm.tables, h.vmm.Mapping();
    ptr := h.Alloc(size);
    AllBacked(m0, h.start, bs, held, h.mem.bytes, h.list);
    if ptr != 0 {
      ghost var k := KernelHeap.NewBlock(m0, h.start, bs, Align16(size), h.list, h.mem.bytes, ptr - h.start);
      AllocatedFacts(bs, |m0|, Align16(size), h.list, |h.mem.bytes|, h.list[k]);
      h.BlockRead(k);
      assert Knows(h.mem.bytes, h.list[k], map[]);
      OneMore(m0, h.start, bs, held, h.mem.bytes, h.list, Held(ptr, size, map[]), k);
    }
    StillRuns(h, mmap, t, m);
  }

  method TakeZeroed(h: Heap, ghost mmap: MemoryMap, held: seq<Held>, count: nat, size: nat) returns (ptr: nat)
    requires Running(h, mmap) && Keeps(h.mem.bytes, h.start, h.list, held)
    modifies h`end, h`list, h`backing, h.mem, h.vmm`ram, h.vmm`tables, h.vmm.pmm`freeFrames, h.vmm.pmm`free, h.vmm.pmm.bitmap
    ensures Running(h, mmap)
    ensures Keeps(h.mem.bytes, h.start, h.list, Next(held, AllocateZeroed(count, size), ptr))
    ensures Given(old(Look(h)), Look(h), h.start, Times(count, size), ptr)
  {
    hide Covers, BitmapReachable, PoolOf, Vmm.Mapping, Keeps, KernelHeap.Allocated, Kept, Heap.Owns, Layout.Holds, LivePreserved,
      Canonical, GoodRegion, Align16, Refused, WordAligned, Sound, Begins, Times, Zeros, ZeroBytes, Knows, TablesFor, GrowthKeys;
    RunningList(h, mmap);
    ghost var m0, bs, t, m := h.mem.bytes, h.list, h.vmm.tables, h.vmm.Mapping();
    ghost var i;
    ptr, i := h.Calloc(count, size);
    AllBacked(m0, h.start, bs, held, h.mem.bytes, h.list);
    if ptr != 0 {
      ghost var bytes := Times(count, size);
      NewIsFresh(m0, h.start, bs, Align16(bytes), h.list, h.mem.bytes, i);
      AllocatedFacts(bs, |m0|, Align16(bytes), h.list, |h.mem.bytes|, h.list[i]);
      h.BlockRead(i);
      ZerosKnown(h.mem.bytes, h.list[i], bytes);
      ZerosBelow(bytes);
      OneMore(m0, h.start, bs, held, h.mem.bytes, h.list, Held(ptr, bytes, ZeroBytes(bytes)), i);
    }
    StillRuns(h, mmap, t, m);
  }

  lemma ZerosBelow(n: nat)
    ensures forall k :: k in ZeroBytes(n) ==> k < n
  {}

  /** The block an allocation returned was not in use before. */
  lemma NewIsFresh(m0: seq<byte>, start: nat, bs: BlockList, want: nat, bs1: BlockList, m1: seq<byte>, i: nat)
    requires Layout.Holds(m0, start, bs, |m0|) && Layout.Holds(m1, start, bs1, |m1|) && i < |bs1|
    requires KernelHeap.Allocated(Shape(bs, |m0|), want, Shape(bs1, |m1|), bs1[i].Payload())
    ensures forall b :: b in bs && !b.free ==> b.at != bs1[i].at
  {
    hide KernelHeap.Allocated, Layout.Holds;
    var k := KernelHeap.NewBlock(m0, start, bs, want, bs1, m1, bs1[i].Payload());
  }

  /** A caller resizes a buffer it holds. */
  method Move(h: Heap, ghost mmap: MemoryMap, held: seq<Held>, n: nat, size: nat) returns (ptr: nat)
    requires Running(h, mmap) && Keeps(h.mem.bytes, h.start, h.list, held) && MayResize(held, n, size)
    modifies h`end, h`list, h`backing, h.mem, h.vmm`ram, h.vmm`tables, h.vmm.pmm`freeFrames, h.vmm.pmm`free, h.vmm.pmm.bitmap
    ensures Running(h, mmap)
    ensures Keeps(h.mem.bytes, h.start, h.list, Next(held, Resize(n, size), ptr))
    ensures Decided(old(Look(h)), Look(h), h.start, size, ptr)
    ensures ptr != 0 ==> Moved(old(Look(h)), Look(h), h.start, size, held[n].ptr, ptr)
  {
    hide Covers, BitmapReachable, PoolOf, Vmm.Mapping, Keeps, KernelHeap.Allocated, Kept, Heap.Owns, Layout.Holds, LivePreserved,
      Canonical, GoodRegion, Align16, Refused, WordAligned, Sound, Begins, Content, Knows, Preserved, Release,
      CopySizes.SafeToResize, TablesFor, GrowthKeys, Moved;
    RunningList(h, mmap);
    ghost var m0, bs, t, m := h.mem.bytes, h.list, h.vmm.tables, h.vmm.Mapping();
    ghost var i := BlockOf(m0, h.start, bs, held, n);
    h.BlockRead(i);
    var within;
    ghost var k, mid, o;
    ptr, within, k, mid, o := h.Realloc(held[n].ptr, size, i);
    if ptr != 0 {
      AllocatedFacts(bs, |m0|, Align16(size), mid, |h.mem.bytes|, h.list[k]);
      NewBlockSuffices(held[n].size, size, mid, |h.mem.bytes|, mid[o], h.list[k]);
      AllocatedFresh(bs, |m0|, Align16(size), Shape(mid, |h.mem.bytes|), h.list[k]);
      ReleaseAligned(mid, o);
      CopyKnown(m0, bs[i], h.mem.bytes, h.list[k], held[n].known);
      OneMoved(m0, h.start, bs, held, n, i, h.mem.bytes, h.list, Held(ptr, size, held[n].known), k);
      MovedBy(old(Look(h)), Look(h), h.start, size, held[n].ptr, ptr, mid, o);
    }
    StillRuns(h, mmap, t, m);
  }

  lemma MovedBy(before: Snapshot, after: Snapshot, start: nat, size: nat, was: nat, ptr: nat, mid: BlockList, o: nat)
    requires ptr >= start && KernelHeap.Allocated(before.shape, Align16(size), Shape(mid, after.shape.end), ptr - start)
    requires o < |mid| && !mid[o].free && start + mid[o].Payload() == was && after.shape.list == Release(mid, o)
    ensures Moved(before, after, start, size, was, ptr)
  {
    hide KernelHeap.Allocated, Release, Align16;
  }

  lemma ReleaseAligned(bs: BlockList, o: nat)
    requires WordAligned(bs) && o < |bs|
    ensures WordAligned(Release(bs, o))
  {
    hide WordAligned, Coalesce;
    FreedAligned(bs, o);
    CoalesceAligned(bs[o := bs[o].(free := true)]);
  }

  /** The block an allocation takes lies where no block in use was. */
  lemma AllocatedFresh(bs: BlockList, len: nat, want: nat, h1: Shape, b: Block)
    requires Sound(Shape(bs, len)) && KernelHeap.Allocated(Shape(bs, len), want, h1, b.Payload())
    ensures forall x :: x in bs && !x.free ==> x.at != b.at
  {
    hide After, Enabled, NoFit, Canonical;
    forall x | x in bs && !x.free ensures x.at != b.at {
      var j: nat :| j < |bs| && bs[j] == x;
      TiledBounds(bs, 0, len, j);
      if !NoFit(bs, want) {
        var i: nat :| FirstFit(bs, i, want) && b.Payload() == bs[i].Payload();
        if j != i {
          OrderedApart(bs, len, i, j);
        }
      }
    }
  }

  lemma OrderedApart(bs: BlockList, hi: nat, i: nat, j: nat)
    requires Tiled(bs, 0, hi) && i < |bs| && j < |bs| && i != j
    ensures bs[i].at != bs[j].at
  {
    if i < j {
      TiledOrder(bs, 0, hi, i, j);
    } else {
      TiledOrder(bs, 0, hi, j, i);
    }
  }

  /** A caller writes into a buffer it holds. */
  method Fill(h: Heap, ghost mmap: MemoryMap, held: seq<Held>, n: nat, at: nat, s: seq<byte>)
    requires Running(h, mmap) && Keeps(h.mem.bytes, h.start, h.list, held) && MayWrite(held, n, at, s)
    modifies h.mem
    ensures Running(h, mmap) && Look(h) == old(Look(h))
    ensures Keeps(h.mem.bytes, h.start, h.list, held[n := held[n].(known := held[n].known + Placed(at, s))])
  {
    hide Keeps, Layout.Holds, Canonical, GoodRegion, Heap.Owns, Knows, Covers, BitmapReachable, PoolOf, Patch, Preserved,
      WordAligned, Placed, Align16;
    ghost var m0 := h.mem.bytes;
    ghost var i := BlockOf(m0, h.start, h.list, held, n);
    h.BlockRead(i);
    AlignedAbove(held[n].size);
    h.mem.CopyIn(held[n].ptr - h.start + at, s);
    WriteHolds(m0, h.mem.bytes, h.start, h.list, |m0|, i, at, s);
    OneWritten(m0, h.start, h.list, held, n, i, at, s, h.mem.bytes);
  }

  lemma BlockOf(mem: seq<byte>, start: nat, bs: BlockList, held: seq<Held>, n: nat) returns (i: nat)
    requires Keeps(mem, start, bs, held) && n < |held|
    ensures BackedBy(mem, start, bs, held[n], i)
  {
    assert Backed(mem, start, bs, held[n]);
    i :| BackedBy(mem, start, bs, held[n], i);
  }

  /** A caller gives a buffer back. */
  method Drop(h: Heap, ghost mmap: MemoryMap, held: seq<Held>, n: nat)
    requires Running(h, mmap) && Keeps(h.mem.bytes, h.start, h.list, held) && n < |held|
    modifies h`list, h.mem
    ensures Running(h, mmap) && Freed(old(Look(h)), Look(h), h.start, held[n].ptr)
    ensures Keeps(h.mem.bytes, h.start, h.list, held[..n] + held[n + 1..])
  {
    hide Keeps, Heap.ListOk, Heap.Owns, Canonical, Knows, Covers, BitmapReachable, PoolOf, Preserved, Release, WordAligned;
    ghost var m0, bs := h.mem.bytes, h.list;
    ghost var i := BlockOf(m0, h.start, bs, held, n);
    h.Free(held[n].ptr, i);
    ReleaseAligned(bs, i);
    OneLess(m0, h.start, bs, held, n, i, h.mem.bytes, h.list);
  }

  /**
   * Any run of requests: the system keeps running, each buffer still held is backed by a block of its own
   * that has exactly the bytes its holder last wrote, and every request is answered as it has to be. `log` is
   * the heap before and after each request. If nothing was in use at first, exactly the held buffers are, and
   * once all are given back the heap is one free block.
   */
  method Serve(h: Heap, ghost mmap: MemoryMap, requests: seq<Request>)
    returns (ptrs: seq<nat>, held: seq<Held>, ghost log: seq<Snapshot>)
    requires Running(h, mmap)
    modifies h`end, h`list, h`backing, h.mem, h.vmm`ram, h.vmm`tables, h.vmm.pmm`freeFrames, h.vmm.pmm`free, h.vmm.pmm.bitmap
    ensures |ptrs| == |requests| && held == Replay(requests, ptrs, |requests|)
    ensures Running(h, mmap) && Keeps(h.mem.bytes, h.start, h.list, held)
    ensures |log| == |requests| + 1 && log[0] == old(Look(h)) && log[|requests|] == Look(h)
    ensures AllAnswered(log, h.start, requests, ptrs, |requests|)
    ensures old(AllFree(h.list)) ==> OnlyHeld(h.list, h.start, held) && (held == [] ==> OneFree(Look(h).shape))
    ensures h.vmm.pmm.freeFrames + |h.vmm.tables| + |h.backing| + |Reserved(h.pool, h.vmm.pmm.totalFrames)|
         == h.vmm.pmm.totalFrames
  {
    hide Running, Next, Answered, AllAnswered, Keeps, Reserved, OnlyHeld, AllFree, OneFree, Sound, WordAligned;
    ptrs, held, log := [], [], [Look(h)];
    ghost var unused := AllFree(h.list);
    NoneInUse(h.list, h.start);
    NothingHeld(h.mem.bytes, h.start, h.list);
    NoneAnswered(Look(h), h.start, requests);
    for k := 0 to |requests|
      invariant |ptrs| == k && held == Replay(requests, ptrs, k)
      invariant Running(h, mmap) && Keeps(h.mem.bytes, h.start, h.list, held)
      invariant |log| == k + 1 && log[0] == old(Look(h)) && log[k] == Look(h)
      invariant AllAnswered(log, h.start, requests, ptrs, k)
      invariant unused ==> OnlyHeld(h.list, h.start, held)
    {
      ghost var before := Look(h);
      RunningList(h, mmap);
      var ptr := Perform(h, mmap, held, requests[k]);
      if unused {
        AnsweredOnlyHeld(before, Look(h), h.start, held, requests[k], ptr);
      }
      OneMoreAnswered(log, h.start, requests, ptrs, k, Look(h), ptr);
      ReplaySame(requests, ptrs, ptrs + [ptr], k);
      ptrs := ptrs + [ptr];
      held := Next(held, requests[k], ptr);
      log := log + [Look(h)];
    }
    FramesAccounted(h, mmap);
    RunningList(h, mmap);
    if unused && held == [] {
      AllGivenBack(Look(h).shape, h.start);
    }
  }

  ghost predicate AllFree(bs: BlockList) {
    forall b :: b in bs ==> b.free
  }

  lemma NoneInUse(bs: BlockList, start: nat)
    ensures AllFree(bs) ==> OnlyHeld(bs, start, [])
  {}

  /** The first `n` requests were answered, each in the state the ones before left. */
  ghost predicate AllAnswered(log: seq<Snapshot>, start: nat, requests: seq<Request>, ptrs: seq<nat>, n: nat) {
    && n <= |requests| && n <= |ptrs| && n < |log|
    && forall k :: 0 <= k < n ==> Answered(log[k], log[k + 1], start, Replay(requests, ptrs, k), requests[k], ptrs[k])
  }

  lemma NoneAnswered(now: Snapshot, start: nat, requests: seq<Request>)
    ensures AllAnswered([now], start, requests, [], 0)
  {}

  lemma OneMoreAnswered(log: seq<Snapshot>, start: nat, requests: seq<Request>, ptrs: seq<nat>, k: nat, now: Snapshot, ptr: nat)
    requires AllAnswered(log, start, requests, ptrs, k) && k < |requests| && |ptrs| == k && |log| == k + 1
    requires Answered(log[k], now, start, Replay(requests, ptrs, k), requests[k], ptr)
    ensures AllAnswered(log + [now], start, requests, ptrs + [ptr], k + 1)
  {
    hide Answered, Replay;
    var l, p := log + [now], ptrs + [ptr];
    forall j | 0 <= j < k + 1 ensures Answered(l[j], l[j + 1], start, Replay(requests, p, j), requests[j], p[j]) {
      ReplaySame(requests, ptrs, p, j);
      if j < k {
        assert l[j] == log[j] && l[j + 1] == log[j + 1] && p[j] == ptrs[j];
      }
    }
  }

  lemma NothingHeld(mem: seq<byte>, start: nat, bs: BlockList)
    ensures Keeps(mem, start, bs, [])
  {}

  lemma {:induction false} ReplaySame(requests: seq<Request>, a: seq<nat>, b: seq<nat>, n: nat)
    requires n <= |requests| && n <= |a| <= |b| && a == b[..|a|]
    ensures Replay(requests, a, n) == Replay(requests, b, n)
  {
    hide Next;
    if n > 0 {
      ReplaySame(requests, a, b, n - 1);
    }
  }
}
