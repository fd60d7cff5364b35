/**
 * The physical memory manager: one bit per frame in a byte-packed bitmap, a free
 * counter and a first-fit search for a run of free frames (kernel/mm/pmm.cpp).
 *
 * The abstract state is the set of free frames. Every method says what it does to
 * that set; the bitmap and the counter are tied to it by `Valid`.
 */
module PhysicalMemory {
  import opened Machine

  // EFI_MEMORY_TYPE::EfiConventionalMemory, the only type the allocator hands out.
  const CONVENTIONAL: nat := 7

  /** An entry of the UEFI memory map. */
  datatype Descriptor = Descriptor(kind: nat, physicalStart: nat, pages: nat) {
    function First(): nat { Frame(physicalStart) }
    predicate Conventional() { kind == CONVENTIONAL }
    function End(): nat { physicalStart + pages * FRAME_SIZE }
    /** Frame `f` is memory the allocator may hand out because of this entry. */
    predicate Offers(f: nat) { Conventional() && First() <= f < First() + pages }
  }

  /** The frames an entry offers are those all of whose bytes it has. */
  lemma OffersWholeFrames(d: Descriptor, f: nat)
    requires d.physicalStart % FRAME_SIZE == 0
    ensures d.Offers(f)
       <==> d.kind == 7 && d.physicalStart <= f * FRAME_SIZE && (f + 1) * FRAME_SIZE <= d.physicalStart + d.pages * FRAME_SIZE
  {}

  type MemoryMap = seq<Descriptor>

  /** Section 7.2.3 of the UEFI Specification: aligned, non-overlapping, addressable. */
  ghost predicate WellFormed(mmap: MemoryMap) {
    && (forall i :: 0 <= i < |mmap| ==> mmap[i].physicalStart % FRAME_SIZE == 0 && mmap[i].End() < TWO64)
    && (forall i, j :: 0 <= i < j < |mmap| ==> mmap[i].End() <= mmap[j].physicalStart || mmap[j].End() <= mmap[i].physicalStart)
  }

  ghost predicate Offered(mmap: MemoryMap, f: nat) {
    exists i :: 0 <= i < |mmap| && mmap[i].Offers(f)
  }

  /** All of [first, first + count) is in `free`. */
  ghost predicate Run(free: set<nat>, first: nat, count: nat) {
    forall f :: first <= f < first + count ==> f in free
  }

  /** `first` is where the lowest-addressed free run of `count` frames starts. */
  ghost predicate LowestRun(free: set<nat>, first: nat, count: nat) {
    Run(free, first, count) && forall e: nat :: e < first ==> !Run(free, e, count)
  }

  // ---- Bits of one byte ----

  /** The byte whose only set bit is bit `k`. */
  function Bit(k: nat): bv8
    requires k < 8
  {
    if k == 0 then 1 else if k == 1 then 2 else if k == 2 then 4 else if k == 3 then 8
    else if k == 4 then 16 else if k == 5 then 32 else if k == 6 then 64 else 128
  }

  lemma BitIsShift(k: nat)
    requires k < 8
    ensures Bit(k) == (1 as bv8) << k
  {}

  predicate Test(b: bv8, k: nat)
    requires k < 8
  {
    b & Bit(k) != 0
  }

  lemma ClearBit(b: bv8, k: nat, j: nat)
    requires k < 8 && j < 8
    ensures Test(b & !Bit(k), j) == (Test(b, j) && j != k)
  {}

  lemma SetBit(b: bv8, k: nat, j: nat)
    requires k < 8 && j < 8
    ensures Test(b | Bit(k), j) == (Test(b, j) || j == k)
  {}

  lemma SameBits(a: bv8, b: bv8)
    requires forall k :: 0 <= k < 8 ==> Test(a, k) == Test(b, k)
    ensures a == b
  {
    assert Test(a, 0) == Test(b, 0) && Test(a, 1) == Test(b, 1) && Test(a, 2) == Test(b, 2) && Test(a, 3) == Test(b, 3);
    assert Test(a, 4) == Test(b, 4) && Test(a, 5) == Test(b, 5) && Test(a, 6) == Test(b, 6) && Test(a, 7) == Test(b, 7);
    assert a & 1 == b & 1 && a & 2 == b & 2 && a & 4 == b & 4 && a & 8 == b & 8;
  }

  // ---- The bitmap as a whole ----

  /** The byte and the bit of frame `f`. */
  predicate Used(bytes: seq<bv8>, f: nat)
    requires f < 8 * |bytes|
  {
    Test(bytes[f / 8], f % 8)
  }

  /** Exactly the frames outside `free` have their bit set. */
  ghost predicate Shows(bytes: seq<bv8>, free: set<nat>) {
    forall f :: 0 <= f < 8 * |bytes| ==> (Used(bytes, f) <==> f !in free)
  }

  /** The bitmap holds nothing beyond its bits. */
  lemma BitmapDeterminedByFree(a: seq<bv8>, b: seq<bv8>, free: set<nat>)
    requires |a| == |b| && Shows(a, free) && Shows(b, free)
    ensures a == b
  {
    forall i | 0 <= i < |a| ensures a[i] == b[i] {
      forall k | 0 <= k < 8 ensures Test(a[i], k) == Test(b[i], k) {
        assert Used(a, 8 * i + k) == Used(b, 8 * i + k);
      }
      SameBits(a[i], b[i]);
    }
  }

  /** Writing one byte with one bit changed changes one frame. */
  lemma ByteUpdate(a: seq<bv8>, b: seq<bv8>, f: nat, used: bool)
    requires f < 8 * |a|
    requires b == a[f / 8 := if used then a[f / 8] | Bit(f % 8) else a[f / 8] & !Bit(f % 8)]
    ensures forall g :: 0 <= g < 8 * |a| ==> (Used(b, g) <==> if g == f then used else Used(a, g))
  {
    hide Bit;
    forall g | 0 <= g < 8 * |a| ensures Used(b, g) <==> if g == f then used else Used(a, g) {
      if g / 8 == f / 8 {
        ClearBit(a[f / 8], f % 8, g % 8);
        SetBit(a[f / 8], f % 8, g % 8);
      }
    }
  }

  lemma SubsetSize(a: set<nat>, b: set<nat>)
    requires a <= b
    ensures |a| <= |b|
  {
    assert |b| == |a| + |b - a| by { assert b == a + (b - a); }
  }

  /** Exactly `run` free frames end right before `frame`. */
  ghost predicate RunEndsAt(free: set<nat>, frame: nat, run: nat) {
    && run <= frame
    && Run(free, frame - run, run)
    && (run < frame ==> frame - run - 1 !in free)
  }

  ghost predicate NoRunBefore(free: set<nat>, frame: nat, count: nat) {
    forall e: nat :: e + count <= frame ==> !Run(free, e, count)
  }

  /** More frames than the counter shows can never be one run: the early exit is right. */
  lemma NoRunLargerThanFree(free: set<nat>, count: nat)
    requires count > |free|
    ensures !exists first: nat :: Run(free, first, count)
  {
    if first: nat :| Run(free, first, count) {
      SubsetSize(Frames(first, count), free);
    }
  }

  lemma SearchStart(free: set<nat>, count: nat)
    requires count > 0
    ensures RunEndsAt(free, 0, 0) && NoRunBefore(free, 0, count)
  {}

  /** One more frame looked at: a used one ends the run, a free one extends it. */
  lemma RunStep(free: set<nat>, frame: nat, run: nat, used: bool)
    requires RunEndsAt(free, frame, run) && (used <==> frame !in free)
    ensures RunEndsAt(free, frame + 1, if used then 0 else run + 1)
  {}

  /** A run shorter than `count` ends after `frame`, so no run of `count` does. */
  lemma Searched(free: set<nat>, frame: nat, run: nat, count: nat)
    requires NoRunBefore(free, frame, count)
    requires run < count && RunEndsAt(free, frame + 1, run)
    ensures NoRunBefore(free, frame + 1, count)
  {
    forall e: nat | e + count == frame + 1 ensures !Run(free, e, count) {
      assert e <= frame - run < e + count;
    }
  }

  lemma NoRunAnywhere(free: set<nat>, total: nat, count: nat)
    requires count > 0 && forall f :: f in free ==> f < total
    requires NoRunBefore(free, total, count)
    ensures !exists first: nat :: Run(free, first, count)
  {
    forall first: nat ensures !Run(free, first, count) {
      if first + count > total {
        assert first + count - 1 !in free;
      }
    }
  }

  /** The first run found is the lowest one, and does not start at frame 0. */
  lemma FoundLowest(free: set<nat>, frame: nat, count: nat)
    requires NoRunBefore(free, frame, count) && RunEndsAt(free, frame + 1, count)
    requires count > 0 && 0 !in free
    ensures frame + 1 - count > 0 && LowestRun(free, frame + 1 - count, count)
  {
    assert frame + 1 - count in free;
  }

  lemma GivenBack(free: set<nat>, first: nat, count: nat)
    requires Run(free, first, count) && 0 !in free
    ensures (free - Frames(first, count)) + (Frames(first, count) - {0}) == free
  {
    hide Frames;
  }

  // ---- Memory map ----

  ghost predicate OfferedBefore(mmap: MemoryMap, n: nat, f: nat)
    requires n <= |mmap|
  {
    exists i :: 0 <= i < n && mmap[i].Offers(f)
  }

  /** `total` is one past the highest conventional frame, or 0 without conventional memory. */
  ghost predicate IsTotal(mmap: MemoryMap, total: nat) {
    && (forall i :: 0 <= i < |mmap| && mmap[i].Conventional() ==> mmap[i].End() <= total * FRAME_SIZE)
    && (total == 0 || exists i :: 0 <= i < |mmap| && mmap[i].Conventional() && mmap[i].End() == total * FRAME_SIZE)
  }

  /** One of the `bytes` bytes from `base` on lies in frame `f`. */
  ghost predicate HoldsBitmap(f: nat, base: nat, bytes: nat) {
    exists b: nat :: InBitmap(b, bytes) && f == Frame(base + b)
  }

  predicate InBitmap(b: nat, bytes: nat) { b < bytes }

  /** Entry `d` is conventional, does not start at 0 and its bytes have a bit for each of `total` frames. */
  predicate CanHoldBitmap(d: Descriptor, total: nat) {
    d.Conventional() && d.physicalStart != 0 && total <= 8 * (d.pages * FRAME_SIZE)
  }

  /** The bytes that hold `total` bits take up the pages the code reserves for them. */
  lemma BitmapPages(total: nat, base: nat, bytes: nat, pages: nat)
    requires base % FRAME_SIZE == 0 && bytes == (total + 7) / 8 && pages == PagesFor(bytes)
    ensures 8 * bytes - 8 < total <= 8 * bytes
    ensures forall f: nat :: f in Frames(Frame(base), pages) <==> HoldsBitmap(f, base, bytes)
    ensures forall d: Descriptor :: CanHoldBitmap(d, total) <==> d.Conventional() && d.physicalStart != 0 && d.pages >= pages
  {
    hide Frames;
    forall f: nat | f in Frames(Frame(base), pages) ensures HoldsBitmap(f, base, bytes) {
      var b := (f - Frame(base)) * FRAME_SIZE;
      assert InBitmap(b, bytes) && f == Frame(base + b);
    }
    forall f: nat, b: nat | InBitmap(b, bytes) && f == Frame(base + b) ensures f in Frames(Frame(base), pages) {
      assert Frame(base + b) == Frame(base) + b / FRAME_SIZE;
    }
    forall d: Descriptor ensures CanHoldBitmap(d, total) <==> d.Conventional() && d.physicalStart != 0 && d.pages >= pages {
      EnoughPages(total, bytes, d.pages);
    }
  }

  lemma EnoughPages(total: nat, bytes: nat, pages: nat)
    requires bytes == (total + 7) / 8
    ensures total <= 8 * (pages * FRAME_SIZE) <==> pages >= PagesFor(bytes)
  {
    var n := pages * FRAME_SIZE;
    assert total <= 8 * n <==> bytes <= n;
  }

  /** `base` is the start of the first entry that can hold the bitmap. */
  ghost predicate IsBitmapBase(mmap: MemoryMap, total: nat, base: nat) {
    exists i :: 0 <= i < |mmap| && base == mmap[i].physicalStart && CanHoldBitmap(mmap[i], total)
                && forall j :: 0 <= j < i ==> !CanHoldBitmap(mmap[j], total)
  }

  class Pmm {
    var bitmap: array<bv8>
    var bitmapBase: nat       // the physical address the bitmap pointer holds, 0 for a null pointer
    var totalFrames: nat
    var freeFrames: nat

    ghost var free: set<nat>  // the frames that can be handed out

    /** Bitmap, counter and abstract set agree; the bitmap has no byte too many, and its bits past the last frame stay set. */
    ghost predicate Coherent()
      reads this, bitmap
    {
      && 8 * bitmap.Length - 8 < totalFrames <= 8 * bitmap.Length
      && (forall f :: f in free ==> f < totalFrames)
      && Shows(bitmap[..], free)
      && freeFrames == |free|
    }

    /** Frame 0 is never handed out, because address 0 means failure. */
    ghost predicate Valid()
      reads this, bitmap
    {
      Coherent() && 0 !in free
    }

    /** The counter is exact. */
    lemma CounterExact()
      requires Valid()
      ensures freeFrames == |free|
    {}

    lemma FreeAreManaged()
      requires Valid()
      ensures forall f :: f in free ==> 0 < f < totalFrames
    {}

    /** The state of the C globals before `Init` runs. */
    constructor ()
      ensures bitmapBase == 0 && totalFrames == 0 && freeFrames == 0 && free == {}
      ensures fresh(bitmap) && bitmap.Length == 0
    {
      bitmap := new bv8[0];
      bitmapBase, totalFrames, freeFrames, free := 0, 0, 0, {};
    }

    method State(f: nat) returns (used: bool)
      requires f < 8 * bitmap.Length && Shows(bitmap[..], free)
      ensures used <==> f !in free
    {
      used := bitmap[f / 8] & Bit(f % 8) != 0;
      assert used == Used(bitmap[..], f);
    }

    method Clear(f: nat)
      requires f < 8 * bitmap.Length && Shows(bitmap[..], free)
      modifies bitmap, this`free
      ensures Shows(bitmap[..], free) && free == old(free) + {f}
    {
      bitmap[f / 8] := bitmap[f / 8] & !Bit(f % 8);
      ByteUpdate(old(bitmap[..]), bitmap[..], f, false);
      free := free + {f};
    }

    method Set(f: nat)
      requires f < 8 * bitmap.Length && Shows(bitmap[..], free)
      modifies bitmap, this`free
      ensures Shows(bitmap[..], free) && free == old(free) - {f}
    {
      bitmap[f / 8] := bitmap[f / 8] | Bit(f % 8);
      ByteUpdate(old(bitmap[..]), bitmap[..], f, true);
      free := free - {f};
    }

    /** Marks a range used; does nothing when the range leaves the managed frames. */
    method Reserve(first: nat, count: nat)
      requires Coherent()
      modifies this`freeFrames, this`free, bitmap
      ensures Coherent()
      ensures free == if Frame(first) + count <= totalFrames
                      then old(free) - Frames(Frame(first), count) else old(free)
    {
      hide Shows, Test, Bit, Frames, Frame, Address;
      var frameIndex := Frame(first);
      if frameIndex >= totalFrames || count > totalFrames - frameIndex {
        assert count == 0 ==> Frames(frameIndex, count) == {};
        return;
      }
      for i := 0 to count
        invariant Coherent()
        invariant forall f :: f in free <==> f in old(free) && !(frameIndex <= f < frameIndex + i)
      {
        var used := State(frameIndex + i);
        if !used {
          freeFrames := freeFrames - 1;
        }
        Set(frameIndex + i);
      }
    }

    /** The first frame of the lowest free run of `count` frames, or 0. */
    method Search(count: nat) returns (first: nat)
      requires Valid() && count > 0
      ensures first == 0 ==> !exists e: nat :: Run(free, e, count)
      ensures first != 0 ==> LowestRun(free, first, count) && first + count <= totalFrames
    {
      hide Shows, Test, Bit, RunEndsAt, NoRunBefore, Run, LowestRun;
      var run := 0;
      SearchStart(free, count);
      for frame := 0 to totalFrames
        invariant run < count && RunEndsAt(free, frame, run)
        invariant NoRunBefore(free, frame, count)
      {
        var used := State(frame);
        RunStep(free, frame, run, used);
        run := if used then 0 else run + 1;
        if run < count {
          Searched(free, frame, run, count);
          continue;
        }
        FoundLowest(free, frame, count);
        return frame + 1 - count;
      }
      NoRunAnywhere(free, totalFrames, count);
      return 0;
    }

    method AllocFrames(count: nat) returns (addr: nat)
      requires Valid()
      modifies this`freeFrames, this`free, bitmap
      ensures Valid()
      ensures addr == 0 <==> count == 0 || !exists first: nat :: Run(old(free), first, count)
      ensures addr == 0 ==> free == old(free) && bitmap[..] == old(bitmap[..])
      ensures addr != 0 ==>
                && addr == Address(Frame(addr))
                && Frame(addr) + count <= totalFrames
                && LowestRun(old(free), Frame(addr), count)
                && free == old(free) - Frames(Frame(addr), count)
    {
      hide Shows, Test, Bit, Frames, Frame, Address, Run;
      if count == 0 || count > freeFrames {
        if count > freeFrames { NoRunLargerThanFree(free, count); }
        return 0;
      }
      var first := Search(count);
      if first == 0 {
        return 0;
      }
      Reserve(Address(first), count);
      return Address(first);
    }

    method AllocFrame() returns (addr: nat)
      requires Valid()
      modifies this`freeFrames, this`free, bitmap
      ensures Valid()
      ensures addr == 0 <==> old(free) == {}
      ensures addr == 0 ==> free == old(free)
      ensures addr != 0 ==>
                && addr == Address(Frame(addr))
                && Frame(addr) in old(free)
                && (forall f :: f in old(free) ==> Frame(addr) <= f)
                && free == old(free) - {Frame(addr)}
    {
      hide Shows, Test, Bit, Frames, Frame, Address;
      addr := AllocFrames(1);
      forall f: nat ensures Run(old(free), f, 1) <==> f in old(free) {}
      if addr == 0 {
        assert forall f :: f in old(free) ==> Run(old(free), f, 1);
      } else {
        assert Run(old(free), Frame(addr), 1);
        assert Frame(addr) in old(free);
        assert Frames(Frame(addr), 1) == {Frame(addr)};
        forall f | f in old(free) ensures Frame(addr) <= f {
          assert Run(old(free), f, 1);
        }
      }
    }

    method FreeFrame(frame: nat)
      requires Valid()
      modifies this`freeFrames, this`free, bitmap
      ensures Valid()
      ensures free == if 0 < Frame(frame) < totalFrames
                      then old(free) + {Frame(frame)} else old(free)
    {
      hide Shows, Test, Bit, Frames, Frame, Address;
      var frameIndex := Frame(frame);
      if freeFrames == totalFrames {
        SubsetSize(free, Frames(0, totalFrames) - {0});
        return;
      }
      if frameIndex == 0 || frameIndex >= totalFrames { return; }
      var used := State(frameIndex);
      if !used { return; }
      Clear(frameIndex);
      freeFrames := freeFrames + 1;
    }

    method FreeFrames(first: nat, count: nat)
      requires Valid()
      modifies this`freeFrames, this`free, bitmap
      ensures Valid()
      ensures free == if Frame(first) + count <= totalFrames
                      then old(free) + (Frames(Frame(first), count) - {0}) else old(free)
    {
      hide Coherent, Frames, Frame, Address;
      var firstIndex := Frame(first);
      if firstIndex >= totalFrames || count > totalFrames - firstIndex {
        assert count == 0 ==> Frames(firstIndex, count) == {};
        return;
      }
      for i := 0 to count
        invariant Valid()
        invariant forall f :: f in free <==> f in old(free) || (firstIndex <= f < firstIndex + i && f != 0)
      {
        FreeFrame(Address(firstIndex + i));
      }
    }

    /** A run that is allocated and given back leaves every bit and the counter as they were. */
    method AllocThenFree(count: nat)
      requires Valid()
      modifies this`freeFrames, this`free, bitmap
      ensures Valid()
      ensures bitmap[..] == old(bitmap[..]) && freeFrames == old(freeFrames) && free == old(free)
    {
      hide Shows, Test, Bit, Frames, Frame, Address;
      var addr := AllocFrames(count);
      if addr != 0 {
        FreeFrames(addr, count);
        GivenBack(old(free), Frame(addr), count);
        BitmapDeterminedByFree(bitmap[..], old(bitmap[..]), free);
      }
    }

    /**
     * Builds the bitmap from the firmware's memory map. `ok` is false where the source panics
     * because no region can hold the bitmap.
     */
    method Init(mmap: MemoryMap) returns (ok: bool)
      requires bitmapBase == 0 && freeFrames == 0
      requires WellFormed(mmap)
      modifies this
      ensures ok <==> exists i :: 0 <= i < |mmap| && CanHoldBitmap(mmap[i], totalFrames)
      ensures IsTotal(mmap, totalFrames)
      ensures ok ==> Valid() && fresh(bitmap) && IsBitmapBase(mmap, totalFrames, bitmapBase)
      ensures ok ==> 8 * bitmap.Length - 8 < totalFrames <= 8 * bitmap.Length
      ensures ok ==> forall f: nat :: f in free <==> Offered(mmap, f) && f != 0 && !HoldsBitmap(f, bitmapBase, bitmap.Length)
    {
      hide Shows, Test, Bit, Frames, Frame, CanHoldBitmap, HoldsBitmap, PagesFor;
      totalFrames := HighestFrame(mmap);
      var bitmapBytes := (totalFrames + 7) / 8;
      var bitmapFrames := PagesFor(bitmapBytes);
      BitmapPages(totalFrames, 0, bitmapBytes, bitmapFrames);
      var k := 0;
      while k < |mmap| && !(mmap[k].Conventional() && mmap[k].physicalStart != 0 && mmap[k].pages >= bitmapFrames)
        invariant k <= |mmap|
        invariant forall j :: 0 <= j < k ==> !CanHoldBitmap(mmap[j], totalFrames)
      {
        k := k + 1;
      }
      if k == |mmap| {
        return false;
      }
      bitmapBase := mmap[k].physicalStart;
      bitmap := new bv8[bitmapBytes](_ => 0xFF);
      free := {};
      AllUsed(bitmap[..]);
      Release(mmap);
      BitmapPages(totalFrames, bitmapBase, bitmapBytes, bitmapFrames);
      ReserveAtBoot(mmap, k, bitmapFrames);
      ok := true;
    }

    /** Takes the bitmap's own frames and frame 0 out of the free ones. */
    method ReserveAtBoot(mmap: MemoryMap, ghost k: nat, bitmapFrames: nat)
      requires WellFormed(mmap) && IsTotal(mmap, totalFrames) && Coherent()
      requires k < |mmap| && bitmapBase == mmap[k].physicalStart
      requires mmap[k].Conventional() && mmap[k].physicalStart != 0 && mmap[k].pages >= bitmapFrames
      modifies this`freeFrames, this`free, bitmap
      ensures Valid()
      ensures forall f :: f in free <==> f in old(free) && f != 0 && f !in Frames(Frame(bitmapBase), bitmapFrames)
    {
      hide Shows, Test, Bit, Frames, Frame, WellFormed, IsTotal;
      ReservedRegions(mmap, totalFrames, bitmapBase, k, bitmapFrames);
      Reserve(bitmapBase, bitmapFrames);
      Reserve(0, 1);
    }

    /** Clears the bit of every frame the map offers, counting them. */
    method Release(mmap: MemoryMap)
      requires WellFormed(mmap) && IsTotal(mmap, totalFrames)
      requires Coherent() && free == {}
      modifies this`freeFrames, this`free, bitmap
      ensures Coherent()
      ensures forall f: nat :: f in free <==> Offered(mmap, f)
    {
      hide Shows, WellFormed, IsTotal, OfferedBefore, Offered, Frame;
      assert forall f: nat :: !OfferedBefore(mmap, 0, f) by { NothingOffered(mmap); }
      for i := 0 to |mmap|
        invariant Coherent()
        invariant forall f: nat :: f in free <==> OfferedBefore(mmap, i, f)
      {
        OfferedByOneMore(mmap, i, i + 1, totalFrames);
        if !mmap[i].Conventional() {
          assert forall f: nat :: !mmap[i].Offers(f);
          continue;
        }
        var first := mmap[i].First();
        for f := first to first + mmap[i].pages
          invariant Coherent()
          invariant forall g: nat :: g in free <==> OfferedBefore(mmap, i, g) || first <= g < f
        {
          assert mmap[i].Offers(f);
          Clear(f);
          freeFrames := freeFrames + 1;
        }
        assert forall f: nat :: mmap[i].Offers(f) <==> first <= f < first + mmap[i].pages;
      }
      assert forall f: nat :: OfferedBefore(mmap, |mmap|, f) <==> Offered(mmap, f) by { OfferedInAll(mmap); }
    }
  }

  /** One past the highest conventional frame. */
  method HighestFrame(mmap: MemoryMap) returns (total: nat)
    requires WellFormed(mmap)
    ensures IsTotal(mmap, total)
  {
    var highest := 0;
    for i := 0 to |mmap|
      invariant highest % FRAME_SIZE == 0
      invariant forall j :: 0 <= j < i && mmap[j].Conventional() ==> mmap[j].End() <= highest
      invariant highest == 0 || exists j :: 0 <= j < i && mmap[j].Conventional() && mmap[j].End() == highest
    {
      if mmap[i].Conventional() && mmap[i].End() > highest {
        highest := mmap[i].End();
      }
    }
    total := highest / FRAME_SIZE;
  }

  lemma AllUsed(bytes: seq<bv8>)
    requires forall i :: 0 <= i < |bytes| ==> bytes[i] == 0xFF
    ensures Shows(bytes, {})
  {
    assert forall k :: 0 <= k < 8 ==> Test(0xFF, k);
  }

  /** Both ranges `Init` reserves lie inside the managed frames. */
  lemma ReservedRegions(mmap: MemoryMap, total: nat, base: nat, k: nat, pages: nat)
    requires WellFormed(mmap) && IsTotal(mmap, total) && k < |mmap| && base == mmap[k].physicalStart
    requires mmap[k].Conventional() && mmap[k].physicalStart != 0 && mmap[k].pages >= pages
    ensures Frame(base) + pages <= total && base % FRAME_SIZE == 0
    ensures Frame(0) == 0
  {
  }

  lemma NothingOffered(mmap: MemoryMap)
    ensures forall f: nat :: !OfferedBefore(mmap, 0, f)
  {}

  lemma OfferedInAll(mmap: MemoryMap)
    ensures forall f: nat :: OfferedBefore(mmap, |mmap|, f) <==> Offered(mmap, f)
  {}

  /** Entry `i` adds exactly its own frames: none was offered before, and all are managed. */
  lemma OfferedByOneMore(mmap: MemoryMap, i: nat, next: nat, total: nat)
    requires WellFormed(mmap) && IsTotal(mmap, total) && next == i + 1 <= |mmap|
    ensures forall f: nat :: OfferedBefore(mmap, next, f) <==> OfferedBefore(mmap, i, f) || mmap[i].Offers(f)
    ensures forall f: nat :: mmap[i].Offers(f) ==> !OfferedBefore(mmap, i, f) && f < total
  {
    assert mmap[i].physicalStart == mmap[i].First() * FRAME_SIZE;
    forall f: nat | mmap[i].Offers(f) ensures !OfferedBefore(mmap, i, f) {
      if j :| 0 <= j < i && mmap[j].Offers(f) {
        assert false;
      }
    }
  }
}
