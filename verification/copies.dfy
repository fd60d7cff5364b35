/**
 * When `realloc` is safe (kernel/mm/heap.cpp, lines 103-110): it copies as many bytes as the old block
 * holds, which may be more than were asked for. Two requests decide whether the new block can be too small.
 */
module CopySizes {
  import opened Machine
  import opened Powers
  import opened Blocks

  predicate Allocates(c: Call) {
    c.Allocate? || c.GrowAndAllocate?
  }

  /** A call that allocates for a request of `size` bytes. */
  predicate Asks(c: Call, size: nat) {
    Allocates(c) && c.want == Align16(size)
  }

  /** The block an allocating call takes. */
  function NewBlock(h: Shape, c: Call): Block
    requires Enabled(h, c) && Allocates(c)
  {
    if c.Allocate? then Take(h.list, c.i, c.want)[c.i]
    else Take(Grow(h.list, h.end, c.bytes), |h.list|, c.want)[|h.list|]
  }

  /** A heap as `Heap::init` leaves it: one free block over whole pages. */
  ghost predicate FreshHeap(h: Shape) {
    h.end > 0 && h.end % FRAME_SIZE == 0 && h.list == [Block(0, h.end - META, true)]
  }

  /** A run of heap calls from the beginning, in a heap that may not grow beyond `limit`. */
  ghost predicate HeapRun(states: seq<Shape>, calls: seq<Call>, limit: nat) {
    && IsRun(states, calls) && FreshHeap(states[0])
    && (forall c <- calls :: Rounded(c))
    && (forall k :: 0 <= k < |states| ==> states[k].end <= limit)
  }

  /** Call `u` takes a smaller block, for `n` bytes, than the live one call `t` took for `s` bytes. */
  ghost predicate TakesLess(states: seq<Shape>, calls: seq<Call>, t: nat, u: nat, s: nat, n: nat)
    requires IsRun(states, calls)
  {
    && t < u < |calls| && Asks(calls[t], s) && Asks(calls[u], n)
    && NewBlock(states[t], calls[t]) in states[u].list
    && NewBlock(states[t], calls[t]).size > NewBlock(states[u], calls[u]).size
  }

  /** In some run, resizing a buffer of `s` bytes to `n` bytes copies beyond the new block. */
  ghost predicate MayOverrun(s: nat, n: nat, limit: nat) {
    exists states, calls, t: nat, u: nat :: HeapRun(states, calls, limit) && TakesLess(states, calls, t, u, s, n)
  }

  /** What a caller can check: the new request is 32 bytes larger, or the heap has no room for both blocks. */
  predicate SafeToResize(s: nat, n: nat, limit: nat) {
    var a, w := Align16(s), Align16(n);
    w >= a + 32 || a + w + 2 * META + (if w == a + 16 then 32 else 0) > limit
  }

  // ---- What a taken block can be ----

  /** A block is taken whole when what is left over could not be a block of its own. */
  lemma TakenSize(bs: BlockList, i: nat, want: nat)
    requires i < |bs| && bs[i].size >= want
    ensures want <= Take(bs, i, want)[i].size < want + META + MIN_SPLIT
    ensures !Take(bs, i, want)[i].free
  {}

  lemma NewBlockSize(h: Shape, c: Call)
    requires Enabled(h, c) && Allocates(c)
    ensures c.want <= NewBlock(h, c).size < c.want + META + MIN_SPLIT
    ensures !NewBlock(h, c).free && NewBlock(h, c) in After(h, c).list
  {
    hide Take, NoFit;
    if c.Allocate? {
      TakenSize(h.list, c.i, c.want);
    } else {
      GrownLast(h.list, h.end, c.bytes);
      TakenSize(Grow(h.list, h.end, c.bytes), |h.list|, c.want);
    }
  }

  /** A block in use stays in the list when another one is taken. */
  lemma TakeKeeps(bs: BlockList, i: nat, want: nat, b: Block)
    requires i < |bs| && bs[i].Fits(want) && b in bs && !b.free
    ensures b in Take(bs, i, want)
  {
    hide Take;
    TakeParts(bs, i, want);
    var j :| 0 <= j < |bs| && bs[j] == b;
    assert b in bs[..i] || b in bs[i + 1..];
  }

  lemma AllocationKeeps(h: Shape, c: Call, b: Block)
    requires Enabled(h, c) && Allocates(c) && b in h.list && !b.free
    ensures b in After(h, c).list
  {
    hide Take, NoFit;
    if c.Allocate? {
      TakeKeeps(h.list, c.i, c.want, b);
    } else {
      GrownLast(h.list, h.end, c.bytes);
      var g := Grow(h.list, h.end, c.bytes);
      assert b in g && g[|h.list|].free;
      TakeKeeps(g, |h.list|, c.want, b);
    }
  }

  /** Two different blocks fit into the heap side by side. */
  lemma BothFit(bs: BlockList, hi: nat, a: Block, b: Block)
    requires Tiled(bs, 0, hi) && a in bs && b in bs && a != b
    ensures a.size + b.size + 2 * META <= hi
  {
    var i :| 0 <= i < |bs| && bs[i] == a;
    var j :| 0 <= j < |bs| && bs[j] == b;
    if i < j {
      TiledOrder(bs, 0, hi, i, j);
      TiledBounds(bs, 0, hi, j);
    } else {
      TiledOrder(bs, 0, hi, j, i);
      TiledBounds(bs, 0, hi, i);
    }
  }

  lemma FreshIsSound(h: Shape)
    requires FreshHeap(h)
    ensures Sound(h) && WordAligned(h.list) && h.end % 8 == 0
  {
    var z := h.end / FRAME_SIZE;
    assert h.end == 8 * (512 * z);
    MultipleOf(8, 512 * z);
    WordsIn(0, h.end - META, 0, 512 * z - 3);
  }

  /** An overrun means that the guard was not met. */
  lemma OverrunIsUnsafe(states: seq<Shape>, calls: seq<Call>, t: nat, u: nat, s: nat, n: nat, limit: nat)
    requires HeapRun(states, calls, limit) && TakesLess(states, calls, t, u, s, n) && limit % FRAME_SIZE == 0
    ensures !SafeToResize(s, n, limit)
  {
    hide Tiled, After, Enabled, WordAligned, Canonical, NewBlock, Align16;
    var before, after := NewBlock(states[t], calls[t]), NewBlock(states[u], calls[u]);
    NewBlockSize(states[t], calls[t]);
    NewBlockSize(states[u], calls[u]);
    AllocationKeeps(states[u], calls[u], before);
    FreshIsSound(states[0]);
    RunSound(states, calls, u + 1);
    BothFit(states[u + 1].list, states[u + 1].end, before, after);
    RunAligned(states, calls, t + 1);
    InWordsOf(states[t + 1].list, before);
    NotSafe(s, n, limit, before.size, after.size);
  }

  lemma InWordsOf(bs: BlockList, b: Block)
    requires WordAligned(bs) && b in bs
    ensures b.size % 8 == 0
  {}

  lemma NotSafe(s: nat, n: nat, limit: nat, o: nat, m: nat)
    requires limit % FRAME_SIZE == 0 && o % 8 == 0 && o > m && o + m + 2 * META <= limit
    requires Align16(s) <= o < Align16(s) + META + MIN_SPLIT && Align16(n) <= m
    ensures !SafeToResize(s, n, limit)
  {
    Sixteenths(Align16(s), Align16(n), limit, o, m);
  }

  /** The same of multiples: sizes are counted in 16 and 8 bytes, the limit in pages. */
  lemma Sixteenths(a: nat, w: nat, limit: nat, o: nat, m: nat)
    requires a % 16 == 0 && w % 16 == 0 && limit % FRAME_SIZE == 0 && o % 8 == 0
    requires o > m && o + m + 2 * META <= limit && a <= o < a + META + MIN_SPLIT && w <= m
    ensures w < a + 32 && a + w + 2 * META + (if w == a + 16 then 32 else 0) <= limit
  {
    var x, y, z, c := a / 16, w / 16, limit / FRAME_SIZE, o / 8;
    assert a == 16 * x && w == 16 * y && limit == FRAME_SIZE * z && o == 8 * c;
    assert c <= 2 * x + 4 && y <= x + 1;
    if y == x + 1 {
      assert c >= 2 * x + 3;
      assert 128 * z >= x + 3;
    }
  }

  // ---- Runs that overrun ----

  /** A hole of `x` bytes in front of the block of `q` bytes that the first request took whole. */
  lemma HoleInFront(end: nat, x: nat, q: nat, s: nat, n: nat)
    requires end > 0 && end % FRAME_SIZE == 0 && s > 0 && n > 0 && x % 16 == 0
    requires x + q + 2 * META == end && q > x
    requires Align16(s) <= q < Align16(s) + META + MIN_SPLIT
    requires Align16(n) <= x < Align16(n) + META + MIN_SPLIT
    ensures MayOverrun(s, n, end)
  {
    hide Enabled, After, Take, Taken, NewBlock, Canonical, Align16;
    var a, w := Align16(s), Align16(n);
    var hole, tail := Block(0, x, false), Block(META + x, q, false);
    var h0 := Shape([Block(0, end - META, true)], end);
    var h1 := Shape([hole, tail.(free := true)], end);
    var h2 := Shape([hole, tail], end);
    var h3 := Shape([hole.(free := true), tail], end);
    var states, calls := [h0, h1, h2, h3, h2], [Allocate(0, x), Allocate(1, a), Free(0), Allocate(0, w)];
    TakeFirst(end, x);
    TakeWhole(h1, 1, a);
    assert h1.list[1 := tail] == h2.list;
    FreeFirst(h2);
    assert h2.list[0 := hole.(free := true)] == h3.list;
    TakeWhole(h3, 0, w);
    assert h3.list[0 := hole] == h2.list;
    assert forall c <- calls :: Rounded(c);
    assert HeapRun(states, calls, end);
    assert TakesLess(states, calls, 1, 3, s, n);
  }

  /** The first allocation in a fresh heap cuts a block off its beginning. */
  lemma TakeFirst(end: nat, x: nat)
    requires end >= x + 2 * META + MIN_SPLIT
    ensures var h := Shape([Block(0, end - META, true)], end);
            Enabled(h, Allocate(0, x))
            && After(h, Allocate(0, x)) == Shape([Block(0, x, false), Block(META + x, end - 2 * META - x, true)], end)
  {}

  /** The first fit is taken whole when it is too small to cut. */
  lemma TakeWhole(h: Shape, i: nat, want: nat)
    requires FirstFit(h.list, i, want) && h.list[i].size < want + META + MIN_SPLIT
    ensures Enabled(h, Allocate(i, want))
    ensures After(h, Allocate(i, want)) == h.(list := h.list[i := h.list[i].(free := false)])
    ensures NewBlock(h, Allocate(i, want)) == h.list[i].(free := false)
  {
    hide Take;
    TakeParts(h.list, i, want);
    assert h.list[i := h.list[i].(free := false)] == h.list[..i] + [h.list[i].(free := false)] + h.list[i + 1..];
  }

  /** Freeing the first block, with a block in use behind it, only marks it. */
  lemma FreeFirst(h: Shape)
    requires |h.list| > 1 && !h.list[0].free && !h.list[1].free && Canonical(h.list)
    ensures Enabled(h, Free(0)) && After(h, Free(0)) == h.(list := h.list[0 := h.list[0].(free := true)])
  {
    var marked := h.list[0 := h.list[0].(free := true)];
    assert Canonical(marked);
    CoalesceCanonicalIsSame(marked);
  }

  /** The same with a block in use between, which uses up the space that would be cut off. */
  lemma HoleApart(end: nat, f: nat, q: nat, s: nat, n: nat)
    requires end > 0 && end % FRAME_SIZE == 0 && s > 0 && n > 0 && f > 0 && f % 16 == 0
    requires Align16(n) + f + q + 3 * META == end && q > Align16(n)
    requires Align16(s) <= q < Align16(s) + META + MIN_SPLIT
    ensures MayOverrun(s, n, end)
  {
    hide Enabled, After, Take, Taken, NewBlock, Canonical, Align16;
    var a, w := Align16(s), Align16(n);
    var hole, fill, tail := Block(0, w, false), Block(META + w, f, false), Block(2 * META + w + f, q, false);
    var h0 := Shape([Block(0, end - META, true)], end);
    var h1 := Shape([hole, Block(META + w, META + f + q, true)], end);
    var h2 := Shape([hole, fill, tail.(free := true)], end);
    var h3 := Shape([hole, fill, tail], end);
    var h4 := Shape([hole.(free := true), fill, tail], end);
    var states := [h0, h1, h2, h3, h4, h3];
    var calls := [Allocate(0, w), Allocate(1, f), Allocate(2, a), Free(0), Allocate(0, w)];
    TakeFirst(end, w);
    TakeSecond(end, w, f, q);
    TakeWhole(h2, 2, a);
    assert h2.list[2 := tail] == h3.list;
    FreeFirst(h3);
    assert h3.list[0 := hole.(free := true)] == h4.list;
    TakeWhole(h4, 0, w);
    assert h4.list[0 := hole] == h3.list;
    assert forall c <- calls :: Rounded(c);
    assert HeapRun(states, calls, end);
    assert TakesLess(states, calls, 2, 4, s, n);
  }

  lemma TakeSecond(end: nat, w: nat, f: nat, q: nat)
    requires q >= MIN_SPLIT && w + f + q + 3 * META == end
    ensures var h := Shape([Block(0, w, false), Block(META + w, META + f + q, true)], end);
            Enabled(h, Allocate(1, f))
            && After(h, Allocate(1, f))
            == Shape([Block(0, w, false), Block(META + w, f, false), Block(2 * META + w + f, q, true)], end)
  {}

  /** Where the guard is not met, some run from a fresh heap overruns. */
  lemma UnsafeOverruns(s: nat, n: nat, limit: nat)
    requires s > 0 && n > 0 && limit % FRAME_SIZE == 0 && !SafeToResize(s, n, limit)
    ensures MayOverrun(s, n, limit)
  {
    hide MayOverrun, SafeToResize, Align16;
    var a, w := Align16(s), Align16(n);
    var r := limit - 2 * META - a - w;
    Unsafe(s, n, limit);
    LeftOver(a, w, limit);
    if r >= 64 {
      HoleApart(limit, r - 48, a + 24, s, n);
    } else if r == 48 {
      HoleInFront(limit, w + 16, a + 32, s, n);
    } else {
      HoleInFront(limit, w, a + r, s, n);
    }
  }

  lemma Unsafe(s: nat, n: nat, limit: nat)
    requires !SafeToResize(s, n, limit)
    ensures var a, w := Align16(s), Align16(n);
            w < a + 32 && a + w + 2 * META + (if w == a + 16 then 32 else 0) <= limit
  {
    hide Align16;
  }

  /** How the space beside the two blocks can be used up so that the first one is not cut. */
  lemma LeftOver(a: nat, w: nat, limit: nat)
    requires a % 16 == 0 && w % 16 == 0 && limit % FRAME_SIZE == 0 && w < a + 32
    requires a + w + 2 * META + (if w == a + 16 then 32 else 0) <= limit
    ensures var r := limit - 2 * META - a - w;
            && (r >= 64 ==> (r - 48) % 16 == 0 && a + 24 > w)
            && (r == 48 ==> (w + 16) % 16 == 0 && a + 32 > w + 16)
            && (r < 64 && r != 48 ==> 0 <= r <= 32 && a + r > w)
  {
    var x, y, z := a / 16, w / 16, limit / FRAME_SIZE;
    assert a == 16 * x && w == 16 * y && limit == FRAME_SIZE * z;
    SixteenthsLeft(x, y, z);
  }

  /** The same of multiples. */
  lemma SixteenthsLeft(x: nat, y: nat, z: nat)
    requires y <= x + 1 && 16 * x + 16 * y + 48 + (if y == x + 1 then 32 else 0) <= 4096 * z
    ensures var r := 4096 * z - 48 - 16 * x - 16 * y;
            && (r >= 64 ==> (r - 48) % 16 == 0)
            && (r == 48 ==> (16 * y + 16) % 16 == 0 && 16 * x + 32 > 16 * y + 16)
            && (r < 64 && r != 48 ==> 0 <= r <= 32 && 16 * x + r > 16 * y)
  {
    var k, j := 256 * z - 3 - x - y, 128 * z - 2 - x;
    assert 4096 * z - 48 - 16 * x - 16 * y == 16 * k;
    assert y == x ==> k == 2 * j + 1;
    assert y == x + 1 ==> k == 2 * j;
    if k >= 3 {
      MultipleOf(16, k - 3);
    }
    MultipleOf(16, y + 1);
  }

  /**
   * Whether `realloc` from a request of `s` bytes to one of `n` bytes can copy beyond the new block, in a
   * heap of at most `limit` bytes, whatever happened before and between: exactly when the guard fails.
   */
  lemma ResizeIsSafe(s: nat, n: nat, limit: nat)
    requires s > 0 && n > 0 && limit % FRAME_SIZE == 0
    ensures MayOverrun(s, n, limit) <==> !SafeToResize(s, n, limit)
  {
    hide FreshHeap, TakesLess, SafeToResize, IsRun;
    if !SafeToResize(s, n, limit) {
      UnsafeOverruns(s, n, limit);
    }
    forall states, calls, t: nat, u: nat | HeapRun(states, calls, limit) && TakesLess(states, calls, t, u, s, n)
      ensures !SafeToResize(s, n, limit)
    {
      OverrunIsUnsafe(states, calls, t, u, s, n, limit);
    }
  }

  /** A growing buffer that overruns: from ten bytes to twenty, in a heap of one page. */
  lemma TenToTwenty()
    ensures MayOverrun(10, 20, FRAME_SIZE)
  {
    hide MayOverrun;
    ResizeIsSafe(10, 20, FRAME_SIZE);
  }
}
