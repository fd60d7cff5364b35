/**
 * The heap's block list as a value: what allocation, growth and freeing do to it, and the
 * laws they keep (kernel/mm/heap.cpp, without the bytes that represent the list).
 */
module Blocks {

  // sizeof(blockmeta_t): a size, a pointer and a bool, padded to eight bytes.
  const META: nat := 24

  // The smallest remainder worth a block of its own.
  const MIN_SPLIT: nat := 16

  /** One block: where its header starts, counted from the heap's start, and its payload size. */
  datatype Block = Block(at: nat, size: nat, free: bool) {
    function Payload(): nat { at + META }
    function End(): nat { at + META + size }
    predicate Fits(want: nat) { free && size >= want }
  }

  type BlockList = seq<Block>

  /** The next multiple of 16. */
  function Align16(x: nat): (r: nat)
    ensures r % 16 == 0 && x <= r < x + 16
    ensures x % 16 == 0 ==> r == x
  {
    (x + 15) / 16 * 16
  }

  // ---- The shape of the list ----

  /** The blocks lie end to end and fill [lo, hi). */
  ghost predicate Tiled(bs: BlockList, lo: nat, hi: nat) {
    && |bs| > 0 && bs[0].at == lo && bs[|bs| - 1].End() == hi
    && forall i :: 0 <= i < |bs| - 1 ==> bs[i + 1].at == bs[i].End()
  }

  /** No two neighbours are both free. */
  ghost predicate Canonical(bs: BlockList) {
    forall i :: 0 <= i < |bs| - 1 ==> !(bs[i].free && bs[i + 1].free)
  }

  /** The blocks in use, in address order. */
  function InUse(bs: BlockList): BlockList {
    if bs == [] then []
    else if bs[0].free then InUse(bs[1..])
    else [bs[0]] + InUse(bs[1..])
  }

  /** Bytes of payload and header together. */
  function TotalSize(bs: BlockList): nat {
    if bs == [] then 0 else META + bs[0].size + TotalSize(bs[1..])
  }

  lemma {:induction false} TiledOrder(bs: BlockList, lo: nat, hi: nat, i: nat, j: nat)
    requires Tiled(bs, lo, hi) && i < j < |bs|
    ensures bs[i].End() <= bs[j].at
  {
    if i < j - 1 {
      TiledOrder(bs, lo, hi, i, j - 1);
    }
  }

  lemma TiledBounds(bs: BlockList, lo: nat, hi: nat, i: nat)
    requires Tiled(bs, lo, hi) && i < |bs|
    ensures lo <= bs[i].at && bs[i].End() <= hi
  {
    if i > 0 {
      TiledOrder(bs, lo, hi, 0, i);
    }
    if i < |bs| - 1 {
      TiledOrder(bs, lo, hi, i, |bs| - 1);
    }
  }

  /** The heap is exactly its blocks. */
  lemma {:induction false} TiledTotal(bs: BlockList, lo: nat, hi: nat)
    requires Tiled(bs, lo, hi)
    ensures TotalSize(bs) == hi - lo
  {
    if |bs| > 1 {
      assert bs[1].at == bs[0].End();
      TiledTotal(bs[1..], bs[1].at, hi);
    } else {
      assert bs[1..] == [];
    }
  }

  lemma {:induction false} InUseAppend(a: BlockList, b: BlockList)
    ensures InUse(a + b) == InUse(a) + InUse(b)
  {
    if a == [] {
      assert a + b == b;
    } else {
      assert (a + b)[1..] == a[1..] + b;
      InUseAppend(a[1..], b);
    }
  }

  lemma {:induction false} InUseMember(bs: BlockList, b: Block)
    ensures b in InUse(bs) <==> b in bs && !b.free
  {
    if bs != [] {
      InUseMember(bs[1..], b);
      assert bs == [bs[0]] + bs[1..];
    }
  }

  // ---- Allocation ----

  /** The block the search stops at. */
  ghost predicate FirstFit(bs: BlockList, i: nat, want: nat) {
    i < |bs| && bs[i].Fits(want) && forall j :: 0 <= j < i ==> !bs[j].Fits(want)
  }

  ghost predicate NoFit(bs: BlockList, want: nat) {
    forall j :: 0 <= j < |bs| ==> !bs[j].Fits(want)
  }

  /** Block `b` cut so that `want` bytes stay, when the rest can be a block. */
  function Cut(b: Block, want: nat): BlockList
    requires b.size >= want
  {
    if b.size < want + META + MIN_SPLIT then [b]
    else [b.(size := want), Block(b.at + META + want, b.size - want - META, true)]
  }

  function Split(bs: BlockList, i: nat, want: nat): BlockList
    requires i < |bs| && bs[i].size >= want
  {
    bs[..i] + Cut(bs[i], want) + bs[i + 1..]
  }

  /** The list after block `i` was split and taken. */
  function Take(bs: BlockList, i: nat, want: nat): (r: BlockList)
    requires i < |bs| && bs[i].size >= want
    ensures |r| > i
  {
    var s := Split(bs, i, want);
    s[i := s[i].(free := false)]
  }

  /** The list after growth by `bytes` bytes. */
  function Grow(bs: BlockList, end: nat, bytes: nat): BlockList
    requires bytes >= META
  {
    bs + [Block(end, bytes - META, true)]
  }

  // ---- Freeing ----

  function Merge(a: Block, b: Block): Block {
    Block(a.at, a.size + META + b.size, a.free)
  }

  /** The one pass `free` makes: it merges by list order alone. */
  function Coalesce(bs: BlockList): (r: BlockList)
    decreases |bs|
  {
    if |bs| <= 1 then bs
    else if bs[0].free && bs[1].free then Coalesce([Merge(bs[0], bs[1])] + bs[2..])
    else [bs[0]] + Coalesce(bs[1..])
  }

  function Release(bs: BlockList, i: nat): BlockList
    requires i < |bs|
  {
    Coalesce(bs[i := bs[i].(free := true)])
  }

  // ---- Laws of one step ----

  lemma {:induction false} CoalesceTiled(bs: BlockList, lo: nat, hi: nat)
    requires Tiled(bs, lo, hi)
    ensures Tiled(Coalesce(bs), lo, hi)
    decreases |bs|
  {
    if |bs| > 1 {
      assert bs[1].at == bs[0].End();
      if bs[0].free && bs[1].free {
        CoalesceTiled([Merge(bs[0], bs[1])] + bs[2..], lo, hi);
      } else {
        CoalesceTiled(bs[1..], bs[1].at, hi);
      }
    }
  }

  lemma {:induction false} CoalesceHead(bs: BlockList)
    requires bs != []
    ensures Coalesce(bs) != [] && Coalesce(bs)[0].free == bs[0].free
    decreases |bs|
  {
    if |bs| > 1 && bs[0].free && bs[1].free {
      CoalesceHead([Merge(bs[0], bs[1])] + bs[2..]);
    }
  }

  lemma {:induction false} CoalesceCanonical(bs: BlockList)
    ensures Canonical(Coalesce(bs))
    decreases |bs|
  {
    if |bs| > 1 {
      if bs[0].free && bs[1].free {
        CoalesceCanonical([Merge(bs[0], bs[1])] + bs[2..]);
      } else {
        CoalesceCanonical(bs[1..]);
        CoalesceHead(bs[1..]);
      }
    }
  }

  /** Merging never touches a block in use. */
  lemma {:induction false} CoalesceInUse(bs: BlockList)
    ensures InUse(Coalesce(bs)) == InUse(bs)
    decreases |bs|
  {
    if |bs| > 1 {
      if bs[0].free && bs[1].free {
        var m := [Merge(bs[0], bs[1])] + bs[2..];
        CoalesceInUse(m);
        assert m[1..] == bs[2..] && bs[1..][1..] == bs[2..];
      } else {
        CoalesceInUse(bs[1..]);
        assert ([bs[0]] + Coalesce(bs[1..]))[1..] == Coalesce(bs[1..]);
      }
    }
  }

  lemma {:induction false} CoalesceCanonicalIsSame(bs: BlockList)
    requires Canonical(bs)
    ensures Coalesce(bs) == bs
    decreases |bs|
  {
    if |bs| > 1 {
      CoalesceCanonicalIsSame(bs[1..]);
      assert bs == [bs[0]] + bs[1..];
    }
  }

  /** A canonical beginning whose last block cannot merge on stays as it is. */
  lemma {:induction false} CoalesceAfter(a: BlockList, b: BlockList)
    requires Canonical(a) && b != []
    requires a == [] || !(a[|a| - 1].free && b[0].free)
    ensures Coalesce(a + b) == a + Coalesce(b)
  {
    if a == [] {
      assert a + b == b && a + Coalesce(b) == Coalesce(b);
    } else {
      assert (a + b)[1..] == a[1..] + b;
      CoalesceAfter(a[1..], b);
      assert a + Coalesce(b) == [a[0]] + (a[1..] + Coalesce(b));
    }
  }

  lemma CutMerges(b: Block, want: nat, rest: BlockList)
    requires b.free && b.size >= want
    ensures Coalesce(Cut(b, want) + rest) == Coalesce([b] + rest)
  {
    if b.size >= want + META + MIN_SPLIT {
      var c := Cut(b, want);
      assert Merge(c[0], c[1]) == b;
      assert (c + rest)[2..] == rest;
    }
  }

  /** The pieces block `b` becomes when it is split and taken. */
  function Taken(b: Block, want: nat): (r: BlockList)
    requires b.size >= want
    ensures r != [] && !r[0].free && |r| <= 2 && (|r| == 2 ==> r[1].free)
  {
    Cut(b, want)[0 := Cut(b, want)[0].(free := false)]
  }

  lemma TakeParts(bs: BlockList, i: nat, want: nat)
    requires i < |bs| && bs[i].size >= want
    ensures Take(bs, i, want) == bs[..i] + Taken(bs[i], want) + bs[i + 1..]
    ensures Take(bs, i, want)[i] == Taken(bs[i], want)[0]
  {}

  /** Freeing what was just allocated restores the list: the merges undo the split. */
  lemma ReleaseUndoesTake(bs: BlockList, i: nat, want: nat)
    requires Canonical(bs) && i < |bs| && bs[i].Fits(want)
    ensures Release(Take(bs, i, want), i) == bs
  {
    hide Coalesce, Cut;
    var a, b, c := bs[..i], bs[i], bs[i + 1..];
    TakenBack(bs, i, want);
    CoalesceAfter(a, Cut(b, want) + c);
    CutMerges(b, want, c);
    assert bs == a + ([b] + c);
    CoalesceCanonicalIsSame([b] + c);
  }

  /** Marking the taken block free again leaves the split list. */
  lemma TakenBack(bs: BlockList, i: nat, want: nat)
    requires i < |bs| && bs[i].Fits(want)
    ensures Release(Take(bs, i, want), i) == Coalesce(bs[..i] + (Cut(bs[i], want) + bs[i + 1..]))
    ensures Cut(bs[i], want) != [] && Cut(bs[i], want)[0].free
  {
    hide Coalesce;
    var t := Take(bs, i, want);
    TakeParts(bs, i, want);
    assert t[i := t[i].(free := true)] == bs[..i] + (Cut(bs[i], want) + bs[i + 1..]);
  }

  lemma CoalesceUnfold(bs: BlockList)
    requires |bs| > 1
    ensures Coalesce(bs) == if bs[0].free && bs[1].free then Coalesce([Merge(bs[0], bs[1])] + bs[2..])
                            else [bs[0]] + Coalesce(bs[1..])
  {}

  /** Two free neighbours may as well be merged before the pass. */
  lemma {:induction false} MergedFirst(a: BlockList, x: Block, y: Block, rest: BlockList)
    requires x.free && y.free
    ensures Coalesce(a + ([x, y] + rest)) == Coalesce(a + ([Merge(x, y)] + rest))
    decreases |a|
  {
    hide Coalesce, Merge;
    var m := Merge(x, y);
    var l, r := a + ([x, y] + rest), a + ([m] + rest);
    MergeFree(x, y);
    if a == [] {
      assert l == [x, y] + rest && r == [m] + rest && l[2..] == rest;
      CoalesceUnfold(l);
    } else if |a| == 1 {
      MergedSecond(a[0], x, y, rest);
      assert l == [a[0], x, y] + rest && r == [a[0], m] + rest;
    } else {
      FirstTwo(a, [x, y] + rest);
      FirstTwo(a, [m] + rest);
      CoalesceUnfold(l);
      CoalesceUnfold(r);
      if a[0].free && a[1].free {
        MergedFirst([Merge(a[0], a[1])] + a[2..], x, y, rest);
      } else {
        MergedFirst(a[1..], x, y, rest);
      }
    }
  }

  /** Taking the first blocks off a list that begins with `a`. */
  lemma FirstTwo(a: BlockList, t: BlockList)
    requires |a| > 1
    ensures (a + t)[0] == a[0] && (a + t)[1] == a[1] && (a + t)[1..] == a[1..] + t
    ensures forall m :: [m] + (a + t)[2..] == ([m] + a[2..]) + t
  {}

  lemma MergeFree(a: Block, b: Block)
    ensures Merge(a, b).free == a.free
  {}

  lemma MergedSecond(z: Block, x: Block, y: Block, rest: BlockList)
    requires x.free && y.free
    ensures Coalesce([z, x, y] + rest) == Coalesce([z, Merge(x, y)] + rest)
  {
    var m := Merge(x, y);
    var l, r := [z, x, y] + rest, [z, m] + rest;
    assert l[2..] == [y] + rest && r[2..] == rest;
    if z.free {
      var zx := [Merge(z, x)] + l[2..];
      assert zx[2..] == rest;
      assert Coalesce(zx) == Coalesce([Merge(Merge(z, x), y)] + rest);
    } else {
      assert l[1..] == [x, y] + rest && r[1..] == [m] + rest;
      assert l[1..][2..] == rest;
    }
  }

  /** Allocating in a heap that had to grow, and freeing, leaves the grown heap with its free tail merged. */
  lemma ReleaseUndoesGrowth(bs: BlockList, end: nat, bytes: nat, want: nat)
    requires bytes >= META + want
    ensures Release(Take(Grow(bs, end, bytes), |bs|, want), |bs|) == Coalesce(Grow(bs, end, bytes))
  {
    hide Coalesce, Cut;
    var g := Grow(bs, end, bytes);
    var b := g[|bs|];
    TakenBack(g, |bs|, want);
    assert g[..|bs|] == bs && g[|bs| + 1..] == [];
    CutFree(b, want);
    if Cut(b, want) == [b] {
      assert bs + ([b] + []) == g;
    } else {
      MergedFirst(bs, Cut(b, want)[0], Cut(b, want)[1], []);
      assert bs + ([b] + []) == g;
    }
  }

  lemma CutFree(b: Block, want: nat)
    requires b.Fits(want)
    ensures Cut(b, want) == [b]
            || (|Cut(b, want)| == 2 && Cut(b, want) == [Cut(b, want)[0], Cut(b, want)[1]]
                && Cut(b, want)[0].free && Cut(b, want)[1].free
                && Merge(Cut(b, want)[0], Cut(b, want)[1]) == b)
  {}

  lemma TakeTiled(bs: BlockList, lo: nat, hi: nat, i: nat, want: nat)
    requires Tiled(bs, lo, hi) && i < |bs| && bs[i].size >= want
    ensures Tiled(Take(bs, i, want), lo, hi)
  {}

  lemma TakeCanonical(bs: BlockList, i: nat, want: nat)
    requires Canonical(bs) && i < |bs| && bs[i].Fits(want)
    ensures Canonical(Take(bs, i, want))
  {}

  lemma InUseAround(a: BlockList, m: BlockList, c: BlockList)
    ensures InUse(a + m + c) == InUse(a) + InUse(m) + InUse(c)
  {
    InUseAppend(a + m, c);
    InUseAppend(a, m);
  }

  lemma InUseFew(b: Block, c: Block)
    ensures InUse([b]) == if b.free then [] else [b]
    ensures c.free ==> InUse([b, c]) == InUse([b])
  {
    assert [b][1..] == [] && [b, c][1..] == [c] && [c][1..] == [];
  }

  /** Allocation adds exactly one block to those in use. */
  lemma TakeInUse(bs: BlockList, i: nat, want: nat)
    requires i < |bs| && bs[i].Fits(want)
    ensures InUse(bs) == InUse(bs[..i]) + InUse(bs[i + 1..])
    ensures InUse(Take(bs, i, want)) == InUse(bs[..i]) + [Take(bs, i, want)[i]] + InUse(bs[i + 1..])
  {
    hide InUse, Take, Taken;
    var a, b, c := bs[..i], bs[i], bs[i + 1..];
    var taken := Taken(b, want);
    assert bs == a + [b] + c;
    InUseAround(a, [b], c);
    InUseFew(b, b);
    TakeParts(bs, i, want);
    InUseAround(a, taken, c);
    if |taken| == 1 {
      assert taken == [taken[0]];
      InUseFew(taken[0], b);
    } else {
      assert taken == [taken[0], taken[1]];
      InUseFew(taken[0], taken[1]);
    }
  }

  /** Freeing removes exactly that block from those in use. */
  lemma ReleaseInUse(bs: BlockList, i: nat)
    requires i < |bs| && !bs[i].free
    ensures InUse(bs) == InUse(bs[..i]) + [bs[i]] + InUse(bs[i + 1..])
    ensures InUse(Release(bs, i)) == InUse(bs[..i]) + InUse(bs[i + 1..])
  {
    hide InUse, Coalesce;
    var a, b, c := bs[..i], bs[i], bs[i + 1..];
    var freed := b.(free := true);
    assert bs == a + [b] + c && bs[i := freed] == a + [freed] + c;
    InUseAround(a, [b], c);
    InUseAround(a, [freed], c);
    InUseFew(b, b);
    InUseFew(freed, b);
    CoalesceInUse(bs[i := freed]);
  }

  lemma ReleaseKeeps(bs: BlockList, lo: nat, hi: nat, i: nat)
    requires Tiled(bs, lo, hi) && i < |bs|
    ensures Tiled(Release(bs, i), lo, hi) && Canonical(Release(bs, i))
  {
    CoalesceTiled(bs[i := bs[i].(free := true)], lo, hi);
    CoalesceCanonical(bs[i := bs[i].(free := true)]);
  }

  /** Growing may put a free block after a free one; the allocation that asked for it mends that. */
  lemma GrowThenTake(bs: BlockList, lo: nat, hi: nat, bytes: nat, want: nat)
    requires Tiled(bs, lo, hi) && Canonical(bs) && NoFit(bs, want)
    requires bytes >= META && bytes - META >= want
    ensures FirstFit(Grow(bs, hi, bytes), |bs|, want)
    ensures Tiled(Grow(bs, hi, bytes), lo, hi + bytes)
    ensures Tiled(Take(Grow(bs, hi, bytes), |bs|, want), lo, hi + bytes)
    ensures Canonical(Take(Grow(bs, hi, bytes), |bs|, want))
  {
    var g := Grow(bs, hi, bytes);
    TakeTiled(g, lo, hi + bytes, |bs|, want);
  }

  lemma SplitAt(bs: BlockList, i: nat, want: nat)
    requires i < |bs| && bs[i].size >= want
    ensures |Split(bs, i, want)| > i && Split(bs, i, want)[i].at == bs[i].at
    ensures Split(bs, i, want)[i].free == bs[i].free
  {}

  lemma Neighbours(bs: BlockList, lo: nat, hi: nat, i: nat)
    requires Tiled(bs, lo, hi) && i + 1 < |bs|
    ensures bs[i + 1].at == bs[i].End() && bs[i + 1].End() <= hi
  {
    TiledBounds(bs, lo, hi, i + 1);
  }

  // ---- The merging pass, seen from the middle ----

  /** `bs` with blocks `i` and `i + 1` joined. */
  function Joined(bs: BlockList, i: nat): BlockList
    requires i + 1 < |bs|
  {
    bs[..i] + [Merge(bs[i], bs[i + 1])] + bs[i + 2..]
  }

  /** One step of the pass keeps what the whole pass gives. */
  lemma PassStep(bs: BlockList, i: nat)
    requires i + 1 < |bs|
    ensures bs[i].free && bs[i + 1].free ==>
              bs[..i] + Coalesce(bs[i..]) == Joined(bs, i)[..i] + Coalesce(Joined(bs, i)[i..])
              && |Joined(bs, i)| == |bs| - 1 && Joined(bs, i)[i].at == bs[i].at
    ensures !(bs[i].free && bs[i + 1].free) ==>
              bs[..i] + Coalesce(bs[i..]) == bs[..i + 1] + Coalesce(bs[i + 1..])
  {
    hide Coalesce, Merge, Joined;
    CoalesceUnfold(bs[i..]);
    if bs[i].free && bs[i + 1].free {
      JoinedParts(bs, i);
    } else {
      assert bs[i..][1..] == bs[i + 1..];
      assert bs[..i + 1] == bs[..i] + [bs[i]];
    }
  }

  lemma JoinedParts(bs: BlockList, i: nat)
    requires i + 1 < |bs|
    ensures |Joined(bs, i)| == |bs| - 1 && Joined(bs, i)[i].at == bs[i].at && Joined(bs, i)[..i] == bs[..i]
    ensures Joined(bs, i)[i..] == [Merge(bs[i..][0], bs[i..][1])] + bs[i..][2..]
  {}

  lemma PassEnd(bs: BlockList, i: nat)
    requires i + 1 == |bs|
    ensures bs[..i] + Coalesce(bs[i..]) == bs
  {
    assert bs[i..] == [bs[i]] && bs == bs[..i] + [bs[i]];
  }

  // ---- Whole runs ----

  /** What one public heap call can do to the list; `hi` is the heap's end before the call. */
  datatype Call =
    | Allocate(i: nat, want: nat)
    | GrowAndAllocate(bytes: nat, want: nat)
    | Free(i: nat)
    | Nothing

  /** A list with the end of the heap it tiles. */
  datatype Shape = Shape(list: BlockList, end: nat)

  ghost predicate Enabled(h: Shape, c: Call) {
    match c
    case Allocate(i, want) => FirstFit(h.list, i, want)
    case GrowAndAllocate(bytes, want) => NoFit(h.list, want) && bytes >= META + want
    case Free(i) => i < |h.list| && !h.list[i].free
    case Nothing => true
  }

  function After(h: Shape, c: Call): Shape
    requires Enabled(h, c)
  {
    match c
    case Allocate(i, want) => h.(list := Take(h.list, i, want))
    case GrowAndAllocate(bytes, want) =>
      Shape(Take(Grow(h.list, h.end, bytes), |h.list|, want), h.end + bytes)
    case Free(i) => h.(list := Release(h.list, i))
    case Nothing => h
  }

  ghost predicate Sound(h: Shape) {
    Tiled(h.list, 0, h.end) && Canonical(h.list)
  }

  lemma StepSound(h: Shape, c: Call)
    requires Sound(h) && Enabled(h, c)
    ensures Sound(After(h, c))
  {
    match c
    case Allocate(i, want) =>
      TakeTiled(h.list, 0, h.end, i, want);
      TakeCanonical(h.list, i, want);
    case GrowAndAllocate(bytes, want) => GrowThenTake(h.list, 0, h.end, bytes, want);
    case Free(i) => ReleaseKeeps(h.list, 0, h.end, i);
    case Nothing =>
  }

  /** `states` is a run of the heap that makes `calls` one after the other. */
  ghost predicate IsRun(states: seq<Shape>, calls: seq<Call>) {
    && |states| == |calls| + 1
    && forall k :: 0 <= k < |calls| ==> Enabled(states[k], calls[k]) && states[k + 1] == After(states[k], calls[k])
  }

  /** In every reachable state the blocks tile the heap and no two neighbours are free. */
  lemma {:induction false} RunSound(states: seq<Shape>, calls: seq<Call>, k: nat)
    requires IsRun(states, calls) && Sound(states[0]) && k < |states|
    ensures Sound(states[k])
  {
    if k > 0 {
      RunSound(states, calls, k - 1);
      StepSound(states[k - 1], calls[k - 1]);
    }
  }

  // ---- Alignment ----

  /** Headers, and with them payloads, are eight-byte aligned, and so are the sizes. */
  ghost predicate WordAligned(bs: BlockList) {
    forall b <- bs :: InWords(b.at, b.size)
  }

  predicate InWords(at: nat, size: nat) {
    at % 8 == 0 && size % 8 == 0 && (at + META) % 8 == 0
  }

  /** What the heap asks of itself: sizes rounded up to 16, growth in whole pages. */
  predicate Rounded(c: Call) {
    match c
    case Allocate(_, want) => want % 16 == 0
    case GrowAndAllocate(bytes, want) => want % 16 == 0 && bytes % 8 == 0
    case _ => true
  }

  lemma MergeAligned(a: Block, b: Block)
    ensures InWords(a.at, a.size) && InWords(b.at, b.size) ==> InWords(a.at, Merge(a, b).size)
  {
    var x, y, z := a.at / 8, a.size / 8, b.size / 8;
    if InWords(a.at, a.size) && InWords(b.at, b.size) {
      assert a.at == 8 * x && a.size == 8 * y && b.size == 8 * z;
      WordsIn(a.at, Merge(a, b).size, x, y + 3 + z);
    }
  }

  lemma {:induction false} CoalesceAligned(bs: BlockList)
    requires WordAligned(bs)
    ensures WordAligned(Coalesce(bs))
    decreases |bs|
  {
    hide InWords;
    if |bs| > 1 {
      MergeAligned(bs[0], bs[1]);
      CoalesceAligned(if bs[0].free && bs[1].free then [Merge(bs[0], bs[1])] + bs[2..] else bs[1..]);
    }
  }

  lemma TakeAligned(bs: BlockList, i: nat, want: nat)
    requires WordAligned(bs) && i < |bs| && bs[i].size >= want && want % 16 == 0
    ensures WordAligned(Take(bs, i, want))
  {
    hide InWords;
    assert bs[i] in bs;
    CutAligned(bs[i], want);
    SplitAligned(bs, i, want);
  }

  lemma CutAligned(b: Block, want: nat)
    requires InWords(b.at, b.size) && b.size >= want && want % 16 == 0
    ensures WordAligned(Cut(b, want))
  {
    var x, y, z := b.at / 8, b.size / 8, want / 16;
    assert b.at == 8 * x && b.size == 8 * y && want == 16 * z;
    if b.size >= want + META + MIN_SPLIT {
      WordsIn(b.at, want, x, 2 * z);
      WordsIn(b.at + META + want, b.size - want - META, x + 3 + 2 * z, y - 2 * z - 3);
    }
    hide InWords;
  }

  lemma WordsIn(at: nat, size: nat, x: nat, y: int)
    requires at == 8 * x && size == 8 * y
    ensures InWords(at, size)
  {
    assert at + META == 8 * (x + 3);
  }

  lemma SplitAligned(bs: BlockList, i: nat, want: nat)
    requires WordAligned(bs) && i < |bs| && bs[i].size >= want && WordAligned(Cut(bs[i], want))
    ensures WordAligned(Take(bs, i, want))
  {
    hide InWords;
    assert Split(bs, i, want)[i] in Split(bs, i, want);
  }

  lemma GrowAligned(bs: BlockList, end: nat, bytes: nat)
    requires WordAligned(bs) && end % 8 == 0 && bytes % 8 == 0 && bytes >= META
    ensures WordAligned(Grow(bs, end, bytes)) && (end + bytes) % 8 == 0
  {
    assert InWords(end, bytes - META);
  }

  lemma StepAligned(h: Shape, c: Call)
    requires Enabled(h, c) && Rounded(c) && WordAligned(h.list) && h.end % 8 == 0
    ensures WordAligned(After(h, c).list) && After(h, c).end % 8 == 0
  {
    hide WordAligned, Take, Grow, Coalesce, NoFit;
    match c
    case Allocate(i, want) => TakeAligned(h.list, i, want);
    case GrowAndAllocate(bytes, want) =>
      GrowAligned(h.list, h.end, bytes);
      GrownLast(h.list, h.end, bytes);
      TakeAligned(Grow(h.list, h.end, bytes), |h.list|, want);
    case Free(i) =>
      FreedAligned(h.list, i);
      CoalesceAligned(h.list[i := h.list[i].(free := true)]);
    case Nothing =>
  }

  lemma GrownLast(bs: BlockList, end: nat, bytes: nat)
    requires bytes >= META
    ensures |Grow(bs, end, bytes)| == |bs| + 1 && Grow(bs, end, bytes)[|bs|].size == bytes - META
  {}

  lemma FreedAligned(bs: BlockList, i: nat)
    requires WordAligned(bs) && i < |bs|
    ensures WordAligned(bs[i := bs[i].(free := true)])
  {
    assert bs[i] in bs;
  }

  /** In every reachable state payloads are eight-byte aligned (sixteen is not kept: headers take 24 bytes). */
  lemma {:induction false} RunAligned(states: seq<Shape>, calls: seq<Call>, k: nat)
    requires IsRun(states, calls) && (forall c <- calls :: Rounded(c)) && k < |states|
    requires WordAligned(states[0].list) && states[0].end % 8 == 0
    ensures WordAligned(states[k].list) && states[k].end % 8 == 0
  {
    hide WordAligned, After, Enabled;
    if k > 0 {
      RunAligned(states, calls, k - 1);
      assert calls[k - 1] in calls;
      StepAligned(states[k - 1], calls[k - 1]);
    }
  }

  // ---- Freeing everything ----

  ghost predicate InUseAt(bs: BlockList, at: nat) {
    exists i :: 0 <= i < |bs| && !bs[i].free && bs[i].at == at
  }

  /** Where the block in use at `at` stands. */
  ghost function IndexOf(bs: BlockList, at: nat): (i: nat)
    requires InUseAt(bs, at)
    ensures i < |bs| && !bs[i].free && bs[i].at == at
  {
    var i :| 0 <= i < |bs| && !bs[i].free && bs[i].at == at;
    i
  }

  /** `order` names every block in use, each once. */
  ghost predicate NamesAll(bs: BlockList, order: seq<nat>) {
    && (forall at :: at in order <==> InUseAt(bs, at))
    && (forall i, j :: 0 <= i < j < |order| ==> order[i] != order[j])
  }

  /** Freeing changes which addresses are in use by exactly the freed one. */
  lemma ReleaseFreesOne(bs: BlockList, lo: nat, hi: nat, i: nat, at: nat)
    requires Tiled(bs, lo, hi) && i < |bs| && !bs[i].free
    ensures InUseAt(Release(bs, i), at) <==> InUseAt(bs, at) && at != bs[i].at
  {
    ReleaseInUse(bs, i);
    ReleaseKeeps(bs, lo, hi, i);
    InUseAtMember(bs, at);
    InUseAtMember(Release(bs, i), at);
    forall b | b in InUse(bs[..i]) ensures b.at != bs[i].at && b in bs {
      InUseMember(bs[..i], b);
      var j :| 0 <= j < i && bs[j] == b;
      TiledOrder(bs, lo, hi, j, i);
    }
    forall b | b in InUse(bs[i + 1..]) ensures b.at != bs[i].at && b in bs {
      InUseMember(bs[i + 1..], b);
      var j :| i < j < |bs| && bs[j] == b;
      TiledOrder(bs, lo, hi, i, j);
    }
  }

  lemma InUseAtMember(bs: BlockList, at: nat)
    ensures InUseAt(bs, at) <==> exists b :: b in InUse(bs) && b.at == at
  {
    forall b ensures b in InUse(bs) <==> b in bs && !b.free {
      InUseMember(bs, b);
    }
    if InUseAt(bs, at) {
      assert bs[IndexOf(bs, at)] in InUse(bs);
    }
    if b :| b in InUse(bs) && b.at == at {
      var i :| 0 <= i < |bs| && bs[i] == b;
    }
  }

  /** The list after every block `order` names was freed, in that order. */
  ghost function FreeAll(bs: BlockList, order: seq<nat>): BlockList
    decreases |order|
  {
    if order == [] || !InUseAt(bs, order[0]) then bs
    else FreeAll(Release(bs, IndexOf(bs, order[0])), order[1..])
  }

  lemma TwoFreeNeighbours(bs: BlockList)
    requires |bs| > 1 && forall i :: 0 <= i < |bs| ==> bs[i].free
    ensures !Canonical(bs)
  {
    var first := 0;
    assert bs[first].free && bs[first + 1].free;
  }

  /** Freeing all live blocks, in any order, leaves one free block as large as the heap. */
  lemma {:induction false} FreeAllLeavesOne(bs: BlockList, hi: nat, order: seq<nat>)
    requires Tiled(bs, 0, hi) && Canonical(bs) && NamesAll(bs, order)
    ensures hi >= META && FreeAll(bs, order) == [Block(0, hi - META, true)]
    decreases |order|
  {
    if order == [] {
      forall i | 0 <= i < |bs| ensures bs[i].free {
        if !bs[i].free {
          assert InUseAt(bs, bs[i].at);
        }
      }
      if |bs| > 1 {
        TwoFreeNeighbours(bs);
      }
    } else {
      assert order[0] in order;
      var i := IndexOf(bs, order[0]);
      var r := Release(bs, i);
      ReleaseKeeps(bs, 0, hi, i);
      forall at ensures at in order[1..] <==> InUseAt(r, at) {
        ReleaseFreesOne(bs, 0, hi, i, at);
      }
      FreeAllLeavesOne(r, hi, order[1..]);
    }
  }
}
