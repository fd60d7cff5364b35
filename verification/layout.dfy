/**
 * The block list inside the heap's own memory: headers in front of the payloads they
 * describe, linked by absolute addresses.
 */
module Layout {
  import opened Powers
  import opened Bytes
  import opened Blocks

  /** blockmeta_t, as its bytes are read. */
  datatype Header = Header(size: nat, next: nat, free: bool)

  function HeaderAt(mem: seq<byte>, at: nat): Header
    requires at + META <= |mem|
  {
    Header(Load(mem, at, 8), Load(mem, at + 8, 8), mem[at + 16] != 0)
  }

  /** Fields are 64-bit values. */
  lemma HeaderBound(mem: seq<byte>, at: nat)
    requires at + META <= |mem|
    ensures HeaderAt(mem, at).size < 0x1_0000_0000_0000_0000 && HeaderAt(mem, at).next < 0x1_0000_0000_0000_0000
  {
    WordRange();
    EncodeDecode(mem[at..at + 8]);
    EncodeDecode(mem[at + 8..at + 8 + 8]);
  }

  /** The header block `i` of a list must have in a heap that starts at `start`. */
  function HeaderFor(start: nat, bs: BlockList, i: nat): Header
    requires i < |bs|
  {
    Header(bs[i].size, if i + 1 < |bs| then start + bs[i + 1].at else 0, bs[i].free)
  }

  /** The header of block `i` is in place. */
  ghost predicate HeaderOk(mem: seq<byte>, start: nat, bs: BlockList, i: nat)
    requires i < |bs|
  {
    bs[i].at + META <= |mem| && HeaderAt(mem, bs[i].at) == HeaderFor(start, bs, i)
  }

  /** The first `hi` bytes of memory are exactly the list. */
  ghost predicate Holds(mem: seq<byte>, start: nat, bs: BlockList, hi: nat) {
    Tiled(bs, 0, hi) && hi <= |mem| && forall i :: 0 <= i < |bs| ==> HeaderOk(mem, start, bs, i)
  }

  function Content(mem: seq<byte>, b: Block): seq<byte>
    requires b.End() <= |mem|
  {
    mem[b.Payload()..b.End()]
  }

  /** The payload of `b` begins with bytes `s`. */
  ghost predicate Begins(mem: seq<byte>, b: Block, s: seq<byte>) {
    b.End() <= |mem| && s <= Content(mem, b)
  }

  /** Block `b` is in use in both lists, and its payload has the same bytes in both memories. */
  ghost predicate Preserved(mem: seq<byte>, mem': seq<byte>, bs': BlockList, b: Block) {
    b in bs' && b.End() <= |mem| && b.End() <= |mem'| && Content(mem', b) == Content(mem, b)
  }

  /** Every block in use stays where it is with its payload untouched. */
  ghost predicate LivePreserved(mem: seq<byte>, bs: BlockList, mem': seq<byte>, bs': BlockList) {
    forall b :: b in bs && !b.free ==> Preserved(mem, mem', bs', b)
  }

  /** Nothing outside [lo, hi) changed. */
  ghost predicate OnlyWithin(mem: seq<byte>, mem': seq<byte>, lo: nat, hi: nat) {
    && |mem'| == |mem|
    && forall x {:trigger mem'[x]} :: 0 <= x < |mem| && !(lo <= x < hi) ==> mem'[x] == mem[x]
  }

  lemma HeaderDepends(mem: seq<byte>, mem': seq<byte>, at: nat)
    requires at + META <= |mem| && at + META <= |mem'|
    requires forall x {:trigger mem'[x]} :: at <= x < at + META ==> mem'[x] == mem[x]
    ensures HeaderAt(mem', at) == HeaderAt(mem, at)
  {
    LoadDepends(mem', mem, at, 8);
    LoadDepends(mem', mem, at + 8, 8);
    assert mem'[at + 16] == mem[at + 16];
  }

  // ---- The three stores ----

  lemma StoreSize(mem: seq<byte>, at: nat, v: nat)
    requires at + META <= |mem| && v < Pow(256, 8)
    ensures HeaderAt(Patch(mem, at, Encode(v, 8)), at) == HeaderAt(mem, at).(size := v)
    ensures OnlyWithin(mem, Patch(mem, at, Encode(v, 8)), at, at + META)
  {
    var mem' := Patch(mem, at, Encode(v, 8));
    LoadPatchSame(mem, at, v, 8);
    LoadDepends(mem', mem, at + 8, 8);
    assert mem'[at + 16] == mem[at + 16];
  }

  lemma StoreNext(mem: seq<byte>, at: nat, v: nat)
    requires at + META <= |mem| && v < Pow(256, 8)
    ensures HeaderAt(Patch(mem, at + 8, Encode(v, 8)), at) == HeaderAt(mem, at).(next := v)
    ensures OnlyWithin(mem, Patch(mem, at + 8, Encode(v, 8)), at, at + META)
  {
    var mem' := Patch(mem, at + 8, Encode(v, 8));
    LoadPatchSame(mem, at + 8, v, 8);
    LoadDepends(mem', mem, at, 8);
    assert mem'[at + 16] == mem[at + 16];
  }

  lemma StoreFree(mem: seq<byte>, at: nat, free: bool)
    requires at + META <= |mem|
    ensures HeaderAt(Patch(mem, at + 16, [if free then 1 else 0]), at) == HeaderAt(mem, at).(free := free)
    ensures OnlyWithin(mem, Patch(mem, at + 16, [if free then 1 else 0]), at, at + META)
  {
    var mem' := Patch(mem, at + 16, [if free then 1 else 0]);
    LoadDepends(mem', mem, at, 8);
    LoadDepends(mem', mem, at + 8, 8);
  }

  // ---- Replacing blocks ----

  /** `bs` with the `k` blocks from `i` on replaced by `put`. */
  function Replace(bs: BlockList, i: nat, k: nat, put: BlockList): BlockList
    requires i + k <= |bs|
  {
    bs[..i] + put + bs[i + k..]
  }

  /** `put` fills the same place as the `k` blocks it replaces. */
  ghost predicate SamePlace(bs: BlockList, i: nat, k: nat, put: BlockList) {
    && k > 0 && i + k <= |bs|
    && Tiled(put, bs[i].at, bs[i + k - 1].End())
  }

  lemma ReplaceTiled(bs: BlockList, lo: nat, hi: nat, i: nat, k: nat, put: BlockList)
    requires Tiled(bs, lo, hi) && SamePlace(bs, i, k, put)
    ensures Tiled(Replace(bs, i, k, put), lo, hi)
  {}

  lemma ReplaceIndex(bs: BlockList, i: nat, k: nat, put: BlockList)
    requires i + k <= |bs|
    ensures |Replace(bs, i, k, put)| == |bs| - k + |put|
    ensures forall j :: 0 <= j < i ==> Replace(bs, i, k, put)[j] == bs[j]
    ensures forall j :: 0 <= j < |put| ==> Replace(bs, i, k, put)[i + j] == put[j]
    ensures forall j :: i + k <= j < |bs| ==> Replace(bs, i, k, put)[j - k + |put|] == bs[j]
  {}

  /** A block outside the written range keeps its header and its payload. */
  lemma OutsideKept(mem: seq<byte>, mem': seq<byte>, b: Block, lo: nat, hi: nat)
    requires OnlyWithin(mem, mem', lo, hi) && b.End() <= |mem| && (b.End() <= lo || hi <= b.at)
    ensures HeaderAt(mem', b.at) == HeaderAt(mem, b.at)
    ensures Content(mem', b) == Content(mem, b)
  {
    HeaderDepends(mem, mem', b.at);
  }

  /** Blocks on either side of the replaced ones lie outside their place. */
  lemma SidesOutside(bs: BlockList, hi: nat, i: nat, k: nat, j: nat)
    requires Tiled(bs, 0, hi) && k > 0 && i + k <= |bs| && j < |bs| && !(i <= j < i + k)
    ensures bs[j].End() <= hi && (bs[j].End() <= bs[i].at || bs[i + k - 1].End() <= bs[j].at)
  {
    TiledBounds(bs, 0, hi, j);
    if j < i {
      TiledOrder(bs, 0, hi, j, i);
    } else {
      TiledOrder(bs, 0, hi, i + k - 1, j);
    }
  }

  lemma HeaderForBefore(start: nat, bs: BlockList, i: nat, k: nat, put: BlockList, j: nat)
    requires k > 0 && i + k <= |bs| && put != [] && put[0].at == bs[i].at && j < i
    ensures |Replace(bs, i, k, put)| > j && Replace(bs, i, k, put)[j] == bs[j]
    ensures HeaderFor(start, Replace(bs, i, k, put), j) == HeaderFor(start, bs, j)
  {
    hide Replace;
    ReplaceIndex(bs, i, k, put);
    if j + 1 == i {
      assert Replace(bs, i, k, put)[i + 0] == put[0];
    }
  }

  lemma HeaderForAfter(start: nat, bs: BlockList, i: nat, k: nat, put: BlockList, j: nat)
    requires i + k <= j < |bs|
    ensures |Replace(bs, i, k, put)| > j - k + |put| && Replace(bs, i, k, put)[j - k + |put|] == bs[j]
    ensures HeaderFor(start, Replace(bs, i, k, put), j - k + |put|) == HeaderFor(start, bs, j)
  {
    hide Replace;
    ReplaceIndex(bs, i, k, put);
    if j + 1 < |bs| {
      assert Replace(bs, i, k, put)[j + 1 - k + |put|] == bs[j + 1];
    }
  }

  /** Headers written inside the replaced blocks' place make memory hold the new list. */
  lemma ReplaceHolds(mem: seq<byte>, mem': seq<byte>, start: nat, bs: BlockList, hi: nat, i: nat, k: nat, put: BlockList)
    requires Holds(mem, start, bs, hi) && SamePlace(bs, i, k, put)
    requires OnlyWithin(mem, mem', bs[i].at, bs[i + k - 1].End())
    requires forall j :: i <= j < i + |put| ==> HeaderOk(mem', start, Replace(bs, i, k, put), j)
    ensures Holds(mem', start, Replace(bs, i, k, put), hi)
  {
    var r := Replace(bs, i, k, put);
    ReplaceTiled(bs, 0, hi, i, k, put);
    assert |mem'| == |mem| && put != [] && put[0].at == bs[i].at;
    hide HeaderAt, HeaderFor, HeaderOk, Replace, OnlyWithin, Tiled, Content;
    ReplaceIndex(bs, i, k, put);
    forall j | 0 <= j < |r| ensures HeaderOk(mem', start, r, j) {
      if j < i {
        SidesOutside(bs, hi, i, k, j);
        HeaderForBefore(start, bs, i, k, put, j);
        HeaderMoves(mem, mem', start, bs, j, r, j, bs[i].at, bs[i + k - 1].End());
      } else if j >= i + |put| {
        var o := j - |put| + k;
        SidesOutside(bs, hi, i, k, o);
        HeaderForAfter(start, bs, i, k, put, o);
        HeaderMoves(mem, mem', start, bs, o, r, j, bs[i].at, bs[i + k - 1].End());
      }
    }
  }

  lemma HeaderMoves(mem: seq<byte>, mem': seq<byte>, start: nat, bs: BlockList, o: nat, r: BlockList, j: nat, lo: nat, hi: nat)
    requires OnlyWithin(mem, mem', lo, hi) && o < |bs| && j < |r| && r[j] == bs[o]
    requires HeaderOk(mem, start, bs, o) && HeaderFor(start, r, j) == HeaderFor(start, bs, o)
    requires bs[o].End() <= |mem| && (bs[o].End() <= lo || hi <= bs[o].at)
    ensures HeaderOk(mem', start, r, j)
  {
    OutsideKept(mem, mem', bs[o], lo, hi);
  }

  /** Blocks outside the replaced ones keep their payload. */
  lemma ReplaceContent(mem: seq<byte>, mem': seq<byte>, start: nat, bs: BlockList, hi: nat, i: nat, k: nat, put: BlockList, j: nat)
    requires Holds(mem, start, bs, hi) && SamePlace(bs, i, k, put)
    requires OnlyWithin(mem, mem', bs[i].at, bs[i + k - 1].End())
    requires j < |bs| && !(i <= j < i + k)
    ensures Preserved(mem, mem', Replace(bs, i, k, put), bs[j])
  {
    assert |mem'| == |mem|;
    hide HeaderAt, HeaderFor, Replace, OnlyWithin, Tiled, Content;
    ReplaceIndex(bs, i, k, put);
    SidesOutside(bs, hi, i, k, j);
    OutsideKept(mem, mem', bs[j], bs[i].at, bs[i + k - 1].End());
    assert bs[j] == Replace(bs, i, k, put)[if j < i then j else j - k + |put|];
  }

  lemma ReplaceLive(mem: seq<byte>, mem': seq<byte>, start: nat, bs: BlockList, hi: nat, i: nat, k: nat, put: BlockList)
    requires Holds(mem, start, bs, hi) && SamePlace(bs, i, k, put)
    requires OnlyWithin(mem, mem', bs[i].at, bs[i + k - 1].End())
    requires forall j :: i <= j < i + k ==> bs[j].free
    ensures LivePreserved(mem, bs, mem', Replace(bs, i, k, put))
  {
    forall b | b in bs && !b.free ensures Preserved(mem, mem', Replace(bs, i, k, put), b) {
      var j :| 0 <= j < |bs| && bs[j] == b;
      ReplaceContent(mem, mem', start, bs, hi, i, k, put, j);
    }
  }

  lemma LiveTwice(m0: seq<byte>, b0: BlockList, m1: seq<byte>, b1: BlockList, m2: seq<byte>, b2: BlockList)
    requires LivePreserved(m0, b0, m1, b1) && LivePreserved(m1, b1, m2, b2)
    ensures LivePreserved(m0, b0, m2, b2)
  {
    forall b | b in b0 && !b.free ensures Preserved(m0, m2, b2, b) {
      assert Preserved(m0, m1, b1, b) && Preserved(m1, m2, b2, b);
    }
  }

  lemma LiveSame(mem: seq<byte>, start: nat, bs: BlockList, hi: nat)
    requires Holds(mem, start, bs, hi)
    ensures LivePreserved(mem, bs, mem, bs)
  {
    forall b | b in bs ensures b.End() <= |mem| {
      var j :| 0 <= j < |bs| && bs[j] == b;
      TiledBounds(bs, 0, hi, j);
    }
  }

  // ---- Several stores in a row ----

  lemma WithinWider(m0: seq<byte>, m1: seq<byte>, lo: nat, hi: nat, lo': nat, hi': nat)
    requires OnlyWithin(m0, m1, lo, hi) && lo' <= lo && hi <= hi'
    ensures OnlyWithin(m0, m1, lo', hi')
  {}

  /** Stores into one header leave another one alone. */
  lemma OtherHeader(m0: seq<byte>, m1: seq<byte>, a: nat, b: nat)
    requires OnlyWithin(m0, m1, a, a + META) && b + META <= |m0| && (a + META <= b || b + META <= a)
    ensures HeaderAt(m1, b) == HeaderAt(m0, b)
  {
    HeaderDepends(m0, m1, b);
  }

  // ---- What each operation leaves in memory ----

  lemma CutTiles(b: Block, want: nat)
    requires b.size >= want
    ensures Tiled(Cut(b, want), b.at, b.End())
  {}

  lemma NoSplit(mem: seq<byte>, start: nat, bs: BlockList, hi: nat, i: nat, want: nat)
    requires Holds(mem, start, bs, hi) && i < |bs| && want <= bs[i].size < want + META + MIN_SPLIT
    ensures Split(bs, i, want) == bs && LivePreserved(mem, bs, mem, bs)
  {
    LiveSame(mem, start, bs, hi);
    assert bs == bs[..i] + [bs[i]] + bs[i + 1..];
  }

  /** After the five stores of a split. */
  lemma SplitHolds(mem: seq<byte>, mem': seq<byte>, start: nat, bs: BlockList, hi: nat, i: nat, want: nat)
    requires Holds(mem, start, bs, hi) && i < |bs| && bs[i].free && bs[i].size >= want + META + MIN_SPLIT
    requires OnlyWithin(mem, mem', bs[i].at, bs[i].End())
    requires bs[i].End() <= |mem|
    requires HeaderAt(mem', bs[i].at) == HeaderAt(mem, bs[i].at).(size := want, next := start + bs[i].Payload() + want)
    requires HeaderAt(mem', bs[i].Payload() + want)
          == Header(bs[i].size - want - META, HeaderAt(mem, bs[i].at).next, true)
    ensures Holds(mem', start, Split(bs, i, want), hi)
    ensures LivePreserved(mem, bs, mem', Split(bs, i, want))
  {
    var put := Cut(bs[i], want);
    CutTiles(bs[i], want);
    assert Split(bs, i, want) == Replace(bs, i, 1, put);
    assert HeaderOk(mem, start, bs, i);
    forall j | i <= j < i + |put| ensures HeaderOk(mem', start, Replace(bs, i, 1, put), j) {
      ReplaceIndex(bs, i, 1, put);
      if j == i {
        assert Replace(bs, i, 1, put)[i + 0] == put[0] && Replace(bs, i, 1, put)[i + 1] == put[1];
      } else {
        assert Replace(bs, i, 1, put)[i + 1] == put[1];
        if i + 1 < |bs| {
          assert Replace(bs, i, 1, put)[i + 1 - 1 + |put|] == bs[i + 1];
        }
      }
    }
    ReplaceHolds(mem, mem', start, bs, hi, i, 1, put);
    ReplaceLive(mem, mem', start, bs, hi, i, 1, put);
  }

  /** After the free mark of block `i` was stored. */
  lemma MarkHolds(mem: seq<byte>, mem': seq<byte>, start: nat, bs: BlockList, hi: nat, i: nat, free: bool)
    requires Holds(mem, start, bs, hi) && i < |bs| && bs[i].End() <= |mem|
    requires OnlyWithin(mem, mem', bs[i].at, bs[i].at + META)
    requires HeaderAt(mem', bs[i].at) == HeaderAt(mem, bs[i].at).(free := free)
    ensures Holds(mem', start, bs[i := bs[i].(free := free)], hi)
    ensures forall j :: 0 <= j < |bs| && j != i ==> Preserved(mem, mem', bs[i := bs[i].(free := free)], bs[j])
  {
    var b := bs[i].(free := free);
    var put := [b];
    assert bs[i := b] == Replace(bs, i, 1, put);
    assert HeaderOk(mem, start, bs, i);
    WithinWider(mem, mem', bs[i].at, bs[i].at + META, bs[i].at, bs[i].End());
    assert HeaderOk(mem', start, bs[i := b], i);
    ReplaceHolds(mem, mem', start, bs, hi, i, 1, put);
    forall j | 0 <= j < |bs| && j != i ensures Preserved(mem, mem', bs[i := b], bs[j]) {
      ReplaceContent(mem, mem', start, bs, hi, i, 1, put, j);
    }
  }

  /** After the two stores of a merge. */
  lemma MergeHolds(mem: seq<byte>, mem': seq<byte>, start: nat, bs: BlockList, hi: nat, i: nat)
    requires Holds(mem, start, bs, hi) && i + 1 < |bs| && bs[i].free && bs[i + 1].free && bs[i].End() <= |mem|
    requires bs[i + 1].at + META <= |mem|
    requires OnlyWithin(mem, mem', bs[i].at, bs[i].at + META)
    requires HeaderAt(mem', bs[i].at) == Header(bs[i].size + META + bs[i + 1].size, HeaderAt(mem, bs[i + 1].at).next, true)
    ensures Holds(mem', start, Replace(bs, i, 2, [Merge(bs[i], bs[i + 1])]), hi)
    ensures LivePreserved(mem, bs, mem', Replace(bs, i, 2, [Merge(bs[i], bs[i + 1])]))
  {
    var put := [Merge(bs[i], bs[i + 1])];
    var r := Replace(bs, i, 2, put);
    assert HeaderOk(mem, start, bs, i) && HeaderOk(mem, start, bs, i + 1);
    WithinWider(mem, mem', bs[i].at, bs[i].at + META, bs[i].at, bs[i + 1].End());
    ReplaceIndex(bs, i, 2, put);
    assert r[i + 0] == put[0];
    if i + 2 < |bs| {
      assert r[i + 2 - 2 + 1] == bs[i + 2];
    }
    assert HeaderOk(mem', start, r, i);
    ReplaceHolds(mem, mem', start, bs, hi, i, 2, put);
    ReplaceLive(mem, mem', start, bs, hi, i, 2, put);
  }

  /** Writing inside one payload disturbs no header and no other payload. */
  lemma PayloadHolds(mem: seq<byte>, mem': seq<byte>, start: nat, bs: BlockList, hi: nat, i: nat)
    requires Holds(mem, start, bs, hi) && i < |bs| && bs[i].End() <= |mem|
    requires OnlyWithin(mem, mem', bs[i].Payload(), bs[i].End())
    ensures Holds(mem', start, bs, hi)
    ensures forall j :: 0 <= j < |bs| && j != i ==> Preserved(mem, mem', bs, bs[j])
  {
    var put := [bs[i]];
    assert bs == Replace(bs, i, 1, put);
    WithinWider(mem, mem', bs[i].Payload(), bs[i].End(), bs[i].at, bs[i].End());
    assert HeaderOk(mem, start, bs, i);
    HeaderDepends(mem, mem', bs[i].at);
    assert HeaderOk(mem', start, bs, i);
    ReplaceHolds(mem, mem', start, bs, hi, i, 1, put);
    forall j | 0 <= j < |bs| && j != i ensures Preserved(mem, mem', bs, bs[j]) {
      ReplaceContent(mem, mem', start, bs, hi, i, 1, put, j);
    }
  }

  /** After a block was put behind the last one and linked to it. */
  lemma AppendHolds(mem: seq<byte>, mem': seq<byte>, start: nat, bs: BlockList, hi: nat, bytes: nat)
    requires Holds(mem, start, bs, hi) && bytes >= META && hi + bytes <= |mem'| && |mem| <= |mem'|
    requires var last := bs[|bs| - 1];
      && last.at + META <= |mem|
      && (forall x {:trigger mem'[x]} :: 0 <= x < hi && !(last.at <= x < last.at + META) ==> mem'[x] == mem[x])
      && HeaderAt(mem', last.at) == HeaderAt(mem, last.at).(next := start + hi)
    requires HeaderAt(mem', hi) == Header(bytes - META, 0, true)
    ensures Holds(mem', start, Grow(bs, hi, bytes), hi + bytes)
    ensures LivePreserved(mem, bs, mem', Grow(bs, hi, bytes))
  {
    hide HeaderAt, HeaderOk, Preserved, Tiled;
    var g := Grow(bs, hi, bytes);
    GrowTiled(bs, hi, bytes);
    var last := bs[|bs| - 1];
    forall j | 0 <= j < |bs| ensures HeaderOk(mem', start, g, j) {
      if j < |bs| - 1 {
        TiledOrder(bs, 0, hi, j, |bs| - 1);
        EarlierHeader(mem, mem', start, bs, hi, bytes, j);
      } else {
        LastHeader(mem, mem', start, bs, hi, bytes);
      }
    }
    NewLastHeader(mem', start, bs, hi, bytes);
    forall b | b in bs && !b.free ensures Preserved(mem, mem', g, b) {
      var j :| 0 <= j < |bs| && bs[j] == b;
      TiledBounds(bs, 0, hi, j);
      if j < |bs| - 1 {
        TiledOrder(bs, 0, hi, j, |bs| - 1);
      }
      PayloadBeside(mem, mem', g, b, hi, last.at);
    }
  }

  lemma GrowTiled(bs: BlockList, hi: nat, bytes: nat)
    requires Tiled(bs, 0, hi) && bytes >= META
    ensures Tiled(Grow(bs, hi, bytes), 0, hi + bytes) && bs != [] && bs[|bs| - 1].End() == hi
  {}

  /** A header before the last one, with its successor where it was. */
  lemma EarlierHeader(mem: seq<byte>, mem': seq<byte>, start: nat, bs: BlockList, hi: nat, bytes: nat, j: nat)
    requires bytes >= META && j + 1 < |bs| && HeaderOk(mem, start, bs, j) && |mem| <= |mem'| && hi <= |mem|
    requires bs[j].End() <= bs[|bs| - 1].at && bs[|bs| - 1].End() == hi
    requires forall x {:trigger mem'[x]} ::
               0 <= x < hi && !(bs[|bs| - 1].at <= x < bs[|bs| - 1].at + META) ==> mem'[x] == mem[x]
    ensures HeaderOk(mem', start, Grow(bs, hi, bytes), j)
  {
    hide HeaderAt;
    HeaderDepends(mem, mem', bs[j].at);
  }

  lemma LastHeader(mem: seq<byte>, mem': seq<byte>, start: nat, bs: BlockList, hi: nat, bytes: nat)
    requires bytes >= META && bs != [] && HeaderOk(mem, start, bs, |bs| - 1) && |mem| <= |mem'|
    requires HeaderAt(mem', bs[|bs| - 1].at) == HeaderAt(mem, bs[|bs| - 1].at).(next := start + hi)
    ensures HeaderOk(mem', start, Grow(bs, hi, bytes), |bs| - 1)
  {
    hide HeaderAt;
  }

  lemma NewLastHeader(mem: seq<byte>, start: nat, bs: BlockList, hi: nat, bytes: nat)
    requires bytes >= META && hi + META <= |mem| && HeaderAt(mem, hi) == Header(bytes - META, 0, true)
    ensures HeaderOk(mem, start, Grow(bs, hi, bytes), |bs|)
  {
    hide HeaderAt;
  }

  /** A payload that ends at or before the changed header, or begins behind it, keeps its bytes. */
  lemma PayloadBeside(mem: seq<byte>, mem': seq<byte>, list: BlockList, b: Block, hi: nat, at: nat)
    requires b in list && b.End() <= hi <= |mem| <= |mem'| && (b.End() <= at || at + META <= b.Payload())
    requires forall x {:trigger mem'[x]} :: 0 <= x < hi && !(at <= x < at + META) ==> mem'[x] == mem[x]
    ensures Preserved(mem, mem', list, b)
  {
    assert Content(mem', b) == Content(mem, b);
  }

  /** The five stores of a split: three into the new header at `b`, then two into the one at `a`. */
  lemma SplitStores(m0: seq<byte>, m1: seq<byte>, m2: seq<byte>, m3: seq<byte>, m4: seq<byte>, m5: seq<byte>,
                    a: nat, b: nat, size: nat, rest: nat, next: nat)
    requires a + META <= b && b + META <= |m0|
    requires OnlyWithin(m0, m1, b, b + META) && HeaderAt(m1, b) == HeaderAt(m0, b).(size := rest)
    requires OnlyWithin(m1, m2, b, b + META) && HeaderAt(m2, b) == HeaderAt(m1, b).(free := true)
    requires OnlyWithin(m2, m3, b, b + META) && HeaderAt(m3, b) == HeaderAt(m2, b).(next := HeaderAt(m2, a).next)
    requires OnlyWithin(m3, m4, a, a + META) && HeaderAt(m4, a) == HeaderAt(m3, a).(size := size)
    requires OnlyWithin(m4, m5, a, a + META) && HeaderAt(m5, a) == HeaderAt(m4, a).(next := next)
    ensures OnlyWithin(m0, m5, a, b + META)
    ensures HeaderAt(m5, a) == HeaderAt(m0, a).(size := size, next := next)
    ensures HeaderAt(m5, b) == Header(rest, HeaderAt(m0, a).next, true)
  {
    hide HeaderAt;
    OtherHeader(m0, m1, b, a);
    OtherHeader(m1, m2, b, a);
    OtherHeader(m2, m3, b, a);
    OtherHeader(m3, m4, a, b);
    OtherHeader(m4, m5, a, b);
  }

  /** The two stores of a merge. */
  lemma MergeStores(m0: seq<byte>, m1: seq<byte>, m2: seq<byte>, a: nat, b: nat, size: nat)
    requires a + META <= b && b + META <= |m0|
    requires OnlyWithin(m0, m1, a, a + META) && HeaderAt(m1, a) == HeaderAt(m0, a).(size := size)
    requires OnlyWithin(m1, m2, a, a + META) && HeaderAt(m2, a) == HeaderAt(m1, a).(next := HeaderAt(m1, b).next)
    ensures OnlyWithin(m0, m2, a, a + META)
    ensures HeaderAt(m2, a) == HeaderAt(m0, a).(size := size, next := HeaderAt(m0, b).next)
  {
    hide HeaderAt;
    OtherHeader(m0, m1, a, b);
  }

  lemma HeaderNext(m0: seq<byte>, m1: seq<byte>, at: nat)
    requires at + META <= |m0| && |m1| == |m0| && HeaderAt(m1, at) == HeaderAt(m0, at).(size := HeaderAt(m1, at).size)
    ensures HeaderAt(m1, at).next == HeaderAt(m0, at).next
  {}

  /** Splitting, then marking the first part used, preserves what was in use before. */
  lemma TakeLive(m0: seq<byte>, bs: BlockList, m1: seq<byte>, split: BlockList, m2: seq<byte>, i: nat)
    requires LivePreserved(m0, bs, m1, split) && i < |split| && split[i].free
    requires forall j :: 0 <= j < |split| && j != i ==> Preserved(m1, m2, split[i := split[i].(free := false)], split[j])
    ensures LivePreserved(m0, bs, m2, split[i := split[i].(free := false)])
  {
    hide Content;
    var taken := split[i := split[i].(free := false)];
    forall b | b in bs && !b.free ensures Preserved(m0, m2, taken, b) {
      assert Preserved(m0, m1, split, b);
      var j :| 0 <= j < |split| && split[j] == b;
      assert Preserved(m1, m2, taken, split[j]);
    }
  }

  lemma MarkedStart(mem: seq<byte>, start: nat, bs: BlockList, hi: nat)
    requires Holds(mem, start, bs, hi)
    ensures bs != [] && bs[0].at == 0 && bs[..0] + Coalesce(bs[0..]) == Coalesce(bs)
    ensures LivePreserved(mem, bs, mem, bs)
  {
    assert bs[0..] == bs;
    LiveSame(mem, start, bs, hi);
  }

  /** Marking block `k` free and merging preserves every other block in use. */
  lemma FreedLive(m0: seq<byte>, bs: BlockList, m1: seq<byte>, k: nat, m2: seq<byte>, after: BlockList)
    requires k < |bs|
    requires forall j :: 0 <= j < |bs| && j != k ==> Preserved(m0, m1, bs[k := bs[k].(free := true)], bs[j])
    requires LivePreserved(m1, bs[k := bs[k].(free := true)], m2, after)
    ensures forall b :: b in bs && !b.free && b.at != bs[k].at ==> Preserved(m0, m2, after, b)
  {
    hide Content;
    var marked := bs[k := bs[k].(free := true)];
    forall b | b in bs && !b.free && b.at != bs[k].at ensures Preserved(m0, m2, after, b) {
      var j :| 0 <= j < |bs| && bs[j] == b;
      assert Preserved(m0, m1, marked, bs[j]);
      assert Preserved(m1, m2, after, b);
    }
  }

  lemma NeighboursHeld(mem: seq<byte>, start: nat, bs: BlockList, hi: nat, i: nat)
    requires Holds(mem, start, bs, hi) && i + 1 < |bs|
    ensures bs[i + 1].at == bs[i].End() && bs[i + 1].End() <= hi
  {
    Neighbours(bs, 0, hi, i);
  }

  /** What is read at block `i` of a list that fills the first `hi` bytes. */
  lemma HeldBlock(mem: seq<byte>, start: nat, bs: BlockList, hi: nat, i: nat)
    requires Holds(mem, start, bs, hi)
    ensures bs != [] && bs[0].at == 0
    ensures i < |bs| ==> bs[i].End() <= hi && HeaderAt(mem, bs[i].at) == HeaderFor(start, bs, i)
  {
    if i < |bs| {
      TiledBounds(bs, 0, hi, i);
      assert HeaderOk(mem, start, bs, i);
    }
  }

  /** More memory behind the list changes nothing in it. */
  lemma LongerHolds(m0: seq<byte>, m1: seq<byte>, start: nat, bs: BlockList, hi: nat)
    requires Holds(m0, start, bs, hi) && hi == |m0| && m0 <= m1
    ensures Holds(m1, start, bs, hi)
  {
    forall i | 0 <= i < |bs| ensures HeaderOk(m1, start, bs, i) {
      HeldBlock(m0, start, bs, hi, i);
      HeaderDepends(m0, m1, bs[i].at);
    }
  }

  /** Neither does writing behind it. */
  lemma BelowHolds(m0: seq<byte>, m1: seq<byte>, start: nat, bs: BlockList, hi: nat)
    requires Holds(m0, start, bs, hi) && OnlyWithin(m0, m1, hi, hi + META)
    ensures Holds(m1, start, bs, hi)
  {
    forall i | 0 <= i < |bs| ensures HeaderOk(m1, start, bs, i) {
      HeldBlock(m0, start, bs, hi, i);
      HeaderDepends(m0, m1, bs[i].at);
    }
  }

  /** The three stores of a new header. */
  lemma NewHeader(m1: seq<byte>, m2: seq<byte>, m3: seq<byte>, m4: seq<byte>, at: nat, size: nat)
    requires at + META <= |m1|
    requires OnlyWithin(m1, m2, at, at + META) && HeaderAt(m2, at) == HeaderAt(m1, at).(free := true)
    requires OnlyWithin(m2, m3, at, at + META) && HeaderAt(m3, at) == HeaderAt(m2, at).(size := size)
    requires OnlyWithin(m3, m4, at, at + META) && HeaderAt(m4, at) == HeaderAt(m3, at).(next := 0)
    ensures OnlyWithin(m1, m4, at, at + META) && HeaderAt(m4, at) == Header(size, 0, true)
  {
    hide HeaderAt;
  }

  /** Linking the last block to the new header, seen from before the growth. */
  lemma AppendStores(m0: seq<byte>, m1: seq<byte>, m4: seq<byte>, m5: seq<byte>, hi: nat, last: nat, next: nat)
    requires hi == |m0| && m0 <= m1 && hi + META <= |m1| && last + META <= hi
    requires OnlyWithin(m1, m4, hi, hi + META)
    requires OnlyWithin(m4, m5, last, last + META) && HeaderAt(m5, last) == HeaderAt(m4, last).(next := next)
    ensures forall x {:trigger m5[x]} :: 0 <= x < hi && !(last <= x < last + META) ==> m5[x] == m0[x]
    ensures HeaderAt(m5, last) == HeaderAt(m0, last).(next := next)
    ensures HeaderAt(m5, hi) == HeaderAt(m4, hi)
  {
    HeaderDepends(m0, m1, last);
    OtherHeader(m1, m4, hi, last);
    OtherHeader(m4, m5, last, hi);
    forall x {:trigger m5[x]} | 0 <= x < hi && !(last <= x < last + META) ensures m5[x] == m0[x] {
      assert m4[x] == m1[x] && m1[x] == m0[x];
    }
  }

  /** A heap of one free block, after its three stores. */
  lemma FirstBlock(m1: seq<byte>, m2: seq<byte>, m3: seq<byte>, m4: seq<byte>, start: nat)
    requires META <= |m1|
    requires OnlyWithin(m1, m2, 0, META) && HeaderAt(m2, 0) == HeaderAt(m1, 0).(size := |m1| - META)
    requires OnlyWithin(m2, m3, 0, META) && HeaderAt(m3, 0) == HeaderAt(m2, 0).(free := true)
    requires OnlyWithin(m3, m4, 0, META) && HeaderAt(m4, 0) == HeaderAt(m3, 0).(next := 0)
    ensures Holds(m4, start, [Block(0, |m4| - META, true)], |m4|) && Canonical([Block(0, |m4| - META, true)])
  {
    hide HeaderAt;
    assert HeaderOk(m4, start, [Block(0, |m4| - META, true)], 0);
  }

  /** Bytes written at the beginning of block `i`'s payload are its content; nothing else moves. */
  lemma FilledHolds(mem: seq<byte>, mem': seq<byte>, start: nat, bs: BlockList, hi: nat, i: nat, s: seq<byte>)
    requires Holds(mem, start, bs, hi) && i < |bs| && bs[i].End() <= |mem| && |s| <= bs[i].size
    requires mem' == Patch(mem, bs[i].Payload(), s)
    ensures Holds(mem', start, bs, hi)
    ensures forall j :: 0 <= j < |bs| && j != i ==> Preserved(mem, mem', bs, bs[j])
    ensures Begins(mem', bs[i], s)
  {
    PayloadHolds(mem, mem', start, bs, hi, i);
  }

  /** Filling a block that was not in use before preserves what was. */
  lemma FreshLive(m0: seq<byte>, bs: BlockList, m1: seq<byte>, bs1: BlockList, m2: seq<byte>, i: nat)
    requires LivePreserved(m0, bs, m1, bs1) && i < |bs1|
    requires forall j :: 0 <= j < |bs1| && j != i ==> Preserved(m1, m2, bs1, bs1[j])
    requires forall b :: b in bs && !b.free ==> b.at != bs1[i].at
    ensures LivePreserved(m0, bs, m2, bs1)
  {
    hide Content;
    forall b | b in bs && !b.free ensures Preserved(m0, m2, bs1, b) {
      assert Preserved(m0, m1, bs1, b);
      var j :| 0 <= j < |bs1| && bs1[j] == b;
      assert Preserved(m1, m2, bs1, bs1[j]);
    }
  }

  /** A preserved block has an index in the new list, and its bytes are where they were. */
  lemma StillThere(m0: seq<byte>, start: nat, bs: BlockList, i: nat, m1: seq<byte>, bs1: BlockList) returns (k: nat)
    requires i < |bs| && !bs[i].free && LivePreserved(m0, bs, m1, bs1)
    ensures k < |bs1| && bs1[k] == bs[i] && bs[i].End() <= |m0| && bs[i].End() <= |m1|
    ensures Content(m1, bs[i]) == Content(m0, bs[i])
  {
    assert Preserved(m0, m1, bs1, bs[i]);
    k :| 0 <= k < |bs1| && bs1[k] == bs[i];
  }
}
