/**
 * A range on its way into the tables (kernel/mm/vmm.cpp, map_range): what holds after each page, and what
 * is to be said when the last one is in or one is refused.
 */
module RangeMapping {
  import opened Paging
  import opened TableGrowth
  import opened PageRanges
  import opened Rights
  import opened TableAccess

  /** From `v` to `v1` the first `i` of `count` pages were mapped. */
  ghost predicate Underway(v: View, v1: View, virt: nat, phys: nat, i: nat, count: nat, flags: Flags) {
    && v.Good() && v1.Good() && v1.cr3 == v.cr3 && v1.direct == v.direct
    && Grown(v.tables, v.free, v1.tables, v1.free, KeysOf(virt, count))
    && Added(v.Mapping(), virt, phys, i, flags, v1.Mapping())
  }

  /** Page `i` of a range is mapped to page `i` from `phys`, with the flags given. */
  ghost predicate PageIn(m: map<nat, Entry>, virt: nat, phys: nat, i: nat, flags: Flags) {
    KeyAt(virt, i) in m && MapsPage(m[KeyAt(virt, i)], PageAt(phys, i), flags)
  }

  ghost predicate PagesIn(m: map<nat, Entry>, virt: nat, phys: nat, count: nat, flags: Flags) {
    forall i :: 0 <= i < count ==> PageIn(m, virt, phys, i, flags)
  }

  /** All pages of a range are free, and so are frames for the tables they still need. */
  ghost predicate RangeFits(v: View, virt: nat, count: nat) {
    RangeFree(v.Mapping(), virt, count) && |v.free| >= |Needs(v.tables, KeysOf(virt, count))|
  }

  lemma Begun(v: View, virt: nat, phys: nat, count: nat, flags: Flags)
    requires v.Good()
    ensures Underway(v, v, virt, phys, 0, count, flags)
  {
    hide View.Good, Grown, Added, KeysOf, Paging.Mapping;
    AddedStart(v.Mapping(), virt, phys, flags);
    GrownByNone(v.tables, v.free, KeysOf(virt, count));
  }

  /** Page `i` was asked for: tables came only for it. */
  lemma OnePageGrown(v: View, v1: View, v2: View, virt: nat, phys: nat, i: nat, count: nat, flags: Flags)
    requires Underway(v, v1, virt, phys, i, count, flags) && i < count
    requires Grown(v1.tables, v1.free, v2.tables, v2.free, {KeyAt(virt, i)})
    ensures Grown(v.tables, v.free, v2.tables, v2.free, KeysOf(virt, count))
  {
    hide View.Good, Grown, Added, KeysOf, KeyAt, Paging.Mapping;
    var keys := KeysOf(virt, count);
    KeyInRange(virt, i, count);
    GrownWider(v1.tables, v1.free, v2.tables, v2.free, {KeyAt(virt, i)}, keys);
    GrownTwice(v.tables, v.free, v1.tables, v1.free, v2.tables, v2.free, keys);
  }

  lemma OnePageMore(v: View, v1: View, v2: View, virt: nat, phys: nat, i: nat, count: nat, flags: Flags)
    requires Underway(v, v1, virt, phys, i, count, flags) && i < count
    requires v2.Good() && v2.cr3 == v1.cr3 && v2.direct == v1.direct
    requires Grown(v1.tables, v1.free, v2.tables, v2.free, {KeyAt(virt, i)})
    requires KeyAt(virt, i) !in v1.Mapping()
    requires v2.Mapping() == v1.Mapping()[KeyAt(virt, i) := PageEntry(PageAt(phys, i), flags)]
    ensures Underway(v, v2, virt, phys, i + 1, count, flags)
  {
    hide View.Good, Grown, Added, KeysOf, KeyAt, PageEntry, PageAt, Paging.Mapping;
    OnePageGrown(v, v1, v2, virt, phys, i, count, flags);
    AddedNext(v.Mapping(), virt, phys, i, flags, v1.Mapping(), v2.Mapping());
  }

  /** Page `i` was refused: then the range as a whole could not be mapped. */
  lemma OnePageRefused(v: View, v1: View, v2: View, virt: nat, phys: nat, i: nat, count: nat, flags: Flags)
    requires Underway(v, v1, virt, phys, i, count, flags) && i < count
    requires v2.Good() && v2.cr3 == v1.cr3 && v2.direct == v1.direct && v2.Mapping() == v1.Mapping()
    requires Grown(v1.tables, v1.free, v2.tables, v2.free, {KeyAt(virt, i)})
    requires KeyAt(virt, i) in v1.Mapping() || (v2.free == {} && NodeFor(KeyAt(virt, i), 0) !in v2.tables)
    ensures Underway(v, v2, virt, phys, i, count, flags) && !RangeFits(v, virt, count)
    ensures v2.free == {} || !RangeFree(v.Mapping(), virt, count)
  {
    hide View.Good, Grown, Added, KeysOf, KeyAt, NodeFor, RangeFree, Needs, Paging.Mapping;
    OnePageGrown(v, v1, v2, virt, phys, i, count, flags);
    if KeyAt(virt, i) in v1.Mapping() {
      AddedBlocked(v.Mapping(), virt, phys, i, count, flags, v1.Mapping());
    } else {
      KeyInRange(virt, i, count);
      WereTooFew(v, v2, KeysOf(virt, count), KeyAt(virt, i));
    }
  }

  /** All pages are in. */
  lemma AllPagesIn(v: View, v1: View, virt: nat, phys: nat, count: nat, flags: Flags)
    requires Underway(v, v1, virt, phys, count, count, flags)
    ensures RangeFits(v, virt, count) && v1.Mapping() == v.Mapping() + PageMap(virt, phys, count, flags)
    ensures PagesIn(v1.Mapping(), virt, phys, count, flags)
  {
    hide View.Good, Grown, Added, KeysOf, RangeFree, Needs, PageMap, PathNodes, Paging.Mapping;
    AddedDone(v.Mapping(), virt, phys, count, flags, v1.Mapping());
    MappedPathsPresent(v1, KeysOf(virt, count));
    WereEnough(v, v1, KeysOf(virt, count));
    forall i | 0 <= i < count ensures PageIn(v1.Mapping(), virt, phys, i, flags) {
      EachPageIn(v.Mapping(), virt, phys, count, flags, i);
    }
  }

  lemma EachPageIn(m: map<nat, Entry>, virt: nat, phys: nat, count: nat, flags: Flags, i: nat)
    requires RangeFree(m, virt, count) && i < count
    ensures PageIn(m + PageMap(virt, phys, count, flags), virt, phys, i, flags)
  {
    hide KeysOf, PageMap, DistinctKeys, KeyAt, PageAt, MapsPage, PageEntry;
    KeyInRange(virt, i, count);
    PageMapAt(virt, phys, count, flags, i);
    PageEntryMaps(PageAt(phys, i), flags);
  }

  /** Taking the pages out again spares the direct map, for they were free at first, and restores the mapping. */
  lemma TakenOutAgain(v: View, v1: View, virt: nat, phys: nat, i: nat, count: nat, flags: Flags)
    requires Underway(v, v1, virt, phys, i, count, flags)
    ensures v1.Mapping() - KeysOf(virt, i) == v.Mapping()
    ensures v1.cr3 != 0 ==> forall f :: f in v1.direct ==> DirectKey(f) !in KeysOf(virt, i)
  {
    hide View.Good, Grown, KeysOf, PageMap, Paging.Mapping, DirectKey;
    AddedUndone(v.Mapping(), virt, phys, i, flags, v1.Mapping());
    if v.cr3 != 0 {
      FreeKeysSpareDirect(v, KeysOf(virt, i));
    }
  }
}
