/**
 * Runs of the page mapping: what any sequence of map, unmap and range calls can do, taken
 * from the contracts of the methods of `VirtualMemory.Vmm`.
 */
module MappingRuns {
  import opened Machine
  import opened Paging
  import opened TableGrowth
  import opened PageRanges
  import opened VirtualMemory

  type Mapped = map<nat, Entry>

  /** What a run goes through: the mapping, where the tables are, and the free frames. */
  datatype State = State(mapped: Mapped, tables: Tables, free: set<nat>)

  /** One call, with the result the code returned for it. */
  datatype Call =
    | Map(virt: nat, phys: nat, flags: Flags, ok: bool)
    | MapRange(virt: nat, phys: nat, count: nat, flags: Flags, ok: bool)
    | Unmap(virt: nat)
    | UnmapRange(virt: nat, count: nat)
  {
    /** The pages this call adds. */
    ghost function Adds(): Mapped {
      match this
      case Map(virt, phys, flags, ok) => if ok then map[Key(virt) := PageEntry(phys, flags)] else map[]
      case MapRange(virt, phys, count, flags, ok) => if ok then PageMap(virt, phys, count, flags) else map[]
      case _ => map[]
    }

    /** The keys this call takes out. */
    ghost function Removes(): set<nat> {
      match this
      case Unmap(virt) => {Key(virt)}
      case UnmapRange(virt, count) => KeysOf(virt, count)
      case _ => {}
    }

    /** The pages this call asks to be mapped. */
    ghost function Pages(): set<nat> {
      match this
      case Map(virt, _, _, _) => {Key(virt)}
      case MapRange(virt, _, count, _, _) => KeysOf(virt, count)
      case _ => {}
    }

    /** The call asks for pages and gets them. */
    predicate Succeeds() { (this.Map? || this.MapRange?) && ok }
    predicate IsRefused() { (this.Map? || this.MapRange?) && !ok }
  }

  /** The mapping after a call. */
  ghost function Next(m: Mapped, c: Call): Mapped {
    (m + c.Adds()) - c.Removes()
  }

  /** The pages a call asks for can be mapped: all are free, and so are frames for the tables they still need. */
  ghost predicate Possible(s: State, c: Call) {
    match c
    case Map(virt, _, _, _) => Key(virt) !in s.mapped && |s.free| >= |Needs(s.tables, {Key(virt)})|
    case MapRange(virt, _, count, _, _) => RangeFree(s.mapped, virt, count) && |s.free| >= |Needs(s.tables, KeysOf(virt, count))|
    case _ => true
  }

  /**
   * One call of a run: it is refused exactly when it is not possible, and it takes frames only for tables on
   * the paths of its pages.
   */
  ghost predicate Step(s: State, c: Call, s': State) {
    && (c.Succeeds() ==> Possible(s, c)) && (c.IsRefused() ==> !Possible(s, c))
    && s'.mapped == Next(s.mapped, c)
    && Grown(s.tables, s.free, s'.tables, s'.free, c.Pages())
    && (c.Unmap? || c.UnmapRange? ==> s'.tables == s.tables && s'.free == s.free)
  }

  /** `states` is a run that makes `calls` one after the other. */
  ghost predicate IsRun(states: seq<State>, calls: seq<Call>) {
    && |states| == |calls| + 1
    && forall i :: 0 <= i < |calls| ==> Step(states[i], calls[i], states[i + 1])
  }

  // ---- The methods make such runs ----

  ghost function Look(vmm: Vmm): State
    reads vmm`ram, vmm`tables, vmm`pml4Phys, vmm.pmm`free
  {
    State(vmm.Mapping(), vmm.tables, vmm.pmm.free)
  }

  /**
   * Whatever calls are made, in whatever order, mapping, tables and free frames go through a run that
   * begins and ends with what the manager really has.
   */
  method RunCalls(vmm: Vmm, calls: seq<Call>) returns (done: seq<Call>, ghost states: seq<State>)
    requires vmm.Valid()
    requires forall i :: 0 <= i < |calls| ==> InRange(calls[i]) && vmm.SparesDirectMap(calls[i].Removes())
    modifies vmm`ram, vmm`tables, vmm.pmm`freeFrames, vmm.pmm`free, vmm.pmm.bitmap
    ensures vmm.Valid()
    ensures |done| == |calls| && forall i :: 0 <= i < |calls| ==> SameRequest(done[i], calls[i])
    ensures IsRun(states, done) && states[0] == old(Look(vmm)) && states[|calls|] == Look(vmm)
  {
    hide Vmm.Valid, Vmm.SparesDirectMap, Look, Step, InRange, SameRequest;
    done, states := [], [Look(vmm)];
    for i := 0 to |calls|
      invariant vmm.Valid() && |done| == i && IsRun(states, done)
      invariant forall j :: 0 <= j < i ==> SameRequest(done[j], calls[j])
      invariant states[0] == old(Look(vmm)) && states[i] == Look(vmm)
    {
      var c := Perform(vmm, calls[i]);
      ExtendRun(states, done, c, Look(vmm));
      done := done + [c];
      states := states + [Look(vmm)];
    }
  }

  predicate InRange(c: Call) {
    c.virt < TWO64 && (c.MapRange? ==> c.phys < TWO64)
  }

  /** The same call, whatever its result. */
  predicate SameRequest(a: Call, b: Call) {
    match (a, b)
    case (Map(v, p, f, _), Map(v', p', f', _)) => v == v' && p == p' && f == f'
    case (MapRange(v, p, n, f, _), MapRange(v', p', n', f', _)) => v == v' && p == p' && n == n' && f == f'
    case _ => a == b
  }

  /** Makes one call and records its result. */
  method Perform(vmm: Vmm, c: Call) returns (d: Call)
    requires vmm.Valid() && InRange(c) && vmm.SparesDirectMap(c.Removes())
    modifies vmm`ram, vmm`tables, vmm.pmm`freeFrames, vmm.pmm`free, vmm.pmm.bitmap
    ensures vmm.Valid() && SameRequest(d, c)
    ensures Step(old(Look(vmm)), d, Look(vmm))
  {
    hide Vmm.Valid, Vmm.Mapping, Key, PageEntry, PageMap, KeysOf, RangeFree, Needs, Grown, Step, Vmm.SparesDirectMap;
    ghost var s := Look(vmm);
    match c
    case Map(virt, phys, flags, _) =>
      var ok := vmm.Map(virt, phys, flags);
      d := Map(virt, phys, flags, ok);
      MapStep(s, d, Look(vmm));
    case MapRange(virt, phys, count, flags, _) =>
      var ok := vmm.MapRange(virt, phys, count, flags);
      d := MapRange(virt, phys, count, flags, ok);
      RangeStep(s, d, Look(vmm));
    case Unmap(virt) =>
      OnlyKey(virt);
      vmm.Unmap(virt);
      d := c;
      UnmapStep(s, d, Look(vmm));
    case UnmapRange(virt, count) =>
      vmm.UnmapRange(virt, count);
      d := c;
      UnmapStep(s, d, Look(vmm));
  }

  lemma MapStep(s: State, d: Call, s': State)
    requires d.Map? && s'.mapped == if d.ok then s.mapped[Key(d.virt) := PageEntry(d.phys, d.flags)] else s.mapped
    requires d.ok <==> Key(d.virt) !in s.mapped && |s.free| >= |Needs(s.tables, {Key(d.virt)})|
    requires Grown(s.tables, s.free, s'.tables, s'.free, {Key(d.virt)})
    ensures Step(s, d, s')
  {
    hide Key, PageEntry, Needs, Grown;
  }

  lemma RangeStep(s: State, d: Call, s': State)
    requires d.MapRange? && s'.mapped == if d.ok then s.mapped + PageMap(d.virt, d.phys, d.count, d.flags) else s.mapped
    requires d.ok <==> RangeFree(s.mapped, d.virt, d.count) && |s.free| >= |Needs(s.tables, KeysOf(d.virt, d.count))|
    requires Grown(s.tables, s.free, s'.tables, s'.free, KeysOf(d.virt, d.count))
    ensures Step(s, d, s')
  {
    hide KeysOf, PageMap, RangeFree, Needs, Grown;
  }

  lemma UnmapStep(s: State, d: Call, s': State)
    requires (d.Unmap? || d.UnmapRange?) && s'.mapped == s.mapped - d.Removes()
    requires s'.tables == s.tables && s'.free == s.free
    ensures Step(s, d, s')
  {
    hide Key, KeysOf, Grown;
    GrownByNone(s.tables, s.free, d.Pages());
  }

  lemma OnlyKey(virt: nat)
    ensures Unmap(virt).Removes() == {Key(virt)}
  {}

  lemma ExtendRun(states: seq<State>, calls: seq<Call>, c: Call, now: State)
    requires IsRun(states, calls) && Step(states[|calls|], c, now)
    ensures IsRun(states + [now], calls + [c])
  {
    hide Step;
    var s, d := states + [now], calls + [c];
    forall i | 0 <= i < |d| ensures Step(s[i], d[i], s[i + 1]) {
      if i < |calls| {
        assert s[i] == states[i] && s[i + 1] == states[i + 1] && d[i] == calls[i];
      }
    }
  }

  /** What a step does to the mapping; it never maps a page that is mapped. */
  lemma MappedStep(s: State, c: Call, s': State)
    requires Step(s, c, s')
    ensures s'.mapped == Next(s.mapped, c) && c.Adds().Keys !! s.mapped.Keys
  {
    hide Grown, Needs, PageEntry, Key, KeyAt, DistinctKeys, PageMap;
  }

  // ---- What every run guarantees ----

  /** Between two points of a run where page `k` is never taken out, it keeps its entry. */
  lemma {:induction false} StaysMapped(states: seq<State>, calls: seq<Call>, i: nat, j: nat, k: nat)
    requires IsRun(states, calls) && i <= j < |states| && k in states[i].mapped
    requires forall t :: i <= t < j ==> k !in calls[t].Removes()
    ensures k in states[j].mapped && states[j].mapped[k] == states[i].mapped[k]
  {
    hide Call.Adds, Call.Removes, Step;
    if i < j {
      StaysMapped(states, calls, i, j - 1, k);
      assert Step(states[j - 1], calls[j - 1], states[j - 1 + 1]);
      MappedStep(states[j - 1], calls[j - 1], states[j]);
    }
  }

  /** Call `t` put page `k` where it goes in the end, and no later call took it out. */
  ghost predicate SetBy(calls: seq<Call>, t: nat, n: nat, k: nat, e: Entry)
    requires n <= |calls|
  {
    && t < n && k in calls[t].Adds() && calls[t].Adds()[k] == e
    && forall u :: t <= u < n ==> k !in calls[u].Removes()
  }

  /**
   * Where a translation comes from: a page is mapped at the end of a run exactly when it was
   * there at the start and never taken out, or one call set it and none took it out since.
   */
  lemma {:induction false} Provenance(states: seq<State>, calls: seq<Call>, n: nat, k: nat, e: Entry)
    requires IsRun(states, calls) && n < |states|
    ensures k in states[n].mapped && states[n].mapped[k] == e <==>
              || (k in states[0].mapped && states[0].mapped[k] == e && forall u :: 0 <= u < n ==> k !in calls[u].Removes())
              || exists t: nat :: SetBy(calls, t, n, k, e)
  {
    hide Call.Adds, Call.Removes, Step;
    if n > 0 {
      var c := calls[n - 1];
      Provenance(states, calls, n - 1, k, e);
      assert Step(states[n - 1], c, states[n - 1 + 1]);
      MappedStep(states[n - 1], c, states[n]);
      if k in c.Removes() {
        assert k !in states[n].mapped;
      } else if k in c.Adds() {
        AddedNow(states, calls, n, k, e);
      } else {
        Untouched(calls, n - 1, n, k, e);
      }
    }
  }

  /** A call that has nothing to do with page `k` changes no provenance. */
  lemma Untouched(calls: seq<Call>, before: nat, n: nat, k: nat, e: Entry)
    requires n == before + 1 <= |calls| && k !in calls[before].Adds() && k !in calls[before].Removes()
    ensures (exists t: nat :: SetBy(calls, t, n, k, e)) <==> (exists t: nat :: SetBy(calls, t, before, k, e))
    ensures (forall u :: 0 <= u < n ==> k !in calls[u].Removes()) <==> (forall u :: 0 <= u < before ==> k !in calls[u].Removes())
  {
    hide Call.Adds, Call.Removes, Step;
    if t: nat :| SetBy(calls, t, n, k, e) {
      assert SetBy(calls, t, before, k, e);
    }
    if t: nat :| SetBy(calls, t, before, k, e) {
      forall u | t <= u < n ensures k !in calls[u].Removes() {}
      assert SetBy(calls, t, n, k, e);
    }
    if forall u :: 0 <= u < before ==> k !in calls[u].Removes() {
      forall u | 0 <= u < n ensures k !in calls[u].Removes() {}
    }
  }

  lemma AddedNow(states: seq<State>, calls: seq<Call>, n: nat, k: nat, e: Entry)
    requires IsRun(states, calls) && 0 < n < |states|
    requires k in calls[n - 1].Adds() && k !in calls[n - 1].Removes()
    ensures k in states[n].mapped && states[n].mapped[k] == calls[n - 1].Adds()[k]
    ensures (exists t: nat :: SetBy(calls, t, n, k, e)) <==> calls[n - 1].Adds()[k] == e
    ensures !(k in states[0].mapped && forall u :: 0 <= u < n ==> k !in calls[u].Removes())
  {
    hide Call.Adds, Call.Removes, Step;
    var last := n - 1;
    assert Step(states[last], calls[last], states[last + 1]);
    MappedStep(states[last], calls[last], states[n]);
    if calls[last].Adds()[k] == e {
      assert SetBy(calls, last, n, k, e);
    }
    if t: nat :| SetBy(calls, t, n, k, e) && t < last {
      assert k in states[t + 1].mapped by {
        assert Step(states[t], calls[t], states[t + 1]) && k !in calls[t].Removes();
        MappedStep(states[t], calls[t], states[t + 1]);
      }
      StaysMapped(states, calls, t + 1, last, k);
      assert false;
    }
    if k in states[0].mapped && forall u :: 0 <= u < n ==> k !in calls[u].Removes() {
      StaysMapped(states, calls, 0, last, k);
      assert false;
    }
  }

  /** The pages the first `n` calls asked for. */
  ghost function AllPages(calls: seq<Call>, n: nat): set<nat>
    requires n <= |calls|
  {
    if n == 0 then {} else AllPages(calls, n - 1) + calls[n - 1].Pages()
  }

  /**
   * Over a whole run no table is lost or moved, new ones lie only on the paths of pages that were asked for,
   * and the frames that went to them are the lowest of those that were free.
   */
  lemma {:induction false} TablesOfRun(states: seq<State>, calls: seq<Call>, n: nat)
    requires IsRun(states, calls) && n < |states|
    ensures Grown(states[0].tables, states[0].free, states[n].tables, states[n].free, AllPages(calls, n))
  {
    hide Grown, Next, Call.Pages, Possible;
    var s := states[0];
    if n == 0 {
      GrownByNone(s.tables, s.free, {});
    } else {
      TablesOfRun(states, calls, n - 1);
      var b := states[n - 1];
      assert Step(b, calls[n - 1], states[n - 1 + 1]);
      var keys := AllPages(calls, n);
      GrownWider(s.tables, s.free, b.tables, b.free, AllPages(calls, n - 1), keys);
      GrownWider(b.tables, b.free, states[n].tables, states[n].free, calls[n - 1].Pages(), keys);
      GrownTwice(s.tables, s.free, b.tables, b.free, states[n].tables, states[n].free, keys);
    }
  }
}
