/**
 * How page tables come to be: which tables a set of pages needs, and what taking frames for them leaves
 * (kernel/mm/vmm.cpp, next_table, over the lowest-first allocator of kernel/mm/pmm.cpp).
 */
module TableGrowth {
  import opened Paging

  /** The tables below the root on the paths of these keys. */
  ghost function PathNodes(keys: set<nat>): set<Node> {
    set k, level | k in keys && 0 <= level < 3 :: NodeFor(k, level)
  }

  /** The tables that are missing for these keys. */
  ghost function Needs(tables: Tables, keys: set<nat>): set<Node> {
    PathNodes(keys) - tables.Keys
  }

  lemma OnPath(k: nat, level: nat, keys: set<nat>)
    requires k in keys && level < 3
    ensures NodeFor(k, level) in PathNodes(keys)
  {}

  lemma PathsWiden(keys: set<nat>, more: set<nat>)
    requires keys <= more
    ensures PathNodes(keys) <= PathNodes(more)
  {
    hide NodeFor;
  }

  /**
   * Tables were only added, and only on the paths of `keys`; each new one is a frame that was free, and the
   * frames taken are the lowest ones.
   */
  ghost predicate Grown(tables: Tables, free: set<nat>, tables': Tables, free': set<nat>, keys: set<nat>) {
    && (forall n :: n in tables ==> n in tables' && tables'[n] == tables[n])
    && tables'.Keys <= tables.Keys + PathNodes(keys)
    && free' + tables'.Values == free + tables.Values
    && free' <= free
    && LowestTaken(free, free')
  }

  /** What was taken from the free frames lies below what is left. */
  ghost predicate LowestTaken(free: set<nat>, free': set<nat>) {
    forall f, g :: f in free && f !in free' && g in free' ==> f < g
  }

  /** One table was made, in the lowest free frame. */
  ghost predicate OneMade(tables: Tables, free: set<nat>, tables': Tables, free': set<nat>, n: Node) {
    && n !in tables && n in tables' && tables' == tables[n := tables'[n]]
    && tables'[n] in free && free' == free - {tables'[n]}
    && forall g :: g in free' ==> tables'[n] < g
  }

  lemma GrownByNone(tables: Tables, free: set<nat>, keys: set<nat>)
    ensures Grown(tables, free, tables, free, keys)
  {}

  lemma GrownByOne(tables: Tables, free: set<nat>, tables': Tables, free': set<nat>, n: Node, keys: set<nat>)
    requires OneMade(tables, free, tables', free', n) && n in PathNodes(keys)
    ensures Grown(tables, free, tables', free', keys)
  {
    hide PathNodes;
    var f := tables'[n];
    assert forall m :: m in tables ==> m in tables' && tables'[m] == tables[m];
    forall x | x in tables.Values ensures x in tables'.Values {
      var m :| m in tables && tables[m] == x;
      assert tables'[m] == x;
    }
    forall x | x in tables'.Values ensures x in tables.Values || x == f {
      var m :| m in tables' && tables'[m] == x;
    }
  }

  lemma GrownShrinksFree(tables: Tables, free: set<nat>, tables': Tables, free': set<nat>, keys: set<nat>)
    requires Grown(tables, free, tables', free', keys)
    ensures free' <= free
  {}

  lemma GrownConserves(tables: Tables, free: set<nat>, tables': Tables, free': set<nat>, keys: set<nat>)
    requires Grown(tables, free, tables', free', keys)
    ensures tables'.Values + free' == tables.Values + free
  {}

  lemma GrownTwice(t0: Tables, f0: set<nat>, t1: Tables, f1: set<nat>, t2: Tables, f2: set<nat>, keys: set<nat>)
    requires Grown(t0, f0, t1, f1, keys) && Grown(t1, f1, t2, f2, keys)
    ensures Grown(t0, f0, t2, f2, keys)
  {
    hide PathNodes;
  }

  lemma GrownFurther(t0: Tables, f0: set<nat>, t1: Tables, f1: set<nat>, t2: Tables, f2: set<nat>, n: Node, keys: set<nat>)
    requires Grown(t0, f0, t1, f1, keys) && n in PathNodes(keys)
    requires (t2 == t1 && f2 == f1) || OneMade(t1, f1, t2, f2, n)
    ensures Grown(t0, f0, t2, f2, keys)
  {
    hide Grown, OneMade, PathNodes;
    if t2 == t1 && f2 == f1 {
    } else {
      GrownByOne(t1, f1, t2, f2, n, keys);
      GrownTwice(t0, f0, t1, f1, t2, f2, keys);
    }
  }

  lemma GrownWider(tables: Tables, free: set<nat>, tables': Tables, free': set<nat>, keys: set<nat>, more: set<nat>)
    requires Grown(tables, free, tables', free', keys) && keys <= more
    ensures Grown(tables, free, tables', free', more)
  {
    PathsWiden(keys, more);
    hide PathNodes;
  }

  /** The root and what was made after it. */
  lemma GrownAfterRoot(all: set<nat>, tables: Tables, free: set<nat>, tables': Tables, free': set<nat>, keys: set<nat>)
    requires tables.Keys == {ROOT} && free <= all && LowestTaken(all, free) && Grown(tables, free, tables', free', keys)
    ensures tables'.Keys <= {ROOT} + PathNodes(keys) && LowestTaken(all, free')
  {
    hide PathNodes;
  }

  // ---- Counting ----

  lemma {:induction false} TablesSize(tables: Tables)
    requires Distinct(tables)
    ensures |tables.Values| == |tables|
    decreases |tables|
  {
    if tables != map[] {
      var n :| n in tables;
      var rest := tables - {n};
      assert rest.Keys == tables.Keys - {n};
      TablesSize(rest);
      forall x | x in tables.Values ensures x in rest.Values + {tables[n]} {
        var a :| a in tables && tables[a] == x;
        assert a != n ==> a in rest && rest[a] == x;
      }
      forall x | x in rest.Values ensures x in tables.Values && x != tables[n] {
        var a :| a in rest && rest[a] == x;
        assert a in tables && tables[a] == x;
      }
      assert tables.Values == rest.Values + {tables[n]};
    } else {
      assert tables.Values == {};
    }
  }

  /** Frames go exactly to the tables that were missing; they run out exactly when fewer are free than are missing. */
  lemma TakenForNeeds(tables: Tables, free: set<nat>, tables': Tables, free': set<nat>, keys: set<nat>)
    requires Grown(tables, free, tables', free', keys) && Distinct(tables) && Distinct(tables')
    requires tables.Values !! free && tables'.Values !! free'
    ensures |free| == |free'| + |tables'.Keys - tables.Keys| && tables'.Keys - tables.Keys <= Needs(tables, keys)
    ensures PathNodes(keys) <= tables'.Keys ==> |free| == |free'| + |Needs(tables, keys)|
    ensures free' == {} && !(PathNodes(keys) <= tables'.Keys) ==> |free| < |Needs(tables, keys)|
  {
    hide PathNodes, Distinct, LowestTaken;
    TablesSize(tables);
    TablesSize(tables');
    SizesMoved(free, tables.Values, free', tables'.Values);
    KeysAdded(tables, tables');
    AddedOfNeeded(tables.Keys, tables'.Keys, PathNodes(keys));
  }

  lemma SizesMoved(free: set<nat>, frames: set<nat>, free': set<nat>, frames': set<nat>)
    requires free !! frames && free' !! frames' && free + frames == free' + frames'
    ensures |free| + |frames| == |free'| + |frames'|
  {
    assert |free + frames| == |free| + |frames|;
    assert |free' + frames'| == |free'| + |frames'|;
  }

  lemma AddedOfNeeded(nodes: set<Node>, nodes': set<Node>, path: set<Node>)
    requires nodes <= nodes' <= nodes + path
    ensures nodes' - nodes <= path - nodes
    ensures path <= nodes' ==> nodes' - nodes == path - nodes
    ensures !(path <= nodes') ==> |nodes' - nodes| < |path - nodes|
  {
    if n :| n in path && n !in nodes' {
      assert n in path - nodes && n !in nodes' - nodes;
      SmallerSet(nodes' - nodes, path - nodes);
    }
  }

  lemma KeysAdded(tables: Tables, tables': Tables)
    requires forall n :: n in tables ==> n in tables'
    ensures |tables'| == |tables| + |tables'.Keys - tables.Keys|
  {
    assert tables'.Keys == tables.Keys + (tables'.Keys - tables.Keys);
    assert |tables.Keys| == |tables| && |tables'.Keys| == |tables'|;
  }

  lemma SmallerSet(a: set<Node>, b: set<Node>)
    requires a < b
    ensures |a| < |b|
  {
    assert b == a + (b - a);
    assert b - a != {};
  }
}
