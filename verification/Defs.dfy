/** The database of definitions: overloading conflicts and the graph of dependencies. */
module Definitions {
  import opened Wrappers
  import opened Graph

  datatype ItemKind = ConstItem | TypeItem

  datatype Item = Item(kind: ItemKind, name: string)

  /** A definition of an item for one list of type arguments, with the items it mentions. */
  datatype Spec = Spec(def: Option<string>, description: string, lhs: seq<string>, rhs: seq<Item>)

  datatype DefError = Conflict(item: Item, existing: string) | Cyclic(item: Item)

  type Specs = map<Item, seq<Spec>>
  type Deps = map<Item, set<Item>>

  function SpecsOf(specs: Specs, item: Item): seq<Spec> {
    if item in specs then specs[item] else []
  }

  function Successors(g: Deps, item: Item): set<Item> {
    if item in g then g[item] else {}
  }

  predicate DisjointArgs(a: seq<string>, b: seq<string>) {
    |a| != |b| || exists i :: 0 <= i < |a| && a[i] != b[i]
  }

  /** Two definitions overlap if they are for the same type arguments. */
  lemma DisjointMeansDistinct(a: seq<string>, b: seq<string>)
    ensures DisjointArgs(a, b) <==> a != b
  {
    if !DisjointArgs(a, b) { assert a == b; }
  }

  /** The new type arguments meet an earlier specification that has a definition. */
  predicate Blocks(earlier: Spec, lhs: seq<string>) {
    !DisjointArgs(lhs, earlier.lhs) && earlier.def.Some?
  }

  predicate Clashes(existing: seq<Spec>, lhs: seq<string>) {
    exists s :: s in existing && Blocks(s, lhs)
  }

  /** `b` occurs on the right-hand side of some recorded specification of `a`. */
  ghost predicate Recorded(specs: Specs, a: Item, b: Item) {
    exists s :: s in SpecsOf(specs, a) && b in s.rhs
  }

  /** No specification was blocked by an earlier one of its item. */
  predicate Unblocked(existing: seq<Spec>) {
    forall i, j :: 0 <= i < j < |existing| ==> !Blocks(existing[i], existing[j].lhs)
  }

  /** No specification of `theirs` is blocked by one of `mine`. */
  ghost predicate ConflictFree(mine: Specs, theirs: Specs) {
    forall item :: !AnyClashes(SpecsOf(mine, item), SpecsOf(theirs, item))
  }

  ghost predicate AnyClashes(mine: seq<Spec>, theirs: seq<Spec>) {
    exists t :: t in theirs && Clashes(mine, t.lhs)
  }

  /** The specifications with more of them for one item. */
  function Recording(specs: Specs, item: Item, more: seq<Spec>): Specs {
    if more == [] then specs else specs[item := SpecsOf(specs, item) + more]
  }

  /** Merging has reached all items but the `rest`, and met no conflict. */
  ghost predicate MergedExcept(mine: Specs, theirs: Specs, rest: set<Item>, now: Specs) {
    && (forall k :: SpecsOf(now, k) == SpecsOf(mine, k) + (if k in rest then [] else SpecsOf(theirs, k)))
    && (forall k :: k !in rest ==> !AnyClashes(SpecsOf(mine, k), SpecsOf(theirs, k)))
  }

  ghost function Union(g: Deps, h: Deps): Deps {
    map k | k in g.Keys + h.Keys :: Successors(g, k) + Successors(h, k)
  }

  ghost predicate SomeReaches(g: Deps, rhs: seq<Item>, item: Item) {
    exists d :: d in rhs && Reaches(g, d, item)
  }

  // ---------- one new edge ----------

  function AddEdge(g: Deps, a: Item, b: Item): Deps {
    g[a := Successors(g, a) + {b}]
  }

  function AddEdges(g: Deps, a: Item, bs: seq<Item>): Deps
    decreases |bs|
  {
    if bs == [] then g else AddEdge(AddEdges(g, a, bs[..|bs| - 1]), a, bs[|bs| - 1])
  }

  function AddReverse(g: Deps, a: Item, bs: seq<Item>): Deps
    decreases |bs|
  {
    if bs == [] then g else AddEdge(AddReverse(g, a, bs[..|bs| - 1]), bs[|bs| - 1], a)
  }

  lemma EdgeAdded(g: Deps, a: Item, b: Item, x: Item, y: Item)
    ensures Edge(AddEdge(g, a, b), x, y) <==> Edge(g, x, y) || (x == a && y == b)
  {
  }

  lemma {:induction false} EdgesAdded(g: Deps, a: Item, bs: seq<Item>, x: Item, y: Item)
    ensures Edge(AddEdges(g, a, bs), x, y) <==> Edge(g, x, y) || (x == a && y in bs)
    ensures Edge(AddReverse(g, a, bs), y, x) <==> Edge(g, y, x) || (x == a && y in bs)
    decreases |bs|
  {
    if bs != [] {
      var last := |bs| - 1;
      EdgesAdded(g, a, bs[..last], x, y);
      assert bs == bs[..last] + [bs[last]];
      EdgeAdded(AddEdges(g, a, bs[..last]), a, bs[last], x, y);
      EdgeAdded(AddReverse(g, a, bs[..last]), bs[last], a, y, x);
    }
  }

  lemma AllEdgesAdded(g: Deps, rev: Deps, a: Item, bs: seq<Item>)
    ensures forall x, y :: Edge(AddEdges(g, a, bs), x, y) <==> Edge(g, x, y) || (x == a && y in bs)
    ensures forall x, y :: Edge(AddReverse(rev, a, bs), y, x) <==> Edge(rev, y, x) || (x == a && y in bs)
  {
    forall x, y ensures Edge(AddEdges(g, a, bs), x, y) <==> Edge(g, x, y) || (x == a && y in bs) {
      EdgesAdded(g, a, bs, x, y);
    }
    forall x, y ensures Edge(AddReverse(rev, a, bs), y, x) <==> Edge(rev, y, x) || (x == a && y in bs) {
      EdgesAdded(rev, a, bs, x, y);
    }
  }

  /** Edges to `bs` keep the graph acyclic exactly if no target reaches the source of the edges. */
  lemma AddEdgesExact(g: Deps, a: Item, bs: seq<Item>)
    requires Acyclic(g)
    ensures Acyclic(AddEdges(g, a, bs)) <==> !SomeReaches(g, bs, a)
  {
    var targets := Successors(g, a) + set b | b in bs;
    var h := g[a := targets];
    AllEdgesAdded(g, g, a, bs);
    forall x, y ensures Edge(AddEdges(g, a, bs), x, y) <==> Edge(h, x, y) {
    }
    AcyclicHasRank(g);
    RedirectExact(g, a, targets);
    forall t | t in Successors(g, a) ensures !Reaches(g, t, a) {
      assert Edge(g, a, t);
    }
    if Acyclic(AddEdges(g, a, bs)) {
      AcyclicSubgraph(h, AddEdges(g, a, bs));
      AcyclicHasRank(h);
      assert forall b :: b in bs ==> b in targets;
    } else if !SomeReaches(g, bs, a) {
      RankedIsAcyclic(h);
      AcyclicSubgraph(AddEdges(g, a, bs), h);
    }
  }

  /** The dependency database. */
  class Defs {
    var specs: Specs
    var deps: Deps
    var revDeps: Deps

    /** The dependencies are those of the recorded specifications, both ways, and have no cycle. */
    ghost predicate Valid()
      reads this
    {
      && (forall a, b :: Edge(deps, a, b) <==> Recorded(specs, a, b))
      && (forall a, b :: Edge(revDeps, b, a) <==> Edge(deps, a, b))
      && Acyclic(deps)
      && (forall item :: Unblocked(SpecsOf(specs, item)))
    }

    constructor Empty()
      ensures Valid() && specs == map[] && deps == map[] && revDeps == map[]
    {
      specs, deps, revDeps := map[], map[], map[];
    }

    constructor Clone(from: Defs)
      requires from.Valid()
      ensures Valid() && specs == from.specs && deps == from.deps && revDeps == from.revDeps
    {
      specs, deps, revDeps := from.specs, from.deps, from.revDeps;
    }

    /** Depth-first search with one visited set for the whole query; on failure every newly visited item is finished. */
    method IsTransitiveDep(node: Item, ancestor: Item, visited: set<Item>) returns (found: bool, after: set<Item>)
      requires ancestor !in visited
      ensures visited <= after
      ensures found ==> Reaches(deps, node, ancestor)
      ensures !found ==> node in after && ancestor !in after
      ensures !found ==> forall n, m :: n in after - visited && Edge(deps, n, m) ==> m in after
      decreases |deps.Keys - visited|
    {
      after := visited;
      if node == ancestor {
        ReachesSelf(deps, node);
        return true, after;
      }
      if node in visited { return false, after; }
      after := after + {node};
      if node in deps {
        assert deps.Keys - after < deps.Keys - visited by { assert node in deps.Keys - visited; }
        SmallerSet(deps.Keys - after, deps.Keys - visited);
        var rest := deps[node];
        while rest != {}
          invariant rest <= deps[node] && visited + {node} <= after && ancestor !in after
          invariant forall m :: m in deps[node] - rest ==> m in after
          invariant forall n, m :: n in after - visited - {node} && Edge(deps, n, m) ==> m in after
          decreases |rest|
        {
          var dep :| dep in rest;
          ghost var before := after;
          SubsetSize(deps.Keys - before, deps.Keys - (visited + {node}));
          found, after := IsTransitiveDep(dep, ancestor, after);
          if found {
            ReachesStep(deps, node, dep, ancestor);
            return;
          }
          rest := rest - {dep};
        }
      }
      found := false;
    }

    /** A new definition is rejected as cyclic exactly if something it mentions already depends on its item. */
    method WouldCreateCycle(item: Item, rhs: seq<Item>) returns (found: bool)
      ensures found <==> SomeReaches(deps, rhs, item)
    {
      var visited := {};
      for i := 0 to |rhs|
        invariant item !in visited
        invariant forall j :: 0 <= j < i ==> rhs[j] in visited
        invariant forall n, m :: n in visited && Edge(deps, n, m) ==> m in visited
      {
        found, visited := IsTransitiveDep(rhs[i], item, visited);
        if found {
          assert rhs[i] in rhs;
          return;
        }
      }
      found := false;
      forall d | d in rhs ensures !Reaches(deps, d, item) {
        if Reaches(deps, d, item) {
          var p :| PathFrom(deps, p, d, item);
          var closed := iset n | n in visited;
          ClosedSet(deps, closed, p);
        }
      }
    }

    method Define(def: Option<string>, description: string, item: Item, lhs: seq<string>, rhs: seq<Item>)
      returns (r: Result<(), DefError>)
      requires Valid()
      modifies this
      ensures Valid()
      ensures r.Ok? <==> !Clashes(SpecsOf(old(specs), item), lhs) && !SomeReaches(old(deps), rhs, item)
      ensures r.Err? ==> specs == old(specs) && deps == old(deps) && revDeps == old(revDeps) && r.error.item == item
      ensures r.Err? ==> (r.error.Conflict? <==> Clashes(SpecsOf(old(specs), item), lhs))
      ensures r.Err? && r.error.Conflict? ==> exists s :: s in SpecsOf(specs, item) && Blocks(s, lhs) && s.def == Some(r.error.existing)
      ensures r.Ok? ==> specs == old(specs)[item := SpecsOf(old(specs), item) + [Spec(def, description, lhs, rhs)]]
      ensures r.Ok? ==> deps == AddEdges(old(deps), item, rhs) && revDeps == AddReverse(old(revDeps), item, rhs)
    {
      if item in specs {
        for i := 0 to |specs[item]|
          invariant forall j :: 0 <= j < i ==> !Blocks(specs[item][j], lhs)
        {
          var existing := specs[item][i];
          if !DisjointArgs(lhs, existing.lhs) && existing.def.Some? {
            assert existing in SpecsOf(specs, item) && Blocks(existing, lhs);
            return Err(Conflict(item, existing.def.value));
          }
        }
      }
      var cyclic := WouldCreateCycle(item, rhs);
      if cyclic { return Err(Cyclic(item)); }
      ghost var oldSpecs, oldDeps, oldRev := specs, deps, revDeps;
      var spec := Spec(def, description, lhs, rhs);
      specs := specs[item := SpecsOf(specs, item) + [spec]];
      for i := 0 to |rhs|
        invariant specs == oldSpecs[item := SpecsOf(oldSpecs, item) + [spec]]
        invariant deps == AddEdges(oldDeps, item, rhs[..i]) && revDeps == AddReverse(oldRev, item, rhs[..i])
      {
        assert rhs[..i + 1][..i] == rhs[..i];
        deps := deps[item := Successors(deps, item) + {rhs[i]}];
        revDeps := revDeps[rhs[i] := Successors(revDeps, rhs[i]) + {item}];
      }
      assert rhs[..|rhs|] == rhs;
      AllEdgesAdded(oldDeps, oldRev, item, rhs);
      AddEdgesExact(oldDeps, item, rhs);
      RecordedAfter(oldSpecs, item, spec);
      return Ok(());
    }

    /** The inner loop of a merge: the specifications of one item. */
    method DefineAll(item: Item, theirs: seq<Spec>) returns (r: Result<(), DefError>)
      requires Valid() && Unblocked(theirs)
      modifies this
      ensures Valid()
      ensures r.Ok? ==> specs == Recording(old(specs), item, theirs) && !AnyClashes(SpecsOf(old(specs), item), theirs)
      ensures r.Err? ==> exists i :: 0 <= i < |theirs| && specs == Recording(old(specs), item, theirs[..i])
      ensures r.Err? && r.error.Conflict? ==> AnyClashes(SpecsOf(old(specs), item), theirs)
      ensures r.Err? && r.error.Cyclic? ==> exists t :: t in theirs && SomeReaches(deps, t.rhs, item)
    {
      ghost var before := specs;
      for i := 0 to |theirs|
        invariant Valid()
        invariant specs == Recording(before, item, theirs[..i])
        invariant !AnyClashes(SpecsOf(before, item), theirs[..i])
      {
        RecordOne(before, item, theirs, i);
        r := Define(theirs[i].def, theirs[i].description, item, theirs[i].lhs, theirs[i].rhs);
        if r.Err? { return; }
      }
      assert theirs[..|theirs|] == theirs;
      return Ok(());
    }

    /**
     The specifications of `other` are added to a copy one by one, in whatever order its items come.
     Without conflicts this succeeds exactly if the union of the two graphs has no cycle.
     */
    method Merge(other: Defs) returns (r: Result<Defs, DefError>)
      requires Valid() && other.Valid()
      ensures r.Ok? <==> ConflictFree(specs, other.specs) && Acyclic(Union(deps, other.deps))
      ensures r.Ok? ==> fresh(r.value) && r.value.Valid()
      ensures r.Ok? ==> forall item :: SpecsOf(r.value.specs, item) == SpecsOf(specs, item) + SpecsOf(other.specs, item)
      ensures r.Ok? ==> forall a, b :: Edge(r.value.deps, a, b) <==> Edge(deps, a, b) || Edge(other.deps, a, b)
      ensures r.Err? && r.error.Conflict? ==> !ConflictFree(specs, other.specs)
      ensures r.Err? && r.error.Cyclic? ==> !Acyclic(Union(deps, other.deps))
    {
      var result := new Defs.Clone(this);
      var rest := other.specs.Keys;
      while rest != {}
        invariant fresh(result) && result.Valid() && rest <= other.specs.Keys
        invariant MergedExcept(specs, other.specs, rest, result.specs)
        decreases |rest|
      {
        var item :| item in rest;
        MergeItem(specs, other.specs, rest, result.specs, item);
        var step := result.DefineAll(item, other.specs[item]);
        if step.Err? {
          if step.error.Cyclic? {
            SubgraphOfUnion(specs, deps, other.specs, other.deps, result.specs, result.deps);
            CycleInUnion(result.deps, other.specs, other.deps, Union(deps, other.deps), item);
          }
          return Err(step.error);
        }
        rest := rest - {item};
      }
      SubgraphOfUnion(specs, deps, other.specs, other.deps, result.specs, result.deps);
      AcyclicSubgraph(Union(deps, other.deps), result.deps);
      return Ok(result);
    }
  }

  lemma RecordedAfter(specs: Specs, item: Item, spec: Spec)
    requires forall k :: Unblocked(SpecsOf(specs, k))
    requires !Clashes(SpecsOf(specs, item), spec.lhs)
    ensures var after := specs[item := SpecsOf(specs, item) + [spec]];
            && (forall a, b :: Recorded(after, a, b) <==> Recorded(specs, a, b) || (a == item && b in spec.rhs))
            && (forall k :: Unblocked(SpecsOf(after, k)))
  {
    var after := specs[item := SpecsOf(specs, item) + [spec]];
    forall k ensures Unblocked(SpecsOf(after, k)) {
      assert k != item ==> SpecsOf(after, k) == SpecsOf(specs, k);
    }
    forall a, b ensures Recorded(after, a, b) <==> Recorded(specs, a, b) || (a == item && b in spec.rhs) {
      if a == item && b in spec.rhs { assert spec in SpecsOf(after, a); }
      if Recorded(specs, a, b) {
        var s :| s in SpecsOf(specs, a) && b in s.rhs;
        assert s in SpecsOf(after, a);
      }
    }
  }

  lemma RecordOne(before: Specs, item: Item, theirs: seq<Spec>, i: nat)
    requires i < |theirs| && Unblocked(theirs) && !AnyClashes(SpecsOf(before, item), theirs[..i])
    ensures theirs[i] in theirs
    ensures Clashes(SpecsOf(Recording(before, item, theirs[..i]), item), theirs[i].lhs) ==
            AnyClashes(SpecsOf(before, item), theirs[..i + 1])
    ensures AnyClashes(SpecsOf(before, item), theirs[..i + 1]) ==> AnyClashes(SpecsOf(before, item), theirs)
    ensures var now := Recording(before, item, theirs[..i]);
            Recording(before, item, theirs[..i + 1]) ==
            now[item := SpecsOf(now, item) + [Spec(theirs[i].def, theirs[i].description, theirs[i].lhs, theirs[i].rhs)]]
  {
    var mine := SpecsOf(before, item);
    assert theirs[..i + 1] == theirs[..i] + [theirs[i]];
    assert SpecsOf(Recording(before, item, theirs[..i]), item) == mine + theirs[..i];
    assert mine + theirs[..i + 1] == (mine + theirs[..i]) + [theirs[i]];
    if Clashes(mine, theirs[i].lhs) {
      var s :| s in mine && Blocks(s, theirs[i].lhs);
      assert s in mine + theirs[..i];
    }
  }

  lemma MergeItem(mine: Specs, theirs: Specs, rest: set<Item>, now: Specs, item: Item)
    requires MergedExcept(mine, theirs, rest, now) && item in rest && item in theirs
    ensures SpecsOf(now, item) == SpecsOf(mine, item) && theirs[item] == SpecsOf(theirs, item)
    ensures !AnyClashes(SpecsOf(mine, item), theirs[item]) ==>
              MergedExcept(mine, theirs, rest - {item}, Recording(now, item, theirs[item]))
    ensures forall i :: 0 <= i <= |theirs[item]| ==> Between(mine, theirs, Recording(now, item, theirs[item][..i]))
  {
  }

  /** Every specification comes from one of the two databases. */
  ghost predicate Between(mine: Specs, theirs: Specs, now: Specs) {
    forall k, s :: s in SpecsOf(now, k) ==> s in SpecsOf(mine, k) || s in SpecsOf(theirs, k)
  }

  lemma SubgraphOfUnion(mine: Specs, g: Deps, theirs: Specs, h: Deps, now: Specs, nowDeps: Deps)
    requires forall a, b :: Edge(g, a, b) <==> Recorded(mine, a, b)
    requires forall a, b :: Edge(h, a, b) <==> Recorded(theirs, a, b)
    requires forall a, b :: Edge(nowDeps, a, b) <==> Recorded(now, a, b)
    requires Between(mine, theirs, now)
    ensures Subgraph(nowDeps, Union(g, h))
    ensures (forall k :: SpecsOf(now, k) == SpecsOf(mine, k) + SpecsOf(theirs, k)) ==>
              forall a, b :: Edge(nowDeps, a, b) <==> Edge(g, a, b) || Edge(h, a, b)
    ensures forall a, b :: Edge(Union(g, h), a, b) <==> Edge(g, a, b) || Edge(h, a, b)
  {
    forall a, b ensures Edge(Union(g, h), a, b) <==> Edge(g, a, b) || Edge(h, a, b) {
    }
    forall a, b | Recorded(now, a, b) ensures Recorded(mine, a, b) || Recorded(theirs, a, b) {
      var s :| s in SpecsOf(now, a) && b in s.rhs;
    }
    if forall k :: SpecsOf(now, k) == SpecsOf(mine, k) + SpecsOf(theirs, k) {
      forall a, b | Recorded(mine, a, b) || Recorded(theirs, a, b) ensures Recorded(now, a, b) {
        var s :| (s in SpecsOf(mine, a) || s in SpecsOf(theirs, a)) && b in s.rhs;
        assert s in SpecsOf(now, a);
      }
    }
  }

  lemma CycleInUnion(g: Deps, theirs: Specs, h: Deps, union: Deps, item: Item)
    requires Subgraph(g, union) && Subgraph(h, union)
    requires forall a, b :: Edge(h, a, b) <==> Recorded(theirs, a, b)
    requires exists t :: t in SpecsOf(theirs, item) && SomeReaches(g, t.rhs, item)
    ensures !Acyclic(union)
  {
    var t :| t in SpecsOf(theirs, item) && SomeReaches(g, t.rhs, item);
    var d :| d in t.rhs && Reaches(g, d, item);
    ReachesMonotone(g, union, d, item);
    assert Recorded(theirs, item, d);
    assert Edge(union, item, d);
  }

  lemma SubsetSize(a: set<Item>, b: set<Item>)
    requires a <= b
    ensures |a| <= |b|
  {
    assert b == a + (b - a);
  }

  lemma SmallerSet(a: set<Item>, b: set<Item>)
    requires a < b
    ensures |a| < |b|
  {
    SubsetSize(a, b);
    assert b == a + (b - a) && b - a != {};
  }
}
