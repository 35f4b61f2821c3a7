/** The algebra of type classes: the subclass relation and the order of sorts. */
module Sorts {
  import opened Syntax
  import opened Graph
  import opened TermOrd

  type ClassGraph = map<Symbol, seq<Symbol>>

  function SupersOf(g: ClassGraph, c: Symbol): seq<Symbol> {
    if c in g then g[c] else []
  }

  function Supers(g: ClassGraph): map<Symbol, set<Symbol>> {
    map c | c in g :: set s | s in g[c]
  }

  /** The subclass relation: the reflexive-transitive closure of the declared superclasses. */
  ghost predicate SubClass(g: ClassGraph, c1: Symbol, c2: Symbol) {
    Reaches(Supers(g), c1, c2)
  }

  /** Every class of the second sort has a subclass in the first. */
  ghost predicate SubSort(g: ClassGraph, s1: seq<Symbol>, s2: seq<Symbol>) {
    forall c2 :: c2 in s2 ==> exists c1 :: c1 in s1 && SubClass(g, c1, c2)
  }

  /** A search in progress: what was seen and what waits covers all successors, and nothing else was met. */
  ghost predicate Searching(g: ClassGraph, start: Symbol, visited: set<Symbol>, stack: seq<Symbol>) {
    && (start in visited || start in stack)
    && (forall c, d :: c in visited && Edge(Supers(g), c, d) ==> d in visited || d in stack)
    && (forall c :: c in visited || c in stack ==> SubClass(g, start, c))
  }

  lemma SearchStarts(g: ClassGraph, start: Symbol)
    ensures Searching(g, start, {}, [start])
  {
    ReachesSelf(Supers(g), start);
  }

  lemma SearchSkips(g: ClassGraph, start: Symbol, visited: set<Symbol>, stack: seq<Symbol>)
    requires Searching(g, start, visited, stack) && stack != [] && stack[|stack| - 1] in visited
    ensures Searching(g, start, visited, stack[..|stack| - 1])
  {
    assert stack == stack[..|stack| - 1] + [stack[|stack| - 1]];
  }

  lemma SearchVisits(g: ClassGraph, start: Symbol, visited: set<Symbol>, stack: seq<Symbol>)
    requires Searching(g, start, visited, stack) && stack != []
    ensures var cur := stack[|stack| - 1];
            Searching(g, start, visited + {cur}, stack[..|stack| - 1] + SupersOf(g, cur))
  {
    var rest, cur := stack[..|stack| - 1], stack[|stack| - 1];
    var next := rest + SupersOf(g, cur);
    assert stack == rest + [cur];
    assert forall c :: c in rest ==> c in next;
    forall d | d in SupersOf(g, cur) ensures SubClass(g, start, d) && d in next {
      assert Edge(Supers(g), cur, d);
      ReachesSelf(Supers(g), d);
      ReachesStep(Supers(g), cur, d, d);
      ReachesTransitive(Supers(g), start, cur, d);
    }
    forall d | Edge(Supers(g), cur, d) ensures d in next {
      assert d in SupersOf(g, cur);
    }
  }

  lemma SearchEnds(g: ClassGraph, start: Symbol, visited: set<Symbol>)
    requires Searching(g, start, visited, [])
    ensures forall c :: c in visited <==> SubClass(g, start, c)
  {
    var closed := iset c | c in visited;
    forall c | SubClass(g, start, c) ensures c in visited {
      var p :| PathFrom(Supers(g), p, start, c);
      ClosedSet(Supers(g), closed, p);
    }
  }

  /** Visiting a class with superclasses leaves fewer to visit. */
  lemma Progress(keys: set<Symbol>, visited: set<Symbol>, cur: Symbol)
    requires cur !in visited
    ensures |keys - (visited + {cur})| <= |keys - visited|
    ensures cur in keys ==> |keys - (visited + {cur})| < |keys - visited|
  {
    var rest := keys - (visited + {cur});
    if cur in keys {
      assert keys - visited == rest + {cur};
    } else {
      assert keys - visited == rest;
    }
  }

  // ---------- ordered sets ----------

  predicate Ascending(r: seq<Symbol>) {
    forall i, j :: 0 <= i < j < |r| ==> CmpString(r[i], r[j]) == Less
  }

  predicate IsLeast(m: Symbol, s: set<Symbol>) {
    m in s && forall x :: x in s ==> CmpString(m, x) != Greater
  }

  lemma {:induction false} LeastExists(s: set<Symbol>)
    requires s != {}
    ensures exists m :: IsLeast(m, s)
    decreases |s|
  {
    StringsTotal();
    var x :| x in s;
    var rest := s - {x};
    if rest == {} {
      assert s == {x};
      assert IsLeast(x, s);
    } else {
      LeastExists(rest);
      var m :| IsLeast(m, rest);
      var least := if CmpString(m, x) == Greater then x else m;
      forall y | y in s ensures CmpString(least, y) != Greater {
        assert Chain(CmpString(x, m), CmpString(m, y), CmpString(x, y));
      }
      assert IsLeast(least, s);
    }
  }

  lemma LeastIsFirst(m: Symbol, s: set<Symbol>)
    requires IsLeast(m, s)
    ensures forall x :: x in s - {m} ==> CmpString(m, x) == Less
  {
    StringsTotal();
  }

  /** The elements of an ordered set in ascending order. */
  method Enumerate(s: set<Symbol>) returns (r: seq<Symbol>)
    ensures forall x :: x in r <==> x in s
    ensures Ascending(r)
  {
    r := [];
    var rest := s;
    while rest != {}
      invariant rest <= s && Ascending(r)
      invariant forall x :: x in s <==> x in r || x in rest
      invariant forall x, y :: x in r && y in rest ==> CmpString(x, y) == Less
      decreases |rest|
    {
      LeastExists(rest);
      var m :| IsLeast(m, rest);
      LeastIsFirst(m, rest);
      r, rest := r + [m], rest - {m};
    }
  }

  class Algebra {
    var classGraph: ClassGraph

    constructor Pure()
      ensures classGraph == map["type" := []]
    {
      classGraph := map["type" := []];
    }

    /** A class is added with exactly the given superclasses; what it had before is forgotten. */
    method AddClass(c: Symbol, superclasses: seq<Symbol>)
      modifies this
      ensures classGraph.Keys == old(classGraph).Keys + {c} + set s | s in superclasses
      ensures SupersOf(classGraph, c) == superclasses
      ensures forall a :: a != c ==> SupersOf(classGraph, a) == SupersOf(old(classGraph), a)
    {
      classGraph := classGraph[c := superclasses];
      for i := 0 to |superclasses|
        invariant classGraph.Keys == old(classGraph).Keys + {c} + set s | s in superclasses[..i]
        invariant SupersOf(classGraph, c) == superclasses
        invariant forall a :: a != c ==> SupersOf(classGraph, a) == SupersOf(old(classGraph), a)
      {
        assert superclasses[..i + 1] == superclasses[..i] + [superclasses[i]];
        if superclasses[i] !in classGraph {
          assert superclasses[i] !in old(classGraph) && superclasses[i] != c;
          classGraph := classGraph[superclasses[i] := []];
        }
      }
      assert superclasses[..|superclasses|] == superclasses;
    }

    /** The subclass relation grows by exactly what the new edge connects. */
    method AddClassrel(sub: Symbol, sup: Symbol)
      modifies this
      ensures classGraph.Keys == old(classGraph).Keys + {sub, sup}
      ensures forall a :: SupersOf(classGraph, a) == SupersOf(old(classGraph), a) + if a == sub then [sup] else []
      ensures forall a, b :: SubClass(classGraph, a, b) <==>
                SubClass(old(classGraph), a, b) || (SubClass(old(classGraph), a, sub) && SubClass(old(classGraph), sup, b))
    {
      classGraph := classGraph[sub := SupersOf(classGraph, sub) + [sup]];
      if sup !in classGraph {
        classGraph := classGraph[sup := []];
      }
      NewEdgeExact(old(classGraph), classGraph, sub, sup);
    }

    method ClassLe(c1: Symbol, c2: Symbol) returns (r: bool)
      ensures r <==> SubClass(classGraph, c1, c2)
    {
      if c1 == c2 {
        ReachesSelf(Supers(classGraph), c1);
        return true;
      }
      var visited: set<Symbol>, stack := {}, [c1];
      SearchStarts(classGraph, c1);
      while stack != []
        invariant Searching(classGraph, c1, visited, stack) && c2 !in visited
        decreases |classGraph.Keys - visited|, |stack|
      {
        var cur := stack[|stack| - 1];
        ghost var waiting := stack;
        stack := stack[..|stack| - 1];
        if cur in visited {
          SearchSkips(classGraph, c1, visited, waiting);
        } else {
          SearchVisits(classGraph, c1, visited, waiting);
          Progress(classGraph.Keys, visited, cur);
          if cur == c2 {
            assert cur in waiting;
            return true;
          }
          visited := visited + {cur};
          stack := stack + SupersOf(classGraph, cur);
        }
      }
      SearchEnds(classGraph, c1, visited);
      return false;
    }

    /** The superclasses come out of an ordered set, so they are listed in ascending order. */
    method AllSuperClasses(c: Symbol) returns (result: seq<Symbol>)
      ensures forall d :: d in result <==> SubClass(classGraph, c, d)
      ensures Ascending(result)
    {
      var stack, found: set<Symbol> := [c], {};
      SearchStarts(classGraph, c);
      while stack != []
        invariant Searching(classGraph, c, found, stack)
        decreases |classGraph.Keys - found|, |stack|
      {
        var cur := stack[|stack| - 1];
        ghost var waiting := stack;
        stack := stack[..|stack| - 1];
        if cur in found {
          SearchSkips(classGraph, c, found, waiting);
        } else {
          SearchVisits(classGraph, c, found, waiting);
          Progress(classGraph.Keys, found, cur);
          found := found + {cur};
          stack := stack + SupersOf(classGraph, cur);
        }
      }
      SearchEnds(classGraph, c, found);
      result := Enumerate(found);
    }

    method SortLe(s1: seq<Symbol>, s2: seq<Symbol>) returns (r: bool)
      ensures r <==> SubSort(classGraph, s1, s2)
    {
      for i := 0 to |s2|
        invariant forall j :: 0 <= j < i ==> exists c1 :: c1 in s1 && SubClass(classGraph, c1, s2[j])
      {
        r := false;
        for j := 0 to |s1|
          invariant !r && forall k :: 0 <= k < j ==> !SubClass(classGraph, s1[k], s2[i])
        {
          r := ClassLe(s1[j], s2[i]);
          if r {
            assert s1[j] in s1 && SubClass(classGraph, s1[j], s2[i]);
            break;
          }
        }
        if !r {
          assert s2[i] in s2;
          return;
        }
      }
      return true;
    }

    method SortEq(s1: seq<Symbol>, s2: seq<Symbol>) returns (r: bool)
      ensures r <==> SubSort(classGraph, s1, s2) && SubSort(classGraph, s2, s1)
    {
      r := SortLe(s1, s2);
      if r { r := SortLe(s2, s1); }
    }
  }

  lemma {:induction false} NewEdgePath(g: map<Symbol, set<Symbol>>, h: map<Symbol, set<Symbol>>, sub: Symbol, sup: Symbol, p: seq<Symbol>)
    requires forall a, b :: Edge(h, a, b) ==> Edge(g, a, b) || (a == sub && b == sup)
    requires Path(h, p)
    ensures Reaches(g, p[0], p[|p| - 1]) || (Reaches(g, p[0], sub) && Reaches(g, sup, p[|p| - 1]))
    decreases |p|
  {
    var last := p[|p| - 1];
    if |p| == 1 {
      ReachesSelf(g, p[0]);
    } else {
      var rest := p[1..];
      PathTail(h, p);
      NewEdgePath(g, h, sub, sup, rest);
      assert Edge(h, p[0], p[1]);
      if Edge(g, p[0], p[1]) {
        if Reaches(g, p[1], last) { ReachesStep(g, p[0], p[1], last); } else { ReachesStep(g, p[0], p[1], sub); }
      } else {
        ReachesSelf(g, sub);
      }
    }
  }

  lemma NewEdgeExact(old_: ClassGraph, now: ClassGraph, sub: Symbol, sup: Symbol)
    requires forall a :: SupersOf(now, a) == SupersOf(old_, a) + if a == sub then [sup] else []
    ensures forall a, b :: SubClass(now, a, b) <==>
              SubClass(old_, a, b) || (SubClass(old_, a, sub) && SubClass(old_, sup, b))
  {
    var g, h := Supers(old_), Supers(now);
    forall a, b ensures Edge(h, a, b) <==> Edge(g, a, b) || (a == sub && b == sup) {
      assert Edge(h, a, b) <==> b in SupersOf(now, a);
      assert Edge(g, a, b) <==> b in SupersOf(old_, a);
    }
    forall a, b ensures Reaches(h, a, b) <==> Reaches(g, a, b) || (Reaches(g, a, sub) && Reaches(g, sup, b)) {
      if Reaches(h, a, b) {
        var p :| PathFrom(h, p, a, b);
        NewEdgePath(g, h, sub, sup, p);
      }
      if Reaches(g, a, b) {
        ReachesMonotone(g, h, a, b);
      } else if Reaches(g, a, sub) && Reaches(g, sup, b) {
        ReachesMonotone(g, h, a, sub);
        ReachesMonotone(g, h, sup, b);
        ReachesStep(h, sub, sup, b);
        ReachesTransitive(h, a, sub, b);
      }
    }
  }

  /** Sorts are preordered, and a sort is below each of its parts. */
  lemma SortsPreordered(g: ClassGraph, s: seq<Symbol>, t: seq<Symbol>, u: seq<Symbol>)
    ensures (forall c :: c in t ==> c in s) ==> SubSort(g, s, t)
    ensures SubSort(g, s, t) && SubSort(g, t, u) ==> SubSort(g, s, u)
    ensures SubSort(g, s, t + u) <==> SubSort(g, s, t) && SubSort(g, s, u)
  {
    forall c ensures SubClass(g, c, c) {
      ReachesSelf(Supers(g), c);
    }
    forall a, b, c | SubClass(g, a, b) && SubClass(g, b, c) ensures SubClass(g, a, c) {
      ReachesTransitive(Supers(g), a, b, c);
    }
    assert forall c :: c in t + u <==> c in t || c in u;
    if SubSort(g, s, t) && SubSort(g, t, u) {
      forall c | c in u ensures exists a :: a in s && SubClass(g, a, c) {
        var b :| b in t && SubClass(g, b, c);
        var a :| a in s && SubClass(g, a, b);
      }
    }
  }

  lemma {:induction false} PathSimulated(g: map<Symbol, set<Symbol>>, h: map<Symbol, set<Symbol>>, p: seq<Symbol>)
    requires Path(g, p) && forall a, b :: Edge(g, a, b) ==> Reaches(h, a, b)
    ensures Reaches(h, p[0], p[|p| - 1])
    decreases |p|
  {
    var last := |p| - 1;
    if last == 0 {
      ReachesSelf(h, p[0]);
    } else {
      PathSimulated(g, h, p[..last]);
      assert Edge(g, p[last - 1], p[last]);
      ReachesTransitive(h, p[0], p[last - 1], p[last]);
    }
  }

  /** Adding a class keeps every subclass relation exactly if it keeps those to the class's old superclasses. */
  lemma AddClassExact(g: ClassGraph, now: ClassGraph, c: Symbol)
    requires forall a :: a != c ==> SupersOf(now, a) == SupersOf(g, a)
    ensures (forall a, b :: SubClass(g, a, b) ==> SubClass(now, a, b)) <==>
            (forall s :: s in SupersOf(g, c) ==> SubClass(now, c, s))
  {
    forall a, b | b in SupersOf(g, a) ensures SubClass(g, a, b) {
      assert Edge(Supers(g), a, b);
      ReachesSelf(Supers(g), b);
      ReachesStep(Supers(g), a, b, b);
    }
    if forall s :: s in SupersOf(g, c) ==> SubClass(now, c, s) {
      forall a, b | Edge(Supers(g), a, b) ensures SubClass(now, a, b) {
        assert b in SupersOf(g, a);
        if a != c {
          assert b in SupersOf(now, a);
          assert Edge(Supers(now), a, b);
          ReachesSelf(Supers(now), b);
          ReachesStep(Supers(now), a, b, b);
        }
      }
      forall a, b | SubClass(g, a, b) ensures SubClass(now, a, b) {
        var p :| PathFrom(Supers(g), p, a, b);
        PathSimulated(Supers(g), Supers(now), p);
      }
    }
  }

  /** Adding a class a second time can drop a subclass relation. */
  lemma ReaddingForgets()
    ensures var before: ClassGraph := map["order" := ["ord"], "ord" := []];
            SubClass(before, "order", "ord") && !SubClass(before["order" := []], "order", "ord")
  {
    var before: ClassGraph := map["order" := ["ord"], "ord" := []];
    assert PathFrom(Supers(before), ["order", "ord"], "order", "ord");
    if SubClass(before["order" := []], "order", "ord") {
      assert |"order"| != |"ord"|;
      ReachesFromSink(Supers(before["order" := []]), "order", "ord");
    }
  }
}
