/** Finite directed graphs: ranks, paths and reachability. */
module Graph {

  /** Every edge leads to a node of smaller rank. */
  ghost predicate Ranked<K(!new)>(g: map<K, set<K>>, rank: K -> nat) {
    forall k, j :: k in g && j in g[k] ==> rank(j) < rank(k)
  }

  lemma RankedEdge<K(!new)>(g: map<K, set<K>>, rank: K -> nat, k: K, j: K)
    requires Ranked(g, rank) && k in g && j in g[k]
    ensures rank(j) < rank(k)
  {
  }

  ghost predicate HasRank<K(!new)>(g: map<K, set<K>>) {
    exists rank: K -> nat :: Ranked(g, rank)
  }

  /** A path lists its nodes; it has at least one. */
  ghost predicate Path<K(!new)>(g: map<K, set<K>>, p: seq<K>) {
    p != [] && forall i :: 0 <= i < |p| - 1 ==> p[i] in g && p[i + 1] in g[p[i]]
  }

  ghost predicate PathFrom<K(!new)>(g: map<K, set<K>>, p: seq<K>, a: K, b: K) {
    Path(g, p) && p[0] == a && p[|p| - 1] == b
  }

  /** The reflexive-transitive closure of the edges. */
  ghost predicate Reaches<K(!new)>(g: map<K, set<K>>, a: K, b: K) {
    exists p :: PathFrom(g, p, a, b)
  }

  ghost predicate Edge<K(!new)>(g: map<K, set<K>>, a: K, b: K) {
    a in g && b in g[a]
  }

  ghost predicate Acyclic<K(!new)>(g: map<K, set<K>>) {
    forall a, b :: Edge(g, a, b) ==> !Reaches(g, b, a)
  }

  ghost predicate Subgraph<K(!new)>(g: map<K, set<K>>, h: map<K, set<K>>) {
    forall a, b :: Edge(g, a, b) ==> Edge(h, a, b)
  }

  lemma ReachesSelf<K(!new)>(g: map<K, set<K>>, a: K)
    ensures Reaches(g, a, a)
  {
    assert PathFrom(g, [a], a, a);
  }

  lemma ReachesStep<K(!new)>(g: map<K, set<K>>, a: K, b: K, c: K)
    requires Edge(g, a, b) && Reaches(g, b, c)
    ensures Reaches(g, a, c)
  {
    var p :| PathFrom(g, p, b, c);
    assert PathFrom(g, [a] + p, a, c);
  }

  lemma ReachesTransitive<K(!new)>(g: map<K, set<K>>, a: K, b: K, c: K)
    requires Reaches(g, a, b) && Reaches(g, b, c)
    ensures Reaches(g, a, c)
  {
    var p :| PathFrom(g, p, a, b);
    var q :| PathFrom(g, q, b, c);
    assert PathFrom(g, p + q[1..], a, c);
  }

  lemma PathTail<K(!new)>(g: map<K, set<K>>, p: seq<K>)
    requires Path(g, p) && |p| > 1
    ensures Path(g, p[1..])
  {
    forall i | 0 <= i < |p[1..]| - 1 ensures p[1..][i] in g && p[1..][i + 1] in g[p[1..][i]] {
      assert p[1..][i] == p[i + 1] && p[1..][i + 1] == p[i + 2];
    }
  }

  /** A path leaves a closed set never. */
  lemma {:induction false} ClosedSet<K(!new)>(g: map<K, set<K>>, s: iset<K>, p: seq<K>)
    requires Path(g, p) && p[0] in s
    requires forall a, b :: a in s && Edge(g, a, b) ==> b in s
    ensures p[|p| - 1] in s
    decreases |p|
  {
    if |p| > 1 {
      assert Edge(g, p[0], p[1]);
      PathTail(g, p);
      ClosedSet(g, s, p[1..]);
    }
  }

  lemma ReachesMonotone<K(!new)>(g: map<K, set<K>>, h: map<K, set<K>>, a: K, b: K)
    requires Subgraph(g, h) && Reaches(g, a, b)
    ensures Reaches(h, a, b)
  {
    var p :| PathFrom(g, p, a, b);
    forall i | 0 <= i < |p| - 1 ensures p[i] in h && p[i + 1] in h[p[i]] {
      assert Edge(g, p[i], p[i + 1]);
    }
    assert PathFrom(h, p, a, b);
  }

  lemma AcyclicSubgraph<K(!new)>(g: map<K, set<K>>, h: map<K, set<K>>)
    requires Subgraph(g, h) && Acyclic(h)
    ensures Acyclic(g)
  {
    forall a, b | Edge(g, a, b) ensures !Reaches(g, b, a) {
      if Reaches(g, b, a) { ReachesMonotone(g, h, b, a); }
    }
  }

  lemma {:induction false} RankFallsAlong<K(!new)>(g: map<K, set<K>>, rank: K -> nat, p: seq<K>)
    requires Ranked(g, rank) && Path(g, p)
    ensures rank(p[|p| - 1]) <= rank(p[0])
    decreases |p|
  {
    if |p| > 1 {
      RankFallsAlong(g, rank, p[..|p| - 1]);
    }
  }

  /** A ranked graph has no cycle. */
  lemma RankedIsAcyclic<K(!new)>(g: map<K, set<K>>)
    requires HasRank(g)
    ensures Acyclic(g)
  {
    var rank: K -> nat :| Ranked(g, rank);
    forall a, b | Edge(g, a, b) ensures !Reaches(g, b, a) {
      if Reaches(g, b, a) {
        var p :| PathFrom(g, p, b, a);
        RankFallsAlong(g, rank, p);
      }
    }
  }

  ghost function Highest<K(!new)>(rank: K -> nat, s: set<K>): (r: nat)
    ensures forall k :: k in s ==> rank(k) < r
    ensures r == 0 || exists k :: k in s && r == rank(k) + 1
  {
    if s == {} then 0
    else
      var k :| k in s;
      var r := Highest(rank, s - {k});
      if rank(k) < r then r else rank(k) + 1
  }

  /** Redirecting a node to targets from which it cannot be reached keeps a rank. */
  lemma RedirectKeepsRank<K(!new)>(g: map<K, set<K>>, k: K, targets: set<K>)
    requires HasRank(g)
    requires forall t :: t in targets ==> !Reaches(g, t, k)
    ensures HasRank(g[k := targets])
  {
    var rank: K -> nat :| Ranked(g, rank);
    var top := Highest(rank, targets);
    var reaching := iset j | Reaches(g, j, k);
    var raised: K -> nat := j => if j in reaching then rank(j) + top else rank(j);
    ReachesSelf(g, k);
    var h := g[k := targets];
    forall a, b | a in h && b in h[a] ensures raised(b) < raised(a) {
      if a == k {
        assert raised(k) >= top;
      } else {
        assert Edge(g, a, b);
        if b in reaching { ReachesStep(g, a, b, k); }
      }
    }
    assert Ranked(h, raised);
  }

  /** A finite graph without cycles has a rank. */
  lemma {:induction false} AcyclicHasRank<K(!new)>(g: map<K, set<K>>)
    requires Acyclic(g)
    ensures HasRank(g)
    decreases |g.Keys|
  {
    if g.Keys == {} {
      assert Ranked(g, k => 0);
    } else {
      var k :| k in g;
      var rest := g - {k};
      assert rest.Keys < g.Keys;
      assert |rest.Keys| < |g.Keys| by { assert g.Keys == rest.Keys + {k}; }
      AcyclicSubgraph(rest, g);
      AcyclicHasRank(rest);
      forall t | t in g[k] ensures !Reaches(rest, t, k) {
        assert Edge(g, k, t);
        if Reaches(rest, t, k) { ReachesMonotone(rest, g, t, k); }
      }
      RedirectKeepsRank(rest, k, g[k]);
      assert rest[k := g[k]] == g;
    }
  }

  lemma FirstVisit<K(!new)>(g: map<K, set<K>>, k: K, targets: set<K>, p: seq<K>) returns (q: seq<K>)
    requires Path(g, p) && p[|p| - 1] == k
    ensures PathFrom(g[k := targets], q, p[0], k)
    decreases |p|
  {
    if p[0] == k {
      q := [k];
    } else {
      PathTail(g, p);
      var rest := FirstVisit(g, k, targets, p[1..]);
      q := [p[0]] + rest;
    }
  }

  /** A redirected node keeps a rank exactly when it could not be reached from its new targets. */
  lemma RedirectExact<K(!new)>(g: map<K, set<K>>, k: K, targets: set<K>)
    requires HasRank(g)
    ensures HasRank(g[k := targets]) <==> forall t :: t in targets ==> !Reaches(g, t, k)
  {
    var h := g[k := targets];
    if HasRank(h) {
      RankedIsAcyclic(h);
      forall t | t in targets ensures !Reaches(g, t, k) {
        if Reaches(g, t, k) {
          var p :| PathFrom(g, p, t, k);
          var q := FirstVisit(g, k, targets, p);
          assert Edge(h, k, t) && Reaches(h, t, k);
        }
      }
    } else if forall t :: t in targets ==> !Reaches(g, t, k) {
      RedirectKeepsRank(g, k, targets);
    }
  }

  lemma ReachesFromSink<K(!new)>(g: map<K, set<K>>, a: K, b: K)
    requires (a in g ==> g[a] == {}) && Reaches(g, a, b)
    ensures a == b
  {
    var p :| PathFrom(g, p, a, b);
    ClosedSet(g, iset{a}, p);
  }

  /** Redirecting a node to targets that have no edges of their own keeps a rank. */
  lemma RedirectToSinks<K(!new)>(g: map<K, set<K>>, k: K, targets: set<K>)
    requires HasRank(g)
    requires k !in targets && forall j :: j in targets && j in g ==> g[j] == {}
    ensures HasRank(g[k := targets])
  {
    forall t | t in targets ensures !Reaches(g, t, k) {
      if Reaches(g, t, k) { ReachesFromSink(g, t, k); }
    }
    RedirectKeepsRank(g, k, targets);
  }
}
