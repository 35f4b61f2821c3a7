/** Hypotheses, kept as a list without repetitions modulo the kernel's comparison of terms. */
module Hyps {
  import opened Syntax
  import opened Logic

  /** The kernel matches a free variable with a constant of the same unqualified name. */
  predicate CrossNames(free: Symbol, const_: Symbol) {
    free == const_ || EndsWith(free, "." + const_) || EndsWith(const_, "." + free)
  }

  /** The kernel's comparison of terms; unknown binder types match any binder type. */
  predicate AlphaEq(a: Term, b: Term) {
    match (a, b)
    case (Const(m, _), Const(n, _)) => m == n
    case (Free(m, _), Free(n, _)) => m == n
    case (Free(m, _), Const(n, _)) => CrossNames(m, n)
    case (Const(n, _), Free(m, _)) => CrossNames(m, n)
    case (Var(m, _, _), Free(n, _)) => m == n
    case (Free(n, _), Var(m, _, _)) => m == n
    case (Var(m, i, _), Var(n, j, _)) => m == n && i == j
    case (Bound(i), Bound(j)) => i == j
    case (Abs(_, s, b1), Abs(_, t, b2)) => (IsDummy(s) || IsDummy(t) || s == t) && AlphaEq(b1, b2)
    case (App(f1, a1), App(f2, a2)) => AlphaEq(f1, f2) && AlphaEq(a1, a2)
    case _ => false
  }

  /** The types of binders agree where both terms have one; an unknown type agrees with any. */
  predicate BindersAgree(a: Term, b: Term) {
    match (a, b)
    case (Abs(_, s, b1), Abs(_, t, b2)) => (IsDummy(s) || IsDummy(t) || s == t) && BindersAgree(b1, b2)
    case (App(f1, a1), App(f2, a2)) => BindersAgree(f1, f2) && BindersAgree(a1, a2)
    case _ => true
  }

  /** Terms that differ in names of binders and in types at most match, if the types of their binders agree. */
  lemma {:induction false} AlphaEqOfShape(a: Term, b: Term)
    requires Shape(a) == Shape(b)
    ensures AlphaEq(a, b) <==> BindersAgree(a, b)
  {
    match (a, b)
    case (Abs(_, _, b1), Abs(_, _, b2)) => AlphaEqOfShape(b1, b2);
    case (App(f1, a1), App(f2, a2)) => AlphaEqOfShape(f1, f2); AlphaEqOfShape(a1, a2);
    case _ =>
  }

  /**
   Leaves of different kinds: a free variable matches the constants that have its name up to a qualifier on one side, and
   the schematic variables of its name whatever their index; nothing else matches across kinds.
   */
  lemma AlphaEqCrossKinds(a: Term, b: Term)
    requires a.Free? && !b.Free?
    ensures AlphaEq(a, b) <==>
            || (b.Const? && (a.name == b.name || exists p :: a.name == p + ("." + b.name) || b.name == p + ("." + a.name)))
            || (b.Var? && a.name == b.name)
    ensures AlphaEq(b, a) <==> AlphaEq(a, b)
  {
    if b.Const? {
      EndsWithExact(a.name, "." + b.name);
      EndsWithExact(b.name, "." + a.name);
    }
  }

  lemma {:induction false} AlphaEqReflexive(a: Term)
    ensures AlphaEq(a, a)
  {
    match a
    case Abs(_, _, b) => AlphaEqReflexive(b);
    case App(f, x) => AlphaEqReflexive(f); AlphaEqReflexive(x);
    case _ =>
  }

  lemma {:induction false} AlphaEqSymmetric(a: Term, b: Term)
    ensures AlphaEq(a, b) <==> AlphaEq(b, a)
  {
    match (a, b)
    case (Abs(_, _, b1), Abs(_, _, b2)) => AlphaEqSymmetric(b1, b2);
    case (App(f1, a1), App(f2, a2)) => AlphaEqSymmetric(f1, f2); AlphaEqSymmetric(a1, a2);
    case _ =>
  }

  /** It is no equivalence: two different constants both match a free variable of their base name. */
  lemma AlphaEqNotTransitive()
    ensures var a, x, b := Const("A.x", DUMMY), Free("x", DUMMY), Const("B.x", DUMMY);
            AlphaEq(a, x) && AlphaEq(x, b) && !AlphaEq(a, b)
  {
    assert "A.x"[|"A.x"| - 2..] == "." + "x";
    assert "B.x"[|"B.x"| - 2..] == "." + "x";
    assert "A.x"[0] != "B.x"[0];
  }

  // ---------- lists of hypotheses ----------

  predicate HypsContain(hs: seq<Term>, h: Term) {
    exists i :: 0 <= i < |hs| && AlphaEq(hs[i], h)
  }

  function HypsInsert(hs: seq<Term>, h: Term): seq<Term> {
    if HypsContain(hs, h) then hs else hs + [h]
  }

  function HypsUnion(hs: seq<Term>, other: seq<Term>): seq<Term> {
    if other == [] then hs else HypsInsert(HypsUnion(hs, other[..|other| - 1]), other[|other| - 1])
  }

  function HypsRemove(hs: seq<Term>, h: Term): seq<Term> {
    if hs == [] then []
    else (if AlphaEq(hs[0], h) then [] else [hs[0]]) + HypsRemove(hs[1..], h)
  }

  /** No hypothesis matches another. */
  ghost predicate Distinct(hs: seq<Term>) {
    forall i, j :: 0 <= i < j < |hs| ==> !AlphaEq(hs[i], hs[j])
  }

  class HypList {
    var entries: seq<Term>

    constructor ()
      ensures entries == []
    {
      entries := [];
    }

    method Contains(h: Term) returns (found: bool)
      ensures found == HypsContain(entries, h)
    {
      found := false;
      for i := 0 to |entries|
        invariant found <==> exists j :: 0 <= j < i && AlphaEq(entries[j], h)
      {
        found := found || AlphaEq(entries[i], h);
      }
    }

    method Insert(h: Term)
      modifies this
      ensures entries == HypsInsert(old(entries), h)
    {
      var found := Contains(h);
      if !found {
        entries := entries + [h];
      }
    }

    method Union(other: HypList) returns (r: HypList)
      ensures fresh(r) && r.entries == HypsUnion(entries, other.entries)
    {
      r := new HypList();
      r.entries := entries;
      for i := 0 to |other.entries|
        invariant fresh(r) && r.entries == HypsUnion(entries, other.entries[..i])
      {
        assert other.entries[..i + 1][..i] == other.entries[..i];
        r.Insert(other.entries[i]);
      }
      assert other.entries[..|other.entries|] == other.entries;
    }
  }

  lemma InsertDistinct(hs: seq<Term>, h: Term)
    requires Distinct(hs)
    ensures Distinct(HypsInsert(hs, h))
  {
  }

  lemma {:induction false} UnionDistinct(hs: seq<Term>, other: seq<Term>)
    requires Distinct(hs)
    ensures Distinct(HypsUnion(hs, other))
  {
    if other == [] {
    } else {
      UnionDistinct(hs, other[..|other| - 1]);
      InsertDistinct(HypsUnion(hs, other[..|other| - 1]), other[|other| - 1]);
    }
  }

  lemma {:induction false} RemoveMembers(hs: seq<Term>, h: Term)
    ensures forall x :: x in HypsRemove(hs, h) <==> x in hs && !AlphaEq(x, h)
  {
    if hs == [] {
    } else {
      RemoveMembers(hs[1..], h);
      assert hs == [hs[0]] + hs[1..];
    }
  }

  lemma {:induction false} RemoveDistinct(hs: seq<Term>, h: Term)
    requires Distinct(hs)
    ensures Distinct(HypsRemove(hs, h))
  {
    if hs == [] {
    } else {
      var rest := HypsRemove(hs[1..], h);
      RemoveDistinct(hs[1..], h);
      RemoveMembers(hs[1..], h);
      forall i, j | 0 <= i < j < |HypsRemove(hs, h)|
        ensures !AlphaEq(HypsRemove(hs, h)[i], HypsRemove(hs, h)[j])
      {
        if i == 0 && !AlphaEq(hs[0], h) {
          assert rest[j - 1] in hs[1..];
          var k :| 0 <= k < |hs[1..]| && hs[1..][k] == rest[j - 1];
          assert !AlphaEq(hs[0], hs[k + 1]);
        }
      }
    }
  }

  /** A union holds nothing but entries of its parts, and an entry of each part is there up to comparison. */
  lemma {:induction false} UnionMembers(hs: seq<Term>, other: seq<Term>)
    ensures forall x :: x in HypsUnion(hs, other) ==> x in hs || x in other
    ensures forall x :: x in hs ==> x in HypsUnion(hs, other)
    ensures forall x :: x in other ==> HypsContain(HypsUnion(hs, other), x)
  {
    if other == [] {
    } else {
      var front, last := other[..|other| - 1], other[|other| - 1];
      UnionMembers(hs, front);
      var u, v := HypsUnion(hs, front), HypsUnion(hs, other);
      assert other == front + [last];
      forall x | x in other ensures HypsContain(v, x) {
        if x in front {
          var i :| 0 <= i < |u| && AlphaEq(u[i], x);
          assert v[i] == u[i];
        } else if !HypsContain(u, last) {
          AlphaEqReflexive(last);
          assert v[|u|] == last;
        }
      }
    }
  }

  /** A union begins with the first list as it is. */
  lemma {:induction false} UnionExtends(hs: seq<Term>, other: seq<Term>)
    ensures hs <= HypsUnion(hs, other)
  {
    if other != [] { UnionExtends(hs, other[..|other| - 1]); }
  }

  lemma {:induction false} UnionOfDistinct(hs: seq<Term>)
    requires Distinct(hs)
    ensures HypsUnion([], hs) == hs
  {
    if hs == [] {
    } else {
      var front := hs[..|hs| - 1];
      UnionOfDistinct(front);
      assert hs == front + [hs[|hs| - 1]];
    }
  }

  /** Discharging the first of a distinct list of hypotheses leaves exactly the others. */
  lemma RemoveFirst(hs: seq<Term>)
    requires hs != [] && Distinct(hs)
    ensures HypsRemove(hs, hs[0]) == hs[1..]
  {
    AlphaEqReflexive(hs[0]);
    forall i | 1 <= i < |hs| ensures !AlphaEq(hs[i], hs[0]) {
      AlphaEqSymmetric(hs[0], hs[i]);
    }
    RemoveNone(hs[1..], hs[0]);
  }

  lemma {:induction false} RemoveNone(hs: seq<Term>, h: Term)
    requires forall i :: 0 <= i < |hs| ==> !AlphaEq(hs[i], h)
    ensures HypsRemove(hs, h) == hs
  {
    if hs == [] {
    } else {
      RemoveNone(hs[1..], h);
      assert hs == [hs[0]] + hs[1..];
    }
  }
}
