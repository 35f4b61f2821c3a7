/** Derived rules: discharging and supplying lists of premises, and rules that undo each other. */
module Drule {
  import opened Wrappers
  import opened Syntax
  import opened TermAbs
  import opened Logic
  import opened Hyps
  import opened Kernel

  function ImpliesIntrList(assumptions: seq<Term>, thm: Thm): Rule
    decreases |assumptions|
  {
    if assumptions == [] then Ok(thm)
    else
      match ImpliesIntr(assumptions[0], thm)
      case Err(e) => Err(e)
      case Ok(r) => ImpliesIntrList(assumptions[1..], r)
  }

  function ImpliesElimList(thm: Thm, antecedents: seq<Thm>): Rule
    decreases |antecedents|
  {
    if antecedents == [] then Ok(thm)
    else
      match ImpliesElim(thm, antecedents[0])
      case Err(e) => Err(e)
      case Ok(r) => ImpliesElimList(r, antecedents[1..])
  }

  function ImpliesIntrHyps(thm: Thm): Rule {
    ImpliesIntrList(thm.hyps, thm)
  }

  method ImpliesIntrListLoop(assumptions: seq<Term>, thm: Thm) returns (r: Rule)
    ensures r == ImpliesIntrList(assumptions, thm)
  {
    var result := thm;
    for i := 0 to |assumptions|
      invariant ImpliesIntrList(assumptions, thm) == ImpliesIntrList(assumptions[i..], result)
    {
      assert assumptions[i..][1..] == assumptions[i + 1..];
      match ImpliesIntr(assumptions[i], result)
      case Err(e) => return Err(e);
      case Ok(next) => result := next;
    }
    r := Ok(result);
  }

  method ImpliesElimListLoop(thm: Thm, antecedents: seq<Thm>) returns (r: Rule)
    ensures r == ImpliesElimList(thm, antecedents)
  {
    var result := thm;
    for i := 0 to |antecedents|
      invariant ImpliesElimList(thm, antecedents) == ImpliesElimList(result, antecedents[i..])
    {
      assert antecedents[i..][1..] == antecedents[i + 1..];
      match ImpliesElim(result, antecedents[i])
      case Err(e) => return Err(e);
      case Ok(next) => result := next;
    }
    r := Ok(result);
  }

  function Reversed<T>(s: seq<T>): seq<T> {
    if s == [] then [] else Reversed(s[1..]) + [s[0]]
  }

  lemma {:induction false} MkImpliesListSnoc(prems: seq<Term>, p: Term, concl: Term)
    ensures MkImpliesList(prems + [p], concl) == MkImpliesList(prems, MkImplies(p, concl))
  {
    if prems == [] {
      assert [p][1..] == [];
    } else {
      MkImpliesListSnoc(prems[1..], p, concl);
      assert (prems + [p])[1..] == prems[1..] + [p];
    }
  }

  /**
   Discharging all hypotheses succeeds when no two of them match: each becomes a premise, the last hypothesis the first
   premise, and none is left.
   */
  lemma {:induction false} DischargeAll(thm: Thm)
    requires Distinct(thm.hyps)
    ensures ImpliesIntrHyps(thm) == Ok(Thm([], MkImpliesList(Reversed(thm.hyps), thm.prop), thm.oracles))
    decreases |thm.hyps|
  {
    if thm.hyps == [] {
    } else {
      var h, rest := thm.hyps[0], thm.hyps[1..];
      AlphaEqReflexive(h);
      RemoveFirst(thm.hyps);
      var next := Thm(rest, MkImplies(h, thm.prop), thm.oracles);
      assert ImpliesIntr(h, thm) == Ok(next);
      DischargeAll(next);
      MkImpliesListSnoc(Reversed(rest), h, thm.prop);
    }
  }

  function RemoveEach(hs: seq<Term>, xs: seq<Term>): seq<Term>
    decreases |xs|
  {
    if xs == [] then hs else RemoveEach(HypsRemove(hs, xs[0]), xs[1..])
  }

  /** Removing one after the other keeps exactly the hypotheses that none of them matches. */
  lemma {:induction false} RemoveEachMembers(hs: seq<Term>, xs: seq<Term>)
    ensures forall h :: h in RemoveEach(hs, xs) <==> h in hs && !exists j :: 0 <= j < |xs| && AlphaEq(h, xs[j])
    decreases |xs|
  {
    if xs != [] {
      var rest := HypsRemove(hs, xs[0]);
      RemoveMembers(hs, xs[0]);
      RemoveEachMembers(rest, xs[1..]);
      forall h ensures h in RemoveEach(hs, xs) <==> h in hs && !exists j :: 0 <= j < |xs| && AlphaEq(h, xs[j]) {
        if exists j :: 0 <= j < |xs| && AlphaEq(h, xs[j]) {
          var j :| 0 <= j < |xs| && AlphaEq(h, xs[j]);
          if j > 0 { assert xs[1..][j - 1] == xs[j]; }
        }
      }
    }
  }

  /** Some hypothesis matches the assumption and none of those discharged before it. */
  predicate StillThere(hs: seq<Term>, xs: seq<Term>, i: nat)
    requires i < |xs|
  {
    exists k :: 0 <= k < |hs| && AlphaEq(hs[k], xs[i]) && forall j :: 0 <= j < i ==> !AlphaEq(hs[k], xs[j])
  }

  /** Discharging a list gives its members as premises, the last one first, over what none of them matches. */
  lemma {:induction false} DischargeList(xs: seq<Term>, thm: Thm)
    ensures ImpliesIntrList(xs, thm).Ok? ==>
              ImpliesIntrList(xs, thm).value
              == Thm(RemoveEach(thm.hyps, xs), MkImpliesList(Reversed(xs), thm.prop), thm.oracles)
    decreases |xs|
  {
    if xs != [] && ImpliesIntr(xs[0], thm).Ok? {
      DischargeList(xs[1..], ImpliesIntr(xs[0], thm).value);
      MkImpliesListSnoc(Reversed(xs[1..]), xs[0], thm.prop);
    }
  }

  /** Discharging a list succeeds exactly if each member still has a hypothesis when its turn comes. */
  lemma {:induction false} DischargeSucceeds(xs: seq<Term>, thm: Thm)
    ensures ImpliesIntrList(xs, thm).Ok? <==> forall i :: 0 <= i < |xs| ==> StillThere(thm.hyps, xs, i)
    decreases |xs|
  {
    if xs != [] {
      assert HypsContain(thm.hyps, xs[0]) <==> StillThere(thm.hyps, xs, 0);
      if HypsContain(thm.hyps, xs[0]) {
        var next := ImpliesIntr(xs[0], thm).value;
        DischargeSucceeds(xs[1..], next);
        forall i | 0 < i < |xs| ensures StillThere(thm.hyps, xs, i) <==> StillThere(next.hyps, xs[1..], i - 1) {
          StillThereLater(thm.hyps, xs, i);
        }
        if forall i :: 0 <= i < |xs| ==> StillThere(thm.hyps, xs, i) {
          forall i | 0 <= i < |xs[1..]| ensures StillThere(next.hyps, xs[1..], i) {
            assert StillThere(thm.hyps, xs, i + 1);
          }
        }
      }
    }
  }

  lemma StillThereLater(hs: seq<Term>, xs: seq<Term>, i: nat)
    requires 0 < i < |xs|
    ensures StillThere(hs, xs, i) <==> StillThere(HypsRemove(hs, xs[0]), xs[1..], i - 1)
  {
    var rest := HypsRemove(hs, xs[0]);
    RemoveMembers(hs, xs[0]);
    if StillThere(hs, xs, i) {
      var k :| 0 <= k < |hs| && AlphaEq(hs[k], xs[i]) && forall j :: 0 <= j < i ==> !AlphaEq(hs[k], xs[j]);
      assert hs[k] in rest;
      var l :| 0 <= l < |rest| && rest[l] == hs[k];
      assert AlphaEq(rest[l], xs[1..][i - 1]);
    }
    if StillThere(rest, xs[1..], i - 1) {
      var l :| 0 <= l < |rest| && AlphaEq(rest[l], xs[1..][i - 1])
            && forall j :: 0 <= j < i - 1 ==> !AlphaEq(rest[l], xs[1..][j]);
      assert rest[l] in rest;
      var k :| 0 <= k < |hs| && hs[k] == rest[l];
      forall j | 0 <= j < i ensures !AlphaEq(hs[k], xs[j]) {
        if j > 0 { assert xs[1..][j - 1] == xs[j]; }
      }
    }
  }

  lemma {:induction false} MkImpliesListInjective(ps: seq<Term>, qs: seq<Term>, concl: Term)
    requires |ps| == |qs| && MkImpliesList(ps, concl) == MkImpliesList(qs, concl)
    ensures ps == qs
  {
    if ps != [] {
      MkImpliesListInjective(ps[1..], qs[1..], concl);
      assert ps == [ps[0]] + ps[1..] && qs == [qs[0]] + qs[1..];
    }
  }

  /** The premises come in the order of the list, as documented, exactly if the list has at most one member. */
  lemma DocumentedOrder(xs: seq<Term>, thm: Thm)
    requires ImpliesIntrList(xs, thm).Ok?
    ensures ImpliesIntrList(xs, thm).value.prop == MkImpliesList(xs, thm.prop) <==> |xs| <= 1
  {
    DischargeList(xs, thm);
    ReversedLength(xs);
    if |xs| <= 1 {
      if |xs| == 1 { assert Reversed(xs) == xs by { assert xs[1..] == []; } }
    } else {
      DischargeSucceeds(xs, thm);
      assert StillThere(thm.hyps, xs, |xs| - 1);
      assert xs[0] != xs[|xs| - 1];
      ReversedAt(xs, 0);
      if MkImpliesList(Reversed(xs), thm.prop) == MkImpliesList(xs, thm.prop) {
        MkImpliesListInjective(Reversed(xs), xs, thm.prop);
      }
    }
  }

  lemma {:induction false} ReversedLength<T>(s: seq<T>)
    ensures |Reversed(s)| == |s|
  {
    if s != [] { ReversedLength(s[1..]); }
  }

  /** For every run, discharging all hypotheses gives an unconditional theorem with one more premise per hypothesis. */
  lemma DischargeEveryRun(d: Derivation)
    requires Run(d).Some?
    ensures var thm := Run(d).value; var r := ImpliesIntrHyps(thm);
            && r.Ok? && r.value.hyps == [] && r.value.oracles == thm.oracles
            && CountPrems(r.value.prop) == CountPrems(thm.prop) + |thm.hyps|
  {
    var thm := Run(d).value;
    HypsStayDistinct(d);
    DischargeAll(thm);
    StripMkImpliesList(Reversed(thm.hyps), thm.prop);
    ReversedLength(thm.hyps);
  }

  function Assumptions(hs: seq<Term>): seq<Thm> {
    seq(|hs|, i requires 0 <= i < |hs| => Assume(hs[i]))
  }

  /** Supplying assumptions for the premises of a chain collects them as hypotheses. */
  lemma {:induction false} SupplyPremises(hs: seq<Term>, prems: seq<Term>, concl: Term, oracles: seq<Symbol>)
    requires Distinct(hs + prems)
    ensures ImpliesElimList(Thm(hs, MkImpliesList(prems, concl), oracles), Assumptions(prems))
         == Ok(Thm(hs + prems, concl, oracles))
    decreases |prems|
  {
    var thm := Thm(hs, MkImpliesList(prems, concl), oracles);
    if prems == [] {
      assert hs + prems == hs;
    } else {
      var p, rest := prems[0], prems[1..];
      AlphaEqReflexive(p);
      assert Assumptions(prems)[1..] == Assumptions(rest);
      assert !HypsContain(hs, p) by {
        forall i | 0 <= i < |hs| ensures !AlphaEq(hs[i], p) {
          assert (hs + prems)[i] == hs[i] && (hs + prems)[|hs|] == p;
        }
      }
      assert [p][..0] == [];
      assert HypsUnion(hs, [p]) == hs + [p];
      var next := Thm(hs + [p], MkImpliesList(rest, concl), oracles);
      assert ImpliesElim(thm, Assume(p)) == Ok(next);
      assert hs + [p] + rest == hs + prems;
      SupplyPremises(hs + [p], rest, concl, oracles);
    }
  }

  lemma {:induction false} ReversedAt<T>(s: seq<T>, k: nat)
    requires k < |s|
    ensures |Reversed(s)| == |s| && Reversed(s)[k] == s[|s| - 1 - k]
  {
    ReversedLength(s[1..]);
    if k < |s| - 1 { ReversedAt(s[1..], k); }
  }

  lemma ReversedDistinct(hs: seq<Term>)
    requires Distinct(hs)
    ensures Distinct(Reversed(hs))
  {
    ReversedLength(hs);
    var r := Reversed(hs);
    forall i, j | 0 <= i < j < |r| ensures !AlphaEq(r[i], r[j]) {
      ReversedAt(hs, i);
      ReversedAt(hs, j);
      AlphaEqSymmetric(r[i], r[j]);
    }
  }

  /** Discharging all hypotheses and supplying them again gives the theorem back, its hypotheses in reverse order. */
  lemma DischargeAndSupply(thm: Thm)
    requires Distinct(thm.hyps)
    ensures ImpliesIntrHyps(thm).Ok?
    ensures ImpliesElimList(ImpliesIntrHyps(thm).value, Assumptions(Reversed(thm.hyps)))
         == Ok(thm.(hyps := Reversed(thm.hyps)))
  {
    DischargeAll(thm);
    ReversedDistinct(thm.hyps);
    assert [] + Reversed(thm.hyps) == Reversed(thm.hyps);
    SupplyPremises([], Reversed(thm.hyps), thm.prop, thm.oracles);
  }

  /** Generalising a variable and instantiating it with itself gives the theorem back exactly when nothing else was bound. */
  lemma GeneralizeAndInstantiate(x: Symbol, ty: Typ, thm: Thm)
    requires Closed(thm.prop) && ForallIntr(x, ty, thm).Ok?
    ensures ForallElim(Free(x, ty), ForallIntr(x, ty, thm).value) == Ok(thm) <==> OnlyItself(Free(x, ty), thm.prop)
  {
    InstantiateAbstracted(Free(x, ty), thm.prop);
  }

  /** Composition of two theorems at premise `i`, which must be the proposition of the first as it stands. */
  function Compose(thm1: Thm, thm2: Thm, i: nat): Option<Rule> {
    var prems := StripImpPrems(thm2.prop).0;
    if i >= |prems| || thm1.prop != prems[i] then None else Some(ImpliesElim(thm2, thm1))
  }

  /** Composition always removes the first premise: at another premise it succeeds only if that one matches the first. */
  lemma ComposeTakesFirst(thm1: Thm, thm2: Thm, i: nat)
    requires Compose(thm1, thm2, i).Some?
    ensures Compose(thm1, thm2, i).value.Ok? <==> AlphaEq(StripImpPrems(thm2.prop).0[0], thm1.prop)
    ensures Compose(thm1, thm2, i).value.Ok? ==>
              StripImpPrems(Compose(thm1, thm2, i).value.value.prop).0 == StripImpPrems(thm2.prop).0[1..]
    ensures i == 0 ==> Compose(thm1, thm2, i).value.Ok?
  {
    AlphaEqReflexive(thm1.prop);
  }
}
