/** The rules of the kernel are sound: what they derive is true in every model that reads the connectives as meant. */
module Soundness {
  import opened Wrappers
  import opened Syntax
  import opened TermSubst
  import opened TermAbs
  import opened Logic
  import opened Hyps
  import opened Envir
  import opened Kernel
  import opened Semantics

  /** In the model, under every valuation, the hypotheses imply the proposition. */
  ghost predicate Valid<D(!new)>(M: Model<D>, thm: Thm) {
    forall v: Valuation<D> :: AllTrue(M, v, thm.hyps) ==> True(M, v, thm.prop)
  }

  ghost predicate FineThm(sig: Signature, thm: Thm) {
    AllFine(sig, thm.hyps) && Fine(sig, thm.prop)
  }

  // ---------- the discipline of a derivation ----------

  ghost predicate Proper0(sig: Signature, a: AxiomRule) {
    Fine(sig, a.term)
  }

  /**
   Input terms are closed and over the signature, generalised variables are free variables of the signature, and a
   quantifier is instantiated only where the program substitutes correctly.
   */
  ghost predicate Proper1(sig: Signature, r: UnaryRule, thm: Thm) {
    match r
    case ByImpliesIntr(a) => Fine(sig, a)
    case ByForallIntr(x, _) => x in sig.frees
    case ByForallElim(t) => Fine(sig, t) && (DestAll(thm.prop).Some? ==> SafeAt([t], 0, DestAll(thm.prop).value))
    case _ => true
  }

  predicate RedexFreeThm(thm: Thm) {
    (forall i :: 0 <= i < |thm.hyps| ==> RedexFree(thm.hyps[i])) && RedexFree(thm.prop)
  }

  ghost predicate Proper2(r: BinaryRule, thm1: Thm, thm2: Thm) {
    r.ByBicompose? ==> RedexFreeThm(thm1) && RedexFreeThm(thm2)
  }

  ghost predicate Proper(sig: Signature, d: Derivation) {
    match d
    case Axiom(a) => Proper0(sig, a)
    case Unary(r, e) => Proper(sig, e) && (Run(e).Some? ==> Proper1(sig, r, Run(e).value))
    case Binary(r, e1, e2) =>
      Proper(sig, e1) && Proper(sig, e2)
      && (Run(e1).Some? && Run(e2).Some? ==> Proper2(r, Run(e1).value, Run(e2).value))
  }

  // ---------- what can be checked before a run ----------

  /** The terms with which a derivation instantiates quantifiers. */
  function Instances(d: Derivation): set<Term> {
    match d
    case Axiom(_) => {}
    case Unary(r, e) => Instances(e) + if r.ByForallElim? then {r.term} else {}
    case Binary(_, e1, e2) => Instances(e1) + Instances(e2)
  }

  /** As for a proper derivation, without a word on where quantifiers are instantiated. */
  ghost predicate Disciplined1(sig: Signature, r: UnaryRule) {
    match r
    case ByImpliesIntr(a) => Fine(sig, a)
    case ByForallIntr(x, _) => x in sig.frees
    case ByForallElim(t) => Fine(sig, t)
    case _ => true
  }

  ghost predicate Disciplined(sig: Signature, d: Derivation) {
    match d
    case Axiom(a) => Proper0(sig, a)
    case Unary(r, e) => Disciplined(sig, e) && Disciplined1(sig, r)
    case Binary(r, e1, e2) =>
      Disciplined(sig, e1) && Disciplined(sig, e2)
      && (Run(e1).Some? && Run(e2).Some? ==> Proper2(r, Run(e1).value, Run(e2).value))
  }

  /** What the oracles admit is true in the model. */
  ghost predicate OraclesTrue<D(!new)>(M: Model<D>, d: Derivation) {
    match d
    case Axiom(a) => a.FromOracle? ==> forall v: Valuation<D> :: True(M, v, a.term)
    case Unary(_, e) => OraclesTrue(M, e)
    case Binary(_, e1, e2) => OraclesTrue(M, e1) && OraclesTrue(M, e2)
  }

  // ---------- the discipline is kept ----------

  lemma {:induction false} OverAbstracted(sig: Signature, depth: nat, v: Term, t: Term)
    requires Over(sig, t)
    ensures Over(sig, SubstVarBound(depth, v, t))
    decreases t
  {
    match t
    case Abs(_, _, b) => OverAbstracted(sig, depth + 1, v, b);
    case App(f, a) => OverAbstracted(sig, depth, v, f); OverAbstracted(sig, depth, v, a);
    case _ =>
  }

  lemma {:induction false} OverShifted(sig: Signature, t: Term, cutoff: nat, n: nat)
    requires Over(sig, t)
    ensures Over(sig, Shift(t, cutoff, n))
    decreases t
  {
    match t
    case Abs(_, _, b) => OverShifted(sig, b, cutoff + 1, n);
    case App(f, a) => OverShifted(sig, f, cutoff, n); OverShifted(sig, a, cutoff, n);
    case _ =>
  }

  lemma {:induction false} OverSubstituted(sig: Signature, args: seq<Term>, depth: nat, body: Term)
    requires Over(sig, body) && forall i :: 0 <= i < |args| ==> Over(sig, args[i])
    ensures Over(sig, StdSubst(args, depth, body))
    decreases body
  {
    match body
    case Bound(i) => if depth <= i < depth + |args| { OverShifted(sig, args[i - depth], 0, depth); }
    case Abs(_, _, b) => OverSubstituted(sig, args, depth + 1, b);
    case App(f, a) => OverSubstituted(sig, args, depth, f); OverSubstituted(sig, args, depth, a);
    case _ =>
  }

  lemma FineEquation(sig: Signature, t: Term)
    requires Fine(sig, t) && DestEquals(t).Some?
    ensures Fine(sig, DestEquals(t).value.lhs) && Fine(sig, DestEquals(t).value.rhs)
  {
    assert LooseBelow(t.func, 0) && Over(sig, t.func);
  }

  lemma FineMkEquals(sig: Signature, ty: Typ, t: Term, u: Term)
    requires Separated(sig) && Fine(sig, t) && Fine(sig, u)
    ensures Fine(sig, MkEquals(ty, t, u))
    ensures DestEquals(MkEquals(ty, t, u)) == Some(Equation(t, u, ty))
  {
    var e := Const("Pure.eq", Arrow(ty, Arrow(ty, PROP)));
    assert LooseBelow(App(e, t), 0) && Over(sig, App(e, t));
  }

  lemma FineMkImplies(sig: Signature, a: Term, b: Term)
    requires Separated(sig) && Fine(sig, a) && Fine(sig, b)
    ensures Fine(sig, MkImplies(a, b))
  {
    assert LooseBelow(App(IMP, a), 0) && Over(sig, App(IMP, a));
  }

  lemma FineAbs(sig: Signature, x: Symbol, ty: Typ, t: Term)
    requires Fine(sig, t)
    ensures Fine(sig, Abs(x, ty, t))
  {
    LooseWeaken(t, 0, 1);
  }

  lemma {:induction false} FineStripped(sig: Signature, t: Term)
    requires Fine(sig, t)
    ensures AllFine(sig, StripImpPrems(t).0) && Fine(sig, StripImpPrems(t).1)
    decreases t
  {
    match DestImplies(t)
    case None =>
    case Some((a, b)) =>
      assert LooseBelow(t.func, 0) && Over(sig, t.func);
      FineStripped(sig, b);
  }

  lemma {:induction false} FineMkImpliesList(sig: Signature, prems: seq<Term>, t: Term)
    requires Separated(sig) && AllFine(sig, prems) && Fine(sig, t)
    ensures Fine(sig, MkImpliesList(prems, t))
  {
    if prems == [] {
    } else {
      FineMkImpliesList(sig, prems[1..], t);
      FineMkImplies(sig, prems[0], MkImpliesList(prems[1..], t));
    }
  }

  lemma FineJoin(sig: Signature, thm1: Thm, thm2: Thm, prop: Term)
    requires AllFine(sig, thm1.hyps) && AllFine(sig, thm2.hyps) && Fine(sig, prop)
    ensures FineThm(sig, Join(thm1, thm2, prop))
  {
    UnionMembers(thm1.hyps, thm2.hyps);
    var u := HypsUnion(thm1.hyps, thm2.hyps);
    forall i | 0 <= i < |u| ensures Fine(sig, u[i]) {
      assert u[i] in u;
    }
  }

  /** True hypotheses of a joint theorem make the hypotheses of both its premises true. */
  lemma TrueUnion<D(!new)>(M: Model<D>, v: Valuation<D>, sig: Signature, hs: seq<Term>, other: seq<Term>)
    requires Separated(sig) && AllFine(sig, hs) && AllFine(sig, other)
    requires AllTrue(M, v, HypsUnion(hs, other))
    ensures AllTrue(M, v, hs) && AllTrue(M, v, other)
  {
    UnionMembers(hs, other);
    var u := HypsUnion(hs, other);
    forall i | 0 <= i < |hs| ensures True(M, v, hs[i]) {
      assert hs[i] in u;
      var j :| 0 <= j < |u| && u[j] == hs[i];
      assert True(M, v, u[j]);
    }
    forall i | 0 <= i < |other| ensures True(M, v, other[i]) {
      assert HypsContain(u, other[i]);
      var j :| 0 <= j < |u| && AlphaEq(u[j], other[i]);
      assert u[j] in u;
      AlphaEqDenotes(M, v, [], sig, u[j], other[i]);
    }
  }

  // ---------- soundness, rule by rule ----------

  ghost predicate Sound<D(!new)>(M: Model<D>, sig: Signature, thm: Thm) {
    FineThm(sig, thm) && Valid(M, thm)
  }

  ghost predicate Setting<D(!new)>(M: Model<D>, sig: Signature) {
    Reads(M) && Separated(sig)
  }

  lemma Sound0<D(!new)>(M: Model<D>, sig: Signature, a: AxiomRule)
    requires Setting(M, sig) && Proper0(sig, a) && OraclesTrue(M, Axiom(a))
    ensures Sound(M, sig, Infer0(a))
  {
    if a.FromReflexivity? {
      FineMkEquals(sig, a.typ, a.term, a.term);
      forall v: Valuation<D> ensures True(M, v, Infer0(a).prop) {
        TrueEquals(M, v, Infer0(a).prop);
      }
    } else if a.FromAssumption? {
      assert forall v: Valuation<D> :: AllTrue(M, v, [a.term]) ==> True(M, v, [a.term][0]);
    }
  }

  lemma SoundSymmetric<D(!new)>(M: Model<D>, sig: Signature, thm: Thm)
    requires Setting(M, sig) && Sound(M, sig, thm) && Symmetric(thm).Ok?
    ensures Sound(M, sig, Symmetric(thm).value)
  {
    var e, r := DestEquals(thm.prop).value, Symmetric(thm).value;
    FineEquation(sig, thm.prop);
    FineMkEquals(sig, e.typ, e.rhs, e.lhs);
    forall v: Valuation<D> | AllTrue(M, v, r.hyps) ensures True(M, v, r.prop) {
      TrueEquals(M, v, thm.prop);
      TrueEquals(M, v, r.prop);
    }
  }

  lemma SoundAbstraction<D(!new)>(M: Model<D>, sig: Signature, x: Symbol, ty: Typ, thm: Thm)
    requires Setting(M, sig) && Sound(M, sig, thm) && Abstraction(x, ty, thm).Ok?
    ensures Sound(M, sig, Abstraction(x, ty, thm).value)
  {
    var e, r := DestEquals(thm.prop).value, Abstraction(x, ty, thm).value;
    FineEquation(sig, thm.prop);
    FineAbs(sig, x, ty, e.lhs);
    FineAbs(sig, x, ty, e.rhs);
    FineMkEquals(sig, Arrow(ty, e.typ), Abs(x, ty, e.lhs), Abs(x, ty, e.rhs));
    forall v: Valuation<D> | AllTrue(M, v, r.hyps) ensures True(M, v, r.prop) {
      TrueEquals(M, v, thm.prop);
      TrueEquals(M, v, r.prop);
      forall d: D ensures Denote(M, v, [d] + [], e.lhs) == Denote(M, v, [d] + [], e.rhs) {
        DenoteLoose(M, v, [], [d], e.lhs);
        DenoteLoose(M, v, [], [d], e.rhs);
        assert [d] + [] == [] + [d];
      }
      assert Fun(M, v, [], e.lhs) == Fun(M, v, [], e.rhs);
    }
  }

  lemma SoundImpliesIntr<D(!new)>(M: Model<D>, sig: Signature, a: Term, thm: Thm)
    requires Setting(M, sig) && Sound(M, sig, thm) && Fine(sig, a) && ImpliesIntr(a, thm).Ok?
    ensures Sound(M, sig, ImpliesIntr(a, thm).value)
  {
    var r := ImpliesIntr(a, thm).value;
    FineMkImplies(sig, a, thm.prop);
    RemoveMembers(thm.hyps, a);
    assert AllFine(sig, r.hyps) by {
      forall i | 0 <= i < |r.hyps| ensures Fine(sig, r.hyps[i]) { assert r.hyps[i] in r.hyps; }
    }
    forall v: Valuation<D> | AllTrue(M, v, r.hyps) ensures True(M, v, r.prop) {
      TrueImplies(M, v, r.prop);
      if True(M, v, a) {
        forall i | 0 <= i < |thm.hyps| ensures True(M, v, thm.hyps[i]) {
          var h := thm.hyps[i];
          if AlphaEq(h, a) {
            AlphaEqDenotes(M, v, [], sig, h, a);
          } else {
            assert h in r.hyps;
            var j :| 0 <= j < |r.hyps| && r.hyps[j] == h;
            assert True(M, v, r.hyps[j]);
          }
        }
      }
    }
  }

  lemma SoundForallIntr<D(!new)>(M: Model<D>, sig: Signature, x: Symbol, ty: Typ, thm: Thm)
    requires Setting(M, sig) && Sound(M, sig, thm) && x in sig.frees && ForallIntr(x, ty, thm).Ok?
    ensures Sound(M, sig, ForallIntr(x, ty, thm).value)
  {
    var r := ForallIntr(x, ty, thm).value;
    LambdaClosed(Free(x, ty), thm.prop);
    OverAbstracted(sig, 0, Free(x, ty), thm.prop);
    var l := Lambda(Free(x, ty), thm.prop);
    assert r.prop.arg == l && Over(sig, l.body) && Over(sig, l) && Closed(l);
    assert r.prop.func.Const? && r.prop.func.name == "Pure.all" && Over(sig, r.prop.func) && Closed(r.prop.func);
    forall v: Valuation<D> | AllTrue(M, v, r.hyps) ensures True(M, v, r.prop) {
      forall d: D ensures True(M, With(v, x, d), thm.prop) {
        forall i | 0 <= i < |thm.hyps| ensures True(M, With(v, x, d), thm.hyps[i]) {
          DenoteFresh(M, v, [], x, d, thm.hyps[i]);
        }
      }
      TrueMkAll(M, v, sig, x, ty, thm.prop);
    }
  }

  lemma SoundForallElim<D(!new)>(M: Model<D>, sig: Signature, t: Term, thm: Thm)
    requires Setting(M, sig) && Sound(M, sig, thm) && Proper1(sig, ByForallElim(t), thm) && ForallElim(t, thm).Ok?
    ensures Sound(M, sig, ForallElim(t, thm).value)
  {
    var b, r := DestAll(thm.prop).value, ForallElim(t, thm).value;
    assert LooseBelow(b, 1) && Over(sig, b) by {
      assert LooseBelow(thm.prop.arg, 0) && Over(sig, thm.prop.arg);
    }
    SubstBoundsExact([t], b);
    StdSubstCloses([t], 0, b);
    OverSubstituted(sig, [t], 0, b);
    forall v: Valuation<D> | AllTrue(M, v, r.hyps) ensures True(M, v, r.prop) {
      TrueAll(M, v, thm.prop);
      DenoteSubstituted(M, v, [], [t], b);
      assert [] + Denotes(M, v, [t]) == [Denote(M, v, [], t)];
    }
  }

  lemma SoundTransitive<D(!new)>(M: Model<D>, sig: Signature, thm1: Thm, thm2: Thm)
    requires Setting(M, sig) && Sound(M, sig, thm1) && Sound(M, sig, thm2) && Transitive(thm1, thm2).Ok?
    ensures Sound(M, sig, Transitive(thm1, thm2).value)
  {
    var e1, e2, r := DestEquals(thm1.prop).value, DestEquals(thm2.prop).value, Transitive(thm1, thm2).value;
    FineEquation(sig, thm1.prop);
    FineEquation(sig, thm2.prop);
    FineMkEquals(sig, e1.typ, e1.lhs, e2.rhs);
    FineJoin(sig, thm1, thm2, r.prop);
    forall v: Valuation<D> | AllTrue(M, v, r.hyps) ensures True(M, v, r.prop) {
      TrueUnion(M, v, sig, thm1.hyps, thm2.hyps);
      TrueEquals(M, v, thm1.prop);
      TrueEquals(M, v, thm2.prop);
      AlphaEqDenotes(M, v, [], sig, e1.rhs, e2.lhs);
      TrueEquals(M, v, r.prop);
    }
  }

  lemma SoundCombination<D(!new)>(M: Model<D>, sig: Signature, thm1: Thm, thm2: Thm)
    requires Setting(M, sig) && Sound(M, sig, thm1) && Sound(M, sig, thm2) && Combination(thm1, thm2).Ok?
    ensures Sound(M, sig, Combination(thm1, thm2).value)
  {
    var f, x, r := DestEquals(thm1.prop).value, DestEquals(thm2.prop).value, Combination(thm1, thm2).value;
    FineEquation(sig, thm1.prop);
    FineEquation(sig, thm2.prop);
    FineMkEquals(sig, f.typ.args[1], App(f.lhs, x.lhs), App(f.rhs, x.rhs));
    FineJoin(sig, thm1, thm2, r.prop);
    forall v: Valuation<D> | AllTrue(M, v, r.hyps) ensures True(M, v, r.prop) {
      TrueUnion(M, v, sig, thm1.hyps, thm2.hyps);
      TrueEquals(M, v, thm1.prop);
      TrueEquals(M, v, thm2.prop);
      TrueEquals(M, v, r.prop);
    }
  }

  lemma SoundImpliesElim<D(!new)>(M: Model<D>, sig: Signature, thm1: Thm, thm2: Thm)
    requires Setting(M, sig) && Sound(M, sig, thm1) && Sound(M, sig, thm2) && ImpliesElim(thm1, thm2).Ok?
    ensures Sound(M, sig, ImpliesElim(thm1, thm2).value)
  {
    var (a, b) := DestImplies(thm1.prop).value;
    var r := ImpliesElim(thm1, thm2).value;
    assert LooseBelow(thm1.prop.func, 0) && Over(sig, thm1.prop.func);
    FineJoin(sig, thm1, thm2, b);
    forall v: Valuation<D> | AllTrue(M, v, r.hyps) ensures True(M, v, r.prop) {
      TrueUnion(M, v, sig, thm1.hyps, thm2.hyps);
      TrueImplies(M, v, thm1.prop);
      AlphaEqDenotes(M, v, [], sig, a, thm2.prop);
    }
  }

  lemma SoundSubstPremise<D(!new)>(M: Model<D>, sig: Signature, eqThm: Thm, state: Thm, i: nat)
    requires Setting(M, sig) && Sound(M, sig, eqThm) && Sound(M, sig, state) && SubstPremise(eqThm, state, i).Some?
    ensures Sound(M, sig, SubstPremise(eqThm, state, i).value)
  {
    var e, r := DestEquals(eqThm.prop).value, SubstPremise(eqThm, state, i).value;
    var (prems, concl) := StripImpPrems(state.prop);
    FineEquation(sig, eqThm.prop);
    FineStripped(sig, state.prop);
    FineMkImpliesList(sig, prems[i := e.rhs], concl);
    FineJoin(sig, state, eqThm, r.prop);
    forall v: Valuation<D> | AllTrue(M, v, r.hyps) ensures True(M, v, r.prop) {
      TrueUnion(M, v, sig, state.hyps, eqThm.hyps);
      TrueEquals(M, v, eqThm.prop);
      AlphaEqDenotes(M, v, [], sig, e.lhs, prems[i]);
      TrueStripped(M, v, state.prop);
      TrueMkImpliesList(M, v, prems[i := e.rhs], concl);
      if AllTrue(M, v, prems[i := e.rhs]) {
        forall j | 0 <= j < |prems| ensures True(M, v, prems[j]) {
          assert True(M, v, prems[i := e.rhs][j]);
        }
      }
    }
  }

  // ---------- resolution ----------

  lemma {:induction false} InstantiateRedexFree(hs: seq<Term>)
    requires forall i :: 0 <= i < |hs| ==> RedexFree(hs[i])
    ensures TypesTriangular(INIT) && InstantiateHyps(INIT, hs) == HypsUnion([], hs)
  {
    InitTriangular();
    if hs == [] {
    } else {
      InstantiateRedexFree(hs[..|hs| - 1]);
      InitKeepsRedexFree(hs[|hs| - 1]);
    }
  }

  /** The premises and the conclusion that resolution is to give. */
  function ResolvedPrems(thm1: Thm, thm2: Thm, i: nat): seq<Term>
    requires i < CountPrems(thm2.prop)
  {
    var goals := StripImpPrems(thm2.prop).0;
    var new_ := if AlphaEq(thm1.prop, goals[i]) then [] else StripImpPrems(thm1.prop).0;
    goals[..i] + new_ + goals[i + 1..]
  }

  /**
   Resolving redex-free theorems on an exact match replaces premise `i` of the second by the premises of the first, or
   by nothing if the whole first proposition matches, and keeps the conclusion. The result has exactly these premises,
   and the hypotheses and oracles of both.
   */
  lemma BicomposeResolves(thm1: Thm, thm2: Thm, i: nat)
    requires RedexFreeThm(thm1) && RedexFreeThm(thm2) && Distinct(thm1.hyps) && Distinct(thm2.hyps)
    ensures BicomposeExact(thm1, thm2, i).Some? <==>
              i < CountPrems(thm2.prop)
              && (AlphaEq(thm1.prop, StripImpPrems(thm2.prop).0[i])
                  || AlphaEq(StripImpPrems(thm1.prop).1, StripImpPrems(thm2.prop).0[i]))
    ensures BicomposeExact(thm1, thm2, i).Some? ==>
              var r := BicomposeExact(thm1, thm2, i).value;
              && r.prop == MkImpliesList(ResolvedPrems(thm1, thm2, i), StripImpPrems(thm2.prop).1)
              && StripImpPrems(r.prop) == (ResolvedPrems(thm1, thm2, i), StripImpPrems(thm2.prop).1)
              && r.hyps == HypsUnion(thm1.hyps, thm2.hyps)
              && r.oracles == UnionOracles(thm1.oracles, thm2.oracles)
  {
    InitKeepsRedexFree(thm1.prop);
    InitKeepsRedexFree(thm2.prop);
    InstantiateRedexFree(thm1.hyps);
    InstantiateRedexFree(thm2.hyps);
    UnionOfDistinct(thm1.hyps);
    UnionOfDistinct(thm2.hyps);
    if BicomposeExact(thm1, thm2, i).Some? {
      var prems, concl := ResolvedPrems(thm1, thm2, i), StripImpPrems(thm2.prop).1;
      StripMkImpliesList(prems, concl);
      ConclIsNoImplication(thm2.prop);
      assert prems + [] == prems;
    }
  }

  lemma FineResolved(sig: Signature, thm1: Thm, thm2: Thm, i: nat)
    requires Separated(sig) && FineThm(sig, thm1) && FineThm(sig, thm2) && i < CountPrems(thm2.prop)
    ensures AllFine(sig, ResolvedPrems(thm1, thm2, i)) && Fine(sig, StripImpPrems(thm2.prop).1)
  {
    FineStripped(sig, thm1.prop);
    FineStripped(sig, thm2.prop);
  }

  /** True premises of a resolvent make every premise of the second theorem true, if the first theorem is true. */
  lemma TrueResolved<D(!new)>(M: Model<D>, v: Valuation<D>, sig: Signature, thm1: Thm, thm2: Thm, i: nat)
    requires Setting(M, sig) && FineThm(sig, thm1) && FineThm(sig, thm2) && i < CountPrems(thm2.prop)
    requires var goal := StripImpPrems(thm2.prop).0[i];
             AlphaEq(thm1.prop, goal) || AlphaEq(StripImpPrems(thm1.prop).1, goal)
    requires True(M, v, thm1.prop) && AllTrue(M, v, ResolvedPrems(thm1, thm2, i))
    ensures AllTrue(M, v, StripImpPrems(thm2.prop).0)
  {
    var goals, prems := StripImpPrems(thm2.prop).0, ResolvedPrems(thm1, thm2, i);
    FineStripped(sig, thm1.prop);
    FineStripped(sig, thm2.prop);
    TrueStripped(M, v, thm1.prop);
    var mine := if AlphaEq(thm1.prop, goals[i]) then [] else StripImpPrems(thm1.prop).0;
    assert prems == goals[..i] + mine + goals[i + 1..];
    forall j | 0 <= j < |goals| ensures True(M, v, goals[j]) {
      if j < i {
        assert prems[j] == goals[j];
      } else if j > i {
        assert prems[i + |mine| + (j - i - 1)] == goals[j];
      } else if AlphaEq(thm1.prop, goals[i]) {
        AlphaEqDenotes(M, v, [], sig, thm1.prop, goals[i]);
      } else {
        forall k | 0 <= k < |mine| ensures True(M, v, mine[k]) { assert prems[i + k] == mine[k]; }
        AlphaEqDenotes(M, v, [], sig, StripImpPrems(thm1.prop).1, goals[i]);
      }
    }
  }

  lemma SoundBicompose<D(!new)>(M: Model<D>, sig: Signature, thm1: Thm, thm2: Thm, i: nat)
    requires Setting(M, sig) && Sound(M, sig, thm1) && Sound(M, sig, thm2)
    requires Distinct(thm1.hyps) && Distinct(thm2.hyps)
    requires RedexFreeThm(thm1) && RedexFreeThm(thm2) && BicomposeExact(thm1, thm2, i).Some?
    ensures Sound(M, sig, BicomposeExact(thm1, thm2, i).value)
  {
    BicomposeResolves(thm1, thm2, i);
    var r, prems, concl := BicomposeExact(thm1, thm2, i).value, ResolvedPrems(thm1, thm2, i), StripImpPrems(thm2.prop).1;
    FineResolved(sig, thm1, thm2, i);
    FineMkImpliesList(sig, prems, concl);
    FineJoin(sig, thm1, thm2, r.prop);
    forall v: Valuation<D> | AllTrue(M, v, r.hyps) ensures True(M, v, r.prop) {
      TrueUnion(M, v, sig, thm1.hyps, thm2.hyps);
      TrueMkImpliesList(M, v, prems, concl);
      TrueStripped(M, v, thm2.prop);
      if AllTrue(M, v, prems) {
        TrueResolved(M, v, sig, thm1, thm2, i);
      }
    }
  }

  // ---------- soundness of every run ----------

  lemma Sound1<D(!new)>(M: Model<D>, sig: Signature, r: UnaryRule, thm: Thm)
    requires Setting(M, sig) && Sound(M, sig, thm) && Proper1(sig, r, thm) && Infer1(r, thm).Some?
    ensures Sound(M, sig, Infer1(r, thm).value)
  {
    match r
    case BySymmetry => SoundSymmetric(M, sig, thm);
    case ByAbstraction(x, ty) => SoundAbstraction(M, sig, x, ty, thm);
    case ByImpliesIntr(a) => SoundImpliesIntr(M, sig, a, thm);
    case ByForallIntr(x, ty) => SoundForallIntr(M, sig, x, ty, thm);
    case ByForallElim(t) => SoundForallElim(M, sig, t, thm);
  }

  lemma Sound2<D(!new)>(M: Model<D>, sig: Signature, r: BinaryRule, thm1: Thm, thm2: Thm)
    requires Setting(M, sig) && Sound(M, sig, thm1) && Sound(M, sig, thm2)
    requires Distinct(thm1.hyps) && Distinct(thm2.hyps)
    requires Proper2(r, thm1, thm2) && Infer2(r, thm1, thm2).Some?
    ensures Sound(M, sig, Infer2(r, thm1, thm2).value)
  {
    match r
    case ByTransitivity => SoundTransitive(M, sig, thm1, thm2);
    case ByCombination => SoundCombination(M, sig, thm1, thm2);
    case ByImpliesElim => SoundImpliesElim(M, sig, thm1, thm2);
    case BySubstPremise(i) => SoundSubstPremise(M, sig, thm1, thm2, i);
    case ByBicompose(i) => SoundBicompose(M, sig, thm1, thm2, i);
  }

  /** Every proper run makes a theorem that is true in every model in which the admitted propositions are. */
  lemma {:induction false} RunIsSound<D(!new)>(M: Model<D>, sig: Signature, d: Derivation)
    requires Reads(M) && Separated(sig) && Proper(sig, d) && OraclesTrue(M, d) && Run(d).Some?
    ensures FineThm(sig, Run(d).value) && Valid(M, Run(d).value)
    decreases d
  {
    match d
    case Axiom(a) => Sound0(M, sig, a);
    case Unary(r, e) => RunIsSound(M, sig, e); Sound1(M, sig, r, Run(e).value);
    case Binary(r, e1, e2) =>
      RunIsSound(M, sig, e1);
      RunIsSound(M, sig, e2);
      HypsStayDistinct(e1);
      HypsStayDistinct(e2);
      Sound2(M, sig, r, Run(e1).value, Run(e2).value);
  }

  /** One element, which is true: every proposition holds here, so nothing is asked of oracles. */
  datatype Point = Point

  ghost function OnePoint(): Model<Point> {
    Model((n: Symbol) => Point, (f: Point, a: Point) => Point, (m: imap<Point, Point>) => Point, (d: Point) => true)
  }

  lemma OnePointReads()
    ensures Reads(OnePoint())
  {
    var M := OnePoint();
    forall n, a, b | IsEqName(n) ensures M.isTrue(M.app(M.app(M.con(n), a), b)) <==> a == b {
      assert a == Point && b == Point;
    }
  }

  lemma {:induction false} OnePointTrue(d: Derivation)
    ensures OraclesTrue(OnePoint(), d)
  {
    match d
    case Axiom(_) =>
    case Unary(_, e) => OnePointTrue(e);
    case Binary(_, e1, e2) => OnePointTrue(e1); OnePointTrue(e2);
  }

  /** Whatever its oracles admit, a proper run makes a closed theorem over the signature. */
  lemma RunIsFine(sig: Signature, d: Derivation)
    requires Separated(sig) && Proper(sig, d) && Run(d).Some?
    ensures FineThm(sig, Run(d).value)
  {
    OnePointTrue(d);
    OnePointReads();
    RunIsSound(OnePoint(), sig, d);
  }

  lemma DisciplinedInstance(sig: Signature, e: Derivation, t: Term)
    requires Separated(sig) && Proper(sig, e) && Run(e).Some? && DestAll(Run(e).value.prop).Some? && NoBound(t)
    ensures SafeAt([t], 0, DestAll(Run(e).value.prop).value)
  {
    var prop := Run(e).value.prop;
    RunIsFine(sig, e);
    assert LooseBelow(prop.arg, 0);
    SafeBody(t, 0, DestAll(prop).value);
  }

  /** A derivation that instantiates only with terms without indices is proper. */
  lemma {:induction false} DisciplinedIsProper(sig: Signature, d: Derivation)
    requires Separated(sig) && Disciplined(sig, d) && forall t :: t in Instances(d) ==> NoBound(t)
    ensures Proper(sig, d)
    decreases d
  {
    match d
    case Axiom(_) =>
    case Unary(r, e) =>
      DisciplinedIsProper(sig, e);
      if r.ByForallElim? && Run(e).Some? && DestAll(Run(e).value.prop).Some? {
        assert r.term in Instances(d);
        DisciplinedInstance(sig, e, r.term);
      }
    case Binary(_, e1, e2) => DisciplinedIsProper(sig, e1); DisciplinedIsProper(sig, e2);
  }

  /** Soundness under a condition on the input alone: no term put in place of a quantified variable has an index. */
  lemma DisciplinedIsSound<D(!new)>(M: Model<D>, sig: Signature, d: Derivation)
    requires Reads(M) && Separated(sig) && Disciplined(sig, d) && OraclesTrue(M, d) && Run(d).Some?
    requires forall t :: t in Instances(d) ==> NoBound(t)
    ensures FineThm(sig, Run(d).value) && Valid(M, Run(d).value)
  {
    DisciplinedIsProper(sig, d);
    RunIsSound(M, sig, d);
  }

  lemma {:induction false} NoOraclesTrue<D(!new)>(M: Model<D>, d: Derivation)
    requires AdmittedNames(d) == {}
    ensures OraclesTrue(M, d)
    decreases d
  {
    match d
    case Axiom(_) =>
    case Unary(_, e) => NoOraclesTrue(M, e);
    case Binary(_, e1, e2) => NoOraclesTrue(M, e1); NoOraclesTrue(M, e2);
  }

  /** A theorem with an empty footprint is true in every model. */
  lemma ProvedIsValid<D(!new)>(M: Model<D>, sig: Signature, d: Derivation)
    requires Reads(M) && Separated(sig) && Proper(sig, d) && Run(d).Some? && Run(d).value.oracles == []
    ensures Valid(M, Run(d).value)
  {
    OraclesExact(d);
    assert AdmittedNames(d) == {} by {
      forall n ensures n !in AdmittedNames(d) { assert n in Run(d).value.oracles <==> n in AdmittedNames(d); }
    }
    NoOraclesTrue(M, d);
    RunIsSound(M, sig, d);
  }
}
