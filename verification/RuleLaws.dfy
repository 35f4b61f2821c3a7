/** Laws between the rules of the kernel: what one rule does, another undoes or leaves alone. */
module RuleLaws {
  import opened Wrappers
  import opened Syntax
  import opened TermAbs
  import opened Logic
  import opened Hyps
  import opened Envir
  import opened Kernel

  /** The theorem with its equation at the program's own equality constant. */
  function Restated(thm: Thm, e: Equation): Thm {
    thm.(prop := MkEquals(e.typ, e.lhs, e.rhs))
  }

  /** Reflexive equations are neutral for transitivity, on either side. */
  lemma TransitiveReflexive(thm: Thm, ty: Typ)
    requires DestEquals(thm.prop).Some? && Distinct(thm.hyps)
    ensures var e := DestEquals(thm.prop).value;
            && Transitive(thm, Reflexive(e.rhs, ty)) == Ok(Restated(thm, e))
            && Transitive(Reflexive(e.lhs, ty), thm) == Ok(Restated(thm, e.(typ := ty)))
  {
    var e := DestEquals(thm.prop).value;
    AlphaEqReflexive(e.lhs);
    AlphaEqReflexive(e.rhs);
    UnionOfDistinct(thm.hyps);
    assert DestEquals(MkEquals(ty, e.lhs, e.lhs)) == Some(Equation(e.lhs, e.lhs, ty));
    assert DestEquals(MkEquals(ty, e.rhs, e.rhs)) == Some(Equation(e.rhs, e.rhs, ty));
  }

  /** Symmetry applies exactly to equations, states the reversed one, and applied twice gives the equation back. */
  lemma SymmetricEquation(thm: Thm)
    ensures Symmetric(thm).Ok? <==> DestEquals(thm.prop).Some?
    ensures Symmetric(thm).Ok? ==>
              var e := DestEquals(thm.prop).value;
              && DestEquals(Symmetric(thm).value.prop) == Some(Equation(e.rhs, e.lhs, e.typ))
              && Symmetric(Symmetric(thm).value) == Ok(Restated(thm, e))
  {
    if DestEquals(thm.prop).Some? {
      var e := DestEquals(thm.prop).value;
      assert DestEquals(MkEquals(e.typ, e.rhs, e.lhs)) == Some(Equation(e.rhs, e.lhs, e.typ));
    }
  }

  /**
   Application joins left sides with left sides and right sides with right sides: it commutes with symmetry, and of
   reflexive equations it makes a reflexive one.
   */
  lemma CombinationCommutes(thmF: Thm, thmX: Thm)
    requires DestEquals(thmF.prop).Some? && DestEquals(thmX.prop).Some?
    ensures Combination(thmF, thmX).Ok? <==> Combination(Symmetric(thmF).value, Symmetric(thmX).value).Ok?
    ensures Combination(thmF, thmX).Ok? ==>
              Symmetric(Combination(thmF, thmX).value) == Combination(Symmetric(thmF).value, Symmetric(thmX).value)
    ensures var f, x := DestEquals(thmF.prop).value, DestEquals(thmX.prop).value;
            Combination(thmF, thmX).Ok? && f.lhs == f.rhs && x.lhs == x.rhs ==>
              Combination(thmF, thmX).value.prop == Reflexive(App(f.lhs, x.lhs), f.typ.args[1]).prop
  {
    var f, x := DestEquals(thmF.prop).value, DestEquals(thmX.prop).value;
    SymmetricEquation(thmF);
    SymmetricEquation(thmX);
    if Combination(thmF, thmX).Ok? {
      var cod := f.typ.args[1];
      assert DestEquals(MkEquals(cod, App(f.lhs, x.lhs), App(f.rhs, x.rhs))).Some?;
    }
  }

  /**
   Application needs an equation between functions and one between arguments; a domain and an argument type that are both
   known must be the same. It makes an equation at the codomain.
   */
  lemma CombinationExact(thmF: Thm, thmX: Thm)
    ensures Combination(thmF, thmX).Ok? <==>
              && DestEquals(thmF.prop).Some? && DestEquals(thmX.prop).Some?
              && exists dom, cod ::
                   && DestEquals(thmF.prop).value.typ == Arrow(dom, cod)
                   && (DestEquals(thmX.prop).value.typ == dom || DestEquals(thmX.prop).value.typ == DUMMY || dom == DUMMY)
    ensures Combination(thmF, thmX).Ok? ==>
              var f, x := DestEquals(thmF.prop).value, DestEquals(thmX.prop).value;
              && exists dom, cod ::
                   && f.typ == Arrow(dom, cod)
                   && DestEquals(Combination(thmF, thmX).value.prop)
                      == Some(Equation(App(f.lhs, x.lhs), App(f.rhs, x.rhs), cod))
  {
    if DestEquals(thmF.prop).Some? && DestEquals(thmX.prop).Some? {
      var f, x := DestEquals(thmF.prop).value, DestEquals(thmX.prop).value;
      if IsFun(f.typ) {
        var dom, cod := f.typ.args[0], f.typ.args[1];
        assert f.typ == Arrow(dom, cod);
        assert DestEquals(MkEquals(cod, App(f.lhs, x.lhs), App(f.rhs, x.rhs)))
            == Some(Equation(App(f.lhs, x.lhs), App(f.rhs, x.rhs), cod));
      }
    }
  }

  /** Abstraction as it is documented: the new binder binds the named variable on both sides. */
  function BindingAbstraction(x: Symbol, ty: Typ, thm: Thm): Rule {
    match DestEquals(thm.prop)
    case None => Err(NotEquality(thm.prop))
    case Some(e) =>
      var v := Free(x, ty);
      if AnyFreeIn(x, thm.hyps) then Err(FreeVarInHypotheses(x))
      else Ok(thm.(prop := MkEquals(Arrow(ty, e.typ), Abs(x, ty, Lambda(v, e.lhs).body), Abs(x, ty, Lambda(v, e.rhs).body))))
  }

  /** The rule as coded is the documented one exactly if it fails or the variable occurs on neither side. */
  lemma AbstractionExact(x: Symbol, ty: Typ, thm: Thm)
    requires Closed(thm.prop)
    ensures Abstraction(x, ty, thm) == BindingAbstraction(x, ty, thm) <==>
            (Abstraction(x, ty, thm).Ok? ==>
               var e := DestEquals(thm.prop).value; !Occurs(Free(x, ty), e.lhs) && !Occurs(Free(x, ty), e.rhs))
    ensures Abstraction(x, ty, thm).Ok? ==>
              var e := DestEquals(thm.prop).value;
              e.lhs == e.rhs ==> Abstraction(x, ty, thm).value.prop == Reflexive(Abs(x, ty, e.lhs), Arrow(ty, e.typ)).prop
  {
    if DestEquals(thm.prop).Some? {
      var e, v := DestEquals(thm.prop).value, Free(x, ty);
      assert LooseBelow(thm.prop.func, 0);
      LambdaClosed(v, e.lhs);
      LambdaClosed(v, e.rhs);
      AbstractsNothing(0, v, e.lhs);
      AbstractsNothing(0, v, e.rhs);
    }
  }

  /** With the variable as left side, the variable stays free below its own binder. */
  lemma AbstractionLeavesFree(x: Symbol, ty: Typ, u: Term, oracles: seq<Symbol>)
    requires Closed(u) && !Occurs(Free(x, ty), u)
    ensures var thm := Thm([], MkEquals(ty, Free(x, ty), u), oracles); var fun := Arrow(ty, ty);
            && Abstraction(x, ty, thm) == Ok(thm.(prop := MkEquals(fun, Abs(x, ty, Free(x, ty)), Abs(x, ty, u))))
            && BindingAbstraction(x, ty, thm) == Ok(thm.(prop := MkEquals(fun, Abs(x, ty, Bound(0)), Abs(x, ty, u))))
  {
    var v := Free(x, ty);
    assert DestEquals(MkEquals(ty, v, u)) == Some(Equation(v, u, ty));
    LambdaClosed(v, u);
    LambdaClosed(v, v);
    AbstractsNothing(0, v, u);
  }

  /** Two equations chain exactly if their reversals chain the other way around, to the reversed equation. */
  lemma TransitiveReverses(thm1: Thm, thm2: Thm)
    requires DestEquals(thm1.prop).Some? && DestEquals(thm2.prop).Some?
    ensures var back := Transitive(Symmetric(thm2).value, Symmetric(thm1).value);
            && (Transitive(thm1, thm2).Ok? <==> back.Ok?)
            && (back.Ok? ==>
                  var e, r := DestEquals(Transitive(thm1, thm2).value.prop), DestEquals(back.value.prop);
                  e.Some? && r.Some? && e.value.lhs == r.value.rhs && e.value.rhs == r.value.lhs)
  {
    var e1, e2 := DestEquals(thm1.prop).value, DestEquals(thm2.prop).value;
    SymmetricEquation(thm1);
    SymmetricEquation(thm2);
    AlphaEqSymmetric(e1.rhs, e2.lhs);
    assert DestEquals(MkEquals(e1.typ, e1.lhs, e2.rhs)) == Some(Equation(e1.lhs, e2.rhs, e1.typ));
    assert DestEquals(MkEquals(e2.typ, e2.rhs, e1.lhs)) == Some(Equation(e2.rhs, e1.lhs, e2.typ));
  }

  /** Discharging applies exactly to hypotheses; supplying what was discharged gives the proposition back. */
  lemma IntroducedThenEliminated(a: Term, thm: Thm)
    ensures ImpliesIntr(a, thm).Ok? <==> HypsContain(thm.hyps, a)
    ensures ImpliesIntr(a, thm).Ok? ==>
              ImpliesElim(ImpliesIntr(a, thm).value, Assume(a)) == Ok(thm.(hyps := HypsRemove(thm.hyps, a) + [a]))
  {
    if HypsContain(thm.hyps, a) {
      AlphaEqReflexive(a);
      var rest := HypsRemove(thm.hyps, a);
      RemoveMembers(thm.hyps, a);
      assert !HypsContain(rest, a) by {
        forall i | 0 <= i < |rest| ensures !AlphaEq(rest[i], a) { assert rest[i] in rest; }
      }
      assert [a][..0] == [];
      assert HypsUnion(rest, [a]) == rest + [a];
    }
  }

  /** Supplying an antecedent that is no hypothesis yet and discharging it again gives the implication back. */
  lemma EliminatedThenIntroduced(thm: Thm)
    requires DestImplies(thm.prop).Some? && !HypsContain(thm.hyps, DestImplies(thm.prop).value.0)
    ensures var (a, b) := DestImplies(thm.prop).value;
            && ImpliesElim(thm, Assume(a)).Ok?
            && ImpliesIntr(a, ImpliesElim(thm, Assume(a)).value) == Ok(thm.(prop := MkImplies(a, b)))
  {
    var (a, b) := DestImplies(thm.prop).value;
    AlphaEqReflexive(a);
    assert [a][..0] == [];
    var all := thm.hyps + [a];
    assert HypsUnion(thm.hyps, [a]) == all;
    assert AlphaEq(all[|thm.hyps|], a);
    RemoveLast(thm.hyps, a);
  }

  lemma {:induction false} RemoveLast(hs: seq<Term>, a: Term)
    requires !HypsContain(hs, a)
    ensures HypsRemove(hs + [a], a) == hs
  {
    AlphaEqReflexive(a);
    var all := hs + [a];
    if hs == [] {
      assert all[1..] == [];
    } else {
      assert !AlphaEq(hs[0], a);
      assert !HypsContain(hs[1..], a) by {
        forall i | 0 <= i < |hs[1..]| ensures !AlphaEq(hs[1..][i], a) { assert hs[1..][i] == hs[i + 1]; }
      }
      RemoveLast(hs[1..], a);
      assert all[1..] == hs[1..] + [a];
    }
  }

  /**
   Rewriting a premise applies exactly if it is there and matches the left-hand side; the result has that premise
   replaced, all others and the conclusion as they were, and the hypotheses of the state first.
   */
  lemma PremiseReplaced(eqThm: Thm, state: Thm, i: nat)
    ensures SubstPremise(eqThm, state, i).Some? <==>
              DestEquals(eqThm.prop).Some? && i < CountPrems(state.prop)
              && AlphaEq(DestEquals(eqThm.prop).value.lhs, StripImpPrems(state.prop).0[i])
    ensures SubstPremise(eqThm, state, i).Some? ==>
              var r, (prems, concl) := SubstPremise(eqThm, state, i).value, StripImpPrems(state.prop);
              && StripImpPrems(r.prop) == (prems[i := DestEquals(eqThm.prop).value.rhs], concl)
              && r.hyps == HypsUnion(state.hyps, eqThm.hyps)
  {
    if SubstPremise(eqThm, state, i).Some? {
      var (prems, concl) := StripImpPrems(state.prop);
      var now := prems[i := DestEquals(eqThm.prop).value.rhs];
      StripMkImpliesList(now, concl);
      ConclIsNoImplication(state.prop);
      assert now + [] == now;
    }
  }

  /** Rewriting a premise with an equation and then with its symmetric form restores the premises of the state. */
  lemma PremiseRestored(eqThm: Thm, state: Thm, i: nat)
    requires SubstPremise(eqThm, state, i).Some?
    requires DestEquals(eqThm.prop).value.lhs == StripImpPrems(state.prop).0[i]
    ensures var once := SubstPremise(eqThm, state, i).value;
            var twice := SubstPremise(Symmetric(eqThm).value, once, i);
            twice.Some? && StripImpPrems(twice.value.prop) == StripImpPrems(state.prop)
  {
    var e, back := DestEquals(eqThm.prop).value, Symmetric(eqThm).value;
    var once, prems := SubstPremise(eqThm, state, i).value, StripImpPrems(state.prop).0;
    assert DestEquals(back.prop) == Some(Equation(e.rhs, e.lhs, e.typ));
    PremiseReplaced(eqThm, state, i);
    AlphaEqReflexive(e.rhs);
    PremiseReplaced(back, once, i);
    assert prems[i := e.rhs][i := e.lhs] == prems;
  }

  lemma {:induction false} OraclesExtend(a: seq<Symbol>, b: seq<Symbol>)
    ensures a <= UnionOracles(a, b) && a <= AddOracles(a, b)
  {
    if b != [] { OraclesExtend(a, b[..|b| - 1]); }
  }

  /** Of two theorems the hypotheses and oracles of the first come first, as they were. */
  lemma FirstComesFirst(thm1: Thm, thm2: Thm)
    ensures forall r :: r in [Transitive(thm1, thm2), Combination(thm1, thm2), ImpliesElim(thm1, thm2)] && r.Ok? ==>
              thm1.hyps <= r.value.hyps && thm1.oracles <= r.value.oracles
  {
    UnionExtends(thm1.hyps, thm2.hyps);
    OraclesExtend(thm1.oracles, thm2.oracles);
  }

  // ---------- what errors say ----------

  /** A term reported as no equation is the proposition of the first theorem that states none. */
  ghost predicate NoEquation(t: Term, thm1: Thm, thm2: Thm) {
    DestEquals(t).None? && t == if DestEquals(thm1.prop).None? then thm1.prop else thm2.prop
  }

  lemma TransitiveErrors(thm1: Thm, thm2: Thm)
    ensures match Transitive(thm1, thm2)
            case Err(NotEquality(t)) => NoEquation(t, thm1, thm2)
            case Err(e) =>
              e == MidTermsNotEquiv && exists l, m, n, r, s, t ::
                DestEquals(thm1.prop) == Some(Equation(l, m, s)) && DestEquals(thm2.prop) == Some(Equation(n, r, t))
                && !AlphaEq(m, n)
            case Ok(_) => true
  {
    if DestEquals(thm1.prop).Some? && DestEquals(thm2.prop).Some? {
      var e1, e2 := DestEquals(thm1.prop).value, DestEquals(thm2.prop).value;
      assert e1 == Equation(e1.lhs, e1.rhs, e1.typ) && e2 == Equation(e2.lhs, e2.rhs, e2.typ);
    }
  }

  lemma CombinationErrors(thmF: Thm, thmX: Thm)
    ensures match Combination(thmF, thmX)
            case Err(NotEquality(t)) => NoEquation(t, thmF, thmX)
            case Err(NotFunctionType(ty)) =>
              DestEquals(thmF.prop).Some? && DestEquals(thmF.prop).value.typ == ty && forall a, b :: ty != Arrow(a, b)
            case Err(TypeMismatch(dom, ty)) =>
              && DestEquals(thmX.prop).Some? && DestEquals(thmX.prop).value.typ == ty
              && dom != ty && dom != DUMMY && ty != DUMMY
              && DestEquals(thmF.prop).Some? && exists cod :: DestEquals(thmF.prop).value.typ == Arrow(dom, cod)
            case Err(_) => false
            case Ok(_) => true
  {
    match Combination(thmF, thmX)
    case Err(TypeMismatch(dom, _)) =>
      var ty := DestEquals(thmF.prop).value.typ;
      assert ty == Arrow(dom, ty.args[1]);
    case _ =>
  }

  /** Generalising fails for a variable of a hypothesis, discharging for a proposition that no hypothesis matches. */
  lemma HypothesisErrors(x: Symbol, ty: Typ, t: Term, thm: Thm)
    ensures ForallIntr(x, ty, thm).Err? <==> exists h :: h in thm.hyps && FreeIn(x, h)
    ensures ForallIntr(x, ty, thm).Err? ==> ForallIntr(x, ty, thm).error == FreeVarInHypotheses(x)
    ensures ImpliesIntr(t, thm).Err? <==> forall h :: h in thm.hyps ==> !AlphaEq(h, t)
    ensures ImpliesIntr(t, thm).Err? ==> ImpliesIntr(t, thm).error == HypothesisNotFound
  {
    forall h | h in thm.hyps ensures exists i :: 0 <= i < |thm.hyps| && thm.hyps[i] == h {}
    forall i | 0 <= i < |thm.hyps| ensures thm.hyps[i] in thm.hyps {}
  }

  // ---------- resolution of theorems with redexes ----------

  /** Normalisation without bindings ends within its budget. */
  predicate Ends(t: Term) {
    InitTriangular();
    Eval(INIT, t, MAX_STEPS).Some?
  }

  /** The beta normal form, or the term itself if its normalisation runs out of budget. */
  function Reduct(t: Term): Term {
    if Ends(t) && BetaNorm(t, MAX_STEPS).Some? then BetaNorm(t, MAX_STEPS).value else t
  }

  lemma {:induction false} NormalIsRedexFree(env: Env, t: Term)
    requires TypesTriangular(env) && Normal(env, t)
    ensures RedexFree(t)
  {
    match t
    case Abs(_, _, b) => NormalIsRedexFree(env, b);
    case App(f, a) => NormalIsRedexFree(env, f); NormalIsRedexFree(env, a);
    case _ =>
  }

  lemma ReductIsNorm(t: Term)
    ensures TypesTriangular(INIT) && NormTerm(INIT, t) == Reduct(t)
    ensures Ends(t) ==> BetaNorm(t, MAX_STEPS) == Some(Reduct(t)) && RedexFree(Reduct(t))
  {
    InitTriangular();
    if Ends(t) {
      EvalIsBetaNorm(t, MAX_STEPS);
      EvalIsNormal(INIT, t, MAX_STEPS);
      NormalIsRedexFree(INIT, Reduct(t));
    }
  }

  function Reducts(ts: seq<Term>): seq<Term> {
    seq(|ts|, i requires 0 <= i < |ts| => Reduct(ts[i]))
  }

  lemma {:induction false} InstantiatedHyps(hs: seq<Term>)
    ensures TypesTriangular(INIT) && InstantiateHyps(INIT, hs) == HypsUnion([], Reducts(hs))
  {
    InitTriangular();
    if hs == [] {
    } else {
      var front, last := hs[..|hs| - 1], hs[|hs| - 1];
      InstantiatedHyps(front);
      ReductIsNorm(last);
      assert Reducts(hs)[..|hs| - 1] == Reducts(front) && Reducts(hs)[|hs| - 1] == Reduct(last);
    }
  }

  lemma {:induction false} RedexFreeParts(t: Term)
    requires RedexFree(t)
    ensures RedexFree(StripImpPrems(t).1) && forall p :: p in StripImpPrems(t).0 ==> RedexFree(p)
    decreases t
  {
    match DestImplies(t)
    case Some((a, b)) => assert RedexFree(t.func); RedexFreeParts(b);
    case None =>
  }

  lemma {:induction false} RedexFreeChain(prems: seq<Term>, concl: Term)
    requires RedexFree(concl) && forall p :: p in prems ==> RedexFree(p)
    ensures RedexFree(MkImpliesList(prems, concl))
  {
    if prems != [] { RedexFreeChain(prems[1..], concl); }
  }

  /** Resolution on an exact match applies exactly if the premise is there and the theorem or its conclusion matches it. */
  lemma BicomposeApplies(thm1: Thm, thm2: Thm, i: nat)
    ensures BicomposeExact(thm1, thm2, i).Some? <==>
              i < CountPrems(thm2.prop)
              && (AlphaEq(thm1.prop, StripImpPrems(thm2.prop).0[i])
                  || AlphaEq(StripImpPrems(thm1.prop).1, StripImpPrems(thm2.prop).0[i]))
  {
  }

  /** The premises of the reducts, with premise `i` of the second exchanged for those of the first or for nothing. */
  function ReducedPrems(thm1: Thm, thm2: Thm, i: nat): (r: seq<Term>)
    requires i < CountPrems(thm2.prop) && i < CountPrems(Reduct(thm2.prop))
  {
    var whole := AlphaEq(thm1.prop, StripImpPrems(thm2.prop).0[i]);
    var goals := StripImpPrems(Reduct(thm2.prop)).0;
    goals[..i] + (if whole then [] else StripImpPrems(Reduct(thm1.prop)).0) + goals[i + 1..]
  }

  /**
   Resolution on an exact match, of any two theorems: the result has the premises and the conclusion of the beta normal
   forms of the two propositions with premise `i` exchanged, and the normal forms of the hypotheses. If the normalisations
   end within their budget, nothing in the result has a redex.
   */
  lemma BicomposeReduces(thm1: Thm, thm2: Thm, i: nat)
    requires BicomposeExact(thm1, thm2, i).Some?
    ensures i < CountPrems(thm2.prop) <= CountPrems(Reduct(thm2.prop))
    ensures var r, prems, concl :=
              BicomposeExact(thm1, thm2, i).value, ReducedPrems(thm1, thm2, i), StripImpPrems(Reduct(thm2.prop)).1;
            && r.prop == MkImpliesList(prems, concl) && StripImpPrems(r.prop) == (prems, concl)
            && (Ends(thm1.prop) && Ends(thm2.prop) ==> RedexFree(r.prop))
            && r.oracles == UnionOracles(thm1.oracles, thm2.oracles)
    ensures var r := BicomposeExact(thm1, thm2, i).value;
            && r.hyps == HypsUnion(HypsUnion([], Reducts(thm1.hyps)), HypsUnion([], Reducts(thm2.hyps)))
            && ((forall x :: x in thm1.hyps + thm2.hyps ==> Ends(x)) ==> forall h :: h in r.hyps ==> RedexFree(h))
  {
    ReductIsNorm(thm1.prop);
    ReductIsNorm(thm2.prop);
    NormKeepsPremises(INIT, thm2.prop);
    InstantiatedHyps(thm1.hyps);
    InstantiatedHyps(thm2.hyps);
    var prems, concl := ReducedPrems(thm1, thm2, i), StripImpPrems(Reduct(thm2.prop)).1;
    var r := BicomposeExact(thm1, thm2, i).value;
    assert r.prop == MkImpliesList(prems, concl);
    StripMkImpliesList(prems, concl);
    ConclIsNoImplication(Reduct(thm2.prop));
    assert prems + [] == prems;
    if Ends(thm1.prop) && Ends(thm2.prop) {
      RedexFreeParts(Reduct(thm1.prop));
      RedexFreeParts(Reduct(thm2.prop));
      RedexFreeChain(prems, concl);
    }
    if forall x :: x in thm1.hyps + thm2.hyps ==> Ends(x) {
      ReductsRedexFree(thm1.hyps);
      ReductsRedexFree(thm2.hyps);
      UnionMembers(HypsUnion([], Reducts(thm1.hyps)), HypsUnion([], Reducts(thm2.hyps)));
    }
  }

  lemma ReductsRedexFree(hs: seq<Term>)
    requires forall x :: x in hs ==> Ends(x)
    ensures forall h :: h in HypsUnion([], Reducts(hs)) ==> RedexFree(h)
  {
    UnionMembers([], Reducts(hs));
    forall i | 0 <= i < |hs| ensures RedexFree(Reducts(hs)[i]) { ReductIsNorm(hs[i]); }
  }
}
