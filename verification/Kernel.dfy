/**
 The inference kernel. A theorem holds its hypotheses, its proposition and the names of the oracles it depends on; the
 rules below are the only way to make one. Derivations record which rules made a theorem, so that a statement about all
 derivations is a statement about every run of the kernel.
 */
module Kernel {
  import opened Wrappers
  import opened Syntax
  import opened TermSubst
  import opened Logic
  import opened Hyps
  import opened Envir

  datatype Thm = Thm(hyps: seq<Term>, prop: Term, oracles: seq<Symbol>)

  datatype KernelError =
    | NotEquality(term: Term)
    | MidTermsNotEquiv
    | NotFunctionType(typ: Typ)
    | TypeMismatch(expected: Typ, actual: Typ)
    | FreeVarInHypotheses(name: Symbol)
    | HypothesisNotFound
    | NotImplication(term: Term)
    | AntecedentMismatch
    | NotForall(term: Term)

  type Rule = Result<Thm, KernelError>

  // ---------- oracle footprints ----------

  function AddOracles(a: seq<Symbol>, b: seq<Symbol>): seq<Symbol> {
    if b == [] then a
    else
      var r := AddOracles(a, b[..|b| - 1]);
      if b[|b| - 1] in r then r else r + [b[|b| - 1]]
  }

  function UnionOracles(a: seq<Symbol>, b: seq<Symbol>): seq<Symbol> {
    if b == [] then a else if a == [] then b else AddOracles(a, b)
  }

  method UnionOraclesLoop(a: seq<Symbol>, b: seq<Symbol>) returns (out: seq<Symbol>)
    ensures out == UnionOracles(a, b)
  {
    if b == [] { return a; }
    if a == [] { return b; }
    out := a;
    for i := 0 to |b|
      invariant out == AddOracles(a, b[..i])
    {
      assert b[..i + 1][..i] == b[..i];
      if b[i] !in out {
        out := out + [b[i]];
      }
    }
    assert b[..|b|] == b;
  }

  ghost predicate NoDuplicates(s: seq<Symbol>) {
    forall i, j :: 0 <= i < j < |s| ==> s[i] != s[j]
  }

  lemma {:induction false} AddOraclesIsUnion(a: seq<Symbol>, b: seq<Symbol>)
    requires NoDuplicates(a)
    ensures NoDuplicates(AddOracles(a, b))
    ensures forall n :: n in AddOracles(a, b) <==> n in a || n in b
  {
    if b == [] {
    } else {
      AddOraclesIsUnion(a, b[..|b| - 1]);
      assert b == b[..|b| - 1] + [b[|b| - 1]];
    }
  }

  // ---------- side conditions ----------

  predicate AnyFreeIn(x: Symbol, ts: seq<Term>) {
    exists i :: 0 <= i < |ts| && FreeIn(x, ts[i])
  }

  ghost function TotalSize(ts: seq<Term>): nat {
    if ts == [] then 0 else TotalSize(ts[..|ts| - 1]) + Size(ts[|ts| - 1])
  }

  lemma TotalSizePush(ts: seq<Term>, t: Term)
    ensures TotalSize(ts + [t]) == TotalSize(ts) + Size(t)
  {
    assert (ts + [t])[..|ts|] == ts;
  }

  method FreeInLoop(x: Symbol, term: Term) returns (found: bool)
    ensures found == FreeIn(x, term)
  {
    var stack := [term];
    TotalSizePush([], term);
    while stack != []
      invariant FreeIn(x, term) <==> AnyFreeIn(x, stack)
      decreases TotalSize(stack)
    {
      var t, rest := stack[|stack| - 1], stack[..|stack| - 1];
      assert stack == rest + [t];
      assert AnyFreeIn(x, stack) <==> AnyFreeIn(x, rest) || FreeIn(x, t) by { AnyFreeInPush(x, rest, t); }
      match t {
        case Free(n, _) =>
          if n == x { return true; }
          stack := rest;
        case Abs(_, _, b) =>
          AnyFreeInPush(x, rest, b);
          TotalSizePush(rest, b);
          stack := rest + [b];
        case App(f, a) =>
          AnyFreeInPush(x, rest, a);
          AnyFreeInPush(x, rest + [a], f);
          TotalSizePush(rest, a);
          TotalSizePush(rest + [a], f);
          stack := rest + [a] + [f];
        case _ => stack := rest;
      }
    }
    found := false;
  }

  lemma AnyFreeInPush(x: Symbol, ts: seq<Term>, t: Term)
    ensures AnyFreeIn(x, ts + [t]) <==> AnyFreeIn(x, ts) || FreeIn(x, t)
  {
    var all := ts + [t];
    if AnyFreeIn(x, ts) {
      var i :| 0 <= i < |ts| && FreeIn(x, ts[i]);
      assert FreeIn(x, all[i]);
    }
    if FreeIn(x, t) {
      assert FreeIn(x, all[|ts|]);
    }
  }

  // ---------- the rules ----------

  function Admit(t: Term, name: Symbol): Thm {
    Thm([], t, [name])
  }

  function Assume(t: Term): Thm {
    Thm([t], t, [])
  }

  /** The equation is at the type the certified term carries. */
  function Reflexive(t: Term, termType: Typ): Thm {
    Thm([], MkEquals(termType, t, t), [])
  }

  function Symmetric(thm: Thm): Rule {
    match DestEquals(thm.prop)
    case None => Err(NotEquality(thm.prop))
    case Some(Equation(t, u, ty)) => Ok(Thm(thm.hyps, MkEquals(ty, u, t), thm.oracles))
  }

  function Join(thm1: Thm, thm2: Thm, prop: Term): Thm {
    Thm(HypsUnion(thm1.hyps, thm2.hyps), prop, UnionOracles(thm1.oracles, thm2.oracles))
  }

  function Transitive(thm1: Thm, thm2: Thm): Rule {
    match DestEquals(thm1.prop)
    case None => Err(NotEquality(thm1.prop))
    case Some(e1) =>
      match DestEquals(thm2.prop)
      case None => Err(NotEquality(thm2.prop))
      case Some(e2) =>
        if !AlphaEq(e1.rhs, e2.lhs) then Err(MidTermsNotEquiv)
        else Ok(Join(thm1, thm2, MkEquals(e1.typ, e1.lhs, e2.rhs)))
  }

  function Combination(thmF: Thm, thmX: Thm): Rule {
    match DestEquals(thmF.prop)
    case None => Err(NotEquality(thmF.prop))
    case Some(f) =>
      match DestEquals(thmX.prop)
      case None => Err(NotEquality(thmX.prop))
      case Some(x) =>
        if !IsFun(f.typ) then Err(NotFunctionType(f.typ))
        else
          var dom, cod := f.typ.args[0], f.typ.args[1];
          if !IsDummy(dom) && !IsDummy(x.typ) && dom != x.typ then Err(TypeMismatch(dom, x.typ))
          else Ok(Join(thmF, thmX, MkEquals(cod, App(f.lhs, x.lhs), App(f.rhs, x.rhs))))
  }

  /** The binder is put around both sides as they are: occurrences of the named variable are not bound by it. */
  function Abstraction(x: Symbol, ty: Typ, thm: Thm): Rule {
    match DestEquals(thm.prop)
    case None => Err(NotEquality(thm.prop))
    case Some(e) =>
      if AnyFreeIn(x, thm.hyps) then Err(FreeVarInHypotheses(x))
      else Ok(Thm(thm.hyps, MkEquals(Arrow(ty, e.typ), Abs(x, ty, e.lhs), Abs(x, ty, e.rhs)), thm.oracles))
  }

  function ImpliesIntr(assumption: Term, thm: Thm): Rule {
    if !HypsContain(thm.hyps, assumption) then Err(HypothesisNotFound)
    else Ok(Thm(HypsRemove(thm.hyps, assumption), MkImplies(assumption, thm.prop), thm.oracles))
  }

  function ImpliesElim(thmImp: Thm, thmA: Thm): Rule {
    match DestImplies(thmImp.prop)
    case None => Err(NotImplication(thmImp.prop))
    case Some((a, b)) =>
      if !AlphaEq(a, thmA.prop) then Err(AntecedentMismatch) else Ok(Join(thmImp, thmA, b))
  }

  function ForallIntr(x: Symbol, ty: Typ, thm: Thm): Rule {
    if AnyFreeIn(x, thm.hyps) then Err(FreeVarInHypotheses(x))
    else Ok(Thm(thm.hyps, MkAll(x, ty, thm.prop), thm.oracles))
  }

  function ForallElim(t: Term, thm: Thm): Rule {
    match DestAll(thm.prop)
    case None => Err(NotForall(thm.prop))
    case Some(body) => Ok(Thm(thm.hyps, SubstBounds([t], body), thm.oracles))
  }

  function Trivial(t: Term): Rule {
    ImpliesIntr(t, Assume(t))
  }

  /** The starting point of a goal is unconditional: a proposition implies itself. */
  lemma TrivialHolds(t: Term)
    ensures Trivial(t) == Ok(Thm([], MkImplies(t, t), []))
  {
    AlphaEqReflexive(t);
    assert AlphaEq([t][0], t);
    assert HypsRemove([t], t) == HypsRemove([t][1..], t) == [];
  }

  /** Replaces premise `i` of the state by the other side of an equation. */
  function SubstPremise(eqThm: Thm, state: Thm, i: nat): Option<Thm> {
    match DestEquals(eqThm.prop)
    case None => None
    case Some(e) =>
      var (prems, concl) := StripImpPrems(state.prop);
      if i >= |prems| || !AlphaEq(e.lhs, prems[i]) then None
      else Some(Join(state, eqThm, MkImpliesList(prems[i := e.rhs], concl)))
  }

  function InstantiateHyps(env: Env, hs: seq<Term>): seq<Term>
    requires TypesTriangular(env)
  {
    if hs == [] then []
    else HypsInsert(InstantiateHyps(env, hs[..|hs| - 1]), NormTerm(env, hs[|hs| - 1]))
  }

  function Instantiate(env: Env, thm: Thm): Thm
    requires TypesTriangular(env)
  {
    Thm(InstantiateHyps(env, thm.hyps), NormTerm(env, thm.prop), thm.oracles)
  }

  /**
   The last part of resolution: premise `i` of the second instance is replaced by the premises of the first, or by none if
   the whole first proposition met it.
   */
  function Resolved(env: Env, whole: bool, thm1: Thm, thm2: Thm, i: nat): Thm
    requires TypesTriangular(env) && i < CountPrems(thm2.prop)
  {
    var inst1, inst2 := Instantiate(env, thm1), Instantiate(env, thm2);
    var new_ := if whole then [] else StripImpPrems(inst1.prop).0;
    var (prems, concl) := StripImpPrems(inst2.prop);
    NormKeepsPremises(env, thm2.prop);
    Join(inst1, inst2, MkImpliesList(prems[..i] + new_ + prems[i + 1..], concl))
  }

  /** Resolution where the whole first proposition, or its conclusion, matches premise `i` of the second as it stands. */
  function BicomposeExact(thm1: Thm, thm2: Thm, i: nat): Option<Thm> {
    match NthPremise(thm2.prop, i)
    case None => None
    case Some(goal) =>
      var full := AlphaEq(thm1.prop, goal);
      if !full && !AlphaEq(StripImpPrems(thm1.prop).1, goal) then None
      else
        InitTriangular();
        Some(Resolved(INIT, full, thm1, thm2, i))
  }

  lemma EvalOfConstApp(env: Env, t: Term, fuel: nat)
    requires TypesTriangular(env) && Eval(env, t, fuel).Some?
    requires t.App? && t.func.Const?
    ensures var r := Eval(env, t, fuel).value.0; r.App? && r.func.Const? && r.func.name == t.func.name
  {
    assert Eval(env, t.func, fuel - 1) == Some((Const(t.func.name, NormType(env, t.func.typ)), fuel - 2));
  }

  /** Normalising a chain of implications loses none of its premises, so the premise of the goal can be cut out. */
  lemma {:induction false} EvalKeepsPremises(env: Env, t: Term, fuel: nat)
    requires TypesTriangular(env) && Eval(env, t, fuel).Some?
    ensures CountPrems(Eval(env, t, fuel).value.0) >= CountPrems(t)
    decreases t
  {
    match DestImplies(t)
    case None =>
    case Some((a, b)) =>
      var head := t.func;
      var (h, m) := Eval(env, head, fuel - 1).value;
      EvalOfConstApp(env, head, fuel - 1);
      EvalKeepsPremises(env, b, m);
      assert DestImplies(Eval(env, t, fuel).value.0) == Some((h.arg, Eval(env, b, m).value.0));
  }

  lemma NormKeepsPremises(env: Env, t: Term)
    requires TypesTriangular(env)
    ensures CountPrems(NormTerm(env, t)) >= CountPrems(t)
  {
    if Eval(env, t, MAX_STEPS).Some? {
      EvalKeepsPremises(env, t, MAX_STEPS);
    }
  }

  // ---------- derivations ----------

  datatype AxiomRule =
    | FromOracle(term: Term, oracle: Symbol)
    | FromAssumption(term: Term)
    | FromReflexivity(term: Term, typ: Typ)

  datatype UnaryRule =
    | BySymmetry
    | ByAbstraction(x: Symbol, typ: Typ)
    | ByImpliesIntr(assumption: Term)
    | ByForallIntr(x: Symbol, typ: Typ)
    | ByForallElim(term: Term)

  datatype BinaryRule =
    | ByTransitivity
    | ByCombination
    | ByImpliesElim
    | BySubstPremise(i: nat)
    | ByBicompose(i: nat)

  datatype Derivation =
    | Axiom(a: AxiomRule)
    | Unary(r1: UnaryRule, d: Derivation)
    | Binary(r2: BinaryRule, left: Derivation, right: Derivation)

  function ToOption(r: Rule): Option<Thm> {
    match r
    case Ok(thm) => Some(thm)
    case Err(_) => None
  }

  function Infer0(a: AxiomRule): Thm {
    match a
    case FromOracle(t, name) => Admit(t, name)
    case FromAssumption(t) => Assume(t)
    case FromReflexivity(t, ty) => Reflexive(t, ty)
  }

  function Infer1(r: UnaryRule, thm: Thm): Option<Thm> {
    match r
    case BySymmetry => ToOption(Symmetric(thm))
    case ByAbstraction(x, ty) => ToOption(Abstraction(x, ty, thm))
    case ByImpliesIntr(a) => ToOption(ImpliesIntr(a, thm))
    case ByForallIntr(x, ty) => ToOption(ForallIntr(x, ty, thm))
    case ByForallElim(t) => ToOption(ForallElim(t, thm))
  }

  function Infer2(r: BinaryRule, thm1: Thm, thm2: Thm): Option<Thm> {
    match r
    case ByTransitivity => ToOption(Transitive(thm1, thm2))
    case ByCombination => ToOption(Combination(thm1, thm2))
    case ByImpliesElim => ToOption(ImpliesElim(thm1, thm2))
    case BySubstPremise(i) => SubstPremise(thm1, thm2, i)
    case ByBicompose(i) => BicomposeExact(thm1, thm2, i)
  }

  /** The theorem a derivation makes, if every rule in it applies. */
  function Run(d: Derivation): Option<Thm> {
    match d
    case Axiom(a) => Some(Infer0(a))
    case Unary(r, e) =>
      (match Run(e)
       case None => None
       case Some(thm) => Infer1(r, thm))
    case Binary(r, e1, e2) =>
      match (Run(e1), Run(e2))
      case (Some(thm1), Some(thm2)) => Infer2(r, thm1, thm2)
      case _ => None
  }

  // ---------- what every run keeps ----------

  /** The oracles named at the leaves of a derivation. */
  function AdmittedNames(d: Derivation): set<Symbol> {
    match d
    case Axiom(a) => if a.FromOracle? then {a.oracle} else {}
    case Unary(_, e) => AdmittedNames(e)
    case Binary(_, e1, e2) => AdmittedNames(e1) + AdmittedNames(e2)
  }

  lemma {:induction false} UnionOraclesIsUnion(a: seq<Symbol>, b: seq<Symbol>)
    requires NoDuplicates(a) && NoDuplicates(b)
    ensures NoDuplicates(UnionOracles(a, b))
    ensures forall n :: n in UnionOracles(a, b) <==> n in a || n in b
  {
    AddOraclesIsUnion(a, b);
  }

  lemma FootprintKept(r: UnaryRule, e: Derivation)
    requires Run(Unary(r, e)).Some?
    ensures Run(e).Some? && Run(Unary(r, e)).value.oracles == Run(e).value.oracles
  {
  }

  lemma FootprintsJoined(r: BinaryRule, e1: Derivation, e2: Derivation)
    requires Run(Binary(r, e1, e2)).Some?
    ensures Run(e1).Some? && Run(e2).Some?
    ensures var o1, o2 := Run(e1).value.oracles, Run(e2).value.oracles;
            Run(Binary(r, e1, e2)).value.oracles in {UnionOracles(o1, o2), UnionOracles(o2, o1)}
  {
  }

  /** A theorem's footprint is exactly the set of oracles its derivation admits, without repetition. */
  lemma {:induction false} OraclesExact(d: Derivation)
    requires Run(d).Some?
    ensures NoDuplicates(Run(d).value.oracles)
    ensures forall n :: n in Run(d).value.oracles <==> n in AdmittedNames(d)
  {
    match d
    case Axiom(_) =>
    case Unary(r, e) =>
      OraclesExact(e);
      FootprintKept(r, e);
    case Binary(r, e1, e2) =>
      OraclesExact(e1);
      OraclesExact(e2);
      FootprintsJoined(r, e1, e2);
      UnionOraclesIsUnion(Run(e1).value.oracles, Run(e2).value.oracles);
      UnionOraclesIsUnion(Run(e2).value.oracles, Run(e1).value.oracles);
  }

  lemma {:induction false} InstantiateDistinct(env: Env, hs: seq<Term>)
    requires TypesTriangular(env)
    ensures Distinct(InstantiateHyps(env, hs))
  {
    if hs == [] {
    } else {
      InstantiateDistinct(env, hs[..|hs| - 1]);
      InsertDistinct(InstantiateHyps(env, hs[..|hs| - 1]), NormTerm(env, hs[|hs| - 1]));
    }
  }

  /** In every run, no hypothesis of a theorem matches another. */
  lemma {:induction false} HypsStayDistinct(d: Derivation)
    requires Run(d).Some?
    ensures Distinct(Run(d).value.hyps)
  {
    match d
    case Axiom(_) =>
    case Unary(r, e) =>
      HypsStayDistinct(e);
      if r.ByImpliesIntr? { RemoveDistinct(Run(e).value.hyps, r.assumption); }
    case Binary(r, e1, e2) =>
      var thm1, thm2 := Run(e1).value, Run(e2).value;
      HypsStayDistinct(e1);
      HypsStayDistinct(e2);
      if r.ByBicompose? {
        InitTriangular();
        InstantiateDistinct(INIT, thm1.hyps);
        UnionDistinct(Instantiate(INIT, thm1).hyps, Instantiate(INIT, thm2).hyps);
      } else {
        UnionDistinct(thm1.hyps, thm2.hyps);
        UnionDistinct(thm2.hyps, thm1.hyps);
      }
  }
}
