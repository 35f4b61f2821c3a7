/**
 Resolution in full: the conclusion of one theorem meets a premise of another by comparison, by matching or by unification,
 and both are instantiated. For first-order theorems the result is true where the two are, if the bindings make conclusion
 and premise the same.
 */
module Resolution {
  import opened Wrappers
  import opened Syntax
  import opened TypeResolve
  import opened Logic
  import opened Hyps
  import opened Envir
  import opened Kernel
  import opened Semantics
  import opened Soundness
  import opened Unify
  import opened Unifiers
  import Graph
  import TypeUnify

  // ---------- how a conclusion meets a premise ----------

  predicate TypesCompatible(a: Typ, b: Typ) {
    match (a, b)
    case (Type(m, as_), Type(n, bs)) =>
      m == n && |as_| == |bs| && forall i :: 0 <= i < |as_| ==> TypesCompatible(as_[i], bs[i])
    case _ => true
  }

  function KnownType(constTypes: map<Symbol, Typ>, n: Symbol, ty: Typ): Typ {
    if IsDummy(ty) && n in constTypes then constTypes[n] else ty
  }

  /** A look at the outermost nodes, before unification is tried; constants are compared by their declared types too. */
  predicate LikelyUnifiable(constTypes: map<Symbol, Typ>, a: Term, b: Term) {
    match (a, b)
    case (Var(_, _, _), _) => true
    case (_, Var(_, _, _)) => true
    case (App(_, _), App(_, _)) => true
    case (Abs(_, _, _), Abs(_, _, _)) => true
    case (Const(m, s), Const(n, t)) =>
      var known, known' := KnownType(constTypes, m, s), KnownType(constTypes, n, t);
      m == n && (IsDummy(known) || IsDummy(known') || TypesCompatible(known, known'))
    case (Free(m, _), Free(n, _)) => m == n
    case (Bound(i), Bound(j)) => i == j
    case _ => false
  }

  /** Types with a common instance are compatible. */
  lemma {:induction false} InstanceCompatible(sigma: Symbol -> Typ, a: Typ, b: Typ)
    requires TypeUnify.Inst(sigma, a) == TypeUnify.Inst(sigma, b)
    ensures TypesCompatible(a, b)
  {
    if a.Type? && b.Type? {
      var x, y := TypeUnify.Inst(sigma, a), TypeUnify.Inst(sigma, b);
      assert |x.args| == |a.args| && |y.args| == |b.args|;
      forall i | 0 <= i < |a.args| ensures TypesCompatible(a.args[i], b.args[i]) {
        assert x.args[i] == TypeUnify.Inst(sigma, a.args[i]) && y.args[i] == TypeUnify.Inst(sigma, b.args[i]);
        InstanceCompatible(sigma, a.args[i], b.args[i]);
      }
    }
  }

  /** The look rejects no two terms that have a common instance, but one constant with two types that have none. */
  lemma LookIsSafe(constTypes: map<Symbol, Typ>, a: Term, b: Term, theta: VarKey -> Term, sigma: Symbol -> Typ)
    requires !LikelyUnifiable(constTypes, a, b) && Inst(theta, a) == Inst(theta, b)
    ensures a.Const? && b.Const? && a.name == b.name
    ensures var s, t := KnownType(constTypes, a.name, a.typ), KnownType(constTypes, b.name, b.typ);
            s != DUMMY && t != DUMMY && TypeUnify.Inst(sigma, s) != TypeUnify.Inst(sigma, t)
  {
    var s, t := KnownType(constTypes, a.name, a.typ), KnownType(constTypes, b.name, b.typ);
    if TypeUnify.Inst(sigma, s) == TypeUnify.Inst(sigma, t) { InstanceCompatible(sigma, s, t); }
  }

  const SEARCH_BOUND: nat := 60

  function Blank(maxidx: nat): Env {
    Env(maxidx, map[], map[])
  }

  lemma BlankTriangular(maxidx: nat)
    ensures TypesTriangular(Blank(maxidx)) && TermsTriangular(Blank(maxidx))
  {
    var rank: VarKey -> nat := (k: VarKey) => 0;
    assert Graph.Ranked(Edges(ByKey, TypeMap(Blank(maxidx))), rank);
    assert Graph.Ranked(TermEdges(Blank(maxidx)), rank);
  }

  lemma {:induction false} EndTriangular(loop: Loop, g: Config)
    requires TypesTriangular(g.env) && Running(loop, g).end.Success?
    ensures TypesTriangular(Running(loop, g).end.env)
    decreases g.steps
  {
    if g.pending.Push? && g.steps > 0 {
      AfterTriangular(g.env, MoveFor(loop, g.env, g.pending.top));
      if !MoveFor(loop, g.env, g.pending.top).Conclude? { EndTriangular(loop, Next(loop, g)); }
    }
  }

  /** The bindings under which the premise is met, by the whole first proposition or by its conclusion. */
  datatype Meeting = Meeting(env: Env, whole: bool)

  function Conclusion(thm: Thm): Term {
    StripImpPrems(thm.prop).1
  }

  ghost function MatchGoal(maxidx: nat, concl: Term, goal: Term): Ending {
    BlankTriangular(maxidx);
    MatchRun(Blank(maxidx), concl, goal).end
  }

  ghost function UnifyGoal(maxidx: nat, concl: Term, goal: Term): Unifiers.Run {
    BlankTriangular(maxidx);
    UnifyRun(Blank(maxidx), [Pair(concl, goal)], SEARCH_BOUND)
  }

  function Found(end: Ending): Option<Meeting> {
    match end
    case Success(env, _, _) => Some(Meeting(env, false))
    case Failure(_) => None
  }

  ghost function Meet(constTypes: map<Symbol, Typ>, matchFlag: bool, maxidx: nat, thm1: Thm, goal: Term): Option<Meeting>
  {
    var concl := Conclusion(thm1);
    if matchFlag then Found(MatchGoal(maxidx, concl, goal))
    else if AlphaEq(thm1.prop, goal) then Some(Meeting(INIT, true))
    else if AlphaEq(concl, goal) then Some(Meeting(INIT, false))
    else if !LikelyUnifiable(constTypes, concl, goal) then None
    else Found(UnifyGoal(maxidx, concl, goal).end)
  }

  lemma MeetTriangular(constTypes: map<Symbol, Typ>, matchFlag: bool, maxidx: nat, thm1: Thm, goal: Term)
    requires Meet(constTypes, matchFlag, maxidx, thm1, goal).Some?
    ensures TypesTriangular(Meet(constTypes, matchFlag, maxidx, thm1, goal).value.env)
  {
    var concl := Conclusion(thm1);
    InitTriangular();
    BlankTriangular(maxidx);
    if matchFlag {
      EndTriangular(Matching, MatchConfig(Blank(maxidx), concl, goal));
    } else if !AlphaEq(thm1.prop, goal) && !AlphaEq(concl, goal) {
      EndTriangular(Unification, UnifyConfig(Blank(maxidx), [Pair(concl, goal)], SEARCH_BOUND));
    }
  }

  /** Resolution at premise `i`; `constTypes` are the declared types of constants. */
  ghost function BicomposeOf(constTypes: map<Symbol, Typ>, matchFlag: bool, maxidx: nat, thm1: Thm, thm2: Thm, i: nat)
    : Option<Thm>
  {
    match NthPremise(thm2.prop, i)
    case None => None
    case Some(goal) =>
      match Meet(constTypes, matchFlag, maxidx, thm1, goal)
      case None => None
      case Some(m) =>
        MeetTriangular(constTypes, matchFlag, maxidx, thm1, goal);
        Some(Resolved(m.env, m.whole, thm1, thm2, i))
  }

  /** Where the comparison alone decides, this is the exact branch. */
  lemma ExactBranch(constTypes: map<Symbol, Typ>, maxidx: nat, thm1: Thm, thm2: Thm, i: nat)
    requires BicomposeExact(thm1, thm2, i).Some?
    ensures BicomposeOf(constTypes, false, maxidx, thm1, thm2, i) == BicomposeExact(thm1, thm2, i)
  {
  }

  // ---------- the program ----------

  method InstantiateLoop(env: Env, thm: Thm) returns (r: Thm)
    requires TypesTriangular(env)
    ensures r == Instantiate(env, thm)
  {
    var bindings := new Envir(env);
    var hyps := new HypList();
    for i := 0 to |thm.hyps|
      invariant bindings.View() == env && hyps.entries == InstantiateHyps(env, thm.hyps[..i])
    {
      assert thm.hyps[..i + 1][..i] == thm.hyps[..i];
      var h := bindings.NormTermIter(thm.hyps[i]);
      hyps.Insert(h);
    }
    assert thm.hyps[..|thm.hyps|] == thm.hyps;
    var prop := bindings.NormTermIter(thm.prop);
    r := Thm(hyps.entries, prop, thm.oracles);
  }

  method MeetGoal(constTypes: map<Symbol, Typ>, matchFlag: bool, maxidx: nat, thm1: Thm, goal: Term)
    returns (r: Option<Meeting>)
    requires IndexUpTo(Conclusion(thm1), maxidx) && IndexUpTo(goal, maxidx)
    ensures r == Meet(constTypes, matchFlag, maxidx, thm1, goal)
  {
    var prems, concl := StripImpPremsLoop(thm1.prop);
    assert concl == Conclusion(thm1);
    BlankTriangular(maxidx);
    var found: Option<Env>;
    if matchFlag {
      found := Matchers(Blank(maxidx), concl, goal);
    } else if AlphaEq(thm1.prop, goal) {
      return Some(Meeting(INIT, true));
    } else if AlphaEq(concl, goal) {
      return Some(Meeting(INIT, false));
    } else if !LikelyUnifiable(constTypes, concl, goal) {
      return None;
    } else {
      found := Unifiers.Unifiers(Blank(maxidx), [Pair(concl, goal)], SEARCH_BOUND);
    }
    match found
    case Some(env) => r := Some(Meeting(env, false));
    case None => r := None;
  }

  method Bicompose(constTypes: map<Symbol, Typ>, matchFlag: bool, maxidx: nat, thm1: Thm, thm2: Thm, i: nat)
    returns (r: Option<Thm>)
    requires IndexUpTo(thm1.prop, maxidx) && IndexUpTo(thm2.prop, maxidx)
    ensures r == BicomposeOf(constTypes, matchFlag, maxidx, thm1, thm2, i)
  {
    var goal := NthPremise(thm2.prop, i);
    if goal.None? { return None; }
    StrippedInBounds(thm1.prop, maxidx);
    StrippedInBounds(thm2.prop, maxidx);
    var meeting := MeetGoal(constTypes, matchFlag, maxidx, thm1, goal.value);
    if meeting.None? { return None; }
    MeetTriangular(constTypes, matchFlag, maxidx, thm1, goal.value);
    var Meeting(env, whole) := meeting.value;
    var inst1 := InstantiateLoop(env, thm1);
    var inst2 := InstantiateLoop(env, thm2);
    NormKeepsPremises(env, thm2.prop);
    var new_, _ := StripImpPremsLoop(inst1.prop);
    var prems, concl := StripImpPremsLoop(inst2.prop);
    var prop := MkImpliesListLoop(prems[..i] + (if whole then [] else new_) + prems[i + 1..], concl);
    r := Some(Join(inst1, inst2, prop));
  }

  lemma {:induction false} StrippedInBounds(t: Term, m: nat)
    requires IndexUpTo(t, m)
    ensures IndexUpTo(StripImpPrems(t).1, m) && forall p :: p in StripImpPrems(t).0 ==> IndexUpTo(p, m)
    decreases t
  {
    match DestImplies(t)
    case Some((a, b)) => assert IndexUpTo(t.func, m); StrippedInBounds(b, m);
    case None =>
  }

  // ---------- what instances denote ----------

  /** The valuation in which schematic variables have the values of what is assigned to them. */
  ghost function Under<D(!new)>(M: Model<D>, v: Valuation<D>, theta: VarKey -> Term): Valuation<D> {
    v.(schematic := (k: VarKey) => Denote(M, v, [], theta(k)))
  }

  lemma {:induction false} DenoteShape<D(!new)>(M: Model<D>, v: Valuation<D>, rho: seq<D>, t: Term)
    ensures Denote(M, v, rho, Shape(t)) == Denote(M, v, rho, t)
    decreases t
  {
    match t
    case Abs(_, _, b) =>
      forall d: D ensures Denote(M, v, [d] + rho, Shape(b)) == Denote(M, v, [d] + rho, b) {
        DenoteShape(M, v, [d] + rho, b);
      }
      assert Fun(M, v, rho, Shape(b)) == Fun(M, v, rho, b);
    case App(f, a) => DenoteShape(M, v, rho, f); DenoteShape(M, v, rho, a);
    case _ =>
  }

  ghost predicate ClosedFor(theta: VarKey -> Term, t: Term) {
    forall k :: k in TermVars(t) ==> Closed(theta(k))
  }

  /** An instance denotes what the term does where variables have the values of the closed terms put in their place. */
  lemma {:induction false} DenoteInst<D(!new)>(M: Model<D>, v: Valuation<D>, rho: seq<D>, theta: VarKey -> Term, t: Term)
    requires ClosedFor(theta, t)
    ensures Denote(M, v, rho, Inst(theta, t)) == Denote(M, Under(M, v, theta), rho, t)
    decreases t
  {
    match t
    case Var(n, i, _) => DenoteClosed(M, v, rho, theta((n, i)));
    case Abs(_, _, b) =>
      forall d: D ensures Denote(M, v, [d] + rho, Inst(theta, b)) == Denote(M, Under(M, v, theta), [d] + rho, b) {
        DenoteInst(M, v, [d] + rho, theta, b);
      }
      assert Fun(M, v, rho, Inst(theta, b)) == Fun(M, Under(M, v, theta), rho, b);
    case App(f, a) =>
      assert TermVars(f) <= TermVars(t) && TermVars(a) <= TermVars(t);
      DenoteInst(M, v, rho, theta, f);
      DenoteInst(M, v, rho, theta, a);
    case _ =>
  }

  lemma {:induction false} ShapeFine(sig: Signature, t: Term, k: nat)
    ensures Over(sig, Shape(t)) <==> Over(sig, t)
    ensures LooseBelow(Shape(t), k) <==> LooseBelow(t, k)
    decreases t
  {
    match t
    case Abs(_, _, b) => ShapeFine(sig, b, k + 1);
    case App(f, a) => ShapeFine(sig, f, k); ShapeFine(sig, a, k);
    case _ =>
  }

  // ---------- environments of closed bindings ----------

  /** First-order bindings to closed terms over the signature, without cycles. */
  ghost predicate Ready(sig: Signature, env: Env) {
    && TypesTriangular(env) && TermsTriangular(env) && RigidEnv(true, env)
    && forall k :: k in env.tenv ==> Fine(sig, Assigned(env, k))
  }

  /** A first-order term whose normalisation ends. */
  ghost predicate Ripe(env: Env, t: Term)
    requires TypesTriangular(env)
  {
    Rigid(true, t) && Finishes(env, t)
  }

  ghost predicate RipeThm(env: Env, thm: Thm)
    requires TypesTriangular(env)
  {
    Ripe(env, thm.prop) && forall h :: h in thm.hyps ==> Ripe(env, h)
  }

  lemma {:induction false} ExpandFine(sig: Signature, env: Env, t: Term, k: nat)
    requires Ready(sig, env) && Over(sig, t) && LooseBelow(t, k)
    ensures Over(sig, Expand(env, t)) && LooseBelow(Expand(env, t), k)
    decreases TermLevel(env, t), t
  {
    match t
    case Var(n, i, _) =>
      if (n, i) in env.tenv {
        TermLevelOfBinding(env, (n, i), t);
        LooseWeaken(Assigned(env, (n, i)), 0, k);
        ExpandFine(sig, env, Assigned(env, (n, i)), k);
      }
    case Abs(_, _, b) => ExpandFine(sig, env, b, k + 1);
    case App(f, a) => ExpandFine(sig, env, f, k); ExpandFine(sig, env, a, k);
    case _ =>
  }

  lemma SolutionClosed(sig: Signature, env: Env, t: Term)
    requires Ready(sig, env)
    ensures ClosedFor(Solution(env), t)
  {
    forall k | k in TermVars(t) ensures Closed(Solution(env)(k)) {
      if k in env.tenv { ExpandFine(sig, env, Assigned(env, k), 0); }
    }
  }

  lemma NormFine(sig: Signature, env: Env, t: Term)
    requires Ready(sig, env) && Ripe(env, t) && Fine(sig, t)
    ensures Fine(sig, NormTerm(env, t))
  {
    NormIsInstance(true, env, t);
    SolutionExpands(env, t);
    ExpandFine(sig, env, t, 0);
    ShapeFine(sig, NormTerm(env, t), 0);
  }

  /** A normalised term denotes what the term does under the bindings. */
  lemma NormDenotes<D(!new)>(M: Model<D>, v: Valuation<D>, sig: Signature, env: Env, t: Term)
    requires Ready(sig, env) && Ripe(env, t)
    ensures Denote(M, v, [], NormTerm(env, t)) == Denote(M, Under(M, v, Solution(env)), [], t)
  {
    NormIsInstance(true, env, t);
    SolutionClosed(sig, env, t);
    DenoteShape(M, v, [], NormTerm(env, t));
    DenoteInst(M, v, [], Solution(env), t);
  }

  // ---------- instances of theorems ----------

  lemma {:induction false} InstancesThere(env: Env, hs: seq<Term>)
    requires TypesTriangular(env)
    ensures forall h :: h in InstantiateHyps(env, hs) ==> exists x :: x in hs && h == NormTerm(env, x)
    ensures forall x :: x in hs ==> HypsContain(InstantiateHyps(env, hs), NormTerm(env, x))
  {
    if hs == [] {
    } else {
      var front, last := hs[..|hs| - 1], hs[|hs| - 1];
      var u, v := InstantiateHyps(env, front), InstantiateHyps(env, hs);
      InstancesThere(env, front);
      assert hs == front + [last];
      forall x | x in hs ensures HypsContain(v, NormTerm(env, x)) {
        if x in front {
          var i :| 0 <= i < |u| && AlphaEq(u[i], NormTerm(env, x));
          assert v[i] == u[i];
        } else if !HypsContain(u, NormTerm(env, last)) {
          AlphaEqReflexive(NormTerm(env, last));
          assert v[|u|] == NormTerm(env, last);
        }
      }
      forall h | h in v ensures exists x :: x in hs && h == NormTerm(env, x) {
        if h in u {
          var x :| x in front && h == NormTerm(env, x);
          assert x in hs;
        } else {
          assert last in hs && h == NormTerm(env, last);
        }
      }
    }
  }

  lemma InstanceFine(sig: Signature, env: Env, thm: Thm)
    requires Ready(sig, env) && RipeThm(env, thm) && FineThm(sig, thm)
    ensures FineThm(sig, Instantiate(env, thm))
  {
    var hs := InstantiateHyps(env, thm.hyps);
    InstancesThere(env, thm.hyps);
    forall i | 0 <= i < |hs| ensures Fine(sig, hs[i]) {
      assert hs[i] in hs;
      var x :| x in thm.hyps && hs[i] == NormTerm(env, x);
      NormFine(sig, env, x);
    }
    NormFine(sig, env, thm.prop);
  }

  /** True instances of hypotheses make the hypotheses true under the bindings. */
  lemma TrueInstances<D(!new)>(M: Model<D>, v: Valuation<D>, sig: Signature, env: Env, thm: Thm)
    requires Separated(sig) && Ready(sig, env) && RipeThm(env, thm) && FineThm(sig, thm)
    requires AllTrue(M, v, InstantiateHyps(env, thm.hyps))
    ensures AllTrue(M, Under(M, v, Solution(env)), thm.hyps)
  {
    var hs := InstantiateHyps(env, thm.hyps);
    InstancesThere(env, thm.hyps);
    InstanceFine(sig, env, thm);
    forall i | 0 <= i < |thm.hyps| ensures True(M, Under(M, v, Solution(env)), thm.hyps[i]) {
      var x := thm.hyps[i];
      assert x in thm.hyps;
      var j :| 0 <= j < |hs| && AlphaEq(hs[j], NormTerm(env, x));
      NormFine(sig, env, x);
      NormDenotes(M, v, sig, env, x);
      AlphaEqDenotes(M, v, [], sig, hs[j], NormTerm(env, x));
    }
  }

  /** Instantiation of a first-order theorem with closed bindings is sound. */
  lemma SoundInstance<D(!new)>(M: Model<D>, sig: Signature, env: Env, thm: Thm)
    requires Setting(M, sig) && Sound(M, sig, thm) && Ready(sig, env) && RipeThm(env, thm)
    ensures Sound(M, sig, Instantiate(env, thm))
  {
    var r := Instantiate(env, thm);
    InstanceFine(sig, env, thm);
    forall v: Valuation<D> | AllTrue(M, v, r.hyps) ensures True(M, v, r.prop) {
      NormDenotes(M, v, sig, env, thm.prop);
      TrueInstances(M, v, sig, env, thm);
    }
  }

  // ---------- resolution ----------

  lemma ShapeOfImplication(r: Term, x: Term, y: Term)
    requires Shape(r) == App(App(Const("Pure.imp", DUMMY), x), y)
    ensures r.App? && r.func.App? && DestImplies(r) == Some((r.func.arg, r.arg))
    ensures Shape(r.func.arg) == x && Shape(r.arg) == y
  {
    assert Shape(r.func) == App(Const("Pure.imp", DUMMY), x);
    assert Shape(r.func.func) == Const("Pure.imp", DUMMY);
  }

  /** The premises of a normalised chain begin with the instances of the premises it had. */
  lemma {:induction false} StrippedNorm(theta: VarKey -> Term, t: Term, r: Term)
    requires Shape(r) == Inst(theta, t)
    ensures CountPrems(t) <= CountPrems(r)
    ensures forall j :: 0 <= j < CountPrems(t) ==> Shape(StripImpPrems(r).0[j]) == Inst(theta, StripImpPrems(t).0[j])
    decreases t
  {
    match DestImplies(t)
    case Some((a, b)) =>
      assert Inst(theta, t) == App(App(Const("Pure.imp", DUMMY), Inst(theta, a)), Inst(theta, b)) by {
        assert t.func.func.name == "Pure.imp";
        assert Inst(theta, t.func) == App(Const("Pure.imp", DUMMY), Inst(theta, a));
      }
      ShapeOfImplication(r, Inst(theta, a), Inst(theta, b));
      StrippedNorm(theta, b, r.arg);
    case None =>
  }

  /** What makes a premise true: it matches the first theorem or its conclusion, or the bindings make it the same. */
  ghost predicate MetBy(env: Env, whole: bool, thm1: Thm, goal: Term)
    requires TermsTriangular(env)
  {
    if whole then AlphaEq(thm1.prop, goal)
    else AlphaEq(Conclusion(thm1), goal) || Inst(Solution(env), Conclusion(thm1)) == Inst(Solution(env), goal)
  }

  lemma {:induction false} StrippedFine(sig: Signature, t: Term)
    requires Fine(sig, t)
    ensures Fine(sig, StripImpPrems(t).1) && forall p :: p in StripImpPrems(t).0 ==> Fine(sig, p)
    decreases t
  {
    match DestImplies(t)
    case Some((a, b)) => assert Fine(sig, t.func); StrippedFine(sig, b);
    case None =>
  }

  lemma SameInstances<D(!new)>(M: Model<D>, v: Valuation<D>, sig: Signature, env: Env, a: Term, b: Term)
    requires Ready(sig, env) && Inst(Solution(env), a) == Inst(Solution(env), b)
    ensures Denote(M, Under(M, v, Solution(env)), [], a) == Denote(M, Under(M, v, Solution(env)), [], b)
  {
    SolutionClosed(sig, env, a);
    SolutionClosed(sig, env, b);
    DenoteInst(M, v, [], Solution(env), a);
    DenoteInst(M, v, [], Solution(env), b);
  }

  /** Under the bindings the premise is true if the first theorem is, and its premises unless it was met as a whole. */
  lemma GoalTrue<D(!new)>(M: Model<D>, v: Valuation<D>, sig: Signature, env: Env, whole: bool, thm1: Thm, goal: Term)
    requires Setting(M, sig) && Ready(sig, env) && FineThm(sig, thm1) && Fine(sig, goal) && MetBy(env, whole, thm1, goal)
    requires var w := Under(M, v, Solution(env));
             True(M, w, thm1.prop) && (whole || AllTrue(M, w, StripImpPrems(thm1.prop).0))
    ensures True(M, Under(M, v, Solution(env)), goal)
  {
    var w := Under(M, v, Solution(env));
    StrippedFine(sig, thm1.prop);
    TrueStripped(M, w, thm1.prop);
    if whole {
      AlphaEqDenotes(M, w, [], sig, thm1.prop, goal);
    } else if AlphaEq(Conclusion(thm1), goal) {
      AlphaEqDenotes(M, w, [], sig, Conclusion(thm1), goal);
    } else {
      SameInstances(M, v, sig, env, Conclusion(thm1), goal);
    }
  }

  lemma PremDenotes<D(!new)>(M: Model<D>, v: Valuation<D>, sig: Signature, env: Env, t: Term, j: nat)
    requires Ready(sig, env) && Ripe(env, t) && j < CountPrems(t)
    ensures j < CountPrems(NormTerm(env, t))
    ensures Denote(M, v, [], StripImpPrems(NormTerm(env, t)).0[j])
         == Denote(M, Under(M, v, Solution(env)), [], StripImpPrems(t).0[j])
  {
    var r, p := NormTerm(env, t), StripImpPrems(t).0[j];
    NormIsInstance(true, env, t);
    StrippedNorm(Solution(env), t, r);
    SolutionClosed(sig, env, p);
    DenoteInst(M, v, [], Solution(env), p);
    DenoteShape(M, v, [], StripImpPrems(r).0[j]);
  }

  /** If the premises of the result are true, the premise that was cut out is true in its instance. */
  lemma CutPremiseTrue<D(!new)>(M: Model<D>, v: Valuation<D>, sig: Signature, env: Env, whole: bool,
                                thm1: Thm, thm2: Thm, i: nat)
    requires Setting(M, sig) && Ready(sig, env) && FineThm(sig, thm1) && FineThm(sig, thm2)
    requires RipeThm(env, thm1) && RipeThm(env, thm2) && i < CountPrems(thm2.prop)
    requires MetBy(env, whole, thm1, StripImpPrems(thm2.prop).0[i])
    requires True(M, v, NormTerm(env, thm1.prop))
    requires whole || AllTrue(M, v, StripImpPrems(NormTerm(env, thm1.prop)).0)
    ensures i < CountPrems(NormTerm(env, thm2.prop)) && True(M, v, StripImpPrems(NormTerm(env, thm2.prop)).0[i])
  {
    var w, goal := Under(M, v, Solution(env)), StripImpPrems(thm2.prop).0[i];
    StrippedFine(sig, thm2.prop);
    NormDenotes(M, v, sig, env, thm1.prop);
    if !whole {
      forall j | 0 <= j < CountPrems(thm1.prop) ensures True(M, w, StripImpPrems(thm1.prop).0[j]) {
        PremDenotes(M, v, sig, env, thm1.prop, j);
      }
    }
    GoalTrue(M, v, sig, env, whole, thm1, goal);
    PremDenotes(M, v, sig, env, thm2.prop, i);
  }

  /** Premises with one exchanged for others are true if these are and the others make the one true. */
  lemma ExchangedTrue<D(!new)>(M: Model<D>, v: Valuation<D>, prems: seq<Term>, i: nat, new_: seq<Term>)
    requires i < |prems| && AllTrue(M, v, prems[..i] + new_ + prems[i + 1..])
    ensures AllTrue(M, v, new_) && (True(M, v, prems[i]) ==> AllTrue(M, v, prems))
  {
    var all := prems[..i] + new_ + prems[i + 1..];
    forall j | 0 <= j < |new_| ensures True(M, v, new_[j]) { assert all[i + j] == new_[j]; }
    if True(M, v, prems[i]) {
      forall j | 0 <= j < |prems| ensures True(M, v, prems[j]) {
        if j < i { assert all[j] == prems[j]; }
        if j > i { assert all[|new_| + j - 1] == prems[j]; }
      }
    }
  }

  /**
   Resolution of first-order theorems is sound if the bindings are closed, the normalisations end, and the premise is met:
   by comparison, or because the bindings make it the same as the conclusion.
   */
  lemma SoundResolved<D(!new)>(M: Model<D>, sig: Signature, env: Env, whole: bool, thm1: Thm, thm2: Thm, i: nat)
    requires Setting(M, sig) && Sound(M, sig, thm1) && Sound(M, sig, thm2) && Ready(sig, env)
    requires RipeThm(env, thm1) && RipeThm(env, thm2) && i < CountPrems(thm2.prop)
    requires MetBy(env, whole, thm1, StripImpPrems(thm2.prop).0[i])
    ensures Sound(M, sig, Resolved(env, whole, thm1, thm2, i))
  {
    var r, inst1, inst2 := Resolved(env, whole, thm1, thm2, i), Instantiate(env, thm1), Instantiate(env, thm2);
    SoundInstance(M, sig, env, thm1);
    SoundInstance(M, sig, env, thm2);
    NormKeepsPremises(env, thm2.prop);
    var new_ := if whole then [] else StripImpPrems(inst1.prop).0;
    var (prems, concl) := StripImpPrems(inst2.prop);
    var left := prems[..i] + new_ + prems[i + 1..];
    ResolvedFine(sig, inst1, inst2, whole, i);
    FineJoin(sig, inst1, inst2, r.prop);
    forall v: Valuation<D> | AllTrue(M, v, r.hyps) ensures True(M, v, r.prop) {
      TrueUnion(M, v, sig, inst1.hyps, inst2.hyps);
      TrueMkImpliesList(M, v, left, concl);
      TrueStripped(M, v, inst2.prop);
      if AllTrue(M, v, left) {
        ExchangedTrue(M, v, prems, i, new_);
        CutPremiseTrue(M, v, sig, env, whole, thm1, thm2, i);
      }
    }
  }

  lemma ResolvedFine(sig: Signature, inst1: Thm, inst2: Thm, whole: bool, i: nat)
    requires Separated(sig) && FineThm(sig, inst1) && FineThm(sig, inst2) && i < CountPrems(inst2.prop)
    ensures var prems, new_ := StripImpPrems(inst2.prop).0, if whole then [] else StripImpPrems(inst1.prop).0;
            Fine(sig, MkImpliesList(prems[..i] + new_ + prems[i + 1..], StripImpPrems(inst2.prop).1))
  {
    var prems, new_ := StripImpPrems(inst2.prop).0, if whole then [] else StripImpPrems(inst1.prop).0;
    StrippedFine(sig, inst1.prop);
    StrippedFine(sig, inst2.prop);
    FineMkImpliesList(sig, prems[..i] + new_ + prems[i + 1..], StripImpPrems(inst2.prop).1);
  }

  // ---------- what the loops contribute ----------

  lemma {:induction false} RigidStripped(free: bool, t: Term)
    requires Rigid(free, t)
    ensures Rigid(free, StripImpPrems(t).1) && forall p :: p in StripImpPrems(t).0 ==> Rigid(free, p)
    decreases t
  {
    match DestImplies(t)
    case Some((a, b)) => assert Rigid(free, t.func); RigidStripped(free, b);
    case None =>
  }

  ghost predicate GoalInBounds(maxidx: nat, concl: Term, goal: Term) {
    IndexUpTo(concl, maxidx) && IndexUpTo(goal, maxidx)
  }

  /** After a first-order unification that succeeds the premise is met exactly if the bindings solve the dropped pairs. */
  lemma UnifiedMeets(maxidx: nat, concl: Term, goal: Term)
    requires UnifyGoal(maxidx, concl, goal).end.Success? && GoalInBounds(maxidx, concl, goal)
    requires Rigid(true, concl) && Rigid(true, goal) && TermsTriangular(UnifyGoal(maxidx, concl, goal).end.env)
    ensures var run := UnifyGoal(maxidx, concl, goal); var theta := Solution(run.end.env);
            Inst(theta, concl) == Inst(theta, goal) <==> Solves(theta, run.trail.flexFlex)
  {
    var env0, pairs, run := Blank(maxidx), [Pair(concl, goal)], UnifyGoal(maxidx, concl, goal);
    BlankTriangular(maxidx);
    UnifiersRight(env0, pairs, SEARCH_BOUND);
    SolutionRespects(run.end.env);
    SolvesOne(Solution(run.end.env), pairs[0]);
  }

  /** After a first-order match that succeeds, it is met. */
  lemma MatchedMeets(maxidx: nat, concl: Term, goal: Term)
    requires MatchGoal(maxidx, concl, goal).Success? && GoalInBounds(maxidx, concl, goal)
    requires Rigid(false, concl) && Rigid(false, goal) && TermsTriangular(MatchGoal(maxidx, concl, goal).env)
    ensures var theta := Solution(MatchGoal(maxidx, concl, goal).env); Inst(theta, concl) == Inst(theta, goal)
  {
    var env0, pairs, env := Blank(maxidx), [Pair(concl, goal)], MatchGoal(maxidx, concl, goal).env;
    BlankTriangular(maxidx);
    MatchersRight(env0, concl, goal);
    SolutionRespects(env);
    SolvesOne(Solution(env), pairs[0]);
  }

  /** For the branch taken: what keeps the premise from being met is unification that leaves a dropped pair unsolved. */
  ghost predicate Resolvable(constTypes: map<Symbol, Typ>, matchFlag: bool, maxidx: nat, thm1: Thm, goal: Term)
    requires Meet(constTypes, matchFlag, maxidx, thm1, goal).Some?
    requires TermsTriangular(Meet(constTypes, matchFlag, maxidx, thm1, goal).value.env)
  {
    var env := Meet(constTypes, matchFlag, maxidx, thm1, goal).value.env;
    if matchFlag then Rigid(false, Conclusion(thm1)) && Rigid(false, goal)
    else
      || AlphaEq(thm1.prop, goal) || AlphaEq(Conclusion(thm1), goal)
      || Solves(Solution(env), UnifyGoal(maxidx, Conclusion(thm1), goal).trail.flexFlex)
  }

  /**
   Every branch of resolution is sound for first-order theorems, if the bindings are closed, the normalisations end, and no
   dropped pair is left unsolved.
   */
  lemma SoundBicomposeOf<D(!new)>(M: Model<D>, sig: Signature, constTypes: map<Symbol, Typ>, matchFlag: bool, maxidx: nat,
                                  thm1: Thm, thm2: Thm, i: nat)
    requires Setting(M, sig) && Sound(M, sig, thm1) && Sound(M, sig, thm2)
    requires IndexUpTo(thm1.prop, maxidx) && IndexUpTo(thm2.prop, maxidx)
    requires i < CountPrems(thm2.prop) && Meet(constTypes, matchFlag, maxidx, thm1, StripImpPrems(thm2.prop).0[i]).Some?
    requires var goal := StripImpPrems(thm2.prop).0[i];
             var env := Meet(constTypes, matchFlag, maxidx, thm1, goal).value.env;
             && Ready(sig, env) && RipeThm(env, thm1) && RipeThm(env, thm2)
             && Resolvable(constTypes, matchFlag, maxidx, thm1, goal)
    ensures BicomposeOf(constTypes, matchFlag, maxidx, thm1, thm2, i).Some?
    ensures Sound(M, sig, BicomposeOf(constTypes, matchFlag, maxidx, thm1, thm2, i).value)
  {
    var goal := StripImpPrems(thm2.prop).0[i];
    var concl, m := Conclusion(thm1), Meet(constTypes, matchFlag, maxidx, thm1, goal).value;
    StrippedInBounds(thm1.prop, maxidx);
    StrippedInBounds(thm2.prop, maxidx);
    RigidStripped(true, thm1.prop);
    RigidStripped(true, thm2.prop);
    if matchFlag {
      MatchedMeets(maxidx, concl, goal);
    } else if !AlphaEq(thm1.prop, goal) && !AlphaEq(concl, goal) {
      UnifiedMeets(maxidx, concl, goal);
    }
    SoundResolved(M, sig, m.env, m.whole, thm1, thm2, i);
  }
}
