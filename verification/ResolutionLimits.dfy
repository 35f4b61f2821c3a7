/**
 When the bindings of resolution are closed, and what goes wrong where its conditions fail: a variable below a binder is
 bound to a loose index, a pair of variables is dropped, a match is concluded with terms left uncompared.
 */
module ResolutionLimits {
  import opened Wrappers
  import opened Syntax
  import opened WorkStack
  import opened TypeResolve
  import opened TermSubst
  import opened Logic
  import opened Envir
  import opened Kernel
  import opened Semantics
  import opened Soundness
  import opened Unify
  import opened Moves
  import opened Unifiers
  import opened TypedSolutions
  import opened Completeness
  import opened Resolution
  import Matches

  // ---------- when bindings are closed ----------

  /** Closed, over the signature and without abstractions. */
  ghost predicate Simple(sig: Signature, t: Term) {
    Fine(sig, t) && NoAbs(t)
  }

  ghost predicate SimpleEnv(sig: Signature, env: Env) {
    forall k :: k in env.tenv ==> Simple(sig, Assigned(env, k))
  }

  ghost predicate SimplePairs(sig: Signature, ps: seq<Pair>) {
    forall i :: 0 <= i < |ps| ==> Simple(sig, ps[i].left) && Simple(sig, ps[i].right)
  }

  lemma {:induction false} EvalSimple(sig: Signature, env: Env, t: Term, fuel: nat)
    requires TypesTriangular(env) && SimpleEnv(sig, env) && Simple(sig, t) && Eval(env, t, fuel).Some?
    ensures Simple(sig, Eval(env, t, fuel).value.0)
    decreases fuel
  {
    match t
    case Var(n, i, _) => if (n, i) in env.tenv { EvalSimple(sig, env, Assigned(env, (n, i)), fuel - 1); }
    case App(f, a) =>
      EvalSimple(sig, env, f, fuel - 1);
      EvalSimple(sig, env, a, Eval(env, f, fuel - 1).value.1);
    case _ =>
  }

  lemma NormSimple(sig: Signature, env: Env, t: Term)
    requires TypesTriangular(env) && SimpleEnv(sig, env) && Simple(sig, t)
    ensures Simple(sig, NormTerm(env, t))
  {
    if Eval(env, t, MAX_STEPS).Some? { EvalSimple(sig, env, t, MAX_STEPS); }
  }

  ghost predicate SimpleAt(sig: Signature, loop: Loop, g: Config) {
    FirstOrderAt(loop, g) && SimpleEnv(sig, g.env) && SimplePairs(sig, Items(g.pending))
  }

  lemma SimpleMove(sig: Signature, loop: Loop, g: Config)
    requires SimpleAt(sig, loop, g) && g.pending.Push? && g.steps > 0
    ensures var n := NormPair(g.env, g.pending.top); var m := MoveFor(loop, g.env, g.pending.top);
            && Simple(sig, n.left) && Simple(sig, n.right)
            && (m.Assign? ==> Simple(sig, m.t)) && SimplePairs(sig, News(n, m))
  {
    var c, rest := g.pending.top, g.pending.below;
    var n, m := NormPair(g.env, c), MoveFor(loop, g.env, c);
    assert Items(g.pending)[|Items(rest)|] == c;
    NormSimple(sig, g.env, c.left);
    NormSimple(sig, g.env, c.right);
    NormSimple(sig, g.env, n.left);
    NormSimple(sig, g.env, n.right);
    MoveAllowed(loop, g);
    if m.Retry? { RetryParts(g.env, n.left, n.right); }
  }

  lemma SimpleNext(sig: Signature, loop: Loop, g: Config)
    requires SimpleAt(sig, loop, g) && g.pending.Push? && g.steps > 0
    requires !MoveFor(loop, g.env, g.pending.top).Reject?
    ensures SimpleAt(sig, loop, Next(loop, g))
  {
    var c, rest, next := g.pending.top, g.pending.below, Next(loop, g);
    var n, m := NormPair(g.env, c), MoveFor(loop, g.env, c);
    SimpleMove(sig, loop, g);
    FirstOrderNext(loop, g);
    PushedItems(rest, n, m);
    forall k | k in next.env.tenv ensures Simple(sig, Assigned(next.env, k)) {
      if !(m.Assign? && k == m.k) { assert Assigned(next.env, k) == Assigned(g.env, k); }
    }
    forall j | 0 <= j < |Items(rest)| ensures Items(g.pending)[j] == Items(rest)[j] {}
  }

  lemma {:induction false} RunSimple(sig: Signature, loop: Loop, g: Config)
    requires SimpleAt(sig, loop, g) && Running(loop, g).end.Success?
    ensures SimpleEnv(sig, Running(loop, g).end.env)
    decreases g.steps
  {
    if g.pending.Push? && g.steps > 0 {
      FirstOrderNext(loop, g);
      SimpleNext(sig, loop, g);
      RunSimple(sig, loop, Next(loop, g));
    }
  }

  lemma OneItem(c: Pair)
    ensures StackOf([c]) == Push(c, Empty) && Items(StackOf([c])) == [c]
  {
    assert [c][1..] == [];
  }

  /** Unifying closed first-order terms without abstractions binds variables to such terms, if the normalisations end. */
  lemma UnifiedReady(sig: Signature, maxidx: nat, concl: Term, goal: Term)
    requires UnifyGoal(maxidx, concl, goal).end.Success? && GoalInBounds(maxidx, concl, goal)
    requires Rigid(true, concl) && Rigid(true, goal) && Simple(sig, concl) && Simple(sig, goal)
    requires UnifyGoal(maxidx, concl, goal).trail.finished
    ensures Ready(sig, UnifyGoal(maxidx, concl, goal).end.env)
  {
    var c := Pair(concl, goal);
    var g := UnifyConfig(Blank(maxidx), [c], SEARCH_BOUND);
    BlankTriangular(maxidx);
    OneItem(c);
    UnifiersRight(Blank(maxidx), [c], SEARCH_BOUND);
    RunSimple(sig, Unification, g);
    EndIn(Unification, g);
  }

  /** Below a binder a variable is bound to the index of that binder, which is loose in the binding. */
  lemma BinderEscapes(z: Symbol, i: nat, ty: Typ, x: Symbol, y: Symbol, s: Typ)
    ensures var run := UnifyGoal(0, Abs(x, s, Var(z, i, ty)), Abs(y, s, Bound(0)));
            && run.end.Success? && run.trail == Trail([], true)
            && (z, i) in run.end.env.tenv && Assigned(run.end.env, (z, i)) == Bound(0) && !Closed(Bound(0))
  {
    var l, r := Abs(x, s, Var(z, i, ty)), Abs(y, s, Bound(0));
    InitTriangular();
    assert Blank(0) == INIT;
    OneItem(Pair(l, r));
    EscapingRun(UnifyConfig(INIT, [Pair(l, r)], SEARCH_BOUND), l, r);
  }

  lemma BodiesRound(g: Config, l: Term, r: Term)
    requires TypesTriangular(INIT) && g.env == INIT && g.pending == Push(Pair(l, r), Empty) && g.steps > 0
    requires g.trail == START && l.Abs? && r.Abs? && l.typ == r.typ && l.body.Var? && r.body == Bound(0)
    ensures Rest(Unification, g) == Rest(Unification, Config(INIT, Push(Pair(l.body, r.body), Empty), g.steps - 1, START))
  {
    InitFinishes(l);
    InitFinishes(r);
    RoundTaken(Unification, g);
    assert MoveFor(Unification, INIT, g.pending.top) == Abss;
    assert Next(Unification, g) == Config(INIT, Push(Pair(l.body, r.body), Empty), g.steps - 1, START);
  }

  lemma BindingRound(g: Config, v: Term)
    requires TypesTriangular(INIT) && g.env == INIT && g.pending == Push(Pair(v, Bound(0)), Empty) && g.steps > 0
    requires g.trail == START && v.Var?
    ensures var env := Bind(INIT, (v.name, v.index), v.typ, Bound(0));
            TypesTriangular(env) && Rest(Unification, g) == Rest(Unification, Config(env, Empty, g.steps - 1, START))
  {
    var env := Bind(INIT, (v.name, v.index), v.typ, Bound(0));
    InitFinishes(v);
    InitFinishes(Bound(0));
    RoundTaken(Unification, g);
    assert MoveFor(Unification, INIT, g.pending.top) == Assign((v.name, v.index), v.typ, Bound(0));
    assert Next(Unification, g) == Config(env, Empty, g.steps - 1, START);
  }

  lemma EscapingRun(g: Config, l: Term, r: Term)
    requires TypesTriangular(INIT) && g.env == INIT && g.pending == Push(Pair(l, r), Empty) && g.steps >= 2
    requires g.trail == START && l.Abs? && r.Abs? && l.typ == r.typ && l.body.Var? && r.body == Bound(0)
    ensures var k := (l.body.name, l.body.index);
            Rest(Unification, g) == Unifiers.Run(Success(Bind(INIT, k, l.body.typ, Bound(0)), None, []), START)
  {
    BodiesRound(g, l, r);
    BindingRound(Config(INIT, Push(Pair(l.body, r.body), Empty), g.steps - 1, START), l.body);
  }

  /** Without bindings, small terms without redexes normalise to themselves. */
  lemma InitFinishes(t: Term)
    requires RedexFree(t) && Size(t) <= 10
    ensures TypesTriangular(INIT) && NormTerm(INIT, t) == t && Finishes(INIT, t)
  {
    InitKeepsRedexFree(t);
    RedexFreeIsNormal(t);
    NormalEvaluates(INIT, t, MAX_STEPS);
  }

  // ---------- dropped pairs ----------

  /**
   Two different variables are dropped instead of unified. So the trivial theorems that a proposition implies itself, for
   two variables, resolve to one that any proposition implies any other, which is false wherever something is and something
   is not true.
   */
  lemma DroppedPairIsUnsound<D(!new)>(M: Model<D>, constTypes: map<Symbol, Typ>, x: Symbol, y: Symbol, t: D, f: D)
    requires Reads(M) && M.isTrue(t) && !M.isTrue(f) && x != y
    ensures var a, b := Var(x, 0, PROP), Var(y, 0, PROP);
            var thm1, thm2 := Thm([], MkImplies(a, a), []), Thm([], MkImplies(b, b), []);
            var r := Thm([], MkImplies(a, b), []);
            && Trivial(a) == Ok(thm1) && Trivial(b) == Ok(thm2) && Valid(M, thm1) && Valid(M, thm2)
            && BicomposeOf(constTypes, false, 0, thm1, thm2, 0) == Some(r) && !Valid(M, r)
  {
    var a, b := Var(x, 0, PROP), Var(y, 0, PROP);
    var thm1, thm2 := Thm([], MkImplies(a, a), []), Thm([], MkImplies(b, b), []);
    var r := Thm([], MkImplies(a, b), []);
    TrivialHolds(a);
    TrivialHolds(b);
    forall v: Valuation<D> ensures True(M, v, thm1.prop) && True(M, v, thm2.prop) {
      TrueImplies(M, v, thm1.prop);
      TrueImplies(M, v, thm2.prop);
    }
    DroppedResolves(constTypes, x, y);
    AnyImpliesAny(M, a, b, t, f);
  }

  lemma AnyImpliesAny<D(!new)>(M: Model<D>, a: Term, b: Term, t: D, f: D)
    requires Reads(M) && M.isTrue(t) && !M.isTrue(f) && a.Var? && b.Var? && a.name != b.name
    ensures !Valid(M, Thm([], MkImplies(a, b), []))
  {
    var v := Valuation((n: Symbol) => t, (k: VarKey) => if k == (a.name, a.index) then t else f, f);
    TrueImplies(M, v, MkImplies(a, b));
    assert AllTrue(M, v, []);
  }

  lemma StripOne(a: Term, b: Term)
    requires DestImplies(b).None?
    ensures StripImpPrems(MkImplies(a, b)) == ([a], b) && MkImpliesList([a], b) == MkImplies(a, b)
  {
    assert StripImpPrems(b) == ([], b);
    assert [a] + [] == [a];
    assert [a][1..] == [];
  }

  lemma DroppedResolves(constTypes: map<Symbol, Typ>, x: Symbol, y: Symbol)
    requires x != y
    ensures var a, b := Var(x, 0, PROP), Var(y, 0, PROP);
            var thm1, thm2 := Thm([], MkImplies(a, a), []), Thm([], MkImplies(b, b), []);
            BicomposeOf(constTypes, false, 0, thm1, thm2, 0) == Some(Thm([], MkImplies(a, b), []))
  {
    var a, b := Var(x, 0, PROP), Var(y, 0, PROP);
    var thm1, thm2 := Thm([], MkImplies(a, a), []), Thm([], MkImplies(b, b), []);
    InitTriangular();
    InitKeepsRedexFree(thm1.prop);
    InitKeepsRedexFree(thm2.prop);
    StripOne(a, a);
    StripOne(b, b);
    StripOne(a, b);
    assert [b][..0] + [a] + [b][1..] == [a];
    DroppedMeeting(constTypes, x, y);
    assert Instantiate(INIT, thm1) == thm1 && Instantiate(INIT, thm2) == thm2;
    assert Resolved(INIT, false, thm1, thm2, 0) == Thm([], MkImplies(a, b), []);
  }

  lemma DroppedMeeting(constTypes: map<Symbol, Typ>, x: Symbol, y: Symbol)
    requires x != y
    ensures var a, b := Var(x, 0, PROP), Var(y, 0, PROP);
            Meet(constTypes, false, 0, Thm([], MkImplies(a, a), []), b) == Some(Meeting(INIT, false))
  {
    var a, b := Var(x, 0, PROP), Var(y, 0, PROP);
    StripOne(a, a);
    InitTriangular();
    FlexFlexIsDropped(INIT, x, 0, PROP, y, 0, PROP, SEARCH_BOUND);
    assert Blank(0) == INIT;
  }

  // ---------- matches that conclude too early ----------

  lemma {:induction false} GroundNormal(env: Env, t: Term)
    requires TypesTriangular(env) && env.tyenv == map[] && TermVars(t) == {} && RedexFree(t)
    ensures Normal(env, t)
  {
    match t
    case Abs(_, ty, b) => ApplyUnbound(ByKey, TypeMap(env), ty); GroundNormal(env, b);
    case App(f, a) =>
      assert TermVars(f) <= TermVars(t) && TermVars(a) <= TermVars(t);
      GroundNormal(env, f);
      GroundNormal(env, a);
    case Const(_, ty) => ApplyUnbound(ByKey, TypeMap(env), ty);
    case Free(_, ty) => ApplyUnbound(ByKey, TypeMap(env), ty);
    case _ =>
  }

  lemma GroundStays(env: Env, t: Term)
    requires TypesTriangular(env) && env.tyenv == map[] && TermVars(t) == {} && RedexFree(t)
    ensures NormTerm(env, t) == t
  {
    GroundNormal(env, t);
    EvalOfNormal(env, t, MAX_STEPS);
  }

  /** A normalised equation is no implication. */
  lemma EquationStays(env: Env, ty: Typ, l: Term, r: Term)
    requires TypesTriangular(env)
    ensures StripImpPrems(NormTerm(env, MkEquals(ty, l, r))).0 == []
  {
    var t := MkEquals(ty, l, r);
    if Eval(env, t, MAX_STEPS).Some? {
      EvalOfConstApp(env, t.func, MAX_STEPS - 1);
    }
  }

  /** `?p x`, and the equation of two constants. */
  function AppliedTo(p: VarKey, x: Symbol, ty: Typ): Term {
    App(Var(p.0, p.1, ty), Free(x, ty))
  }

  lemma EquationMatched(p: VarKey, x: Symbol, m: Symbol, n: Symbol, ty: Typ)
    ensures var concl := MkEquals(ty, AppliedTo(p, x, ty), AppliedTo(p, x, ty));
            var goal := MkEquals(ty, Const(m, ty), Const(n, ty));
            var env := Bind(INIT, p, ty, Abs(x, ty, Const(m, ty)));
            && TypesTriangular(env) && TypesTriangular(INIT)
            && MatchRun(INIT, concl, goal).end.Success? && MatchRun(INIT, concl, goal).end.env == env
  {
    var a, b, e := AppliedTo(p, x, ty), Const(m, ty), Const(n, ty);
    InitTriangular();
    Matches.AppliedToFree(INIT, p, x, ty, b);
    var eq := MkEquals(ty, a, a).func.func;
    var g := Matches.ThreeRounds(eq, a, b, a, e);
    var last := Matches.InitRound(g, a, b);
    assert MkEquals(ty, a, a) == App(App(eq, a), a) && MkEquals(ty, b, e) == App(App(eq, b), e);
  }

  /**
   Matching stops at the first applied variable, so under `match_flag` a reflexive equation whose sides are one meets every
   equation: it resolves a trivial goal to the equation of any two constants, false wherever they denote different things.
   */
  lemma ReflexivityMeetsAll<D(!new)>(M: Model<D>, constTypes: map<Symbol, Typ>, p: Symbol, x: Symbol,
                                     m: Symbol, n: Symbol, ty: Typ)
    requires Reads(M) && M.con(m) != M.con(n)
    ensures var thm1, goal := Reflexive(AppliedTo((p, 0), x, ty), ty), MkEquals(ty, Const(m, ty), Const(n, ty));
            var thm2, r := Thm([], MkImplies(goal, goal), []), Thm([], goal, []);
            && Trivial(goal) == Ok(thm2) && Valid(M, thm1) && Valid(M, thm2)
            && BicomposeOf(constTypes, true, 0, thm1, thm2, 0) == Some(r) && !Valid(M, r)
  {
    var thm1, goal := Reflexive(AppliedTo((p, 0), x, ty), ty), MkEquals(ty, Const(m, ty), Const(n, ty));
    TrivialHolds(goal);
    TrivialTruths(M, thm1, AppliedTo((p, 0), x, ty), ty, goal);
    FalseEquation(M, m, n, ty);
    ReflexivityResolves(constTypes, p, x, m, n, ty);
  }

  lemma TrivialTruths<D(!new)>(M: Model<D>, thm1: Thm, l: Term, ty: Typ, goal: Term)
    requires Reads(M) && thm1 == Reflexive(l, ty)
    ensures Valid(M, thm1) && Valid(M, Thm([], MkImplies(goal, goal), []))
  {
    forall v: Valuation<D> ensures True(M, v, thm1.prop) && True(M, v, MkImplies(goal, goal)) {
      TrueEquals(M, v, thm1.prop);
      TrueImplies(M, v, MkImplies(goal, goal));
    }
  }

  lemma FalseEquation<D(!new)>(M: Model<D>, m: Symbol, n: Symbol, ty: Typ)
    requires Reads(M) && M.con(m) != M.con(n)
    ensures !Valid(M, Thm([], MkEquals(ty, Const(m, ty), Const(n, ty)), []))
  {
    var v := Valuation((k: Symbol) => M.con(m), (k: VarKey) => M.con(m), M.con(m));
    TrueEquals(M, v, MkEquals(ty, Const(m, ty), Const(n, ty)));
    assert AllTrue(M, v, []);
  }

  lemma GroundTrivial(ty: Typ, a: Term, b: Term)
    requires a.Const? && b.Const?
    ensures var goal := MkEquals(ty, a, b); TermVars(MkImplies(goal, goal)) == {} && RedexFree(MkImplies(goal, goal))
  {
    var goal := MkEquals(ty, a, b);
    assert goal.func.func.Const? && goal.func.arg == a && goal.arg == b;
    assert RedexFree(a) && RedexFree(b) && RedexFree(goal.func.func);
    assert TermVars(goal.func) == {} && RedexFree(goal.func);
    assert TermVars(goal) == {} && RedexFree(goal);
    var left := App(IMP, goal);
    assert TermVars(left) == {} && RedexFree(left);
    assert MkImplies(goal, goal) == App(left, goal);
  }

  lemma ReflexivityResolves(constTypes: map<Symbol, Typ>, p: Symbol, x: Symbol, m: Symbol, n: Symbol, ty: Typ)
    ensures var thm1, goal := Reflexive(AppliedTo((p, 0), x, ty), ty), MkEquals(ty, Const(m, ty), Const(n, ty));
            BicomposeOf(constTypes, true, 0, thm1, Thm([], MkImplies(goal, goal), []), 0) == Some(Thm([], goal, []))
  {
    var k: VarKey := (p, 0);
    var l, goal := AppliedTo(k, x, ty), MkEquals(ty, Const(m, ty), Const(n, ty));
    var thm1 := Reflexive(l, ty);
    var thm2, env := Thm([], MkImplies(goal, goal), []), Bind(INIT, k, ty, Abs(x, ty, Const(m, ty)));
    EquationMatched(k, x, m, n, ty);
    assert Blank(0) == INIT;
    assert StripImpPrems(thm1.prop) == ([], thm1.prop);
    StripOne(goal, goal);
    assert Meet(constTypes, true, 0, thm1, goal) == Some(Meeting(env, false));
    GroundTrivial(ty, Const(m, ty), Const(n, ty));
    GroundStays(env, thm2.prop);
    EquationStays(env, ty, l, l);
    assert [goal][..0] + [] + [goal][1..] == [];
    assert Instantiate(env, thm2) == thm2;
    assert Resolved(env, false, thm1, thm2, 0) == Thm([], goal, []);
  }
}
