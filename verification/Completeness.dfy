/**
 What failures of the loops mean. A first-order problem that has a solution is solved, unless the steps run out: by
 unification if the solution agrees on the types of binders, by matching if it agrees on the types of atoms.
 */
module Completeness {
  import opened Syntax
  import opened WorkStack
  import opened Envir
  import opened Unify
  import opened Moves
  import opened Unifiers
  import opened TypedSolutions

  // ---------- unification ----------

  ghost predicate AllFixed(env: Env, ps: seq<Pair>)
    requires TypesTriangular(env)
  {
    forall i :: 0 <= i < |ps| ==> FixedBinders(env, ps[i].left) && FixedBinders(env, ps[i].right)
  }

  lemma FixedTop(env: Env, rest: Stack<Pair>, c: Pair)
    requires TypesTriangular(env) && AllFixed(env, Items(Push(c, rest)))
    ensures Settled(env, c) && FixedBinders(env, NormPair(env, c).left) && FixedBinders(env, NormPair(env, c).right)
    ensures AllFixed(env, Items(rest))
  {
    var all := Items(Push(c, rest));
    assert all[|Items(rest)|] == c;
    forall i | 0 <= i < |Items(rest)| ensures all[i] == Items(rest)[i] {}
    NormFixed(env, c.left);
    NormFixed(env, c.right);
  }

  lemma FixedNews(env: Env, n: Pair)
    requires TypesTriangular(env) && FixedBinders(env, n.left) && FixedBinders(env, n.right)
    ensures AllFixed(env, News(n, UnifyMove(env, n.left, n.right)))
  {
    NormFixed(env, n.left);
    NormFixed(env, n.right);
  }

  lemma FixedNext(g: Config)
    requires TypesTriangular(g.env) && g.pending.Push? && g.steps > 0 && AllFixed(g.env, Items(g.pending))
    requires !MoveFor(Unification, g.env, g.pending.top).Reject?
    ensures Settled(g.env, g.pending.top)
    ensures AllFixed(Next(Unification, g).env, Items(Next(Unification, g).pending))
  {
    var c, rest, next := g.pending.top, g.pending.below, Next(Unification, g);
    var n, m := NormPair(g.env, c), MoveFor(Unification, g.env, c);
    FixedTop(g.env, rest, c);
    FixedNews(g.env, n);
    PushedItems(rest, n, m);
    var all := Items(rest) + News(n, m);
    assert TypeMap(next.env) == TypeMap(g.env);
    forall i | 0 <= i < |all| ensures FixedBinders(next.env, all[i].left) && FixedBinders(next.env, all[i].right) {
      FixedSame(g.env, next.env, all[i].left);
      FixedSame(g.env, next.env, all[i].right);
    }
  }

  lemma {:induction false} FixedSame(env: Env, env': Env, t: Term)
    requires TypesTriangular(env) && TypeMap(env') == TypeMap(env) && TypesTriangular(env') && FixedBinders(env, t)
    ensures FixedBinders(env', t)
  {
    match t
    case Abs(_, _, b) => FixedSame(env, env', b);
    case App(f, a) => FixedSame(env, env', f); FixedSame(env, env', a);
    case _ =>
  }

  lemma {:induction false} UnifyRunComplete(theta: VarKey -> Term, g: Config)
    requires FirstOrderAt(Unification, g) && Holds(SenseOf(Unification, g.env), theta, g)
    requires Running(Unification, g).trail.finished || AllFixed(g.env, Items(g.pending))
    ensures var end := Running(Unification, g).end; end.Success? || end == Failure(OutOfSteps)
    decreases g.steps
  {
    if g.pending.Push? && g.steps > 0 {
      var m := MoveFor(Unification, g.env, g.pending.top);
      var fixed := AllFixed(g.env, Items(g.pending));
      if fixed {
        assert Items(g.pending)[|Items(g.pending.below)|] == g.pending.top;
      } else {
        FinishedStays(Unification, g);
      }
      if m == Reject(Clashed) {
        ClashIn(Unification, theta, g);
      } else if m == Reject(BinderTypes) {
        BinderTypesIn(theta, g);
      } else {
        if fixed { FixedNext(g); }
        FirstOrderNext(Unification, g);
        RoundIn(Unification, theta, g);
        UnifyRunComplete(theta, Next(Unification, g));
      }
    }
  }

  /** An assignment that respects the environment and solves the pairs, with the types that count. */
  ghost predicate SolutionOf(s: Sense, theta: VarKey -> Term, env: Env, ps: seq<Pair>) {
    RespectsIn(s, theta, env) && SolvesIn(s, theta, ps)
  }

  lemma StartHolds(s: Sense, theta: VarKey -> Term, env0: Env, pairs: seq<Pair>, searchBound: nat)
    ensures Holds(s, theta, UnifyConfig(env0, pairs, searchBound)) <==> SolutionOf(s, theta, env0, pairs)
    ensures RigidPairs(true, pairs) ==> RigidPairs(true, Items(StackOf(pairs)))
    ensures TypesTriangular(env0) && AllFixed(env0, pairs) ==> AllFixed(env0, Items(StackOf(pairs)))
  {
    var items := Items(StackOf(pairs));
    StackOfItems(pairs);
    forall i | 0 <= i < |items| ensures items[i] in pairs {}
    forall i | 0 <= i < |pairs| ensures pairs[i] in items {}
    assert SolvesIn(s, theta, items) <==> forall c :: c in items ==> SameIn(s, theta, c);
    assert SolvesIn(s, theta, pairs) <==> forall c :: c in pairs ==> SameIn(s, theta, c);
  }

  /**
   A first-order problem with a solution that agrees on binder types is solved, or the steps run out; provided that each
   normalisation ends or the bindings of type variables leave the types of the binders alone. With these types counted,
   the bindings and the dropped pairs have exactly the solutions of the problem.
   */
  lemma UnifyComplete(env0: Env, pairs: seq<Pair>, searchBound: nat, theta: VarKey -> Term)
    requires TypesTriangular(env0) && RigidProblem(true, env0, pairs)
    ensures var s, run := SenseOf(Unification, env0), UnifyRun(env0, pairs, searchBound);
            && (run.end.Success? ==>
                  (SolutionOf(s, theta, env0, pairs) <==> SolutionOf(s, theta, run.end.env, run.trail.flexFlex)))
            && (SolutionOf(s, theta, env0, pairs) && (run.trail.finished || AllFixed(env0, pairs)) ==>
                  run.end.Success? || run.end == Failure(OutOfSteps))
  {
    var s, g := SenseOf(Unification, env0), UnifyConfig(env0, pairs, searchBound);
    StartHolds(s, theta, env0, pairs, searchBound);
    if UnifyRun(env0, pairs, searchBound).end.Success? { RunIn(Unification, theta, g); }
    if SolutionOf(s, theta, env0, pairs) && (Running(Unification, g).trail.finished || AllFixed(env0, pairs)) {
      UnifyRunComplete(theta, g);
    }
  }

  /**
   After a first-order success that dropped nothing, the bindings, if acyclic, are a solution that agrees on binder types:
   both sides of each pair have normal forms, if their normalisations end, that are equal with the types of binders.
   */
  lemma UnifiedBinderTypes(env0: Env, pairs: seq<Pair>, searchBound: nat)
    requires TypesTriangular(env0) && RigidProblem(true, env0, pairs)
    requires UnifyRun(env0, pairs, searchBound).end.Success? && UnifyRun(env0, pairs, searchBound).trail.flexFlex == []
    requires TermsTriangular(UnifyRun(env0, pairs, searchBound).end.env)
    ensures var env, s := UnifyRun(env0, pairs, searchBound).end.env, SenseOf(Unification, env0);
            && SolutionOf(s, SolutionIn(s, env), env0, pairs)
            && TypesTriangular(env)
            && forall c :: c in pairs && Finishes(env, c.left) && Finishes(env, c.right) ==>
                 Compared(Unification, NormTerm(env, c.left)) == Compared(Unification, NormTerm(env, c.right))
  {
    var s, env := SenseOf(Unification, env0), UnifyRun(env0, pairs, searchBound).end.env;
    var g := UnifyConfig(env0, pairs, searchBound);
    var theta := SolutionIn(s, env);
    SolutionInRespects(s, env);
    UnifyComplete(env0, pairs, searchBound, theta);
    StartHolds(s, theta, env0, pairs, searchBound);
    EndIn(Unification, g);
    forall c | c in pairs && Finishes(env, c.left) && Finishes(env, c.right)
      ensures Compared(Unification, NormTerm(env, c.left)) == Compared(Unification, NormTerm(env, c.right))
    {
      var i :| 0 <= i < |pairs| && pairs[i] == c;
      NormIsInstanceIn(Unification, env, c.left);
      NormIsInstanceIn(Unification, env, c.right);
    }
  }

  /** The environment a first-order run ends with has the type bindings it started with and first-order term bindings. */
  lemma {:induction false} EndIn(loop: Loop, g: Config)
    requires FirstOrderAt(loop, g) && Running(loop, g).end.Success?
    ensures var env := Running(loop, g).end.env;
            TypesTriangular(env) && SenseOf(loop, env) == SenseOf(loop, g.env) && RigidEnv(loop.Unification?, env)
    decreases g.steps
  {
    if g.pending.Push? && g.steps > 0 {
      FirstOrderNext(loop, g);
      EndIn(loop, Next(loop, g));
    }
  }

  // ---------- one type for all binders ----------

  /** Constants, free variables and binders with the types that count taken from a table. */
  datatype Table = Table(consts: Symbol -> Typ, frees: Symbol -> Typ, binders: Typ)

  ghost predicate Follows(s: Sense, table: Table, t: Term) {
    match t
    case Const(n, ty) => Kept(s.atoms, s, ty) == table.consts(n)
    case Free(n, ty) => Kept(s.atoms, s, ty) == table.frees(n)
    case Abs(_, ty, b) => Kept(s.binders, s, ty) == table.binders && Follows(s, table, b)
    case App(f, a) => Follows(s, table, f) && Follows(s, table, a)
    case _ => true
  }

  ghost function Dressed(table: Table, t: Term): Term {
    match t
    case Const(n, _) => Const(n, table.consts(n))
    case Free(n, _) => Free(n, table.frees(n))
    case Abs(_, _, b) => Abs("", table.binders, Dressed(table, b))
    case App(f, a) => App(Dressed(table, f), Dressed(table, a))
    case _ => t
  }

  /** A solution without types, given the types of the table. */
  ghost function DressedBy(table: Table, theta: VarKey -> Term): VarKey -> Term {
    (k: VarKey) => Dressed(table, theta(k))
  }

  lemma {:induction false} InstDressed(s: Sense, table: Table, theta: VarKey -> Term, t: Term)
    requires Follows(s, table, t)
    ensures InstIn(s, DressedBy(table, theta), t) == Dressed(table, Inst(theta, t))
  {
    match t
    case Abs(_, _, b) => InstDressed(s, table, theta, b);
    case App(f, a) => InstDressed(s, table, theta, f); InstDressed(s, table, theta, a);
    case _ =>
  }

  ghost predicate EnvFollows(s: Sense, table: Table, env: Env) {
    forall k :: k in env.tenv ==> Follows(s, table, Assigned(env, k))
  }

  lemma DressedRespects(s: Sense, table: Table, theta: VarKey -> Term, env: Env)
    requires EnvFollows(s, table, env) && Respects(theta, env)
    ensures RespectsIn(s, DressedBy(table, theta), env)
  {
    forall k | k in env.tenv ensures DressedBy(table, theta)(k) == InstIn(s, DressedBy(table, theta), Assigned(env, k)) {
      InstDressed(s, table, theta, Assigned(env, k));
    }
  }

  lemma DressedSame(s: Sense, table: Table, theta: VarKey -> Term, c: Pair)
    requires Follows(s, table, c.left) && Follows(s, table, c.right) && Inst(theta, c.left) == Inst(theta, c.right)
    ensures SameIn(s, DressedBy(table, theta), c)
  {
    InstDressed(s, table, theta, c.left);
    InstDressed(s, table, theta, c.right);
  }

  /** Every binder has the type. */
  predicate BindersOf(ty: Typ, t: Term) {
    match t
    case Abs(_, u, b) => u == ty && BindersOf(ty, b)
    case App(f, a) => BindersOf(ty, f) && BindersOf(ty, a)
    case _ => true
  }

  ghost predicate OneBinderType(ty: Typ, env: Env, ps: seq<Pair>) {
    && (forall k :: k in env.tenv ==> BindersOf(ty, Assigned(env, k)))
    && (forall i :: 0 <= i < |ps| ==> BindersOf(ty, ps[i].left) && BindersOf(ty, ps[i].right))
  }

  ghost function BinderTable(ty: Typ): Table {
    Table(n => DUMMY, n => DUMMY, ty)
  }

  lemma {:induction false} BindersFollow(env: Env, ty: Typ, t: Term)
    requires TypesTriangular(env) && NormalType(env, ty) && BindersOf(ty, t)
    ensures Follows(SenseOf(Unification, env), BinderTable(ty), t) && FixedBinders(env, t)
  {
    match t
    case Abs(_, _, b) => BindersFollow(env, ty, b);
    case App(f, a) => BindersFollow(env, ty, f); BindersFollow(env, ty, a);
    case _ =>
  }

  /**
   If all binders have one type, which the bindings of type variables leave alone, then a first-order problem that some
   assignment solves, types aside, is solved or runs out of steps.
   */
  lemma UnifyCompleteOneType(env0: Env, pairs: seq<Pair>, searchBound: nat, ty: Typ)
    requires TypesTriangular(env0) && RigidProblem(true, env0, pairs)
    requires OneBinderType(ty, env0, pairs) && NormalType(env0, ty)
    requires exists theta: VarKey -> Term :: Respects(theta, env0) && Solves(theta, pairs)
    ensures var end := UnifyRun(env0, pairs, searchBound).end; end.Success? || end == Failure(OutOfSteps)
  {
    var theta: VarKey -> Term :| Respects(theta, env0) && Solves(theta, pairs);
    var s, table := SenseOf(Unification, env0), BinderTable(ty);
    forall k | k in env0.tenv ensures Follows(s, table, Assigned(env0, k)) { BindersFollow(env0, ty, Assigned(env0, k)); }
    DressedRespects(s, table, theta, env0);
    forall i | 0 <= i < |pairs|
      ensures SameIn(s, DressedBy(table, theta), pairs[i])
      ensures FixedBinders(env0, pairs[i].left) && FixedBinders(env0, pairs[i].right)
    {
      BindersFollow(env0, ty, pairs[i].left);
      BindersFollow(env0, ty, pairs[i].right);
      DressedSame(s, table, theta, pairs[i]);
    }
    UnifyComplete(env0, pairs, searchBound, DressedBy(table, theta));
  }

  // ---------- matching ----------

  lemma {:induction false} InstSize(theta: VarKey -> Term, t: Term)
    ensures Size(t) <= Size(Inst(theta, t))
  {
    match t
    case Abs(_, _, b) => InstSize(theta, b);
    case App(f, a) => InstSize(theta, f); InstSize(theta, a);
    case _ =>
  }

  /** Small pairs that have a solution are normalised within the budget. */
  lemma SolvableFinishes(env: Env, theta: VarKey -> Term, c: Pair)
    requires TypesTriangular(env) && RigidEnv(false, env) && GroundEnv(env) && Respects(theta, env)
    requires Rigid(false, c.left) && Rigid(false, c.right) && TermVars(c.right) == {} && Size(c.right) <= MATCH_STEPS
    requires Inst(theta, c.left) == Inst(theta, c.right)
    ensures Finishes(env, c.left) && Finishes(env, c.right) && Size(NormTerm(env, c.right)) == Size(c.right)
  {
    InstOfGround(theta, c.right);
    ShapeSize(c.right);
    InstSize(theta, c.left);
    CostOfInstance(env, theta, c.left);
    GroundCost(env, c.right);
    RigidEvaluates(false, env, c.left, MAX_STEPS);
    RigidEvaluates(false, env, c.right, MAX_STEPS);
    NormRigid(false, env, c.right);
    NormGround(env, c.right);
    InstOfGround(theta, NormTerm(env, c.right));
    ShapeSize(NormTerm(env, c.right));
  }

  /** A first-order match against variable-free objects with a solution, and steps for every node of the objects. */
  ghost predicate Solvable(theta: VarKey -> Term, g: Config) {
    && FirstOrderAt(Matching, g) && GroundProblem(g.env, Items(g.pending)) && GroundEnv(g.env)
    && Holds(SenseOf(Matching, g.env), theta, g) && RightSize(g.pending) <= g.steps <= MATCH_STEPS
  }

  lemma SolvableTop(theta: VarKey -> Term, g: Config)
    requires Solvable(theta, g) && g.pending.Push?
    ensures var c := g.pending.top;
            && g.steps > 0 && Finishes(g.env, c.left) && Finishes(g.env, c.right)
            && Size(NormTerm(g.env, c.right)) == Size(c.right)
  {
    var s, c, rest := SenseOf(Matching, g.env), g.pending.top, g.pending.below;
    assert RightSize(g.pending) == Size(c.right) + RightSize(rest);
    HoldsTop(s, theta, g);
    ErasedSolves(s, theta, g.env, c);
    MoveAllowed(Matching, g);
    assert Items(g.pending)[|Items(rest)|] == c;
    SolvableFinishes(g.env, Erased(theta), c);
  }

  lemma SolvableNext(theta: VarKey -> Term, g: Config)
    requires Solvable(theta, g) && g.pending.Push? && g.steps > 0
    ensures var m := MoveFor(Matching, g.env, g.pending.top);
            !m.Reject? && !m.Conclude? && Solvable(theta, Next(Matching, g))
  {
    var c, rest := g.pending.top, g.pending.below;
    var n, m := NormPair(g.env, c), MoveFor(Matching, g.env, c);
    SolvableTop(theta, g);
    GroundMatchRound(g.env, Items(rest), c);
    if m == Reject(Clashed) {
      ClashIn(Matching, theta, g);
    } else if m == Reject(TypesDiffer) {
      TypesDifferIn(theta, g);
    } else {
      FirstOrderNext(Matching, g);
      RoundIn(Matching, theta, g);
      PushedItems(rest, n, m);
      RoundGround(Matching, g.env, Items(rest), c);
      GroundAfter(g.env, n, m);
      assert RightSize(Pushed(rest, n, m)) < RightSize(g.pending);
    }
  }

  lemma {:induction false} MatchRunComplete(theta: VarKey -> Term, g: Config)
    requires Solvable(theta, g)
    ensures Running(Matching, g).end.Success?
    decreases g.steps
  {
    if g.pending.Push? {
      SolvableTop(theta, g);
      SolvableNext(theta, g);
      MatchRunComplete(theta, Next(Matching, g));
    }
  }

  /** A first-order pattern and bindings, against a variable-free first-order object with a node for each step at most. */
  ghost predicate SmallMatch(env0: Env, pat: Term, obj: Term) {
    && TypesTriangular(env0) && GroundEnv(env0) && RigidEnv(false, env0)
    && Rigid(false, pat) && Rigid(false, obj) && TermVars(obj) == {} && Size(obj) <= MATCH_STEPS
  }

  lemma MatchStarts(env0: Env, pat: Term, obj: Term, s: Sense, theta: VarKey -> Term)
    requires SmallMatch(env0, pat, obj)
    ensures FirstOrderAt(Matching, MatchConfig(env0, pat, obj))
    ensures Holds(s, theta, MatchConfig(env0, pat, obj)) <==> SolutionOf(s, theta, env0, [Pair(pat, obj)])
    ensures SolutionOf(SenseOf(Matching, env0), theta, env0, [Pair(pat, obj)]) ==>
              Solvable(theta, MatchConfig(env0, pat, obj))
  {
    assert Items(MatchConfig(env0, pat, obj).pending) == [Pair(pat, obj)];
    assert RightSize(Push(Pair(pat, obj), Empty)) == Size(obj) + RightSize(Empty);
  }

  /**
   A small first-order match succeeds exactly if some assignment that respects the environment makes the pattern equal to
   the object, with the types of atoms. After a success the bindings are one, and the pattern normalises to the object.
   */
  lemma MatchExact(env0: Env, pat: Term, obj: Term)
    requires SmallMatch(env0, pat, obj)
    ensures MatchRun(env0, pat, obj).end.Success? <==>
            exists theta: VarKey -> Term :: SolutionOf(SenseOf(Matching, env0), theta, env0, [Pair(pat, obj)])
    ensures MatchRun(env0, pat, obj).end.Success? ==>
              var env := MatchRun(env0, pat, obj).end.env;
              TypesTriangular(env) && Compared(Matching, NormTerm(env, pat)) == Compared(Matching, NormTerm(env, obj))
  {
    var s, g := SenseOf(Matching, env0), MatchConfig(env0, pat, obj);
    if MatchRun(env0, pat, obj).end.Success? {
      MatchSolution(env0, pat, obj);
    }
    if theta: VarKey -> Term :| SolutionOf(s, theta, env0, [Pair(pat, obj)]) {
      MatchStarts(env0, pat, obj, s, theta);
      MatchRunComplete(theta, g);
    }
  }

  lemma MatchSolution(env0: Env, pat: Term, obj: Term)
    requires SmallMatch(env0, pat, obj) && MatchRun(env0, pat, obj).end.Success?
    ensures var env, s := MatchRun(env0, pat, obj).end.env, SenseOf(Matching, env0);
            && TermsTriangular(env) && SolutionOf(s, SolutionIn(s, env), env0, [Pair(pat, obj)])
            && TypesTriangular(env)
            && Compared(Matching, NormTerm(env, pat)) == Compared(Matching, NormTerm(env, obj))
  {
    var s, g, env := SenseOf(Matching, env0), MatchConfig(env0, pat, obj), MatchRun(env0, pat, obj).end.env;
    GroundIsAcyclic(env0);
    GroundMatch(env0, pat, obj);
    var theta := SolutionIn(s, env);
    SolutionInRespects(s, env);
    MatchStarts(env0, pat, obj, s, theta);
    RunOnly(Matching, g);
    RunIn(Matching, theta, g);
    EndIn(Matching, g);
    SolvesInOne(s, theta, Pair(pat, obj));
    ErasedSolves(s, theta, env, Pair(pat, obj));
    SolvableFinishes(env, Erased(theta), Pair(pat, obj));
    NormIsInstanceIn(Matching, env, pat);
    NormIsInstanceIn(Matching, env, obj);
  }

  // ---------- one type for each atom ----------

  /** Constants and free variables have the types of the tables. */
  predicate AtomsOf(consts: Symbol -> Typ, frees: Symbol -> Typ, t: Term) {
    match t
    case Const(n, ty) => ty == consts(n)
    case Free(n, ty) => ty == frees(n)
    case Abs(_, _, b) => AtomsOf(consts, frees, b)
    case App(f, a) => AtomsOf(consts, frees, f) && AtomsOf(consts, frees, a)
    case _ => true
  }

  ghost function AtomTable(s: Sense, consts: Symbol -> Typ, frees: Symbol -> Typ): Table {
    Table(n => Kept(s.atoms, s, consts(n)), n => Kept(s.atoms, s, frees(n)), DUMMY)
  }

  lemma {:induction false} AtomsFollow(s: Sense, consts: Symbol -> Typ, frees: Symbol -> Typ, t: Term)
    requires AtomsOf(consts, frees, t) && !s.binders
    ensures Follows(s, AtomTable(s, consts, frees), t)
  {
    match t
    case Abs(_, _, b) => AtomsFollow(s, consts, frees, b);
    case App(f, a) => AtomsFollow(s, consts, frees, f); AtomsFollow(s, consts, frees, a);
    case _ =>
  }

  /**
   If atoms of one name have one type, a small first-order match succeeds exactly if some assignment that respects the
   environment makes the pattern equal to the object, all types aside.
   */
  lemma MatchExactOneType(env0: Env, pat: Term, obj: Term, consts: Symbol -> Typ, frees: Symbol -> Typ)
    requires SmallMatch(env0, pat, obj) && AtomsOf(consts, frees, pat) && AtomsOf(consts, frees, obj)
    requires forall k :: k in env0.tenv ==> AtomsOf(consts, frees, Assigned(env0, k))
    ensures MatchRun(env0, pat, obj).end.Success? <==>
            exists theta: VarKey -> Term :: Respects(theta, env0) && Inst(theta, pat) == Shape(obj)
  {
    var s, c := SenseOf(Matching, env0), Pair(pat, obj);
    MatchExact(env0, pat, obj);
    if theta: VarKey -> Term :| SolutionOf(s, theta, env0, [c]) {
      SolvesInOne(s, theta, c);
      ErasedSolves(s, theta, env0, c);
      InstOfGround(Erased(theta), obj);
    }
    if theta: VarKey -> Term :| Respects(theta, env0) && Inst(theta, pat) == Shape(obj) {
      InstOfGround(theta, obj);
      TypesAdded(env0, c, consts, frees, theta);
    }
  }

  /** A solution without types gets those of the tables. */
  lemma TypesAdded(env: Env, c: Pair, consts: Symbol -> Typ, frees: Symbol -> Typ, theta: VarKey -> Term)
    requires AtomsOf(consts, frees, c.left) && AtomsOf(consts, frees, c.right)
    requires forall k :: k in env.tenv ==> AtomsOf(consts, frees, Assigned(env, k))
    requires Respects(theta, env) && Inst(theta, c.left) == Inst(theta, c.right)
    ensures exists typed: VarKey -> Term :: SolutionOf(SenseOf(Matching, env), typed, env, [c])
  {
    var s := SenseOf(Matching, env);
    var table := AtomTable(s, consts, frees);
    forall k | k in env.tenv ensures Follows(s, table, Assigned(env, k)) {
      AtomsFollow(s, consts, frees, Assigned(env, k));
    }
    AtomsFollow(s, consts, frees, c.left);
    AtomsFollow(s, consts, frees, c.right);
    DressedRespects(s, table, theta, env);
    DressedSame(s, table, theta, c);
    SolvesInOne(s, DressedBy(table, theta), c);
    assert SolutionOf(s, DressedBy(table, theta), env, [c]);
  }
}
