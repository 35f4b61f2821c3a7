/**
 Solutions that look at types. Unification compares the types of binders and matching those of atoms, each with the type
 variables replaced by what they are bound to; what a loop does not compare is left out here too.
 */
module TypedSolutions {
  import opened Syntax
  import opened TypeResolve
  import opened Envir
  import opened Unify
  import opened Moves
  import opened Unifiers

  /** Which types count, and the bindings of type variables. */
  datatype Sense = Sense(atoms: bool, binders: bool, types: map<VarKey, Typ>)

  /** The types a loop compares. */
  function SenseOf(loop: Loop, env: Env): Sense {
    Sense(loop.Matching?, loop.Unification?, TypeMap(env))
  }

  ghost function Kept(keep: bool, s: Sense, ty: Typ): Typ {
    if keep && Triangular(ByKey, s.types) then Apply(ByKey, s.types, ty) else DUMMY
  }

  /** The instance of a term, with the types that count. */
  ghost function InstIn(s: Sense, theta: VarKey -> Term, t: Term): Term {
    match t
    case Const(n, ty) => Const(n, Kept(s.atoms, s, ty))
    case Free(n, ty) => Free(n, Kept(s.atoms, s, ty))
    case Var(n, i, _) => theta((n, i))
    case Bound(_) => t
    case Abs(_, ty, b) => Abs("", Kept(s.binders, s, ty), InstIn(s, theta, b))
    case App(f, a) => App(InstIn(s, theta, f), InstIn(s, theta, a))
  }

  ghost predicate RespectsIn(s: Sense, theta: VarKey -> Term, env: Env) {
    forall k :: k in env.tenv ==> theta(k) == InstIn(s, theta, Assigned(env, k))
  }

  ghost predicate SolvesIn(s: Sense, theta: VarKey -> Term, ps: seq<Pair>) {
    forall i :: 0 <= i < |ps| ==> InstIn(s, theta, ps[i].left) == InstIn(s, theta, ps[i].right)
  }

  ghost predicate SameIn(s: Sense, theta: VarKey -> Term, c: Pair) {
    InstIn(s, theta, c.left) == InstIn(s, theta, c.right)
  }

  lemma SolvesInAppend(s: Sense, theta: VarKey -> Term, a: seq<Pair>, b: seq<Pair>)
    ensures SolvesIn(s, theta, a + b) <==> SolvesIn(s, theta, a) && SolvesIn(s, theta, b)
  {
    var ab := a + b;
    if SolvesIn(s, theta, ab) {
      forall i | 0 <= i < |a| ensures SameIn(s, theta, a[i]) { assert ab[i] == a[i]; }
      forall i | 0 <= i < |b| ensures SameIn(s, theta, b[i]) { assert ab[|a| + i] == b[i]; }
    }
  }

  lemma SolvesInOne(s: Sense, theta: VarKey -> Term, c: Pair)
    ensures SolvesIn(s, theta, [c]) <==> SameIn(s, theta, c)
    ensures SolvesIn(s, theta, [])
  {
    assert [c][0] == c;
  }

  // ---------- what normalisation keeps ----------

  lemma {:induction false} EvalIn(s: Sense, free: bool, env: Env, theta: VarKey -> Term, t: Term, fuel: nat)
    requires TypesTriangular(env) && s.types == TypeMap(env) && RegularEnv(free, s, theta, env)
    requires Rigid(free, t) && Eval(env, t, fuel).Some?
    ensures InstIn(s, theta, Eval(env, t, fuel).value.0) == InstIn(s, theta, t)
    decreases fuel
  {
    match t
    case Var(n, i, _) => if (n, i) in env.tenv { EvalIn(s, free, env, theta, Assigned(env, (n, i)), fuel - 1); }
    case Const(_, ty) => ApplyIdempotent(ByKey, TypeMap(env), ty);
    case Free(_, ty) => ApplyIdempotent(ByKey, TypeMap(env), ty);
    case Bound(_) =>
    case Abs(_, ty, b) => ApplyIdempotent(ByKey, TypeMap(env), ty); EvalIn(s, free, env, theta, b, fuel - 1);
    case App(f, a) =>
      var fun := Eval(env, f, fuel - 1).value;
      EvalIn(s, free, env, theta, f, fuel - 1);
      EvalIn(s, free, env, theta, a, fun.1);
      assert !fun.0.Abs? by { EvalRigid(free, env, f, fuel - 1); }
  }

  /** First-order bindings that the assignment respects. */
  ghost predicate RegularEnv(free: bool, s: Sense, theta: VarKey -> Term, env: Env) {
    RigidEnv(free, env) && RespectsIn(s, theta, env)
  }

  lemma NormIn(s: Sense, free: bool, env: Env, theta: VarKey -> Term, t: Term)
    requires TypesTriangular(env) && s.types == TypeMap(env) && RegularEnv(free, s, theta, env) && Rigid(free, t)
    ensures InstIn(s, theta, NormTerm(env, t)) == InstIn(s, theta, t)
  {
    if Eval(env, t, MAX_STEPS).Some? { EvalIn(s, free, env, theta, t, MAX_STEPS); }
  }

  // ---------- one round ----------

  /** The pair says the same as what a move makes of it. */
  ghost predicate Exchanged(s: Sense, theta: VarKey -> Term, env: Env, n: Pair, m: Move) {
    SameIn(s, theta, n) <==>
      RespectsIn(s, theta, After(env, m)) && SolvesIn(s, theta, News(n, m)) && (m.Postpone? ==> SameIn(s, theta, n))
  }

  lemma BindIn(s: Sense, theta: VarKey -> Term, env: Env, n: Pair, k: VarKey, ty: Typ, t: Term)
    requires RespectsIn(s, theta, env) && k !in env.tenv && Equates(n, k, t)
    ensures RespectsIn(s, theta, Bind(env, k, ty, t)) <==> SameIn(s, theta, n)
  {
    var env' := Bind(env, k, ty, t);
    assert Assigned(env', k) == t;
    assert forall j :: j in env.tenv ==> Assigned(env', j) == Assigned(env, j);
  }

  lemma AppsIn(s: Sense, theta: VarKey -> Term, n: Pair)
    requires n.left.App? && n.right.App?
    ensures SameIn(s, theta, n) <==> SolvesIn(s, theta, News(n, Apps))
  {
    var a, f := Pair(n.left.arg, n.right.arg), Pair(n.left.func, n.right.func);
    assert News(n, Apps) == [a] + [f];
    SolvesInAppend(s, theta, [a], [f]);
    SolvesInOne(s, theta, a);
    SolvesInOne(s, theta, f);
  }

  lemma SkipIn(loop: Loop, env: Env, theta: VarKey -> Term, c: Pair)
    requires TypesTriangular(env) && MoveFor(loop, env, c).Skip?
    ensures SameIn(SenseOf(loop, env), theta, NormPair(env, c))
  {
    var n := NormPair(env, c);
    if n.left != n.right { assert IsAtom(n.left) && loop.Unification?; }
  }

  /** Normalising a side of a normalised pair once more changes nothing that counts. */
  lemma NormTwiceIn(loop: Loop, env: Env, theta: VarKey -> Term, t: Term)
    requires TypesTriangular(env) && RegularEnv(loop.Unification?, SenseOf(loop, env), theta, env)
    requires Rigid(loop.Unification?, t)
    ensures var s, n := SenseOf(loop, env), NormTerm(env, t);
            InstIn(s, theta, NormTerm(env, n)) == InstIn(s, theta, n)
  {
    NormRigid(loop.Unification?, env, t);
    NormIn(SenseOf(loop, env), loop.Unification?, env, theta, NormTerm(env, t));
  }

  lemma RetryParts(env: Env, t: Term, u: Term)
    requires TypesTriangular(env) && UnifyMove(env, t, u).Retry?
    ensures UnifyMove(env, t, u).p in {Pair(NormTerm(env, t), u), Pair(t, NormTerm(env, u))}
  {
  }

  lemma RetryIn(loop: Loop, env: Env, theta: VarKey -> Term, c: Pair)
    requires TypesTriangular(env) && RegularEnv(loop.Unification?, SenseOf(loop, env), theta, env)
    requires Rigid(loop.Unification?, c.left) && Rigid(loop.Unification?, c.right) && MoveFor(loop, env, c).Retry?
    ensures var s := SenseOf(loop, env); SameIn(s, theta, NormPair(env, c)) <==> SameIn(s, theta, MoveFor(loop, env, c).p)
  {
    NormTwiceIn(loop, env, theta, c.left);
    NormTwiceIn(loop, env, theta, c.right);
    RetryParts(env, NormTerm(env, c.left), NormTerm(env, c.right));
  }

  /** Every move on a normalised pair but a rejection keeps what an assignment solves with the types that count. */
  lemma MoveIn(loop: Loop, env: Env, theta: VarKey -> Term, c: Pair)
    requires TypesTriangular(env) && RegularEnv(loop.Unification?, SenseOf(loop, env), theta, env)
    requires Rigid(loop.Unification?, c.left) && Rigid(loop.Unification?, c.right)
    requires Allowed(loop.Unification?, env, NormPair(env, c), MoveFor(loop, env, c))
    requires var m := MoveFor(loop, env, c); !m.Reject? && !m.Conclude?
    ensures Exchanged(SenseOf(loop, env), theta, env, NormPair(env, c), MoveFor(loop, env, c))
  {
    var s, n, m := SenseOf(loop, env), NormPair(env, c), MoveFor(loop, env, c);
    match m {
      case Skip => SkipIn(loop, env, theta, c);
      case Postpone =>
      case Assign(k, ty, t) => BindIn(s, theta, env, n, k, ty, t);
      case Retry(p) => RetryIn(loop, env, theta, c); SolvesInOne(s, theta, p);
      case Apps => AppsIn(s, theta, n);
      case Abss => AbssIn(loop, env, theta, c);
    }
  }

  lemma AbssIn(loop: Loop, env: Env, theta: VarKey -> Term, c: Pair)
    requires TypesTriangular(env) && MoveFor(loop, env, c).Abss?
    ensures var n := NormPair(env, c);
            SameIn(SenseOf(loop, env), theta, n) <==> SolvesIn(SenseOf(loop, env), theta, News(n, Abss))
  {
    var n := NormPair(env, c);
    SolvesInOne(SenseOf(loop, env), theta, Pair(n.left.body, n.right.body));
  }

  // ---------- whole runs ----------

  /** A first-order problem of a loop; only unification lets a free variable head an application. */
  ghost predicate FirstOrderAt(loop: Loop, g: Config) {
    TypesTriangular(g.env) && RigidProblem(loop.Unification?, g.env, Items(g.pending))
  }

  /** What the assignment says of a configuration. */
  ghost predicate Holds(s: Sense, theta: VarKey -> Term, g: Config) {
    RespectsIn(s, theta, g.env) && SolvesIn(s, theta, Items(g.pending)) && SolvesIn(s, theta, g.trail.flexFlex)
  }

  lemma MoveAllowed(loop: Loop, g: Config)
    requires FirstOrderAt(loop, g) && g.pending.Push? && g.steps > 0
    ensures var c := g.pending.top;
            && Rigid(loop.Unification?, c.left) && Rigid(loop.Unification?, c.right)
            && Allowed(loop.Unification?, g.env, NormPair(g.env, c), MoveFor(loop, g.env, c))
  {
    var c, free := g.pending.top, loop.Unification?;
    var n := NormPair(g.env, c);
    RigidAfter(free, Items(g.pending.below), c, []);
    NormRigid(free, g.env, c.left);
    NormRigid(free, g.env, c.right);
    if loop.Unification? { UnifyMoveAllowed(g.env, n); } else { MatchMoveIsRight(g.env, n); }
  }

  lemma FirstOrderNext(loop: Loop, g: Config)
    requires FirstOrderAt(loop, g) && g.pending.Push? && g.steps > 0
    requires !MoveFor(loop, g.env, g.pending.top).Reject?
    ensures FirstOrderAt(loop, Next(loop, g)) && !MoveFor(loop, g.env, g.pending.top).Conclude?
    ensures SenseOf(loop, Next(loop, g).env) == SenseOf(loop, g.env)
  {
    var c, rest, free := g.pending.top, g.pending.below, loop.Unification?;
    var n, m := NormPair(g.env, c), MoveFor(loop, g.env, c);
    MoveAllowed(loop, g);
    MoveExchanges(free, g.env, c, m);
    RigidAfter(free, Items(rest), c, News(n, m));
    PushedItems(rest, n, m);
  }

  /** A round keeps what an assignment says. */
  lemma RoundIn(loop: Loop, theta: VarKey -> Term, g: Config)
    requires FirstOrderAt(loop, g) && g.pending.Push? && g.steps > 0
    requires !MoveFor(loop, g.env, g.pending.top).Reject?
    ensures Holds(SenseOf(loop, g.env), theta, g) <==> Holds(SenseOf(loop, g.env), theta, Next(loop, g))
  {
    var s, c, rest, next := SenseOf(loop, g.env), g.pending.top, g.pending.below, Next(loop, g);
    var n, m := NormPair(g.env, c), MoveFor(loop, g.env, c);
    MoveAllowed(loop, g);
    PushedItems(rest, n, m);
    SolvesInAppend(s, theta, Items(rest), [c]);
    SolvesInOne(s, theta, c);
    if RespectsIn(s, theta, g.env) {
      PairIn(loop, g.env, theta, c);
      SolvesInAppend(s, theta, Items(rest), News(n, m));
      SolvesInAppend(s, theta, g.trail.flexFlex, if m.Postpone? then [n] else []);
      SolvesInOne(s, theta, n);
    } else {
      assert m.Assign? ==> forall k :: k in g.env.tenv ==> Assigned(next.env, k) == Assigned(g.env, k);
    }
  }

  lemma PairIn(loop: Loop, env: Env, theta: VarKey -> Term, c: Pair)
    requires TypesTriangular(env) && RegularEnv(loop.Unification?, SenseOf(loop, env), theta, env)
    requires Rigid(loop.Unification?, c.left) && Rigid(loop.Unification?, c.right)
    requires Allowed(loop.Unification?, env, NormPair(env, c), MoveFor(loop, env, c))
    requires var m := MoveFor(loop, env, c); !m.Reject? && !m.Conclude?
    ensures SameIn(SenseOf(loop, env), theta, c) <==> SameIn(SenseOf(loop, env), theta, NormPair(env, c))
    ensures Exchanged(SenseOf(loop, env), theta, env, NormPair(env, c), MoveFor(loop, env, c))
  {
    NormIn(SenseOf(loop, env), loop.Unification?, env, theta, c.left);
    NormIn(SenseOf(loop, env), loop.Unification?, env, theta, c.right);
    MoveIn(loop, env, theta, c);
  }

  /** A run that succeeds has kept what an assignment says. */
  lemma {:induction false} RunIn(loop: Loop, theta: VarKey -> Term, g: Config)
    requires FirstOrderAt(loop, g) && Running(loop, g).end.Success?
    ensures var run, s := Running(loop, g), SenseOf(loop, g.env);
            Holds(s, theta, g) <==> RespectsIn(s, theta, run.end.env) && SolvesIn(s, theta, run.trail.flexFlex)
    decreases g.steps
  {
    if g.pending.Push? && g.steps > 0 {
      FirstOrderNext(loop, g);
      RoundIn(loop, theta, g);
      RunIn(loop, theta, Next(loop, g));
    }
  }

  // ---------- forgetting types ----------

  ghost function Erased(theta: VarKey -> Term): VarKey -> Term {
    (k: VarKey) => Shape(theta(k))
  }

  lemma {:induction false} ShapeOfInstIn(s: Sense, theta: VarKey -> Term, t: Term)
    ensures Shape(InstIn(s, theta, t)) == Inst(Erased(theta), t)
  {
    match t
    case Abs(_, _, b) => ShapeOfInstIn(s, theta, b);
    case App(f, a) => ShapeOfInstIn(s, theta, f); ShapeOfInstIn(s, theta, a);
    case _ =>
  }

  /** A solution in which types count is one without types. */
  lemma ErasedSolves(s: Sense, theta: VarKey -> Term, env: Env, c: Pair)
    requires RespectsIn(s, theta, env)
    ensures Respects(Erased(theta), env)
    ensures SameIn(s, theta, c) ==> Inst(Erased(theta), c.left) == Inst(Erased(theta), c.right)
  {
    forall k | k in env.tenv ensures Erased(theta)(k) == Inst(Erased(theta), Assigned(env, k)) {
      ShapeOfInstIn(s, theta, Assigned(env, k));
    }
    ShapeOfInstIn(s, theta, c.left);
    ShapeOfInstIn(s, theta, c.right);
  }

  // ---------- rejections ----------

  /** The bindings of type variables leave the types of the binders alone. */
  ghost predicate FixedBinders(env: Env, t: Term)
    requires TypesTriangular(env)
  {
    match t
    case Abs(_, ty, b) => NormalType(env, ty) && FixedBinders(env, b)
    case App(f, a) => FixedBinders(env, f) && FixedBinders(env, a)
    case _ => true
  }

  lemma {:induction false} NormalIsFixed(env: Env, t: Term)
    requires TypesTriangular(env) && Normal(env, t)
    ensures FixedBinders(env, t)
  {
    match t
    case Abs(_, _, b) => NormalIsFixed(env, b);
    case App(f, a) => NormalIsFixed(env, f); NormalIsFixed(env, a);
    case _ =>
  }

  lemma NormFixed(env: Env, t: Term)
    requires TypesTriangular(env) && (Finishes(env, t) || FixedBinders(env, t))
    ensures FixedBinders(env, NormTerm(env, t))
  {
    if Finishes(env, t) {
      EvalIsNormal(env, t, MAX_STEPS);
      NormalIsFixed(env, NormTerm(env, t));
    }
  }

  /** Terms that the environment leaves as they are, or whose normalisation ends. */
  ghost predicate Settled(env: Env, c: Pair)
    requires TypesTriangular(env)
  {
    && (Finishes(env, c.left) || FixedBinders(env, c.left))
    && (Finishes(env, c.right) || FixedBinders(env, c.right))
  }

  /** A pair rejected because of a clash has no solution with types either. */
  lemma ClashIn(loop: Loop, theta: VarKey -> Term, g: Config)
    requires FirstOrderAt(loop, g) && g.pending.Push? && g.steps > 0
    requires MoveFor(loop, g.env, g.pending.top) == Reject(Clashed)
    ensures !Holds(SenseOf(loop, g.env), theta, g)
  {
    var s, c, free := SenseOf(loop, g.env), g.pending.top, loop.Unification?;
    var n := NormPair(g.env, c);
    if Holds(s, theta, g) {
      HoldsTop(s, theta, g);
      MoveAllowed(loop, g);
      ErasedSolves(s, theta, g.env, c);
      NormRigid(free, g.env, c.left);
      NormRigid(free, g.env, c.right);
      if Clash(n.left, n.right) {
        NoSolutionClash(free, g.env, c, n);
      } else {
        var k, t :| Equates(n, k, t) && k in TermVars(t) && !t.Var?;
        NoSolutionOccurs(free, g.env, c, n, k, t);
      }
      assert false;
    }
  }

  lemma HoldsTop(s: Sense, theta: VarKey -> Term, g: Config)
    requires Holds(s, theta, g) && g.pending.Push?
    ensures SameIn(s, theta, g.pending.top)
  {
    var c, rest := g.pending.top, g.pending.below;
    SolvesInAppend(s, theta, Items(rest), [c]);
    SolvesInOne(s, theta, c);
  }

  /** Two binders over different types have no common instance in which the types of binders count. */
  lemma BinderTypesIn(theta: VarKey -> Term, g: Config)
    requires FirstOrderAt(Unification, g) && g.pending.Push? && g.steps > 0 && Settled(g.env, g.pending.top)
    requires MoveFor(Unification, g.env, g.pending.top) == Reject(BinderTypes)
    ensures !Holds(SenseOf(Unification, g.env), theta, g)
  {
    var s, c := SenseOf(Unification, g.env), g.pending.top;
    if Holds(s, theta, g) {
      HoldsTop(s, theta, g);
      MoveAllowed(Unification, g);
      NormIn(s, true, g.env, theta, c.left);
      NormIn(s, true, g.env, theta, c.right);
      NormFixed(g.env, c.left);
      NormFixed(g.env, c.right);
      assert false;
    }
  }

  /** Two atoms of one name and different types have no common instance in which the types of atoms count. */
  lemma TypesDifferIn(theta: VarKey -> Term, g: Config)
    requires FirstOrderAt(Matching, g) && g.pending.Push? && g.steps > 0
    requires Finishes(g.env, g.pending.top.left) && Finishes(g.env, g.pending.top.right)
    requires MoveFor(Matching, g.env, g.pending.top) == Reject(TypesDiffer)
    ensures !Holds(SenseOf(Matching, g.env), theta, g)
  {
    var s, c := SenseOf(Matching, g.env), g.pending.top;
    if Holds(s, theta, g) {
      HoldsTop(s, theta, g);
      MoveAllowed(Matching, g);
      NormIn(s, false, g.env, theta, c.left);
      NormIn(s, false, g.env, theta, c.right);
      EvalIsNormal(g.env, c.left, MAX_STEPS);
      EvalIsNormal(g.env, c.right, MAX_STEPS);
      DifferingAtoms(g.env, NormPair(g.env, c));
      assert false;
    }
  }

  lemma DifferingAtoms(env: Env, n: Pair)
    requires TypesTriangular(env) && MatchMove(env, n.left, n.right) == Reject(TypesDiffer)
    ensures n.left != n.right && (n.left.Const? || n.left.Free?) && Shape(n.left) == Shape(n.right)
  {
  }

  // ---------- the solution an acyclic environment describes ----------

  ghost function ExpandIn(s: Sense, env: Env, t: Term): Term
    requires TermsTriangular(env)
    decreases TermLevel(env, t), t
  {
    match t
    case Const(n, ty) => Const(n, Kept(s.atoms, s, ty))
    case Free(n, ty) => Free(n, Kept(s.atoms, s, ty))
    case Var(n, i, _) =>
      if (n, i) in env.tenv then
        TermLevelOfBinding(env, (n, i), t);
        ExpandIn(s, env, Assigned(env, (n, i)))
      else Var(n, i, DUMMY)
    case Bound(_) => t
    case Abs(_, ty, b) => Abs("", Kept(s.binders, s, ty), ExpandIn(s, env, b))
    case App(f, a) => App(ExpandIn(s, env, f), ExpandIn(s, env, a))
  }

  ghost function SolutionIn(s: Sense, env: Env): VarKey -> Term
    requires TermsTriangular(env)
  {
    (k: VarKey) =>
      if TermsTriangular(env) && k in env.tenv then ExpandIn(s, env, Assigned(env, k)) else Var(k.0, k.1, DUMMY)
  }

  lemma {:induction false} SolutionInExpands(s: Sense, env: Env, t: Term)
    requires TermsTriangular(env)
    ensures InstIn(s, SolutionIn(s, env), t) == ExpandIn(s, env, t)
    decreases t
  {
    match t
    case Abs(_, _, b) => SolutionInExpands(s, env, b);
    case App(f, a) => SolutionInExpands(s, env, f); SolutionInExpands(s, env, a);
    case _ =>
  }

  lemma SolutionInRespects(s: Sense, env: Env)
    requires TermsTriangular(env)
    ensures RespectsIn(s, SolutionIn(s, env), env)
  {
    forall k | k in env.tenv ensures SolutionIn(s, env)(k) == InstIn(s, SolutionIn(s, env), Assigned(env, k)) {
      SolutionInExpands(s, env, Assigned(env, k));
    }
  }

  /** What a loop compares of a term: the types of binders or those of atoms, and never the names of binders. */
  function Compared(loop: Loop, t: Term): Term {
    match t
    case Const(n, ty) => Const(n, if loop.Matching? then ty else DUMMY)
    case Free(n, ty) => Free(n, if loop.Matching? then ty else DUMMY)
    case Var(n, i, _) => Var(n, i, DUMMY)
    case Bound(_) => t
    case Abs(_, ty, b) => Abs("", if loop.Unification? then ty else DUMMY, Compared(loop, b))
    case App(f, a) => App(Compared(loop, f), Compared(loop, a))
  }

  lemma {:induction false} NormalCompared(loop: Loop, env: Env, t: Term)
    requires TypesTriangular(env) && TermsTriangular(env) && Normal(env, t)
    ensures InstIn(SenseOf(loop, env), SolutionIn(SenseOf(loop, env), env), t) == Compared(loop, t)
  {
    match t
    case Abs(_, _, b) => NormalCompared(loop, env, b);
    case App(f, a) => NormalCompared(loop, env, f); NormalCompared(loop, env, a);
    case _ =>
  }

  /** For first-order terms a normalisation that ends gives the instance under that solution, with the types that count. */
  lemma NormIsInstanceIn(loop: Loop, env: Env, t: Term)
    requires TypesTriangular(env) && TermsTriangular(env) && RigidEnv(loop.Unification?, env)
    requires Rigid(loop.Unification?, t) && Finishes(env, t)
    ensures var s := SenseOf(loop, env); Compared(loop, NormTerm(env, t)) == InstIn(s, SolutionIn(s, env), t)
  {
    var s := SenseOf(loop, env);
    SolutionInRespects(s, env);
    NormIn(s, loop.Unification?, env, SolutionIn(s, env), t);
    EvalIsNormal(env, t, MAX_STEPS);
    NormalCompared(loop, env, NormTerm(env, t));
  }
}
