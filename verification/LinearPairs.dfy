/**
 Unification of pairs without repeated variables. Whether a run that succeeds has unified them can be read off the terms:
 it has unless two variables face each other, which the run drops and leaves different.
 */
module LinearPairs {
  import opened Syntax
  import opened WorkStack
  import opened Envir
  import opened Unify
  import opened Moves
  import opened Unifiers
  import opened Patterns
  import opened Matches

  /** Walking over both terms, two variables are met at the same place. */
  predicate Face(l: Term, r: Term) {
    match (l, r)
    case (Var(_, _, _), Var(_, _, _)) => true
    case (Abs(_, _, b), Abs(_, _, c)) => Face(b, c)
    case (App(f, a), App(g, b)) => Face(f, g) || Face(a, b)
    case _ => false
  }

  predicate FaceAny(s: Stack<Pair>) {
    match s
    case Empty => false
    case Push(c, rest) => Face(c.left, c.right) || FaceAny(rest)
  }

  function PairVars(c: Pair): set<VarKey> {
    TermVars(c.left) + TermVars(c.right)
  }

  function PendingVars(s: Stack<Pair>): set<VarKey> {
    match s
    case Empty => {}
    case Push(c, rest) => PairVars(c) + PendingVars(rest)
  }

  predicate LinearPair(c: Pair) {
    Linear(c.left) && Linear(c.right) && TermVars(c.left) !! TermVars(c.right)
  }

  /** First-order pairs in which no variable occurs twice. */
  predicate LinearAll(s: Stack<Pair>) {
    match s
    case Empty => true
    case Push(c, rest) =>
      && LinearPair(c) && Rigid(true, c.left) && Rigid(true, c.right)
      && PairVars(c) !! PendingVars(rest) && LinearAll(rest)
  }

  /** Two different variables without bindings. */
  ghost predicate Apart(env: Env, c: Pair) {
    && c.left.Var? && c.right.Var? && Key(c.left) != Key(c.right)
    && Key(c.left) !in env.tenv && Key(c.right) !in env.tenv
  }

  /** What was dropped since. */
  ghost predicate Dropped(env: Env, before: seq<Pair>, after: seq<Pair>) {
    before <= after && forall i :: |before| <= i < |after| ==> Apart(env, after[i])
  }

  lemma {:induction false} GroundFacesNothing(l: Term, r: Term)
    requires TermVars(l) == {}
    ensures !Face(l, r)
  {
    match (l, r)
    case (Abs(_, _, b), Abs(_, _, c)) => GroundFacesNothing(b, c);
    case (App(f, a), App(g, b)) =>
      assert TermVars(f) <= TermVars(l) && TermVars(a) <= TermVars(l);
      GroundFacesNothing(f, g);
      GroundFacesNothing(a, b);
    case _ =>
  }

  /** A pair whose variables are unbound is normal. */
  lemma PairIsNormal(env: Env, c: Pair)
    requires env.tyenv == map[] && PairVars(c) !! env.tenv.Keys && Rigid(true, c.left) && Rigid(true, c.right)
    ensures TypesTriangular(env) && NormPair(env, c) == c
  {
    PlainIsTame({}, c.left);
    PlainIsTame({}, c.right);
    TameIsNormal(env, c.left);
    TameIsNormal(env, c.right);
    NormalStays(env, c.left);
    NormalStays(env, c.right);
  }

  ghost predicate LinearTask(g: Config) {
    g.env.tyenv == map[] && TermsTriangular(g.env) && LinearAll(g.pending) && PendingVars(g.pending) !! g.env.tenv.Keys
  }

  /** A round drops a pair exactly if it is two variables, and keeps what is pending without repeated variables. */
  lemma RoundFaces(env: Env, rest: Stack<Pair>, c: Pair)
    requires TypesTriangular(env) && env.tyenv == map[] && TermsTriangular(env)
    requires LinearAll(Push(c, rest)) && PendingVars(Push(c, rest)) !! env.tenv.Keys
    requires !UnifyMove(env, c.left, c.right).Reject?
    ensures var m := UnifyMove(env, c.left, c.right);
            && LinearAll(Pushed(rest, c, m)) && PendingVars(Pushed(rest, c, m)) !! After(env, m).tenv.Keys
            && (forall k :: k in PendingVars(Pushed(rest, c, m)) ==> k in PendingVars(Push(c, rest)))
            && (forall k :: k in After(env, m).tenv ==> k in env.tenv || k in PairVars(c))
            && TermsTriangular(After(env, m)) && After(env, m).tyenv == map[]
            && (m.Postpone? ==> Apart(env, c) && After(env, m) == env && Pushed(rest, c, m) == rest)
            && (FaceAny(Push(c, rest)) <==> m.Postpone? || FaceAny(Pushed(rest, c, m)))
  {
    var m := UnifyMove(env, c.left, c.right);
    if c.left == c.right {
      assert TermVars(c.left) == {};
      GroundFacesNothing(c.left, c.right);
    } else if m.Apps? {
      AppsFace(rest, c);
    } else if m.Assign? {
      BindKeepsAcyclic(env, m.k, m.ty, m.t);
    }
  }

  lemma AppsFace(rest: Stack<Pair>, c: Pair)
    requires LinearAll(Push(c, rest)) && c.left.App? && c.right.App?
    ensures var next := Pushed(rest, c, Apps);
            && LinearAll(next) && (FaceAny(next) <==> FaceAny(Push(c, rest)))
            && PendingVars(next) == PendingVars(Push(c, rest))
  {
    var f, a := Pair(c.left.func, c.right.func), Pair(c.left.arg, c.right.arg);
    assert PairVars(c) == PairVars(f) + PairVars(a);
    assert LinearAll(Push(a, rest)) && PendingVars(Push(a, rest)) == PairVars(a) + PendingVars(rest);
    assert FaceAny(Push(a, rest)) == (Face(a.left, a.right) || FaceAny(rest));
  }

  /** What a run on such pairs has dropped when it succeeds. */
  ghost predicate Leaves(g: Config, run: Run) {
    run.end.Success? ==>
      && run.end.env.tyenv == map[] && TermsTriangular(run.end.env)
      && (forall k :: k in run.end.env.tenv ==> k in g.env.tenv || k in PendingVars(g.pending))
      && Dropped(run.end.env, g.trail.flexFlex, run.trail.flexFlex)
      && (|run.trail.flexFlex| > |g.trail.flexFlex| <==> FaceAny(g.pending))
  }

  lemma {:induction false} RunFaces(g: Config)
    requires TypesTriangular(g.env) && LinearTask(g)
    ensures Leaves(g, Running(Unification, g))
    decreases g.steps
  {
    if g.pending.Push? && g.steps > 0 {
      var c, rest := g.pending.top, g.pending.below;
      PairIsNormal(g.env, c);
      var m, next := MoveFor(Unification, g.env, c), Next(Unification, g);
      if !m.Reject? && !m.Conclude? {
        RoundFaces(g.env, rest, c);
        RunFaces(next);
        LeavesBack(g, next, m, Running(Unification, next));
      }
    }
  }

  lemma LeavesBack(g: Config, next: Config, m: Move, run: Run)
    requires g.pending.Push? && LinearTask(g) && Leaves(next, run)
    requires var c, rest := g.pending.top, g.pending.below;
             && (forall k :: k in PendingVars(next.pending) ==> k in PendingVars(g.pending))
             && (forall k :: k in next.env.tenv ==> k in g.env.tenv || k in PairVars(c))
             && (m.Postpone? ==> Apart(g.env, c) && next.env == g.env && next.pending == rest)
             && (FaceAny(g.pending) <==> m.Postpone? || FaceAny(next.pending))
             && next.trail.flexFlex == g.trail.flexFlex + if m.Postpone? then [c] else []
    ensures Leaves(g, run)
  {
    var c, before, mid, after := g.pending.top, g.trail.flexFlex, next.trail.flexFlex, run.trail.flexFlex;
    if run.end.Success? {
      assert before <= mid <= after;
      forall i | |before| <= i < |after| ensures Apart(run.end.env, after[i]) {
        if i < |mid| {
          assert after[i] == mid[i] == c && m.Postpone?;
          assert Key(c.left) in PairVars(c) && Key(c.right) in PairVars(c);
        }
      }
    }
  }

  lemma {:induction false} FaceMember(pairs: seq<Pair>)
    ensures FaceAny(StackOf(pairs)) <==> exists c :: c in pairs && Face(c.left, c.right)
  {
    if pairs != [] {
      FaceMember(pairs[1..]);
      assert pairs == [pairs[0]] + pairs[1..];
    }
  }

  /** Two different unbound variables are not unified. */
  lemma ApartNotUnified(env: Env, c: Pair, pairs: seq<Pair>)
    requires TermsTriangular(env) && Apart(env, c) && c in pairs
    ensures !Unified(env, pairs)
  {
    SolutionRespects(env);
    var theta := Solution(env);
    assert Inst(theta, c.left) != Inst(theta, c.right);
    var i :| 0 <= i < |pairs| && pairs[i] == c;
    assert !Solves(theta, pairs);
  }

  /** A run on first-order pairs without repeated variables that succeeds has unified them exactly if no variables face. */
  lemma LinearUnified(env0: Env, pairs: seq<Pair>, searchBound: nat)
    requires TypesTriangular(env0) && InBounds(env0) && PairsInBounds(pairs, env0.maxidx)
    requires RigidEnv(true, env0) && LinearTask(UnifyConfig(env0, pairs, searchBound))
    requires UnifyRun(env0, pairs, searchBound).end.Success?
    ensures Unified(UnifyRun(env0, pairs, searchBound).end.env, pairs) <==> forall c :: c in pairs ==> !Face(c.left, c.right)
  {
    var g, run := UnifyConfig(env0, pairs, searchBound), UnifyRun(env0, pairs, searchBound);
    RunFaces(g);
    FaceMember(pairs);
    LinearRigid(pairs);
    UnifiedExact(env0, pairs, searchBound);
    if FaceAny(g.pending) {
      var c := run.trail.flexFlex[0];
      ApartNotUnified(run.end.env, c, run.trail.flexFlex);
    } else {
      assert run.trail.flexFlex == [];
    }
  }

  lemma {:induction false} LinearRigid(pairs: seq<Pair>)
    requires LinearAll(StackOf(pairs))
    ensures RigidPairs(true, pairs)
  {
    if pairs != [] {
      LinearRigid(pairs[1..]);
      forall i | 0 < i < |pairs| ensures Rigid(true, pairs[i].left) && Rigid(true, pairs[i].right) {
        assert pairs[1..][i - 1] == pairs[i];
      }
    }
  }
}
