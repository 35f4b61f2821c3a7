/** The unification and matching loops: what whole runs compute, keep and fail for. */
module Unifiers {
  import opened Wrappers
  import opened Syntax
  import opened WorkStack
  import opened Envir
  import opened Unify
  import opened Moves
  import Graph

  datatype Loop = Unification | Matching

  /** The branch a loop takes on a pair, which it normalises first. */
  function MoveFor(loop: Loop, env: Env, c: Pair): Move
    requires TypesTriangular(env)
  {
    var n := NormPair(env, c);
    if loop.Unification? then UnifyMove(env, n.left, n.right) else MatchMove(env, n.left, n.right)
  }

  /** How a run ends: with an environment, the pair that concluded it if one did, and the pairs then still pending. */
  datatype Ending =
    | Success(env: Env, last: Option<Pair>, left: seq<Pair>)
    | Failure(why: Why)

  datatype Run = Run(end: Ending, trail: Trail)

  lemma AfterTriangular(env: Env, m: Move)
    requires TypesTriangular(env)
    ensures TypesTriangular(After(env, m))
  {
    assert TypeMap(After(env, m)) == TypeMap(env);
  }

  /** The pairs of a stack, the top one last. */
  function Items(pending: Stack<Pair>): seq<Pair> {
    match pending
    case Empty => []
    case Push(c, rest) => Items(rest) + [c]
  }

  /** A stack with the first pair on top. */
  function StackOf(pairs: seq<Pair>): Stack<Pair> {
    if pairs == [] then Empty else Push(pairs[0], StackOf(pairs[1..]))
  }

  /** The stack after a round that goes on: of two applications the functions are compared first. */
  function Pushed(rest: Stack<Pair>, n: Pair, m: Move): Stack<Pair> {
    match m
    case Apps =>
      if n.left.App? && n.right.App? then Push(Pair(n.left.func, n.right.func), Push(Pair(n.left.arg, n.right.arg), rest))
      else rest
    case Abss => if n.left.Abs? && n.right.Abs? then Push(Pair(n.left.body, n.right.body), rest) else rest
    case Retry(p) => Push(p, rest)
    case _ => rest
  }

  lemma PushedItems(rest: Stack<Pair>, n: Pair, m: Move)
    ensures Items(Pushed(rest, n, m)) == Items(rest) + News(n, m)
  {
  }

  lemma {:induction false} StackOfItems(pairs: seq<Pair>)
    ensures forall c :: c in Items(StackOf(pairs)) <==> c in pairs
  {
    if pairs != [] {
      StackOfItems(pairs[1..]);
      assert pairs == [pairs[0]] + pairs[1..];
    }
  }

  /** The pairs are taken in their order. */
  lemma {:induction false} StackInOrder(pairs: seq<Pair>, i: nat)
    requires i < |pairs|
    ensures |Items(StackOf(pairs))| == |pairs| && Items(StackOf(pairs))[|pairs| - 1 - i] == pairs[i]
  {
    if |pairs| == 1 {
      assert pairs[1..] == [];
    } else {
      StackInOrder(pairs[1..], if i == 0 then 0 else i - 1);
    }
  }

  /** The nodes of all right sides. */
  function RightSize(s: Stack<Pair>): nat {
    match s
    case Empty => 0
    case Push(c, rest) => Size(c.right) + RightSize(rest)
  }

  /** Where a run stands before a round. */
  datatype Config = Config(env: Env, pending: Stack<Pair>, steps: nat, trail: Trail)

  /** The configuration after a round. */
  ghost function Next(loop: Loop, g: Config): (next: Config)
    requires TypesTriangular(g.env) && g.pending.Push? && g.steps > 0
    ensures TypesTriangular(next.env)
  {
    var c := g.pending.top;
    var m := MoveFor(loop, g.env, c);
    AfterTriangular(g.env, m);
    Config(After(g.env, m), Pushed(g.pending.below, NormPair(g.env, c), m), g.steps - 1, NextTrail(g.env, c, m, g.trail))
  }

  /** The whole run of a loop: the pair on top is taken next, and each round costs a step. */
  ghost function Running(loop: Loop, g: Config): Run
    requires TypesTriangular(g.env)
    decreases g.steps
  {
    if g.pending.Empty? then Run(Success(g.env, None, []), g.trail)
    else if g.steps == 0 then Run(Failure(OutOfSteps), g.trail)
    else
      var m, next := MoveFor(loop, g.env, g.pending.top), Next(loop, g);
      if m.Reject? then Run(Failure(m.why), next.trail)
      else if m.Conclude? then
        Run(Success(next.env, Some(NormPair(g.env, g.pending.top)), Items(g.pending.below)), next.trail)
      else Running(loop, next)
  }

  function Answer(end: Ending): Option<Env> {
    if end.Success? then Some(end.env) else None
  }

  const START: Trail := Trail([], true)
  const MATCH_STEPS: nat := 2000

  function UnifyConfig(env0: Env, pairs: seq<Pair>, searchBound: nat): Config {
    Config(env0, StackOf(pairs), searchBound * 10, START)
  }

  function MatchConfig(env0: Env, pat: Term, obj: Term): Config {
    Config(env0, Push(Pair(pat, obj), Empty), MATCH_STEPS, START)
  }

  /** The run on the pairs in their order. */
  ghost function UnifyRun(env0: Env, pairs: seq<Pair>, searchBound: nat): Run
    requires TypesTriangular(env0)
  {
    Running(Unification, UnifyConfig(env0, pairs, searchBound))
  }

  ghost function MatchRun(env0: Env, pat: Term, obj: Term): Run
    requires TypesTriangular(env0)
  {
    Running(Matching, MatchConfig(env0, pat, obj))
  }

  ghost predicate Within(env0: Env, g: Config) {
    Working(env0, g.env, Items(g.pending))
  }

  /** A round keeps a run within its bounds. */
  lemma RoundWorks(loop: Loop, env0: Env, g: Config)
    requires Within(env0, g) && g.pending.Push? && g.steps > 0
    ensures Within(env0, Next(loop, g))
    ensures var m := MoveFor(loop, g.env, g.pending.top); m.Assign? || m.Conclude? ==> m.k.1 <= g.env.maxidx
  {
    var c, rest := g.pending.top, g.pending.below;
    var n := NormPair(g.env, c);
    var m := MoveFor(loop, g.env, c);
    WorkingPop(env0, g.env, Items(rest), c);
    if loop.Unification? { UnifyMoveIsRight(env0, g.env, Items(rest), c); } else { MatchMoveIsHarmless(g.env, n); }
    MoveWorks(env0, g.env, Items(rest), c, m);
    PushedItems(rest, n, m);
  }

  /** What a loop still has to compute. */
  ghost function Rest(loop: Loop, g: Config): Run
    requires TypesTriangular(g.env)
  {
    Running(loop, g)
  }

  lemma RoundTaken(loop: Loop, g: Config)
    requires TypesTriangular(g.env) && g.pending.Push? && g.steps > 0
    ensures var m := MoveFor(loop, g.env, g.pending.top);
            if m.Reject? then Answer(Rest(loop, g).end) == None
            else if m.Conclude? then Answer(Rest(loop, g).end) == Some(Next(loop, g).env)
            else Rest(loop, g) == Rest(loop, Next(loop, g))
    ensures loop.Unification? ==> !MoveFor(loop, g.env, g.pending.top).Conclude?
  {
  }

  // ---------- the loops ----------

  /** Normalises a pair, takes a branch and makes the binding that branch asks for. */
  method TakeRound(loop: Loop, env: Envir, c: Pair) returns (n: Pair, m: Move)
    requires TypesTriangular(env.View())
    requires var m := MoveFor(loop, env.View(), c); m.Assign? || m.Conclude? ==> m.k.1 <= env.maxidx
    modifies env`tenv
    ensures n == NormPair(old(env.View()), c) && m == MoveFor(loop, old(env.View()), c)
    ensures env.View() == After(old(env.View()), m)
  {
    var left := env.NormTermIter(c.left);
    var right := env.NormTermIter(c.right);
    n := Pair(left, right);
    if loop.Unification? {
      m := UnifyBranch(env, left, right);
    } else {
      m := MatchBranch(env, left, right);
    }
    if m.Assign? || m.Conclude? {
      env.Update(m.k.0, m.k.1, m.ty, m.t);
    }
  }

  method UnifyDpairs(env0: Env, pairs: seq<Pair>, searchBound: nat) returns (r: Option<Env>)
    requires TypesTriangular(env0) && InBounds(env0) && PairsInBounds(pairs, env0.maxidx)
    ensures r == Answer(UnifyRun(env0, pairs, searchBound).end)
  {
    var env := new Envir(env0);
    var stack := StackOf(pairs);
    var steps: nat := searchBound * 10;
    ghost var g := UnifyConfig(env0, pairs, searchBound);
    ghost var run := UnifyRun(env0, pairs, searchBound);
    StackInBounds(pairs, env0.maxidx);
    while stack.Push?
      invariant fresh(env) && g.env == env.View() && g.pending == stack && g.steps == steps
      invariant Within(env0, g) && run == Rest(Unification, g)
      decreases steps
    {
      var c, rest := stack.top, stack.below;
      if steps == 0 { return None; }
      RoundWorks(Unification, env0, g);
      RoundTaken(Unification, g);
      var n, m := TakeRound(Unification, env, c);
      if m.Reject? { return None; }
      stack, steps, g := Pushed(rest, n, m), steps - 1, Next(Unification, g);
    }
    r := Some(env.View());
  }

  lemma StackInBounds(pairs: seq<Pair>, m: nat)
    requires PairsInBounds(pairs, m)
    ensures PairsInBounds(Items(StackOf(pairs)), m)
  {
    StackOfItems(pairs);
    forall i | 0 <= i < |Items(StackOf(pairs))|
      ensures IndexUpTo(Items(StackOf(pairs))[i].left, m) && IndexUpTo(Items(StackOf(pairs))[i].right, m)
    {
      assert Items(StackOf(pairs))[i] in pairs;
    }
  }

  /** Unifies the pairs in order. */
  method Unifiers(env0: Env, pairs: seq<Pair>, searchBound: nat) returns (r: Option<Env>)
    requires TypesTriangular(env0) && InBounds(env0) && PairsInBounds(pairs, env0.maxidx)
    ensures r == Answer(UnifyRun(env0, pairs, searchBound).end)
  {
    r := UnifyDpairs(env0, pairs, searchBound);
  }

  method MatchPattern(env0: Env, pat: Term, obj: Term) returns (r: Option<Env>)
    requires TypesTriangular(env0) && InBounds(env0) && IndexUpTo(pat, env0.maxidx) && IndexUpTo(obj, env0.maxidx)
    ensures r == Answer(MatchRun(env0, pat, obj).end)
  {
    var env := new Envir(env0);
    var frames: Stack<Pair> := Push(Pair(pat, obj), Empty);
    var steps: nat := MATCH_STEPS;
    ghost var g := MatchConfig(env0, pat, obj);
    ghost var run := MatchRun(env0, pat, obj);
    assert Items(frames) == [Pair(pat, obj)];
    while frames.Push?
      invariant fresh(env) && g.env == env.View() && g.pending == frames && g.steps == steps
      invariant Within(env0, g) && run == Rest(Matching, g)
      decreases steps
    {
      var c, rest := frames.top, frames.below;
      if steps == 0 { return None; }
      RoundWorks(Matching, env0, g);
      RoundTaken(Matching, g);
      var n, m := TakeRound(Matching, env, c);
      if m.Reject? { return None; }
      if m.Conclude? { return Some(env.View()); }
      frames, steps, g := Pushed(rest, n, m), steps - 1, Next(Matching, g);
    }
    r := Some(env.View());
  }

  /** Matches a pattern against an object. */
  method Matchers(env0: Env, pat: Term, obj: Term) returns (r: Option<Env>)
    requires TypesTriangular(env0) && InBounds(env0) && IndexUpTo(pat, env0.maxidx) && IndexUpTo(obj, env0.maxidx)
    ensures r == Answer(MatchRun(env0, pat, obj).end)
  {
    r := MatchPattern(env0, pat, obj);
  }

  // ---------- what every run keeps ----------

  /** What is known of the end of a run that started from `all`. */
  ghost predicate Outcome(free: bool, env0: Env, all: seq<Pair>, run: Run) {
    match run.end
    case Success(env, last, left) =>
      && State(free, env0, all, env, left, run.trail)
      && (last.None? ==> left == []) && (last.Some? ==> !RigidProblem(free, env0, all))
    case Failure(why) => why == Clashed && RigidProblem(free, env0, all) ==> Hopeless(env0, all)
  }

  /** Only unification lets a free variable head an application of a first-order problem. */
  ghost predicate StateAt(loop: Loop, env0: Env, all: seq<Pair>, g: Config) {
    State(loop.Unification?, env0, all, g.env, Items(g.pending), g.trail)
  }

  lemma RoundKeeps(loop: Loop, env0: Env, all: seq<Pair>, g: Config)
    requires StateAt(loop, env0, all, g) && g.pending.Push? && g.steps > 0
    ensures var m := MoveFor(loop, g.env, g.pending.top);
            if m.Reject? then m.why == Clashed && RigidProblem(loop.Unification?, env0, all) ==> Hopeless(env0, all)
            else StateAt(loop, env0, all, Next(loop, g)) && (m.Conclude? ==> !RigidProblem(loop.Unification?, env0, all))
  {
    var c, rest := g.pending.top, g.pending.below;
    PushedItems(rest, NormPair(g.env, c), MoveFor(loop, g.env, c));
    if loop.Unification? {
      UnifyRound(env0, all, g.env, Items(rest), c, g.trail);
    } else {
      MatchRound(env0, all, g.env, Items(rest), c, g.trail);
    }
  }

  lemma {:induction false} RunKeeps(loop: Loop, env0: Env, all: seq<Pair>, g: Config)
    requires TypesTriangular(g.env) && StateAt(loop, env0, all, g)
    ensures Outcome(loop.Unification?, env0, all, Running(loop, g))
    decreases g.steps
  {
    if g.pending.Push? && g.steps > 0 {
      RoundKeeps(loop, env0, all, g);
      var m := MoveFor(loop, g.env, g.pending.top);
      if !m.Reject? && !m.Conclude? { RunKeeps(loop, env0, all, Next(loop, g)); }
    }
  }

  lemma StackStart(env0: Env, pairs: seq<Pair>)
    requires TypesTriangular(env0) && InBounds(env0) && PairsInBounds(pairs, env0.maxidx)
    ensures State(true, env0, pairs, env0, Items(StackOf(pairs)), START)
  {
    var items := Items(StackOf(pairs));
    StackOfItems(pairs);
    StackInBounds(pairs, env0.maxidx);
    forall theta: VarKey -> Term ensures Solves(theta, items) <==> Solves(theta, pairs) {
      SolvesMembers(theta, items, pairs);
    }
    if RigidPairs(true, pairs) {
      forall i | 0 <= i < |items| ensures Rigid(true, items[i].left) && Rigid(true, items[i].right) {
        assert items[i] in pairs;
      }
    }
  }

  lemma SolvesMembers(theta: VarKey -> Term, a: seq<Pair>, b: seq<Pair>)
    requires forall c :: c in a <==> c in b
    ensures Solves(theta, a) <==> Solves(theta, b)
  {
    if Solves(theta, a) {
      forall i | 0 <= i < |b| ensures Inst(theta, b[i].left) == Inst(theta, b[i].right) { assert b[i] in a; }
    }
    if Solves(theta, b) {
      forall i | 0 <= i < |a| ensures Inst(theta, a[i].left) == Inst(theta, a[i].right) { assert a[i] in b; }
    }
  }

  lemma UnifyOutcome(env0: Env, pairs: seq<Pair>, searchBound: nat)
    requires TypesTriangular(env0) && InBounds(env0) && PairsInBounds(pairs, env0.maxidx)
    ensures Outcome(true, env0, pairs, UnifyRun(env0, pairs, searchBound))
  {
    StackStart(env0, pairs);
    RunKeeps(Unification, env0, pairs, UnifyConfig(env0, pairs, searchBound));
  }

  function Reasons(loop: Loop): set<Why> {
    if loop.Unification? then {Clashed, BinderTypes, OutOfSteps}
    else {Clashed, TypesDiffer, ObjectVariable, AlreadyBound, AppliedOccurs, OutOfSteps}
  }

  /** Unification never concludes early and matching drops no pair; each fails for the reasons listed only. */
  lemma {:induction false} RunOnly(loop: Loop, g: Config)
    requires TypesTriangular(g.env)
    ensures var run := Running(loop, g);
            && (run.end.Failure? ==> run.end.why in Reasons(loop))
            && (run.end.Success? && loop.Unification? ==> run.end.last.None? && run.end.left == [])
            && (loop.Matching? ==> run.trail.flexFlex == g.trail.flexFlex)
    decreases g.steps
  {
    if g.pending.Push? && g.steps > 0 {
      var m := MoveFor(loop, g.env, g.pending.top);
      if !m.Reject? && !m.Conclude? { RunOnly(loop, Next(loop, g)); }
    }
  }

  /**
   Unification keeps types and bounds, and an acyclic environment acyclic if every normalisation ended within its
   budget. For first-order problems its bindings, together with the pairs of two variables that were dropped, have exactly
   the solutions of the original pairs, and pairs that were solved have equal normal forms.
   */
  lemma UnifiersRight(env0: Env, pairs: seq<Pair>, searchBound: nat)
    requires TypesTriangular(env0) && InBounds(env0) && PairsInBounds(pairs, env0.maxidx)
    requires UnifyRun(env0, pairs, searchBound).end.Success?
    ensures var run := UnifyRun(env0, pairs, searchBound);
            var env := run.end.env;
            && env.tyenv == env0.tyenv && env.maxidx == env0.maxidx && TypesTriangular(env) && InBounds(env)
            && FlexFlex(run.trail.flexFlex)
            && (run.trail.finished && TermsTriangular(env0) ==> TermsTriangular(env))
            && (RigidProblem(true, env0, pairs) ==> Equivalent(env0, pairs, env, [], run.trail.flexFlex))
            && (RigidProblem(true, env0, pairs) && run.trail.flexFlex == [] && TermsTriangular(env) ==>
                  forall i :: 0 <= i < |pairs| && Finishes(env, pairs[i].left) && Finishes(env, pairs[i].right) ==>
                    Shape(NormTerm(env, pairs[i].left)) == Shape(NormTerm(env, pairs[i].right)))
  {
    var run := UnifyRun(env0, pairs, searchBound);
    var env := run.end.env;
    UnifyOutcome(env0, pairs, searchBound);
    RunOnly(Unification, UnifyConfig(env0, pairs, searchBound));
    if RigidProblem(true, env0, pairs) && run.trail.flexFlex == [] && TermsTriangular(env) {
      forall i | 0 <= i < |pairs| && Finishes(env, pairs[i].left) && Finishes(env, pairs[i].right)
        ensures Shape(NormTerm(env, pairs[i].left)) == Shape(NormTerm(env, pairs[i].right))
      {
        SolvedPairsAgree(true, env0, pairs, env, i);
      }
    }
  }

  /** Whatever is put in place of the variables still unbound, both sides of every pair become the same. */
  ghost predicate Unified(env: Env, pairs: seq<Pair>) {
    forall theta: VarKey -> Term :: Respects(theta, env) ==> Solves(theta, pairs)
  }

  /** A first-order problem whose run succeeds is unified exactly if the pairs it dropped are. */
  lemma UnifiedExact(env0: Env, pairs: seq<Pair>, searchBound: nat)
    requires TypesTriangular(env0) && InBounds(env0) && PairsInBounds(pairs, env0.maxidx)
    requires RigidProblem(true, env0, pairs) && UnifyRun(env0, pairs, searchBound).end.Success?
    ensures var run := UnifyRun(env0, pairs, searchBound);
            Unified(run.end.env, pairs) <==> Unified(run.end.env, run.trail.flexFlex)
  {
    UnifiersRight(env0, pairs, searchBound);
    var run := UnifyRun(env0, pairs, searchBound);
    forall theta: VarKey -> Term | Respects(theta, run.end.env)
      ensures Solves(theta, pairs) <==> Solves(theta, run.trail.flexFlex)
    {
      assert Respects(theta, env0) && Solves(theta, []);
    }
  }

  lemma UnifiedEach(env: Env, pairs: seq<Pair>)
    ensures Unified(env, pairs) <==> forall c :: c in pairs ==> Unified(env, [c])
  {
    forall theta: VarKey -> Term, c | Solves(theta, pairs) && c in pairs ensures Solves(theta, [c]) {
      var i :| 0 <= i < |pairs| && pairs[i] == c;
    }
    if forall c :: c in pairs ==> Unified(env, [c]) {
      forall theta: VarKey -> Term | Respects(theta, env) ensures Solves(theta, pairs) {
        forall i | 0 <= i < |pairs| ensures Inst(theta, pairs[i].left) == Inst(theta, pairs[i].right) {
          assert Unified(env, [pairs[i]]) && [pairs[i]][0] == pairs[i];
        }
      }
    }
  }

  /** Within the budget, first-order pairs are unified exactly if the normal forms of both sides have the same shape. */
  lemma UnifiedNormalForms(env: Env, c: Pair)
    requires TypesTriangular(env) && TermsTriangular(env) && RigidEnv(true, env)
    requires Rigid(true, c.left) && Rigid(true, c.right) && Finishes(env, c.left) && Finishes(env, c.right)
    ensures Unified(env, [c]) <==> Shape(NormTerm(env, c.left)) == Shape(NormTerm(env, c.right))
  {
    assert [c][0] == c;
    NormIsInstance(true, env, c.left);
    NormIsInstance(true, env, c.right);
    if Unified(env, [c]) {
      SolutionRespects(env);
      assert Solves(Solution(env), [c]);
    } else {
      var theta: VarKey -> Term :| Respects(theta, env) && !Solves(theta, [c]);
      NormRigid(true, env, c.left);
      NormRigid(true, env, c.right);
      InstOfShape(theta, NormTerm(env, c.left));
      InstOfShape(theta, NormTerm(env, c.right));
    }
  }

  /** A failure is a clash, two different binder types or an exhausted bound; a first-order clash has no solution. */
  lemma UnifiersFail(env0: Env, pairs: seq<Pair>, searchBound: nat)
    requires TypesTriangular(env0) && InBounds(env0) && PairsInBounds(pairs, env0.maxidx)
    requires UnifyRun(env0, pairs, searchBound).end.Failure?
    ensures var why := UnifyRun(env0, pairs, searchBound).end.why;
            && why in {Clashed, BinderTypes, OutOfSteps}
            && (why == Clashed && RigidProblem(true, env0, pairs) ==> Hopeless(env0, pairs))
  {
    UnifyOutcome(env0, pairs, searchBound);
    RunOnly(Unification, UnifyConfig(env0, pairs, searchBound));
  }

  lemma MatchOutcome(env0: Env, pat: Term, obj: Term)
    requires TypesTriangular(env0) && InBounds(env0) && IndexUpTo(pat, env0.maxidx) && IndexUpTo(obj, env0.maxidx)
    ensures Outcome(false, env0, [Pair(pat, obj)], MatchRun(env0, pat, obj))
    ensures MatchRun(env0, pat, obj).trail.flexFlex == []
  {
    var g := MatchConfig(env0, pat, obj);
    assert Items(g.pending) == [Pair(pat, obj)];
    RunKeeps(Matching, env0, [Pair(pat, obj)], g);
    RunOnly(Matching, g);
  }

  /**
   Matching keeps types and bounds, and an acyclic environment acyclic if every normalisation ended within its budget. If
   no application in the pattern, the object or the environment has a variable, a free variable or an abstraction as its
   function, the bindings have exactly the solutions of the equation of the pattern with the object, and the pattern
   normalises to a variable-free object.
   */
  lemma MatchersRight(env0: Env, pat: Term, obj: Term)
    requires TypesTriangular(env0) && InBounds(env0) && IndexUpTo(pat, env0.maxidx) && IndexUpTo(obj, env0.maxidx)
    requires MatchRun(env0, pat, obj).end.Success?
    ensures var run := MatchRun(env0, pat, obj);
            var env := run.end.env;
            && env.tyenv == env0.tyenv && env.maxidx == env0.maxidx && TypesTriangular(env) && InBounds(env)
            && (run.trail.finished && TermsTriangular(env0) ==> TermsTriangular(env))
            && (RigidProblem(false, env0, [Pair(pat, obj)]) ==> Equivalent(env0, [Pair(pat, obj)], env, [], []))
            && (RigidProblem(false, env0, [Pair(pat, obj)]) && TermVars(obj) == {} && TermsTriangular(env) ==>
                  Finishes(env, pat) ==> Shape(NormTerm(env, pat)) == Shape(obj))
  {
    var env := MatchRun(env0, pat, obj).end.env;
    MatchOutcome(env0, pat, obj);
    assert [Pair(pat, obj)][0] == Pair(pat, obj);
    if RigidProblem(false, env0, [Pair(pat, obj)]) && TermVars(obj) == {} && TermsTriangular(env) && Finishes(env, pat) {
      MatchedPatternIsObject(env0, pat, obj, env);
    }
  }

  /** A first-order match that fails on a clash has no solution. */
  lemma MatchersFail(env0: Env, pat: Term, obj: Term)
    requires TypesTriangular(env0) && InBounds(env0) && IndexUpTo(pat, env0.maxidx) && IndexUpTo(obj, env0.maxidx)
    requires MatchRun(env0, pat, obj).end == Failure(Clashed) && RigidProblem(false, env0, [Pair(pat, obj)])
    ensures Hopeless(env0, [Pair(pat, obj)])
  {
    MatchOutcome(env0, pat, obj);
  }

  lemma {:induction false} FinishedStays(loop: Loop, g: Config)
    requires TypesTriangular(g.env) && Running(loop, g).trail.finished
    ensures g.trail.finished
    ensures g.pending.Push? && g.steps > 0 ==> Finishes(g.env, g.pending.top.left) && Finishes(g.env, g.pending.top.right)
    decreases g.steps
  {
    if g.pending.Push? && g.steps > 0 {
      var m := MoveFor(loop, g.env, g.pending.top);
      if !m.Reject? && !m.Conclude? { FinishedStays(loop, Next(loop, g)); }
    }
  }

  // ---------- variable-free right sides ----------

  ghost predicate GroundRight(ps: seq<Pair>) {
    forall i :: 0 <= i < |ps| ==> TermVars(ps[i].right) == {}
  }

  ghost predicate GroundEnv(env: Env) {
    forall k :: k in env.tenv ==> TermVars(Assigned(env, k)) == {}
  }

  /** Against a variable-free side, a round binds variable-free terms only and postpones nothing. */
  ghost predicate GroundMove(n: Pair, m: Move) {
    !m.Postpone? && (m.Assign? || m.Conclude? ==> TermVars(m.t) == {}) && GroundRight(News(n, m))
  }

  lemma GroundParts(t: Term)
    requires TermVars(t) == {}
    ensures t.App? ==> TermVars(t.func) == {} && TermVars(t.arg) == {}
    ensures t.Abs? ==> TermVars(t.body) == {}
  {
    if t.App? { assert TermVars(t.func) <= TermVars(t) && TermVars(t.arg) <= TermVars(t); }
  }

  lemma UnifyGround(env: Env, n: Pair)
    requires TypesTriangular(env) && TermVars(n.right) == {}
    ensures GroundMove(n, UnifyMove(env, n.left, n.right))
  {
    GroundParts(n.right);
    assert TermVars(IDENTITY) == {};
  }

  lemma MatchGround(env: Env, n: Pair)
    requires TermVars(n.right) == {}
    ensures GroundMove(n, MatchMove(env, n.left, n.right))
  {
    GroundParts(n.right);
    if n.left.App? && CollectBoundArgs(n.left).Some? { AbstractArgsVars(CollectBoundArgs(n.left).value, n.right, 0); }
  }

  lemma RoundGround(loop: Loop, env: Env, front: seq<Pair>, c: Pair)
    requires TypesTriangular(env) && GroundRight(front + [c])
    ensures var n, m := NormPair(env, c), MoveFor(loop, env, c);
            TermVars(n.right) == {} && GroundMove(n, m) && GroundRight(front + News(n, m))
  {
    var before := front + [c];
    assert before[|front|] == c;
    NormGround(env, c.right);
    if loop.Unification? { UnifyGround(env, NormPair(env, c)); } else { MatchGround(env, NormPair(env, c)); }
    forall i | 0 <= i < |front| ensures TermVars(front[i].right) == {} { assert before[i] == front[i]; }
  }

  /** A variable-free binding keeps an acyclic environment acyclic, whatever was bound before. */
  lemma GroundBindAcyclic(env: Env, k: VarKey, ty: Typ, t: Term)
    requires TermsTriangular(env) && TermVars(t) == {}
    ensures TermsTriangular(Bind(env, k, ty, t))
  {
    BindEdges(env, k, ty, t);
    Graph.RedirectToSinks(TermEdges(env), k, {});
  }

  lemma GroundBind(env: Env, k: VarKey, ty: Typ, t: Term)
    requires GroundEnv(env) && TermVars(t) == {}
    ensures GroundEnv(Bind(env, k, ty, t))
  {
    var env' := Bind(env, k, ty, t);
    forall j | j in env'.tenv ensures TermVars(Assigned(env', j)) == {} {
      if j != k { assert Assigned(env', j) == Assigned(env, j); }
    }
  }

  /** What a run keeps of the environment against variable-free right sides. */
  ghost predicate GroundKept(env: Env, env': Env) {
    (TermsTriangular(env) ==> TermsTriangular(env')) && (GroundEnv(env) ==> GroundEnv(env'))
  }

  lemma GroundAfter(env: Env, n: Pair, m: Move)
    requires GroundMove(n, m)
    ensures GroundKept(env, After(env, m))
  {
    if m.Assign? || m.Conclude? {
      if TermsTriangular(env) { GroundBindAcyclic(env, m.k, m.ty, m.t); }
      if GroundEnv(env) { GroundBind(env, m.k, m.ty, m.t); }
    }
  }

  /**
   Against variable-free right sides, an acyclic environment stays acyclic whether or not a normalisation ran out of its
   budget, variable-free bindings stay variable-free, and no pair is dropped.
   */
  lemma {:induction false} GroundRun(loop: Loop, g: Config)
    requires TypesTriangular(g.env) && GroundRight(Items(g.pending))
    ensures Running(loop, g).trail.flexFlex == g.trail.flexFlex
    ensures Running(loop, g).end.Success? ==> GroundKept(g.env, Running(loop, g).end.env)
    decreases g.steps
  {
    if g.pending.Push? && g.steps > 0 {
      var c, rest := g.pending.top, g.pending.below;
      var n, m := NormPair(g.env, c), MoveFor(loop, g.env, c);
      RoundGround(loop, g.env, Items(rest), c);
      PushedItems(rest, n, m);
      GroundAfter(g.env, n, m);
      if !m.Reject? && !m.Conclude? { GroundRun(loop, Next(loop, g)); }
    }
  }

  /** For matching against a variable-free object: acyclicity is kept unconditionally. */
  lemma GroundMatch(env0: Env, pat: Term, obj: Term)
    requires TypesTriangular(env0) && TermVars(obj) == {} && MatchRun(env0, pat, obj).end.Success?
    ensures TermsTriangular(env0) ==> TermsTriangular(MatchRun(env0, pat, obj).end.env)
    ensures GroundEnv(env0) ==> GroundEnv(MatchRun(env0, pat, obj).end.env)
  {
    assert Items(MatchConfig(env0, pat, obj).pending) == [Pair(pat, obj)];
    GroundRun(Matching, MatchConfig(env0, pat, obj));
  }

  /** For unification with variable-free right sides: the same, and no pair of variables is dropped. */
  lemma GroundUnify(env0: Env, pairs: seq<Pair>, searchBound: nat)
    requires TypesTriangular(env0) && GroundRight(pairs)
    ensures UnifyRun(env0, pairs, searchBound).trail.flexFlex == []
    ensures UnifyRun(env0, pairs, searchBound).end.Success? && TermsTriangular(env0) ==>
              TermsTriangular(UnifyRun(env0, pairs, searchBound).end.env)
  {
    StackOfItems(pairs);
    forall i | 0 <= i < |Items(StackOf(pairs))| ensures TermVars(Items(StackOf(pairs))[i].right) == {} {
      assert Items(StackOf(pairs))[i] in pairs;
    }
    GroundRun(Unification, UnifyConfig(env0, pairs, searchBound));
  }

  /** A first-order problem against variable-free right sides. */
  ghost predicate GroundProblem(env: Env, ps: seq<Pair>) {
    RigidProblem(false, env, ps) && GroundRight(ps)
  }

  /** A round of a first-order match against a variable-free object, within the budget. */
  lemma GroundMatchRound(env: Env, front: seq<Pair>, c: Pair)
    requires TypesTriangular(env) && GroundProblem(env, front + [c]) && Finishes(env, c.left)
    ensures var n := NormPair(env, c);
            var m := MatchMove(env, n.left, n.right);
            if m.Reject? then m.why in {Clashed, TypesDiffer}
            else !m.Conclude? && GroundProblem(After(env, m), front + News(n, m))
  {
    var n := NormPair(env, c);
    var m := MatchMove(env, n.left, n.right);
    RigidAfter(false, front, c, []);
    NormRigid(false, env, c.left);
    NormRigid(false, env, c.right);
    NormUnboundVars(env, c.left);
    RoundGround(Matching, env, front, c);
    if n.left.App? { RigidHasNoArgs(n.left); }
    if n.left.Var? { assert (n.left.name, n.left.index) in TermVars(n.left); }
    if !m.Reject? {
      MatchMoveIsRight(env, n);
      MoveExchanges(false, env, c, m);
      RigidAfter(false, front, c, News(n, m));
    }
  }

  /** Why a first-order match against a variable-free object can fail, if every normalisation ended within its budget. */
  lemma {:induction false} MatchFailsFor(g: Config)
    requires TypesTriangular(g.env) && GroundProblem(g.env, Items(g.pending))
    requires Running(Matching, g).end.Failure? && Running(Matching, g).trail.finished
    ensures Running(Matching, g).end.why in {Clashed, TypesDiffer, OutOfSteps}
    decreases g.steps
  {
    if g.pending.Push? && g.steps > 0 {
      var c, rest := g.pending.top, g.pending.below;
      FinishedStays(Matching, g);
      GroundMatchRound(g.env, Items(rest), c);
      PushedItems(rest, NormPair(g.env, c), MoveFor(Matching, g.env, c));
      if !MoveFor(Matching, g.env, c).Reject? { MatchFailsFor(Next(Matching, g)); }
    }
  }

  /** Within the budget, a first-order match against a variable-free object fails on a clash, on types, or out of steps. */
  lemma MatchersFailFor(env0: Env, pat: Term, obj: Term)
    requires TypesTriangular(env0) && RigidEnv(false, env0) && Rigid(false, pat) && Rigid(false, obj) && TermVars(obj) == {}
    requires MatchRun(env0, pat, obj).end.Failure? && MatchRun(env0, pat, obj).trail.finished
    ensures MatchRun(env0, pat, obj).end.why in {Clashed, TypesDiffer, OutOfSteps}
  {
    assert Items(MatchConfig(env0, pat, obj).pending) == [Pair(pat, obj)];
    MatchFailsFor(MatchConfig(env0, pat, obj));
  }

  // ---------- small matches end within the budget ----------

  lemma GroundIsAcyclic(env: Env)
    requires GroundEnv(env)
    ensures TermsTriangular(env)
  {
    var rank: VarKey -> nat := (k: VarKey) => 0;
    forall k | k in env.tenv ensures TermEdges(env)[k] == {} { assert TermVars(Assigned(env, k)) == {}; }
    assert Graph.Ranked(TermEdges(env), rank);
  }

  /** Steps that are enough for a first-order term, if bindings are variable-free. */
  function Cost(env: Env, t: Term): nat {
    match t
    case Var(n, i, _) => if (n, i) in env.tenv then 1 + 2 * Size(Assigned(env, (n, i))) else 1
    case Abs(_, _, b) => 2 + Cost(env, b)
    case App(f, a) => 2 + Cost(env, f) + Cost(env, a)
    case _ => 1
  }

  lemma {:induction false} GroundCost(env: Env, t: Term)
    requires TermVars(t) == {}
    ensures Cost(env, t) <= 2 * Size(t)
  {
    match t
    case Abs(_, _, b) => GroundCost(env, b);
    case App(f, a) =>
      assert TermVars(f) <= TermVars(t) && TermVars(a) <= TermVars(t);
      GroundCost(env, f);
      GroundCost(env, a);
    case _ =>
  }

  lemma {:induction false} RigidEvaluates(free: bool, env: Env, t: Term, fuel: nat)
    requires TypesTriangular(env) && RigidEnv(free, env) && GroundEnv(env) && Rigid(free, t) && fuel >= Cost(env, t)
    ensures Eval(env, t, fuel).Some? && Eval(env, t, fuel).value.1 >= fuel - Cost(env, t)
    decreases fuel
  {
    match t
    case Var(n, i, _) =>
      if (n, i) in env.tenv {
        GroundCost(env, Assigned(env, (n, i)));
        RigidEvaluates(free, env, Assigned(env, (n, i)), fuel - 1);
      }
    case Abs(_, _, b) => RigidEvaluates(free, env, b, fuel - 1);
    case App(f, a) =>
      RigidEvaluates(free, env, f, fuel - 1);
      EvalRigid(free, env, f, fuel - 1);
      RigidEvaluates(free, env, a, Eval(env, f, fuel - 1).value.1);
    case _ =>
  }

  lemma {:induction false} ShapeSize(t: Term)
    ensures Size(Shape(t)) == Size(t)
  {
    match t
    case Abs(_, _, b) => ShapeSize(b);
    case App(f, a) => ShapeSize(f); ShapeSize(a);
    case _ =>
  }

  lemma {:induction false} CostOfInstance(env: Env, theta: VarKey -> Term, t: Term)
    requires GroundEnv(env) && Respects(theta, env)
    ensures Cost(env, t) <= Size(t) + 2 * Size(Inst(theta, t))
  {
    match t
    case Var(n, i, _) =>
      if (n, i) in env.tenv {
        InstOfGround(theta, Assigned(env, (n, i)));
        ShapeSize(Assigned(env, (n, i)));
      }
    case Abs(_, _, b) => CostOfInstance(env, theta, b);
    case App(f, a) => CostOfInstance(env, theta, f); CostOfInstance(env, theta, a);
    case _ =>
  }

  /** Up to a bound on the sizes, a first-order match that succeeds instantiates the pattern to the object. */
  lemma MatchersInstance(env0: Env, pat: Term, obj: Term)
    requires TypesTriangular(env0) && InBounds(env0) && IndexUpTo(pat, env0.maxidx) && IndexUpTo(obj, env0.maxidx)
    requires RigidProblem(false, env0, [Pair(pat, obj)]) && TermVars(obj) == {} && GroundEnv(env0)
    requires Size(pat) + 2 * Size(obj) <= MAX_STEPS
    requires MatchRun(env0, pat, obj).end.Success?
    ensures var env := MatchRun(env0, pat, obj).end.env;
            TypesTriangular(env) && Shape(NormTerm(env, pat)) == Shape(obj)
  {
    var env := MatchRun(env0, pat, obj).end.env;
    GroundIsAcyclic(env0);
    GroundMatch(env0, pat, obj);
    MatchEnds(env0, pat, obj);
    MatchFinishes(env0, env, pat, obj);
    MatchedPatternIsObject(env0, pat, obj, env);
  }

  lemma MatchEnds(env0: Env, pat: Term, obj: Term)
    requires TypesTriangular(env0) && InBounds(env0) && IndexUpTo(pat, env0.maxidx) && IndexUpTo(obj, env0.maxidx)
    requires RigidProblem(false, env0, [Pair(pat, obj)]) && MatchRun(env0, pat, obj).end.Success?
    ensures var env := MatchRun(env0, pat, obj).end.env;
            && TypesTriangular(env) && RigidEnv(false, env) && Rigid(false, pat)
            && Equivalent(env0, [Pair(pat, obj)], env, [], [])
  {
    MatchOutcome(env0, pat, obj);
    assert [Pair(pat, obj)][0] == Pair(pat, obj);
  }

  lemma MatchFinishes(env0: Env, env: Env, pat: Term, obj: Term)
    requires TypesTriangular(env) && TermsTriangular(env) && GroundEnv(env) && RigidEnv(false, env) && Rigid(false, pat)
    requires Equivalent(env0, [Pair(pat, obj)], env, [], []) && TermVars(obj) == {}
    requires Size(pat) + 2 * Size(obj) <= MAX_STEPS
    ensures Finishes(env, pat)
  {
    var theta := Solution(env);
    SolutionRespects(env);
    assert Respects(theta, env0) && Solves(theta, []) && Solves(theta, [Pair(pat, obj)]);
    assert [Pair(pat, obj)][0] == Pair(pat, obj);
    InstOfGround(theta, obj);
    ShapeSize(obj);
    CostOfInstance(env, theta, pat);
    RigidEvaluates(false, env, pat, MAX_STEPS);
  }

  /** Pairs of one constant with itself, one above the other. */
  function Repeated(c: Pair, n: nat): Stack<Pair> {
    if n == 0 then Empty else Push(c, Repeated(c, n - 1))
  }

  lemma SkipRound(g: Config, n: Symbol, ty: Typ)
    requires TypesTriangular(g.env) && g.pending.Push? && g.steps > 0
    requires g.pending.top == Pair(Const(n, ty), Const(n, ty))
    ensures MoveFor(Unification, g.env, g.pending.top).Skip?
    ensures Next(Unification, g).env == g.env && Next(Unification, g).pending == g.pending.below
  {
  }

  lemma {:induction false} RunOnRepeated(g: Config, n: Symbol, ty: Typ, count: nat)
    requires TypesTriangular(g.env) && g.pending == Repeated(Pair(Const(n, ty), Const(n, ty)), count)
    ensures Running(Unification, g).end.Success? <==> count <= g.steps
    decreases g.steps
  {
    if count > 0 && g.steps > 0 {
      SkipRound(g, n, ty);
      RunOnRepeated(Next(Unification, g), n, ty, count - 1);
    }
  }

  /** Each pair costs a step, and there are ten times as many steps as the bound: pairs that are equal show how many fit. */
  lemma StepsExact(env0: Env, n: Symbol, ty: Typ, count: nat, searchBound: nat)
    requires TypesTriangular(env0)
    ensures var pairs := seq(count, i => Pair(Const(n, ty), Const(n, ty)));
            UnifyRun(env0, pairs, searchBound).end.Success? <==> count <= 10 * searchBound
  {
    var c := Pair(Const(n, ty), Const(n, ty));
    var pairs := seq(count, i => c);
    RepeatedStack(c, pairs);
    RunOnRepeated(UnifyConfig(env0, pairs, searchBound), n, ty, count);
  }

  lemma {:induction false} RepeatedStack(c: Pair, pairs: seq<Pair>)
    requires forall i :: 0 <= i < |pairs| ==> pairs[i] == c
    ensures StackOf(pairs) == Repeated(c, |pairs|)
  {
    if pairs != [] { RepeatedStack(c, pairs[1..]); }
  }

  /** Two different unbound variables are unified without binding either: their normal forms still differ. */
  lemma FlexFlexIsDropped(env: Env, m: Symbol, i: nat, s: Typ, n: Symbol, j: nat, u: Typ, searchBound: nat)
    requires TypesTriangular(env) && (m, i) != (n, j) && (m, i) !in env.tenv && (n, j) !in env.tenv && searchBound > 0
    ensures var x, y := Var(m, i, s), Var(n, j, u);
            && UnifyRun(env, [Pair(x, y)], searchBound)
            == Run(Success(env, None, []), Trail([Pair(NormTerm(env, x), NormTerm(env, y))], true))
            && NormTerm(env, x) != NormTerm(env, y)
  {
    var x, y := Var(m, i, s), Var(n, j, u);
    var c := Pair(x, y);
    assert Eval(env, x, MAX_STEPS).Some? && Eval(env, y, MAX_STEPS).Some?;
    assert NormTerm(env, x) == Var(m, i, NormType(env, s)) && NormTerm(env, y) == Var(n, j, NormType(env, u));
    assert StackOf([c]) == Push(c, Empty) by { assert [c][1..] == []; }
    assert UnifyMove(env, NormTerm(env, x), NormTerm(env, y)) == Postpone;
    assert START.flexFlex + [NormPair(env, c)] == [NormPair(env, c)];
    var g := UnifyConfig(env, [c], searchBound);
    assert Next(Unification, g) == Config(env, Empty, searchBound * 10 - 1, Trail([NormPair(env, c)], true));
    assert Running(Unification, g) == Running(Unification, Next(Unification, g));
  }
}
