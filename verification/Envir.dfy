/** Environments of schematic variables, and normalisation with them. */
module Envir {
  import opened Wrappers
  import opened Syntax
  import opened WorkStack
  import opened TermSubst
  import opened TypeResolve

  /** Environments look a variable up by name and index. */
  const ByKey: KeyOf<VarKey> := (n: Symbol, i: nat) => (n, i)

  /** Bindings keep the type or sort the variable had. */
  datatype Env = Env(maxidx: nat, tenv: map<VarKey, (Typ, Term)>, tyenv: map<VarKey, (Sort, Typ)>)

  const INIT: Env := Env(0, map[], map[])

  /** The number of steps after which normalisation gives up and returns its input. */
  const MAX_STEPS: nat := 20000

  function TypeMap(env: Env): map<VarKey, Typ> {
    map k | k in env.tyenv :: env.tyenv[k].1
  }

  /** Type bindings are acyclic: what the recursive normalisation of types needs to end. */
  ghost predicate TypesTriangular(env: Env) {
    Triangular(ByKey, TypeMap(env))
  }

  function NormType(env: Env, t: Typ): Typ
    requires TypesTriangular(env)
  {
    Apply(ByKey, TypeMap(env), t)
  }

  function Assigned(env: Env, k: VarKey): Term
    requires k in env.tenv
  {
    env.tenv[k].1
  }

  /** Normal form of a term and what is left of a budget of steps, or nothing if the budget runs out. */
  function Eval(env: Env, t: Term, fuel: nat): (r: Option<(Term, nat)>)
    requires TypesTriangular(env)
    ensures r.Some? ==> r.value.1 < fuel
    decreases fuel, 0
  {
    if fuel == 0 then None
    else match t
      case Var(n, i, ty) =>
        if (n, i) in env.tenv then Eval(env, Assigned(env, (n, i)), fuel - 1)
        else Some((Var(n, i, NormType(env, ty)), fuel - 1))
      case Const(n, ty) => Some((Const(n, NormType(env, ty)), fuel - 1))
      case Free(n, ty) => Some((Free(n, NormType(env, ty)), fuel - 1))
      case Bound(_) => Some((t, fuel - 1))
      case Abs(x, ty, b) =>
        var body := Eval(env, b, fuel - 1);
        if body.None? || body.value.1 == 0 then None
        else Some((Abs(x, NormType(env, ty), body.value.0), body.value.1 - 1))
      case App(f, a) =>
        var fun := Eval(env, f, fuel - 1);
        if fun.None? then None
        else
          var arg := Eval(env, a, fun.value.1);
          if arg.None? || arg.value.1 == 0 then None
          else Contract(env, fun.value.0, arg.value.0, arg.value.1 - 1)
  }

  /** Applies a normal function to a normal argument, reducing if the function is an abstraction. */
  function Contract(env: Env, fun: Term, arg: Term, fuel: nat): (r: Option<(Term, nat)>)
    requires TypesTriangular(env)
    ensures r.Some? ==> r.value.1 <= fuel
    decreases fuel, 1
  {
    if fun.Abs? then
      if fuel == 0 then None else Eval(env, SubstBounds([arg], fun.body), fuel)
    else Some((App(fun, arg), fuel))
  }

  function NormTerm(env: Env, t: Term): Term
    requires TypesTriangular(env)
  {
    match Eval(env, t, MAX_STEPS)
    case Some((r, _)) => r
    case None => t
  }

  // ---------- the work-stack implementation ----------

  /** What a configuration leaves on the result stack within a budget of pops. */
  ghost function Finish(env: Env, stack: Stack<Frame<Term>>, results: Stack<Term>, fuel: nat): Option<Stack<Term>>
    requires TypesTriangular(env)
    decreases fuel, stack
  {
    match stack
    case Empty => Some(results)
    case Push(Process(t), rest) =>
      (match Eval(env, t, fuel)
       case None => None
       case Some((r, left)) => Finish(env, rest, Push(r, results), left))
    case Push(BuildAbs(x, ty), rest) =>
      if fuel == 0 then None else Finish(env, rest, Rebuild(Frame<Term>.BuildAbs(x, ty), results), fuel - 1)
    case Push(BuildApp, rest) =>
      if fuel == 0 then None
      else
        match Contract(env, TopOr(Pop(results), FALLBACK), TopOr(results, FALLBACK), fuel - 1)
        case None => None
        case Some((r, left)) => Finish(env, rest, Push(r, Pop(Pop(results))), left)
  }

  /** The configuration ends in `goal`, and no pop of the result stack finds it empty. */
  ghost predicate Runs(env: Env, stack: Stack<Frame<Term>>, results: Stack<Term>, fuel: nat,
                       goal: Option<Stack<Term>>)
    requires TypesTriangular(env)
  {
    Finish(env, stack, results, fuel) == goal && Enough(stack, Height(results))
  }

  /** What the whole traversal leaves within its budget, and what is then returned. */
  ghost function Goal(env: Env, term: Term): Option<Stack<Term>>
    requires TypesTriangular(env)
  {
    Finish(env, Push(Process(term), Empty), Empty, MAX_STEPS)
  }

  lemma GoalIsNorm(env: Env, term: Term)
    requires TypesTriangular(env)
    ensures NormTerm(env, term) == if Goal(env, term).Some? then TopOr(Goal(env, term).value, term) else term
  {
    var results: Stack<Term> := Empty;
    if Eval(env, term, MAX_STEPS).Some? {
      var (r, left) := Eval(env, term, MAX_STEPS).value;
      assert Goal(env, term) == Finish(env, Empty, Push(r, results), left);
    }
  }

  /** What is returned when the stack or the budget is empty. */
  lemma RunEnds(env: Env, term: Term, stack: Stack<Frame<Term>>, results: Stack<Term>, fuel: nat)
    requires TypesTriangular(env) && Runs(env, stack, results, fuel, Goal(env, term))
    ensures stack.Empty? ==> TopOr(results, term) == NormTerm(env, term)
    ensures stack.Push? && fuel == 0 ==> term == NormTerm(env, term)
  {
    GoalIsNorm(env, term);
  }

  lemma RunLeaf(env: Env, t: Term, r: Term, rest: Stack<Frame<Term>>, results: Stack<Term>, fuel: nat,
                goal: Option<Stack<Term>>)
    requires TypesTriangular(env) && Runs(env, Push(Process(t), rest), results, fuel, goal)
    requires fuel > 0 && Eval(env, t, fuel) == Some((r, fuel - 1))
    ensures Runs(env, rest, Push(r, results), fuel - 1, goal)
  {
  }

  lemma RunVar(env: Env, t: Term, rest: Stack<Frame<Term>>, results: Stack<Term>, fuel: nat,
               goal: Option<Stack<Term>>)
    requires TypesTriangular(env) && Runs(env, Push(Process(t), rest), results, fuel, goal)
    requires fuel > 0 && t.Var? && (t.name, t.index) in env.tenv
    ensures Runs(env, Push(Process(Assigned(env, (t.name, t.index))), rest), results, fuel - 1, goal)
  {
  }

  lemma RunApp(env: Env, f: Term, a: Term, rest: Stack<Frame<Term>>, results: Stack<Term>, fuel: nat,
               goal: Option<Stack<Term>>)
    requires TypesTriangular(env) && Runs(env, Push(Process(App(f, a)), rest), results, fuel, goal) && fuel > 0
    ensures Runs(env, Push(Process(f), Push(Process(a), Push(BuildApp, rest))), results, fuel - 1, goal)
  {
    var fun := Eval(env, f, fuel - 1);
    if fun.Some? {
      var arg := Eval(env, a, fun.value.1);
      if arg.Some? {
        var r2 := Push(arg.value.0, Push(fun.value.0, results));
        assert Finish(env, Push(Process(a), Push(BuildApp, rest)), Push(fun.value.0, results), fun.value.1)
            == Finish(env, Push(BuildApp, rest), r2, arg.value.1);
      }
    }
    assert Enough(Push(Process(a), Push(BuildApp, rest)), Height(results) + 1)
        == Enough(Push(BuildApp, rest), Height(results) + 2);
  }

  lemma RunAbs(env: Env, x: Symbol, ty: Typ, b: Term, rest: Stack<Frame<Term>>, results: Stack<Term>, fuel: nat,
               goal: Option<Stack<Term>>)
    requires TypesTriangular(env) && Runs(env, Push(Process(Abs(x, ty, b)), rest), results, fuel, goal) && fuel > 0
    ensures Runs(env, Push(Process(b), Push(BuildAbs(x, NormType(env, ty)), rest)), results, fuel - 1, goal)
  {
    var body := Eval(env, b, fuel - 1);
    if body.Some? {
      var frame := Frame<Term>.BuildAbs(x, NormType(env, ty));
      assert Rebuild(frame, Push(body.value.0, results)) == Push(Abs(x, NormType(env, ty), body.value.0), results);
    }
  }

  lemma RunBuildAbs(env: Env, x: Symbol, ty: Typ, rest: Stack<Frame<Term>>, results: Stack<Term>, fuel: nat,
                    goal: Option<Stack<Term>>)
    requires TypesTriangular(env) && Runs(env, Push(BuildAbs(x, ty), rest), results, fuel, goal) && fuel > 0
    ensures Runs(env, rest, Rebuild(Frame<Term>.BuildAbs(x, ty), results), fuel - 1, goal)
  {
    assert Height(Rebuild(Frame<Term>.BuildAbs(x, ty), results)) == Height(results);
  }

  lemma RunBuildApp(env: Env, rest: Stack<Frame<Term>>, results: Stack<Term>, fuel: nat, goal: Option<Stack<Term>>)
    requires TypesTriangular(env) && Runs(env, Push(BuildApp, rest), results, fuel, goal) && fuel > 0
    ensures results.Push? && results.below.Push?
    ensures var arg, func, left := results.top, results.below.top, results.below.below;
      if func.Abs? then Runs(env, Push(Process(SubstBounds([arg], func.body)), rest), left, fuel - 1, goal)
      else Runs(env, rest, Push(App(func, arg), left), fuel - 1, goal)
  {
    assert Height(results) == 1 + Height(results.below) && results.below.Push?;
    assert Height(results) == Height(results.below.below) + 2;
  }

  // ---------- variables and their indices ----------

  function TermVars(t: Term): set<VarKey> {
    match t
    case Var(n, i, _) => {(n, i)}
    case Abs(_, _, b) => TermVars(b)
    case App(f, a) => TermVars(f) + TermVars(a)
    case _ => {}
  }

  predicate IndexUpTo(t: Term, m: nat) {
    match t
    case Var(_, i, _) => i <= m
    case Abs(_, _, b) => IndexUpTo(b, m)
    case App(f, a) => IndexUpTo(f, m) && IndexUpTo(a, m)
    case _ => true
  }

  /** Bound variables, and the variables of what they are bound to, have indices within the bound. */
  ghost predicate InBounds(env: Env) {
    forall k :: k in env.tenv ==> k.1 <= env.maxidx && IndexUpTo(Assigned(env, k), env.maxidx)
  }

  lemma {:induction false} IndexAbove(t: Term, m: nat, k: VarKey)
    requires IndexUpTo(t, m) && k.1 > m
    ensures k !in TermVars(t)
  {
    match t
    case Abs(_, _, b) => IndexAbove(b, m, k);
    case App(f, a) => IndexAbove(f, m, k); IndexAbove(a, m, k);
    case _ =>
  }

  lemma {:induction false} IndexRaise(t: Term, m: nat, n: nat)
    requires IndexUpTo(t, m) && m <= n
    ensures IndexUpTo(t, n)
  {
    match t
    case Abs(_, _, b) => IndexRaise(b, m, n);
    case App(f, a) => IndexRaise(f, m, n); IndexRaise(a, m, n);
    case _ =>
  }

  class Envir {
    var maxidx: nat
    var tenv: map<VarKey, (Typ, Term)>
    var tyenv: map<VarKey, (Sort, Typ)>

    constructor (env: Env)
      ensures View() == env
    {
      maxidx, tenv, tyenv := env.maxidx, env.tenv, env.tyenv;
    }

    function View(): Env
      reads this
    {
      Env(maxidx, tenv, tyenv)
    }

    /** A variable that occurs in no term whose indices were within the bound, and in no binding if those were. */
    method GenVar(name: Symbol, typ: Typ) returns (v: Term)
      modifies this`maxidx
      ensures maxidx == old(maxidx) + 1 && v == Var(name, maxidx, typ)
      ensures forall t :: IndexUpTo(t, old(maxidx)) ==> (name, maxidx) !in TermVars(t)
      ensures InBounds(old(View())) ==>
                InBounds(View()) && (name, maxidx) !in tenv
                && forall k :: k in tenv ==> (name, maxidx) !in TermVars(tenv[k].1)
    {
      maxidx := maxidx + 1;
      forall t | IndexUpTo(t, maxidx - 1) ensures (name, maxidx) !in TermVars(t) && IndexUpTo(t, maxidx) {
        IndexAbove(t, maxidx - 1, (name, maxidx));
        IndexRaise(t, maxidx - 1, maxidx);
      }
      v := Var(name, maxidx, typ);
    }

    method Update(name: Symbol, index: nat, typ: Typ, term: Term)
      requires index <= maxidx
      modifies this`tenv
      ensures tenv == old(tenv)[(name, index) := (typ, term)]
    {
      tenv := tenv[(name, index) := (typ, term)];
    }

    method NormTermIter(term: Term) returns (r: Term)
      requires TypesTriangular(View())
      ensures r == NormTerm(View(), term)
    {
      var stack: Stack<Frame<Term>> := Push(Process(term), Empty);
      var results: Stack<Term> := Empty;
      var steps := 0;
      ghost var env := View();
      ghost var goal := Goal(env, term);
      while stack.Push?
        invariant steps <= MAX_STEPS
        invariant Runs(env, stack, results, MAX_STEPS - steps, goal)
        decreases MAX_STEPS - steps
      {
        var item, rest := stack.top, stack.below;
        if steps == MAX_STEPS {
          RunEnds(env, term, stack, results, 0);
          return term;
        }
        ghost var left := MAX_STEPS - steps;
        steps := steps + 1;
        match item
        case Process(Var(n, i, ty)) =>
          if (n, i) in tenv {
            RunVar(env, item.p, rest, results, left, goal);
            stack := Push(Process(tenv[(n, i)].1), rest);
          } else {
            RunLeaf(env, item.p, Var(n, i, NormType(env, ty)), rest, results, left, goal);
            results, stack := Push(Var(n, i, NormType(View(), ty)), results), rest;
          }
        case Process(Const(n, ty)) =>
          RunLeaf(env, item.p, Const(n, NormType(env, ty)), rest, results, left, goal);
          results, stack := Push(Const(n, NormType(View(), ty)), results), rest;
        case Process(Free(n, ty)) =>
          RunLeaf(env, item.p, Free(n, NormType(env, ty)), rest, results, left, goal);
          results, stack := Push(Free(n, NormType(View(), ty)), results), rest;
        case Process(Bound(i)) =>
          RunLeaf(env, item.p, Bound(i), rest, results, left, goal);
          results, stack := Push(Bound(i), results), rest;
        case Process(Abs(x, ty, b)) =>
          RunAbs(env, x, ty, b, rest, results, left, goal);
          stack := Push(Process(b), Push(BuildAbs(x, NormType(View(), ty)), rest));
        case Process(App(f, a)) =>
          RunApp(env, f, a, rest, results, left, goal);
          stack := Push(Process(f), Push(Process(a), Push(BuildApp, rest)));
        case BuildAbs(x, ty) =>
          RunBuildAbs(env, x, ty, rest, results, left, goal);
          results, stack := Rebuild(item, results), rest;
        case BuildApp =>
          RunBuildApp(env, rest, results, left, goal);
          var arg, func := TopOr(results, FALLBACK), TopOr(Pop(results), FALLBACK);
          results := Pop(Pop(results));
          if func.Abs? {
            var reduced := SubstBoundsIter([arg], func.body);
            stack := Push(Process(reduced), rest);
          } else {
            results, stack := Push(App(func, arg), results), rest;
          }
      }
      RunEnds(env, term, stack, results, MAX_STEPS - steps);
      r := TopOr(results, term);
    }
  }

  // ---------- normal forms ----------

  ghost predicate NormalType(env: Env, t: Typ)
    requires TypesTriangular(env)
  {
    NormType(env, t) == t
  }

  /** No redex, no variable bound in the environment, no type that the environment would change. */
  ghost predicate Normal(env: Env, t: Term)
    requires TypesTriangular(env)
  {
    match t
    case Var(n, i, ty) => (n, i) !in env.tenv && NormalType(env, ty)
    case Const(_, ty) => NormalType(env, ty)
    case Free(_, ty) => NormalType(env, ty)
    case Bound(_) => true
    case Abs(_, ty, b) => NormalType(env, ty) && Normal(env, b)
    case App(f, a) => !f.Abs? && Normal(env, f) && Normal(env, a)
  }

  lemma {:induction false} EvalIsNormal(env: Env, t: Term, fuel: nat)
    requires TypesTriangular(env) && Eval(env, t, fuel).Some?
    ensures Normal(env, Eval(env, t, fuel).value.0)
    decreases fuel
  {
    match t
    case Var(n, i, ty) =>
      if (n, i) in env.tenv { EvalIsNormal(env, Assigned(env, (n, i)), fuel - 1); }
      else { ApplyIdempotent(ByKey, TypeMap(env), ty); }
    case Const(_, ty) => ApplyIdempotent(ByKey, TypeMap(env), ty);
    case Free(_, ty) => ApplyIdempotent(ByKey, TypeMap(env), ty);
    case Bound(_) =>
    case Abs(_, ty, b) => ApplyIdempotent(ByKey, TypeMap(env), ty); EvalIsNormal(env, b, fuel - 1);
    case App(f, a) =>
      var fun := Eval(env, f, fuel - 1).value;
      var arg := Eval(env, a, fun.1).value;
      EvalIsNormal(env, f, fuel - 1);
      EvalIsNormal(env, a, fun.1);
      if fun.0.Abs? { EvalIsNormal(env, SubstBounds([arg.0], fun.0.body), arg.1 - 1); }
  }

  /** Whatever the budget, a normal term can only evaluate to itself. */
  lemma {:induction false} EvalOfNormal(env: Env, t: Term, fuel: nat)
    requires TypesTriangular(env) && Normal(env, t)
    ensures Eval(env, t, fuel).Some? ==> Eval(env, t, fuel).value.0 == t
    decreases t
  {
    if fuel > 0 {
      match t
      case Abs(_, _, b) => EvalOfNormal(env, b, fuel - 1);
      case App(f, a) =>
        EvalOfNormal(env, f, fuel - 1);
        if Eval(env, f, fuel - 1).Some? { EvalOfNormal(env, a, Eval(env, f, fuel - 1).value.1); }
      case _ =>
    }
  }

  /** Normalising twice is normalising once, for every term, whether or not a budget runs out. */
  lemma NormTermIdempotent(env: Env, t: Term)
    requires TypesTriangular(env)
    ensures NormTerm(env, NormTerm(env, t)) == NormTerm(env, t)
  {
    if Eval(env, t, MAX_STEPS).Some? {
      EvalIsNormal(env, t, MAX_STEPS);
      EvalOfNormal(env, NormTerm(env, t), MAX_STEPS);
    }
  }

  /** Two steps a node are budget enough for a normal term. */
  lemma {:induction false} NormalEvaluates(env: Env, t: Term, fuel: nat)
    requires TypesTriangular(env) && Normal(env, t) && fuel >= 2 * Size(t)
    ensures Eval(env, t, fuel).Some? && Eval(env, t, fuel).value.0 == t
    ensures Eval(env, t, fuel).value.1 >= fuel - 2 * Size(t)
    decreases t
  {
    match t
    case Abs(_, _, b) => NormalEvaluates(env, b, fuel - 1);
    case App(f, a) =>
      NormalEvaluates(env, f, fuel - 1);
      NormalEvaluates(env, a, Eval(env, f, fuel - 1).value.1);
    case _ =>
  }

  lemma {:induction false} RedexFreeIsNormal(t: Term)
    requires RedexFree(t) && TypesTriangular(INIT)
    ensures Normal(INIT, t)
  {
    match t
    case Abs(_, ty, b) => ApplyUnbound(ByKey, TypeMap(INIT), ty); RedexFreeIsNormal(b);
    case App(f, a) => RedexFreeIsNormal(f); RedexFreeIsNormal(a);
    case Const(_, ty) => ApplyUnbound(ByKey, TypeMap(INIT), ty);
    case Free(_, ty) => ApplyUnbound(ByKey, TypeMap(INIT), ty);
    case Var(_, _, ty) => ApplyUnbound(ByKey, TypeMap(INIT), ty);
    case Bound(_) =>
  }

  lemma InitTriangular()
    ensures TypesTriangular(INIT)
  {
    var rank: VarKey -> nat := (k: VarKey) => 0;
    assert Graph.Ranked(Edges(ByKey, TypeMap(INIT)), rank);
  }

  /** The initial environment leaves a term without redexes as it is. */
  lemma InitKeepsRedexFree(t: Term)
    requires RedexFree(t)
    ensures TypesTriangular(INIT) && NormTerm(INIT, t) == t
  {
    InitTriangular();
    RedexFreeIsNormal(t);
    EvalOfNormal(INIT, t, MAX_STEPS);
  }

  // ---------- beta normalisation ----------

  /** Beta normalisation as a recursion that may not end: nothing, if it needs more than `depth` nested calls. */
  function BetaNorm(t: Term, depth: nat): Option<Term>
    decreases depth
  {
    if depth == 0 then None
    else match t
      case App(f, a) =>
        var fun, arg := BetaNorm(f, depth - 1), BetaNorm(a, depth - 1);
        if fun.None? || arg.None? then None
        else if fun.value.Abs? then BetaNorm(SubstBounds([arg.value], fun.value.body), depth - 1)
        else Some(App(fun.value, arg.value))
      case Abs(x, ty, b) =>
        var body := BetaNorm(b, depth - 1);
        if body.None? then None else Some(Abs(x, ty, body.value))
      case _ => Some(t)
  }

  lemma {:induction false} BetaNormDeeper(t: Term, depth: nat, more: nat)
    requires BetaNorm(t, depth).Some? && depth <= more
    ensures BetaNorm(t, more) == BetaNorm(t, depth)
    decreases depth
  {
    match t
    case App(f, a) =>
      BetaNormDeeper(f, depth - 1, more - 1);
      BetaNormDeeper(a, depth - 1, more - 1);
      var fun, arg := BetaNorm(f, depth - 1).value, BetaNorm(a, depth - 1).value;
      if fun.Abs? { BetaNormDeeper(SubstBounds([arg], fun.body), depth - 1, more - 1); }
    case Abs(_, _, b) => BetaNormDeeper(b, depth - 1, more - 1);
    case _ =>
  }

  /** The beta normal form of an application from those of its parts. */
  lemma BetaApp(f: Term, a: Term, depth: nat, fun: Term, arg: Term, r: Term)
    requires depth > 0 && BetaNorm(f, depth - 1) == Some(fun) && BetaNorm(a, depth - 1) == Some(arg)
    requires if fun.Abs? then BetaNorm(SubstBounds([arg], fun.body), depth - 1) == Some(r) else r == App(fun, arg)
    ensures BetaNorm(App(f, a), depth) == Some(r)
  {
  }

  /** An evaluation of an application that ends has evaluated both parts and contracted them. */
  lemma EvalAppEnds(env: Env, f: Term, a: Term, fuel: nat, r: Term, left: nat)
    returns (fun: Term, m: nat, arg: Term, n: nat)
    requires TypesTriangular(env) && Eval(env, App(f, a), fuel) == Some((r, left))
    ensures fuel > 0 && Eval(env, f, fuel - 1) == Some((fun, m)) && Eval(env, a, m) == Some((arg, n))
    ensures m < fuel - 1 && 0 < n < m && Contract(env, fun, arg, n - 1) == Some((r, left))
  {
    fun, m := Eval(env, f, fuel - 1).value.0, Eval(env, f, fuel - 1).value.1;
    arg, n := Eval(env, a, m).value.0, Eval(env, a, m).value.1;
  }

  /** With the initial environment, an evaluation that ends computes the beta normal form. */
  lemma {:induction false} EvalIsBetaNorm(t: Term, fuel: nat)
    requires TypesTriangular(INIT) && Eval(INIT, t, fuel).Some?
    ensures BetaNorm(t, fuel) == Some(Eval(INIT, t, fuel).value.0)
    decreases fuel, 1
  {
    match t
    case App(f, a) => AppIsBetaNorm(f, a, fuel, Eval(INIT, t, fuel).value.0, Eval(INIT, t, fuel).value.1);
    case Abs(_, ty, b) => ApplyUnbound(ByKey, TypeMap(INIT), ty); EvalIsBetaNorm(b, fuel - 1);
    case Const(_, ty) => ApplyUnbound(ByKey, TypeMap(INIT), ty);
    case Free(_, ty) => ApplyUnbound(ByKey, TypeMap(INIT), ty);
    case Var(_, _, ty) => ApplyUnbound(ByKey, TypeMap(INIT), ty);
    case Bound(_) =>
  }

  lemma AppIsBetaNorm(f: Term, a: Term, fuel: nat, r: Term, left: nat)
    requires TypesTriangular(INIT) && Eval(INIT, App(f, a), fuel) == Some((r, left))
    ensures BetaNorm(App(f, a), fuel) == Some(r)
    decreases fuel, 0
  {
    var fun, m, arg, n := EvalAppEnds(INIT, f, a, fuel, r, left);
    EvalIsBetaNorm(f, fuel - 1);
    EvalIsBetaNorm(a, m);
    BetaNormDeeper(a, m, fuel - 1);
    if fun.Abs? {
      EvalIsBetaNorm(SubstBounds([arg], fun.body), n - 1);
      BetaNormDeeper(SubstBounds([arg], fun.body), n - 1, fuel - 1);
    }
    BetaApp(f, a, fuel, fun, arg, r);
  }

  lemma EvalAppParts(env: Env, f: Term, a: Term, fuel: nat, fun: Term, m: nat, arg: Term, n: nat)
    requires TypesTriangular(env) && fuel > 0 && n > 0
    requires Eval(env, f, fuel - 1) == Some((fun, m)) && Eval(env, a, m) == Some((arg, n))
    ensures Eval(env, App(f, a), fuel) == Contract(env, fun, arg, n - 1)
  {
  }

  lemma ContractMoreFuel(env: Env, fun: Term, arg: Term, fuel: nat, r: Term, left: nat, extra: nat)
    requires TypesTriangular(env) && Contract(env, fun, arg, fuel) == Some((r, left))
    ensures Contract(env, fun, arg, fuel + extra) == Some((r, left + extra))
    decreases fuel, 1
  {
    if fun.Abs? {
      EvalMoreFuel(env, SubstBounds([arg], fun.body), fuel, r, left, extra);
    }
  }

  /** A larger budget changes nothing but what is left of it. */
  lemma {:induction false} EvalMoreFuel(env: Env, t: Term, fuel: nat, r: Term, left: nat, extra: nat)
    requires TypesTriangular(env) && Eval(env, t, fuel) == Some((r, left))
    ensures Eval(env, t, fuel + extra) == Some((r, left + extra))
    decreases fuel, 0
  {
    if t.Var? && (t.name, t.index) in env.tenv {
      EvalMoreFuel(env, Assigned(env, (t.name, t.index)), fuel - 1, r, left, extra);
    } else if t.Abs? {
      EvalMoreFuel(env, t.body, fuel - 1, r.body, left + 1, extra);
    } else if t.App? {
      AppMoreFuel(env, t.func, t.arg, fuel, r, left, extra);
    }
  }

  /** The evaluation ends with this result and this much of its budget left. */
  ghost predicate Evals(env: Env, t: Term, fuel: nat, r: Term, left: nat)
    requires TypesTriangular(env)
  {
    Eval(env, t, fuel) == Some((r, left))
  }

  ghost predicate Contracts(env: Env, fun: Term, arg: Term, fuel: nat, r: Term, left: nat)
    requires TypesTriangular(env)
  {
    Contract(env, fun, arg, fuel) == Some((r, left))
  }

  lemma EvalsApp(env: Env, f: Term, a: Term, fuel: nat, fun: Term, m: nat, arg: Term, rest: nat, r: Term, left: nat)
    requires TypesTriangular(env)
    requires Evals(env, f, fuel, fun, m) && Evals(env, a, m, arg, rest + 1) && Contracts(env, fun, arg, rest, r, left)
    ensures Evals(env, App(f, a), fuel + 1, r, left)
  {
    EvalAppParts(env, f, a, fuel + 1, fun, m, arg, rest + 1);
  }

  lemma EvalsMore(env: Env, t: Term, fuel: nat, r: Term, left: nat, extra: nat)
    requires TypesTriangular(env) && Evals(env, t, fuel, r, left)
    ensures Evals(env, t, fuel + extra, r, left + extra)
    decreases fuel, 1
  {
    EvalMoreFuel(env, t, fuel, r, left, extra);
  }

  lemma ContractsMore(env: Env, fun: Term, arg: Term, fuel: nat, r: Term, left: nat, extra: nat)
    requires TypesTriangular(env) && Contracts(env, fun, arg, fuel, r, left)
    ensures Contracts(env, fun, arg, fuel + extra, r, left + extra)
    decreases fuel, 2
  {
    ContractMoreFuel(env, fun, arg, fuel, r, left, extra);
  }

  lemma AppMoreFuel(env: Env, f: Term, a: Term, fuel: nat, r: Term, left: nat, extra: nat)
    requires TypesTriangular(env) && Evals(env, App(f, a), fuel, r, left)
    ensures Evals(env, App(f, a), fuel + extra, r, left + extra)
    decreases fuel, 0, 0
  {
    var fun, m, arg, n := EvalAppEnds(env, f, a, fuel, r, left);
    EvalsMore(env, f, fuel - 1, fun, m, extra);
    EvalsMore(env, a, m, arg, n, extra);
    ContractsMore(env, fun, arg, n - 1, r, left, extra);
    EvalsApp(env, f, a, fuel - 1 + extra, fun, m + extra, arg, n - 1 + extra, r, left + extra);
  }

  /** Budgets for the parts of an application add up. */
  lemma EvalApp(env: Env, f: Term, a: Term, n1: nat, n2: nat, n3: nat,
                fun: Term, m: nat, arg: Term, n: nat, r: Term, left: nat)
    requires TypesTriangular(env)
    requires Evals(env, f, n1, fun, m) && Evals(env, a, n2, arg, n) && Contracts(env, fun, arg, n3, r, left)
    ensures Evals(env, App(f, a), n1 + n2 + n3 + 2, r, left + m + n)
  {
    EvalsMore(env, f, n1, fun, m, n2 + n3 + 1);
    EvalsMore(env, a, n2, arg, n, m + n3 + 1);
    ContractsMore(env, fun, arg, n3, r, left, m + n);
    EvalsApp(env, f, a, n1 + n2 + n3 + 1, fun, m + n2 + n3 + 1, arg, n3 + m + n, r, left + m + n);
  }

  /** Whenever beta normalisation ends, some budget lets the evaluation end with the same result. */
  lemma {:induction false} BetaNormIsEval(t: Term, depth: nat) returns (fuel: nat, left: nat)
    requires TypesTriangular(INIT) && BetaNorm(t, depth).Some?
    ensures Eval(INIT, t, fuel) == Some((BetaNorm(t, depth).value, left))
    decreases depth
  {
    match t
    case App(f, a) =>
      var n1, m := BetaNormIsEval(f, depth - 1);
      var n2, n := BetaNormIsEval(a, depth - 1);
      var fun, arg, r := BetaNorm(f, depth - 1).value, BetaNorm(a, depth - 1).value, BetaNorm(t, depth).value;
      var n3, rest := 0, 0;
      if fun.Abs? { n3, rest := BetaNormIsEval(SubstBounds([arg], fun.body), depth - 1); }
      fuel, left := n1 + n2 + n3 + 2, rest + m + n;
      EvalApp(INIT, f, a, n1, n2, n3, fun, m, arg, n, r, rest);
    case Abs(_, ty, b) =>
      ApplyUnbound(ByKey, TypeMap(INIT), ty);
      var n, rest := BetaNormIsEval(b, depth - 1);
      fuel, left := n + 2, rest;
      EvalMoreFuel(INIT, b, n, BetaNorm(b, depth - 1).value, rest, 1);
    case Const(_, ty) => ApplyUnbound(ByKey, TypeMap(INIT), ty); fuel, left := 1, 0;
    case Free(_, ty) => ApplyUnbound(ByKey, TypeMap(INIT), ty); fuel, left := 1, 0;
    case Var(_, _, ty) => ApplyUnbound(ByKey, TypeMap(INIT), ty); fuel, left := 1, 0;
    case Bound(_) => fuel, left := 1, 0;
  }
}
