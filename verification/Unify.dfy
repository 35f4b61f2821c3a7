/**
 Unification and matching of terms over an environment that is extended in place. Solutions are described by
 assignments of terms to schematic variables; terms are compared up to types and binder names, and what is put in place
 of a variable is not shifted, as in normalisation.
 */
module Unify {
  import opened Wrappers
  import opened Syntax
  import opened Graph
  import opened WorkStack
  import opened TermSubst
  import opened Envir

  datatype Pair = Pair(left: Term, right: Term)

  // ---------- variables of terms and of environments ----------

  ghost function TermEdges(env: Env): map<VarKey, set<VarKey>> {
    map k | k in env.tenv :: TermVars(env.tenv[k].1)
  }

  /** No variable is bound, directly or through other bindings, to a term that mentions it. */
  ghost predicate TermsTriangular(env: Env) {
    HasRank(TermEdges(env))
  }

  function Bind(env: Env, k: VarKey, ty: Typ, t: Term): Env {
    env.(tenv := env.tenv[k := (ty, t)])
  }

  lemma BindEdges(env: Env, k: VarKey, ty: Typ, t: Term)
    ensures TermEdges(Bind(env, k, ty, t)) == TermEdges(env)[k := TermVars(t)]
  {
  }

  lemma {:induction false} NormalVars(env: Env, t: Term)
    requires TypesTriangular(env) && Normal(env, t)
    ensures forall k :: k in TermVars(t) ==> k !in env.tenv
  {
    match t
    case Abs(_, _, b) => NormalVars(env, b);
    case App(f, a) => NormalVars(env, f); NormalVars(env, a);
    case _ =>
  }

  /** For a normal term the occurs check decides exactly whether a binding keeps the environment acyclic. */
  lemma OccursCheckExact(env: Env, k: VarKey, ty: Typ, t: Term)
    requires TypesTriangular(env) && TermsTriangular(env) && Normal(env, t)
    ensures TermsTriangular(Bind(env, k, ty, t)) <==> k !in TermVars(t)
  {
    var g := TermEdges(env);
    BindEdges(env, k, ty, t);
    RedirectExact(g, k, TermVars(t));
    NormalVars(env, t);
    if k in TermVars(t) {
      ReachesSelf(g, k);
    } else {
      forall j | j in TermVars(t) ensures !Reaches(g, j, k) {
        if Reaches(g, j, k) { ReachesFromSink(g, j, k); }
      }
    }
  }

  method OccursCheck(k: VarKey, term: Term) returns (found: bool)
    ensures found <==> k in TermVars(term)
  {
    var stack: Stack<Term> := Push(term, Empty);
    while stack.Push?
      invariant k in TermVars(term) <==> k in StackVars(stack)
      decreases StackSize(stack)
    {
      assert StackSize(stack) == Size(stack.top) + StackSize(stack.below);
      match stack.top {
        case Var(n, i, _) =>
          if (n, i) == k { return true; }
          stack := stack.below;
        case Abs(_, _, b) => stack := Push(b, stack.below);
        case App(f, a) =>
          assert StackSize(Push(a, stack.below)) == Size(a) + StackSize(stack.below);
          stack := Push(f, Push(a, stack.below));
        case _ => stack := stack.below;
      }
    }
    found := false;
  }

  ghost function StackVars(s: Stack<Term>): set<VarKey> {
    match s
    case Empty => {}
    case Push(t, below) => TermVars(t) + StackVars(below)
  }

  ghost function StackSize(s: Stack<Term>): nat {
    match s
    case Empty => 0
    case Push(t, below) => Size(t) + StackSize(below)
  }

  // ---------- comparison up to types and binder names ----------

  ghost predicate SameShapes(s: Stack<Pair>) {
    match s
    case Empty => true
    case Push(p, below) => Shape(p.left) == Shape(p.right) && SameShapes(below)
  }

  ghost function PairsSize(s: Stack<Pair>): nat {
    match s
    case Empty => 0
    case Push(p, below) => Size(p.left) + PairsSize(below)
  }

  method TermEqNoTypes(a: Term, b: Term) returns (same: bool)
    ensures same <==> Shape(a) == Shape(b)
  {
    var stack: Stack<Pair> := Push(Pair(a, b), Empty);
    while stack.Push?
      invariant Shape(a) == Shape(b) <==> SameShapes(stack)
      decreases PairsSize(stack)
    {
      var rest := stack.below;
      assert PairsSize(stack) == Size(stack.top.left) + PairsSize(rest);
      match (stack.top.left, stack.top.right) {
        case (Abs(_, _, b1), Abs(_, _, b2)) => stack := Push(Pair(b1, b2), rest);
        case (App(f1, a1), App(f2, a2)) =>
          assert PairsSize(Push(Pair(a1, a2), rest)) == Size(a1) + PairsSize(rest);
          stack := Push(Pair(f1, f2), Push(Pair(a1, a2), rest));
        case (l, r) =>
          if Shape(l) != Shape(r) { return false; }
          stack := rest;
      }
    }
    same := true;
  }

  // ---------- solutions ----------

  /** Puts the assigned terms in place of the schematic variables. */
  function Inst(theta: VarKey -> Term, t: Term): Term {
    match t
    case Const(n, _) => Const(n, DUMMY)
    case Free(n, _) => Free(n, DUMMY)
    case Var(n, i, _) => theta((n, i))
    case Bound(_) => t
    case Abs(_, _, b) => Abs("", DUMMY, Inst(theta, b))
    case App(f, a) => App(Inst(theta, f), Inst(theta, a))
  }

  ghost predicate Respects(theta: VarKey -> Term, env: Env) {
    forall k :: k in env.tenv ==> theta(k) == Inst(theta, Assigned(env, k))
  }

  ghost predicate Solves(theta: VarKey -> Term, ps: seq<Pair>) {
    forall i :: 0 <= i < |ps| ==> Inst(theta, ps[i].left) == Inst(theta, ps[i].right)
  }

  /** First-order terms: the function of an application is no variable and no abstraction. */
  predicate Rigid(free: bool, t: Term) {
    match t
    case Abs(_, _, b) => Rigid(free, b)
    case App(f, a) => RigidHead(free, f) && Rigid(free, f) && Rigid(free, a)
    case _ => true
  }

  /** Whether a free variable may be applied depends on the use. */
  predicate RigidHead(free: bool, f: Term) {
    f.Const? || f.Bound? || f.App? || (free && f.Free?)
  }

  ghost predicate RigidEnv(free: bool, env: Env) {
    forall k :: k in env.tenv ==> Rigid(free, Assigned(env, k))
  }

  ghost predicate RigidPairs(free: bool, ps: seq<Pair>) {
    forall i :: 0 <= i < |ps| ==> Rigid(free, ps[i].left) && Rigid(free, ps[i].right)
  }

  /** Evaluation of first-order terms neither leaves the fragment nor changes what solutions make of a term. */
  lemma {:induction false} EvalRigid(free: bool, env: Env, t: Term, fuel: nat)
    requires TypesTriangular(env) && RigidEnv(free, env) && Rigid(free, t) && Eval(env, t, fuel).Some?
    ensures var r := Eval(env, t, fuel).value.0;
            && Rigid(free, r) && (RigidHead(free, t) ==> RigidHead(free, r))
            && forall theta: VarKey -> Term :: Respects(theta, env) ==> Inst(theta, r) == Inst(theta, t)
    decreases fuel
  {
    match t
    case Var(n, i, _) =>
      if (n, i) in env.tenv { EvalRigid(free, env, Assigned(env, (n, i)), fuel - 1); }
    case Abs(_, _, b) => EvalRigid(free, env, b, fuel - 1);
    case App(f, a) =>
      EvalRigid(free, env, f, fuel - 1);
      EvalRigid(free, env, a, Eval(env, f, fuel - 1).value.1);
    case _ =>
  }

  lemma NormRigid(free: bool, env: Env, t: Term)
    requires TypesTriangular(env) && RigidEnv(free, env) && Rigid(free, t)
    ensures Rigid(free, NormTerm(env, t))
    ensures forall theta: VarKey -> Term :: Respects(theta, env) ==> Inst(theta, NormTerm(env, t)) == Inst(theta, t)
  {
    if Eval(env, t, MAX_STEPS).Some? {
      EvalRigid(free, env, t, MAX_STEPS);
    }
  }

  lemma {:induction false} InstOccurs(theta: VarKey -> Term, k: VarKey, t: Term)
    requires k in TermVars(t)
    ensures Size(theta(k)) <= Size(Inst(theta, t))
    ensures !t.Var? ==> Size(theta(k)) < Size(Inst(theta, t))
  {
    match t
    case Abs(_, _, b) => InstOccurs(theta, k, b);
    case App(f, a) => if k in TermVars(f) { InstOccurs(theta, k, f); } else { InstOccurs(theta, k, a); }
    case _ =>
  }

  // ---------- one step of a run ----------

  /** For the assignments that respect the environment, the pair has been exchanged for bindings and other pairs. */
  ghost predicate Exchange(env: Env, c: Pair, env': Env, news: seq<Pair>, dropped: seq<Pair>) {
    && (forall theta: VarKey -> Term :: Respects(theta, env) ==>
          (Inst(theta, c.left) == Inst(theta, c.right) <==>
           Respects(theta, env') && Solves(theta, news) && Solves(theta, dropped)))
    && (forall theta: VarKey -> Term :: Respects(theta, env') ==> Respects(theta, env))
  }

  /** The original problem says the same as the bindings, the pending pairs and the pairs dropped so far. */
  ghost predicate Equivalent(env0: Env, all: seq<Pair>, env: Env, pending: seq<Pair>, dropped: seq<Pair>) {
    && (forall theta: VarKey -> Term :: Respects(theta, env0) ==>
          (Solves(theta, all) <==> Respects(theta, env) && Solves(theta, pending) && Solves(theta, dropped)))
    && (forall theta: VarKey -> Term :: Respects(theta, env) ==> Respects(theta, env0))
  }

  lemma SolvesAppend(theta: VarKey -> Term, a: seq<Pair>, b: seq<Pair>)
    ensures Solves(theta, a + b) <==> Solves(theta, a) && Solves(theta, b)
  {
    var ab := a + b;
    if Solves(theta, ab) {
      forall i | 0 <= i < |a| ensures Inst(theta, a[i].left) == Inst(theta, a[i].right) { assert ab[i] == a[i]; }
      forall i | 0 <= i < |b| ensures Inst(theta, b[i].left) == Inst(theta, b[i].right) { assert ab[|a| + i] == b[i]; }
    }
  }

  lemma ExchangeStep(env0: Env, all: seq<Pair>, env: Env, front: seq<Pair>, c: Pair, dropped: seq<Pair>,
                     env': Env, news: seq<Pair>, more: seq<Pair>)
    requires Equivalent(env0, all, env, front + [c], dropped) && Exchange(env, c, env', news, more)
    ensures Equivalent(env0, all, env', front + news, dropped + more)
  {
    forall theta: VarKey -> Term | Respects(theta, env0)
      ensures Solves(theta, all) <==> Respects(theta, env') && Solves(theta, front + news) && Solves(theta, dropped + more)
    {
      SolvesAppend(theta, front, [c]);
      SolvesAppend(theta, front, news);
      SolvesAppend(theta, dropped, more);
      assert Solves(theta, [c]) <==> Inst(theta, c.left) == Inst(theta, c.right) by { assert [c][0] == c; }
    }
  }

  /** A pair without a solution leaves the original problem without one. */
  lemma NoExchange(env0: Env, all: seq<Pair>, env: Env, front: seq<Pair>, c: Pair, dropped: seq<Pair>)
    requires Equivalent(env0, all, env, front + [c], dropped)
    requires forall theta: VarKey -> Term :: Respects(theta, env) ==> Inst(theta, c.left) != Inst(theta, c.right)
    ensures forall theta: VarKey -> Term :: Respects(theta, env0) ==> !Solves(theta, all)
  {
    forall theta: VarKey -> Term | Respects(theta, env0) ensures !Solves(theta, all) {
      assert (front + [c])[|front|] == c;
    }
  }

  /** What normalisation of both sides gives, for first-order pairs. */
  ghost predicate Normalized(free: bool, env: Env, c: Pair, n: Pair) {
    && Rigid(free, n.left) && Rigid(free, n.right)
    && (forall theta: VarKey -> Term :: Respects(theta, env) ==>
          Inst(theta, n.left) == Inst(theta, c.left) && Inst(theta, n.right) == Inst(theta, c.right))
  }

  lemma SolvesOne(theta: VarKey -> Term, a: Pair)
    ensures Solves(theta, [a]) <==> Inst(theta, a.left) == Inst(theta, a.right)
    ensures Solves(theta, [])
  {
    assert [a][0] == a;
  }

  /** A pair may be exchanged for any pair with the same instances. */
  lemma ExchangeFor(env: Env, c: Pair, n: Pair)
    requires forall theta: VarKey -> Term :: Respects(theta, env) ==>
               (Inst(theta, n.left) == Inst(theta, n.right) <==> Inst(theta, c.left) == Inst(theta, c.right))
    ensures Exchange(env, c, env, [n], []) && Exchange(env, c, env, [], [n])
  {
    forall theta: VarKey -> Term ensures Solves(theta, [n]) <==> Inst(theta, n.left) == Inst(theta, n.right) {
      SolvesOne(theta, n);
    }
  }

  lemma ExchangeForNone(free: bool, env: Env, c: Pair, n: Pair)
    requires Normalized(free, env, c, n) && Shape(n.left) == Shape(n.right)
    ensures Exchange(env, c, env, [], [])
  {
    forall theta: VarKey -> Term ensures Inst(theta, n.left) == Inst(theta, n.right) {
      InstOfShape(theta, n.left);
      InstOfShape(theta, n.right);
    }
  }

  lemma {:induction false} InstOfShape(theta: VarKey -> Term, t: Term)
    ensures Inst(theta, Shape(t)) == Inst(theta, t)
  {
    match t
    case Abs(_, _, b) => InstOfShape(theta, b);
    case App(f, a) => InstOfShape(theta, f); InstOfShape(theta, a);
    case _ =>
  }

  lemma ExchangeApps(free: bool, env: Env, c: Pair, n: Pair)
    requires Normalized(free, env, c, n) && n.left.App? && n.right.App?
    ensures Exchange(env, c, env, [Pair(n.left.arg, n.right.arg), Pair(n.left.func, n.right.func)], [])
  {
    var a, f := Pair(n.left.arg, n.right.arg), Pair(n.left.func, n.right.func);
    forall theta: VarKey -> Term
      ensures Solves(theta, [a, f]) <==> Inst(theta, n.left) == Inst(theta, n.right)
    {
      assert [a, f] == [a] + [f];
      SolvesAppend(theta, [a], [f]);
      SolvesOne(theta, a);
      SolvesOne(theta, f);
    }
  }

  lemma ExchangeAbs(free: bool, env: Env, c: Pair, n: Pair)
    requires Normalized(free, env, c, n) && n.left.Abs? && n.right.Abs?
    ensures Exchange(env, c, env, [Pair(n.left.body, n.right.body)], [])
  {
    ExchangeFor(env, c, Pair(n.left.body, n.right.body));
  }

  /** Binding an unbound variable to what it is to equal. */
  lemma ExchangeBinding(free: bool, env: Env, c: Pair, n: Pair, k: VarKey, ty: Typ, t: Term)
    requires Normalized(free, env, c, n) && k !in env.tenv
    requires (n.left.Var? && k == (n.left.name, n.left.index) && t == n.right)
          || (n.right.Var? && k == (n.right.name, n.right.index) && t == n.left)
    ensures Exchange(env, c, Bind(env, k, ty, t), [], [])
  {
    var env' := Bind(env, k, ty, t);
    forall theta: VarKey -> Term
      ensures Respects(theta, env') <==> Respects(theta, env) && Inst(theta, n.left) == Inst(theta, n.right)
    {
      if Respects(theta, env') {
        forall j | j in env.tenv ensures theta(j) == Inst(theta, Assigned(env, j)) {
          assert Assigned(env', j) == Assigned(env, j);
        }
        assert theta(k) == Inst(theta, Assigned(env', k));
      }
    }
  }

  lemma NoSolutionOccurs(free: bool, env: Env, c: Pair, n: Pair, k: VarKey, t: Term)
    requires Normalized(free, env, c, n) && k in TermVars(t) && !t.Var?
    requires (n.left.Var? && k == (n.left.name, n.left.index) && t == n.right)
          || (n.right.Var? && k == (n.right.name, n.right.index) && t == n.left)
    ensures forall theta: VarKey -> Term :: Respects(theta, env) ==> Inst(theta, c.left) != Inst(theta, c.right)
  {
    forall theta: VarKey -> Term | Respects(theta, env) ensures Inst(theta, c.left) != Inst(theta, c.right) {
      InstOccurs(theta, k, t);
    }
  }

  /** Two terms whose instances all differ, because neither is a variable and their outermost nodes differ. */
  predicate Clash(l: Term, r: Term) {
    !l.Var? && !r.Var? && !(l.App? && r.App?) && !(l.Abs? && r.Abs?) && Shape(l) != Shape(r)
  }

  lemma NoSolutionClash(free: bool, env: Env, c: Pair, n: Pair)
    requires Normalized(free, env, c, n) && Clash(n.left, n.right)
    ensures forall theta: VarKey -> Term :: Respects(theta, env) ==> Inst(theta, c.left) != Inst(theta, c.right)
  {
  }

  lemma RigidAfter(free: bool, front: seq<Pair>, c: Pair, news: seq<Pair>)
    requires RigidPairs(free, front + [c]) && RigidPairs(free, news)
    ensures RigidPairs(free, front + news) && Rigid(free, c.left) && Rigid(free, c.right)
  {
    var before, after := front + [c], front + news;
    assert before[|front|] == c;
    forall i | 0 <= i < |after| ensures Rigid(free, after[i].left) && Rigid(free, after[i].right) {
      if i < |front| { assert after[i] == before[i]; } else { assert after[i] == news[i - |front|]; }
    }
  }

  // ---------- acyclicity ----------

  /** A binding to a term of unbound variables, other than the one bound, keeps the environment acyclic. */
  lemma BindKeepsAcyclic(env: Env, k: VarKey, ty: Typ, t: Term)
    requires TermsTriangular(env)
    requires k !in TermVars(t) && forall j :: j in TermVars(t) ==> j !in env.tenv
    ensures TermsTriangular(Bind(env, k, ty, t))
  {
    BindEdges(env, k, ty, t);
    RedirectToSinks(TermEdges(env), k, TermVars(t));
  }

  // ---------- indices stay within bounds ----------

  ghost predicate PairsInBounds(ps: seq<Pair>, m: nat) {
    forall i :: 0 <= i < |ps| ==> IndexUpTo(ps[i].left, m) && IndexUpTo(ps[i].right, m)
  }

  lemma {:induction false} LiftInBounds(t: Term, cutoff: nat, n: nat, m: nat)
    requires IndexUpTo(t, m)
    ensures IndexUpTo(Lift(t, cutoff, n), m)
  {
    match t
    case Abs(_, _, b) => LiftInBounds(b, cutoff, n, m);
    case App(f, a) => LiftInBounds(f, cutoff, n, m); LiftInBounds(a, cutoff, n, m);
    case _ =>
  }

  lemma {:induction false} SubstInBounds(args: seq<Term>, body: Term, m: nat)
    requires IndexUpTo(body, m) && forall i :: 0 <= i < |args| ==> IndexUpTo(args[i], m)
    ensures IndexUpTo(SubstBounds(args, body), m)
    decreases body
  {
    match body
    case Bound(i) => if i < |args| { LiftInBounds(args[i], 0, 0, m); }
    case Abs(_, _, b) =>
      forall i | 0 <= i < |args| ensures IndexUpTo(Lift(args[i], 0, 1), m) { LiftInBounds(args[i], 0, 1, m); }
      SubstInBounds(UnderBinder(args), b, m);
    case App(f, a) => SubstInBounds(args, f, m); SubstInBounds(args, a, m);
    case _ =>
  }

  lemma {:induction false} EvalInBounds(env: Env, t: Term, fuel: nat)
    requires TypesTriangular(env) && InBounds(env) && IndexUpTo(t, env.maxidx) && Eval(env, t, fuel).Some?
    ensures IndexUpTo(Eval(env, t, fuel).value.0, env.maxidx)
    decreases fuel
  {
    match t
    case Var(n, i, _) => if (n, i) in env.tenv { EvalInBounds(env, Assigned(env, (n, i)), fuel - 1); }
    case Abs(_, _, b) => EvalInBounds(env, b, fuel - 1);
    case App(f, a) =>
      var fun := Eval(env, f, fuel - 1).value;
      var arg := Eval(env, a, fun.1).value;
      EvalInBounds(env, f, fuel - 1);
      EvalInBounds(env, a, fun.1);
      if fun.0.Abs? {
        SubstInBounds([arg.0], fun.0.body, env.maxidx);
        EvalInBounds(env, SubstBounds([arg.0], fun.0.body), arg.1 - 1);
      }
    case _ =>
  }

  lemma NormInBounds(env: Env, t: Term)
    requires TypesTriangular(env) && InBounds(env) && IndexUpTo(t, env.maxidx)
    ensures IndexUpTo(NormTerm(env, t), env.maxidx)
  {
    if Eval(env, t, MAX_STEPS).Some? {
      EvalInBounds(env, t, MAX_STEPS);
    }
  }

  // ---------- terms without variables ----------

  lemma {:induction false} LiftGround(t: Term, cutoff: nat, n: nat)
    ensures TermVars(Lift(t, cutoff, n)) == TermVars(t)
  {
    match t
    case Abs(_, _, b) => LiftGround(b, cutoff, n);
    case App(f, a) => LiftGround(f, cutoff, n); LiftGround(a, cutoff, n);
    case _ =>
  }

  lemma {:induction false} SubstGround(args: seq<Term>, body: Term)
    requires TermVars(body) == {} && forall i :: 0 <= i < |args| ==> TermVars(args[i]) == {}
    ensures TermVars(SubstBounds(args, body)) == {}
    decreases body
  {
    match body
    case Bound(i) => if i < |args| { LiftGround(args[i], 0, 0); }
    case Abs(_, _, b) =>
      forall i | 0 <= i < |args| ensures TermVars(Lift(args[i], 0, 1)) == {} { LiftGround(args[i], 0, 1); }
      SubstGround(UnderBinder(args), b);
    case App(f, a) =>
      assert TermVars(f) <= TermVars(body) && TermVars(a) <= TermVars(body);
      SubstGround(args, f);
      SubstGround(args, a);
    case _ =>
  }

  lemma {:induction false} EvalGround(env: Env, t: Term, fuel: nat)
    requires TypesTriangular(env) && TermVars(t) == {} && Eval(env, t, fuel).Some?
    ensures TermVars(Eval(env, t, fuel).value.0) == {}
    decreases fuel
  {
    match t
    case Abs(_, _, b) => EvalGround(env, b, fuel - 1);
    case App(f, a) =>
      assert TermVars(f) <= TermVars(t) && TermVars(a) <= TermVars(t);
      var fun := Eval(env, f, fuel - 1).value;
      var arg := Eval(env, a, fun.1).value;
      EvalGround(env, f, fuel - 1);
      EvalGround(env, a, fun.1);
      if fun.0.Abs? {
        SubstGround([arg.0], fun.0.body);
        EvalGround(env, SubstBounds([arg.0], fun.0.body), arg.1 - 1);
      }
    case _ =>
  }

  lemma NormGround(env: Env, t: Term)
    requires TypesTriangular(env) && TermVars(t) == {}
    ensures TermVars(NormTerm(env, t)) == {}
  {
    if Eval(env, t, MAX_STEPS).Some? { EvalGround(env, t, MAX_STEPS); }
  }

  ghost predicate Finishes(env: Env, t: Term)
    requires TypesTriangular(env)
  {
    Eval(env, t, MAX_STEPS).Some?
  }

  lemma NormUnboundVars(env: Env, t: Term)
    requires TypesTriangular(env) && Finishes(env, t)
    ensures forall k :: k in TermVars(NormTerm(env, t)) ==> k !in env.tenv
  {
    EvalIsNormal(env, t, MAX_STEPS);
    NormalVars(env, NormTerm(env, t));
  }

  // ---------- the solution an acyclic environment describes ----------

  ghost function TermRank(env: Env): (rank: VarKey -> nat)
    requires TermsTriangular(env)
    ensures Ranked(TermEdges(env), rank)
  {
    var rank: VarKey -> nat :| Ranked(TermEdges(env), rank);
    rank
  }

  ghost function TermLevel(env: Env, t: Term): nat
    requires TermsTriangular(env)
  {
    Highest(TermRank(env), TermVars(t))
  }

  lemma TermLevelOfBinding(env: Env, k: VarKey, t: Term)
    requires TermsTriangular(env) && k in env.tenv && TermVars(t) == {k}
    ensures TermLevel(env, Assigned(env, k)) < TermLevel(env, t)
  {
    assert TermEdges(env)[k] == TermVars(Assigned(env, k));
  }

  /** Every bound variable replaced, over and over; an acyclic environment lets this end. */
  ghost function Expand(env: Env, t: Term): Term
    requires TermsTriangular(env)
    decreases TermLevel(env, t), t
  {
    match t
    case Const(n, _) => Const(n, DUMMY)
    case Free(n, _) => Free(n, DUMMY)
    case Var(n, i, _) =>
      if (n, i) in env.tenv then
        TermLevelOfBinding(env, (n, i), t);
        Expand(env, Assigned(env, (n, i)))
      else Var(n, i, DUMMY)
    case Bound(_) => t
    case Abs(_, _, b) => Abs("", DUMMY, Expand(env, b))
    case App(f, a) => App(Expand(env, f), Expand(env, a))
  }

  ghost function Solution(env: Env): VarKey -> Term
    requires TermsTriangular(env)
  {
    (k: VarKey) => if TermsTriangular(env) && k in env.tenv then Expand(env, Assigned(env, k)) else Var(k.0, k.1, DUMMY)
  }

  lemma {:induction false} SolutionExpands(env: Env, t: Term)
    requires TermsTriangular(env)
    ensures Inst(Solution(env), t) == Expand(env, t)
    decreases t
  {
    match t
    case Abs(_, _, b) => SolutionExpands(env, b);
    case App(f, a) => SolutionExpands(env, f); SolutionExpands(env, a);
    case _ =>
  }

  /** An acyclic environment has a solution. */
  lemma SolutionRespects(env: Env)
    requires TermsTriangular(env)
    ensures Respects(Solution(env), env)
  {
    forall k | k in env.tenv ensures Solution(env)(k) == Inst(Solution(env), Assigned(env, k)) {
      SolutionExpands(env, Assigned(env, k));
    }
  }

  lemma {:induction false} InstOfUnbound(env: Env, t: Term)
    requires TermsTriangular(env) && forall k :: k in TermVars(t) ==> k !in env.tenv
    ensures Inst(Solution(env), t) == Shape(t)
    decreases t
  {
    match t
    case Var(n, i, _) => assert (n, i) in TermVars(t);
    case Abs(_, _, b) => InstOfUnbound(env, b);
    case App(f, a) => InstOfUnbound(env, f); InstOfUnbound(env, a);
    case _ =>
  }

  lemma {:induction false} InstOfGround(theta: VarKey -> Term, t: Term)
    requires TermVars(t) == {}
    ensures Inst(theta, t) == Shape(t)
  {
    match t
    case Abs(_, _, b) => InstOfGround(theta, b);
    case App(f, a) =>
      assert TermVars(f) <= TermVars(t) && TermVars(a) <= TermVars(t);
      InstOfGround(theta, f);
      InstOfGround(theta, a);
    case _ =>
  }

  /** For first-order terms, a normalisation that ends gives the instance under the solution. */
  lemma NormIsInstance(free: bool, env: Env, t: Term)
    requires TypesTriangular(env) && TermsTriangular(env) && RigidEnv(free, env) && Rigid(free, t) && Finishes(env, t)
    ensures Shape(NormTerm(env, t)) == Inst(Solution(env), t)
  {
    SolutionRespects(env);
    NormRigid(free, env, t);
    NormUnboundVars(env, t);
    InstOfUnbound(env, NormTerm(env, t));
  }

  // ---------- normalisation as expansion and beta reduction ----------

  /** Every bound variable replaced, over and over, and every type normalised; nothing is reduced. */
  ghost function Unfold(env: Env, t: Term): Term
    requires TypesTriangular(env) && TermsTriangular(env)
    decreases TermLevel(env, t), t
  {
    match t
    case Const(n, ty) => Const(n, NormType(env, ty))
    case Free(n, ty) => Free(n, NormType(env, ty))
    case Var(n, i, ty) =>
      if (n, i) in env.tenv then
        TermLevelOfBinding(env, (n, i), t);
        Unfold(env, Assigned(env, (n, i)))
      else Var(n, i, NormType(env, ty))
    case Bound(_) => t
    case Abs(x, ty, b) => Abs(x, NormType(env, ty), Unfold(env, b))
    case App(f, a) => App(Unfold(env, f), Unfold(env, a))
  }

  /** Nothing to unfold: no bound variable, no type that the environment would change. */
  ghost predicate Unfolded(env: Env, t: Term)
    requires TypesTriangular(env)
  {
    match t
    case Const(_, ty) => NormalType(env, ty)
    case Free(_, ty) => NormalType(env, ty)
    case Var(n, i, ty) => (n, i) !in env.tenv && NormalType(env, ty)
    case Bound(_) => true
    case Abs(_, ty, b) => NormalType(env, ty) && Unfolded(env, b)
    case App(f, a) => Unfolded(env, f) && Unfolded(env, a)
  }

  lemma {:induction false} NormalUnfolded(env: Env, t: Term)
    requires TypesTriangular(env) && Normal(env, t)
    ensures Unfolded(env, t)
  {
    match t
    case Abs(_, _, b) => NormalUnfolded(env, b);
    case App(f, a) => NormalUnfolded(env, f); NormalUnfolded(env, a);
    case _ =>
  }

  lemma {:induction false} UnfoldsToItself(env: Env, t: Term)
    requires TypesTriangular(env) && TermsTriangular(env) && Unfolded(env, t)
    ensures Unfold(env, t) == t
    decreases t
  {
    match t
    case Abs(_, _, b) => UnfoldsToItself(env, b);
    case App(f, a) => UnfoldsToItself(env, f); UnfoldsToItself(env, a);
    case _ =>
  }

  lemma {:induction false} LiftUnfolded(env: Env, t: Term, cutoff: nat, n: nat)
    requires TypesTriangular(env) && Unfolded(env, t)
    ensures Unfolded(env, Lift(t, cutoff, n))
  {
    match t
    case Abs(_, _, b) => LiftUnfolded(env, b, cutoff, n);
    case App(f, a) => LiftUnfolded(env, f, cutoff, n); LiftUnfolded(env, a, cutoff, n);
    case _ =>
  }

  lemma {:induction false} SubstUnfolded(env: Env, args: seq<Term>, body: Term)
    requires TypesTriangular(env) && Unfolded(env, body) && forall i :: 0 <= i < |args| ==> Unfolded(env, args[i])
    ensures Unfolded(env, SubstBounds(args, body))
    decreases body
  {
    match body
    case Bound(i) => if i < |args| { LiftUnfolded(env, args[i], 0, 0); }
    case Abs(_, _, b) =>
      forall i | 0 <= i < |args| ensures Unfolded(env, Lift(args[i], 0, 1)) { LiftUnfolded(env, args[i], 0, 1); }
      SubstUnfolded(env, UnderBinder(args), b);
    case App(f, a) => SubstUnfolded(env, args, f); SubstUnfolded(env, args, a);
    case _ =>
  }

  /** In an acyclic environment, an evaluation that ends computes the beta normal form of the unfolded term. */
  lemma {:induction false} EvalIsUnfoldedBeta(env: Env, t: Term, fuel: nat)
    requires TypesTriangular(env) && TermsTriangular(env) && Eval(env, t, fuel).Some?
    ensures BetaNorm(Unfold(env, t), fuel) == Some(Eval(env, t, fuel).value.0)
    decreases fuel, 1
  {
    match t
    case Var(n, i, _) =>
      if (n, i) in env.tenv {
        EvalIsUnfoldedBeta(env, Assigned(env, (n, i)), fuel - 1);
        BetaNormDeeper(Unfold(env, Assigned(env, (n, i))), fuel - 1, fuel);
      }
    case App(f, a) => AppIsUnfoldedBeta(env, f, a, fuel, Eval(env, t, fuel).value.0, Eval(env, t, fuel).value.1);
    case Abs(_, _, b) => EvalIsUnfoldedBeta(env, b, fuel - 1);
    case _ =>
  }

  lemma AppIsUnfoldedBeta(env: Env, f: Term, a: Term, fuel: nat, r: Term, left: nat)
    requires TypesTriangular(env) && TermsTriangular(env) && Eval(env, App(f, a), fuel) == Some((r, left))
    ensures BetaNorm(App(Unfold(env, f), Unfold(env, a)), fuel) == Some(r)
    decreases fuel, 0
  {
    var fun, m, arg, n := EvalAppEnds(env, f, a, fuel, r, left);
    EvalIsUnfoldedBeta(env, f, fuel - 1);
    EvalIsUnfoldedBeta(env, a, m);
    BetaNormDeeper(Unfold(env, a), m, fuel - 1);
    EvalIsNormal(env, f, fuel - 1);
    EvalIsNormal(env, a, m);
    if fun.Abs? { ContractionIsBeta(env, fun, arg, n - 1, r, left, fuel - 1); }
    BetaApp(Unfold(env, f), Unfold(env, a), fuel, fun, arg, r);
  }

  /** What a contraction makes of normal parts has nothing to unfold, so it is reduced as it is. */
  lemma ContractionIsBeta(env: Env, fun: Term, arg: Term, fuel: nat, r: Term, left: nat, depth: nat)
    requires TypesTriangular(env) && TermsTriangular(env) && Normal(env, fun) && Normal(env, arg) && fun.Abs?
    requires Contract(env, fun, arg, fuel) == Some((r, left)) && fuel <= depth
    ensures BetaNorm(SubstBounds([arg], fun.body), depth) == Some(r)
    decreases fuel, 2
  {
    var reduced := SubstBounds([arg], fun.body);
    NormalUnfolded(env, fun);
    NormalUnfolded(env, arg);
    SubstUnfolded(env, [arg], fun.body);
    UnfoldsToItself(env, reduced);
    EvalIsUnfoldedBeta(env, reduced, fuel);
    BetaNormDeeper(reduced, fuel, depth);
  }
}
