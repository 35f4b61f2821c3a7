/** One round of unification and of matching: the branches the loops take and what each of them keeps. */
module Moves {
  import opened Wrappers
  import opened Numerals
  import opened Syntax
  import opened Envir
  import opened Unify

  ghost predicate FlexFlex(ps: seq<Pair>) {
    forall i :: 0 <= i < |ps| ==> ps[i].left.Var? && ps[i].right.Var?
  }

  /** The environment a run works on, with the pairs it still has to process. */
  ghost predicate Working(env0: Env, env: Env, pending: seq<Pair>) {
    && env.tyenv == env0.tyenv && env.maxidx == env0.maxidx && TypesTriangular(env)
    && InBounds(env) && PairsInBounds(pending, env.maxidx)
  }

  ghost predicate RigidProblem(free: bool, env: Env, ps: seq<Pair>) {
    RigidEnv(free, env) && RigidPairs(free, ps)
  }

  /** For first-order problems: nothing was lost and nothing was added. */
  ghost predicate FirstOrder(free: bool, env0: Env, all: seq<Pair>, env: Env, pending: seq<Pair>, flexFlex: seq<Pair>) {
    RigidProblem(free, env0, all) ==>
      RigidEnv(free, env) && RigidPairs(free, pending) && Equivalent(env0, all, env, pending, flexFlex)
  }

  lemma WorkingPop(env0: Env, env: Env, front: seq<Pair>, c: Pair)
    requires Working(env0, env, front + [c])
    ensures Working(env0, env, front) && IndexUpTo(c.left, env.maxidx) && IndexUpTo(c.right, env.maxidx)
    ensures IndexUpTo(NormTerm(env, c.left), env.maxidx) && IndexUpTo(NormTerm(env, c.right), env.maxidx)
  {
    var all := front + [c];
    assert all[|front|] == c;
    forall i | 0 <= i < |front| ensures IndexUpTo(front[i].left, env.maxidx) && IndexUpTo(front[i].right, env.maxidx) {
      assert all[i] == front[i];
    }
    NormInBounds(env, c.left);
    NormInBounds(env, c.right);
  }

  lemma WorkingBind(env0: Env, env: Env, pending: seq<Pair>, k: VarKey, ty: Typ, t: Term)
    requires Working(env0, env, pending) && IndexUpTo(t, env.maxidx) && k.1 <= env.maxidx
    ensures Working(env0, Bind(env, k, ty, t), pending)
  {
    var env' := Bind(env, k, ty, t);
    assert TypeMap(env') == TypeMap(env);
    forall j | j in env'.tenv ensures IndexUpTo(Assigned(env', j), env'.maxidx) {
      if j != k { assert Assigned(env', j) == Assigned(env, j); }
    }
  }

  lemma RigidBind(free: bool, env: Env, k: VarKey, ty: Typ, t: Term)
    requires RigidEnv(free, env) && Rigid(free, t)
    ensures RigidEnv(free, Bind(env, k, ty, t))
  {
    var env' := Bind(env, k, ty, t);
    forall j | j in env'.tenv ensures Rigid(free, Assigned(env', j)) {
      if j != k { assert Assigned(env', j) == Assigned(env, j); }
    }
  }

  // ---------- what a run does with a normalised pair ----------

  /** Why a run fails. */
  datatype Why =
    | Clashed           // two terms that have no common instance
    | BinderTypes       // two abstractions over different types
    | TypesDiffer       // two atoms that differ in their types only
    | ObjectVariable    // a variable on the right that the pattern does not bind
    | AlreadyBound      // a variable that is bound and still there
    | AppliedOccurs     // an applied variable that occurs in what it is to give
    | OutOfSteps

  datatype Move =
    | Skip                                      // nothing is left to do
    | Postpone                                  // two variables: the pair is dropped
    | Assign(k: VarKey, ty: Typ, t: Term)       // a binding
    | Retry(p: Pair)                            // another pair instead
    | Apps                                      // the parts of two applications
    | Abss                                      // the bodies of two abstractions
    | Conclude(k: VarKey, ty: Typ, t: Term)     // a last binding: the run ends
    | Reject(why: Why)                          // the run fails

  function After(env: Env, m: Move): Env {
    if m.Assign? || m.Conclude? then Bind(env, m.k, m.ty, m.t) else env
  }

  predicate Fits(n: Pair, m: Move) {
    && (m.Apps? ==> n.left.App? && n.right.App?)
    && (m.Abss? ==> n.left.Abs? && n.right.Abs?)
  }

  function News(n: Pair, m: Move): seq<Pair> {
    match m
    case Apps => if n.left.App? && n.right.App? then [Pair(n.left.arg, n.right.arg), Pair(n.left.func, n.right.func)] else []
    case Abss => if n.left.Abs? && n.right.Abs? then [Pair(n.left.body, n.right.body)] else []
    case Retry(p) => [p]
    case _ => []
  }

  /** The pair equates the variable with the term. */
  ghost predicate Equates(n: Pair, k: VarKey, t: Term) {
    || (n.left.Var? && k == (n.left.name, n.left.index) && t == n.right)
    || (n.right.Var? && k == (n.right.name, n.right.index) && t == n.left)
  }

  /** The moves that keep the solutions of a first-order pair, and the rejections that are justified. */
  ghost predicate Allowed(free: bool, env: Env, n: Pair, m: Move) {
    match m
    case Skip => Shape(n.left) == Shape(n.right)
    case Postpone => true
    case Assign(k, _, t) => k !in env.tenv && Equates(n, k, t)
    case Retry(p) =>
      Rigid(free, p.left) && Rigid(free, p.right)
      && forall theta: VarKey -> Term :: Respects(theta, env) ==>
           Inst(theta, p.left) == Inst(theta, n.left) && Inst(theta, p.right) == Inst(theta, n.right)
    case Apps => n.left.App? && n.right.App?
    case Abss => n.left.Abs? && n.right.Abs?
    case Conclude(_, _, _) => false
    case Reject(why) =>
      why == Clashed ==> Clash(n.left, n.right) || exists k, t :: Equates(n, k, t) && k in TermVars(t) && !t.Var?
  }

  function NormPair(env: Env, c: Pair): Pair
    requires TypesTriangular(env)
  {
    Pair(NormTerm(env, c.left), NormTerm(env, c.right))
  }

  lemma MoveExchanges(free: bool, env: Env, c: Pair, m: Move)
    requires TypesTriangular(env) && RigidEnv(free, env) && Rigid(free, c.left) && Rigid(free, c.right)
    requires Allowed(free, env, NormPair(env, c), m) && !m.Reject?
    ensures Fits(NormPair(env, c), m)
    ensures Exchange(env, c, After(env, m), News(NormPair(env, c), m), if m.Postpone? then [NormPair(env, c)] else [])
    ensures RigidEnv(free, After(env, m)) && RigidPairs(free, News(NormPair(env, c), m))
  {
    var n := NormPair(env, c);
    NormRigid(free, env, c.left);
    NormRigid(free, env, c.right);
    match m {
      case Skip => ExchangeForNone(free, env, c, n);
      case Postpone => ExchangeFor(env, c, n);
      case Assign(k, ty, t) => ExchangeBinding(free, env, c, n, k, ty, t); RigidBind(free, env, k, ty, t);
      case Retry(p) => ExchangeFor(env, c, p);
      case Apps => ExchangeApps(free, env, c, n);
      case Abss => ExchangeAbs(free, env, c, n);
    }
  }

  /** No assignment that respects the environment solves the pairs. */
  ghost predicate Hopeless(env: Env, ps: seq<Pair>) {
    forall theta: VarKey -> Term :: Respects(theta, env) ==> !Solves(theta, ps)
  }

  lemma RejectIsRight(free: bool, env0: Env, all: seq<Pair>, env: Env, front: seq<Pair>, c: Pair, flexFlex: seq<Pair>)
    requires TypesTriangular(env) && FirstOrder(free, env0, all, env, front + [c], flexFlex)
    requires RigidEnv(free, env) && Rigid(free, c.left) && Rigid(free, c.right) ==>
               Allowed(free, env, NormPair(env, c), Reject(Clashed))
    ensures RigidProblem(free, env0, all) ==> Hopeless(env0, all)
  {
    if RigidProblem(free, env0, all) {
      RigidAfter(free, front, c, []);
      var n := NormPair(env, c);
      NormRigid(free, env, c.left);
      NormRigid(free, env, c.right);
      if Clash(n.left, n.right) {
        NoSolutionClash(free, env, c, n);
      } else {
        var k, t :| Equates(n, k, t) && k in TermVars(t) && !t.Var?;
        NoSolutionOccurs(free, env, c, n, k, t);
      }
      NoExchange(env0, all, env, front, c, flexFlex);
    }
  }

  /** The moves that only bind variables within bounds, to terms that do not mention them. */
  ghost predicate Harmless(env: Env, n: Pair, m: Move) {
    && Fits(n, m)
    && (m.Assign? || m.Conclude? ==>
          && m.k.1 <= env.maxidx && m.k !in TermVars(m.t) && IndexUpTo(m.t, env.maxidx)
          && TermVars(m.t) <= TermVars(n.left) + TermVars(n.right))
    && (m.Retry? ==> IndexUpTo(m.p.left, env.maxidx) && IndexUpTo(m.p.right, env.maxidx))
  }

  lemma MoveWorks(env0: Env, env: Env, front: seq<Pair>, c: Pair, m: Move)
    requires Working(env0, env, front + [c]) && Harmless(env, NormPair(env, c), m)
    ensures Working(env0, After(env, m), front + News(NormPair(env, c), m))
    ensures Finishes(env, c.left) && Finishes(env, c.right) && TermsTriangular(env) ==> TermsTriangular(After(env, m))
  {
    var n := NormPair(env, c);
    WorkingPop(env0, env, front, c);
    if m.Assign? || m.Conclude? {
      WorkingBind(env0, env, front, m.k, m.ty, m.t);
      if Finishes(env, c.left) && Finishes(env, c.right) && TermsTriangular(env) {
        NormUnboundVars(env, c.left);
        NormUnboundVars(env, c.right);
        BindKeepsAcyclic(env, m.k, m.ty, m.t);
      }
    }
  }

  /** What a run notes besides its environment. */
  datatype Trail = Trail(
    flexFlex: seq<Pair>,  // pairs of two variables, dropped without being solved
    finished: bool        // every normalisation ended within its budget
  )

  ghost predicate State(free: bool, env0: Env, all: seq<Pair>, env: Env, pending: seq<Pair>, trail: Trail) {
    && Working(env0, env, pending)
    && FirstOrder(free, env0, all, env, pending, trail.flexFlex)
    && FlexFlex(trail.flexFlex)
    && (trail.finished && TermsTriangular(env0) ==> TermsTriangular(env))
  }

  ghost function NextTrail(env: Env, c: Pair, m: Move, trail: Trail): Trail
    requires TypesTriangular(env)
  {
    Trail(trail.flexFlex + if m.Postpone? then [NormPair(env, c)] else [],
          trail.finished && Finishes(env, c.left) && Finishes(env, c.right))
  }

  lemma Progress(free: bool, env0: Env, all: seq<Pair>, env: Env, front: seq<Pair>, c: Pair, trail: Trail, m: Move)
    requires State(free, env0, all, env, front + [c], trail) && !m.Reject?
    requires Harmless(env, NormPair(env, c), m)
    requires m.Postpone? ==> NormPair(env, c).left.Var? && NormPair(env, c).right.Var?
    requires RigidEnv(free, env) && Rigid(free, c.left) && Rigid(free, c.right) ==> Allowed(free, env, NormPair(env, c), m)
    ensures State(free, env0, all, After(env, m), front + News(NormPair(env, c), m), NextTrail(env, c, m, trail))
    ensures m.Conclude? ==> !RigidProblem(free, env0, all)
  {
    MoveWorks(env0, env, front, c, m);
    if RigidProblem(free, env0, all) {
      var n := NormPair(env, c);
      RigidAfter(free, front, c, []);
      MoveExchanges(free, env, c, m);
      ExchangeStep(env0, all, env, front, c, trail.flexFlex, After(env, m), News(n, m), if m.Postpone? then [n] else []);
      RigidAfter(free, front, c, News(n, m));
    }
  }

  lemma SolvedPairsAgree(free: bool, env0: Env, pairs: seq<Pair>, env: Env, i: nat)
    requires TypesTriangular(env) && TermsTriangular(env) && RigidEnv(free, env) && RigidPairs(free, pairs)
    requires Equivalent(env0, pairs, env, [], []) && i < |pairs|
    requires Finishes(env, pairs[i].left) && Finishes(env, pairs[i].right)
    ensures Shape(NormTerm(env, pairs[i].left)) == Shape(NormTerm(env, pairs[i].right))
  {
    var theta := Solution(env);
    SolutionRespects(env);
    assert Respects(theta, env0) && Solves(theta, pairs);
    NormIsInstance(free, env, pairs[i].left);
    NormIsInstance(free, env, pairs[i].right);
  }

  lemma MatchedPatternIsObject(env0: Env, pat: Term, obj: Term, env: Env)
    requires TypesTriangular(env) && TermsTriangular(env) && RigidEnv(false, env) && Rigid(false, pat)
    requires Equivalent(env0, [Pair(pat, obj)], env, [], []) && TermVars(obj) == {} && Finishes(env, pat)
    ensures Shape(NormTerm(env, pat)) == Shape(obj)
  {
    var theta := Solution(env);
    SolutionRespects(env);
    assert Respects(theta, env0) && Solves(theta, [Pair(pat, obj)]);
    assert [Pair(pat, obj)][0] == Pair(pat, obj);
    NormIsInstance(false, env, pat);
    InstOfGround(theta, obj);
  }

  // ---------- unification ----------

  const IDENTITY: Term := Abs("x", DUMMY, Bound(0))

  /** A variable applied to the very term it is to give. */
  predicate IdentityApp(l: Term, r: Term) {
    l.App? && l.func.Var? && Shape(l.arg) == Shape(r)
  }

  function BindVar(env: Env, v: Term, rigid: Term, retry: Pair): Move
    requires v.Var?
  {
    var k := (v.name, v.index);
    if k in env.tenv then Retry(retry) else if k in TermVars(rigid) then Reject(Clashed) else Assign(k, v.typ, rigid)
  }

  /** The branches of the unification loop, on normalised terms. */
  function UnifyMove(env: Env, t: Term, u: Term): Move
    requires TypesTriangular(env)
  {
    if t == u then Skip
    else if t.Var? && u.Var? then Postpone
    else if t.Var? then BindVar(env, t, u, Pair(NormTerm(env, t), u))
    else if u.Var? then BindVar(env, u, t, Pair(t, NormTerm(env, u)))
    else RigidMove(t, u)
  }

  function RigidMove(t: Term, u: Term): Move {
    if t.App? && u.App? then Apps
    else if t.Abs? && u.Abs? then (if t.typ != u.typ then Reject(BinderTypes) else Abss)
    else if IsAtom(t) && Shape(t) == Shape(u) then Skip
    else if IdentityApp(t, u) then Assign((t.func.name, t.func.index), t.func.typ, IDENTITY)
    else if IdentityApp(u, t) then Assign((u.func.name, u.func.index), u.func.typ, IDENTITY)
    else Reject(Clashed)
  }

  predicate IsAtom(t: Term) {
    t.Const? || t.Bound? || t.Free?
  }

  lemma BindVarIsRight(free: bool, env: Env, n: Pair, v: Term, rigid: Term, retry: Pair)
    requires TypesTriangular(env) && v.Var? && !rigid.Var?
    requires (n.left == v && n.right == rigid && retry == Pair(NormTerm(env, v), rigid))
          || (n.left == rigid && n.right == v && retry == Pair(rigid, NormTerm(env, v)))
    ensures RigidEnv(free, env) && Rigid(free, rigid) ==> Allowed(free, env, n, BindVar(env, v, rigid, retry))
    ensures InBounds(env) && IndexUpTo(v, env.maxidx) && IndexUpTo(rigid, env.maxidx) ==>
              Harmless(env, n, BindVar(env, v, rigid, retry))
  {
    assert Equates(n, (v.name, v.index), rigid);
    if RigidEnv(free, env) { NormRigid(free, env, v); }
    if InBounds(env) && IndexUpTo(v, env.maxidx) { NormInBounds(env, v); }
  }

  lemma RigidMoveIsRight(env: Env, n: Pair)
    requires !n.left.Var? && !n.right.Var?
    ensures Rigid(true, n.left) && Rigid(true, n.right) ==> Allowed(true, env, n, RigidMove(n.left, n.right))
    ensures IndexUpTo(n.left, env.maxidx) && IndexUpTo(n.right, env.maxidx) ==>
              Harmless(env, n, RigidMove(n.left, n.right))
  {
    assert TermVars(IDENTITY) == {};
    if n.left.App? && IndexUpTo(n.left, env.maxidx) { assert IndexUpTo(n.left.func, env.maxidx); }
    if n.right.App? && IndexUpTo(n.right, env.maxidx) { assert IndexUpTo(n.right.func, env.maxidx); }
  }

  lemma UnifyMoveAllowed(env: Env, n: Pair)
    requires TypesTriangular(env) && RigidEnv(true, env) && Rigid(true, n.left) && Rigid(true, n.right)
    ensures Allowed(true, env, n, UnifyMove(env, n.left, n.right))
  {
    if n.left.Var? && !n.right.Var? {
      BindVarIsRight(true, env, n, n.left, n.right, Pair(NormTerm(env, n.left), n.right));
    } else if n.right.Var? && !n.left.Var? {
      BindVarIsRight(true, env, n, n.right, n.left, Pair(n.left, NormTerm(env, n.right)));
    } else if !n.left.Var? && !n.right.Var? {
      RigidMoveIsRight(env, n);
    }
  }

  lemma UnifyMoveIsRight(env0: Env, env: Env, front: seq<Pair>, c: Pair)
    requires Working(env0, env, front + [c])
    ensures var n := NormPair(env, c); Harmless(env, n, UnifyMove(env, n.left, n.right))
    ensures RigidEnv(true, env) && Rigid(true, c.left) && Rigid(true, c.right) ==>
              var n := NormPair(env, c); Allowed(true, env, n, UnifyMove(env, n.left, n.right))
  {
    var n := NormPair(env, c);
    WorkingPop(env0, env, front, c);
    if RigidEnv(true, env) && Rigid(true, c.left) && Rigid(true, c.right) {
      NormRigid(true, env, c.left);
      NormRigid(true, env, c.right);
    }
    if n.left.Var? && !n.right.Var? {
      BindVarIsRight(true, env, n, n.left, n.right, Pair(NormTerm(env, n.left), n.right));
    } else if n.right.Var? && !n.left.Var? {
      BindVarIsRight(true, env, n, n.right, n.left, Pair(n.left, NormTerm(env, n.right)));
    } else if !n.left.Var? && !n.right.Var? {
      RigidMoveIsRight(env, n);
    }
  }

  /** What one round does to the state of the run. */
  ghost predicate Round(free: bool, env0: Env, all: seq<Pair>, env: Env, front: seq<Pair>, c: Pair, trail: Trail, m: Move)
    requires TypesTriangular(env)
  {
    if m.Reject? then m.why == Clashed && RigidProblem(free, env0, all) ==> Hopeless(env0, all)
    else
      && Fits(NormPair(env, c), m)
      && (m.Assign? || m.Conclude? ==> m.k.1 <= env.maxidx)
      && (m.Conclude? ==> !RigidProblem(free, env0, all))
      && State(free, env0, all, After(env, m), front + News(NormPair(env, c), m), NextTrail(env, c, m, trail))
  }

  lemma UnifyRound(env0: Env, all: seq<Pair>, env: Env, front: seq<Pair>, c: Pair, trail: Trail)
    requires State(true, env0, all, env, front + [c], trail)
    ensures var n := NormPair(env, c); Round(true, env0, all, env, front, c, trail, UnifyMove(env, n.left, n.right))
  {
    var n := NormPair(env, c);
    var m := UnifyMove(env, n.left, n.right);
    UnifyMoveIsRight(env0, env, front, c);
    if m.Reject? {
      if m.why == Clashed { RejectIsRight(true, env0, all, env, front, c, trail.flexFlex); }
    } else {
      Progress(true, env0, all, env, front, c, trail, m);
    }
  }

  method UnifyBranch(env: Envir, t: Term, u: Term) returns (m: Move)
    requires TypesTriangular(env.View())
    ensures m == UnifyMove(env.View(), t, u)
  {
    if t == u {
      m := Skip;
    } else if t.Var? && u.Var? {
      m := Postpone;
    } else if t.Var? {
      m := BindVarStep(env, t, u, true);
    } else if u.Var? {
      m := BindVarStep(env, u, t, false);
    } else {
      m := RigidBranch(t, u);
    }
  }

  method RigidBranch(t: Term, u: Term) returns (m: Move)
    ensures m == RigidMove(t, u)
  {
    if t.App? && u.App? { return Apps; }
    if t.Abs? && u.Abs? { return if t.typ != u.typ then Reject(BinderTypes) else Abss; }
    if IsAtom(t) && Shape(t) == Shape(u) { return Skip; }
    if t.App? && t.func.Var? {
      var same := TermEqNoTypes(t.arg, u);
      if same { return Assign((t.func.name, t.func.index), t.func.typ, IDENTITY); }
    }
    if u.App? && u.func.Var? {
      var same := TermEqNoTypes(u.arg, t);
      if same { return Assign((u.func.name, u.func.index), u.func.typ, IDENTITY); }
    }
    m := Reject(Clashed);
  }

  method BindVarStep(env: Envir, v: Term, rigid: Term, left: bool) returns (m: Move)
    requires TypesTriangular(env.View()) && v.Var?
    ensures var n := NormTerm(env.View(), v);
            m == BindVar(env.View(), v, rigid, if left then Pair(n, rigid) else Pair(rigid, n))
  {
    var k := (v.name, v.index);
    if k in env.tenv {
      var renamed := env.NormTermIter(v);
      return Retry(if left then Pair(renamed, rigid) else Pair(rigid, renamed));
    }
    var occurs := OccursCheck(k, rigid);
    m := if occurs then Reject(Clashed) else Assign(k, v.typ, rigid);
  }

  // ---------- matching ----------

  /** The arguments of a variable applied to distinct bound or free variables; a free head counts as a variable. */
  function CollectBoundArgs(t: Term): Option<seq<Term>> {
    match t
    case Var(_, _, _) => Some([])
    case Free(_, _) => Some([])
    case App(f, a) =>
      (match CollectBoundArgs(f)
       case None => None
       case Some(args) => if (a.Bound? || a.Free?) && a !in args then Some(args + [a]) else None)
    case _ => None
  }

  function DestHeadVar(t: Term): Option<(VarKey, Typ)> {
    match t
    case Var(n, i, ty) => Some(((n, i), ty))
    case Free(n, ty) => Some(((n, 0), ty))
    case App(f, _) => DestHeadVar(f)
    case _ => None
  }

  /** Binders for the arguments are put around the object as it is; the first argument gets the outermost binder. */
  function AbstractArgs(args: seq<Term>, obj: Term): Term {
    if args == [] then obj
    else
      var body := AbstractArgs(args[1..], obj);
      match args[0]
      case Bound(i) => Abs("x" + Decimal(i), DUMMY, body)
      case Free(n, ty) => Abs(n, ty, body)
      case Var(n, _, ty) => Abs(n, ty, body)
      case _ => body
  }

  /** Why a pattern and an object whose outermost nodes do not go together are rejected. */
  function Mismatch(pat: Term, obj: Term): Why {
    if obj.Var? then ObjectVariable else if Shape(pat) == Shape(obj) then TypesDiffer else Clashed
  }

  /** The branches of the matching loop, on a normalised pattern and object. */
  function MatchMove(env: Env, pat: Term, obj: Term): Move {
    if pat == obj then Skip
    else if pat.Var? then
      var k := (pat.name, pat.index);
      if k in env.tenv then Reject(AlreadyBound)
      else if k in TermVars(obj) then Reject(if obj.Var? then ObjectVariable else Clashed)
      else Assign(k, pat.typ, obj)
    else if pat.App? then
      match CollectBoundArgs(pat)
      case Some(args) =>
        (match DestHeadVar(pat)
         case None => Reject(AppliedOccurs)
         case Some((k, ty)) =>
           var abstracted := AbstractArgs(args, obj);
           if k in env.tenv then Reject(AlreadyBound)
           else if k in TermVars(abstracted) then Reject(AppliedOccurs)
           else Conclude(k, ty, abstracted))
      case None => if obj.App? then Apps else Reject(Mismatch(pat, obj))
    else if pat.Abs? && obj.Abs? then Abss
    else Reject(Mismatch(pat, obj))
  }

  lemma {:induction false} RigidHasNoArgs(t: Term)
    requires Rigid(false, t) && t.App?
    ensures CollectBoundArgs(t).None?
  {
    if t.func.App? { RigidHasNoArgs(t.func); }
  }

  lemma {:induction false} AbstractArgsVars(args: seq<Term>, obj: Term, m: nat)
    ensures TermVars(AbstractArgs(args, obj)) == TermVars(obj)
    ensures IndexUpTo(obj, m) ==> IndexUpTo(AbstractArgs(args, obj), m)
  {
    if args != [] { AbstractArgsVars(args[1..], obj, m); }
  }

  lemma {:induction false} HeadVarInBounds(t: Term, m: nat)
    requires IndexUpTo(t, m) && DestHeadVar(t).Some?
    ensures DestHeadVar(t).value.0.1 <= m
  {
    if t.App? { HeadVarInBounds(t.func, m); }
  }

  lemma MatchMoveIsHarmless(env: Env, n: Pair)
    requires InBounds(env) && IndexUpTo(n.left, env.maxidx) && IndexUpTo(n.right, env.maxidx)
    ensures Harmless(env, n, MatchMove(env, n.left, n.right))
  {
    if n.left.App? && CollectBoundArgs(n.left).Some? && DestHeadVar(n.left).Some? {
      AbstractArgsVars(CollectBoundArgs(n.left).value, n.right, env.maxidx);
      HeadVarInBounds(n.left, env.maxidx);
    }
  }

  lemma MatchMoveIsRight(env: Env, n: Pair)
    requires Rigid(false, n.left) && Rigid(false, n.right)
    ensures Allowed(false, env, n, MatchMove(env, n.left, n.right))
  {
    if n.left.App? { RigidHasNoArgs(n.left); }
    if n.left.Var? { assert Equates(n, (n.left.name, n.left.index), n.right); }
  }

  lemma MatchRound(env0: Env, all: seq<Pair>, env: Env, front: seq<Pair>, c: Pair, trail: Trail)
    requires State(false, env0, all, env, front + [c], trail)
    ensures var n := NormPair(env, c); Round(false, env0, all, env, front, c, trail, MatchMove(env, n.left, n.right))
  {
    var n := NormPair(env, c);
    var m := MatchMove(env, n.left, n.right);
    WorkingPop(env0, env, front, c);
    MatchMoveIsHarmless(env, n);
    if RigidEnv(false, env) && Rigid(false, c.left) && Rigid(false, c.right) {
      NormRigid(false, env, c.left);
      NormRigid(false, env, c.right);
      MatchMoveIsRight(env, n);
    }
    if m.Reject? {
      if m.why == Clashed { RejectIsRight(false, env0, all, env, front, c, trail.flexFlex); }
    } else {
      Progress(false, env0, all, env, front, c, trail, m);
    }
  }

  method MatchBranch(env: Envir, pat: Term, obj: Term) returns (m: Move)
    ensures m == MatchMove(env.View(), pat, obj)
  {
    if pat == obj { return Skip; }
    if pat.Var? {
      var k := (pat.name, pat.index);
      if k in env.tenv { return Reject(AlreadyBound); }
      var occurs := OccursCheck(k, obj);
      return if occurs then Reject(if obj.Var? then ObjectVariable else Clashed) else Assign(k, pat.typ, obj);
    }
    if pat.App? {
      var args := CollectBoundArgs(pat);
      if args.Some? {
        var head := DestHeadVar(pat);
        if head.None? { return Reject(AppliedOccurs); }
        var (k, ty) := head.value;
        if k in env.tenv { return Reject(AlreadyBound); }
        var abstracted := AbstractArgsLoop(args.value, obj);
        var occurs := OccursCheck(k, abstracted);
        return if occurs then Reject(AppliedOccurs) else Conclude(k, ty, abstracted);
      }
      return if obj.App? then Apps else Reject(Mismatch(pat, obj));
    }
    m := if pat.Abs? && obj.Abs? then Abss else Reject(Mismatch(pat, obj));
  }

  method AbstractArgsLoop(args: seq<Term>, obj: Term) returns (abstracted: Term)
    ensures abstracted == AbstractArgs(args, obj)
  {
    abstracted := obj;
    var i := |args|;
    while i > 0
      invariant 0 <= i <= |args|
      invariant abstracted == AbstractArgs(args[i..], obj)
    {
      i := i - 1;
      assert args[i..][1..] == args[i + 1..] && args[i..][0] == args[i];
      match args[i] {
        case Bound(j) => abstracted := Abs("x" + Decimal(j), DUMMY, abstracted);
        case Free(n, ty) => abstracted := Abs(n, ty, abstracted);
        case Var(n, _, ty) => abstracted := Abs(n, ty, abstracted);
        case _ =>
      }
    }
    assert args[0..] == args;
  }
}
