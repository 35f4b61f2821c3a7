/**
 What a match that succeeds is worth. The loop ends at the first variable applied to bound or free variables, and at the
 first free variable so applied, with whatever is then pending.
 */
module Matches {
  import opened Wrappers
  import opened Syntax
  import opened WorkStack
  import opened Envir
  import opened Unify
  import opened Moves
  import opened Unifiers
  import opened Patterns

  /** The bindings make the pattern of the pair equal to its object. */
  ghost predicate Agrees(env: Env, c: Pair) {
    Instance(env, c.left) == Shape(c.right)
  }

  ghost predicate AllAgree(env: Env, s: Stack<Pair>) {
    match s
    case Empty => true
    case Push(c, rest) => Agrees(env, c) && AllAgree(env, rest)
  }

  lemma {:induction false} AllAgreeItems(env: Env, s: Stack<Pair>)
    ensures AllAgree(env, s) <==> forall c :: c in Items(s) ==> Agrees(env, c)
  {
    if s.Push? { AllAgreeItems(env, s.below); }
  }

  ghost predicate ProperStack(keys: set<VarKey>, applied: set<VarKey>, s: Stack<Pair>) {
    match s
    case Empty => true
    case Push(c, rest) => Pattern(applied, c.left) && Plain(keys, c.right) && ProperStack(keys, applied, rest)
  }

  /** A matching run on patterns and first-order objects, none of whose applied variables is bound yet. */
  ghost predicate Proper(keys: set<VarKey>, applied: set<VarKey>, g: Config) {
    PlainEnv(keys, g.env) && applied <= keys && applied !! g.env.tenv.Keys && ProperStack(keys, applied, g.pending)
  }

  /** The last pair of a run that was concluded, and its binding. */
  ghost predicate Concluding(env: Env, n: Pair) {
    && CollectBoundArgs(n.left).Some? && n.left.App?
    && (Head(n.left).Var? ==>
          && Key(Head(n.left)) in env.tenv
          && Assigned(env, Key(Head(n.left))) == AbstractArgs(CollectBoundArgs(n.left).value, n.right))
  }

  /** Matching never changes a binding, and concludes with a variable applied to bound or free variables only. */
  lemma {:induction false} MatchExtends(g: Config)
    requires TypesTriangular(g.env) && Running(Matching, g).end.Success?
    ensures var end := Running(Matching, g).end;
            && Extends(end.env, g.env) && (end.last.None? ==> end.left == [])
            && (end.last.Some? ==> Concluding(end.env, end.last.value))
    decreases g.steps
  {
    if g.pending.Push? && g.steps > 0 {
      var n, m := NormPair(g.env, g.pending.top), MoveFor(Matching, g.env, g.pending.top);
      if m.Conclude? { CollectHead(n.left); } else { MatchExtends(Next(Matching, g)); }
    }
  }

  /** A first-order object normalises to itself, a pattern to one with the same instance. */
  lemma ProperPair(keys: set<VarKey>, applied: set<VarKey>, last: Env, env: Env, c: Pair)
    requires TypesTriangular(env) && PlainEnv(keys, env) && Extends(last, env) && last.tenv.Keys <= keys
    requires applied <= keys && applied !! env.tenv.Keys && Pattern(applied, c.left) && Plain(keys, c.right)
    ensures var n := NormPair(env, c);
            n.right == c.right && Pattern(applied, n.left) && (Agrees(last, n) <==> Agrees(last, c))
  {
    PlainIsTame(keys, c.right);
    TameIsNormal(env, c.right);
    NormalStays(env, c.right);
    NormPattern(keys, applied, last, env, c.left);
  }

  lemma PlainBind(keys: set<VarKey>, env: Env, k: VarKey, ty: Typ, t: Term)
    requires PlainEnv(keys, env) && k in keys && Plain(keys, t)
    ensures PlainEnv(keys, Bind(env, k, ty, t))
  {
    var env' := Bind(env, k, ty, t);
    forall j | j in env'.tenv ensures j in keys && Plain(keys, Assigned(env', j)) {
      if j != k { assert Assigned(env', j) == Assigned(env, j); }
    }
  }

  /** A round that goes on trades a pair for pairs and bindings that agree just if it does. */
  lemma AgreementKept(keys: set<VarKey>, applied: set<VarKey>, last: Env, env: Env, rest: Stack<Pair>, n: Pair)
    requires Pattern(applied, n.left) && Plain(keys, n.right) && ProperStack(keys, applied, rest) && last.tenv.Keys <= keys
    requires PlainEnv(keys, env) && applied !! env.tenv.Keys
    requires var m := MatchMove(env, n.left, n.right); !m.Reject? && !m.Conclude? && Extends(last, After(env, m))
    ensures var m := MatchMove(env, n.left, n.right);
            && AllAgree(last, Push(n, rest)) == AllAgree(last, Pushed(rest, n, m))
            && ProperStack(keys, applied, Pushed(rest, n, m))
            && PlainEnv(keys, After(env, m)) && applied !! After(env, m).tenv.Keys
  {
    var m := MatchMove(env, n.left, n.right);
    if m.Skip? {
      PlainIsTame(keys, n.right);
      InstanceUnbound(last, n.right);
    } else if m.Apps? {
      SpineInstance(last, n.left.func);
      assert TermVars(n.right.func) <= TermVars(n.right) && TermVars(n.right.arg) <= TermVars(n.right);
      assert AllAgree(last, Pushed(rest, n, m))
          == (Agrees(last, Pair(n.left.func, n.right.func)) && AllAgree(last, Push(Pair(n.left.arg, n.right.arg), rest)));
    } else if m.Assign? {
      assert last.tenv[m.k] == After(env, m).tenv[m.k];
      PlainBind(keys, env, m.k, m.ty, m.t);
    }
  }

  /** When the binding that concluded a run is right: the indices of the object have to survive the contractions. */
  predicate ConcludedRight(n: Pair) {
    if Head(n.left).Var? && CollectBoundArgs(n.left).Some? then Stays(CollectBoundArgs(n.left).value, 0, n.right)
    else Shape(n.left) == Shape(n.right)
  }

  lemma ConcludedExact(env: Env, n: Pair)
    requires Concluding(env, n)
    ensures Agrees(env, n) <==> ConcludedRight(n)
  {
    var args := CollectBoundArgs(n.left).value;
    CollectHead(n.left);
    CollectedArgs(n.left);
    if Head(n.left).Free? {
      CollectedVars(n.left);
      InstanceUnbound(env, n.left);
    } else {
      ContractedAt(env, args, n.right, n.left);
      StaysExact(Shapes(args), 0, Shape(n.right));
      ShapeStays(args, 0, n.right);
    }
  }

  lemma {:induction false} AbstractPlain(keys: set<VarKey>, args: seq<Term>, obj: Term)
    requires Plain(keys, obj)
    ensures Plain(keys, AbstractArgs(args, obj))
  {
    if args != [] { AbstractPlain(keys, args[1..], obj); }
  }

  lemma {:induction false} RunAgrees(keys: set<VarKey>, applied: set<VarKey>, g: Config)
    requires TypesTriangular(g.env) && Proper(keys, applied, g) && Running(Matching, g).end.Success?
    requires Running(Matching, g).end.env.tenv.Keys <= keys
    ensures var end := Running(Matching, g).end;
            AllAgree(end.env, g.pending) <==>
              (end.last.Some? ==> ConcludedRight(end.last.value)) && forall c :: c in end.left ==> Agrees(end.env, c)
    ensures PlainEnv(keys, Running(Matching, g).end.env)
    decreases g.steps
  {
    if g.pending.Push? && g.steps > 0 {
      var end, c, rest := Running(Matching, g).end, g.pending.top, g.pending.below;
      var n, m := NormPair(g.env, c), MoveFor(Matching, g.env, c);
      MatchExtends(g);
      ProperPair(keys, applied, end.env, g.env, c);
      if m.Conclude? {
        AllAgreeItems(end.env, rest);
        ConcludedExact(end.env, n);
        AbstractPlain(keys, CollectBoundArgs(n.left).value, n.right);
        PlainBind(keys, g.env, m.k, m.ty, m.t);
      } else {
        MatchExtends(Next(Matching, g));
        AgreementKept(keys, applied, end.env, g.env, rest, n);
        RunAgrees(keys, applied, Next(Matching, g));
      }
    }
  }

  /**
   For every pattern and first-order object, the final bindings make them equal just if the binding that concluded the
   run, if one did, is right and what was then pending is made equal too.
   */
  lemma MatchedExactly(applied: set<VarKey>, env0: Env, pat: Term, obj: Term)
    requires TypesTriangular(env0) && MatchRun(env0, pat, obj).end.Success?
    requires var keys := MatchRun(env0, pat, obj).end.env.tenv.Keys + applied; PlainEnv(keys, env0) && Plain(keys, obj)
    requires Pattern(applied, pat) && applied !! env0.tenv.Keys
    ensures var end := MatchRun(env0, pat, obj).end;
            Agrees(end.env, Pair(pat, obj)) <==>
              (end.last.Some? ==> ConcludedRight(end.last.value)) && forall c :: c in end.left ==> Agrees(end.env, c)
    ensures var env := MatchRun(env0, pat, obj).end.env;
            TypesTriangular(env) && (Finishes(env, pat) ==> Shape(NormTerm(env, pat)) == Instance(env, pat))
  {
    var g, end := MatchConfig(env0, pat, obj), MatchRun(env0, pat, obj).end;
    var keys := end.env.tenv.Keys + applied;
    RunAgrees(keys, applied, g);
    assert AllAgree(end.env, g.pending) <==> Agrees(end.env, Pair(pat, obj));
    PatternIsTame(applied, pat);
    NoTypeBindings(end.env, DUMMY);
    if Finishes(end.env, pat) { PatternNorm(keys, end.env, pat); }
  }

  // ---------- the recursion behind the loop ----------

  datatype How =
    | Missed(why: Why)                        // no match
    | Through                                 // matched to the end
    | Stopped(last: Pair, left: seq<Pair>)    // ended by an applied variable, with what is then not yet compared

  /** The bindings made up to there, and what became of the match. */
  datatype Seen = Seen(env: Env, how: How)

  /** Matching by recursion on the object: of two applications first the functions, then the arguments. */
  function MatchTerm(env: Env, p: Term, o: Term): (r: Seen)
    requires TypesTriangular(env)
    ensures TypesTriangular(r.env)
    decreases o, 0
  {
    var n := NormTerm(env, p);
    var m := MatchMove(env, n, o);
    AfterTriangular(env, m);
    match m
    case Reject(why) => Seen(env, Missed(why))
    case Conclude(_, _, _) => Seen(After(env, m), Stopped(Pair(n, o), []))
    case Apps => MatchArg(MatchTerm(env, n.func, o.func), Pair(n.arg, o.arg))
    case Abss => MatchTerm(env, n.body, o.body)
    case _ => Seen(After(env, m), Through)
  }

  /** The arguments are compared only if the functions were matched to the end. */
  function MatchArg(fun: Seen, c: Pair): (r: Seen)
    requires TypesTriangular(fun.env)
    ensures TypesTriangular(r.env)
    decreases c.right, 1
  {
    match fun.how
    case Missed(_) => fun
    case Through => MatchTerm(fun.env, c.left, c.right)
    case Stopped(last, left) => fun.(how := Stopped(last, [c] + left))
  }

  ghost function MatchAll(env: Env, s: Stack<Pair>): (r: Seen)
    requires TypesTriangular(env)
    ensures TypesTriangular(r.env)
    decreases s, 0
  {
    match s
    case Empty => Seen(env, Through)
    case Push(c, rest) => Onward(MatchTerm(env, c.left, c.right), rest)
  }

  ghost function Onward(seen: Seen, rest: Stack<Pair>): (r: Seen)
    requires TypesTriangular(seen.env)
    ensures TypesTriangular(r.env)
    decreases rest, 1
  {
    match seen.how
    case Missed(_) => seen
    case Through => MatchAll(seen.env, rest)
    case Stopped(last, left) => seen.(how := Stopped(last, Items(rest) + left))
  }

  lemma ArgOnward(fun: Seen, c: Pair, rest: Stack<Pair>)
    requires TypesTriangular(fun.env)
    ensures Onward(MatchArg(fun, c), rest) == Onward(fun, Push(c, rest))
  {
    if fun.how.Stopped? {
      assert Items(Push(c, rest)) + fun.how.left == Items(rest) + ([c] + fun.how.left);
    }
  }

  /** How a run ends that comes to this. */
  function Ended(seen: Seen): Ending {
    match seen.how
    case Missed(why) => Failure(why)
    case Through => Success(seen.env, None, [])
    case Stopped(last, left) => Success(seen.env, Some(last), left)
  }

  lemma {:induction false} TermExtends(env: Env, p: Term, o: Term)
    requires TypesTriangular(env)
    ensures Extends(MatchTerm(env, p, o).env, env)
    decreases o, 0
  {
    var n := NormTerm(env, p);
    var m := MatchMove(env, n, o);
    if m.Apps? {
      TermExtends(env, n.func, o.func);
      ArgExtends(MatchTerm(env, n.func, o.func), Pair(n.arg, o.arg));
    } else if m.Abss? {
      TermExtends(env, n.body, o.body);
    } else {
      AfterExtends(env, n, o);
    }
  }

  lemma AfterExtends(env: Env, p: Term, o: Term)
    ensures Extends(After(env, MatchMove(env, p, o)), env)
  {
  }

  lemma ArgExtends(fun: Seen, c: Pair)
    requires TypesTriangular(fun.env)
    ensures Extends(MatchArg(fun, c).env, fun.env)
    decreases c.right, 1
  {
    if fun.how.Through? { TermExtends(fun.env, c.left, c.right); }
  }

  lemma {:induction false} AllExtends(env: Env, s: Stack<Pair>)
    requires TypesTriangular(env)
    ensures Extends(MatchAll(env, s).env, env)
    decreases s
  {
    if s.Push? {
      TermExtends(env, s.top.left, s.top.right);
      var seen := MatchTerm(env, s.top.left, s.top.right);
      if seen.how.Through? { AllExtends(seen.env, s.below); }
    }
  }

  /** A round of the loop does the same as the recursion. */
  lemma RoundSeen(env: Env, rest: Stack<Pair>, c: Pair)
    requires TypesTriangular(env) && NormTerm(env, c.right) == c.right
    ensures var n := NormPair(env, c);
            var m := MatchMove(env, n.left, n.right);
            && TypesTriangular(After(env, m))
            && (if m.Reject? then Ended(MatchAll(env, Push(c, rest))) == Failure(m.why)
                else if m.Conclude? then Ended(MatchAll(env, Push(c, rest))) == Success(After(env, m), Some(n), Items(rest))
                else MatchAll(env, Push(c, rest)) == MatchAll(After(env, m), Pushed(rest, n, m)))
  {
    var n := NormPair(env, c);
    var m := MatchMove(env, n.left, n.right);
    AfterTriangular(env, m);
    if m.Apps? {
      ArgOnward(MatchTerm(env, n.left.func, n.right.func), Pair(n.left.arg, n.right.arg), rest);
    }
  }

  /** Unless it runs out of steps, the loop ends as the recursion does. */
  lemma {:induction false} RunSeen(keys: set<VarKey>, applied: set<VarKey>, g: Config)
    requires TypesTriangular(g.env) && Proper(keys, applied, g) && MatchAll(g.env, g.pending).env.tenv.Keys <= keys
    ensures var end := Running(Matching, g).end;
            end == Failure(OutOfSteps) || end == Ended(MatchAll(g.env, g.pending))
    decreases g.steps
  {
    if g.pending.Push? && g.steps > 0 {
      var c, rest, last := g.pending.top, g.pending.below, MatchAll(g.env, g.pending).env;
      var n, m := NormPair(g.env, c), MoveFor(Matching, g.env, c);
      AllExtends(g.env, g.pending);
      ProperPair(keys, applied, last, g.env, c);
      RoundSeen(g.env, rest, c);
      if !m.Reject? && !m.Conclude? {
        AllExtends(Next(Matching, g).env, Next(Matching, g).pending);
        AgreementKept(keys, applied, last, g.env, rest, n);
        RunSeen(keys, applied, Next(Matching, g));
      }
    }
  }

  /** Each round takes a node of an object away. */
  lemma FewerNodes(rest: Stack<Pair>, n: Pair, env: Env)
    requires var m := MatchMove(env, n.left, n.right); !m.Reject? && !m.Conclude?
    ensures RightSize(Pushed(rest, n, MatchMove(env, n.left, n.right))) < Size(n.right) + RightSize(rest)
  {
  }

  lemma {:induction false} EnoughSteps(keys: set<VarKey>, applied: set<VarKey>, g: Config)
    requires TypesTriangular(g.env) && Proper(keys, applied, g) && MatchAll(g.env, g.pending).env.tenv.Keys <= keys
    requires RightSize(g.pending) <= g.steps
    ensures Running(Matching, g).end != Failure(OutOfSteps)
    decreases g.steps
  {
    if g.pending.Push? {
      var c, rest, last := g.pending.top, g.pending.below, MatchAll(g.env, g.pending).env;
      var n, m := NormPair(g.env, c), MoveFor(Matching, g.env, c);
      assert RightSize(g.pending) == Size(c.right) + RightSize(rest);
      AllExtends(g.env, g.pending);
      ProperPair(keys, applied, last, g.env, c);
      RoundSeen(g.env, rest, c);
      if m.Reject? {
        NoStepsMove(g.env, n);
      } else if !m.Conclude? {
        AllExtends(Next(Matching, g).env, Next(Matching, g).pending);
        AgreementKept(keys, applied, last, g.env, rest, n);
        FewerNodes(rest, n, g.env);
        EnoughSteps(keys, applied, Next(Matching, g));
      }
    }
  }

  lemma NoStepsMove(env: Env, n: Pair)
    ensures MatchMove(env, n.left, n.right) != Reject(OutOfSteps)
  {
  }

  /** Nothing was left uncompared, or what was is made equal too. */
  ghost predicate SeenRight(seen: Seen) {
    seen.how.Stopped? ==> ConcludedRight(seen.how.last) && forall c :: c in seen.how.left ==> Agrees(seen.env, c)
  }

  /**
   Before the call the recursion tells how the loop will end, if its steps suffice, and whether a match that succeeds makes
   the pattern equal to the object: just if the recursion was not stopped, or was with an object whose indices survive and
   with terms uncompared that the bindings make equal.
   */
  lemma MatchedBeforehand(applied: set<VarKey>, env0: Env, pat: Term, obj: Term)
    requires TypesTriangular(env0) && Pattern(applied, pat) && applied !! env0.tenv.Keys
    requires var keys := MatchTerm(env0, pat, obj).env.tenv.Keys + applied; PlainEnv(keys, env0) && Plain(keys, obj)
    ensures var seen, end := MatchTerm(env0, pat, obj), MatchRun(env0, pat, obj).end;
            && (end == Failure(OutOfSteps) || end == Ended(seen))
            && (end.Success? ==> (Instance(end.env, pat) == Shape(obj) <==> SeenRight(seen)))
  {
    var seen, g := MatchTerm(env0, pat, obj), MatchConfig(env0, pat, obj);
    var keys := seen.env.tenv.Keys + applied;
    OnePair(env0, g.pending, Pair(pat, obj));
    RunSeen(keys, applied, g);
    if Running(Matching, g).end.Success? { MatchedExactly(applied, env0, pat, obj); }
  }

  lemma OnePair(env: Env, s: Stack<Pair>, c: Pair)
    requires TypesTriangular(env) && s == Push(c, Empty)
    ensures var seen := MatchTerm(env, c.left, c.right);
            Ended(MatchAll(env, s)) == Ended(seen) && MatchAll(env, s).env == seen.env
  {
    var seen := MatchTerm(env, c.left, c.right);
    if seen.how.Stopped? { assert Items(Empty) + seen.how.left == seen.how.left; }
  }

  /** A match with steps for each node of the object ends as the recursion does. */
  lemma SmallSeen(applied: set<VarKey>, g: Config, c: Pair)
    requires TypesTriangular(g.env) && Pattern(applied, c.left) && applied !! g.env.tenv.Keys
    requires var keys := MatchTerm(g.env, c.left, c.right).env.tenv.Keys + applied;
             PlainEnv(keys, g.env) && Plain(keys, c.right)
    requires g.pending == Push(c, Empty) && Size(c.right) <= g.steps
    ensures Running(Matching, g).end == Ended(MatchTerm(g.env, c.left, c.right))
  {
    var keys := MatchTerm(g.env, c.left, c.right).env.tenv.Keys + applied;
    OnePair(g.env, g.pending, c);
    assert RightSize(g.pending) == Size(c.right) + RightSize(Empty);
    RunSeen(keys, applied, g);
    EnoughSteps(keys, applied, g);
  }

  // ---------- patterns without repeated variables ----------

  /** The variables of a term, and those a free variable of it would be bound as. */
  function Keys(t: Term): set<VarKey> {
    match t
    case Var(n, i, _) => {(n, i)}
    case Free(n, _) => {(n, 0)}
    case Abs(_, _, b) => Keys(b)
    case App(f, a) => Keys(f) + Keys(a)
    case _ => {}
  }

  /** No variable occurs twice. */
  predicate Linear(t: Term) {
    match t
    case Abs(_, _, b) => Linear(b)
    case App(f, a) => Linear(f) && Linear(a) && TermVars(f) !! TermVars(a)
    case _ => true
  }

  /** No free variable would be bound as one of the variables given. */
  predicate Unmistaken(vars: set<VarKey>, t: Term) {
    match t
    case Free(n, _) => (n, 0) !in vars
    case Abs(_, _, b) => Unmistaken(vars, b)
    case App(f, a) => Unmistaken(vars, f) && Unmistaken(vars, a)
    case _ => true
  }

  function AppliedVars(t: Term): set<VarKey> {
    match t
    case Abs(_, _, b) => AppliedVars(b)
    case App(f, a) =>
      if CollectBoundArgs(t).Some? then (if Head(t).Var? then {Key(Head(t))} else {}) else AppliedVars(f) + AppliedVars(a)
    case _ => {}
  }

  /** What a reader of the two terms meets from left to right: something amiss, no applied variable, or a first one. */
  datatype Sight = Miss | Clear | Stop(right: bool)

  /**
   A variable takes anything; different atoms, and nodes of different kinds, are amiss; the types of binders do not matter.
   An applied free variable counts as a variable, and is amiss if that one is taken. At the first applied variable the rest
   of the two terms is asked to be the same already.
   */
  function Look(taken: set<VarKey>, p: Term, o: Term): Sight
    decreases p, 0
  {
    if p == o then Clear
    else match p
      case Var(_, _, _) => Clear
      case App(f, a) =>
        if CollectBoundArgs(p).Some? then
          if Head(p).Free? && (Head(p).name, 0) in taken then Miss else Stop(ConcludedRight(Pair(p, o)))
        else if o.App? then LookArg(taken, Look(taken, f, o.func), Pair(a, o.arg))
        else Miss
      case Abs(_, _, b) => if o.Abs? then Look(taken, b, o.body) else Miss
      case _ => Miss
  }

  function LookArg(taken: set<VarKey>, fun: Sight, c: Pair): Sight
    decreases c.left, 1
  {
    match fun
    case Miss => Miss
    case Stop(right) => Stop(right && Shape(c.left) == Shape(c.right))
    case Clear => Look(taken, c.left, c.right)
  }

  lemma {:induction false} VarsAreKeys(t: Term)
    ensures TermVars(t) <= Keys(t)
    ensures AppliedVars(t) <= TermVars(t)
  {
    match t
    case Abs(_, _, b) => VarsAreKeys(b);
    case App(f, a) =>
      VarsAreKeys(f);
      VarsAreKeys(a);
      if CollectBoundArgs(t).Some? { CollectedVars(t); }
    case _ =>
  }

  lemma {:induction false} LinearPattern(applied: set<VarKey>, t: Term)
    requires Linear(t) && Tame(t) && applied * TermVars(t) == AppliedVars(t)
    ensures Pattern(applied, t)
  {
    match t
    case Var(n, i, _) => assert (n, i) in applied ==> (n, i) in applied * TermVars(t);
    case Abs(_, _, b) => LinearPattern(applied, b);
    case App(f, a) =>
      if CollectBoundArgs(t).None? {
        VarsAreKeys(f);
        VarsAreKeys(a);
        assert applied * TermVars(f) == AppliedVars(f) && applied * TermVars(a) == AppliedVars(a);
        LinearPattern(applied, f);
        LinearPattern(applied, a);
      }
    case _ =>
  }

  /** The variable a conclusion binds is the one applied, or is none of the variables that occur. */
  lemma {:induction false} CollectedKey(vars: set<VarKey>, t: Term)
    requires CollectBoundArgs(t).Some? && DestHeadVar(t).Some? && Unmistaken(vars, t)
    ensures var k := DestHeadVar(t).value.0; k in Keys(t) && (k in TermVars(t) || k !in vars)
  {
    if t.App? { CollectedKey(vars, t.func); }
  }

  /** The bindings of a match are for variables of the pattern, or for a free variable that is taken for none of them. */
  ghost predicate BindsOwn(keys: set<VarKey>, vars: set<VarKey>, p: Term, env: Env, env': Env) {
    env'.tenv.Keys <= keys && forall k :: k in env'.tenv ==> k in env.tenv || k in TermVars(p) || k !in vars
  }

  /** What stays uncompared has variables of its own, and is made equal only if it is the same already. */
  ghost predicate LeftAlone(env: Env, left: seq<Pair>) {
    forall c :: c in left ==> Tame(c.left) && TermVars(c.left) !! env.tenv.Keys
  }

  predicate SameShape(left: seq<Pair>) {
    forall c :: c in left ==> Shape(c.left) == Shape(c.right)
  }

  /** What the recursion makes of a pattern without repeated variables, and what was to be met. */
  ghost predicate LinearSeen(keys: set<VarKey>, vars: set<VarKey>, env: Env, p: Term, seen: Seen, sight: Sight) {
    && BindsOwn(keys, vars, p, env, seen.env)
    && (seen.how.Missed? ==> sight == Miss)
    && (seen.how.Through? ==>
          && sight == Clear && seen.env.tyenv == map[]
          && env.tenv.Keys <= seen.env.tenv.Keys <= env.tenv.Keys + TermVars(p))
    && (seen.how.Stopped? ==>
          LeftAlone(seen.env, seen.how.left) && sight == Stop(ConcludedRight(seen.how.last) && SameShape(seen.how.left)))
  }

  ghost predicate LinearTask(keys: set<VarKey>, taken: set<VarKey>, vars: set<VarKey>, env: Env, p: Term, o: Term) {
    && env.tyenv == map[] && env.tenv.Keys <= keys && Keys(p) <= keys && TermVars(o) !! keys
    && taken <= env.tenv.Keys <= taken + vars
    && Tame(p) && Linear(p) && Unmistaken(vars, p) && TermVars(p) <= vars && TermVars(p) !! env.tenv.Keys
  }

  lemma {:induction false} LinearTerm(keys: set<VarKey>, taken: set<VarKey>, vars: set<VarKey>, env: Env, p: Term, o: Term)
    requires TypesTriangular(env) && LinearTask(keys, taken, vars, env, p, o)
    ensures LinearSeen(keys, vars, env, p, MatchTerm(env, p, o), Look(taken, p, o))
    decreases o, 1
  {
    TameIsNormal(env, p);
    NormalStays(env, p);
    var m := MatchMove(env, p, o);
    if m.Apps? {
      LinearApps(keys, taken, vars, env, p, o);
    } else if m.Abss? {
      LinearTerm(keys, taken, vars, env, p.body, o.body);
    } else {
      LinearLeaf(keys, taken, vars, env, p, o);
    }
  }

  lemma LinearLeaf(keys: set<VarKey>, taken: set<VarKey>, vars: set<VarKey>, env: Env, p: Term, o: Term)
    requires TypesTriangular(env) && LinearTask(keys, taken, vars, env, p, o) && NormTerm(env, p) == p
    requires var m := MatchMove(env, p, o); !m.Apps? && !m.Abss?
    ensures LinearSeen(keys, vars, env, p, MatchTerm(env, p, o), Look(taken, p, o))
  {
    var m := MatchMove(env, p, o);
    if m.Reject? {
      LinearReject(keys, taken, vars, env, p, o);
    } else if m.Conclude? {
      LinearStop(keys, taken, vars, env, p, o);
    } else if m.Assign? {
      assert m.k in TermVars(p) && m.k in Keys(p);
    }
  }

  lemma LinearReject(keys: set<VarKey>, taken: set<VarKey>, vars: set<VarKey>, env: Env, p: Term, o: Term)
    requires TypesTriangular(env) && LinearTask(keys, taken, vars, env, p, o)
    requires MatchMove(env, p, o).Reject?
    ensures Look(taken, p, o) == Miss
  {
    if p.App? && CollectBoundArgs(p).Some? {
      CollectHead(p);
      CollectedKey(vars, p);
      CollectedVars(p);
      AbstractArgsVars(CollectBoundArgs(p).value, o, 0);
    }
  }

  lemma LinearStop(keys: set<VarKey>, taken: set<VarKey>, vars: set<VarKey>, env: Env, p: Term, o: Term)
    requires TypesTriangular(env) && LinearTask(keys, taken, vars, env, p, o)
    requires MatchMove(env, p, o).Conclude?
    ensures BindsOwn(keys, vars, p, env, After(env, MatchMove(env, p, o)))
    ensures Look(taken, p, o) == Stop(ConcludedRight(Pair(p, o)))
  {
    CollectHead(p);
    CollectedKey(vars, p);
  }

  lemma LinearApps(keys: set<VarKey>, taken: set<VarKey>, vars: set<VarKey>, env: Env, p: Term, o: Term)
    requires TypesTriangular(env) && LinearTask(keys, taken, vars, env, p, o)
    requires p.App? && o.App? && p != o && CollectBoundArgs(p).None?
    ensures LinearSeen(keys, vars, env, p, MatchArg(MatchTerm(env, p.func, o.func), Pair(p.arg, o.arg)), Look(taken, p, o))
    decreases o, 0
  {
    var f, c := p.func, Pair(p.arg, o.arg);
    assert TermVars(p) == TermVars(f) + TermVars(p.arg) && Keys(p) == Keys(f) + Keys(p.arg);
    assert TermVars(o) == TermVars(o.func) + TermVars(o.arg);
    LinearTerm(keys, taken, vars, env, f, o.func);
    LinearArg(keys, taken, vars, env, p, MatchTerm(env, f, o.func), Look(taken, f, o.func), c);
  }

  lemma LinearArg(keys: set<VarKey>, taken: set<VarKey>, vars: set<VarKey>, env: Env, p: Term,
                  fun: Seen, sight: Sight, c: Pair)
    requires TypesTriangular(fun.env) && LinearTask(keys, taken, vars, env, p, c.right)
    requires p.App? && CollectBoundArgs(p).None?
    requires p.arg == c.left && LinearSeen(keys, vars, env, p.func, fun, sight)
    ensures LinearSeen(keys, vars, env, p, MatchArg(fun, c), LookArg(taken, sight, c))
    decreases c.right, 2
  {
    assert TermVars(p) == TermVars(p.func) + TermVars(p.arg) && Keys(p) == Keys(p.func) + Keys(p.arg);
    match fun.how
    case Missed(_) =>
    case Through => LinearTerm(keys, taken, vars, fun.env, c.left, c.right);
    case Stopped(_, left) =>
      LeftAloneCons(fun.env, c, left);
      SameShapeCons(c, left);
  }

  lemma LeftAloneCons(env: Env, c: Pair, left: seq<Pair>)
    requires LeftAlone(env, left) && Tame(c.left) && TermVars(c.left) !! env.tenv.Keys
    ensures LeftAlone(env, [c] + left)
  {
  }

  lemma SameShapeCons(c: Pair, left: seq<Pair>)
    ensures SameShape([c] + left) <==> Shape(c.left) == Shape(c.right) && SameShape(left)
  {
    var all := [c] + left;
    assert all[0] == c && forall i :: 0 <= i < |left| ==> all[i + 1] == left[i];
  }

  /** A linear pattern whose variables nothing else can bind, against a first-order object with variables of its own. */
  ghost predicate LinearProblem(env0: Env, pat: Term, obj: Term) {
    && PlainEnv(Keys(pat) + env0.tenv.Keys, env0) && Plain(Keys(pat) + env0.tenv.Keys, obj)
    && Tame(pat) && Linear(pat) && Unmistaken(TermVars(pat), pat) && TermVars(pat) !! env0.tenv.Keys
  }

  /**
   For patterns without repeated variables it can be read off the two terms: just if no applied variable is met, or at the
   first one met the indices of its object survive the contractions and everything to the right of it is the same already.
   */
  lemma LinearBeforehand(env0: Env, pat: Term, obj: Term)
    requires TypesTriangular(env0) && LinearProblem(env0, pat, obj) && MatchRun(env0, pat, obj).end.Success?
    ensures var sight := Look(env0.tenv.Keys, pat, obj); sight.Stop? <==> MatchRun(env0, pat, obj).end.last.Some?
    ensures var env, sight := MatchRun(env0, pat, obj).end.env, Look(env0.tenv.Keys, pat, obj);
            && TypesTriangular(env)
            && (Instance(env, pat) == Shape(obj) <==> sight != Stop(false))
            && (Finishes(env, pat) ==> (Shape(NormTerm(env, pat)) == Shape(obj) <==> sight != Stop(false)))
  {
    var seen, applied := MatchTerm(env0, pat, obj), AppliedVars(pat);
    LinearLook(env0, pat, obj);
    MatchedBeforehand(applied, env0, pat, obj);
    MatchedExactly(applied, env0, pat, obj);
    if seen.how.Stopped? { SameMeansAgrees(seen.env, seen.how.left); }
  }

  lemma LinearLook(env0: Env, pat: Term, obj: Term)
    requires TypesTriangular(env0) && LinearProblem(env0, pat, obj)
    ensures Pattern(AppliedVars(pat), pat) && AppliedVars(pat) !! env0.tenv.Keys
    ensures var seen, keys := MatchTerm(env0, pat, obj), Keys(pat) + env0.tenv.Keys;
            && LinearSeen(keys, TermVars(pat), env0, pat, seen, Look(env0.tenv.Keys, pat, obj))
            && PlainEnv(seen.env.tenv.Keys + AppliedVars(pat), env0) && Plain(seen.env.tenv.Keys + AppliedVars(pat), obj)
  {
    VarsAreKeys(pat);
    LinearPattern(AppliedVars(pat), pat);
    LinearTerm(Keys(pat) + env0.tenv.Keys, env0.tenv.Keys, TermVars(pat), env0, pat, obj);
    TermExtends(env0, pat, obj);
  }

  /**
   Whether such a match succeeds can be read off too, with the variables that are bound before: just if nothing is met that
   is amiss, or the steps run out, which they do not for an object with a node for each step at most.
   */
  lemma LinearSucceeds(env0: Env, pat: Term, obj: Term)
    requires TypesTriangular(env0) && LinearProblem(env0, pat, obj)
    ensures var end := MatchRun(env0, pat, obj).end;
            && (end == Failure(OutOfSteps) || (end.Success? <==> Look(env0.tenv.Keys, pat, obj) != Miss))
            && (Size(obj) <= MATCH_STEPS ==> (end.Success? <==> Look(env0.tenv.Keys, pat, obj) != Miss))
  {
    LinearLook(env0, pat, obj);
    MatchedBeforehand(AppliedVars(pat), env0, pat, obj);
    if Size(obj) <= MATCH_STEPS { SmallSeen(AppliedVars(pat), MatchConfig(env0, pat, obj), Pair(pat, obj)); }
  }

  lemma SameMeansAgrees(env: Env, left: seq<Pair>)
    requires LeftAlone(env, left)
    ensures (forall c :: c in left ==> Agrees(env, c)) <==> SameShape(left)
  {
    forall c | c in left ensures Instance(env, c.left) == Shape(c.left) {
      InstanceUnbound(env, c.left);
    }
    if forall c :: c in left ==> Agrees(env, c) {
      forall c | c in left ensures Shape(c.left) == Shape(c.right) { assert Agrees(env, c); }
    }
  }

  /**
   The arguments of a constant are taken from the left, so what stands to the right of the first applied variable is never
   compared: two different constants there do not keep the match from succeeding.
   */
  lemma ConcludesTooEarly(c: Symbol, p: VarKey, x: Symbol, d: Symbol, t: Symbol, e: Symbol, ty: Typ)
    requires d != e
    ensures var applied := App(Var(p.0, p.1, ty), Free(x, ty));
            var pat := App(App(Const(c, ty), applied), Const(d, ty));
            var obj := App(App(Const(c, ty), Const(t, ty)), Const(e, ty));
            && TypesTriangular(INIT)
            && var end := MatchRun(INIT, pat, obj).end;
            && end.Success? && end.last == Some(Pair(applied, Const(t, ty)))
            && end.left == [Pair(Const(d, ty), Const(e, ty))]
            && TypesTriangular(end.env) && Shape(NormTerm(end.env, pat)) != Shape(obj)
  {
    var a, ground := App(Var(p.0, p.1, ty), Free(x, ty)), Const(t, ty);
    var ca, ct := App(Const(c, ty), a), App(Const(c, ty), ground);
    var pat, obj := App(ca, Const(d, ty)), App(ct, Const(e, ty));
    var left := Push(Pair(Const(d, ty), Const(e, ty)), Empty);
    AppliedToFree(INIT, p, x, ty, ground);
    InitTriangular();
    var g := ThreeRounds(Const(c, ty), a, ground, Const(d, ty), Const(e, ty));
    var last := InitRound(g, a, ground);
    assert Items(left) == [Pair(Const(d, ty), Const(e, ty))];
    PlainBind({p}, INIT, p, ty, Abs(x, ty, ground));
    assert Spine(ca) && Tame(ca);
    LastArgKept({p}, last.env, ca, d, e, ty, Shape(ct));
    assert Shape(obj) == App(Shape(ct), Const(e, DUMMY));
  }

  /** Two applications of the same constant are taken apart, the second arguments being put off. */
  lemma ThreeRounds(c: Term, a: Term, b: Term, d: Term, e: Term) returns (g: Config)
    requires c.Const? && a != b && d != e && TypesTriangular(INIT)
    requires RedexFree(a) && RedexFree(b) && RedexFree(d) && RedexFree(e)
    ensures g.env == INIT && g.pending == Push(Pair(a, b), Push(Pair(d, e), Empty)) && g.steps == MATCH_STEPS - 3
    ensures MatchRun(INIT, App(App(c, a), d), App(App(c, b), e)) == Running(Matching, g)
  {
    var ca, cb := App(c, a), App(c, b);
    assert CollectBoundArgs(ca).None? && CollectBoundArgs(App(ca, d)).None?;
    assert RedexFree(ca) && RedexFree(cb);
    g := InitRound(MatchConfig(INIT, App(ca, d), App(cb, e)), App(ca, d), App(cb, e));
    g := InitRound(g, ca, cb);
    g := InitRound(g, c, c);
  }

  lemma AppliedToFree(env: Env, p: VarKey, x: Symbol, ty: Typ, obj: Term)
    requires p !in env.tenv && obj.Const?
    ensures var a := App(Var(p.0, p.1, ty), Free(x, ty));
            && MatchMove(env, a, obj) == Conclude(p, ty, Abs(x, ty, obj))
            && RedexFree(a) && Tame(a) && CollectBoundArgs(a).Some?
  {
    var a, args := App(Var(p.0, p.1, ty), Free(x, ty)), [Free(x, ty)];
    assert CollectBoundArgs(a.func) == Some([]) && DestHeadVar(a.func) == Some((p, ty));
    assert CollectBoundArgs(a) == Some(args) by { assert [] + args == args; }
    assert args[1..] == [] && AbstractArgs([], obj) == obj;
    assert AbstractArgs(args, obj) == Abs(x, ty, obj) && TermVars(obj) == {};
    assert DestHeadVar(a) == DestHeadVar(a.func);
  }

  lemma LastArgKept(keys: set<VarKey>, env: Env, f: Term, d: Symbol, e: Symbol, ty: Typ, o: Term)
    requires PlainEnv(keys, env) && Spine(f) && Tame(f) && d != e
    ensures TypesTriangular(env) && Shape(NormTerm(env, App(f, Const(d, ty)))) != App(o, Const(e, DUMMY))
  {
    var t := App(f, Const(d, ty));
    NoTypeBindings(env, ty);
    if Finishes(env, t) {
      PatternNorm(keys, env, t);
      SpineInstance(env, f);
    }
  }

  /** A round of matching with the initial environment, on terms without redexes. */
  lemma InitRound(g: Config, p: Term, o: Term) returns (next: Config)
    requires g.env == INIT && TypesTriangular(INIT) && g.steps > 0 && g.pending.Push? && g.pending.top == Pair(p, o)
    requires RedexFree(p) && RedexFree(o) && !MatchMove(INIT, p, o).Reject?
    ensures var m := MatchMove(INIT, p, o);
            && next.env == After(INIT, m) && next.pending == Pushed(g.pending.below, Pair(p, o), m)
            && next.steps == g.steps - 1
            && TypesTriangular(next.env)
            && (if m.Conclude? then Running(Matching, g).end == Success(next.env, Some(Pair(p, o)), Items(g.pending.below))
                else Running(Matching, g) == Running(Matching, next))
  {
    InitKeepsRedexFree(p);
    InitKeepsRedexFree(o);
    next := Next(Matching, g);
  }
}
