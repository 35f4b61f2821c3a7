/**
 Matching of higher-order patterns: variables applied to distinct bound or free variables. The loop binds such a variable
 at once and ends with whatever is still pending, so a match that succeeds need not make the pattern equal to the object.
 Here is said exactly when it does.
 */
module Patterns {
  import opened Wrappers
  import opened Syntax
  import opened TermSubst
  import opened TypeResolve
  import opened Envir
  import opened Unify
  import opened Moves
  import opened Numerals
  import TermOrd

  // ---------- patterns and plain terms ----------

  function Head(t: Term): Term {
    if t.App? then Head(t.func) else t
  }

  function Key(v: Term): VarKey
    requires v.Var?
  {
    (v.name, v.index)
  }

  /** The head is a constant, a bound or a free variable. */
  predicate Spine(t: Term) {
    match t
    case App(f, _) => Spine(f)
    case _ => IsAtom(t)
  }

  /** An applied variable, or an application whose head is none; types and names play no part. */
  predicate Tame(t: Term) {
    match t
    case Abs(_, _, b) => Tame(b)
    case App(f, a) => CollectBoundArgs(t).Some? || (Spine(f) && Tame(f) && Tame(a))
    case _ => true
  }

  /** Every variable is either always or never applied, and if applied then to distinct bound or free variables. */
  predicate Pattern(applied: set<VarKey>, t: Term) {
    match t
    case Var(n, i, _) => (n, i) !in applied
    case Abs(_, _, b) => Pattern(applied, b)
    case App(f, a) =>
      if CollectBoundArgs(t).Some? then Head(t).Var? ==> Key(Head(t)) in applied
      else Spine(f) && Pattern(applied, f) && Pattern(applied, a)
    case _ => true
  }

  /** A first-order term without the variables given. */
  ghost predicate Plain(keys: set<VarKey>, t: Term) {
    Rigid(true, t) && TermVars(t) !! keys
  }

  ghost predicate PlainEnv(keys: set<VarKey>, env: Env) {
    && env.tyenv == map[] && env.tenv.Keys <= keys
    && forall k :: k in env.tenv ==> Plain(keys, Assigned(env, k))
  }

  lemma {:induction false} PatternIsTame(applied: set<VarKey>, t: Term)
    requires Pattern(applied, t)
    ensures Tame(t)
  {
    match t
    case Abs(_, _, b) => PatternIsTame(applied, b);
    case App(f, a) => if CollectBoundArgs(t).None? { PatternIsTame(applied, f); PatternIsTame(applied, a); }
    case _ =>
  }

  lemma {:induction false} CollectHead(t: Term)
    requires CollectBoundArgs(t).Some?
    ensures Head(t).Var? || Head(t).Free?
    ensures DestHeadVar(t).Some?
    ensures Head(t).Var? ==> DestHeadVar(t).value == (Key(Head(t)), Head(t).typ)
    ensures Head(t).Free? ==> DestHeadVar(t).value == ((Head(t).name, 0), Head(t).typ)
    ensures Spine(t) <==> Head(t).Free?
  {
    if t.App? { CollectHead(t.func); }
  }

  lemma {:induction false} RigidSpine(t: Term)
    requires Rigid(true, t) && (t.App? || RigidHead(true, t))
    ensures Spine(t)
  {
    if t.App? { RigidSpine(t.func); }
  }

  lemma {:induction false} PlainIsPattern(keys: set<VarKey>, applied: set<VarKey>, t: Term)
    requires Plain(keys, t) && applied <= keys
    ensures Pattern(applied, t)
  {
    match t
    case Var(n, i, _) => assert (n, i) in TermVars(t);
    case Abs(_, _, b) => PlainIsPattern(keys, applied, b);
    case App(f, a) =>
      RigidSpine(t);
      if CollectBoundArgs(t).Some? { CollectHead(t); }
      assert TermVars(f) <= TermVars(t) && TermVars(a) <= TermVars(t);
      PlainIsPattern(keys, applied, f);
      PlainIsPattern(keys, applied, a);
    case _ =>
  }

  lemma NoTypeBindings(env: Env, ty: Typ)
    requires env.tyenv == map[]
    ensures TypesTriangular(env) && NormType(env, ty) == ty
  {
    assert TypeMap(env) == TypeMap(INIT);
    InitTriangular();
    ApplyUnbound(ByKey, TypeMap(env), ty);
  }

  /** A tame term is normal where none of its variables is bound. */
  lemma {:induction false} TameIsNormal(env: Env, t: Term)
    requires env.tyenv == map[] && TermVars(t) !! env.tenv.Keys && Tame(t)
    ensures TypesTriangular(env) && Normal(env, t)
  {
    NoTypeBindings(env, if t.App? || t.Bound? then DUMMY else t.typ);
    match t
    case Var(n, i, _) => assert (n, i) in TermVars(t);
    case Abs(_, _, b) => TameIsNormal(env, b);
    case App(f, a) =>
      if CollectBoundArgs(t).Some? { assert CollectBoundArgs(f).Some?; }
      assert TermVars(f) <= TermVars(t) && TermVars(a) <= TermVars(t);
      TameIsNormal(env, f);
      TameIsNormal(env, a);
    case _ =>
  }

  lemma {:induction false} CollectedVars(t: Term)
    requires CollectBoundArgs(t).Some?
    ensures TermVars(t) == if Head(t).Var? then {Key(Head(t))} else {}
  {
    if t.App? { CollectedVars(t.func); }
  }

  lemma PlainIsTame(keys: set<VarKey>, t: Term)
    requires Plain(keys, t)
    ensures Tame(t)
  {
    PlainIsPattern(keys, {}, t);
    PatternIsTame({}, t);
  }

  lemma NormalStays(env: Env, t: Term)
    requires TypesTriangular(env) && Normal(env, t)
    ensures NormTerm(env, t) == t
  {
    EvalOfNormal(env, t, MAX_STEPS);
  }

  // ---------- what an environment makes of a pattern ----------

  /** Up to types and binder names: bindings put in place, and applied abstractions contracted. */
  function Instance(env: Env, t: Term): Term {
    match t
    case Var(n, i, _) => if (n, i) in env.tenv then Shape(Assigned(env, (n, i))) else Shape(t)
    case Abs(_, _, b) => Abs("", DUMMY, Instance(env, b))
    case App(f, a) =>
      var fun := Instance(env, f);
      if fun.Abs? then SubstBounds([Instance(env, a)], fun.body) else App(fun, Instance(env, a))
    case _ => Shape(t)
  }

  lemma {:induction false} SpineInstance(env: Env, t: Term)
    requires Spine(t)
    ensures !Instance(env, t).Abs?
  {
    if t.App? { SpineInstance(env, t.func); }
  }

  /** A tame term none of whose variables is bound is left as it is. */
  lemma {:induction false} InstanceUnbound(env: Env, t: Term)
    requires TermVars(t) !! env.tenv.Keys && Tame(t)
    ensures Instance(env, t) == Shape(t)
  {
    match t
    case Var(n, i, _) => assert (n, i) in TermVars(t);
    case Abs(_, _, b) => InstanceUnbound(env, b);
    case App(f, a) =>
      if CollectBoundArgs(t).Some? { assert CollectBoundArgs(f).Some?; }
      assert TermVars(f) <= TermVars(t) && TermVars(a) <= TermVars(t);
      InstanceUnbound(env, f);
      InstanceUnbound(env, a);
    case _ =>
  }

  function Shapes(ts: seq<Term>): seq<Term> {
    seq(|ts|, i requires 0 <= i < |ts| => Shape(ts[i]))
  }

  lemma {:induction false} ShapeLift(t: Term, cutoff: nat, n: nat)
    ensures Shape(Lift(t, cutoff, n)) == Lift(Shape(t), cutoff, n)
  {
    match t
    case Abs(_, _, b) => ShapeLift(b, cutoff, n);
    case App(f, a) => ShapeLift(f, cutoff, n); ShapeLift(a, cutoff, n);
    case _ =>
  }

  lemma {:induction false} ShapeSubst(args: seq<Term>, body: Term)
    ensures Shape(SubstBounds(args, body)) == SubstBounds(Shapes(args), Shape(body))
    decreases body
  {
    match body
    case Bound(i) => if i < |args| { ShapeLift(args[i], 0, 0); }
    case Abs(_, _, b) =>
      var l, r := Shapes(UnderBinder(args)), UnderBinder(Shapes(args));
      forall i | 0 <= i < |l| ensures l[i] == r[i] { if i > 0 { ShapeLift(args[i - 1], 0, 1); } }
      assert l == r;
      ShapeSubst(UnderBinder(args), b);
    case App(f, a) => ShapeSubst(args, f); ShapeSubst(args, a);
    case _ =>
  }

  predicate IsArg(a: Term) {
    a.Bound? || a.Free?
  }

  lemma {:induction false} SubstArgsNormal(env: Env, args: seq<Term>, body: Term)
    requires TypesTriangular(env) && Normal(env, body)
    requires forall i :: 0 <= i < |args| ==> IsArg(args[i]) && Normal(env, args[i])
    ensures Normal(env, SubstBounds(args, body)) && (!body.Abs? ==> !SubstBounds(args, body).Abs?)
    decreases body
  {
    match body
    case Abs(_, _, b) => SubstArgsNormal(env, UnderBinder(args), b);
    case App(f, a) => SubstArgsNormal(env, args, f); SubstArgsNormal(env, args, a);
    case _ =>
  }

  /** A normalisation of a pattern that ends has the shape of its instance. */
  lemma {:induction false} EvalInstance(keys: set<VarKey>, env: Env, t: Term, fuel: nat)
    requires TypesTriangular(env) && PlainEnv(keys, env) && Tame(t) && Eval(env, t, fuel).Some?
    ensures Shape(Eval(env, t, fuel).value.0) == Instance(env, t)
    decreases fuel
  {
    match t
    case Var(n, i, _) =>
      if (n, i) in env.tenv {
        PlainIsTame(keys, Assigned(env, (n, i)));
        TameIsNormal(env, Assigned(env, (n, i)));
        EvalOfNormal(env, Assigned(env, (n, i)), fuel - 1);
      }
    case Abs(_, _, b) => EvalInstance(keys, env, b, fuel - 1);
    case App(f, a) =>
      if CollectBoundArgs(t).Some? { assert CollectBoundArgs(f).Some?; }
      EvalInstance(keys, env, f, fuel - 1);
      EvalInstance(keys, env, a, Eval(env, f, fuel - 1).value.1);
      AppInstance(env, f, a, fuel);
    case _ =>
  }

  lemma AppInstance(env: Env, f: Term, a: Term, fuel: nat)
    requires TypesTriangular(env) && env.tyenv == map[] && Tame(App(f, a)) && Eval(env, App(f, a), fuel).Some?
    requires Shape(Eval(env, f, fuel - 1).value.0) == Instance(env, f)
    requires Shape(Eval(env, a, Eval(env, f, fuel - 1).value.1).value.0) == Instance(env, a)
    ensures Shape(Eval(env, App(f, a), fuel).value.0) == Instance(env, App(f, a))
  {
    var fun := Eval(env, f, fuel - 1).value;
    var arg := Eval(env, a, fun.1).value;
    if fun.0.Abs? {
      if Spine(f) { SpineInstance(env, f); }
      assert IsArg(a);
      if a.Free? { NoTypeBindings(env, a.typ); }
      assert arg.0 == a;
      EvalIsNormal(env, f, fuel - 1);
      SubstArgsNormal(env, [a], fun.0.body);
      EvalOfNormal(env, SubstBounds([a], fun.0.body), arg.1 - 1);
      ShapeSubst([a], fun.0.body);
      assert Shapes([a]) == [Shape(a)];
    }
  }

  lemma PatternNorm(keys: set<VarKey>, env: Env, t: Term)
    requires TypesTriangular(env) && PlainEnv(keys, env) && Tame(t) && Finishes(env, t)
    ensures Shape(NormTerm(env, t)) == Instance(env, t)
  {
    EvalInstance(keys, env, t, MAX_STEPS);
  }

  ghost predicate Extends(last: Env, env: Env) {
    forall k :: k in env.tenv ==> k in last.tenv && last.tenv[k] == env.tenv[k]
  }

  /** Where no applied variable is bound yet, evaluation leaves a pattern a pattern with the same instance later on. */
  lemma {:induction false} EvalPattern(keys: set<VarKey>, applied: set<VarKey>, last: Env, env: Env, t: Term, fuel: nat)
    requires TypesTriangular(env) && PlainEnv(keys, env) && Extends(last, env) && last.tenv.Keys <= keys
    requires applied <= keys && applied !! env.tenv.Keys && Pattern(applied, t) && Eval(env, t, fuel).Some?
    ensures var r := Eval(env, t, fuel).value.0;
            Pattern(applied, r) && (Spine(t) ==> Spine(r)) && Instance(last, r) == Instance(last, t)
    decreases fuel
  {
    match t
    case Var(n, i, _) =>
      if (n, i) in env.tenv {
        var v := Assigned(env, (n, i));
        PlainIsTame(keys, v);
        TameIsNormal(env, v);
        EvalOfNormal(env, v, fuel - 1);
        PlainIsPattern(keys, applied, v);
        InstanceUnbound(last, v);
        assert last.tenv[(n, i)] == env.tenv[(n, i)];
      }
    case Abs(_, _, b) => EvalPattern(keys, applied, last, env, b, fuel - 1);
    case App(f, a) =>
      if CollectBoundArgs(t).Some? {
        CollectHead(t);
        CollectedVars(t);
        TameIsNormal(env, t);
        EvalOfNormal(env, t, fuel);
      } else {
        var fun := Eval(env, f, fuel - 1).value;
        EvalPattern(keys, applied, last, env, f, fuel - 1);
        EvalPattern(keys, applied, last, env, a, fun.1);
        SpineInstance(last, f);
        SpineInstance(last, fun.0);
        var r := Eval(env, t, fuel).value.0;
        if CollectBoundArgs(r).Some? { CollectHead(r); }
      }
    case _ =>
  }

  lemma NormPattern(keys: set<VarKey>, applied: set<VarKey>, last: Env, env: Env, t: Term)
    requires TypesTriangular(env) && PlainEnv(keys, env) && Extends(last, env) && last.tenv.Keys <= keys
    requires applied <= keys && applied !! env.tenv.Keys && Pattern(applied, t)
    ensures Pattern(applied, NormTerm(env, t)) && Instance(last, NormTerm(env, t)) == Instance(last, t)
  {
    if Finishes(env, t) { EvalPattern(keys, applied, last, env, t, MAX_STEPS); }
  }

  // ---------- contracting an applied abstraction ----------

  lemma {:induction false} CollectedArgs(t: Term)
    requires CollectBoundArgs(t).Some?
    ensures forall i :: 0 <= i < |CollectBoundArgs(t).value| ==> IsArg(CollectBoundArgs(t).value[i])
  {
    if t.App? { CollectedArgs(t.func); }
  }

  predicate DistinctArgs(args: seq<Term>) {
    && (forall i :: 0 <= i < |args| ==> IsArg(args[i]))
    && (forall i, j :: 0 <= i < j < |args| ==> args[i] != args[j])
  }

  lemma DistinctSnoc(front: seq<Term>, last: Term)
    ensures DistinctArgs(front + [last]) <==> DistinctArgs(front) && IsArg(last) && last !in front
  {
    var args := front + [last];
    assert args[|front|] == last && forall i :: 0 <= i < |front| ==> args[i] == front[i];
  }

  /** Arguments are collected exactly from a schematic or free variable applied to distinct bound or free variables. */
  lemma {:induction false} CollectExact(head: Term, args: seq<Term>)
    requires !head.App?
    ensures CollectBoundArgs(TermOrd.Apps(head, args)) ==
            if (head.Var? || head.Free?) && DistinctArgs(args) then Some(args) else None
  {
    if args != [] {
      var n := |args| - 1;
      var front, last := args[..n], args[n];
      CollectExact(head, front);
      assert args == front + [last];
      DistinctSnoc(front, last);
    }
  }

  /** The term below the outermost binders. */
  function Below(t: Term, j: nat): Term {
    if j == 0 || !t.Abs? then t else Below(t.body, j - 1)
  }

  /** The binders put around an object: one for each argument in turn, with the name and type of a free variable. */
  lemma {:induction false} BindersOfArgs(args: seq<Term>, obj: Term, j: nat)
    requires DistinctArgs(args) && j <= |args|
    ensures Below(AbstractArgs(args, obj), |args|) == obj
    ensures j < |args| ==>
              var t := Below(AbstractArgs(args, obj), j);
              t.Abs? && (if args[j].Free? then t.name == args[j].name && t.typ == args[j].typ
                         else t.name == "x" + Decimal(args[j].i) && t.typ == DUMMY)
  {
    if args != [] {
      BindersOfArgs(args[1..], obj, if j == 0 then 0 else j - 1);
    }
  }

  ghost function Lams(n: nat, b: Term): Term {
    if n == 0 then b else Abs("", DUMMY, Lams(n - 1, b))
  }

  lemma {:induction false} ShapeAbstract(args: seq<Term>, obj: Term)
    requires forall i :: 0 <= i < |args| ==> IsArg(args[i])
    ensures Shape(AbstractArgs(args, obj)) == Lams(|args|, Shape(obj))
  {
    if args != [] { ShapeAbstract(args[1..], obj); }
  }

  lemma {:induction false} SubstLams(args: seq<Term>, depth: nat, n: nat, b: Term)
    ensures SubstBounds(ArgsAt(args, depth), Lams(n, b)) == Lams(n, SubstBounds(ArgsAt(args, depth + n), b))
    decreases n
  {
    if n > 0 {
      ArgsAtSucc(args, depth);
      SubstLams(args, depth + 1, n - 1, b);
    }
  }

  /** What contracting the first `j` arguments makes of a term below `depth` of its own binders. */
  ghost function Partial(args: seq<Term>, j: nat, depth: nat, t: Term): Term
    requires j <= |args|
    decreases j
  {
    if j == 0 then t else SubstBounds(ArgsAt([args[j - 1]], depth + |args| - j), Partial(args, j - 1, depth, t))
  }

  lemma ContractNext(args: seq<Term>, j: nat, m: nat, obj: Term)
    requires |args| == j + 1 + m
    ensures SubstBounds([args[j]], Lams(m, Partial(args, j, 0, obj))) == Lams(m, Partial(args, j + 1, 0, obj))
  {
    ArgsAtZero([args[j]]);
    SubstLams([args[j]], 0, m, Partial(args, j, 0, obj));
  }

  lemma InstanceContracts(env: Env, f: Term, a: Term, body: Term)
    requires Instance(env, f) == Abs("", DUMMY, body) && IsArg(a)
    ensures Instance(env, App(f, a)) == SubstBounds([Shape(a)], body)
  {
  }

  lemma {:induction false} ContractedAt(env: Env, all: seq<Term>, obj: Term, t: Term)
    requires CollectBoundArgs(t).Some? && CollectBoundArgs(t).value <= all && Head(t).Var? && Key(Head(t)) in env.tenv
    requires Assigned(env, Key(Head(t))) == AbstractArgs(all, obj) && forall i :: 0 <= i < |all| ==> IsArg(all[i])
    ensures var j := |CollectBoundArgs(t).value|;
            Instance(env, t) == Lams(|all| - j, Partial(Shapes(all), j, 0, Shape(obj)))
  {
    match t
    case App(f, a) =>
      ContractedAt(env, all, obj, f);
      var j := |CollectBoundArgs(f).value|;
      assert CollectBoundArgs(t).value[j] == a;
      var m := |all| - j - 1;
      InstanceContracts(env, f, a, Lams(m, Partial(Shapes(all), j, 0, Shape(obj))));
      ContractNext(Shapes(all), j, m, Shape(obj));
    case Var(_, _, _) => ShapeAbstract(all, obj);
  }

  /** What contracting an argument below `depth` binders makes of an index or of an argument put there before. */
  function AtDepth(depth: nat, arg: Term, t: Term): Term {
    if !t.Bound? || t.i < depth then t else if t.i == depth then Lift(arg, 0, depth) else Bound(t.i - depth - 1)
  }

  /** What contracting the first `j` arguments makes of an index below `depth` of the binders of the object. */
  function Image(args: seq<Term>, j: nat, depth: nat, i: nat): (t: Term)
    requires j <= |args|
    decreases j
  {
    if j == 0 then Bound(i) else AtDepth(depth + |args| - j, args[j - 1], Image(args, j - 1, depth, i))
  }

  /** Contracting all arguments gives every index of the object back. */
  predicate Stays(args: seq<Term>, depth: nat, obj: Term)
    decreases obj
  {
    match obj
    case Bound(i) => Image(args, |args|, depth, i) == obj
    case Abs(_, _, b) => Stays(args, depth + 1, b)
    case App(f, a) => Stays(args, depth, f) && Stays(args, depth, a)
    case _ => true
  }

  lemma {:induction false} PartialBound(args: seq<Term>, j: nat, depth: nat, i: nat)
    requires j <= |args| && forall k :: 0 <= k < |args| ==> IsArg(args[k])
    ensures Partial(args, j, depth, Bound(i)) == Image(args, j, depth, i)
    ensures IsArg(Image(args, j, depth, i))
    decreases j
  {
    if j > 0 {
      PartialBound(args, j - 1, depth, i);
      var d, a := depth + |args| - j, args[j - 1];
      assert LiftAll([a], d)[0] == Lift(a, 0, d);
      if Image(args, j - 1, depth, i) == Bound(d) {
        assert ArgsAt([a], d)[d] == Lift(a, 0, d);
        LiftZero(Lift(a, 0, d), 0);
      }
    }
  }

  lemma {:induction false} PartialParts(args: seq<Term>, j: nat, depth: nat, t: Term)
    requires j <= |args|
    ensures t.Abs? ==> Partial(args, j, depth, t) == Abs(t.name, t.typ, Partial(args, j, depth + 1, t.body))
    ensures t.App? ==> Partial(args, j, depth, t) == App(Partial(args, j, depth, t.func), Partial(args, j, depth, t.arg))
    ensures t.Const? || t.Free? || t.Var? ==> Partial(args, j, depth, t) == t
    decreases j
  {
    if j > 0 {
      PartialParts(args, j - 1, depth, t);
      ArgsAtSucc([args[j - 1]], depth + |args| - j);
    }
  }

  lemma {:induction false} StaysExact(args: seq<Term>, depth: nat, t: Term)
    requires forall k :: 0 <= k < |args| ==> IsArg(args[k])
    ensures Partial(args, |args|, depth, t) == t <==> Stays(args, depth, t)
    decreases t
  {
    PartialParts(args, |args|, depth, t);
    match t
    case Bound(i) => PartialBound(args, |args|, depth, i);
    case Abs(_, _, b) => StaysExact(args, depth + 1, b);
    case App(f, a) => StaysExact(args, depth, f); StaysExact(args, depth, a);
    case _ =>
  }

  lemma {:induction false} ShapeImage(args: seq<Term>, j: nat, depth: nat, i: nat)
    requires j <= |args|
    ensures Image(Shapes(args), j, depth, i) == Shape(Image(args, j, depth, i))
    decreases j
  {
    if j > 0 {
      ShapeImage(args, j - 1, depth, i);
      ShapeLift(args[j - 1], 0, depth + |args| - j);
    }
  }

  lemma {:induction false} ShapeStays(args: seq<Term>, depth: nat, t: Term)
    requires forall k :: 0 <= k < |args| ==> IsArg(args[k])
    ensures Stays(Shapes(args), depth, Shape(t)) <==> Stays(args, depth, t)
    decreases t
  {
    match t
    case Bound(i) => ShapeImage(args, |args|, depth, i); PartialBound(args, |args|, depth, i);
    case Abs(_, _, b) => ShapeStays(args, depth + 1, b);
    case App(f, a) => ShapeStays(args, depth, f); ShapeStays(args, depth, a);
    case _ =>
  }

  lemma {:induction false} InnerImage(args: seq<Term>, j: nat, depth: nat, i: nat)
    requires j <= |args| && i < depth
    ensures Image(args, j, depth, i) == Bound(i)
    decreases j
  {
    if j > 0 { InnerImage(args, j - 1, depth, i); }
  }

  /** An object without loose indices stays, whatever the arguments. */
  lemma {:induction false} ClosedStays(args: seq<Term>, depth: nat, obj: Term)
    requires LooseBelow(obj, depth)
    ensures Stays(args, depth, obj)
    decreases obj
  {
    match obj
    case Bound(i) => InnerImage(args, |args|, depth, i);
    case Abs(_, _, b) => ClosedStays(args, depth + 1, b);
    case App(f, a) => ClosedStays(args, depth, f); ClosedStays(args, depth, a);
    case _ =>
  }

  /** With one argument, an object stays just if it has no loose index, or none but the one that is the argument. */
  lemma {:induction false} OneArgument(arg: Term, depth: nat, obj: Term)
    requires IsArg(arg)
    ensures Stays([arg], depth, obj) <==> LooseBelow(obj, if arg == Bound(0) then depth + 1 else depth)
    decreases obj
  {
    match obj
    case Bound(i) => assert Image([arg], 0, depth, i) == Bound(i);
    case Abs(_, _, b) => OneArgument(arg, depth + 1, b);
    case App(f, a) => OneArgument(arg, depth, f); OneArgument(arg, depth, a);
    case _ =>
  }

  // ---------- a variable applied to the very term it is to give ----------

  lemma IdentityEvaluates(env: Env, v: Term, a: Term)
    requires TypesTriangular(env) && v.Var? && Key(v) in env.tenv && Assigned(env, Key(v)) == IDENTITY
    requires Normal(env, a) && 4 * Size(a) + 6 <= MAX_STEPS
    ensures NormTerm(env, App(v, a)) == a
  {
    var fuel := MAX_STEPS;
    var id := Abs("x", NormType(env, DUMMY), Bound(0));
    assert Eval(env, IDENTITY, fuel - 2) == Some((id, fuel - 5)) by {
      assert Eval(env, Bound(0), fuel - 3) == Some((Bound(0), fuel - 4));
    }
    assert Eval(env, v, fuel - 1) == Some((id, fuel - 5));
    NormalEvaluates(env, a, fuel - 5);
    var left := Eval(env, a, fuel - 5).value.1;
    LiftZero(a, 0);
    assert SubstBounds([a], Bound(0)) == a;
    NormalEvaluates(env, a, left - 1);
    EvalAppParts(env, v, a, fuel, id, fuel - 5, a, left);
  }

  /**
   A variable applied to a term that is no variable nor an application, against that term: the variable becomes the identity,
   and both sides then have one normal form, types and names of binders aside.
   */
  lemma IdentityUnifies(env: Env, v: Term, a: Term, u: Term)
    requires TypesTriangular(env) && v.Var? && Shape(a) == Shape(u) && !u.Var? && !u.App?
    ensures UnifyMove(env, App(v, a), u) == UnifyMove(env, u, App(v, a)) == Assign(Key(v), v.typ, IDENTITY)
    ensures var env' := After(env, UnifyMove(env, App(v, a), u));
            && TypesTriangular(env')
            && (Normal(env', a) && 4 * Size(a) + 6 <= MAX_STEPS ==> Shape(NormTerm(env', App(v, a))) == Shape(u))
  {
    var env' := Bind(env, Key(v), v.typ, IDENTITY);
    assert TypeMap(env') == TypeMap(env);
    if Normal(env', a) && 4 * Size(a) + 6 <= MAX_STEPS { IdentityEvaluates(env', v, a); }
  }
}
