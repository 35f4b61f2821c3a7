/** Type inference by unification of type constraints. */
module TypeInfer {
  import opened Wrappers
  import opened Syntax
  import opened TermSubst
  import opened TypeResolve
  import opened TypeUnify
  import opened TypeGen
  import opened TypeLinks

  /** The bindings and the type environment mention no fresh variable still to come. */
  ghost predicate FreshFrom(env: map<Symbol, Typ>, s: TypeSubst, t: Term, next: nat) {
    && TermAvoids(env, t, next)
    && (forall a :: a in s ==> Avoids(s[a], next))
    && (forall k: nat :: k >= next ==> FreshName(k) !in s)
  }

  /** `ty` is the type `principal` gets when its variables are assigned, leaving all but fresh variables as in `theta`. */
  ghost predicate InstanceOf(theta: Symbol -> Typ, s: TypeSubst, ty: Typ, principal: Typ, next: nat) {
    exists r: Symbol -> Typ :: AgreeBelow(theta, r, next) && Respects(r, s) && ty == Inst(r, principal)
  }

  /** Each name in the input carries one index and one sort, the fresh names those of a fresh variable. */
  ghost predicate TaggedTerm(env: map<Symbol, Typ>, profile: Symbol -> (nat, Sort), t: Term) {
    match t
    case Const(n, ty) => Tagged(profile, ty) && (n in env ==> Tagged(profile, env[n]))
    case Free(_, ty) => Tagged(profile, ty)
    case Var(_, _, ty) => Tagged(profile, ty)
    case Bound(_) => true
    case Abs(_, ty, b) => Tagged(profile, ty) && TaggedTerm(env, profile, b)
    case App(f, a) => TaggedTerm(env, profile, f) && TaggedTerm(env, profile, a)
  }

  ghost predicate TaggedAll(env: map<Symbol, Typ>, s: TypeSubst, profile: Symbol -> (nat, Sort), t: Term, next: nat) {
    && TaggedTerm(env, profile, t)
    && (forall a :: a in s ==> Tagged(profile, s[a]))
    && (forall k: nat :: k >= next ==> profile(FreshName(k)) == (0, TOP_SORT))
  }

  lemma {:induction false} GenerateTagged(env: map<Symbol, Typ>, profile: Symbol -> (nat, Sort), t: Term, next: nat)
    requires TaggedTerm(env, profile, t)
    requires forall k: nat :: k >= next ==> profile(FreshName(k)) == (0, TOP_SORT)
    ensures Generate(env, t, next).next >= next
    ensures Tagged(profile, Generate(env, t, next).typ)
    ensures TaggedInput(profile, map[], Generate(env, t, next).constraints)
    decreases t
  {
    match t
    case Abs(_, ty, b) => GenerateTagged(env, profile, b, Annotated(ty, next).next);
    case App(f, a) =>
      var fun := Generate(env, f, next);
      GenerateTagged(env, profile, f, next);
      GenerateTagged(env, profile, a, fun.next);
    case _ =>
  }

  lemma SolutionIsTyping(env: map<Symbol, Typ>, s: TypeSubst, t: Term, next: nat, theta: Symbol -> Typ)
    requires Triangular(ByName, s) && Equalizes(s, Generate(env, t, next).constraints) && Respects(theta, s)
    ensures HasTyp(env, theta, t, Inst(theta, ApplySubst(s, Generate(env, t, next).typ)))
  {
    var g := Generate(env, t, next);
    forall i | 0 <= i < |g.constraints|
      ensures Inst(theta, g.constraints[i].left) == Inst(theta, g.constraints[i].right)
    {
      Factors(theta, s, g.constraints[i].left);
      Factors(theta, s, g.constraints[i].right);
    }
    Factors(theta, s, g.typ);
    GenerateSound(env, theta, t, next);
  }

  /** Any typing solves the constraints, once the fresh variables are assigned. */
  lemma TypingSolves(env: map<Symbol, Typ>, base: TypeSubst, t: Term, next: nat, theta: Symbol -> Typ, ty: Typ)
    returns (r: Symbol -> Typ)
    requires FreshFrom(env, base, t, next) && Respects(theta, base) && HasTyp(env, theta, t, ty)
    ensures AgreeBelow(theta, r, next) && Respects(r, base)
    ensures Unifies(r, Generate(env, t, next).constraints) && Inst(r, Generate(env, t, next).typ) == ty
  {
    r := GenerateComplete(env, theta, t, ty, next);
    forall a | a in base ensures r(a) == Inst(r, base[a]) {
      InstBelow(theta, r, base[a], next);
    }
  }

  lemma UnsolvableIsUntypable(env: map<Symbol, Typ>, base: TypeSubst, t: Term, next: nat,
                              theta: Symbol -> Typ, ty: Typ)
    requires FreshFrom(env, base, t, next) && Unsolvable(base, Generate(env, t, next).constraints)
    ensures !(Respects(theta, base) && HasTyp(env, theta, t, ty))
  {
    if Respects(theta, base) && HasTyp(env, theta, t, ty) {
      var r := TypingSolves(env, base, t, next, theta, ty);
    }
  }

  /** Every typing, real or not, is an instance of what the solver's bindings make of the generated type. */
  lemma FoundIsPrincipal(env: map<Symbol, Typ>, base: TypeSubst, s: TypeSubst, t: Term, next: nat)
    requires Triangular(ByName, s) && FreshFrom(env, base, t, next)
    requires SameSolutions(base, Generate(env, t, next).constraints, s, [])
    ensures forall theta: Symbol -> Typ, ty :: Respects(theta, base) && HasTyp(env, theta, t, ty) ==>
              InstanceOf(theta, s, ty, ApplySubst(s, Generate(env, t, next).typ), next)
    ensures forall theta: Symbol -> Typ, ty :: Respects(theta, base) && RealTyp(env, theta, [], t, ty) ==>
              InstanceOf(theta, s, ty, ApplySubst(s, Generate(env, t, next).typ), next)
  {
    var typ := Generate(env, t, next).typ;
    forall theta: Symbol -> Typ, ty | Respects(theta, base) && HasTyp(env, theta, t, ty)
      ensures InstanceOf(theta, s, ty, ApplySubst(s, typ), next)
    {
      var sol := TypingSolves(env, base, t, next, theta, ty);
      Factors(sol, s, typ);
    }
    forall theta: Symbol -> Typ, ty | RealTyp(env, theta, [], t, ty) ensures HasTyp(env, theta, t, ty) {
      RealIsLoose(env, theta, [], t, ty);
    }
  }

  /** Constraints without a solution leave the term without a typing. */
  lemma NoneIsUntypable(env: map<Symbol, Typ>, base: TypeSubst, t: Term, next: nat)
    requires FreshFrom(env, base, t, next)
    requires forall profile: Symbol -> (nat, Sort) :: TaggedInput(profile, base, Generate(env, t, next).constraints) ==>
               Unsolvable(base, Generate(env, t, next).constraints)
    ensures forall profile: Symbol -> (nat, Sort) :: TaggedAll(env, base, profile, t, next) ==>
              forall theta: Symbol -> Typ, ty :: Respects(theta, base) ==>
                !HasTyp(env, theta, t, ty) && !RealTyp(env, theta, [], t, ty)
  {
    forall profile: Symbol -> (nat, Sort), theta: Symbol -> Typ, ty |
      TaggedAll(env, base, profile, t, next) && Respects(theta, base)
      ensures !HasTyp(env, theta, t, ty) && !RealTyp(env, theta, [], t, ty)
    {
      GenerateTagged(env, profile, t, next);
      assert TaggedInput(profile, base, Generate(env, t, next).constraints);
      UnsolvableIsUntypable(env, base, t, next, theta, ty);
      if RealTyp(env, theta, [], t, ty) { RealIsLoose(env, theta, [], t, ty); }
    }
  }

  class TypeInfer {
    var subst: TypeSubst
    var nextVar: nat
    const typeEnv: map<Symbol, Typ>

    /** A missing environment is an empty one. */
    constructor (env: map<Symbol, Typ>)
      ensures subst == map[] && nextVar == 0 && typeEnv == env
    {
      subst, nextVar, typeEnv := map[], 0, env;
    }

    method FreshVar() returns (v: Typ)
      modifies this`nextVar
      ensures v == Fresh(old(nextVar)) && nextVar == old(nextVar) + 1
    {
      v := Fresh(nextVar);
      nextVar := nextVar + 1;
    }

    method AnnotatedOrFresh(ty: Typ) returns (r: Typ)
      modifies this`nextVar
      ensures r == Annotated(ty, old(nextVar)).typ && nextVar == Annotated(ty, old(nextVar)).next
    {
      if IsDummy(ty) {
        r := FreshVar();
      } else {
        r := ty;
      }
    }

    method InferWithConstraints(t: Term) returns (typ: Typ, constraints: seq<Constraint>)
      modifies this`nextVar
      ensures Generated(typ, constraints, nextVar) == Generate(typeEnv, t, old(nextVar))
      decreases t
    {
      constraints := [];
      match t
      case Const(n, ty) =>
        if IsDummy(ty) && n in typeEnv { typ := typeEnv[n]; } else { typ := AnnotatedOrFresh(ty); }
      case Free(_, ty) => typ := AnnotatedOrFresh(ty);
      case Var(_, _, ty) => typ := AnnotatedOrFresh(ty);
      case Bound(_) => typ := FreshVar();
      case Abs(_, ty, b) =>
        var dom := AnnotatedOrFresh(ty);
        var cod;
        cod, constraints := InferWithConstraints(b);
        typ := Arrow(dom, cod);
      case App(f, a) =>
        var fnTyp, fnConstraints := InferWithConstraints(f);
        var argTyp, argConstraints := InferWithConstraints(a);
        typ := FreshVar();
        constraints := fnConstraints + argConstraints + [Constraint(fnTyp, Arrow(argTyp, typ))];
    }

    /**
     Solves the constraints, last one first. On success the bindings make every constraint an equation, and every
     assignment that solves the constraints respects the bindings, so it factors through their application. On failure
     no assignment solves the constraints, provided each name carries one index and one sort.
     */
    method SolveConstraints(constraints: seq<Constraint>) returns (ok: bool)
      requires Triangular(ByName, subst)
      modifies this`subst
      ensures Triangular(ByName, subst) && Extends(subst, old(subst))
      ensures ok <==> Solving(old(subst), constraints).Some?
      ensures ok ==> Solving(old(subst), constraints) == Some(subst)
      ensures ok ==> Equalizes(subst, constraints)
      ensures ok ==> SameSolutions(old(subst), constraints, subst, [])
      ensures !ok ==> forall profile: Symbol -> (nat, Sort) :: TaggedInput(profile, old(subst), constraints) ==>
                Unsolvable(old(subst), constraints)
    {
      var cs := constraints;
      ghost var base := subst;
      ok := true;
      while cs != []
        invariant Triangular(ByName, subst) && Extends(subst, base)
        invariant ok && Solving(subst, cs) == Solving(base, constraints)
        decreases |Names(subst, cs) - subst.Keys|, Total(subst, cs)
      {
        var c, front := cs[|cs| - 1], cs[..|cs| - 1];
        LastApart(cs);
        ghost var was, wasLeft := subst, cs;
        var t1, t2 := ApplySubst(subst, c.left), ApplySubst(subst, c.right);
        if t1 == t2 {
          assert Advances(subst, cs, subst, front) by {
            SkipRuns(subst, front, c);
            ContinuesAdvances(subst, cs, subst, front);
          }
          cs := front;
        } else if t1.Type? && t2.Type? && t1.name == t2.name && |t1.args| == |t2.args| {
          ghost var parts := front + Zip(t1.args, t2.args);
          assert Advances(subst, cs, subst, parts) by {
            DecomposeRuns(subst, front, c);
            ContinuesAdvances(subst, cs, subst, parts);
          }
          cs := front + Zip(t1.args, t2.args);
        } else if t1.TVar? {
          if OccursIn(t1.name, t2) {
            StuckFails(subst, front, c);
            ok := false;
            break;
          }
          assert Advances(subst, cs, subst[t1.name := t2], front) by {
            BindRuns(subst, front, c, t1, t2);
            ContinuesAdvances(subst, cs, subst[t1.name := t2], front);
          }
          subst, cs := subst[t1.name := t2], front;
        } else if t2.TVar? {
          if OccursIn(t2.name, t1) {
            StuckFails(subst, front, c);
            ok := false;
            break;
          }
          assert Advances(subst, cs, subst[t2.name := t1], front) by {
            BindRuns(subst, front, c, t2, t1);
            ContinuesAdvances(subst, cs, subst[t2.name := t1], front);
          }
          subst, cs := subst[t2.name := t1], front;
        } else {
          StuckFails(subst, front, c);
          ok := false;
          break;
        }
        ExtendsTransitive(subst, was, base);
      }
      assert Equalizes(subst, []);
      SolvingKeeps(base, constraints);
    }

    /**
     Infers a type. Every real typing is an instance of the type found, and if none is found there is no typing. The type
     found is a typing only in the sense of the program's constraints, which do not link an occurrence of a bound
     variable with its binder. It is always a real typing exactly if it is one under the bindings as they are, exactly if
     the links left out follow from the constraints, and in any case if no bound variable occurs.
     */
    method Infer(t: Term) returns (r: Option<Typ>)
      requires Triangular(ByName, subst)
      modifies this`subst, this`nextVar
      ensures Triangular(ByName, subst) && Extends(subst, old(subst))
      ensures r.Some? ==> forall theta: Symbol -> Typ :: Respects(theta, subst) ==>
                HasTyp(typeEnv, theta, t, Inst(theta, r.value))
      ensures r.Some? && FreshFrom(typeEnv, old(subst), t, old(nextVar)) ==>
                forall theta: Symbol -> Typ, ty :: Respects(theta, old(subst)) && HasTyp(typeEnv, theta, t, ty) ==>
                  InstanceOf(theta, subst, ty, r.value, old(nextVar))
      ensures r.Some? && FreshFrom(typeEnv, old(subst), t, old(nextVar)) ==>
                forall theta: Symbol -> Typ, ty :: Respects(theta, old(subst)) && RealTyp(typeEnv, theta, [], t, ty) ==>
                  InstanceOf(theta, subst, ty, r.value, old(nextVar))
      ensures r.Some? && Closed(t) && FreshFrom(typeEnv, old(subst), t, old(nextVar)) ==>
                (AlwaysReal(typeEnv, subst, t, r.value) <==> LinksFollow(typeEnv, old(subst), t, old(nextVar)))
      ensures r.Some? ==>
                (AlwaysReal(typeEnv, subst, t, r.value) <==>
                   RealTyp(typeEnv, Generic(subst), [], t, Inst(Generic(subst), r.value)))
      ensures r.Some? && Closed(t) && NoBound(t) && FreshFrom(typeEnv, old(subst), t, old(nextVar)) ==>
                AlwaysReal(typeEnv, subst, t, r.value)
      ensures r.None? && FreshFrom(typeEnv, old(subst), t, old(nextVar)) ==>
                forall profile: Symbol -> (nat, Sort) ::
                  TaggedAll(typeEnv, old(subst), profile, t, old(nextVar)) ==>
                  forall theta: Symbol -> Typ, ty :: Respects(theta, old(subst)) ==>
                    !HasTyp(typeEnv, theta, t, ty) && !RealTyp(typeEnv, theta, [], t, ty)
    {
      ghost var base, next := subst, nextVar;
      var typ, constraints := InferWithConstraints(t);
      var ok := SolveConstraints(constraints);
      if ok {
        r := Some(ApplySubst(subst, typ));
        AlwaysRealChecked(typeEnv, subst, t, r.value);
        forall theta: Symbol -> Typ | Respects(theta, subst)
          ensures HasTyp(typeEnv, theta, t, Inst(theta, r.value))
        {
          SolutionIsTyping(typeEnv, subst, t, next, theta);
        }
        if FreshFrom(typeEnv, base, t, next) {
          FoundIsPrincipal(typeEnv, base, subst, t, next);
          if Closed(t) {
            AlwaysRealExact(typeEnv, base, subst, t, next);
            if NoBound(t) { NoBoundAlwaysReal(typeEnv, base, subst, t, next); }
          }
        }
      } else {
        r := None;
        if FreshFrom(typeEnv, base, t, next) { NoneIsUntypable(typeEnv, base, t, next); }
      }
    }
  }
}
