/**
 Real typing of terms, where an occurrence of a bound variable has the type of its binder. Constraint generation leaves
 out exactly the equations that say so; they are listed here.
 */
module TypeLinks {
  import opened Syntax
  import opened TermSubst
  import opened TypeResolve
  import opened TypeUnify
  import opened TypeGen

  /** The context holds the types of the binders above the term, the innermost first. */
  ghost predicate RealTyp(env: map<Symbol, Typ>, theta: Symbol -> Typ, ctx: seq<Typ>, t: Term, ty: Typ)
    decreases t
  {
    match t
    case Const(n, s) => if IsDummy(s) && n in env then ty == Inst(theta, env[n]) else Fits(theta, s, ty)
    case Free(_, s) => Fits(theta, s, ty)
    case Var(_, _, s) => Fits(theta, s, ty)
    case Bound(i) => i < |ctx| && ty == ctx[i]
    case Abs(_, s, b) => IsFun(ty) && Fits(theta, s, ty.args[0]) && RealTyp(env, theta, [ty.args[0]] + ctx, b, ty.args[1])
    case App(f, a) => exists dom: Typ :: RealTyp(env, theta, ctx, f, Arrow(dom, ty)) && RealTyp(env, theta, ctx, a, dom)
  }

  /** A real typing is one that the program's constraints allow. */
  lemma {:induction false} RealIsLoose(env: map<Symbol, Typ>, theta: Symbol -> Typ, ctx: seq<Typ>, t: Term, ty: Typ)
    requires RealTyp(env, theta, ctx, t, ty)
    ensures HasTyp(env, theta, t, ty)
    decreases t
  {
    match t
    case Abs(_, _, b) => RealIsLoose(env, theta, [ty.args[0]] + ctx, b, ty.args[1]);
    case App(f, a) =>
      var dom :| RealTyp(env, theta, ctx, f, Arrow(dom, ty)) && RealTyp(env, theta, ctx, a, dom);
      RealIsLoose(env, theta, ctx, f, Arrow(dom, ty));
      RealIsLoose(env, theta, ctx, a, dom);
    case _ =>
  }

  /** Without occurrences of bound variables there is no difference. */
  lemma {:induction false} LooseIsReal(env: map<Symbol, Typ>, theta: Symbol -> Typ, ctx: seq<Typ>, t: Term, ty: Typ)
    requires HasTyp(env, theta, t, ty) && NoBound(t)
    ensures RealTyp(env, theta, ctx, t, ty)
    decreases t
  {
    match t
    case Abs(_, _, b) => LooseIsReal(env, theta, [ty.args[0]] + ctx, b, ty.args[1]);
    case App(f, a) =>
      var dom :| HasTyp(env, theta, f, Arrow(dom, ty)) && HasTyp(env, theta, a, dom);
      LooseIsReal(env, theta, ctx, f, Arrow(dom, ty));
      LooseIsReal(env, theta, ctx, a, dom);
    case _ =>
  }

  function Parts(t: Term): set<Term> {
    {t} +
    match t
    case Abs(_, _, b) => Parts(b)
    case App(f, a) => Parts(f) + Parts(a)
    case _ => {}
  }

  /** The typings of a term and of all its parts, in any context, are real exactly if it has no such occurrence. */
  lemma {:induction false} AllPartsReal(env: map<Symbol, Typ>, theta: Symbol -> Typ, t: Term)
    ensures NoBound(t) <==>
            forall u, ctx, ty :: u in Parts(t) && HasTyp(env, theta, u, ty) ==> RealTyp(env, theta, ctx, u, ty)
  {
    if NoBound(t) {
      forall u, ctx, ty | u in Parts(t) && HasTyp(env, theta, u, ty) ensures RealTyp(env, theta, ctx, u, ty) {
        PartsNoBound(t, u);
        LooseIsReal(env, theta, ctx, u, ty);
      }
    } else {
      var i := BoundPart(t);
      assert HasTyp(env, theta, Bound(i), DUMMY) && !RealTyp(env, theta, [], Bound(i), DUMMY);
    }
  }

  lemma {:induction false} PartsNoBound(t: Term, u: Term)
    requires NoBound(t) && u in Parts(t)
    ensures NoBound(u)
  {
    if u != t {
      match t
      case Abs(_, _, b) => PartsNoBound(b, u);
      case App(f, a) => if u in Parts(f) { PartsNoBound(f, u); } else { PartsNoBound(a, u); }
    }
  }

  lemma {:induction false} BoundPart(t: Term) returns (i: nat)
    requires !NoBound(t)
    ensures Bound(i) in Parts(t)
  {
    match t
    case Bound(j) => i := j;
    case Abs(_, _, b) => i := BoundPart(b);
    case App(f, a) => if !NoBound(f) { i := BoundPart(f); } else { i := BoundPart(a); }
  }

  /** The identity on a known type: the constraints allow any result type, a real typing only the one of its binder. */
  lemma IdentityTyping(env: map<Symbol, Typ>, theta: Symbol -> Typ, x: Symbol, s: Typ, ty: Typ)
    requires !IsDummy(s)
    ensures HasTyp(env, theta, Abs(x, s, Bound(0)), ty) <==> IsFun(ty) && ty.args[0] == Inst(theta, s)
    ensures RealTyp(env, theta, [], Abs(x, s, Bound(0)), ty) <==> IsFun(ty) && ty.args[0] == ty.args[1] == Inst(theta, s)
  {
  }

  // ---------- the equations left out ----------

  /** One equation for each occurrence of a bound variable: its fresh variable is the type of its binder. */
  function Links(env: map<Symbol, Typ>, binders: seq<Typ>, t: Term, next: nat): seq<Constraint>
    decreases t
  {
    match t
    case Bound(i) => if i < |binders| then [Constraint(Fresh(next), binders[i])] else []
    case Abs(_, ty, b) =>
      var dom := Annotated(ty, next);
      Links(env, [dom.typ] + binders, b, dom.next)
    case App(f, a) => Links(env, binders, f, next) + Links(env, binders, a, Generate(env, f, next).next)
    case _ => []
  }

  function InstAll(theta: Symbol -> Typ, ts: seq<Typ>): seq<Typ> {
    seq(|ts|, i requires 0 <= i < |ts| => Inst(theta, ts[i]))
  }

  ghost predicate AllAvoidTypes(ts: seq<Typ>, lo: nat) {
    forall i :: 0 <= i < |ts| ==> Avoids(ts[i], lo)
  }

  lemma UnifiesAppend(theta: Symbol -> Typ, a: seq<Constraint>, b: seq<Constraint>)
    ensures Unifies(theta, a + b) <==> Unifies(theta, a) && Unifies(theta, b)
  {
    var ab := a + b;
    if Unifies(theta, ab) {
      forall i | 0 <= i < |a| ensures Inst(theta, a[i].left) == Inst(theta, a[i].right) { assert ab[i] == a[i]; }
      forall i | 0 <= i < |b| ensures Inst(theta, b[i].left) == Inst(theta, b[i].right) { assert ab[|a| + i] == b[i]; }
    }
  }

  lemma InstAllCons(theta: Symbol -> Typ, t: Typ, ts: seq<Typ>)
    ensures InstAll(theta, [t] + ts) == [Inst(theta, t)] + InstAll(theta, ts)
  {
  }

  /** Every solution of the constraints and the links is a real typing. */
  lemma {:induction false} LinkedSound(env: map<Symbol, Typ>, theta: Symbol -> Typ, binders: seq<Typ>, t: Term, next: nat)
    requires LooseBelow(t, |binders|)
    requires Unifies(theta, Generate(env, t, next).constraints) && Unifies(theta, Links(env, binders, t, next))
    ensures RealTyp(env, theta, InstAll(theta, binders), t, Inst(theta, Generate(env, t, next).typ))
    decreases t
  {
    var g := Generate(env, t, next);
    match t
    case Bound(i) => assert Links(env, binders, t, next)[0] == Constraint(Fresh(next), binders[i]);
    case Abs(_, ty, b) =>
      var dom := Annotated(ty, next);
      LinkedSound(env, theta, [dom.typ] + binders, b, dom.next);
      InstAllCons(theta, dom.typ, binders);
      InstArrow(theta, dom.typ, Generate(env, b, dom.next).typ);
    case App(f, a) =>
      var fun := Generate(env, f, next);
      var arg := Generate(env, a, fun.next);
      var c := Constraint(fun.typ, Arrow(arg.typ, Fresh(arg.next)));
      UnifiesAppend(theta, fun.constraints + arg.constraints, [c]);
      UnifiesAppend(theta, fun.constraints, arg.constraints);
      UnifiesAppend(theta, Links(env, binders, f, next), Links(env, binders, a, fun.next));
      assert [c][0] == c;
      LinkedSound(env, theta, binders, f, next);
      LinkedSound(env, theta, binders, a, fun.next);
      InstArrow(theta, arg.typ, Fresh(arg.next));
      assert RealTyp(env, theta, InstAll(theta, binders), f, Arrow(Inst(theta, arg.typ), Inst(theta, g.typ)));
    case _ =>
  }

  lemma {:induction false} RealBelow(env: map<Symbol, Typ>, a: Symbol -> Typ, b: Symbol -> Typ, ctx: seq<Typ>,
                                     t: Term, ty: Typ, lo: nat)
    requires AgreeBelow(a, b, lo) && TermAvoids(env, t, lo) && RealTyp(env, a, ctx, t, ty)
    ensures RealTyp(env, b, ctx, t, ty)
    decreases t
  {
    match t
    case Const(n, s) =>
      InstBelow(a, b, s, lo);
      if n in env { InstBelow(a, b, env[n], lo); }
    case Free(_, s) => InstBelow(a, b, s, lo);
    case Var(_, _, s) => InstBelow(a, b, s, lo);
    case Bound(_) =>
    case Abs(_, s, body) => InstBelow(a, b, s, lo); RealBelow(env, a, b, [ty.args[0]] + ctx, body, ty.args[1], lo);
    case App(f, x) =>
      var dom :| RealTyp(env, a, ctx, f, Arrow(dom, ty)) && RealTyp(env, a, ctx, x, dom);
      RealBelow(env, a, b, ctx, f, Arrow(dom, ty), lo);
      RealBelow(env, a, b, ctx, x, dom, lo);
  }

  lemma InstAllBelow(a: Symbol -> Typ, b: Symbol -> Typ, ts: seq<Typ>, lo: nat)
    requires AgreeBelow(a, b, lo) && AllAvoidTypes(ts, lo)
    ensures InstAll(a, ts) == InstAll(b, ts)
  {
    forall i | 0 <= i < |ts| ensures Inst(a, ts[i]) == Inst(b, ts[i]) {
      InstBelow(a, b, ts[i], lo);
    }
  }

  lemma {:induction false} LinksAvoid(env: map<Symbol, Typ>, binders: seq<Typ>, t: Term, next: nat)
    requires TermAvoids(env, t, next) && AllAvoidTypes(binders, next)
    ensures AllAvoid(Links(env, binders, t, next), Generate(env, t, next).next)
    decreases t
  {
    match t
    case Bound(i) => FreshAvoids(next);
    case Abs(_, ty, b) =>
      var dom := Annotated(ty, next);
      FreshAvoids(next);
      AvoidsLater(env, b, next, dom.next);
      LinksAvoid(env, [dom.typ] + binders, b, dom.next);
    case App(f, a) =>
      var fun := Generate(env, f, next);
      GeneratedAvoids(env, f, next);
      AvoidsLater(env, a, next, fun.next);
      LinksAvoid(env, binders, f, next);
      LinksAvoid(env, binders, a, fun.next);
      GeneratedAvoids(env, a, fun.next);
    case _ =>
  }

  /** What a real typing is to be extended to: a solution of the constraints and the links. */
  ghost predicate Linked(env: map<Symbol, Typ>, r: Symbol -> Typ, binders: seq<Typ>, t: Term, ty: Typ, next: nat) {
    && Unifies(r, Generate(env, t, next).constraints) && Unifies(r, Links(env, binders, t, next))
    && Inst(r, Generate(env, t, next).typ) == ty
  }

  /** Every real typing solves the constraints and the links, by an assignment that changes only the fresh names. */
  lemma {:induction false} LinkedComplete(env: map<Symbol, Typ>, theta: Symbol -> Typ, binders: seq<Typ>,
                                          t: Term, ty: Typ, next: nat)
    returns (r: Symbol -> Typ)
    requires RealTyp(env, theta, InstAll(theta, binders), t, ty)
    requires TermAvoids(env, t, next) && AllAvoidTypes(binders, next)
    ensures AgreeBelow(theta, r, next) && Linked(env, r, binders, t, ty, next)
    decreases t
  {
    match t
    case Const(n, s) =>
      if IsDummy(s) && n in env { r := theta; } else {
        r := AssignFresh(theta, s, next, ty);
        AnnotatedComplete(theta, s, ty, next);
      }
    case Free(_, s) => r := AssignFresh(theta, s, next, ty); AnnotatedComplete(theta, s, ty, next);
    case Var(_, _, s) => r := AssignFresh(theta, s, next, ty); AnnotatedComplete(theta, s, ty, next);
    case Bound(i) =>
      r := AssignFresh(theta, DUMMY, next, ty);
      AnnotatedComplete(theta, DUMMY, ty, next);
      InstBelow(theta, r, binders[i], next);
    case Abs(_, s, b) =>
      var dom := Annotated(s, next);
      var r1 := AssignFresh(theta, s, next, ty.args[0]);
      AnnotatedComplete(theta, s, ty.args[0], next);
      InstAllBelow(theta, r1, binders, next);
      InstAllCons(r1, dom.typ, binders);
      RealBelow(env, theta, r1, [ty.args[0]] + InstAll(theta, binders), b, ty.args[1], next);
      AvoidsLater(env, b, next, dom.next);
      FreshAvoids(next);
      r := LinkedComplete(env, r1, [dom.typ] + binders, b, ty.args[1], dom.next);
      AgreeTransitive(theta, r1, r, next, dom.next);
      InstBelow(r1, r, dom.typ, dom.next);
      InstArrow(r, dom.typ, Generate(env, b, dom.next).typ);
    case App(f, a) => r := LinkedApp(env, theta, binders, f, a, ty, next);
  }

  lemma {:induction false} LinkedApp(env: map<Symbol, Typ>, theta: Symbol -> Typ, binders: seq<Typ>,
                                     f: Term, a: Term, ty: Typ, next: nat)
    returns (r: Symbol -> Typ)
    requires RealTyp(env, theta, InstAll(theta, binders), App(f, a), ty)
    requires TermAvoids(env, App(f, a), next) && AllAvoidTypes(binders, next)
    ensures AgreeBelow(theta, r, next) && Linked(env, r, binders, App(f, a), ty, next)
    decreases App(f, a), 0
  {
    var ctx := InstAll(theta, binders);
    var dom: Typ :| RealTyp(env, theta, ctx, f, Arrow(dom, ty)) && RealTyp(env, theta, ctx, a, dom);
    var fun := Generate(env, f, next);
    var arg := Generate(env, a, fun.next);
    var r1 := LinkedComplete(env, theta, binders, f, Arrow(dom, ty), next);
    GeneratedAvoids(env, f, next);
    RealBelow(env, theta, r1, ctx, a, dom, next);
    InstAllBelow(theta, r1, binders, next);
    AvoidsLater(env, a, next, fun.next);
    var r2 := LinkedComplete(env, r1, binders, a, dom, fun.next);
    GeneratedAvoids(env, a, fun.next);
    r := Assign(r2, FreshName(arg.next), ty);
    assert AgreeBelow(r2, r, arg.next);
    AgreeTransitive(r1, r2, r, fun.next, arg.next);
    AgreeTransitive(theta, r1, r, next, fun.next);
    LinkedAppSolves(env, r1, r2, r, binders, f, a, dom, ty, next);
  }

  lemma LinkedAppSolves(env: map<Symbol, Typ>, r1: Symbol -> Typ, r2: Symbol -> Typ, r: Symbol -> Typ,
                        binders: seq<Typ>, f: Term, a: Term, dom: Typ, ty: Typ, next: nat)
    requires TermAvoids(env, App(f, a), next) && AllAvoidTypes(binders, next)
    requires Linked(env, r1, binders, f, Arrow(dom, ty), next)
    requires var n := Generate(env, f, next).next;
             Linked(env, r2, binders, a, dom, n) && AgreeBelow(r1, r, n) && AgreeBelow(r2, r, Generate(env, a, n).next)
             && r(FreshName(Generate(env, a, n).next)) == ty
    ensures Linked(env, r, binders, App(f, a), ty, next)
  {
    var fun := Generate(env, f, next);
    var arg := Generate(env, a, fun.next);
    var c := Constraint(fun.typ, Arrow(arg.typ, Fresh(arg.next)));
    GeneratedAvoids(env, f, next);
    AvoidsLater(env, a, next, fun.next);
    GeneratedAvoids(env, a, fun.next);
    LinksAvoid(env, binders, f, next);
    LinksAvoid(env, binders, a, fun.next);
    UnifiesBelow(r1, r, fun.constraints, fun.next);
    UnifiesBelow(r2, r, arg.constraints, arg.next);
    UnifiesBelow(r1, r, Links(env, binders, f, next), fun.next);
    UnifiesBelow(r2, r, Links(env, binders, a, fun.next), arg.next);
    InstBelow(r1, r, fun.typ, fun.next);
    InstBelow(r2, r, arg.typ, arg.next);
    InstArrow(r, arg.typ, Fresh(arg.next));
    UnifiesAppend(r, fun.constraints + arg.constraints, [c]);
    UnifiesAppend(r, fun.constraints, arg.constraints);
    UnifiesAppend(r, Links(env, binders, f, next), Links(env, binders, a, fun.next));
  }

  lemma LinkedIsReal(env: map<Symbol, Typ>, theta: Symbol -> Typ, r: Symbol -> Typ, t: Term, ty: Typ, next: nat)
    requires Closed(t) && TermAvoids(env, t, next) && AgreeBelow(theta, r, next) && Linked(env, r, [], t, ty, next)
    ensures RealTyp(env, theta, [], t, ty)
  {
    LinkedSound(env, r, [], t, next);
    assert InstAll(r, []) == [];
    RealBelow(env, r, theta, [], t, ty, next);
  }

  /** The links are exactly what the program's constraints lack: together they describe real typing. */
  lemma LinkedExact(env: map<Symbol, Typ>, theta: Symbol -> Typ, t: Term, ty: Typ, next: nat)
    requires Closed(t) && TermAvoids(env, t, next)
    ensures RealTyp(env, theta, [], t, ty) <==> exists r :: AgreeBelow(theta, r, next) && Linked(env, r, [], t, ty, next)
  {
    if RealTyp(env, theta, [], t, ty) {
      assert InstAll(theta, []) == [];
      var r := LinkedComplete(env, theta, [], t, ty, next);
    } else {
      forall r | AgreeBelow(theta, r, next) ensures !Linked(env, r, [], t, ty, next) {
        if Linked(env, r, [], t, ty, next) { LinkedIsReal(env, theta, r, t, ty, next); }
      }
    }
  }

  // ---------- when an inferred type is a real one ----------

  /** Every assignment that respects the bindings makes the type a real typing of the term. */
  ghost predicate AlwaysReal(env: map<Symbol, Typ>, s: TypeSubst, t: Term, ty: Typ) {
    forall theta: Symbol -> Typ :: Respects(theta, s) ==> RealTyp(env, theta, [], t, Inst(theta, ty))
  }

  /** The assignment that resolves every name by the bindings and leaves unbound names as they are. */
  ghost function Generic(s: TypeSubst): Symbol -> Typ
    requires Triangular(ByName, s)
  {
    Completed((a: Symbol) => TVar(a, 0, TOP_SORT), s)
  }

  lemma {:induction false} InstThrough(theta: Symbol -> Typ, generic: Symbol -> Typ, t: Typ)
    requires forall a :: Inst(theta, generic(a)) == theta(a)
    ensures Inst(theta, Inst(generic, t)) == Inst(theta, t)
  {
    match t
    case Type(_, args) =>
      forall i | 0 <= i < |args| ensures Inst(theta, Inst(generic, args[i])) == Inst(theta, args[i]) {
        InstThrough(theta, generic, args[i]);
      }
      assert Inst(theta, Inst(generic, t)).args == Inst(theta, t).args;
    case _ =>
  }

  /** Every assignment that respects the bindings is an instance of the generic one. */
  lemma GenericInstance(theta: Symbol -> Typ, s: TypeSubst, a: Symbol)
    requires Triangular(ByName, s) && Respects(theta, s)
    ensures Inst(theta, Generic(s)(a)) == theta(a)
  {
    var none: Symbol -> Typ := (b: Symbol) => TVar(b, 0, TOP_SORT);
    if a in s {
      InstThrough(theta, none, ApplySubst(s, s[a]));
      Factors(theta, s, s[a]);
    }
  }

  /** A real typing stays one in every instance of its assignment. */
  lemma {:induction false} RealInstance(env: map<Symbol, Typ>, theta: Symbol -> Typ, generic: Symbol -> Typ,
                                        ctx: seq<Typ>, t: Term, ty: Typ)
    requires forall a :: Inst(theta, generic(a)) == theta(a)
    requires RealTyp(env, generic, ctx, t, ty)
    ensures RealTyp(env, theta, InstAll(theta, ctx), t, Inst(theta, ty))
    decreases t
  {
    match t
    case Const(n, s) => InstThrough(theta, generic, if IsDummy(s) && n in env then env[n] else s);
    case Free(_, s) => InstThrough(theta, generic, s);
    case Var(_, _, s) => InstThrough(theta, generic, s);
    case Bound(_) =>
    case Abs(_, s, b) =>
      InstThrough(theta, generic, s);
      RealInstance(env, theta, generic, [ty.args[0]] + ctx, b, ty.args[1]);
      InstAllCons(theta, ty.args[0], ctx);
    case App(f, a) =>
      var dom :| RealTyp(env, generic, ctx, f, Arrow(dom, ty)) && RealTyp(env, generic, ctx, a, dom);
      RealInstance(env, theta, generic, ctx, f, Arrow(dom, ty));
      RealInstance(env, theta, generic, ctx, a, dom);
      InstArrow(theta, dom, ty);
  }

  /** Whether a type is always a real one is decided by a single typing, that of the type resolved by the bindings. */
  lemma AlwaysRealChecked(env: map<Symbol, Typ>, s: TypeSubst, t: Term, ty: Typ)
    requires Triangular(ByName, s)
    ensures AlwaysReal(env, s, t, ty) <==> RealTyp(env, Generic(s), [], t, Inst(Generic(s), ty))
  {
    var generic := Generic(s);
    CompletedRespects((a: Symbol) => TVar(a, 0, TOP_SORT), s);
    if RealTyp(env, generic, [], t, Inst(generic, ty)) {
      forall theta: Symbol -> Typ | Respects(theta, s) ensures RealTyp(env, theta, [], t, Inst(theta, ty)) {
        forall a ensures Inst(theta, generic(a)) == theta(a) { GenericInstance(theta, s, a); }
        RealInstance(env, theta, generic, [], t, Inst(generic, ty));
        InstThrough(theta, generic, ty);
        assert InstAll(theta, []) == [];
      }
    }
  }

  /** The links cost no generality: each solution of the constraints has one of the same type that solves them as well. */
  ghost predicate LinksFollow(env: map<Symbol, Typ>, base: TypeSubst, t: Term, next: nat) {
    forall r: Symbol -> Typ :: Respects(r, base) && Unifies(r, Generate(env, t, next).constraints) ==>
      exists q :: AgreeBelow(r, q, next) && Linked(env, q, [], t, Inst(r, Generate(env, t, next).typ), next)
  }

  /** A most general solution of the constraints gives a real typing exactly if the links follow from the constraints. */
  lemma AlwaysRealExact(env: map<Symbol, Typ>, base: TypeSubst, s: TypeSubst, t: Term, next: nat)
    requires Closed(t) && TermAvoids(env, t, next)
    requires Triangular(ByName, s) && Extends(s, base)
    requires Equalizes(s, Generate(env, t, next).constraints)
    requires SameSolutions(base, Generate(env, t, next).constraints, s, [])
    ensures AlwaysReal(env, s, t, ApplySubst(s, Generate(env, t, next).typ)) <==> LinksFollow(env, base, t, next)
  {
    var g := Generate(env, t, next);
    forall theta: Symbol -> Typ
      ensures Respects(theta, s) <==> Respects(theta, base) && Unifies(theta, g.constraints)
      ensures Respects(theta, s) ==> Inst(theta, ApplySubst(s, g.typ)) == Inst(theta, g.typ)
    {
      if Respects(theta, s) {
        Factors(theta, s, g.typ);
        forall a | a in base ensures theta(a) == Inst(theta, base[a]) { assert a in s && s[a] == base[a]; }
        forall i | 0 <= i < |g.constraints|
          ensures Inst(theta, g.constraints[i].left) == Inst(theta, g.constraints[i].right)
        {
          Factors(theta, s, g.constraints[i].left);
          Factors(theta, s, g.constraints[i].right);
        }
      }
    }
    forall theta: Symbol -> Typ
      ensures RealTyp(env, theta, [], t, Inst(theta, g.typ)) <==>
                exists q :: AgreeBelow(theta, q, next) && Linked(env, q, [], t, Inst(theta, g.typ), next)
    {
      LinkedExact(env, theta, t, Inst(theta, g.typ), next);
    }
  }

  /** Bindings that happen to satisfy the links give a real typing; a term without occurrences has no links. */
  lemma SolvedLinksFollow(env: map<Symbol, Typ>, base: TypeSubst, s: TypeSubst, t: Term, next: nat)
    requires Triangular(ByName, s) && Equalizes(s, Links(env, [], t, next))
    requires SameSolutions(base, Generate(env, t, next).constraints, s, [])
    ensures LinksFollow(env, base, t, next)
  {
    var g, links := Generate(env, t, next), Links(env, [], t, next);
    forall r: Symbol -> Typ | Respects(r, base) && Unifies(r, g.constraints)
      ensures AgreeBelow(r, r, next) && Linked(env, r, [], t, Inst(r, g.typ), next)
    {
      forall i | 0 <= i < |links| ensures Inst(r, links[i].left) == Inst(r, links[i].right) {
        Factors(r, s, links[i].left);
        Factors(r, s, links[i].right);
      }
    }
  }

  lemma {:induction false} NoLinks(env: map<Symbol, Typ>, binders: seq<Typ>, t: Term, next: nat)
    requires NoBound(t)
    ensures Links(env, binders, t, next) == []
    decreases t
  {
    match t
    case Abs(_, ty, b) => NoLinks(env, [Annotated(ty, next).typ] + binders, b, Annotated(ty, next).next);
    case App(f, a) => NoLinks(env, binders, f, next); NoLinks(env, binders, a, Generate(env, f, next).next);
    case _ =>
  }

  /** For a closed term without occurrences of bound variables, every most general solution gives a real typing. */
  lemma NoBoundAlwaysReal(env: map<Symbol, Typ>, base: TypeSubst, s: TypeSubst, t: Term, next: nat)
    requires Closed(t) && NoBound(t) && TermAvoids(env, t, next)
    requires Triangular(ByName, s) && Extends(s, base)
    requires Equalizes(s, Generate(env, t, next).constraints)
    requires SameSolutions(base, Generate(env, t, next).constraints, s, [])
    ensures AlwaysReal(env, s, t, ApplySubst(s, Generate(env, t, next).typ))
  {
    NoLinks(env, [], t, next);
    SolvedLinksFollow(env, base, s, t, next);
    AlwaysRealExact(env, base, s, t, next);
  }

  /** For the identity on a known type the links do not follow, so its inferred type is never always real. */
  lemma IdentityLinksFail(env: map<Symbol, Typ>, x: Symbol, s: Typ, next: nat)
    requires !IsDummy(s) && Avoids(s, next)
    ensures !LinksFollow(env, map[], Abs(x, s, Bound(0)), next)
  {
    var t := Abs(x, s, Bound(0));
    var g := Generate(env, t, next);
    var known: Symbol -> Typ := (v: Symbol) => DUMMY;
    var a := Inst(known, s);
    var r := Assign(known, FreshName(next), Type("other", [a]));
    assert Generate(env, Bound(0), next) == Generated(Fresh(next), [], next + 1);
    assert g.typ == Arrow(s, Fresh(next)) && g.constraints == [];
    InstArrow(r, s, Fresh(next));
    InstAgree(r, known, s);
    var ty := Inst(r, g.typ);
    assert ty.args[0] == a && ty.args[1] == Type("other", [a]) && a != Type("other", [a]) by {
      assert [a][0] == a;
    }
    assert Respects(r, map[]) && Unifies(r, g.constraints);
    IdentityTyping(env, r, x, s, ty);
    LinkedExact(env, r, t, ty, next);
  }
}
