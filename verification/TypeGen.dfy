/**
 Generation of type constraints from terms, against a declarative typing relation. As in the program, an occurrence of
 a bound variable and an unknown type leave the type free: the relation does not link a binder to its occurrences.
 */
module TypeGen {
  import opened Numerals
  import opened Syntax
  import opened TypeUnify

  // ---------- fresh variables ----------

  function FreshName(k: nat): Symbol {
    "?'a" + Decimal(k)
  }

  function Fresh(k: nat): Typ {
    TVar(FreshName(k), 0, TOP_SORT)
  }

  lemma FreshInjective(m: nat, n: nat)
    requires FreshName(m) == FreshName(n)
    ensures m == n
  {
    assert FreshName(m)[3..] == Decimal(m) && FreshName(n)[3..] == Decimal(n);
    DecimalInjective(m, n);
  }

  // ---------- constraint generation ----------

  datatype Generated = Generated(typ: Typ, constraints: seq<Constraint>, next: nat)

  function Annotated(ty: Typ, next: nat): Generated {
    if IsDummy(ty) then Generated(Fresh(next), [], next + 1) else Generated(ty, [], next)
  }

  /** The type of a term, the constraints under which it has that type, and the next fresh index. */
  function Generate(env: map<Symbol, Typ>, t: Term, next: nat): Generated {
    match t
    case Const(n, ty) => if IsDummy(ty) && n in env then Generated(env[n], [], next) else Annotated(ty, next)
    case Free(_, ty) => Annotated(ty, next)
    case Var(_, _, ty) => Annotated(ty, next)
    case Bound(_) => Generated(Fresh(next), [], next + 1)
    case Abs(_, ty, b) =>
      var dom := Annotated(ty, next);
      var body := Generate(env, b, dom.next);
      Generated(Arrow(dom.typ, body.typ), body.constraints, body.next)
    case App(f, a) =>
      var fun := Generate(env, f, next);
      var arg := Generate(env, a, fun.next);
      Generated(Fresh(arg.next),
                fun.constraints + arg.constraints + [Constraint(fun.typ, Arrow(arg.typ, Fresh(arg.next)))],
                arg.next + 1)
  }

  // ---------- typing ----------

  ghost predicate Fits(theta: Symbol -> Typ, annotation: Typ, t: Typ) {
    !IsDummy(annotation) ==> t == Inst(theta, annotation)
  }

  ghost predicate HasTyp(env: map<Symbol, Typ>, theta: Symbol -> Typ, t: Term, ty: Typ)
    decreases t
  {
    match t
    case Const(n, s) => if IsDummy(s) && n in env then ty == Inst(theta, env[n]) else Fits(theta, s, ty)
    case Free(_, s) => Fits(theta, s, ty)
    case Var(_, _, s) => Fits(theta, s, ty)
    case Bound(_) => true
    case Abs(_, s, b) => IsFun(ty) && Fits(theta, s, ty.args[0]) && HasTyp(env, theta, b, ty.args[1])
    case App(f, a) => exists dom: Typ :: HasTyp(env, theta, f, Arrow(dom, ty)) && HasTyp(env, theta, a, dom)
  }

  /** No fresh name from `lo` on occurs in the type. */
  ghost predicate Avoids(t: Typ, lo: nat) {
    forall k: nat :: k >= lo ==> FreshName(k) !in Vars(t)
  }

  ghost predicate TermAvoids(env: map<Symbol, Typ>, t: Term, lo: nat) {
    match t
    case Const(n, s) => Avoids(s, lo) && (n in env ==> Avoids(env[n], lo))
    case Free(_, s) => Avoids(s, lo)
    case Var(_, _, s) => Avoids(s, lo)
    case Bound(_) => true
    case Abs(_, s, b) => Avoids(s, lo) && TermAvoids(env, b, lo)
    case App(f, a) => TermAvoids(env, f, lo) && TermAvoids(env, a, lo)
  }

  /** The assignments differ on fresh names from `lo` on at most. */
  ghost predicate AgreeBelow(a: Symbol -> Typ, b: Symbol -> Typ, lo: nat) {
    forall v :: a(v) != b(v) ==> exists k: nat :: k >= lo && v == FreshName(k)
  }

  lemma {:induction false} InstAgree(a: Symbol -> Typ, b: Symbol -> Typ, t: Typ)
    requires forall v :: v in Vars(t) ==> a(v) == b(v)
    ensures Inst(a, t) == Inst(b, t)
  {
    match t
    case TVar(n, _, _) => assert n in Vars(t);
    case Type(_, args) =>
      forall i | 0 <= i < |args| ensures Inst(a, args[i]) == Inst(b, args[i]) {
        assert forall v :: v in Vars(args[i]) ==> v in Vars(t);
        InstAgree(a, b, args[i]);
      }
      assert Inst(a, t).args == Inst(b, t).args;
    case TFree(_, _) =>
  }

  lemma InstBelow(a: Symbol -> Typ, b: Symbol -> Typ, t: Typ, lo: nat)
    requires AgreeBelow(a, b, lo) && Avoids(t, lo)
    ensures Inst(a, t) == Inst(b, t)
  {
    InstAgree(a, b, t);
  }

  lemma {:induction false} TypingBelow(env: map<Symbol, Typ>, a: Symbol -> Typ, b: Symbol -> Typ,
                                       t: Term, ty: Typ, lo: nat)
    requires AgreeBelow(a, b, lo) && TermAvoids(env, t, lo) && HasTyp(env, a, t, ty)
    ensures HasTyp(env, b, t, ty)
    decreases t
  {
    match t
    case Const(n, s) =>
      InstBelow(a, b, s, lo);
      if n in env { InstBelow(a, b, env[n], lo); }
    case Free(_, s) => InstBelow(a, b, s, lo);
    case Var(_, _, s) => InstBelow(a, b, s, lo);
    case Bound(_) =>
    case Abs(_, s, body) => InstBelow(a, b, s, lo); TypingBelow(env, a, b, body, ty.args[1], lo);
    case App(f, x) =>
      var dom :| HasTyp(env, a, f, Arrow(dom, ty)) && HasTyp(env, a, x, dom);
      TypingBelow(env, a, b, f, Arrow(dom, ty), lo);
      TypingBelow(env, a, b, x, dom, lo);
  }

  lemma {:induction false} AvoidsLater(env: map<Symbol, Typ>, t: Term, lo: nat, hi: nat)
    requires TermAvoids(env, t, lo) && lo <= hi
    ensures TermAvoids(env, t, hi)
  {
    match t
    case Abs(_, _, b) => AvoidsLater(env, b, lo, hi);
    case App(f, a) => AvoidsLater(env, f, lo, hi); AvoidsLater(env, a, lo, hi);
    case _ =>
  }

  ghost predicate AllAvoid(cs: seq<Constraint>, lo: nat) {
    forall i :: 0 <= i < |cs| ==> Avoids(cs[i].left, lo) && Avoids(cs[i].right, lo)
  }

  lemma FreshAvoids(k: nat)
    ensures Avoids(Fresh(k), k + 1)
  {
    forall j: nat | j >= k + 1 ensures FreshName(j) !in Vars(Fresh(k)) {
      if FreshName(j) == FreshName(k) { FreshInjective(j, k); }
    }
  }

  lemma ArrowAvoids(a: Typ, b: Typ, lo: nat)
    requires Avoids(a, lo) && Avoids(b, lo)
    ensures Avoids(Arrow(a, b), lo)
  {
    var ab := Arrow(a, b);
    assert ab.args[0] == a && ab.args[1] == b;
    assert forall v :: v in Vars(ab) ==> v in Vars(a) || v in Vars(b);
  }

  /** Generation uses no fresh name at or beyond the index it returns. */
  lemma {:induction false} GeneratedAvoids(env: map<Symbol, Typ>, t: Term, next: nat)
    requires TermAvoids(env, t, next)
    ensures var g := Generate(env, t, next); next <= g.next && Avoids(g.typ, g.next) && AllAvoid(g.constraints, g.next)
    decreases t
  {
    FreshAvoids(next);
    match t
    case Abs(_, ty, b) =>
      var dom := Annotated(ty, next);
      AvoidsLater(env, b, next, dom.next);
      GeneratedAvoids(env, b, dom.next);
      ArrowAvoids(dom.typ, Generate(env, b, dom.next).typ, Generate(env, b, dom.next).next);
    case App(f, a) =>
      var fun := Generate(env, f, next);
      GeneratedAvoids(env, f, next);
      AvoidsLater(env, a, next, fun.next);
      GeneratedAvoids(env, a, fun.next);
      var arg := Generate(env, a, fun.next);
      FreshAvoids(arg.next);
      ArrowAvoids(arg.typ, Fresh(arg.next), arg.next + 1);
    case _ =>
  }

  lemma InstArrow(theta: Symbol -> Typ, a: Typ, b: Typ)
    ensures Inst(theta, Arrow(a, b)) == Arrow(Inst(theta, a), Inst(theta, b))
  {
    assert Inst(theta, Arrow(a, b)).args == [Inst(theta, a), Inst(theta, b)];
  }

  /** Every solution of the generated constraints is a typing. */
  lemma {:induction false} GenerateSound(env: map<Symbol, Typ>, theta: Symbol -> Typ, t: Term, next: nat)
    requires Unifies(theta, Generate(env, t, next).constraints)
    ensures HasTyp(env, theta, t, Inst(theta, Generate(env, t, next).typ))
    decreases t
  {
    var g := Generate(env, t, next);
    match t
    case Abs(_, ty, b) =>
      var dom := Annotated(ty, next);
      GenerateSound(env, theta, b, dom.next);
      InstArrow(theta, dom.typ, Generate(env, b, dom.next).typ);
    case App(f, a) =>
      var fun := Generate(env, f, next);
      var arg := Generate(env, a, fun.next);
      var c := Constraint(fun.typ, Arrow(arg.typ, Fresh(arg.next)));
      assert g.constraints == fun.constraints + arg.constraints + [c];
      assert Unifies(theta, fun.constraints) by {
        forall i | 0 <= i < |fun.constraints|
          ensures Inst(theta, fun.constraints[i].left) == Inst(theta, fun.constraints[i].right)
        { assert g.constraints[i] == fun.constraints[i]; }
      }
      assert Unifies(theta, arg.constraints) by {
        forall i | 0 <= i < |arg.constraints|
          ensures Inst(theta, arg.constraints[i].left) == Inst(theta, arg.constraints[i].right)
        { assert g.constraints[|fun.constraints| + i] == arg.constraints[i]; }
      }
      assert g.constraints[|g.constraints| - 1] == c;
      GenerateSound(env, theta, f, next);
      GenerateSound(env, theta, a, fun.next);
      InstArrow(theta, arg.typ, Fresh(arg.next));
      assert HasTyp(env, theta, f, Arrow(Inst(theta, arg.typ), Inst(theta, g.typ)));
    case _ =>
  }

  function Assign(theta: Symbol -> Typ, v: Symbol, ty: Typ): Symbol -> Typ {
    (u: Symbol) => if u == v then ty else theta(u)
  }

  lemma {:induction false} UnifiesBelow(a: Symbol -> Typ, b: Symbol -> Typ, cs: seq<Constraint>, lo: nat)
    requires AgreeBelow(a, b, lo) && AllAvoid(cs, lo) && Unifies(a, cs)
    ensures Unifies(b, cs)
  {
    forall i | 0 <= i < |cs| ensures Inst(b, cs[i].left) == Inst(b, cs[i].right) {
      InstBelow(a, b, cs[i].left, lo);
      InstBelow(a, b, cs[i].right, lo);
    }
  }

  lemma AgreeTransitive(a: Symbol -> Typ, b: Symbol -> Typ, c: Symbol -> Typ, lo: nat, hi: nat)
    requires AgreeBelow(a, b, lo) && AgreeBelow(b, c, hi) && lo <= hi
    ensures AgreeBelow(a, c, lo)
  {
    forall v | a(v) != c(v) ensures exists k: nat :: k >= lo && v == FreshName(k) {
      if a(v) == b(v) {
        var k: nat :| k >= hi && v == FreshName(k);
      }
    }
  }

  /** Gives the fresh variable of an unknown annotation the type it has. */
  function AssignFresh(theta: Symbol -> Typ, annotation: Typ, next: nat, ty: Typ): Symbol -> Typ {
    if IsDummy(annotation) then Assign(theta, FreshName(next), ty) else theta
  }

  lemma AnnotatedComplete(theta: Symbol -> Typ, annotation: Typ, ty: Typ, next: nat)
    requires Fits(theta, annotation, ty)
    ensures var r := AssignFresh(theta, annotation, next, ty);
            AgreeBelow(theta, r, next) && Inst(r, Annotated(annotation, next).typ) == ty
  {
  }

  /** Every typing is an instance of what is generated, by an assignment that changes only the fresh names. */
  lemma {:induction false} GenerateComplete(env: map<Symbol, Typ>, theta: Symbol -> Typ, t: Term, ty: Typ, next: nat)
    returns (r: Symbol -> Typ)
    requires HasTyp(env, theta, t, ty) && TermAvoids(env, t, next)
    ensures AgreeBelow(theta, r, next)
    ensures Unifies(r, Generate(env, t, next).constraints) && Inst(r, Generate(env, t, next).typ) == ty
    decreases t
  {
    match t
    case Const(n, s) =>
      if IsDummy(s) && n in env { r := theta; } else {
        r := AssignFresh(theta, s, next, ty);
        AnnotatedComplete(theta, s, ty, next);
      }
    case Free(_, s) => r := AssignFresh(theta, s, next, ty); AnnotatedComplete(theta, s, ty, next);
    case Var(_, _, s) => r := AssignFresh(theta, s, next, ty); AnnotatedComplete(theta, s, ty, next);
    case Bound(_) => r := AssignFresh(theta, DUMMY, next, ty); AnnotatedComplete(theta, DUMMY, ty, next);
    case Abs(_, s, b) =>
      var dom := Annotated(s, next);
      var r1 := AssignFresh(theta, s, next, ty.args[0]);
      AnnotatedComplete(theta, s, ty.args[0], next);
      TypingBelow(env, theta, r1, b, ty.args[1], next);
      AvoidsLater(env, b, next, dom.next);
      r := GenerateComplete(env, r1, b, ty.args[1], dom.next);
      AgreeTransitive(theta, r1, r, next, dom.next);
      FreshAvoids(next);
      InstBelow(r1, r, dom.typ, dom.next);
      InstArrow(r, dom.typ, Generate(env, b, dom.next).typ);
    case App(f, a) => r := AppComplete(env, theta, f, a, ty, next);
  }

  lemma {:induction false} AppComplete(env: map<Symbol, Typ>, theta: Symbol -> Typ, f: Term, a: Term, ty: Typ, next: nat)
    returns (r: Symbol -> Typ)
    requires HasTyp(env, theta, App(f, a), ty) && TermAvoids(env, App(f, a), next)
    ensures AgreeBelow(theta, r, next)
    ensures Unifies(r, Generate(env, App(f, a), next).constraints)
    ensures Inst(r, Generate(env, App(f, a), next).typ) == ty
    decreases App(f, a), 0
  {
    var dom: Typ :| HasTyp(env, theta, f, Arrow(dom, ty)) && HasTyp(env, theta, a, dom);
    var fun := Generate(env, f, next);
    var arg := Generate(env, a, fun.next);
    var r1 := GenerateComplete(env, theta, f, Arrow(dom, ty), next);
    GeneratedAvoids(env, f, next);
    TypingBelow(env, theta, r1, a, dom, next);
    AvoidsLater(env, a, next, fun.next);
    var r2 := GenerateComplete(env, r1, a, dom, fun.next);
    GeneratedAvoids(env, a, fun.next);
    r := Assign(r2, FreshName(arg.next), ty);
    assert AgreeBelow(r2, r, arg.next);
    AgreeTransitive(r1, r2, r, fun.next, arg.next);
    AgreeTransitive(theta, r1, r, next, fun.next);
    UnifiesBelow(r1, r, fun.constraints, fun.next);
    UnifiesBelow(r2, r, arg.constraints, arg.next);
    InstBelow(r1, r, fun.typ, fun.next);
    InstBelow(r2, r, arg.typ, arg.next);
    InstArrow(r, arg.typ, Fresh(arg.next));
  }
}
