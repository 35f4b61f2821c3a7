/** Abstraction of a named variable into a de Bruijn binder, and its inverse relation to substitution. */
module TermAbs {
  import opened Syntax
  import opened WorkStack
  import opened TermSubst

  /** The same logical variable: a free variable also stands for the schematic variable of that name and index 0. */
  predicate SameVar(a: Term, b: Term) {
    match (a, b)
    case (Free(m, _), Free(n, _)) => m == n
    case (Var(m, i, _), Var(n, j, _)) => m == n && i == j
    case (Free(m, _), Var(n, j, _)) => j == 0 && m == n
    case (Var(m, i, _), Free(n, _)) => i == 0 && m == n
    case _ => false
  }

  /** The name and index of a variable; a free variable has index 0. */
  function VariableKey(v: Term): VarKey
    requires v.Free? || v.Var?
  {
    if v.Var? then (v.name, v.index) else (v.name, 0)
  }

  predicate IsVariable(v: Term) {
    v.Free? || v.Var?
  }

  function IncrBound(depth: nat, t: Term): Term
    decreases t
  {
    match t
    case Bound(i) => if i >= depth then Bound(i + 1) else t
    case Abs(x, ty, b) => Abs(x, ty, IncrBound(depth + 1, b))
    case App(f, a) => App(IncrBound(depth, f), IncrBound(depth, a))
    case _ => t
  }

  function SubstVarBound(depth: nat, v: Term, t: Term): Term
    decreases t
  {
    if SameVar(v, t) then Bound(depth)
    else match t
      case Abs(x, ty, b) => Abs(x, ty, SubstVarBound(depth + 1, v, b))
      case App(f, a) => App(SubstVarBound(depth, v, f), SubstVarBound(depth, v, a))
      case _ => t
  }

  function BinderName(v: Term): Symbol {
    match v
    case Free(n, _) => n
    case Var(n, _, _) => n
    case Const(n, _) => n
    case _ => "x"
  }

  function Lambda(v: Term, body: Term): Term {
    Abs(BinderName(v), DUMMY, SubstVarBound(0, v, IncrBound(0, body)))
  }

  // ---------- the work-stack implementations ----------

  /** A subterm and the number of binders above it. */
  datatype At = At(depth: nat, term: Term)

  method IncrBoundIter(depth: nat, term: Term) returns (r: Term)
    ensures r == IncrBound(depth, term)
  {
    ghost var f := (p: At) => IncrBound(p.depth, p.term);
    ghost var w := (p: At) => Size(p.term);
    ghost var goal := IncrBound(depth, term);
    var stack: Stack<Frame<At>> := Push(Process(At(depth, term)), Empty);
    var results: Stack<Term> := Empty;
    while stack.Push?
      invariant Computes(f, stack, results, goal)
      decreases Weight(w, stack)
    {
      var frame, rest := stack.top, stack.below;
      match frame
      case Process(At(d, t)) =>
        match t {
          case Bound(i) =>
            Leaf(f, w, frame.p, rest, results, goal);
            results, stack := Push(if i >= d then Bound(i + 1) else t, results), rest;
          case App(g, a) =>
            SplitApp(f, w, At(d, t), At(d, g), At(d, a), rest, results, goal);
            stack := Push(Process(At(d, g)), Push(Process(At(d, a)), Push(BuildApp, rest)));
          case Abs(x, ty, b) =>
            SplitAbs(f, w, At(d, t), x, ty, At(d + 1, b), rest, results, goal);
            stack := Push(Process(At(d + 1, b)), Push(BuildAbs(x, ty), rest));
          case _ =>
            Leaf(f, w, frame.p, rest, results, goal);
            results, stack := Push(t, results), rest;
        }
      case _ =>
        Build(f, w, frame, rest, results, goal);
        results, stack := Rebuild(frame, results), rest;
    }
    r := TopOr(results, term);
  }

  method SubstVarBoundIter(depth: nat, v: Term, term: Term) returns (r: Term)
    ensures r == SubstVarBound(depth, v, term)
  {
    ghost var f := (p: At) => SubstVarBound(p.depth, v, p.term);
    ghost var w := (p: At) => Size(p.term);
    ghost var goal := SubstVarBound(depth, v, term);
    var stack: Stack<Frame<At>> := Push(Process(At(depth, term)), Empty);
    var results: Stack<Term> := Empty;
    while stack.Push?
      invariant Computes(f, stack, results, goal)
      decreases Weight(w, stack)
    {
      var frame, rest := stack.top, stack.below;
      match frame
      case Process(At(d, t)) =>
        if SameVar(v, t) {
          Leaf(f, w, frame.p, rest, results, goal);
          results, stack := Push(Bound(d), results), rest;
        } else {
          match t {
            case App(g, a) =>
              SplitApp(f, w, At(d, t), At(d, g), At(d, a), rest, results, goal);
              stack := Push(Process(At(d, g)), Push(Process(At(d, a)), Push(BuildApp, rest)));
            case Abs(x, ty, b) =>
              SplitAbs(f, w, At(d, t), x, ty, At(d + 1, b), rest, results, goal);
              stack := Push(Process(At(d + 1, b)), Push(BuildAbs(x, ty), rest));
            case _ =>
              Leaf(f, w, frame.p, rest, results, goal);
              results, stack := Push(t, results), rest;
          }
        }
      case _ =>
        Build(f, w, frame, rest, results, goal);
        results, stack := Rebuild(frame, results), rest;
    }
    r := TopOr(results, term);
  }

  /** Variables are the same exactly if name and index are; kinds and types do not count. */
  lemma SameVarExact(a: Term, b: Term)
    ensures SameVar(a, b) <==> IsVariable(a) && IsVariable(b) && VariableKey(a) == VariableKey(b)
  {
  }

  // ---------- abstracting and instantiating undo each other ----------

  lemma {:induction depth, t} IncrClosed(depth: nat, t: Term)
    requires LooseBelow(t, depth)
    ensures IncrBound(depth, t) == t
    decreases t
  {
  }

  lemma {:induction false} SubstVarBoundLoose(depth: nat, v: Term, t: Term)
    requires LooseBelow(t, depth)
    ensures LooseBelow(SubstVarBound(depth, v, t), depth + 1)
    decreases t
  {
    match t
    case Abs(_, _, b) => SubstVarBoundLoose(depth + 1, v, b);
    case App(f, a) => SubstVarBoundLoose(depth, v, f); SubstVarBoundLoose(depth, v, a);
    case _ =>
  }

  lemma LambdaClosed(v: Term, t: Term)
    requires Closed(t)
    ensures Lambda(v, t) == Abs(BinderName(v), DUMMY, SubstVarBound(0, v, t))
    ensures Closed(Lambda(v, t))
  {
    IncrClosed(0, t);
    SubstVarBoundLoose(0, v, t);
  }

  /** Every leaf that counts as the variable `v` is `v` itself, with the same type and the same kind. */
  predicate OnlyItself(v: Term, t: Term) {
    (SameVar(v, t) ==> t == v) &&
    match t
    case Abs(_, _, b) => OnlyItself(v, b)
    case App(f, a) => OnlyItself(v, f) && OnlyItself(v, a)
    case _ => true
  }

  predicate Occurs(v: Term, t: Term) {
    SameVar(v, t) ||
    match t
    case Abs(_, _, b) => Occurs(v, b)
    case App(f, a) => Occurs(v, f) || Occurs(v, a)
    case _ => false
  }

  /** Abstracting a variable changes a term exactly if the variable occurs in it. */
  lemma {:induction false} AbstractsNothing(depth: nat, v: Term, t: Term)
    requires LooseBelow(t, depth)
    ensures SubstVarBound(depth, v, t) == t <==> !Occurs(v, t)
    decreases t
  {
    if !SameVar(v, t) {
      match t
      case Abs(_, _, b) => AbstractsNothing(depth + 1, v, b);
      case App(f, a) => AbstractsNothing(depth, v, f); AbstractsNothing(depth, v, a);
      case _ =>
    }
  }

  lemma {:induction false} InstantiateAbstractedAt(depth: nat, v: Term, t: Term)
    requires IsVariable(v) && LooseBelow(t, depth)
    ensures SubstBounds(ArgsAt([v], depth), SubstVarBound(depth, v, t)) == t <==> OnlyItself(v, t)
    decreases t
  {
    if SameVar(v, t) {
      assert ArgsAt([v], depth)[depth] == v;
    } else {
      match t
      case Abs(_, _, b) => ArgsAtSucc([v], depth); InstantiateAbstractedAt(depth + 1, v, b);
      case App(f, a) => InstantiateAbstractedAt(depth, v, f); InstantiateAbstractedAt(depth, v, a);
      case _ =>
    }
  }

  /** Abstracting `v` from a closed term and putting `v` back is the identity exactly when only `v` was abstracted. */
  lemma InstantiateAbstracted(v: Term, t: Term)
    requires IsVariable(v) && Closed(t)
    ensures SubstBounds([v], Lambda(v, t).body) == t <==> OnlyItself(v, t)
  {
    LambdaClosed(v, t);
    ArgsAtZero([v]);
    InstantiateAbstractedAt(0, v, t);
  }

  lemma {:induction false} IncrIsShift(depth: nat, t: Term)
    ensures IncrBound(depth, t) == Shift(t, depth, 1)
    decreases t
  {
    match t
    case Abs(_, _, b) => IncrIsShift(depth + 1, b);
    case App(f, a) => IncrIsShift(depth, f); IncrIsShift(depth, a);
    case _ =>
  }

  /**
   For every term, open ones too: the index step makes room for the new binder, so that textbook substitution of the variable
   gives the term back exactly when only the variable itself was abstracted.
   */
  lemma {:induction false} AbstractedOpen(depth: nat, v: Term, t: Term)
    requires IsVariable(v)
    ensures StdSubst([v], depth, SubstVarBound(depth, v, IncrBound(depth, t))) == t <==> OnlyItself(v, t)
    decreases t
  {
    if SameVar(v, t) {
      assert IncrBound(depth, t) == t;
    } else {
      match t
      case Abs(_, _, b) => AbstractedOpen(depth + 1, v, b);
      case App(f, a) => AbstractedOpen(depth, v, f); AbstractedOpen(depth, v, a);
      case _ =>
    }
  }

  lemma {:induction false} AbstractInstantiatedAt(depth: nat, v: Term, b: Term)
    requires IsVariable(v) && LooseBelow(b, depth + 1) && !Occurs(v, b)
    ensures LooseBelow(SubstBounds(ArgsAt([v], depth), b), depth)
    ensures SubstVarBound(depth, v, SubstBounds(ArgsAt([v], depth), b)) == b
    decreases b
  {
    match b
    case Bound(i) =>
      if i == depth { assert ArgsAt([v], depth)[depth] == v; } else { assert ArgsAt([v], depth)[i] == Bound(i); }
    case Abs(_, _, c) => ArgsAtSucc([v], depth); AbstractInstantiatedAt(depth + 1, v, c);
    case App(f, a) => AbstractInstantiatedAt(depth, v, f); AbstractInstantiatedAt(depth, v, a);
    case _ =>
  }

  /** Opening a binder with a variable that does not occur in its body and abstracting that variable is the identity. */
  lemma AbstractInstantiated(v: Term, b: Term)
    requires IsVariable(v) && LooseBelow(b, 1) && !Occurs(v, b)
    ensures Lambda(v, SubstBounds([v], b)).body == b
  {
    ArgsAtZero([v]);
    AbstractInstantiatedAt(0, v, b);
    LambdaClosed(v, SubstBounds([v], b));
  }
}
