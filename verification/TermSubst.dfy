/**
 Substitution for de Bruijn indices. `SubstBounds` and `Lift` have the clauses of the program; `StdSubst` and `Shift`
 are the textbook, capture-avoiding operations. The two agree exactly on `SafeAt`.
 */
module TermSubst {
  import opened Syntax
  import opened WorkStack

  // ---------- the functions of the program ----------

  /** Adds `n` to every index at or above `cutoff`; the cutoff does not move under a binder. */
  function Lift(t: Term, cutoff: nat, n: nat): Term {
    match t
    case Bound(i) => if i >= cutoff then Bound(i + n) else t
    case Abs(x, ty, b) => Abs(x, ty, Lift(b, cutoff, n))
    case App(f, a) => App(Lift(f, cutoff, n), Lift(a, cutoff, n))
    case _ => t
  }

  function LiftAll(args: seq<Term>, n: nat): seq<Term> {
    seq(|args|, i requires 0 <= i < |args| => Lift(args[i], 0, n))
  }

  function UnderBinder(args: seq<Term>): seq<Term> {
    [Bound(0)] + LiftAll(args, 1)
  }

  /** Replaces index `i` by `args[i]`; indices beyond the arguments drop by the length of the current argument list. */
  function SubstBounds(args: seq<Term>, body: Term): Term
    decreases body
  {
    match body
    case Bound(i) => if i < |args| then Lift(args[i], 0, 0) else Bound(i - |args|)
    case Abs(x, ty, b) => Abs(x, ty, SubstBounds(UnderBinder(args), b))
    case App(f, a) => App(SubstBounds(args, f), SubstBounds(args, a))
    case _ => body
  }

  // ---------- the work-stack implementations ----------

  method LiftBoundIter(term: Term, cutoff: nat, n: nat) returns (r: Term)
    ensures r == Lift(term, cutoff, n)
  {
    ghost var f := (t: Term) => Lift(t, cutoff, n);
    ghost var w := (t: Term) => Size(t);
    ghost var goal := Lift(term, cutoff, n);
    var stack: Stack<Frame<Term>> := Push(Process(term), Empty);
    var results: Stack<Term> := Empty;
    while stack.Push?
      invariant Computes(f, stack, results, goal)
      decreases Weight(w, stack)
    {
      var frame, rest := stack.top, stack.below;
      match frame
      case Process(t) =>
        match t {
          case Abs(x, ty, b) =>
            SplitAbs(f, w, t, x, ty, b, rest, results, goal);
            stack := Push(Process(b), Push(BuildAbs(x, ty), rest));
          case App(g, a) =>
            SplitApp(f, w, t, g, a, rest, results, goal);
            stack := Push(Process(g), Push(Process(a), Push(BuildApp, rest)));
          case Bound(i) =>
            Leaf(f, w, frame.p, rest, results, goal);
            results, stack := Push(if i >= cutoff then Bound(i + n) else Bound(i), results), rest;
          case _ =>
            Leaf(f, w, frame.p, rest, results, goal);
            results, stack := Push(t, results), rest;
        }
      case _ =>
        Build(f, w, frame, rest, results, goal);
        results, stack := Rebuild(frame, results), rest;
    }
    r := TopOr(results, term);
  }

  method SubstBoundsIter(args: seq<Term>, body: Term) returns (r: Term)
    ensures r == SubstBounds(args, body)
  {
    ghost var f := (p: (Term, seq<Term>)) => SubstBounds(p.1, p.0);
    ghost var w := (p: (Term, seq<Term>)) => Size(p.0);
    ghost var goal := SubstBounds(args, body);
    var stack: Stack<Frame<(Term, seq<Term>)>> := Push(Process((body, args)), Empty);
    var results: Stack<Term> := Empty;
    while stack.Push?
      invariant Computes(f, stack, results, goal)
      decreases Weight(w, stack)
    {
      var frame, rest := stack.top, stack.below;
      match frame
      case Process((t, cur)) =>
        match t {
          case Bound(i) =>
            Leaf(f, w, frame.p, rest, results, goal);
            var u := Bound(0);
            if i < |cur| {
              u := LiftBoundIter(cur[i], 0, 0);
            } else {
              u := Bound(i - |cur|);
            }
            results, stack := Push(u, results), rest;
          case Abs(x, ty, b) =>
            SplitAbs(f, w, (t, cur), x, ty, (b, UnderBinder(cur)), rest, results, goal);
            stack := Push(Process((b, UnderBinder(cur))), Push(BuildAbs(x, ty), rest));
          case App(g, a) =>
            SplitApp(f, w, (t, cur), (g, cur), (a, cur), rest, results, goal);
            stack := Push(Process((g, cur)), Push(Process((a, cur)), Push(BuildApp, rest)));
          case _ =>
            Leaf(f, w, frame.p, rest, results, goal);
            results, stack := Push(t, results), rest;
        }
      case _ =>
        Build(f, w, frame, rest, results, goal);
        results, stack := Rebuild(frame, results), rest;
    }
    r := TopOr(results, body);
  }

  // ---------- textbook substitution ----------

  /** Adds `n` to every index that escapes `cutoff` binders; the cutoff moves under a binder. */
  function Shift(t: Term, cutoff: nat, n: nat): Term {
    match t
    case Bound(i) => if i >= cutoff then Bound(i + n) else t
    case Abs(x, ty, b) => Abs(x, ty, Shift(b, cutoff + 1, n))
    case App(f, a) => App(Shift(f, cutoff, n), Shift(a, cutoff, n))
    case _ => t
  }

  /** Simultaneous substitution of `args` for the indices `depth .. depth + |args|` of `body`. */
  function StdSubst(args: seq<Term>, depth: nat, body: Term): Term
    decreases body
  {
    match body
    case Bound(i) =>
      if i < depth then body
      else if i < depth + |args| then Shift(args[i - depth], 0, depth)
      else Bound(i - |args|)
    case Abs(x, ty, b) => Abs(x, ty, StdSubst(args, depth + 1, b))
    case App(f, a) => App(StdSubst(args, depth, f), StdSubst(args, depth, a))
    case _ => body
  }

  /** No index of `t` refers to a binder inside `t` that lies below the outer `depth` binders. */
  predicate NoInner(t: Term, depth: nat) {
    match t
    case Bound(i) => i >= depth
    case Abs(_, _, b) => NoInner(b, depth + 1)
    case App(f, a) => NoInner(f, depth) && NoInner(a, depth)
    case _ => true
  }

  /**
   Where the program substitutes correctly: below a binder of the body, no index points past the arguments, and no
   argument is put there that has an index of its own binders.
   */
  predicate SafeAt(args: seq<Term>, depth: nat, body: Term)
    decreases body
  {
    match body
    case Bound(i) => depth == 0 || i < depth || (i < depth + |args| && NoInner(args[i - depth], 0))
    case Abs(_, _, b) => SafeAt(args, depth + 1, b)
    case App(f, a) => SafeAt(args, depth, f) && SafeAt(args, depth, a)
    case _ => true
  }

  /** The argument list the program carries below `depth` binders. */
  function ArgsAt(args: seq<Term>, depth: nat): seq<Term> {
    seq(depth, i requires 0 <= i < depth => Bound(i)) + LiftAll(args, depth)
  }

  lemma {:induction t} LiftZero(t: Term, cutoff: nat)
    ensures Lift(t, cutoff, 0) == t
  {
  }

  lemma {:induction t} LiftTwice(t: Term, m: nat, n: nat)
    ensures Lift(Lift(t, 0, m), 0, n) == Lift(t, 0, m + n)
  {
  }

  lemma ArgsAtZero(args: seq<Term>)
    ensures ArgsAt(args, 0) == args
  {
    forall i | 0 <= i < |args| ensures Lift(args[i], 0, 0) == args[i] {
      LiftZero(args[i], 0);
    }
  }

  lemma ArgsAtSucc(args: seq<Term>, depth: nat)
    ensures UnderBinder(ArgsAt(args, depth)) == ArgsAt(args, depth + 1)
  {
    var l, r := UnderBinder(ArgsAt(args, depth)), ArgsAt(args, depth + 1);
    forall i | 0 <= i < |l| ensures l[i] == r[i] {
      if i > depth {
        LiftTwice(args[i - depth - 1], depth, 1);
      }
    }
  }

  /** Lifting with a fixed cutoff is shifting exactly when nothing inside the term is bound. */
  lemma {:induction false} LiftIsShift(t: Term, depth: nat, n: nat)
    ensures Lift(t, 0, n) == Shift(t, depth, n) <==> n == 0 || NoInner(t, depth)
    decreases t
  {
    match t
    case Abs(_, _, b) => LiftIsShift(b, depth + 1, n);
    case App(f, a) => LiftIsShift(f, depth, n); LiftIsShift(a, depth, n);
    case _ =>
  }

  lemma {:induction false} SubstAtDepth(args: seq<Term>, depth: nat, body: Term)
    ensures SubstBounds(ArgsAt(args, depth), body) == StdSubst(args, depth, body) <==> SafeAt(args, depth, body)
    decreases body
  {
    match body
    case Bound(i) =>
      if i < depth {
      } else if i < depth + |args| {
        var a := args[i - depth];
        assert ArgsAt(args, depth)[i] == Lift(a, 0, depth);
        LiftZero(Lift(a, 0, depth), 0);
        LiftIsShift(a, 0, depth);
      }
    case Abs(_, _, b) => ArgsAtSucc(args, depth); SubstAtDepth(args, depth + 1, b);
    case App(f, a) => SubstAtDepth(args, depth, f); SubstAtDepth(args, depth, a);
    case _ =>
  }

  /** `subst_bounds` is capture-avoiding simultaneous substitution exactly on the safe inputs. */
  lemma SubstBoundsExact(args: seq<Term>, body: Term)
    ensures SubstBounds(args, body) == StdSubst(args, 0, body) <==> SafeAt(args, 0, body)
  {
    ArgsAtZero(args);
    SubstAtDepth(args, 0, body);
  }

  predicate NoAbs(t: Term) {
    match t
    case Abs(_, _, _) => false
    case App(f, a) => NoAbs(f) && NoAbs(a)
    case _ => true
  }

  predicate NoBound(t: Term) {
    match t
    case Bound(_) => false
    case Abs(_, _, b) => NoBound(b)
    case App(f, a) => NoBound(f) && NoBound(a)
    case _ => true
  }

  lemma {:induction t} NoAbsNoInner(t: Term)
    requires NoAbs(t)
    ensures NoInner(t, 0)
  {
  }

  lemma {:induction t, depth} NoBoundNoInner(t: Term, depth: nat)
    requires NoBound(t)
    ensures NoInner(t, depth)
  {
  }

  /** Arguments without binders, or without indices, are safe in every body whose indices they cover. */
  lemma {:induction false} CoveredIsSafe(args: seq<Term>, depth: nat, body: Term)
    requires LooseBelow(body, depth + |args|)
    requires forall i | 0 <= i < |args| :: NoAbs(args[i]) || NoBound(args[i])
    ensures SafeAt(args, depth, body)
    decreases body
  {
    match body
    case Bound(i) =>
      if i >= depth {
        if NoAbs(args[i - depth]) { NoAbsNoInner(args[i - depth]); } else { NoBoundNoInner(args[i - depth], 0); }
      }
    case Abs(_, _, b) => CoveredIsSafe(args, depth + 1, b);
    case App(f, a) => CoveredIsSafe(args, depth, f); CoveredIsSafe(args, depth, a);
    case _ =>
  }

  lemma {:induction false} ClosedNoInner(t: Term, depth: nat)
    requires LooseBelow(t, depth)
    ensures NoInner(t, depth) <==> NoBound(t)
    decreases t
  {
    match t
    case Abs(_, _, b) => ClosedNoInner(b, depth + 1);
    case App(f, a) => ClosedNoInner(f, depth); ClosedNoInner(a, depth);
    case _ =>
  }

  lemma {:induction false} SafeBody(t: Term, depth: nat, body: Term)
    requires NoBound(t) && LooseBelow(body, depth + 1)
    ensures SafeAt([t], depth, body)
    decreases body
  {
    CoveredIsSafe([t], depth, body);
  }

  /** The program substitutes the term correctly in every body of a quantifier. */
  ghost predicate SafeEverywhere(t: Term) {
    forall body :: LooseBelow(body, 1) ==> SafeAt([t], 0, body)
  }

  /** A closed argument is safe in every body of a quantifier exactly if it has no index at all. */
  lemma SafeEverywhereExact(t: Term)
    requires Closed(t)
    ensures SafeEverywhere(t) <==> NoBound(t)
  {
    ClosedNoInner(t, 0);
    if NoBound(t) {
      forall body | LooseBelow(body, 1) ensures SafeAt([t], 0, body) { SafeBody(t, 0, body); }
    } else {
      var inner := Bound(1);
      assert !SafeAt([t], 1, inner);
      var body := Abs("x", DUMMY, inner);
      assert LooseBelow(inner, 2) && LooseBelow(body, 1) && !SafeAt([t], 0, body);
    }
  }

  /** An identity function substituted below a binder comes out as a different function, with a loose index. */
  lemma LambdaArgumentGoesWrong()
    ensures var identity := Abs("x", DUMMY, Bound(0));
            var body := Abs("y", DUMMY, Bound(1));
            && Closed(identity)
            && StdSubst([identity], 0, body) == Abs("y", DUMMY, identity)
            && SubstBounds([identity], body) == Abs("y", DUMMY, Abs("x", DUMMY, Bound(1)))
  {
    var identity := Abs("x", DUMMY, Bound(0));
    LiftTwice(identity, 1, 0);
    assert UnderBinder([identity])[1] == Lift(identity, 0, 1);
  }

  lemma {:induction t, cutoff} ShiftClosed(t: Term, cutoff: nat, n: nat)
    requires LooseBelow(t, cutoff)
    ensures Shift(t, cutoff, n) == t
  {
  }

  /** Substituting closed arguments for all outer indices leaves none of them. */
  lemma {:induction false} StdSubstCloses(args: seq<Term>, depth: nat, body: Term)
    requires LooseBelow(body, depth + |args|)
    requires forall i | 0 <= i < |args| :: Closed(args[i])
    ensures LooseBelow(StdSubst(args, depth, body), depth)
    decreases body
  {
    match body
    case Bound(i) =>
      if i >= depth {
        ShiftClosed(args[i - depth], 0, depth);
        LooseWeaken(args[i - depth], 0, depth);
      }
    case Abs(_, _, b) => StdSubstCloses(args, depth + 1, b);
    case App(f, a) => StdSubstCloses(args, depth, f); StdSubstCloses(args, depth, a);
    case _ =>
  }
}
