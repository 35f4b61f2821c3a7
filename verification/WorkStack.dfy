/**
 Work-stack traversals. Several term functions are written with an explicit stack of frames and a stack of results:
 a frame either processes a subproblem or rebuilds a node from the results already computed. `Plug` says what such a
 configuration computes when processing a subproblem `p` means `f(p)`; `Enough` says that no pop of the result stack
 finds it empty, so the fallback values of the original are never used.
 */
module WorkStack {
  import opened Syntax

  /** A vector that is only pushed and popped at its end. */
  datatype Stack<T> = Empty | Push(top: T, below: Stack<T>)

  datatype Frame<P> =
    | Process(p: P)
    | BuildAbs(name: Symbol, typ: Typ)
    | BuildApp

  /** The value popped when the result stack is empty. */
  const FALLBACK: Term := Bound(0)

  function TopOr(results: Stack<Term>, default: Term): Term {
    if results.Push? then results.top else default
  }

  function Pop(results: Stack<Term>): Stack<Term> {
    if results.Push? then results.below else Empty
  }

  function Height<T>(s: Stack<T>): nat {
    match s
    case Empty => 0
    case Push(_, below) => 1 + Height(below)
  }

  /** Rebuilds a node from the top of the result stack, as the original does for a frame that processes nothing. */
  function Rebuild<P>(frame: Frame<P>, results: Stack<Term>): Stack<Term>
    requires !frame.Process?
  {
    match frame
    case BuildAbs(n, ty) => Push(Abs(n, ty, TopOr(results, FALLBACK)), Pop(results))
    case BuildApp => Push(App(TopOr(Pop(results), FALLBACK), TopOr(results, FALLBACK)), Pop(Pop(results)))
  }

  /** What a configuration leaves on the result stack. */
  ghost function Plug<P>(f: P -> Term, stack: Stack<Frame<P>>, results: Stack<Term>): Stack<Term> {
    match stack
    case Empty => results
    case Push(Process(p), rest) => Plug(f, rest, Push(f(p), results))
    case Push(frame, rest) => Plug(f, rest, Rebuild(frame, results))
  }

  /** With `n` results present, every frame finds the results it pops. */
  ghost predicate Enough<P>(stack: Stack<Frame<P>>, n: nat) {
    match stack
    case Empty => true
    case Push(Process(_), rest) => Enough(rest, n + 1)
    case Push(BuildAbs(_, _), rest) => n >= 1 && Enough(rest, n)
    case Push(BuildApp, rest) => n >= 2 && Enough(rest, n - 1)
  }

  /** Weight of a stack of frames, given the weight of each subproblem: it falls at each step of a traversal. */
  ghost function Weight<P>(w: P -> nat, stack: Stack<Frame<P>>): nat {
    match stack
    case Empty => 0
    case Push(Process(p), rest) => 2 * w(p) + Weight(w, rest)
    case Push(_, rest) => 1 + Weight(w, rest)
  }

  /** The configuration computes the single result `goal`, without ever popping an empty result stack. */
  ghost predicate Computes<P>(f: P -> Term, stack: Stack<Frame<P>>, results: Stack<Term>, goal: Term) {
    Plug(f, stack, results) == Push(goal, Empty) && Enough(stack, Height(results))
  }

  /** A leaf of the traversal. */
  lemma Leaf<P>(f: P -> Term, w: P -> nat, p: P, rest: Stack<Frame<P>>, results: Stack<Term>, goal: Term)
    requires Computes(f, Push(Process(p), rest), results, goal)
    requires w(p) >= 1
    ensures Computes(f, rest, Push(f(p), results), goal)
    ensures Weight(w, rest) < Weight(w, Push(Process(p), rest))
  {
  }

  /** A node to rebuild: what it pops is there. */
  lemma Build<P>(f: P -> Term, w: P -> nat, frame: Frame<P>, rest: Stack<Frame<P>>, results: Stack<Term>, goal: Term)
    requires Computes(f, Push(frame, rest), results, goal) && !frame.Process?
    ensures results.Push? && (frame.BuildApp? ==> results.below.Push?)
    ensures Computes(f, rest, Rebuild(frame, results), goal)
    ensures Weight(w, rest) < Weight(w, Push(frame, rest))
  {
    match frame
    case BuildAbs(_, _) =>
      assert Height(Rebuild(frame, results)) == Height(results);
    case BuildApp =>
      assert Height(results) == 1 + Height(results.below) && results.below.Push?;
      assert Height(Rebuild(frame, results)) == Height(results) - 1;
  }

  /** Opening an application: its two subproblems and the frame that rebuilds it. */
  lemma SplitApp<P>(f: P -> Term, w: P -> nat, p: P, p1: P, p2: P,
                    rest: Stack<Frame<P>>, results: Stack<Term>, goal: Term)
    requires Computes(f, Push(Process(p), rest), results, goal)
    requires f(p) == App(f(p1), f(p2))
    requires w(p) == 1 + w(p1) + w(p2)
    ensures Computes(f, Push(Process(p1), Push(Process(p2), Push(BuildApp, rest))), results, goal)
    ensures Weight(w, Push(Process(p1), Push(Process(p2), Push(BuildApp, rest)))) < Weight(w, Push(Process(p), rest))
  {
    var s2 := Push(Process(p2), Push(BuildApp, rest));
    assert Weight(w, s2) == 2 * w(p2) + 1 + Weight(w, rest);
    var r1, r2 := Push(f(p1), results), Push(f(p2), Push(f(p1), results));
    assert Plug(f, s2, r1) == Plug(f, Push(BuildApp, rest), r2);
    assert Rebuild<P>(BuildApp, r2) == Push(f(p), results);
    assert Enough(s2, Height(r1)) == Enough(Push(BuildApp, rest), Height(r2));
  }

  /** Opening an abstraction. */
  lemma SplitAbs<P>(f: P -> Term, w: P -> nat, p: P, n: Symbol, ty: Typ, p1: P,
                    rest: Stack<Frame<P>>, results: Stack<Term>, goal: Term)
    requires Computes(f, Push(Process(p), rest), results, goal)
    requires f(p) == Abs(n, ty, f(p1))
    requires w(p) == 1 + w(p1)
    ensures Computes(f, Push(Process(p1), Push(BuildAbs(n, ty), rest)), results, goal)
    ensures Weight(w, Push(Process(p1), Push(BuildAbs(n, ty), rest))) < Weight(w, Push(Process(p), rest))
  {
    assert Rebuild(Frame<P>.BuildAbs(n, ty), Push(f(p1), results)) == Push(f(p), results);
  }
}
