/** Eta-contraction at the top of a term. */
module Eta {
  import opened Syntax
  import opened TermSubst

  predicate OccursBound(i: nat, t: Term)
    decreases t
  {
    match t
    case Bound(j) => j == i
    case Abs(_, _, b) => OccursBound(i + 1, b)
    case App(f, a) => OccursBound(i, f) || OccursBound(i, a)
    case _ => false
  }

  function LowerBound(t: Term, cutoff: nat): (r: Term)
    requires cutoff >= 1
    ensures Size(r) == Size(t)
  {
    match t
    case Bound(i) => if i >= cutoff then Bound(i - 1) else t
    case Abs(n, ty, b) => Abs(n, ty, LowerBound(b, cutoff + 1))
    case App(f, a) => App(LowerBound(f, cutoff), LowerBound(a, cutoff))
    case _ => t
  }

  function EtaContract(t: Term): Term
    decreases Size(t)
  {
    match t
    case Abs(_, _, App(f, Bound(0))) =>
      assert Size(t.body) > Size(f);
      if OccursBound(0, f) then t else EtaContract(LowerBound(f, 1))
    case _ => t
  }

  /** `t` is `r` with the given binders put around it by eta-expansion, the outermost first. */
  ghost predicate Expands(t: Term, r: Term, binders: seq<(Symbol, Typ)>)
    decreases |binders|
  {
    if binders == [] then t == r
    else
      && t.Abs? && (t.name, t.typ) == binders[0]
      && exists inner :: t.body == App(Shift(inner, 0, 1), Bound(0)) && Expands(inner, r, binders[1..])
  }

  /** Without the index itself, lowering above it and shifting from it on are inverse. */
  lemma {:induction false} LowerThenShift(t: Term, depth: nat)
    requires !OccursBound(depth, t)
    ensures Shift(LowerBound(t, depth + 1), depth, 1) == t
    decreases t
  {
    match t
    case Abs(_, _, b) => LowerThenShift(b, depth + 1);
    case App(f, a) => LowerThenShift(f, depth); LowerThenShift(a, depth);
    case _ =>
  }

  lemma {:induction false} ShiftThenLower(t: Term, depth: nat)
    ensures !OccursBound(depth, Shift(t, depth, 1)) && LowerBound(Shift(t, depth, 1), depth + 1) == t
    decreases t
  {
    match t
    case Abs(_, _, b) => ShiftThenLower(b, depth + 1);
    case App(f, a) => ShiftThenLower(f, depth); ShiftThenLower(a, depth);
    case _ =>
  }

  /** The contracted term expands back to the original, and cannot be contracted at the top again. */
  lemma {:induction false} EtaContractExact(t: Term) returns (binders: seq<(Symbol, Typ)>)
    ensures Expands(t, EtaContract(t), binders)
    ensures forall inner, n, ty :: EtaContract(t) != Abs(n, ty, App(Shift(inner, 0, 1), Bound(0)))
    decreases Size(t)
  {
    binders := [];
    match t
    case Abs(n, ty, App(f, Bound(0))) =>
      if OccursBound(0, f) {
        forall inner ensures f != Shift(inner, 0, 1) { ShiftThenLower(inner, 0); }
      } else {
        assert Size(t.body) > Size(f);
        var rest := EtaContractExact(LowerBound(f, 1));
        LowerThenShift(f, 0);
        binders := [(n, ty)] + rest;
        assert t.body == App(Shift(LowerBound(f, 1), 0, 1), Bound(0)) && binders[1..] == rest;
      }
    case _ =>
  }
}
