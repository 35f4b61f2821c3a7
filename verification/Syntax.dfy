/** Results that may be absent or fail. */
module Wrappers {
  datatype Option<+T> = None | Some(value: T)

  datatype Result<+T, +E> = Ok(value: T) | Err(error: E)
}

/**
 Types and lambda terms of the Pure logic. Terms use de Bruijn indices; the names on binders are comments.
 Indices are unbounded naturals: machine overflow of a de Bruijn index or a schematic index is not modelled.
 */
module Syntax {
  type Symbol = string

  /** A sort is a set of classes, kept as its ascending enumeration. */
  datatype Sort = Sort(classes: seq<Symbol>)

  datatype Typ =
    | Type(name: Symbol, args: seq<Typ>)
    | TFree(name: Symbol, sort: Sort)
    | TVar(name: Symbol, index: nat, sort: Sort)

  datatype Term =
    | Const(name: Symbol, typ: Typ)
    | Free(name: Symbol, typ: Typ)
    | Var(name: Symbol, index: nat, typ: Typ)
    | Bound(i: nat)
    | Abs(name: Symbol, typ: Typ, body: Term)
    | App(func: Term, arg: Term)

  /** A schematic variable is identified by its name and index. */
  type VarKey = (Symbol, nat)

  const DUMMY: Typ := Type("dummy", [])
  const TOP_SORT: Sort := Sort(["type"])

  predicate IsDummy(t: Typ) {
    t.Type? && t.name == "dummy" && t.args == []
  }

  function Base(name: Symbol): Typ {
    Type(name, [])
  }

  function Arrow(dom: Typ, cod: Typ): Typ {
    Type("fun", [dom, cod])
  }

  predicate IsFun(t: Typ) {
    t.Type? && t.name == "fun" && |t.args| == 2
  }

  /** Number of nodes of a term. */
  function Size(t: Term): (n: nat)
    ensures n >= 1
  {
    match t
    case Abs(_, _, b) => 1 + Size(b)
    case App(f, a) => 1 + Size(f) + Size(a)
    case _ => 1
  }

  /** Every index that escapes the binders of `t` is below `k`. */
  predicate LooseBelow(t: Term, k: nat) {
    match t
    case Bound(i) => i < k
    case Abs(_, _, b) => LooseBelow(b, k + 1)
    case App(f, a) => LooseBelow(f, k) && LooseBelow(a, k)
    case _ => true
  }

  predicate Closed(t: Term) {
    LooseBelow(t, 0)
  }

  lemma {:induction t} LooseWeaken(t: Term, j: nat, k: nat)
    requires LooseBelow(t, j) && j <= k
    ensures LooseBelow(t, k)
    decreases t
  {
    match t
    case Abs(_, _, b) => LooseWeaken(b, j + 1, k + 1);
    case App(f, a) => LooseWeaken(f, j, k); LooseWeaken(a, j, k);
    case _ =>
  }

  /** No application of an abstraction anywhere. */
  predicate RedexFree(t: Term) {
    match t
    case Abs(_, _, b) => RedexFree(b)
    case App(f, a) => !f.Abs? && RedexFree(f) && RedexFree(a)
    case _ => true
  }

  /** The term without types and binder names. */
  function Shape(t: Term): Term {
    match t
    case Const(n, _) => Const(n, DUMMY)
    case Free(n, _) => Free(n, DUMMY)
    case Var(n, i, _) => Var(n, i, DUMMY)
    case Bound(_) => t
    case Abs(_, _, b) => Abs("", DUMMY, Shape(b))
    case App(f, a) => App(Shape(f), Shape(a))
  }

  /** The free variable named `x` occurs in the term. */
  predicate FreeIn(x: Symbol, t: Term) {
    match t
    case Free(n, _) => n == x
    case Abs(_, _, b) => FreeIn(x, b)
    case App(f, a) => FreeIn(x, f) || FreeIn(x, a)
    case _ => false
  }
}
