/** Orderings of types and terms. */
module TermOrd {
  import opened Syntax

  datatype Ordering = Less | Equal | Greater

  function Flip(o: Ordering): Ordering {
    match o
    case Less => Greater
    case Equal => Equal
    case Greater => Less
  }

  /** Lexicographic combination: the second comparison counts if the first finds no difference. */
  function Then(first: Ordering, second: Ordering): Ordering {
    if first == Equal then second else first
  }

  /**
   The comparisons of `a` with `b`, `b` with `c` and `a` with `c` fit together as in a total preorder: what is equal to a
   middle term compares as that does, and two comparisons that agree carry over.
   */
  predicate Chain(ab: Ordering, bc: Ordering, ac: Ordering) {
    ac == if ab == Equal then bc else if bc == Equal || bc == ab then ab else ac
  }

  lemma ThenChain(ab1: Ordering, bc1: Ordering, ac1: Ordering, ab2: Ordering, bc2: Ordering, ac2: Ordering)
    requires Chain(ab1, bc1, ac1) && (ab1 == Equal && bc1 == Equal ==> Chain(ab2, bc2, ac2))
    ensures Chain(Then(ab1, ab2), Then(bc1, bc2), Then(ac1, ac2))
  {
  }

  function CmpInt(a: int, b: int): Ordering {
    if a < b then Less else if a == b then Equal else Greater
  }

  function CmpChar(a: char, b: char): Ordering {
    CmpInt(a as int, b as int)
  }

  // ---------- sequences ----------

  function CmpSeq<T>(cmp: (T, T) -> Ordering, a: seq<T>, b: seq<T>): Ordering {
    if a == [] || b == [] then CmpInt(|a|, |b|)
    else Then(cmp(a[0], b[0]), CmpSeq(cmp, a[1..], b[1..]))
  }

  /** A total order whose `Equal` is equality. */
  ghost predicate TotalOrder<T(!new)>(cmp: (T, T) -> Ordering) {
    && (forall x, y :: cmp(y, x) == Flip(cmp(x, y)))
    && (forall x, y :: cmp(x, y) == Equal <==> x == y)
    && (forall x, y, z :: Chain(cmp(x, y), cmp(y, z), cmp(x, z)))
  }

  lemma {:induction false} CmpSeqFlips<T(!new)>(cmp: (T, T) -> Ordering, a: seq<T>, b: seq<T>)
    requires TotalOrder(cmp)
    ensures CmpSeq(cmp, b, a) == Flip(CmpSeq(cmp, a, b))
    ensures CmpSeq(cmp, a, b) == Equal <==> a == b
  {
    if a != [] && b != [] {
      CmpSeqFlips(cmp, a[1..], b[1..]);
      assert a == [a[0]] + a[1..] && b == [b[0]] + b[1..];
    }
  }

  lemma {:induction false} CmpSeqChain<T(!new)>(cmp: (T, T) -> Ordering, a: seq<T>, b: seq<T>, c: seq<T>)
    requires TotalOrder(cmp)
    ensures Chain(CmpSeq(cmp, a, b), CmpSeq(cmp, b, c), CmpSeq(cmp, a, c))
  {
    if a != [] && b != [] && c != [] {
      CmpSeqChain(cmp, a[1..], b[1..], c[1..]);
      assert Chain(cmp(a[0], b[0]), cmp(b[0], c[0]), cmp(a[0], c[0]));
    }
  }

  lemma CmpSeqTotal<T(!new)>(cmp: (T, T) -> Ordering)
    requires TotalOrder(cmp)
    ensures forall a, b :: CmpSeq(cmp, b, a) == Flip(CmpSeq(cmp, a, b))
    ensures forall a, b :: CmpSeq(cmp, a, b) == Equal <==> a == b
    ensures forall a, b, c :: Chain(CmpSeq(cmp, a, b), CmpSeq(cmp, b, c), CmpSeq(cmp, a, c))
  {
    forall a, b ensures CmpSeq(cmp, b, a) == Flip(CmpSeq(cmp, a, b)) && (CmpSeq(cmp, a, b) == Equal <==> a == b) {
      CmpSeqFlips(cmp, a, b);
    }
    forall a, b, c ensures Chain(CmpSeq(cmp, a, b), CmpSeq(cmp, b, c), CmpSeq(cmp, a, c)) {
      CmpSeqChain(cmp, a, b, c);
    }
  }

  /** Strings compare by code points, as their encoded bytes do. */
  function CmpString(a: string, b: string): Ordering {
    CmpSeq(CmpChar, a, b)
  }

  function SortOrd(a: Sort, b: Sort): Ordering {
    CmpSeq(CmpString, a.classes, b.classes)
  }

  lemma StringsTotal()
    ensures TotalOrder(CmpString)
  {
    CmpSeqTotal(CmpChar);
  }

  lemma SortsTotal()
    ensures TotalOrder(SortOrd)
  {
    StringsTotal();
    CmpSeqTotal(CmpString);
  }

  // ---------- types ----------

  function IndexNameOrd(m: Symbol, i: nat, n: Symbol, j: nat): Ordering {
    Then(CmpInt(i, j), CmpString(m, n))
  }

  function TypeConsNr(t: Typ): nat {
    match t
    case TVar(_, _, _) => 0
    case TFree(_, _) => 1
    case Type(_, _) => 2
  }

  function TypOrd(a: Typ, b: Typ): Ordering
    decreases a, 1
  {
    match (a, b)
    case (Type(m, as_), Type(n, bs)) => Then(CmpString(m, n), TypsOrd(as_, bs))
    case (TFree(m, s), TFree(n, t)) => Then(CmpString(m, n), SortOrd(s, t))
    case (TVar(m, i, s), TVar(n, j, t)) => Then(IndexNameOrd(m, i, n, j), SortOrd(s, t))
    case _ => CmpInt(TypeConsNr(a), TypeConsNr(b))
  }

  function TypsOrd(a: seq<Typ>, b: seq<Typ>): Ordering
    decreases a, 0
  {
    if a == [] || b == [] then CmpInt(|a|, |b|) else Then(TypOrd(a[0], b[0]), TypsOrd(a[1..], b[1..]))
  }

  method TypOrdLoop(a: Typ, b: Typ) returns (r: Ordering)
    ensures r == TypOrd(a, b)
    decreases a
  {
    if a.Type? && b.Type? {
      r := CmpString(a.name, b.name);
      if r != Equal { return; }
      var n := if |a.args| < |b.args| then |a.args| else |b.args|;
      for i := 0 to n
        invariant TypsOrd(a.args, b.args) == TypsOrd(a.args[i..], b.args[i..])
      {
        assert a.args[i..][1..] == a.args[i + 1..] && b.args[i..][1..] == b.args[i + 1..];
        r := TypOrdLoop(a.args[i], b.args[i]);
        if r != Equal { return; }
      }
      r := CmpInt(|a.args|, |b.args|);
    } else {
      r := TypOrd(a, b);
    }
  }

  lemma {:induction false} TypOrdFlips(a: Typ, b: Typ)
    ensures TypOrd(b, a) == Flip(TypOrd(a, b))
    ensures TypOrd(a, b) == Equal <==> a == b
    decreases a, 1
  {
    StringsTotal();
    SortsTotal();
    if a.Type? && b.Type? { TypsOrdFlips(a.args, b.args); }
  }

  lemma {:induction false} TypsOrdFlips(a: seq<Typ>, b: seq<Typ>)
    ensures TypsOrd(b, a) == Flip(TypsOrd(a, b))
    ensures TypsOrd(a, b) == Equal <==> a == b
    decreases a, 0
  {
    if a != [] && b != [] {
      TypOrdFlips(a[0], b[0]);
      TypsOrdFlips(a[1..], b[1..]);
      assert a == [a[0]] + a[1..] && b == [b[0]] + b[1..];
    }
  }

  lemma {:induction false} TypOrdChain(a: Typ, b: Typ, c: Typ)
    ensures Chain(TypOrd(a, b), TypOrd(b, c), TypOrd(a, c))
    decreases a, 1
  {
    StringsTotal();
    SortsTotal();
    assert Chain(CmpString(a.name, b.name), CmpString(b.name, c.name), CmpString(a.name, c.name));
    if a.Type? && b.Type? && c.Type? {
      TypsOrdChain(a.args, b.args, c.args);
    } else if !a.Type? && !b.Type? && !c.Type? {
      assert Chain(SortOrd(a.sort, b.sort), SortOrd(b.sort, c.sort), SortOrd(a.sort, c.sort));
    }
  }

  lemma {:induction false} TypsOrdChain(a: seq<Typ>, b: seq<Typ>, c: seq<Typ>)
    ensures Chain(TypsOrd(a, b), TypsOrd(b, c), TypsOrd(a, c))
    decreases a, 0
  {
    if a != [] && b != [] && c != [] {
      TypOrdChain(a[0], b[0], c[0]);
      TypsOrdChain(a[1..], b[1..], c[1..]);
    }
  }

  /** Types are totally ordered, and equal in the order only if they are the same. */
  lemma TypesTotal()
    ensures TotalOrder(TypOrd)
  {
    forall a, b ensures TypOrd(b, a) == Flip(TypOrd(a, b)) && (TypOrd(a, b) == Equal <==> a == b) {
      TypOrdFlips(a, b);
    }
    forall a, b, c ensures Chain(TypOrd(a, b), TypOrd(b, c), TypOrd(a, c)) {
      TypOrdChain(a, b, c);
    }
  }

  // ---------- the fast order of terms ----------

  function TermConsNr(t: Term): nat {
    match t
    case Const(_, _) => 0
    case Free(_, _) => 1
    case Var(_, _, _) => 2
    case Bound(_) => 3
    case Abs(_, _, _) => 4
    case App(_, _) => 5
  }

  function StructOrd(a: Term, b: Term): Ordering {
    match (a, b)
    case (Abs(_, _, b1), Abs(_, _, b2)) => StructOrd(b1, b2)
    case (App(f, x), App(g, y)) => Then(StructOrd(f, g), StructOrd(x, y))
    case _ => CmpInt(TermConsNr(a), TermConsNr(b))
  }

  function AtomsOrd(a: Term, b: Term): Ordering {
    match (a, b)
    case (Abs(_, _, b1), Abs(_, _, b2)) => AtomsOrd(b1, b2)
    case (App(f, x), App(g, y)) => Then(AtomsOrd(f, g), AtomsOrd(x, y))
    case (Const(m, _), Const(n, _)) => CmpString(m, n)
    case (Free(m, _), Free(n, _)) => CmpString(m, n)
    case (Var(m, i, _), Var(n, j, _)) => IndexNameOrd(m, i, n, j)
    case (Bound(i), Bound(j)) => CmpInt(i, j)
    case _ => Equal
  }

  function TypesOrd(a: Term, b: Term): Ordering {
    match (a, b)
    case (Abs(_, s, b1), Abs(_, t, b2)) => Then(TypOrd(s, t), TypesOrd(b1, b2))
    case (App(f, x), App(g, y)) => Then(TypesOrd(f, g), TypesOrd(x, y))
    case (Const(_, s), Const(_, t)) => TypOrd(s, t)
    case (Free(_, s), Free(_, t)) => TypOrd(s, t)
    case (Var(_, _, s), Var(_, _, t)) => TypOrd(s, t)
    case _ => Equal
  }

  function FastTermOrd(a: Term, b: Term): Ordering {
    Then(StructOrd(a, b), Then(AtomsOrd(a, b), TypesOrd(a, b)))
  }

  /** The term without the names of its binders. */
  function EraseNames(t: Term): Term {
    match t
    case Abs(_, ty, b) => Abs("", ty, EraseNames(b))
    case App(f, a) => App(EraseNames(f), EraseNames(a))
    case _ => t
  }

  lemma {:induction false} FastFlips(a: Term, b: Term)
    ensures StructOrd(b, a) == Flip(StructOrd(a, b))
    ensures AtomsOrd(b, a) == Flip(AtomsOrd(a, b))
    ensures TypesOrd(b, a) == Flip(TypesOrd(a, b))
    ensures StructOrd(a, b) == Equal && AtomsOrd(a, b) == Equal && TypesOrd(a, b) == Equal <==>
              EraseNames(a) == EraseNames(b)
  {
    StringsTotal();
    TypesTotal();
    match (a, b)
    case (Abs(_, _, b1), Abs(_, _, b2)) => FastFlips(b1, b2);
    case (App(f, x), App(g, y)) => FastFlips(f, g); FastFlips(x, y);
    case _ =>
  }

  lemma {:induction false} StructChain(a: Term, b: Term, c: Term)
    ensures Chain(StructOrd(a, b), StructOrd(b, c), StructOrd(a, c))
  {
    if a.Abs? && b.Abs? && c.Abs? {
      StructChain(a.body, b.body, c.body);
    } else if a.App? && b.App? && c.App? {
      StructChain(a.func, b.func, c.func);
      StructChain(a.arg, b.arg, c.arg);
    }
  }

  lemma {:induction false} AtomsAndTypesChain(a: Term, b: Term, c: Term)
    requires StructOrd(a, b) == Equal && StructOrd(b, c) == Equal
    ensures Chain(AtomsOrd(a, b), AtomsOrd(b, c), AtomsOrd(a, c))
    ensures Chain(TypesOrd(a, b), TypesOrd(b, c), TypesOrd(a, c))
  {
    StringsTotal();
    TypesTotal();
    match a
    case Abs(_, s, _) =>
      AtomsAndTypesChain(a.body, b.body, c.body);
      assert Chain(TypOrd(s, b.typ), TypOrd(b.typ, c.typ), TypOrd(s, c.typ));
    case App(_, _) => AtomsAndTypesChain(a.func, b.func, c.func); AtomsAndTypesChain(a.arg, b.arg, c.arg);
    case Bound(_) =>
    case _ =>
      assert Chain(TypOrd(a.typ, b.typ), TypOrd(b.typ, c.typ), TypOrd(a.typ, c.typ));
      assert Chain(CmpString(a.name, b.name), CmpString(b.name, c.name), CmpString(a.name, c.name));
  }

  /** The fast order is a total preorder; equal in it are exactly the terms that differ in binder names at most. */
  lemma FastTermOrdTotal(a: Term, b: Term, c: Term)
    ensures FastTermOrd(b, a) == Flip(FastTermOrd(a, b))
    ensures FastTermOrd(a, b) == Equal <==> EraseNames(a) == EraseNames(b)
    ensures Chain(FastTermOrd(a, b), FastTermOrd(b, c), FastTermOrd(a, c))
  {
    FastFlips(a, b);
    StructChain(a, b, c);
    if StructOrd(a, b) == Equal && StructOrd(b, c) == Equal {
      AtomsAndTypesChain(a, b, c);
    }
  }

  predicate Aconv(a: Term, b: Term) {
    FastTermOrd(a, b) == Equal
  }

  // ---------- the order by size ----------

  function HdDepth(t: Term): nat {
    if t.App? then 1 + HdDepth(t.func) else 0
  }

  function Head(t: Term): (h: Term)
    ensures !h.App?
  {
    if t.App? then Head(t.func) else t
  }

  /** What is compared of a head: a name, an index, a type and the kind of the head. */
  function HeadName(h: Term): Symbol {
    if h.Const? || h.Free? || h.Var? then h.name else ""
  }

  function HeadIndex(h: Term): nat {
    if h.Var? then h.index else if h.Bound? then h.i else 0
  }

  function HeadTyp(h: Term): Typ
    requires !h.App?
  {
    if h.Bound? then DUMMY else h.typ
  }

  function HeadOrd(h: Term, k: Term): Ordering
    requires !h.App? && !k.App?
  {
    Then(IndexNameOrd(HeadName(h), HeadIndex(h), HeadName(k), HeadIndex(k)),
         Then(TypOrd(HeadTyp(h), HeadTyp(k)), CmpInt(TermConsNr(h), TermConsNr(k))))
  }

  function HdOrd(a: Term, b: Term): Ordering {
    Then(CmpInt(HdDepth(a), HdDepth(b)), HeadOrd(Head(a), Head(b)))
  }

  function ArgsOrd(a: Term, b: Term): Ordering
    decreases a, 0
  {
    match (a, b)
    case (App(f, x), App(g, y)) => Then(ArgsOrd(f, g), TermOrd(x, y))
    case _ => Equal
  }

  function TermOrd(a: Term, b: Term): Ordering
    decreases a, 1
  {
    match (a, b)
    case (Abs(_, s, b1), Abs(_, t, b2)) => Then(TermOrd(b1, b2), TypOrd(s, t))
    case _ =>
      Then(CmpInt(Size(a), Size(b)), Then(CmpInt(HdDepth(a), HdDepth(b)), Then(HdOrd(a, b), ArgsOrd(a, b))))
  }

  lemma {:induction false} HeadOrdFlips(h: Term, k: Term)
    requires !h.App? && !k.App?
    ensures HeadOrd(k, h) == Flip(HeadOrd(h, k))
    ensures HeadOrd(h, k) == Equal <==> if h.Abs? then k.Abs? && h.typ == k.typ else h == k
  {
    StringsTotal();
    TypOrdFlips(HeadTyp(h), HeadTyp(k));
  }

  lemma {:induction false} HeadOrdChain(h: Term, k: Term, l: Term)
    requires !h.App? && !k.App? && !l.App?
    ensures Chain(HeadOrd(h, k), HeadOrd(k, l), HeadOrd(h, l))
  {
    StringsTotal();
    TypOrdChain(HeadTyp(h), HeadTyp(k), HeadTyp(l));
    IndexNameChain(HeadName(h), HeadIndex(h), HeadName(k), HeadIndex(k), HeadName(l), HeadIndex(l));
  }

  lemma IndexNameChain(m: Symbol, i: nat, n: Symbol, j: nat, o: Symbol, k: nat)
    ensures Chain(IndexNameOrd(m, i, n, j), IndexNameOrd(n, j, o, k), IndexNameOrd(m, i, o, k))
  {
    StringsTotal();
    assert Chain(CmpString(m, n), CmpString(n, o), CmpString(m, o));
  }

  /** The smaller term comes first; among terms of one size, the one with fewer arguments. */
  function Measure(a: Term, b: Term): Ordering {
    Then(CmpInt(Size(a), Size(b)), CmpInt(HdDepth(a), HdDepth(b)))
  }

  lemma {:induction false} SizeFirst(a: Term, b: Term)
    ensures Measure(a, b) != Equal ==> TermOrd(a, b) == Measure(a, b)
    ensures a.Abs? != b.Abs? ==> Measure(a, b) != Equal
  {
    if a.Abs? && b.Abs? { SizeFirst(a.body, b.body); }
  }

  lemma {:induction false} ArgsOrdFlips(a: Term, b: Term)
    ensures ArgsOrd(b, a) == Flip(ArgsOrd(a, b))
    decreases a, 0
  {
    if a.App? && b.App? {
      ArgsOrdFlips(a.func, b.func);
      TermOrdFlips(a.arg, b.arg);
    }
  }

  lemma {:induction false} TermOrdFlips(a: Term, b: Term)
    ensures TermOrd(b, a) == Flip(TermOrd(a, b))
    decreases a, 1
  {
    if a.Abs? && b.Abs? {
      TermOrdFlips(a.body, b.body);
      TypOrdFlips(a.typ, b.typ);
    } else {
      HeadOrdFlips(Head(a), Head(b));
      ArgsOrdFlips(a, b);
    }
  }

  lemma {:induction false} ArgsChain(a: Term, b: Term, c: Term)
    requires HdDepth(a) == HdDepth(b) == HdDepth(c)
    ensures Chain(ArgsOrd(a, b), ArgsOrd(b, c), ArgsOrd(a, c))
    decreases a, 0
  {
    if a.App? {
      ArgsChain(a.func, b.func, c.func);
      TermOrdChain(a.arg, b.arg, c.arg);
    }
  }

  lemma {:induction false} MixedChain(a: Term, b: Term, c: Term)
    requires (a.Abs? || b.Abs? || c.Abs?) && !(a.Abs? && b.Abs? && c.Abs?)
    ensures Chain(TermOrd(a, b), TermOrd(b, c), TermOrd(a, c))
  {
    SizeFirst(a, b);
    SizeFirst(b, c);
    SizeFirst(a, c);
    assert Chain(Measure(a, b), Measure(b, c), Measure(a, c));
  }

  lemma {:induction false} PlainChain(a: Term, b: Term, c: Term)
    requires !a.Abs? && !b.Abs? && !c.Abs?
    requires HdDepth(a) == HdDepth(b) == HdDepth(c) ==> Chain(ArgsOrd(a, b), ArgsOrd(b, c), ArgsOrd(a, c))
    ensures Chain(TermOrd(a, b), TermOrd(b, c), TermOrd(a, c))
  {
    if Measure(a, b) == Equal && Measure(b, c) == Equal {
      HeadOrdChain(Head(a), Head(b), Head(c));
      ThenChain(HdOrd(a, b), HdOrd(b, c), HdOrd(a, c), ArgsOrd(a, b), ArgsOrd(b, c), ArgsOrd(a, c));
    } else {
      SizeFirst(a, b);
      SizeFirst(b, c);
      SizeFirst(a, c);
    }
  }

  lemma {:induction false} TermOrdChain(a: Term, b: Term, c: Term)
    ensures Chain(TermOrd(a, b), TermOrd(b, c), TermOrd(a, c))
    decreases a, 1
  {
    if a.Abs? && b.Abs? && c.Abs? {
      TermOrdChain(a.body, b.body, c.body);
      TypOrdChain(a.typ, b.typ, c.typ);
    } else if a.Abs? || b.Abs? || c.Abs? {
      MixedChain(a, b, c);
    } else {
      if HdDepth(a) == HdDepth(b) == HdDepth(c) { ArgsChain(a, b, c); }
      PlainChain(a, b, c);
    }
  }

  /** What the order sees of a term: no binder names, and of an applied abstraction only its type and its size. */
  function Seen(t: Term): Term
    decreases t, 1
  {
    match t
    case Abs(_, ty, b) => Abs("", ty, Seen(b))
    case App(f, a) => App(SeenHead(f), Seen(a))
    case _ => t
  }

  function SeenHead(f: Term): Term
    decreases f, 0
  {
    match f
    case Abs(_, ty, b) => Abs("", ty, Bound(Size(b)))
    case App(g, a) => App(SeenHead(g), Seen(a))
    case _ => f
  }

  lemma {:induction false} HeadSeen(a: Term, b: Term)
    ensures SeenHead(a) == SeenHead(b) <==> HdOrd(a, b) == Equal && Size(a) == Size(b) && ArgsOrd(a, b) == Equal
    decreases a, 0
  {
    if a.App? && b.App? {
      TermOrdSees(a.arg, b.arg);
      HeadSeen(a.func, b.func);
      assert HdOrd(a, b) == HdOrd(a.func, b.func);
    } else if !a.App? && !b.App? {
      HeadOrdFlips(a, b);
    }
  }

  /** Two terms are equal in the order exactly if the order sees the same of them. */
  lemma {:induction false} TermOrdSees(a: Term, b: Term)
    ensures TermOrd(a, b) == Equal <==> Seen(a) == Seen(b)
    ensures TermOrd(a, b) == Equal ==> Size(a) == Size(b)
    decreases a, 1
  {
    if a.Abs? && b.Abs? {
      TermOrdSees(a.body, b.body);
      TypOrdFlips(a.typ, b.typ);
    } else {
      HeadSeen(a, b);
    }
  }

  /** On terms without redexes the order sees everything but the binder names. */
  lemma {:induction false} SeesAll(t: Term)
    requires RedexFree(t)
    ensures Seen(t) == EraseNames(t) && (!t.Abs? ==> SeenHead(t) == EraseNames(t))
  {
    match t
    case Abs(_, _, b) => SeesAll(b);
    case App(f, a) => SeesAll(f); SeesAll(a);
    case _ =>
  }

  /** The order by size is a total preorder that puts smaller terms first; `Equal` means equal up to binder names. */
  lemma TermOrdTotal(a: Term, b: Term, c: Term)
    ensures TermOrd(b, a) == Flip(TermOrd(a, b))
    ensures Chain(TermOrd(a, b), TermOrd(b, c), TermOrd(a, c))
    ensures Size(a) < Size(b) ==> TermOrd(a, b) == Less
    ensures RedexFree(a) && RedexFree(b) ==> (TermOrd(a, b) == Equal <==> EraseNames(a) == EraseNames(b))
  {
    TermOrdFlips(a, b);
    TermOrdChain(a, b, c);
    SizeFirst(a, b);
    TermOrdSees(a, b);
    if RedexFree(a) && RedexFree(b) {
      SeesAll(a);
      SeesAll(b);
    }
  }

  /** Two redexes that reduce to different terms are equal in the order by size. */
  lemma RedexesLookAlike()
    ensures var x, a, b := Const("x", DUMMY), Const("a", DUMMY), Const("b", DUMMY);
            TermOrd(App(Abs("y", DUMMY, a), x), App(Abs("y", DUMMY, b), x)) == Equal && EraseNames(a) != EraseNames(b)
  {
    var x := Const("x", DUMMY);
    TermOrdSees(App(Abs("y", DUMMY, Const("a", DUMMY)), x), App(Abs("y", DUMMY, Const("b", DUMMY)), x));
  }

  // ---------- heads and arguments ----------

  function Apps(f: Term, args: seq<Term>): Term {
    if args == [] then f else App(Apps(f, args[..|args| - 1]), args[|args| - 1])
  }

  method StripComb(t: Term) returns (head: Term, args: seq<Term>)
    ensures !head.App? && Apps(head, args) == t && |args| == HdDepth(t) && head == Head(t)
  {
    head, args := t, [];
    while head.App?
      invariant Apps(head, args) == t && |args| + HdDepth(head) == HdDepth(t) && Head(head) == Head(t)
      decreases head
    {
      AppsCons(head.func, head.arg, args);
      head, args := head.func, [head.arg] + args;
    }
  }

  lemma {:induction false} AppsCons(f: Term, a: Term, args: seq<Term>)
    ensures Apps(f, [a] + args) == Apps(App(f, a), args)
  {
    var all := [a] + args;
    if args == [] {
      assert all[..0] == [];
    } else {
      AppsCons(f, a, args[..|args| - 1]);
      assert all[..|all| - 1] == [a] + args[..|args| - 1];
    }
  }

  // ---------- hashing ----------

  const WORD: nat := 0x1_0000_0000_0000_0000

  /** Number of bytes of a name in its encoding. */
  function ByteLength(s: string): nat {
    if s == [] then 0
    else
      var c := s[0] as int;
      (if c < 0x80 then 1 else if c < 0x800 then 2 else if c < 0x1_0000 then 3 else 4) + ByteLength(s[1..])
  }

  function Mix(h: nat, i: nat): nat {
    (h * 31 + i % WORD) % WORD
  }

  function HashTyp(t: Typ, h: nat): nat
    decreases t, 1
  {
    match t
    case Type(n, args) => HashTyps(args, Mix(Mix(h, 0), ByteLength(n)))
    case TFree(n, _) => Mix(Mix(h, 1), ByteLength(n))
    case TVar(n, i, _) => Mix(Mix(Mix(h, 2), ByteLength(n)), i)
  }

  function HashTyps(ts: seq<Typ>, h: nat): nat
    decreases ts, 0
  {
    if ts == [] then h else HashTyps(ts[1..], HashTyp(ts[0], h))
  }

  function HashTerm(t: Term, h: nat): nat {
    match t
    case Const(n, ty) => HashTyp(ty, Mix(Mix(h, 0), ByteLength(n)))
    case Free(n, ty) => HashTyp(ty, Mix(Mix(h, 1), ByteLength(n)))
    case Var(n, i, ty) => HashTyp(ty, Mix(Mix(Mix(h, 2), ByteLength(n)), i))
    case Bound(i) => Mix(Mix(h, 3), i)
    case Abs(_, ty, b) => HashTerm(b, HashTyp(ty, Mix(h, 4)))
    case App(f, a) => HashTerm(a, HashTerm(f, Mix(h, 5)))
  }

  class TermHasher {
    var state: nat

    constructor ()
      ensures state == 0
    {
      state := 0;
    }

    method Write(i: nat)
      modifies this
      ensures state == Mix(old(state), i)
    {
      state := Mix(state, i);
    }

    method HashTypInto(t: Typ)
      modifies this
      ensures state == HashTyp(t, old(state))
      decreases t
    {
      match t
      case Type(n, args) =>
        Write(0);
        Write(ByteLength(n));
        ghost var start := state;
        for i := 0 to |args|
          invariant HashTyps(args, start) == HashTyps(args[i..], state)
        {
          assert args[i..][1..] == args[i + 1..];
          HashTypInto(args[i]);
        }
      case TFree(n, _) =>
        Write(1);
        Write(ByteLength(n));
      case TVar(n, i, _) =>
        Write(2);
        Write(ByteLength(n));
        Write(i);
    }

    method HashTermInto(t: Term)
      modifies this
      ensures state == HashTerm(t, old(state))
      decreases t
    {
      match t
      case Const(n, ty) => Write(0); Write(ByteLength(n)); HashTypInto(ty);
      case Free(n, ty) => Write(1); Write(ByteLength(n)); HashTypInto(ty);
      case Var(n, i, ty) => Write(2); Write(ByteLength(n)); Write(i); HashTypInto(ty);
      case Bound(i) => Write(3); Write(i);
      case Abs(_, ty, b) => Write(4); HashTypInto(ty); HashTermInto(b);
      case App(f, a) => Write(5); HashTermInto(f); HashTermInto(a);
    }
  }

  lemma {:induction false} HashOfErased(t: Term, h: nat)
    ensures HashTerm(EraseNames(t), h) == HashTerm(t, h)
    decreases t
  {
    match t
    case Abs(_, ty, b) => HashOfErased(b, HashTyp(ty, Mix(h, 4)));
    case App(f, a) => HashOfErased(f, Mix(h, 5)); HashOfErased(a, HashTerm(f, Mix(h, 5)));
    case _ =>
  }

  /** Terms that are equal in the fast order have the same hash. */
  lemma AconvHash(a: Term, b: Term)
    requires Aconv(a, b)
    ensures HashTerm(a, 0) == HashTerm(b, 0)
  {
    FastTermOrdTotal(a, b, a);
    HashOfErased(a, 0);
    HashOfErased(b, 0);
  }
}
