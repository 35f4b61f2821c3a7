/**
 Which orders the orders of types and terms are. Each is the dictionary order of keys, sequences of numbers read off the
 type or term; the keys are defined without the comparisons.
 */
module TermKeys {
  import opened Syntax
  import opened Orders = TermOrd

  // ---------- the dictionary order ----------

  /** After a common beginning, the first sequence ends or has the smaller number. */
  ghost predicate Before(x: seq<int>, y: seq<int>) {
    exists i :: 0 <= i <= |x| && i < |y| && x[..i] == y[..i] && (i < |x| ==> x[i] < y[i])
  }

  function Dict(x: seq<int>, y: seq<int>): Ordering {
    CmpSeq(CmpInt, x, y)
  }

  lemma DictCons(i: int, x: seq<int>, j: int, y: seq<int>)
    ensures Dict([i] + x, [j] + y) == Then(CmpInt(i, j), Dict(x, y))
  {
    assert ([i] + x)[1..] == x && ([j] + y)[1..] == y;
  }

  /** After a common beginning, the first sequence ends or has the smaller element. */
  ghost predicate Precedes<T(!new)>(cmp: (T, T) -> Ordering, x: seq<T>, y: seq<T>) {
    exists i :: 0 <= i <= |x| && i < |y| && x[..i] == y[..i] && (i < |x| ==> cmp(x[i], y[i]) == Less)
  }

  lemma PrecedesTail<T(!new)>(cmp: (T, T) -> Ordering, x: seq<T>, y: seq<T>)
    requires x != [] && y != [] && Precedes(cmp, x, y) && cmp(x[0], y[0]) != Less
    ensures x[0] == y[0] && Precedes(cmp, x[1..], y[1..])
  {
    var u, v := x[1..], y[1..];
    var i :| 0 <= i <= |x| && i < |y| && x[..i] == y[..i] && (i < |x| ==> cmp(x[i], y[i]) == Less);
    assert x[0] == x[..i][0] == y[..i][0] == y[0];
    assert u[..i - 1] == x[..i][1..] == y[..i][1..] == v[..i - 1];
    assert i < |x| ==> cmp(u[i - 1], v[i - 1]) == Less;
  }

  lemma PrecedesCons<T(!new)>(cmp: (T, T) -> Ordering, x: seq<T>, y: seq<T>)
    requires x != [] && y != []
    requires cmp(x[0], y[0]) == Less || (x[0] == y[0] && Precedes(cmp, x[1..], y[1..]))
    ensures Precedes(cmp, x, y)
  {
    if cmp(x[0], y[0]) == Less {
      assert x[..0] == y[..0];
    } else {
      var u, v := x[1..], y[1..];
      var i :| 0 <= i <= |u| && i < |v| && u[..i] == v[..i] && (i < |u| ==> cmp(u[i], v[i]) == Less);
      assert x[..i + 1] == [x[0]] + u[..i] == [y[0]] + v[..i] == y[..i + 1];
      assert i + 1 < |x| ==> cmp(x[i + 1], y[i + 1]) == Less;
    }
  }

  lemma {:induction false} CmpSeqExact<T(!new)>(cmp: (T, T) -> Ordering, x: seq<T>, y: seq<T>)
    requires TotalOrder(cmp)
    ensures CmpSeq(cmp, x, y) == Less <==> Precedes(cmp, x, y)
  {
    if x == [] {
      if y != [] { assert x[..0] == y[..0]; }
    } else if y != [] {
      CmpSeqExact(cmp, x[1..], y[1..]);
      if CmpSeq(cmp, x, y) == Less { PrecedesCons(cmp, x, y); }
      if Precedes(cmp, x, y) && cmp(x[0], y[0]) != Less { PrecedesTail(cmp, x, y); }
    }
  }

  lemma DictExact(x: seq<int>, y: seq<int>)
    ensures Dict(x, y) == Less <==> Before(x, y)
    ensures Dict(x, y) == Equal <==> x == y
  {
    CmpSeqExact(CmpInt, x, y);
    CmpSeqFlips(CmpInt, x, y);
  }

  /** Of two names one is a proper beginning of the other, or has the smaller character where they first differ. */
  ghost predicate Sooner(m: Symbol, n: Symbol) {
    exists i :: 0 <= i <= |m| && i < |n| && m[..i] == n[..i] && (i < |m| ==> m[i] < n[i])
  }

  lemma SoonerExact(m: Symbol, n: Symbol)
    ensures CmpString(m, n) == Less <==> Sooner(m, n)
  {
    CmpSeqExact(CmpChar, m, n);
  }

  // ---------- keys of names, sorts and types ----------

  /** The characters, each above the end mark. */
  function NameKey(s: Symbol): seq<int> {
    if s == [] then [0] else [s[0] as int + 1] + NameKey(s[1..])
  }

  function ClassesKey(names: seq<Symbol>): seq<int> {
    if names == [] then [0] else [1] + NameKey(names[0]) + ClassesKey(names[1..])
  }

  /** Schematic variables by index, name and sort; then free ones by name and sort; then constructed types. */
  function TypKey(t: Typ): seq<int>
    decreases t, 1
  {
    match t
    case TVar(n, i, s) => [0] + [i] + NameKey(n) + ClassesKey(s.classes)
    case TFree(n, s) => [1] + NameKey(n) + ClassesKey(s.classes)
    case Type(n, args) => [2] + NameKey(n) + TypsKey(args)
  }

  function TypsKey(ts: seq<Typ>): seq<int>
    decreases ts, 0
  {
    if ts == [] then [0] else [1] + TypKey(ts[0]) + TypsKey(ts[1..])
  }

  // ---------- keys of terms ----------

  /** The kinds of the nodes, from the root and from left to right. */
  function KindsKey(t: Term): seq<int> {
    match t
    case Const(_, _) => [0]
    case Free(_, _) => [1]
    case Var(_, _, _) => [2]
    case Bound(_) => [3]
    case Abs(_, _, b) => [4] + KindsKey(b)
    case App(f, a) => [5] + KindsKey(f) + KindsKey(a)
  }

  function AtomsKey(t: Term): seq<int> {
    match t
    case Const(n, _) => NameKey(n)
    case Free(n, _) => NameKey(n)
    case Var(n, i, _) => [i] + NameKey(n)
    case Bound(i) => [i]
    case Abs(_, _, b) => AtomsKey(b)
    case App(f, a) => AtomsKey(f) + AtomsKey(a)
  }

  function TypesKey(t: Term): seq<int> {
    match t
    case Const(_, ty) => TypKey(ty)
    case Free(_, ty) => TypKey(ty)
    case Var(_, _, ty) => TypKey(ty)
    case Bound(_) => []
    case Abs(_, ty, b) => TypKey(ty) + TypesKey(b)
    case App(f, a) => TypesKey(f) + TypesKey(a)
  }

  /** The fast order looks at the whole structure, then at all atoms, then at all types. */
  function FastKey(t: Term): seq<int> {
    KindsKey(t) + AtomsKey(t) + TypesKey(t)
  }

  /** A head: index, name, type and kind. */
  function HeadKey(t: Term): seq<int> {
    match t
    case Const(n, ty) => [0] + NameKey(n) + TypKey(ty) + [0]
    case Free(n, ty) => [0] + NameKey(n) + TypKey(ty) + [1]
    case Var(n, i, ty) => [i] + NameKey(n) + TypKey(ty) + [2]
    case Bound(i) => [i] + NameKey("") + TypKey(DUMMY) + [3]
    case Abs(_, ty, _) => [0] + NameKey("") + TypKey(ty) + [4]
    case App(f, _) => HeadKey(f)
  }

  function ArgsKey(t: Term): seq<int>
    decreases t, 0
  {
    match t
    case App(f, a) => ArgsKey(f) + SizeKey(a)
    case _ => []
  }

  /** The order by size: size, number of arguments, head, arguments from the left; below a binder first the body. */
  function SizeKey(t: Term): seq<int>
    decreases t, 1
  {
    match t
    case Abs(_, ty, b) => [Size(t)] + [0] + SizeKey(b) + TypKey(ty)
    case _ => [Size(t)] + [HdDepth(t)] + HeadKey(t) + ArgsKey(t)
  }

  // ---------- what keys compare ----------

  function DictOf(k: seq<int>, x: seq<int>, l: seq<int>, y: seq<int>): Ordering {
    Dict(k + x, l + y)
  }

  /** Two keys, whatever follows them, compare as this says. */
  ghost predicate Compares(k: seq<int>, l: seq<int>, o: Ordering) {
    forall x, y :: DictOf(k, x, l, y) == Then(o, Dict(x, y))
  }

  lemma NumbersCompare(i: int, j: int)
    ensures Compares([i], [j], CmpInt(i, j))
  {
    forall x: seq<int>, y: seq<int> ensures DictOf([i], x, [j], y) == Then(CmpInt(i, j), Dict(x, y)) {
      DictCons(i, x, j, y);
    }
  }

  lemma AfterNothing(none: seq<int>, x: seq<int>)
    requires none == []
    ensures none + x == x
  {
  }

  lemma EmptyCompare(none: seq<int>)
    requires none == []
    ensures Compares(none, none, Equal)
  {
    forall x: seq<int>, y: seq<int> ensures DictOf(none, x, none, y) == Then(Equal, Dict(x, y)) {
      AfterNothing(none, x);
      AfterNothing(none, y);
    }
  }

  lemma DictOfParts(k1: seq<int>, l1: seq<int>, k2: seq<int>, l2: seq<int>, x: seq<int>, y: seq<int>)
    ensures DictOf(k1 + k2, x, l1 + l2, y) == DictOf(k1, k2 + x, l1, l2 + y)
  {
    assert k1 + k2 + x == k1 + (k2 + x) && l1 + l2 + y == l1 + (l2 + y);
  }

  /** Keys put together compare the parts in turn; the second parts matter only if the first are equal. */
  lemma PartsCompare(k1: seq<int>, l1: seq<int>, o1: Ordering, k2: seq<int>, l2: seq<int>, o2: Ordering)
    requires Compares(k1, l1, o1) && (o1 == Equal ==> Compares(k2, l2, o2))
    ensures Compares(k1 + k2, l1 + l2, Then(o1, o2))
  {
    forall x: seq<int>, y: seq<int> ensures DictOf(k1 + k2, x, l1 + l2, y) == Then(Then(o1, o2), Dict(x, y)) {
      DictOfParts(k1, l1, k2, l2, x, y);
      assert DictOf(k1, k2 + x, l1, l2 + y) == Then(o1, DictOf(k2, x, l2, y));
    }
  }

  lemma FirstDiffers(i: int, x: seq<int>, j: int, y: seq<int>)
    requires i != j
    ensures Compares([i] + x, [j] + y, CmpInt(i, j))
  {
    NumbersCompare(i, j);
    PartsCompare([i], [j], CmpInt(i, j), x, y, Equal);
  }

  /** What the comparison of whole keys then is. */
  lemma KeysDecide(k: seq<int>, l: seq<int>, o: Ordering)
    requires Compares(k, l, o)
    ensures o == Less <==> Before(k, l)
    ensures o == Equal <==> k == l
  {
    assert k + [] == k && l + [] == l;
    assert DictOf(k, [], l, []) == Then(o, Dict([], []));
    DictExact(k, l);
  }

  lemma {:induction false} NamesCompare(a: Symbol, b: Symbol)
    ensures Compares(NameKey(a), NameKey(b), CmpString(a, b))
  {
    if a != [] && b != [] {
      NumbersCompare(a[0] as int + 1, b[0] as int + 1);
      NamesCompare(a[1..], b[1..]);
      PartsCompare([a[0] as int + 1], [b[0] as int + 1], CmpChar(a[0], b[0]),
                   NameKey(a[1..]), NameKey(b[1..]), CmpString(a[1..], b[1..]));
    } else if a == [] && b == [] {
      NumbersCompare(0, 0);
    } else if a == [] {
      FirstDiffers(0, [], b[0] as int + 1, NameKey(b[1..]));
    } else {
      FirstDiffers(a[0] as int + 1, NameKey(a[1..]), 0, []);
    }
  }

  lemma {:induction false} ClassesCompare(a: seq<Symbol>, b: seq<Symbol>)
    ensures Compares(ClassesKey(a), ClassesKey(b), CmpSeq(CmpString, a, b))
  {
    if a != [] && b != [] {
      NumbersCompare(1, 1);
      NamesCompare(a[0], b[0]);
      ClassesCompare(a[1..], b[1..]);
      PartsCompare([1], [1], Equal, NameKey(a[0]), NameKey(b[0]), CmpString(a[0], b[0]));
      PartsCompare([1] + NameKey(a[0]), [1] + NameKey(b[0]), CmpString(a[0], b[0]),
                   ClassesKey(a[1..]), ClassesKey(b[1..]), CmpSeq(CmpString, a[1..], b[1..]));
    } else if a == [] && b == [] {
      NumbersCompare(0, 0);
    } else if a == [] {
      FirstDiffers(0, [], 1, NameKey(b[0]) + ClassesKey(b[1..]));
      assert [1] + (NameKey(b[0]) + ClassesKey(b[1..])) == ClassesKey(b);
    } else {
      FirstDiffers(1, NameKey(a[0]) + ClassesKey(a[1..]), 0, []);
      assert [1] + (NameKey(a[0]) + ClassesKey(a[1..])) == ClassesKey(a);
    }
  }

  lemma {:induction false} TypesCompare(a: Typ, b: Typ)
    ensures Compares(TypKey(a), TypKey(b), TypOrd(a, b))
    decreases a, 1
  {
    match (a, b) {
      case (TVar(m, i, s), TVar(n, j, t)) =>
        NumbersCompare(0, 0);
        NumbersCompare(i, j);
        NamesCompare(m, n);
        ClassesCompare(s.classes, t.classes);
        PartsCompare([0], [0], Equal, [i], [j], CmpInt(i, j));
        PartsCompare([0] + [i], [0] + [j], CmpInt(i, j), NameKey(m), NameKey(n), CmpString(m, n));
        PartsCompare([0] + [i] + NameKey(m), [0] + [j] + NameKey(n), IndexNameOrd(m, i, n, j),
                     ClassesKey(s.classes), ClassesKey(t.classes), SortOrd(s, t));
      case (TFree(m, s), TFree(n, t)) =>
        NumbersCompare(1, 1);
        NamesCompare(m, n);
        ClassesCompare(s.classes, t.classes);
        PartsCompare([1], [1], Equal, NameKey(m), NameKey(n), CmpString(m, n));
        PartsCompare([1] + NameKey(m), [1] + NameKey(n), CmpString(m, n),
                     ClassesKey(s.classes), ClassesKey(t.classes), SortOrd(s, t));
      case (Type(m, as_), Type(n, bs)) =>
        NumbersCompare(2, 2);
        NamesCompare(m, n);
        TypeListsCompare(as_, bs);
        PartsCompare([2], [2], Equal, NameKey(m), NameKey(n), CmpString(m, n));
        PartsCompare([2] + NameKey(m), [2] + NameKey(n), CmpString(m, n), TypsKey(as_), TypsKey(bs), TypsOrd(as_, bs));
      case _ =>
        var x, y := TypTail(a), TypTail(b);
        FirstDiffers(TypeConsNr(a), x, TypeConsNr(b), y);
    }
  }

  /** What follows the kind of a type in its key. */
  function TypTail(t: Typ): (r: seq<int>)
    ensures TypKey(t) == [TypeConsNr(t)] + r
  {
    match t
    case TVar(n, i, s) =>
      assert [0] + [i] + NameKey(n) + ClassesKey(s.classes) == [0] + ([i] + NameKey(n) + ClassesKey(s.classes));
      [i] + NameKey(n) + ClassesKey(s.classes)
    case TFree(n, s) =>
      assert [1] + NameKey(n) + ClassesKey(s.classes) == [1] + (NameKey(n) + ClassesKey(s.classes));
      NameKey(n) + ClassesKey(s.classes)
    case Type(n, args) =>
      assert [2] + NameKey(n) + TypsKey(args) == [2] + (NameKey(n) + TypsKey(args));
      NameKey(n) + TypsKey(args)
  }

  lemma {:induction false} TypeListsCompare(a: seq<Typ>, b: seq<Typ>)
    ensures Compares(TypsKey(a), TypsKey(b), TypsOrd(a, b))
    decreases a, 0
  {
    if a != [] && b != [] {
      NumbersCompare(1, 1);
      TypesCompare(a[0], b[0]);
      TypeListsCompare(a[1..], b[1..]);
      PartsCompare([1], [1], Equal, TypKey(a[0]), TypKey(b[0]), TypOrd(a[0], b[0]));
      PartsCompare([1] + TypKey(a[0]), [1] + TypKey(b[0]), TypOrd(a[0], b[0]),
                   TypsKey(a[1..]), TypsKey(b[1..]), TypsOrd(a[1..], b[1..]));
    } else if a == [] && b == [] {
      NumbersCompare(0, 0);
    } else if a == [] {
      FirstDiffers(0, [], 1, TypKey(b[0]) + TypsKey(b[1..]));
      assert [1] + (TypKey(b[0]) + TypsKey(b[1..])) == TypsKey(b);
    } else {
      FirstDiffers(1, TypKey(a[0]) + TypsKey(a[1..]), 0, []);
      assert [1] + (TypKey(a[0]) + TypsKey(a[1..])) == TypsKey(a);
    }
  }

  /** The order of types is the dictionary order of their keys. */
  lemma TypOrdExact(a: Typ, b: Typ)
    ensures TypOrd(a, b) == Less <==> Before(TypKey(a), TypKey(b))
    ensures TypOrd(a, b) == Equal <==> TypKey(a) == TypKey(b)
  {
    TypesCompare(a, b);
    KeysDecide(TypKey(a), TypKey(b), TypOrd(a, b));
  }

  // ---------- the fast order ----------

  lemma {:induction false} KindsCompare(a: Term, b: Term)
    ensures Compares(KindsKey(a), KindsKey(b), StructOrd(a, b))
  {
    match (a, b) {
      case (Abs(_, _, b1), Abs(_, _, b2)) =>
        NumbersCompare(4, 4);
        KindsCompare(b1, b2);
        PartsCompare([4], [4], Equal, KindsKey(b1), KindsKey(b2), StructOrd(b1, b2));
      case (App(f, x), App(g, y)) =>
        NumbersCompare(5, 5);
        KindsCompare(f, g);
        KindsCompare(x, y);
        PartsCompare([5], [5], Equal, KindsKey(f), KindsKey(g), StructOrd(f, g));
        PartsCompare([5] + KindsKey(f), [5] + KindsKey(g), StructOrd(f, g), KindsKey(x), KindsKey(y), StructOrd(x, y));
      case _ =>
        KindsOfLeaves(a, b);
    }
  }

  lemma KindsOfLeaves(a: Term, b: Term)
    requires !(a.Abs? && b.Abs?) && !(a.App? && b.App?)
    ensures Compares(KindsKey(a), KindsKey(b), StructOrd(a, b))
  {
    var i, j := TermConsNr(a), TermConsNr(b);
    if i == j {
      NumbersCompare(i, j);
    } else {
      FirstDiffers(i, KindsTail(a), j, KindsTail(b));
    }
  }

  /** What follows the kind of the root in the key of the structure. */
  function KindsTail(t: Term): (r: seq<int>)
    ensures KindsKey(t) == [TermConsNr(t)] + r
  {
    match t
    case Abs(_, _, b) => KindsKey(b)
    case App(f, a) =>
      assert [5] + KindsKey(f) + KindsKey(a) == [5] + (KindsKey(f) + KindsKey(a));
      KindsKey(f) + KindsKey(a)
    case _ => []
  }

  lemma {:induction false} AtomsCompare(a: Term, b: Term)
    requires StructOrd(a, b) == Equal
    ensures Compares(AtomsKey(a), AtomsKey(b), AtomsOrd(a, b))
  {
    match a
    case Abs(_, _, b1) => AtomsCompare(b1, b.body);
    case App(f, x) =>
      AtomsCompare(f, b.func);
      AtomsCompare(x, b.arg);
      PartsCompare(AtomsKey(f), AtomsKey(b.func), AtomsOrd(f, b.func), AtomsKey(x), AtomsKey(b.arg), AtomsOrd(x, b.arg));
    case Const(n, _) => NamesCompare(n, b.name);
    case Free(n, _) => NamesCompare(n, b.name);
    case Bound(i) => NumbersCompare(i, b.i);
    case Var(n, i, _) =>
      NumbersCompare(i, b.index);
      NamesCompare(n, b.name);
      PartsCompare([i], [b.index], CmpInt(i, b.index), NameKey(n), NameKey(b.name), CmpString(n, b.name));
  }

  lemma {:induction false} TermTypesCompare(a: Term, b: Term)
    requires StructOrd(a, b) == Equal
    ensures Compares(TypesKey(a), TypesKey(b), TypesOrd(a, b))
  {
    match a
    case Abs(_, ty, b1) =>
      TypesCompare(ty, b.typ);
      TermTypesCompare(b1, b.body);
      PartsCompare(TypKey(ty), TypKey(b.typ), TypOrd(ty, b.typ), TypesKey(b1), TypesKey(b.body), TypesOrd(b1, b.body));
    case App(f, x) =>
      TermTypesCompare(f, b.func);
      TermTypesCompare(x, b.arg);
      PartsCompare(TypesKey(f), TypesKey(b.func), TypesOrd(f, b.func), TypesKey(x), TypesKey(b.arg), TypesOrd(x, b.arg));
    case Bound(_) => EmptyCompare([]);
    case Const(_, ty) => TypesCompare(ty, b.typ);
    case Free(_, ty) => TypesCompare(ty, b.typ);
    case Var(_, _, ty) => TypesCompare(ty, b.typ);
  }

  /** The fast order is the dictionary order of keys that list the structure, then the atoms, then the types of a term. */
  lemma FastTermOrdExact(a: Term, b: Term)
    ensures FastTermOrd(a, b) == Less <==> Before(FastKey(a), FastKey(b))
    ensures FastTermOrd(a, b) == Equal <==> FastKey(a) == FastKey(b)
  {
    KindsCompare(a, b);
    if StructOrd(a, b) == Equal {
      AtomsCompare(a, b);
      TermTypesCompare(a, b);
    }
    PartsCompare(KindsKey(a), KindsKey(b), StructOrd(a, b), AtomsKey(a), AtomsKey(b), AtomsOrd(a, b));
    PartsCompare(KindsKey(a) + AtomsKey(a), KindsKey(b) + AtomsKey(b), Then(StructOrd(a, b), AtomsOrd(a, b)),
                 TypesKey(a), TypesKey(b), TypesOrd(a, b));
    KeysDecide(FastKey(a), FastKey(b), FastTermOrd(a, b));
  }

  // ---------- the order by size ----------

  lemma {:induction false} HeadKeyOfHead(t: Term)
    ensures HeadKey(t) == HeadKey(Head(t))
  {
    if t.App? { HeadKeyOfHead(t.func); }
  }

  lemma PlainHeadsCompare(h: Term, k: Term)
    requires !h.App? && !k.App?
    ensures Compares(HeadKey(h), HeadKey(k), HeadOrd(h, k))
  {
    HeadKeyParts(h);
    HeadKeyParts(k);
    FourCompare(HeadIndex(h), HeadIndex(k), HeadName(h), HeadName(k), HeadTyp(h), HeadTyp(k),
                TermConsNr(h), TermConsNr(k));
  }

  lemma HeadsCompare(a: Term, b: Term)
    ensures Compares(HeadKey(a), HeadKey(b), HeadOrd(Head(a), Head(b)))
  {
    HeadKeyOfHead(a);
    HeadKeyOfHead(b);
    PlainHeadsCompare(Head(a), Head(b));
  }

  lemma HeadKeyParts(h: Term)
    requires !h.App?
    ensures HeadKey(h) == [HeadIndex(h)] + NameKey(HeadName(h)) + TypKey(HeadTyp(h)) + [TermConsNr(h)]
  {
  }

  lemma FourCompare(i: int, j: int, m: Symbol, n: Symbol, s: Typ, t: Typ, c: int, d: int)
    ensures Compares([i] + NameKey(m) + TypKey(s) + [c], [j] + NameKey(n) + TypKey(t) + [d],
                     Then(Then(Then(CmpInt(i, j), CmpString(m, n)), TypOrd(s, t)), CmpInt(c, d)))
  {
    NumbersCompare(i, j);
    NamesCompare(m, n);
    TypesCompare(s, t);
    NumbersCompare(c, d);
    PartsCompare([i], [j], CmpInt(i, j), NameKey(m), NameKey(n), CmpString(m, n));
    PartsCompare([i] + NameKey(m), [j] + NameKey(n), Then(CmpInt(i, j), CmpString(m, n)),
                 TypKey(s), TypKey(t), TypOrd(s, t));
    PartsCompare([i] + NameKey(m) + TypKey(s), [j] + NameKey(n) + TypKey(t),
                 Then(Then(CmpInt(i, j), CmpString(m, n)), TypOrd(s, t)), [c], [d], CmpInt(c, d));
  }

  lemma {:induction false} ArgsCompare(a: Term, b: Term)
    requires HdDepth(a) == HdDepth(b)
    ensures Compares(ArgsKey(a), ArgsKey(b), ArgsOrd(a, b))
    decreases a, 0
  {
    if a.App? {
      ArgsCompare(a.func, b.func);
      SizesCompare(a.arg, b.arg);
      PartsCompare(ArgsKey(a.func), ArgsKey(b.func), ArgsOrd(a.func, b.func),
                   SizeKey(a.arg), SizeKey(b.arg), TermOrd(a.arg, b.arg));
    } else {
      EmptyCompare([]);
    }
  }

  /** What follows size and number of arguments in the key. */
  function SizeTail(t: Term): seq<int> {
    match t
    case Abs(_, ty, b) => SizeKey(b) + TypKey(ty)
    case _ => HeadKey(t) + ArgsKey(t)
  }

  lemma ThreeParts(i: int, j: int, k: seq<int>, l: seq<int>)
    ensures [i] + [j] + k + l == [i] + [j] + (k + l)
  {
  }

  lemma SizeTailFollows(t: Term)
    ensures SizeKey(t) == [Size(t)] + [HdDepth(t)] + SizeTail(t)
  {
    match t
    case Abs(_, ty, b) => ThreeParts(Size(t), 0, SizeKey(b), TypKey(ty));
    case _ => ThreeParts(Size(t), HdDepth(t), HeadKey(t), ArgsKey(t));
  }

  lemma {:induction false} SizesCompare(a: Term, b: Term)
    ensures Compares(SizeKey(a), SizeKey(b), TermOrd(a, b))
    decreases a, 1
  {
    var x, y := SizeTail(a), SizeTail(b);
    SizeTailFollows(a);
    SizeTailFollows(b);
    NumbersCompare(Size(a), Size(b));
    NumbersCompare(HdDepth(a), HdDepth(b));
    PartsCompare([Size(a)], [Size(b)], CmpInt(Size(a), Size(b)),
                 [HdDepth(a)], [HdDepth(b)], CmpInt(HdDepth(a), HdDepth(b)));
    SizeFirst(a, b);
    if Measure(a, b) != Equal {
      PartsCompare([Size(a)] + [HdDepth(a)], [Size(b)] + [HdDepth(b)], Measure(a, b), x, y, Equal);
    } else if a.Abs? && b.Abs? {
      SizesCompare(a.body, b.body);
      TypesCompare(a.typ, b.typ);
      PartsCompare(SizeKey(a.body), SizeKey(b.body), TermOrd(a.body, b.body),
                   TypKey(a.typ), TypKey(b.typ), TypOrd(a.typ, b.typ));
      PartsCompare([Size(a)] + [HdDepth(a)], [Size(b)] + [HdDepth(b)], Measure(a, b), x, y, TermOrd(a, b));
    } else {
      HeadsCompare(a, b);
      ArgsCompare(a, b);
      PartsCompare(HeadKey(a), HeadKey(b), HeadOrd(Head(a), Head(b)), ArgsKey(a), ArgsKey(b), ArgsOrd(a, b));
      PartsCompare([Size(a)] + [HdDepth(a)], [Size(b)] + [HdDepth(b)], Measure(a, b), x, y, TermOrd(a, b));
    }
  }

  /**
   The order by size is the dictionary order of keys that list size, number of arguments, head and arguments: heads go by
   index, name, type and kind, arguments from the left, bodies of abstractions before the types of their binders.
   */
  lemma TermOrdExact(a: Term, b: Term)
    ensures TermOrd(a, b) == Less <==> Before(SizeKey(a), SizeKey(b))
    ensures TermOrd(a, b) == Equal <==> SizeKey(a) == SizeKey(b)
  {
    SizesCompare(a, b);
    KeysDecide(SizeKey(a), SizeKey(b), TermOrd(a, b));
  }

  // ---------- laws a reader may look for ----------

  /** Schematic variables go by index before they go by name, in all three orders. */
  lemma IndexFirst(m: Symbol, i: nat, s: Sort, a: Typ, n: Symbol, j: nat, t: Sort, b: Typ)
    requires i < j
    ensures TypOrd(TVar(m, i, s), TVar(n, j, t)) == Less
    ensures FastTermOrd(Var(m, i, a), Var(n, j, b)) == Less && TermOrd(Var(m, i, a), Var(n, j, b)) == Less
    ensures FastTermOrd(Bound(i), Bound(j)) == Less && TermOrd(Bound(i), Bound(j)) == Less
  {
  }

  /** At one index, and for constants, free variables and constructed types anyway, the name decides first. */
  lemma NameNext(m: Symbol, n: Symbol, i: nat, s: Sort, t: Sort, as_: seq<Typ>, bs: seq<Typ>, a: Typ, b: Typ)
    requires Sooner(m, n)
    ensures TypOrd(TVar(m, i, s), TVar(n, i, t)) == Less && TypOrd(TFree(m, s), TFree(n, t)) == Less
    ensures TypOrd(Type(m, as_), Type(n, bs)) == Less
    ensures FastTermOrd(Const(m, a), Const(n, b)) == Less && TermOrd(Const(m, a), Const(n, b)) == Less
    ensures FastTermOrd(Free(m, a), Free(n, b)) == Less && TermOrd(Free(m, a), Free(n, b)) == Less
    ensures FastTermOrd(Var(m, i, a), Var(n, i, b)) == Less && TermOrd(Var(m, i, a), Var(n, i, b)) == Less
    ensures TermOrd(Const(m, a), Free(n, b)) == Less && TermOrd(Free(m, a), Const(n, b)) == Less
  {
    SoonerExact(m, n);
  }

  /** Schematic type variables, then free ones, then constructed types. */
  lemma KindsOfTypes(a: Typ, b: Typ)
    ensures a.TVar? && !b.TVar? ==> TypOrd(a, b) == Less
    ensures a.TFree? && b.Type? ==> TypOrd(a, b) == Less
  {
  }

  /** In the fast order: constants, free and schematic variables, indices, abstractions, applications. */
  lemma KindsOfTerms(a: Term, b: Term)
    ensures a.Const? && !b.Const? ==> FastTermOrd(a, b) == Less
    ensures a.Free? && !b.Const? && !b.Free? ==> FastTermOrd(a, b) == Less
    ensures a.Var? && (b.Bound? || b.Abs? || b.App?) ==> FastTermOrd(a, b) == Less
    ensures a.Bound? && (b.Abs? || b.App?) ==> FastTermOrd(a, b) == Less
    ensures a.Abs? && b.App? ==> FastTermOrd(a, b) == Less
  {
  }

  /** The term without types and with one atom of each kind. */
  function Bare(t: Term): Term {
    match t
    case Const(_, _) => Const("", DUMMY)
    case Free(_, _) => Free("", DUMMY)
    case Var(_, _, _) => Var("", 0, DUMMY)
    case Bound(_) => Bound(0)
    case Abs(_, _, b) => Abs("", DUMMY, Bare(b))
    case App(f, a) => App(Bare(f), Bare(a))
  }

  lemma {:induction false} BareDecides(a: Term, b: Term)
    ensures StructOrd(a, b) == StructOrd(Bare(a), Bare(b))
    ensures StructOrd(a, b) == Equal <==> Bare(a) == Bare(b)
  {
    match (a, b)
    case (Abs(_, _, b1), Abs(_, _, b2)) => BareDecides(b1, b2);
    case (App(f, x), App(g, y)) => BareDecides(f, g); BareDecides(x, y);
    case _ =>
  }

  lemma {:induction false} ShapeDecides(a: Term, b: Term)
    requires Bare(a) == Bare(b)
    ensures AtomsOrd(a, b) == AtomsOrd(Shape(a), Shape(b))
    ensures AtomsOrd(a, b) == Equal <==> Shape(a) == Shape(b)
  {
    StringsTotal();
    match (a, b)
    case (Abs(_, _, b1), Abs(_, _, b2)) => ShapeDecides(b1, b2);
    case (App(f, x), App(g, y)) => ShapeDecides(f, g); ShapeDecides(x, y);
    case _ =>
  }

  lemma {:induction false} BareOfShape(t: Term)
    ensures Bare(Shape(t)) == Bare(t)
  {
    match t
    case Abs(_, _, b) => BareOfShape(b);
    case App(f, a) => BareOfShape(f); BareOfShape(a);
    case _ =>
  }

  /** In the fast order structure decides first: if it differs, neither atoms nor types matter. */
  lemma StructureFirst(a: Term, b: Term, c: Term, d: Term)
    requires Bare(a) == Bare(c) && Bare(b) == Bare(d) && Bare(a) != Bare(b)
    ensures FastTermOrd(a, b) == FastTermOrd(c, d)
  {
    BareDecides(a, b);
    BareDecides(c, d);
  }

  /** Then all atoms decide before the types. */
  lemma AtomsNext(a: Term, b: Term, c: Term, d: Term)
    requires Bare(a) == Bare(b) && Shape(a) == Shape(c) && Shape(b) == Shape(d) && Shape(a) != Shape(b)
    ensures FastTermOrd(a, b) == FastTermOrd(c, d)
  {
    BareOfShape(a);
    BareOfShape(b);
    BareOfShape(c);
    BareOfShape(d);
    BareDecides(a, b);
    BareDecides(c, d);
    ShapeDecides(a, b);
    ShapeDecides(c, d);
  }

  // ---------- heads and arguments in the order by size ----------

  lemma {:induction false} AppsParts(h: Term, args: seq<Term>)
    requires !h.App?
    ensures HdDepth(Apps(h, args)) == |args| && Head(Apps(h, args)) == h
  {
    if args != [] { AppsParts(h, args[..|args| - 1]); }
  }

  /** The arguments at the front are equal in the order. */
  ghost predicate EqualBefore(i: nat, as_: seq<Term>, bs: seq<Term>) {
    forall j :: 0 <= j < i && j < |as_| && j < |bs| ==> TermOrd(as_[j], bs[j]) == Equal
  }

  lemma AppsOrd(h: Term, as_: seq<Term>, k: Term, bs: seq<Term>)
    requires |as_| == |bs| > 0
    ensures var n := |as_| - 1;
            ArgsOrd(Apps(h, as_), Apps(k, bs))
            == Then(ArgsOrd(Apps(h, as_[..n]), Apps(k, bs[..n])), TermOrd(as_[n], bs[n]))
  {
  }

  lemma {:induction false} FirstArgument(h: Term, as_: seq<Term>, k: Term, bs: seq<Term>, i: nat)
    requires !h.App? && !k.App? && |as_| == |bs| && EqualBefore(i, as_, bs)
    ensures i >= |as_| ==> ArgsOrd(Apps(h, as_), Apps(k, bs)) == Equal
    ensures i < |as_| && TermOrd(as_[i], bs[i]) != Equal ==> ArgsOrd(Apps(h, as_), Apps(k, bs)) == TermOrd(as_[i], bs[i])
    decreases |as_|
  {
    if as_ != [] {
      var n := |as_| - 1;
      var front, others := as_[..n], bs[..n];
      AppsOrd(h, as_, k, bs);
      assert EqualBefore(i, front, others);
      assert i < n ==> front[i] == as_[i] && others[i] == bs[i];
      FirstArgument(h, front, k, others, i);
    }
  }

  /**
   Terms of one size with equally many arguments: the heads decide, and if these have the same index, name, type and kind,
   the first argument from the left that differs.
   */
  lemma HeadThenArguments(h: Term, as_: seq<Term>, k: Term, bs: seq<Term>, i: nat)
    requires !h.App? && !k.App? && |as_| == |bs| && (as_ == [] ==> !h.Abs? && !k.Abs?)
    requires Size(Apps(h, as_)) == Size(Apps(k, bs))
    ensures Before(HeadKey(h), HeadKey(k)) ==> TermOrd(Apps(h, as_), Apps(k, bs)) == Less
    ensures HeadKey(h) == HeadKey(k) && i < |as_| && EqualBefore(i, as_, bs) && TermOrd(as_[i], bs[i]) != Equal ==>
              TermOrd(Apps(h, as_), Apps(k, bs)) == TermOrd(as_[i], bs[i])
  {
    AppsParts(h, as_);
    AppsParts(k, bs);
    HeadsCompare(h, k);
    KeysDecide(HeadKey(h), HeadKey(k), HeadOrd(h, k));
    if EqualBefore(i, as_, bs) { FirstArgument(h, as_, k, bs, i); }
  }

  // ---------- what is hashed ----------

  /** The numbers a hash is made of: kinds from the root and from left to right, byte lengths of names, indices. */
  function TypCodes(t: Typ): seq<nat>
    decreases t, 1
  {
    match t
    case Type(n, args) => [0, ByteLength(n)] + TypsCodes(args)
    case TFree(n, _) => [1, ByteLength(n)]
    case TVar(n, i, _) => [2, ByteLength(n), i]
  }

  function TypsCodes(ts: seq<Typ>): seq<nat>
    decreases ts, 0
  {
    if ts == [] then [] else TypCodes(ts[0]) + TypsCodes(ts[1..])
  }

  function TermCodes(t: Term): seq<nat> {
    match t
    case Const(n, ty) => [0, ByteLength(n)] + TypCodes(ty)
    case Free(n, ty) => [1, ByteLength(n)] + TypCodes(ty)
    case Var(n, i, ty) => [2, ByteLength(n), i] + TypCodes(ty)
    case Bound(i) => [3, i]
    case Abs(_, ty, b) => [4] + TypCodes(ty) + TermCodes(b)
    case App(f, a) => [5] + TermCodes(f) + TermCodes(a)
  }

  /** Each number is added to 31 times the state, in 64 bits. */
  function Mixed(codes: seq<nat>, h: nat): nat {
    if codes == [] then h else Mixed(codes[1..], (h * 31 + codes[0] % WORD) % WORD)
  }

  lemma {:induction false} MixedParts(a: seq<nat>, b: seq<nat>, h: nat)
    ensures Mixed(a + b, h) == Mixed(b, Mixed(a, h))
  {
    if a == [] {
      assert a + b == b;
    } else {
      MixedParts(a[1..], b, Mix(h, a[0]));
      assert (a + b)[1..] == a[1..] + b;
    }
  }

  lemma MixedOne(i: nat, h: nat)
    ensures Mixed([i], h) == Mix(h, i)
  {
    assert [i][1..] == [];
  }

  lemma MixedTwo(i: nat, j: nat, h: nat)
    ensures Mixed([i, j], h) == Mix(Mix(h, i), j)
  {
    assert [i, j][1..] == [j];
    MixedOne(j, Mix(h, i));
  }

  lemma MixedThree(i: nat, j: nat, k: nat, h: nat)
    ensures Mixed([i, j, k], h) == Mix(Mix(Mix(h, i), j), k)
  {
    assert [i, j, k][1..] == [j, k];
    MixedTwo(j, k, Mix(h, i));
  }

  lemma {:induction false} TypHashed(t: Typ, h: nat)
    ensures HashTyp(t, h) == Mixed(TypCodes(t), h)
    decreases t, 1
  {
    match t
    case Type(n, args) =>
      MixedTwo(0, ByteLength(n), h);
      MixedParts([0, ByteLength(n)], TypsCodes(args), h);
      TypsHashed(args, Mixed([0, ByteLength(n)], h));
    case TFree(n, _) => MixedTwo(1, ByteLength(n), h);
    case TVar(n, i, _) => MixedThree(2, ByteLength(n), i, h);
  }

  lemma {:induction false} TypsHashed(ts: seq<Typ>, h: nat)
    ensures HashTyps(ts, h) == Mixed(TypsCodes(ts), h)
    decreases ts, 0
  {
    if ts != [] {
      TypHashed(ts[0], h);
      TypsHashed(ts[1..], HashTyp(ts[0], h));
      MixedParts(TypCodes(ts[0]), TypsCodes(ts[1..]), h);
    }
  }

  /** The hash of a term mixes these numbers in their order. */
  lemma {:induction false} TermHashed(t: Term, h: nat)
    ensures HashTerm(t, h) == Mixed(TermCodes(t), h)
    decreases t
  {
    match t
    case Const(n, ty) => LeafHashed([0, ByteLength(n)], ty, h); MixedTwo(0, ByteLength(n), h);
    case Free(n, ty) => LeafHashed([1, ByteLength(n)], ty, h); MixedTwo(1, ByteLength(n), h);
    case Var(n, i, ty) => LeafHashed([2, ByteLength(n), i], ty, h); MixedThree(2, ByteLength(n), i, h);
    case Bound(i) => MixedTwo(3, i, h);
    case Abs(_, ty, b) =>
      MixedOne(4, h);
      LeafHashed([4], ty, h);
      MixedParts([4] + TypCodes(ty), TermCodes(b), h);
      TermHashed(b, HashTyp(ty, Mix(h, 4)));
    case App(f, a) =>
      MixedOne(5, h);
      MixedParts([5], TermCodes(f), h);
      MixedParts([5] + TermCodes(f), TermCodes(a), h);
      TermHashed(f, Mix(h, 5));
      TermHashed(a, HashTerm(f, Mix(h, 5)));
  }

  lemma LeafHashed(codes: seq<nat>, ty: Typ, h: nat)
    ensures Mixed(codes + TypCodes(ty), h) == HashTyp(ty, Mixed(codes, h))
  {
    MixedParts(codes, TypCodes(ty), h);
    TypHashed(ty, Mixed(codes, h));
  }
}
