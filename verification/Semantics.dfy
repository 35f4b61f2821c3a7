/**
 An untyped semantics of terms. A model interprets constants by name, application, and abstraction of an arbitrary
 total function on its carrier; no law relates application and abstraction, and types play no role.
 */
module Semantics {
  import opened Wrappers
  import opened Syntax
  import opened TermSubst
  import opened TermAbs
  import opened Logic
  import opened Hyps

  datatype Model<!D> = Model(con: Symbol -> D, app: (D, D) -> D, lam: imap<D, D> -> D, isTrue: D -> bool)

  /** Values of the variables; `off` is the value of an index that no binder binds. */
  datatype Valuation<!D> = Valuation(free: Symbol -> D, schematic: VarKey -> D, off: D)

  ghost function Denote<D(!new)>(M: Model<D>, v: Valuation<D>, rho: seq<D>, t: Term): D
    decreases t
  {
    match t
    case Const(n, _) => M.con(n)
    case Free(n, _) => v.free(n)
    case Var(n, i, _) => v.schematic((n, i))
    case Bound(i) => if i < |rho| then rho[i] else v.off
    case Abs(_, _, b) => M.lam(imap d: D | true :: Denote(M, v, [d] + rho, b))
    case App(f, a) => M.app(Denote(M, v, rho, f), Denote(M, v, rho, a))
  }

  /** The function an abstraction with body `b` stands for. */
  ghost function Fun<D(!new)>(M: Model<D>, v: Valuation<D>, rho: seq<D>, b: Term): imap<D, D> {
    imap d: D | true :: Denote(M, v, [d] + rho, b)
  }

  /** The model reads the connectives as they are meant, equality under every name that counts as equality. */
  ghost predicate Reads<D(!new)>(M: Model<D>) {
    && (forall a, b :: M.isTrue(M.app(M.app(M.con("Pure.imp"), a), b)) <==> (M.isTrue(a) ==> M.isTrue(b)))
    && (forall n, a, b :: IsEqName(n) ==> (M.isTrue(M.app(M.app(M.con(n), a), b)) <==> a == b))
    && (forall m: imap<D, D> :: (forall d :: d in m) ==>
          (M.isTrue(M.app(M.con("Pure.all"), M.lam(m))) <==> forall d :: M.isTrue(m[d])))
  }

  ghost predicate True<D(!new)>(M: Model<D>, v: Valuation<D>, t: Term) {
    M.isTrue(Denote(M, v, [], t))
  }

  ghost predicate AllTrue<D(!new)>(M: Model<D>, v: Valuation<D>, ts: seq<Term>) {
    forall i :: 0 <= i < |ts| ==> True(M, v, ts[i])
  }

  // ---------- name spaces ----------

  /** Which names may be used for constants, free variables and schematic variables. */
  datatype Signature = Signature(consts: iset<Symbol>, frees: iset<Symbol>, vars: iset<Symbol>)

  /** No two kinds of name match in the kernel's comparison. */
  ghost predicate Separated(sig: Signature) {
    && (forall c, f :: c in sig.consts && f in sig.frees ==> !CrossNames(f, c))
    && sig.frees !! sig.vars
    && "Pure.imp" in sig.consts && "Pure.all" in sig.consts && "Pure.eq" in sig.consts
  }

  ghost predicate Over(sig: Signature, t: Term) {
    match t
    case Const(n, _) => n in sig.consts
    case Free(n, _) => n in sig.frees
    case Var(n, _, _) => n in sig.vars
    case Bound(_) => true
    case Abs(_, _, b) => Over(sig, b)
    case App(f, a) => Over(sig, f) && Over(sig, a)
  }

  /** Closed, and over the signature. */
  ghost predicate Fine(sig: Signature, t: Term) {
    Closed(t) && Over(sig, t)
  }

  ghost predicate AllFine(sig: Signature, ts: seq<Term>) {
    forall i :: 0 <= i < |ts| ==> Fine(sig, ts[i])
  }

  // ---------- what a denotation depends on ----------

  /** Over a separated signature, terms that match denote the same. */
  lemma {:induction false} AlphaEqDenotes<D(!new)>(M: Model<D>, v: Valuation<D>, rho: seq<D>, sig: Signature, a: Term, b: Term)
    requires Separated(sig) && Over(sig, a) && Over(sig, b) && AlphaEq(a, b)
    ensures Denote(M, v, rho, a) == Denote(M, v, rho, b)
    decreases a
  {
    match (a, b)
    case (Abs(_, _, b1), Abs(_, _, b2)) =>
      forall d: D ensures Denote(M, v, [d] + rho, b1) == Denote(M, v, [d] + rho, b2) {
        AlphaEqDenotes(M, v, [d] + rho, sig, b1, b2);
      }
      assert Fun(M, v, rho, b1) == Fun(M, v, rho, b2);
    case (App(f1, a1), App(f2, a2)) =>
      AlphaEqDenotes(M, v, rho, sig, f1, f2);
      AlphaEqDenotes(M, v, rho, sig, a1, a2);
    case _ =>
  }

  /** Over a separated signature, exactly the terms match that are equal up to types and whose binder types agree. */
  lemma {:induction false} AlphaEqExact(sig: Signature, a: Term, b: Term)
    requires Separated(sig) && Over(sig, a) && Over(sig, b)
    ensures AlphaEq(a, b) <==> Shape(a) == Shape(b) && BindersAgree(a, b)
  {
    match (a, b)
    case (Abs(_, _, b1), Abs(_, _, b2)) => AlphaEqExact(sig, b1, b2);
    case (App(f1, a1), App(f2, a2)) => AlphaEqExact(sig, f1, f2); AlphaEqExact(sig, a1, a2);
    case _ =>
  }

  /** Every binder has a known type. */
  predicate KnownBinders(t: Term) {
    match t
    case Abs(_, ty, b) => !IsDummy(ty) && KnownBinders(b)
    case App(f, a) => KnownBinders(f) && KnownBinders(a)
    case _ => true
  }

  /** The term with the unknown types of its binders replaced. */
  function Retyped(t: Term, unknown: Typ): Term {
    match t
    case Abs(x, ty, b) => Abs(x, if IsDummy(ty) then unknown else ty, Retyped(b, unknown))
    case App(f, a) => App(Retyped(f, unknown), Retyped(a, unknown))
    case _ => t
  }

  lemma {:induction false} MatchesThrough(sig: Signature, a: Term, b: Term, c: Term)
    requires Separated(sig) && Over(sig, a) && Over(sig, b) && Over(sig, c)
    requires AlphaEq(a, b) && AlphaEq(b, c) && KnownBinders(b)
    ensures AlphaEq(a, c)
    decreases b
  {
    match b
    case Abs(_, _, b1) => MatchesThrough(sig, a.body, b1, c.body);
    case App(f, x) => MatchesThrough(sig, a.func, f, c.func); MatchesThrough(sig, a.arg, x, c.arg);
    case _ =>
  }

  lemma {:induction false} RetypedMatches(sig: Signature, t: Term, unknown: Typ)
    requires Over(sig, t)
    ensures Over(sig, Retyped(t, unknown)) && AlphaEq(Retyped(t, unknown), t) && AlphaEq(t, Retyped(t, unknown))
  {
    match t
    case Abs(_, _, b) => RetypedMatches(sig, b, unknown);
    case App(f, a) => RetypedMatches(sig, f, unknown); RetypedMatches(sig, a, unknown);
    case _ =>
  }

  lemma {:induction false} RetypedDiffers(t: Term, s: Typ, u: Typ)
    requires !KnownBinders(t) && s != u && !IsDummy(s) && !IsDummy(u)
    ensures !AlphaEq(Retyped(t, s), Retyped(t, u))
  {
    match t
    case Abs(_, ty, b) => if !IsDummy(ty) { RetypedDiffers(b, s, u); }
    case App(f, a) => if !KnownBinders(f) { RetypedDiffers(f, s, u); } else { RetypedDiffers(a, s, u); }
  }

  /**
   Over separated name spaces, matching is transitive through a term exactly if the types of all its binders are known:
   an unknown type matches two different known ones.
   */
  lemma TransitiveExact(sig: Signature, b: Term)
    requires Separated(sig) && Over(sig, b)
    ensures KnownBinders(b) <==>
            forall a, c :: Over(sig, a) && Over(sig, c) && AlphaEq(a, b) && AlphaEq(b, c) ==> AlphaEq(a, c)
  {
    if KnownBinders(b) {
      forall a, c | Over(sig, a) && Over(sig, c) && AlphaEq(a, b) && AlphaEq(b, c) ensures AlphaEq(a, c) {
        MatchesThrough(sig, a, b, c);
      }
    } else {
      var s, u := Base("nat"), Base("bool");
      RetypedMatches(sig, b, s);
      RetypedMatches(sig, b, u);
      RetypedDiffers(b, s, u);
    }
  }

  /** A closed term does not look at the values of binders. */
  lemma {:induction false} DenoteLoose<D(!new)>(M: Model<D>, v: Valuation<D>, rho: seq<D>, tail: seq<D>, t: Term)
    requires LooseBelow(t, |rho|)
    ensures Denote(M, v, rho + tail, t) == Denote(M, v, rho, t)
    decreases t
  {
    match t
    case Abs(_, _, b) =>
      forall d: D ensures Denote(M, v, [d] + (rho + tail), b) == Denote(M, v, [d] + rho, b) {
        DenoteLoose(M, v, [d] + rho, tail, b);
        assert [d] + (rho + tail) == [d] + rho + tail;
      }
      assert Fun(M, v, rho + tail, b) == Fun(M, v, rho, b);
    case App(f, a) => DenoteLoose(M, v, rho, tail, f); DenoteLoose(M, v, rho, tail, a);
    case _ =>
  }

  lemma DenoteClosed<D(!new)>(M: Model<D>, v: Valuation<D>, rho: seq<D>, t: Term)
    requires Closed(t)
    ensures Denote(M, v, rho, t) == Denote(M, v, [], t)
  {
    DenoteLoose(M, v, [], rho, t);
    assert [] + rho == rho;
  }

  ghost function With<D>(v: Valuation<D>, x: Symbol, d: D): Valuation<D> {
    v.(free := (n: Symbol) => if n == x then d else v.free(n))
  }

  lemma {:induction false} DenoteFresh<D(!new)>(M: Model<D>, v: Valuation<D>, rho: seq<D>, x: Symbol, d: D, t: Term)
    requires !FreeIn(x, t)
    ensures Denote(M, With(v, x, d), rho, t) == Denote(M, v, rho, t)
    decreases t
  {
    match t
    case Abs(_, _, b) =>
      forall e: D ensures Denote(M, With(v, x, d), [e] + rho, b) == Denote(M, v, [e] + rho, b) {
        DenoteFresh(M, v, [e] + rho, x, d, b);
      }
      assert Fun(M, With(v, x, d), rho, b) == Fun(M, v, rho, b);
    case App(f, a) => DenoteFresh(M, v, rho, x, d, f); DenoteFresh(M, v, rho, x, d, a);
    case _ =>
  }

  /** Abstracting a free variable: the bound index takes the value the variable had. */
  lemma {:induction false} DenoteAbstracted<D(!new)>(M: Model<D>, v: Valuation<D>, rho: seq<D>, sig: Signature,
                                                    x: Symbol, ty: Typ, d: D, t: Term)
    requires Separated(sig) && Over(sig, t) && x in sig.frees && LooseBelow(t, |rho|)
    ensures Denote(M, v, rho + [d], SubstVarBound(|rho|, Free(x, ty), t)) == Denote(M, With(v, x, d), rho, t)
    decreases t
  {
    match t
    case Abs(_, _, b) =>
      var c := SubstVarBound(|rho| + 1, Free(x, ty), b);
      forall e: D ensures Denote(M, v, [e] + (rho + [d]), c) == Denote(M, With(v, x, d), [e] + rho, b) {
        DenoteAbstracted(M, v, [e] + rho, sig, x, ty, d, b);
        assert [e] + (rho + [d]) == [e] + rho + [d];
      }
      assert Fun(M, v, rho + [d], c) == Fun(M, With(v, x, d), rho, b);
    case App(f, a) =>
      DenoteAbstracted(M, v, rho, sig, x, ty, d, f);
      DenoteAbstracted(M, v, rho, sig, x, ty, d, a);
    case _ =>
  }

  ghost function Denotes<D(!new)>(M: Model<D>, v: Valuation<D>, ts: seq<Term>): seq<D> {
    seq(|ts|, i requires 0 <= i < |ts| => Denote(M, v, [], ts[i]))
  }

  /** Textbook substitution of closed terms: the indices take the values of the terms put in their place. */
  lemma {:induction false} DenoteSubstituted<D(!new)>(M: Model<D>, v: Valuation<D>, rho: seq<D>, args: seq<Term>, body: Term)
    requires LooseBelow(body, |rho| + |args|)
    requires forall i :: 0 <= i < |args| ==> Closed(args[i])
    ensures Denote(M, v, rho, StdSubst(args, |rho|, body)) == Denote(M, v, rho + Denotes(M, v, args), body)
    decreases body
  {
    match body
    case Bound(i) =>
      if i >= |rho| {
        var a := args[i - |rho|];
        ShiftClosed(a, 0, |rho|);
        DenoteClosed(M, v, rho, a);
      }
    case Abs(_, _, b) =>
      var c := StdSubst(args, |rho| + 1, b);
      forall d: D ensures Denote(M, v, [d] + rho, c) == Denote(M, v, [d] + (rho + Denotes(M, v, args)), b) {
        DenoteSubstituted(M, v, [d] + rho, args, b);
        assert [d] + (rho + Denotes(M, v, args)) == [d] + rho + Denotes(M, v, args);
      }
      assert Fun(M, v, rho, c) == Fun(M, v, rho + Denotes(M, v, args), b);
    case App(f, a) =>
      DenoteSubstituted(M, v, rho, args, f);
      DenoteSubstituted(M, v, rho, args, a);
    case _ =>
  }

  // ---------- the connectives ----------

  lemma DenoteBinary<D(!new)>(M: Model<D>, v: Valuation<D>, rho: seq<D>, t: Term)
    requires t.App? && t.func.App? && t.func.func.Const?
    ensures Denote(M, v, rho, t)
         == M.app(M.app(M.con(t.func.func.name), Denote(M, v, rho, t.func.arg)), Denote(M, v, rho, t.arg))
  {
    assert Denote(M, v, rho, t.func) == M.app(Denote(M, v, rho, t.func.func), Denote(M, v, rho, t.func.arg));
  }

  lemma TrueImplies<D(!new)>(M: Model<D>, v: Valuation<D>, t: Term)
    requires Reads(M) && DestImplies(t).Some?
    ensures True(M, v, t) <==> (True(M, v, DestImplies(t).value.0) ==> True(M, v, DestImplies(t).value.1))
  {
    DenoteBinary(M, v, [], t);
  }

  lemma TrueEquals<D(!new)>(M: Model<D>, v: Valuation<D>, t: Term)
    requires Reads(M) && DestEquals(t).Some?
    ensures var e := DestEquals(t).value; True(M, v, t) <==> Denote(M, v, [], e.lhs) == Denote(M, v, [], e.rhs)
  {
    DenoteBinary(M, v, [], t);
  }

  lemma TrueAll<D(!new)>(M: Model<D>, v: Valuation<D>, t: Term)
    requires Reads(M) && DestAll(t).Some?
    ensures True(M, v, t) <==> forall d :: M.isTrue(Denote(M, v, [d], DestAll(t).value))
  {
    var b := DestAll(t).value;
    var m := Fun(M, v, [], b);
    assert Denote(M, v, [], t) == M.app(M.con("Pure.all"), M.lam(m)) by {
      assert Denote(M, v, [], t.arg) == M.lam(m);
    }
    assert forall d :: d in m;
    assert forall d: D :: [d] + [] == [d];
    assert forall d :: m[d] == Denote(M, v, [d], b);
  }

  lemma TrueMkAll<D(!new)>(M: Model<D>, v: Valuation<D>, sig: Signature, x: Symbol, ty: Typ, b: Term)
    requires Reads(M) && Separated(sig) && Fine(sig, b) && x in sig.frees
    ensures True(M, v, MkAll(x, ty, b)) <==> forall d :: True(M, With(v, x, d), b)
  {
    LambdaClosed(Free(x, ty), b);
    var c := SubstVarBound(0, Free(x, ty), b);
    assert DestAll(MkAll(x, ty, b)) == Some(c);
    TrueAll(M, v, MkAll(x, ty, b));
    forall d: D ensures Denote(M, v, [d], c) == Denote(M, With(v, x, d), [], b) {
      DenoteAbstracted(M, v, [], sig, x, ty, d, b);
      assert [] + [d] == [d];
    }
  }

  /** A chain of implications says that its premises together imply its conclusion. */
  lemma {:induction false} TrueStripped<D(!new)>(M: Model<D>, v: Valuation<D>, t: Term)
    requires Reads(M)
    ensures True(M, v, t) <==> (AllTrue(M, v, StripImpPrems(t).0) ==> True(M, v, StripImpPrems(t).1))
    decreases t
  {
    match DestImplies(t)
    case None =>
    case Some((a, b)) =>
      TrueImplies(M, v, t);
      TrueStripped(M, v, b);
      var prems := StripImpPrems(b).0;
      assert StripImpPrems(t).0 == [a] + prems;
      assert AllTrue(M, v, [a] + prems) <==> True(M, v, a) && AllTrue(M, v, prems) by {
        if AllTrue(M, v, [a] + prems) {
          assert ([a] + prems)[0] == a;
          forall i | 0 <= i < |prems| ensures True(M, v, prems[i]) { assert ([a] + prems)[i + 1] == prems[i]; }
        }
      }
  }

  lemma {:induction false} TrueMkImpliesList<D(!new)>(M: Model<D>, v: Valuation<D>, prems: seq<Term>, t: Term)
    requires Reads(M)
    ensures True(M, v, MkImpliesList(prems, t)) <==> (AllTrue(M, v, prems) ==> True(M, v, t))
  {
    if prems == [] {
    } else {
      TrueMkImpliesList(M, v, prems[1..], t);
      TrueImplies(M, v, MkImpliesList(prems, t));
      assert AllTrue(M, v, prems) <==> True(M, v, prems[0]) && AllTrue(M, v, prems[1..]) by {
        if True(M, v, prems[0]) && AllTrue(M, v, prems[1..]) {
          forall i | 0 <= i < |prems| ensures True(M, v, prems[i]) {
            if i > 0 { assert prems[1..][i - 1] == prems[i]; }
          }
        }
      }
    }
  }
}
