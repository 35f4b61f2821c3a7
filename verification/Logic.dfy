/** Constructors and destructors of the Pure connectives. */
module Logic {
  import opened Wrappers
  import opened Syntax
  import opened TermAbs

  predicate EndsWith(s: string, suffix: string) {
    |suffix| <= |s| && s[|s| - |suffix|..] == suffix
  }

  const PROP: Typ := Base("prop")
  const IMP: Term := Const("Pure.imp", Arrow(PROP, Arrow(PROP, PROP)))

  function MkImplies(a: Term, b: Term): Term {
    App(App(IMP, a), b)
  }

  function DestImplies(t: Term): Option<(Term, Term)> {
    match t
    case App(App(Const(n, _), a), b) => if n == "Pure.imp" then Some((a, b)) else None
    case _ => None
  }

  function MkAll(x: Symbol, ty: Typ, body: Term): Term {
    App(Const("Pure.all", Arrow(Arrow(ty, PROP), PROP)), Lambda(Free(x, ty), body))
  }

  /** The body below the quantified binder. */
  function DestAll(t: Term): Option<Term> {
    match t
    case App(Const(n, _), Abs(_, _, b)) => if n == "Pure.all" then Some(b) else None
    case _ => None
  }

  function MkEquals(ty: Typ, t: Term, u: Term): Term {
    App(App(Const("Pure.eq", Arrow(ty, Arrow(ty, PROP))), t), u)
  }

  /** The constants accepted as equality. */
  predicate IsEqName(n: Symbol) {
    n == "Pure.eq" || n == "HOL.eq" || EndsWith(n, ".eq")
  }

  lemma EndsWithExact(s: string, suffix: string)
    ensures EndsWith(s, suffix) <==> exists p :: s == p + suffix
  {
    if EndsWith(s, suffix) {
      assert s == s[..|s| - |suffix|] + suffix;
    }
  }

  /** Equality goes under the names that end in ".eq", those of the two logics among them. */
  lemma EqNameExact(n: Symbol)
    ensures IsEqName(n) <==> exists p :: n == p + ".eq"
    ensures IsEqName("Pure.eq") && IsEqName("HOL.eq")
  {
    EndsWithExact(n, ".eq");
    assert "Pure.eq" == "Pure" + ".eq" && "HOL.eq" == "HOL" + ".eq";
  }

  function EqType(ty: Typ): Typ {
    if IsFun(ty) then ty.args[0] else DUMMY
  }

  datatype Equation = Equation(lhs: Term, rhs: Term, typ: Typ)

  function DestEquals(t: Term): Option<Equation> {
    match t
    case App(App(Const(n, ty), l), r) => if IsEqName(n) then Some(Equation(l, r, EqType(ty))) else None
    case _ => None
  }

  /** The premises of a chain of implications, and its conclusion. */
  function StripImpPrems(t: Term): (r: (seq<Term>, Term)) {
    match DestImplies(t)
    case Some((a, b)) =>
      var (prems, concl) := StripImpPrems(b);
      ([a] + prems, concl)
    case None => ([], t)
  }

  function CountPrems(t: Term): nat {
    |StripImpPrems(t).0|
  }

  function NthPremise(t: Term, i: nat): Option<Term> {
    var prems := StripImpPrems(t).0;
    if i < |prems| then Some(prems[i]) else None
  }

  /** `prems[0] ==> ... ==> concl`. */
  function MkImpliesList(prems: seq<Term>, concl: Term): Term {
    if prems == [] then concl else MkImplies(prems[0], MkImpliesList(prems[1..], concl))
  }

  method StripImpPremsLoop(t: Term) returns (prems: seq<Term>, body: Term)
    ensures (prems, body) == StripImpPrems(t)
  {
    prems, body := [], t;
    assert [] + StripImpPrems(t).0 == StripImpPrems(t).0;
    while DestImplies(body).Some?
      invariant StripImpPrems(t) == (prems + StripImpPrems(body).0, StripImpPrems(body).1)
      decreases body
    {
      var (a, b) := DestImplies(body).value;
      assert prems + ([a] + StripImpPrems(b).0) == prems + [a] + StripImpPrems(b).0;
      prems, body := prems + [a], b;
    }
    assert prems + [] == prems;
  }

  method MkImpliesListLoop(prems: seq<Term>, concl: Term) returns (r: Term)
    ensures r == MkImpliesList(prems, concl)
  {
    r := concl;
    var i := |prems|;
    while i > 0
      invariant 0 <= i <= |prems|
      invariant r == MkImpliesList(prems[i..], concl)
    {
      i := i - 1;
      assert prems[i..][1..] == prems[i + 1..];
      r := MkImplies(prems[i], r);
    }
    assert prems[0..] == prems;
  }

  /** Chaining premises onto a proposition puts exactly those premises in front of the ones it had. */
  lemma {:induction false} StripMkImpliesList(prems: seq<Term>, t: Term)
    ensures StripImpPrems(MkImpliesList(prems, t)) == (prems + StripImpPrems(t).0, StripImpPrems(t).1)
  {
    if prems == [] {
      assert [] + StripImpPrems(t).0 == StripImpPrems(t).0;
    } else {
      StripMkImpliesList(prems[1..], t);
      assert [prems[0]] + (prems[1..] + StripImpPrems(t).0) == prems + StripImpPrems(t).0;
      assert prems == [prems[0]] + prems[1..];
    }
  }

  lemma {:induction false} ConclIsNoImplication(t: Term)
    ensures DestImplies(StripImpPrems(t).1).None?
    decreases t
  {
    match DestImplies(t)
    case Some((_, b)) => ConclIsNoImplication(b);
    case None =>
  }
}
