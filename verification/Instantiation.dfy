/**
 Instantiating a quantifier with a term that has bound indices of its own: the kernel accepts it, and makes theorems that
 are not true. Here is said that exactly these instances have to be kept out.
 */
module Instantiation {
  import opened Wrappers
  import opened Syntax
  import opened TermSubst
  import opened TermAbs
  import opened Eta
  import opened Logic
  import opened Kernel
  import opened Semantics
  import opened Soundness
  import opened Consistency

  // ---------- the identity ----------

  const T: Typ := Arrow(PROP, PROP)
  const IDENTITY: Term := Abs("z", PROP, Bound(0))

  function Named(x: Symbol): Term {
    Free(x, T)
  }

  /** From `b == x`, generalised over an unrelated variable below an implication, an instance at the identity. */
  function IdentityInstance(): Derivation {
    Unary(ByForallElim(IDENTITY), BeforeInstance(MkEquals(T, Named("b"), Named("x"))))
  }

  function BeforeInstance(eq: Term): Derivation {
    Unary(ByForallIntr("x", T), Unary(ByImpliesIntr(eq), Unary(ByForallIntr("y", PROP), Axiom(FromAssumption(eq)))))
  }

  /** `(b == (%z. z)) ==> (!!y. b == (%z. y))`. */
  function IdentityCaptured(): Term {
    MkImplies(MkEquals(T, Named("b"), IDENTITY),
              Quantified("y", PROP, MkEquals(T, Named("b"), Abs("z", PROP, Bound(1)))))
  }

  lemma CapturedRuns()
    ensures Run(IdentityInstance()) == Some(Thm([], IdentityCaptured(), []))
  {
    var eq, inner := MkEquals(T, Named("b"), Named("x")), MkEquals(T, Named("b"), Bound(1));
    var body := MkImplies(MkEquals(T, Named("b"), Bound(0)), Quantified("y", PROP, inner));
    BeforeRuns(eq, inner, body);
    IdentityEliminated(body, inner);
    var thm := Thm([], Quantified("x", T, body), []);
    RunStep(ByForallElim(IDENTITY), BeforeInstance(eq), thm, Thm([], IdentityCaptured(), []));
  }

  lemma BeforeRuns(eq: Term, inner: Term, body: Term)
    requires eq == MkEquals(T, Named("b"), Named("x")) && inner == MkEquals(T, Named("b"), Bound(1))
    requires body == MkImplies(MkEquals(T, Named("b"), Bound(0)), Quantified("y", PROP, inner))
    ensures Run(BeforeInstance(eq)) == Some(Thm([], Quantified("x", T, body), []))
  {
    var implied := Unary(ByImpliesIntr(eq), Unary(ByForallIntr("y", PROP), Axiom(FromAssumption(eq))));
    var thm := Thm([], MkImplies(eq, Quantified("y", PROP, eq)), []);
    ImpliedRuns(eq);
    GeneralizedTwice(eq, inner);
    RunStep(ByForallIntr("x", T), implied, thm, Thm([], Quantified("x", T, body), []));
  }

  lemma IdentityEliminated(body: Term, inner: Term)
    requires inner == MkEquals(T, Named("b"), Bound(1))
    requires body == MkImplies(MkEquals(T, Named("b"), Bound(0)), Quantified("y", PROP, inner))
    ensures Infer1(ByForallElim(IDENTITY), Thm([], Quantified("x", T, body), [])) == Some(Thm([], IdentityCaptured(), []))
  {
    IdentitySubstituted(body, inner);
  }

  lemma RunStep(r: UnaryRule, d: Derivation, thm: Thm, next: Thm)
    requires Run(d) == Some(thm) && Infer1(r, thm) == Some(next)
    ensures Run(Unary(r, d)) == Some(next)
  {
  }

  lemma ImpliedRuns(eq: Term)
    requires eq == MkEquals(T, Named("b"), Named("x"))
    ensures Run(Unary(ByImpliesIntr(eq), Unary(ByForallIntr("y", PROP), Axiom(FromAssumption(eq)))))
         == Some(Thm([], MkImplies(eq, Quantified("y", PROP, eq)), []))
  {
    var thm := Thm([eq], Quantified("y", PROP, eq), []);
    assert Run(Unary(ByForallIntr("y", PROP), Axiom(FromAssumption(eq)))) == Some(thm) by {
      Generalized(eq);
      assert !FreeIn("y", eq.func) && !FreeIn("y", [eq][0]);
    }
    TrivialHolds(eq);
  }

  function Quantified(x: Symbol, ty: Typ, body: Term): Term {
    App(Const("Pure.all", Arrow(Arrow(ty, PROP), PROP)), Abs(x, DUMMY, body))
  }

  lemma Generalized(eq: Term)
    requires eq == MkEquals(T, Named("b"), Named("x"))
    ensures MkAll("y", PROP, eq) == Quantified("y", PROP, eq)
  {
    assert Closed(eq.func) && Closed(eq);
    LambdaClosed(Free("y", PROP), eq);
    assert SubstVarBound(0, Free("y", PROP), eq.func) == eq.func;
  }

  lemma GeneralizedTwice(eq: Term, inner: Term)
    requires eq == MkEquals(T, Named("b"), Named("x")) && inner == MkEquals(T, Named("b"), Bound(1))
    ensures MkAll("x", T, MkImplies(eq, Quantified("y", PROP, eq)))
         == Quantified("x", T, MkImplies(MkEquals(T, Named("b"), Bound(0)), Quantified("y", PROP, inner)))
  {
    var v, implied := Free("x", T), MkImplies(eq, Quantified("y", PROP, eq));
    ImpliedClosed(eq);
    LambdaClosed(v, implied);
    SubstVarEquals(0, v, Named("b"), Named("x"));
    SubstVarEquals(1, v, Named("b"), Named("x"));
    assert SubstVarBound(0, v, implied.func) == App(IMP, MkEquals(T, Named("b"), Bound(0)));
    assert SubstVarBound(0, v, implied.arg) == Quantified("y", PROP, inner);
  }

  lemma SubstVarEquals(depth: nat, v: Term, l: Term, r: Term)
    requires v.Free?
    ensures SubstVarBound(depth, v, MkEquals(T, l, r)) == MkEquals(T, SubstVarBound(depth, v, l), SubstVarBound(depth, v, r))
  {
    var f := MkEquals(T, l, r).func;
    assert SubstVarBound(depth, v, f) == App(f.func, SubstVarBound(depth, v, l));
  }

  lemma ImpliedClosed(eq: Term)
    requires eq == MkEquals(T, Named("b"), Named("x"))
    ensures Closed(MkImplies(eq, Quantified("y", PROP, eq)))
  {
    var implied := MkImplies(eq, Quantified("y", PROP, eq));
    assert LooseBelow(eq.func, 0) && Closed(eq) && LooseBelow(eq.func, 1) && LooseBelow(eq, 1);
    assert Closed(implied.func) && Closed(implied.arg);
  }

  lemma IdentitySubstituted(body: Term, inner: Term)
    requires inner == MkEquals(T, Named("b"), Bound(1))
    requires body == MkImplies(MkEquals(T, Named("b"), Bound(0)), Quantified("y", PROP, inner))
    ensures SubstBounds([IDENTITY], body) == IdentityCaptured()
  {
    var below := UnderBinder([IDENTITY]);
    assert below[1] == Lift(IDENTITY, 0, 1) == Abs("z", PROP, Bound(1));
    LiftZero(below[1], 0);
    LiftZero(IDENTITY, 0);
    assert SubstBounds(below, inner.func) == inner.func;
    assert SubstBounds(below, inner) == MkEquals(T, Named("b"), Abs("z", PROP, Bound(1)));
    assert SubstBounds([IDENTITY], body.arg) == IdentityCaptured().arg;
    var first := body.func.arg;
    assert SubstBounds([IDENTITY], first.func) == first.func;
    assert SubstBounds([IDENTITY], first) == MkEquals(T, Named("b"), IDENTITY);
    assert SubstBounds([IDENTITY], body.func) == IdentityCaptured().func;
  }

  /** But for the instance, the run is proper over every signature that has its names. */
  lemma IdentityDisciplined(sig: Signature)
    requires Separated(sig) && "b" in sig.frees && "x" in sig.frees && "y" in sig.frees
    ensures Disciplined(sig, IdentityInstance()) && Instances(IdentityInstance()) == {IDENTITY}
  {
    assert Fine(sig, Named("b")) && Fine(sig, Named("x"));
    FineMkEquals(sig, T, Named("b"), Named("x"));
    var eq := MkEquals(T, Named("b"), Named("x"));
    var assumed := Unary(ByForallIntr("y", PROP), Axiom(FromAssumption(eq)));
    assert Fine(sig, Named("b")) && Fine(sig, Named("x")) && Fine(sig, IDENTITY);
    assert Disciplined(sig, Axiom(FromAssumption(eq))) && Instances(Axiom(FromAssumption(eq))) == {};
    assert Disciplined(sig, assumed) && Instances(assumed) == {};
    var implied := Unary(ByImpliesIntr(eq), assumed);
    assert Disciplined(sig, implied) && Instances(implied) == {};
    var general := Unary(ByForallIntr("x", T), implied);
    assert Disciplined(sig, general) && Instances(general) == {};
  }

  /** A closed and correctly typed instance makes a theorem without oracles and hypotheses that is false in a model. */
  lemma IdentityIsUnsound()
    ensures Run(IdentityInstance()).Some?
    ensures Run(IdentityInstance()).value.hyps == [] && Run(IdentityInstance()).value.oracles == []
    ensures Reads(Witness()) && !Valid(Witness(), Run(IdentityInstance()).value)
  {
    CapturedRuns();
    WitnessReads();
    var v: Valuation<Truth> := Valuation((n: Symbol) => No, (k: VarKey) => No, No);
    CapturedIsFalse(v);
    Refutes(Witness(), v, Run(IdentityInstance()).value);
  }

  lemma Refutes<D(!new)>(M: Model<D>, v: Valuation<D>, thm: Thm)
    requires thm.hyps == [] && !True(M, v, thm.prop)
    ensures !Valid(M, thm)
  {
    assert AllTrue(M, v, []);
  }

  lemma CapturedIsFalse(v: Valuation<Truth>)
    requires v.free("b") == No
    ensures !True(Witness(), v, IdentityCaptured())
  {
    var (eq, general) := DestImplies(IdentityCaptured()).value;
    var body := DestAll(general).value;
    WitnessReads();
    TrueImplies(Witness(), v, IdentityCaptured());
    TrueEquals(Witness(), v, eq);
    TrueAll(Witness(), v, general);
    IdentityDenotes(v);
    DenoteBinary(Witness(), v, [Yes], body);
    assert !Witness().isTrue(Denote(Witness(), v, [Yes], body));
  }

  /** The identity is not always true; the constant function it becomes is, where the constant is true. */
  lemma IdentityDenotes(v: Valuation<Truth>)
    ensures Denote(Witness(), v, [], IDENTITY) == No
    ensures Denote(Witness(), v, [Yes], Abs("z", PROP, Bound(1))) == Holds
  {
    var id, const_ := Fun(Witness(), v, [], Bound(0)), Fun(Witness(), v, [Yes], Bound(1));
    assert id[No] == No;
    assert Denote(Witness(), v, [], IDENTITY) == LamTruth(id);
    assert forall d: Truth :: d in const_ && const_[d] == Yes;
    assert Denote(Witness(), v, [Yes], Abs("z", PROP, Bound(1))) == LamTruth(const_);
  }

  // ---------- a model that sees bound indices ----------

  /** Applications are kept as they are; of a function are kept its values at two points, and whether all are true. */
  datatype Tree =
    | Leaf(name: Symbol)
    | Mark(side: bool)
    | Node(fun: Tree, arg: Tree)
    | Lam(always: bool, atFalse: Tree, atTrue: Tree)

  predicate TreeHolds(t: Tree) {
    match t
    case Node(Node(Leaf(n), a), b) => if n == "Pure.imp" then TreeHolds(a) ==> TreeHolds(b) else IsEqName(n) && a == b
    case Node(Leaf(n), Lam(always, _, _)) => n == "Pure.all" && always
    case _ => false
  }

  ghost function LamTree(m: imap<Tree, Tree>): Tree {
    if forall d :: d in m then Lam(forall d :: TreeHolds(m[d]), m[Mark(false)], m[Mark(true)]) else Mark(false)
  }

  ghost function Trees(): Model<Tree> {
    Model((n: Symbol) => Leaf(n), (f: Tree, a: Tree) => Node(f, a), (m: imap<Tree, Tree>) => LamTree(m),
          (d: Tree) => TreeHolds(d))
  }

  lemma TreesRead()
    ensures Reads(Trees())
  {
    var M := Trees();
    assert !EndsWith("Pure.imp", ".eq") by {
      assert "Pure.imp"[|"Pure.imp"| - 1] == 'p' && ".eq"[2] == 'q';
    }
    forall n, a, b | IsEqName(n) ensures M.isTrue(M.app(M.app(M.con(n), a), b)) <==> a == b {
      assert n != "Pure.imp";
    }
    forall m: imap<Tree, Tree> | forall d :: d in m
      ensures M.isTrue(M.app(M.con("Pure.all"), M.lam(m))) <==> forall d :: M.isTrue(m[d])
    {
      assert M.lam(m).Lam?;
    }
  }

  lemma DenoteAbs(v: Valuation<Tree>, rho: seq<Tree>, x: Symbol, ty: Typ, b: Term)
    ensures var r := Denote(Trees(), v, rho, Abs(x, ty, b));
            && r.Lam? && r.atFalse == Denote(Trees(), v, [Mark(false)] + rho, b)
            && r.atTrue == Denote(Trees(), v, [Mark(true)] + rho, b)
  {
    var m := Fun(Trees(), v, rho, b);
    assert forall d :: d in m;
    assert Denote(Trees(), v, rho, Abs(x, ty, b)) == LamTree(m);
  }

  lemma AbsDiffers(v: Valuation<Tree>, rho: seq<Tree>, x: Symbol, ty: Typ, b: Term, c: Term)
    requires Denote(Trees(), v, [Mark(false)] + rho, b) != Denote(Trees(), v, [Mark(false)] + rho, c)
          || Denote(Trees(), v, [Mark(true)] + rho, b) != Denote(Trees(), v, [Mark(true)] + rho, c)
    ensures Denote(Trees(), v, rho, Abs(x, ty, b)) != Denote(Trees(), v, rho, Abs(x, ty, c))
  {
    DenoteAbs(v, rho, x, ty, b);
    DenoteAbs(v, rho, x, ty, c);
  }

  function Marks(side: bool, n: nat): seq<Tree> {
    seq(n, i => Mark(side))
  }

  lemma MarksIn(k: nat, n: nat)
    ensures [Mark(false)] + (Marks(false, k) + Marks(true, n)) == Marks(false, k + 1) + Marks(true, n)
  {
  }

  /** The values of an index and of the next one out differ, and the model notices where they are exchanged. */
  lemma {:induction false} IndexSeen(v: Valuation<Tree>, k: nat, n: nat, t: Term)
    requires OccursBound(k, t)
    ensures var rho := Marks(false, k + 1) + Marks(true, n + 1);
            Denote(Trees(), v, rho, t) != Denote(Trees(), v, rho, Lift(t, 0, 1))
    decreases t
  {
    var rho := Marks(false, k + 1) + Marks(true, n + 1);
    match t
    case Bound(i) => assert rho[k] == Mark(false) && rho[k + 1] == Mark(true);
    case Abs(x, ty, b) =>
      IndexSeen(v, k + 1, n, b);
      MarksIn(k + 1, n + 1);
      AbsDiffers(v, rho, x, ty, b, Lift(b, 0, 1));
    case App(f, a) => if OccursBound(k, f) { IndexSeen(v, k, n, f); } else { IndexSeen(v, k, n, a); }
    case _ =>
  }

  lemma {:induction false} LooseWithout(t: Term, k: nat)
    requires LooseBelow(t, k + 1) && !OccursBound(k, t)
    ensures LooseBelow(t, k)
    decreases t
  {
    match t
    case Abs(_, _, b) => LooseWithout(b, k + 1);
    case App(f, a) => LooseWithout(f, k); LooseWithout(a, k);
    case _ =>
  }

  lemma MarksPut(n: nat)
    ensures [Mark(false)] + Marks(true, n) == Marks(false, 1) + Marks(true, n)
    ensures [Mark(true)] + Marks(true, n) == Marks(true, n + 1)
  {
  }

  /** A lifted closed term with an index takes it for one of the next binder out, and the model notices. */
  lemma {:induction false} LiftedDiffers(v: Valuation<Tree>, n: nat, t: Term)
    requires Closed(t) && !NoBound(t)
    ensures Denote(Trees(), v, Marks(true, n + 1), t) != Denote(Trees(), v, Marks(true, n + 1), Lift(t, 0, 1))
    decreases t
  {
    var rho := Marks(true, n + 1);
    match t
    case Abs(x, ty, b) =>
      if OccursBound(0, b) {
        IndexSeen(v, 0, n, b);
      } else {
        LooseWithout(b, 0);
        LiftedDiffers(v, n + 1, b);
      }
      MarksPut(n + 1);
      AbsDiffers(v, rho, x, ty, b, Lift(b, 0, 1));
    case App(f, a) => if !NoBound(f) { LiftedDiffers(v, n, f); } else { LiftedDiffers(v, n, a); }
    case _ =>
  }

  // ---------- a run for every term with an index ----------

  /** What is the same outside is the same below a binder. */
  function CongruenceBody(t: Term, ty: Typ): Term {
    MkImplies(MkEquals(ty, Bound(0), t),
              MkEquals(Arrow(PROP, ty), Abs("z", PROP, Bound(1)), Abs("z", PROP, t)))
  }

  function Congruence(t: Term, ty: Typ): Term {
    App(Const("Pure.all", Arrow(Arrow(ty, PROP), PROP)), Abs("x", ty, CongruenceBody(t, ty)))
  }

  /** The congruence is assumed, instantiated and discharged. */
  function CongruenceInstance(t: Term, ty: Typ): Derivation {
    Unary(ByImpliesIntr(Congruence(t, ty)), Unary(ByForallElim(t), Axiom(FromAssumption(Congruence(t, ty)))))
  }

  /** What the instance says: on one side the term is lifted. */
  function LiftedBody(t: Term, ty: Typ): Term {
    MkImplies(MkEquals(ty, t, t), MkEquals(Arrow(PROP, ty), Abs("z", PROP, Lift(t, 0, 1)), Abs("z", PROP, t)))
  }

  lemma {:induction false} SubstCovered(args: seq<Term>, depth: nat, t: Term)
    requires LooseBelow(t, depth)
    ensures SubstBounds(ArgsAt(args, depth), t) == t
    decreases t
  {
    match t
    case Abs(_, _, b) => ArgsAtSucc(args, depth); SubstCovered(args, depth + 1, b);
    case App(f, a) => SubstCovered(args, depth, f); SubstCovered(args, depth, a);
    case _ =>
  }

  lemma SubstBelow(t: Term)
    requires Closed(t)
    ensures SubstBounds([t], Bound(0)) == t && SubstBounds([t], t) == t
    ensures SubstBounds([t], Abs("z", PROP, Bound(1))) == Abs("z", PROP, Lift(t, 0, 1))
    ensures SubstBounds([t], Abs("z", PROP, t)) == Abs("z", PROP, t)
  {
    ArgsAtZero([t]);
    ArgsAtSucc([t], 0);
    SubstCovered([t], 0, t);
    LooseWeaken(t, 0, 1);
    SubstCovered([t], 1, t);
    assert UnderBinder([t])[1] == Lift(t, 0, 1);
    LiftZero(Lift(t, 0, 1), 0);
    LiftZero(t, 0);
  }

  lemma SubstEquals(args: seq<Term>, ty: Typ, l: Term, r: Term)
    ensures SubstBounds(args, MkEquals(ty, l, r)) == MkEquals(ty, SubstBounds(args, l), SubstBounds(args, r))
  {
    assert SubstBounds(args, MkEquals(ty, l, r).func) == App(MkEquals(ty, l, r).func.func, SubstBounds(args, l));
  }

  lemma CongruenceSubstituted(t: Term, ty: Typ)
    requires Closed(t)
    ensures SubstBounds([t], CongruenceBody(t, ty)) == LiftedBody(t, ty)
  {
    SubstBelow(t);
    SubstEquals([t], ty, Bound(0), t);
    SubstEquals([t], Arrow(PROP, ty), Abs("z", PROP, Bound(1)), Abs("z", PROP, t));
    assert SubstBounds([t], CongruenceBody(t, ty).func) == LiftedBody(t, ty).func;
  }

  lemma CongruenceRuns(t: Term, ty: Typ)
    requires Closed(t)
    ensures Run(CongruenceInstance(t, ty)) == Some(Thm([], MkImplies(Congruence(t, ty), LiftedBody(t, ty)), []))
  {
    var c := Congruence(t, ty);
    CongruenceSubstituted(t, ty);
    assert Run(Axiom(FromAssumption(c))) == Some(Thm([c], c, []));
    assert ForallElim(t, Thm([c], c, [])) == Ok(Thm([c], LiftedBody(t, ty), []));
    TrivialHolds(c);
  }

  lemma LooseEquals(sig: Signature, k: nat, ty: Typ, l: Term, r: Term)
    requires Separated(sig) && LooseBelow(l, k) && LooseBelow(r, k) && Over(sig, l) && Over(sig, r)
    ensures LooseBelow(MkEquals(ty, l, r), k) && Over(sig, MkEquals(ty, l, r))
  {
    assert LooseBelow(MkEquals(ty, l, r).func, k) && Over(sig, MkEquals(ty, l, r).func);
  }

  lemma CongruenceFine(sig: Signature, t: Term, ty: Typ)
    requires Separated(sig) && Fine(sig, t)
    ensures Fine(sig, Congruence(t, ty))
  {
    LooseWeaken(t, 0, 1);
    LooseWeaken(t, 0, 2);
    var c, b := Congruence(t, ty), CongruenceBody(t, ty);
    var inner, outer := Abs("z", PROP, t), Abs("z", PROP, Bound(1));
    assert LooseBelow(inner, 1) && Over(sig, inner) && LooseBelow(outer, 1) && Over(sig, outer);
    LooseEquals(sig, 1, Arrow(PROP, ty), outer, inner);
    LooseEquals(sig, 1, ty, Bound(0), t);
    assert Over(sig, b.func) && LooseBelow(b.func, 1) && Over(sig, b.arg) && LooseBelow(b.arg, 1);
    assert LooseBelow(c.arg, 0) && LooseBelow(c.func, 0) && Over(sig, c.arg) && Over(sig, c.func);
  }

  lemma CongruenceHolds<D(!new)>(M: Model<D>, v: Valuation<D>, t: Term, ty: Typ)
    requires Reads(M) && Closed(t)
    ensures True(M, v, Congruence(t, ty))
  {
    TrueAll(M, v, Congruence(t, ty));
    forall d: D ensures M.isTrue(Denote(M, v, [d], CongruenceBody(t, ty))) {
      CongruenceHoldsAt(M, v, d, t, ty);
    }
  }

  lemma CongruenceHoldsAt<D(!new)>(M: Model<D>, v: Valuation<D>, d: D, t: Term, ty: Typ)
    requires Reads(M) && Closed(t)
    ensures M.isTrue(Denote(M, v, [d], CongruenceBody(t, ty)))
  {
    var b := CongruenceBody(t, ty);
    DenoteBinary(M, v, [d], b);
    DenoteBinary(M, v, [d], b.func.arg);
    DenoteBinary(M, v, [d], b.arg);
    DenoteClosed(M, v, [d], t);
    if d == Denote(M, v, [], t) {
      forall e: D ensures Denote(M, v, [e] + [d], t) == Denote(M, v, [e] + [d], Bound(1)) {
        DenoteClosed(M, v, [e] + [d], t);
      }
      assert Fun(M, v, [d], Bound(1)) == Fun(M, v, [d], t);
    }
  }

  lemma LiftedFails(v: Valuation<Tree>, t: Term, ty: Typ)
    requires Closed(t) && !NoBound(t)
    ensures !True(Trees(), v, LiftedBody(t, ty))
  {
    TreesRead();
    LiftedBelow(v, 0, [], t);
    EquationFails(Trees(), v, ty, t, Arrow(PROP, ty), Abs("z", PROP, Lift(t, 0, 1)), Abs("z", PROP, t));
  }

  lemma EquationFails<D(!new)>(M: Model<D>, v: Valuation<D>, ty1: Typ, t: Term, ty2: Typ, l: Term, r: Term)
    requires Reads(M) && Denote(M, v, [], l) != Denote(M, v, [], r)
    ensures !True(M, v, MkImplies(MkEquals(ty1, t, t), MkEquals(ty2, l, r)))
  {
    TrueImplies(M, v, MkImplies(MkEquals(ty1, t, t), MkEquals(ty2, l, r)));
    TrueEquals(M, v, MkEquals(ty1, t, t));
    TrueEquals(M, v, MkEquals(ty2, l, r));
  }

  lemma LiftedBelow(v: Valuation<Tree>, n: nat, rho: seq<Tree>, t: Term)
    requires Closed(t) && !NoBound(t) && rho == Marks(true, n)
    ensures Denote(Trees(), v, rho, Abs("z", PROP, Lift(t, 0, 1))) != Denote(Trees(), v, rho, Abs("z", PROP, t))
  {
    LiftedDiffers(v, n, t);
    MarksPut(n);
    AbsDiffers(v, rho, "z", PROP, Lift(t, 0, 1), t);
  }

  /** Every closed term with an index makes a theorem without oracles and hypotheses that is false in a model. */
  lemma IndexIsUnsound(sig: Signature, t: Term, ty: Typ) returns (d: Derivation)
    requires Separated(sig) && Fine(sig, t) && !NoBound(t)
    ensures Disciplined(sig, d) && Instances(d) == {t}
    ensures Run(d).Some? && Run(d).value.hyps == [] && Run(d).value.oracles == []
    ensures Reads(Trees()) && !Valid(Trees(), Run(d).value)
  {
    d := CongruenceInstance(t, ty);
    CongruenceRuns(t, ty);
    CongruenceFine(sig, t, ty);
    TreesRead();
    var v: Valuation<Tree> := Valuation((x: Symbol) => Leaf(x), (k: VarKey) => Leaf(k.0), Mark(false));
    CongruenceHolds(Trees(), v, t, ty);
    LiftedFails(v, t, ty);
    TrueImplies(Trees(), v, Run(d).value.prop);
    Refutes(Trees(), v, Run(d).value);
    assert Instances(d) == Instances(Unary(ByForallElim(t), Axiom(FromAssumption(Congruence(t, ty))))) == {t};
  }

  /** The derivation instantiates with these terms only. */
  ghost predicate InstantiatesWith(ts: iset<Term>, d: Derivation) {
    forall t :: t in Instances(d) ==> t in ts
  }

  /**
   Over separated name spaces, all runs without oracles that instantiate only with given closed terms make theorems true in
   the model exactly if none of the terms has an index; then they are true in every model.
   */
  lemma InstantiationExact(sig: Signature, ts: iset<Term>)
    requires Separated(sig) && forall t :: t in ts ==> Fine(sig, t)
    ensures (forall t :: t in ts ==> NoBound(t)) <==>
            forall d :: Disciplined(sig, d) && InstantiatesWith(ts, d) && Run(d).Some? && Run(d).value.oracles == [] ==>
              Valid(Trees(), Run(d).value)
  {
    TreesRead();
    if forall t :: t in ts ==> NoBound(t) {
      forall d | Disciplined(sig, d) && InstantiatesWith(ts, d) && Run(d).Some? && Run(d).value.oracles == []
        ensures Valid(Trees(), Run(d).value)
      {
        DisciplinedIsProper(sig, d);
        ProvedIsValid(Trees(), sig, d);
      }
    } else {
      var t :| t in ts && !NoBound(t);
      var d := IndexIsUnsound(sig, t, PROP);
      assert InstantiatesWith(ts, d);
    }
  }
}
