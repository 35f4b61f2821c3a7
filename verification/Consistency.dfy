/** A model of the connectives, and with it the consistency of the kernel. */
module Consistency {
  import opened Wrappers
  import opened Syntax
  import opened TermAbs
  import opened Logic
  import opened Hyps
  import opened Kernel
  import opened Semantics
  import opened Soundness

  /** Two truth values, and the partial applications of the connectives. */
  datatype Truth =
    | Yes | No
    | Imp | ImpOf(a: Truth)
    | Eq | EqOf(a: Truth)
    | All | Holds

  function TruthOf(b: bool): Truth {
    if b then Yes else No
  }

  function ApplyTruth(f: Truth, a: Truth): Truth {
    match f
    case Imp => ImpOf(a)
    case ImpOf(p) => TruthOf(p == Yes ==> a == Yes)
    case Eq => EqOf(a)
    case EqOf(b) => TruthOf(a == b)
    case All => TruthOf(a == Holds)
    case _ => No
  }

  function ConstTruth(n: Symbol): Truth {
    if n == "Pure.imp" then Imp else if n == "Pure.all" then All else if IsEqName(n) then Eq else No
  }

  ghost function LamTruth(m: imap<Truth, Truth>): Truth {
    if forall d :: d in m && m[d] == Yes then Holds else No
  }

  ghost function Witness(): Model<Truth> {
    Model((n: Symbol) => ConstTruth(n), (f: Truth, a: Truth) => ApplyTruth(f, a),
          (m: imap<Truth, Truth>) => LamTruth(m), (d: Truth) => d == Yes)
  }

  lemma WitnessReads()
    ensures Reads(Witness())
  {
    var M := Witness();
    forall n, a, b | IsEqName(n) ensures M.isTrue(M.app(M.app(M.con(n), a), b)) <==> a == b {
      assert !EndsWith("Pure.imp", ".eq") && !EndsWith("Pure.all", ".eq") by {
        assert "Pure.imp"[|"Pure.imp"| - 1] == 'p' && "Pure.all"[|"Pure.all"| - 1] == 'l' && ".eq"[2] == 'q';
      }
      assert M.con(n) == Eq;
    }
  }

  /** `!!A. A`, from which everything follows. */
  function Falsum(): Term {
    MkAll("A", PROP, Free("A", PROP))
  }

  lemma FalsumIsFalse(v: Valuation<Truth>)
    ensures !True(Witness(), v, Falsum())
  {
    WitnessReads();
    LambdaClosed(Free("A", PROP), Free("A", PROP));
    assert DestAll(Falsum()) == Some(Bound(0));
    TrueAll(Witness(), v, Falsum());
    assert Denote(Witness(), v, [No], Bound(0)) == No;
  }

  lemma ProvedInWitness(sig: Signature, d: Derivation)
    requires Separated(sig) && Proper(sig, d) && Run(d).Some? && Run(d).value.oracles == []
    ensures Valid(Witness(), Run(d).value)
  {
    WitnessReads();
    ProvedIsValid(Witness(), sig, d);
  }

  /** No proper run without oracles and open hypotheses proves falsity. */
  lemma Consistent(sig: Signature, d: Derivation)
    requires Separated(sig) && Proper(sig, d)
    requires Run(d).Some? && Run(d).value.hyps == [] && Run(d).value.oracles == []
    ensures Run(d).value.prop != Falsum()
  {
    ProvedInWitness(sig, d);
    var v: Valuation<Truth> := Valuation((n: Symbol) => No, (k: VarKey) => No, No);
    FalsumIsFalse(v);
    assert AllTrue(Witness(), v, Run(d).value.hyps);
  }

  function GeneralizedIdentity(x: Symbol): Derivation {
    Unary(ByForallIntr(x, PROP), Unary(ByImpliesIntr(Free(x, PROP)), Axiom(FromAssumption(Free(x, PROP)))))
  }

  lemma IdentityRuns(x: Symbol)
    ensures Run(GeneralizedIdentity(x)) == Some(Thm([], MkAll(x, PROP, MkImplies(Free(x, PROP), Free(x, PROP))), []))
  {
    var a := Free(x, PROP);
    TrivialHolds(a);
    assert Run(Unary(ByImpliesIntr(a), Axiom(FromAssumption(a)))) == Some(Thm([], MkImplies(a, a), []));
  }

  /** Proper runs do prove something: every proposition implies itself. */
  lemma SomethingIsProved() returns (sig: Signature, d: Derivation)
    ensures Separated(sig) && Proper(sig, d)
    ensures Run(d) == Some(Thm([], MkAll("A", PROP, MkImplies(Free("A", PROP), Free("A", PROP))), []))
  {
    sig := Signature(iset{"Pure.imp", "Pure.all", "Pure.eq"}, iset{"A"}, iset{});
    forall c | c in sig.consts ensures !CrossNames("A", c) {
      assert ("." + "A")[1] == 'A' && c[|c| - 1] != 'A';
      assert "A"[0] == 'A' && c[0] == 'P';
    }
    d := GeneralizedIdentity("A");
    IdentityRuns("A");
  }

  // ---------- why name spaces are kept apart ----------

  /** Two atoms of different kinds, and so with different denotations, that the kernel takes for one. */
  predicate Confused(a: Term, b: Term) {
    && (a.Const? || a.Free? || a.Var?) && (b.Const? || b.Free? || b.Var?)
    && (a.Const? != b.Const? || a.Free? != b.Free? || a.Var? != b.Var?)
    && AlphaEq(a, b)
  }

  /** From a confusion, discharging an assumption under the other name proves an implication without oracles. */
  function Confusion(a: Term, b: Term): Derivation {
    Unary(ByImpliesIntr(a), Axiom(FromAssumption(b)))
  }

  lemma ConfusionRuns(a: Term, b: Term)
    requires AlphaEq(b, a)
    ensures Run(Confusion(a, b)) == Some(Thm([], MkImplies(a, b), []))
  {
    assert AlphaEq([b][0], a);
    assert HypsRemove([b], a) == HypsRemove([b][1..], a) == [];
  }

  /** An implication from a variable to an atom of another kind fails where only the variable is true. */
  lemma ImplicationFails(a: Term, b: Term)
    requires (a.Free? && b.Const?) || (a.Var? && b.Free?)
    ensures Reads(Witness()) && !Valid(Witness(), Thm([], MkImplies(a, b), []))
  {
    WitnessReads();
    var v: Valuation<Truth> := if a.Free? then Valuation((n: Symbol) => Yes, (k: VarKey) => No, No)
                               else Valuation((n: Symbol) => No, (k: VarKey) => Yes, No);
    TrueImplies(Witness(), v, MkImplies(a, b));
    assert True(Witness(), v, a) && !True(Witness(), v, b);
  }

  /** Every confusion of two atoms makes a theorem without oracles and hypotheses that is false in a model. */
  lemma ConfusionIsUnsound(a: Term, b: Term) returns (d: Derivation)
    requires Confused(a, b)
    ensures d == Confusion(a, b) || d == Confusion(b, a)
    ensures Run(d).Some? && Run(d).value.hyps == [] && Run(d).value.oracles == []
    ensures Reads(Witness()) && !Valid(Witness(), Run(d).value)
  {
    AlphaEqSymmetric(a, b);
    if (a.Free? && b.Const?) || (a.Var? && b.Free?) {
      d := Confusion(a, b);
      ConfusionRuns(a, b);
      ImplicationFails(a, b);
    } else {
      d := Confusion(b, a);
      ConfusionRuns(b, a);
      ImplicationFails(b, a);
    }
  }

  /** Proper runs without oracles are sound over a signature with the connectives exactly if its name spaces are apart. */
  lemma SeparationExact(sig: Signature)
    requires "Pure.imp" in sig.consts && "Pure.all" in sig.consts && "Pure.eq" in sig.consts
    ensures Separated(sig) <==>
            forall d :: Proper(sig, d) && Run(d).Some? && Run(d).value.oracles == [] ==> Valid(Witness(), Run(d).value)
  {
    WitnessReads();
    if Separated(sig) {
      forall d | Proper(sig, d) && Run(d).Some? && Run(d).value.oracles == [] ensures Valid(Witness(), Run(d).value) {
        ProvedIsValid(Witness(), sig, d);
      }
    } else {
      var a, b := ConfusedOver(sig);
      var d := ConfusionIsUnsound(a, b);
      assert Proper(sig, d);
    }
  }

  lemma ConfusedOver(sig: Signature) returns (a: Term, b: Term)
    requires "Pure.imp" in sig.consts && "Pure.all" in sig.consts && "Pure.eq" in sig.consts && !Separated(sig)
    ensures Confused(a, b) && Fine(sig, a) && Fine(sig, b)
  {
    if c, f :| c in sig.consts && f in sig.frees && CrossNames(f, c) {
      a, b := Free(f, PROP), Const(c, PROP);
    } else {
      var n :| n in sig.frees && n in sig.vars;
      a, b := Var(n, 0, PROP), Free(n, PROP);
    }
  }
}
