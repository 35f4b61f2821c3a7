/** First-order unification of type constraints: what one step of the solver keeps, and how it ends. */
module TypeUnify {
  import opened Wrappers
  import opened Syntax
  import opened TypeResolve

  datatype Constraint = Constraint(left: Typ, right: Typ)

  /** Inference looks a variable up by its name alone. */
  const ByName: KeyOf<Symbol> := (n: Symbol, i: nat) => n

  type TypeSubst = map<Symbol, Typ>

  function ApplySubst(s: TypeSubst, t: Typ): Typ
    requires Triangular(ByName, s)
  {
    Apply(ByName, s, t)
  }

  function Vars(t: Typ): set<Symbol> {
    VarsOf(ByName, t)
  }

  predicate OccursIn(v: Symbol, t: Typ)
    ensures OccursIn(v, t) <==> v in Vars(t)
  {
    match t
    case TVar(n, _, _) => n == v
    case Type(_, args) => exists i :: 0 <= i < |args| && OccursIn(v, args[i])
    case TFree(_, _) => false
  }

  // ---------- unifiers ----------

  /** Replaces every type variable at once; an assignment gives a type to every name. */
  function Inst(theta: Symbol -> Typ, t: Typ): Typ {
    match t
    case TVar(n, _, _) => theta(n)
    case Type(n, args) => Type(n, seq(|args|, i requires 0 <= i < |args| => Inst(theta, args[i])))
    case TFree(_, _) => t
  }

  ghost predicate Unifies(theta: Symbol -> Typ, cs: seq<Constraint>) {
    forall i :: 0 <= i < |cs| ==> Inst(theta, cs[i].left) == Inst(theta, cs[i].right)
  }

  /** The assignment agrees with every binding. */
  ghost predicate Respects(theta: Symbol -> Typ, s: TypeSubst) {
    forall a :: a in s ==> theta(a) == Inst(theta, s[a])
  }

  ghost predicate Equalizes(s: TypeSubst, cs: seq<Constraint>)
    requires Triangular(ByName, s)
  {
    forall i :: 0 <= i < |cs| ==> ApplySubst(s, cs[i].left) == ApplySubst(s, cs[i].right)
  }

  ghost predicate Extends(s: TypeSubst, base: TypeSubst) {
    forall a :: a in base ==> a in s && s[a] == base[a]
  }

  /** Each variable name carries one index and one sort. */
  ghost predicate Tagged(profile: Symbol -> (nat, Sort), t: Typ) {
    match t
    case TVar(n, i, s) => profile(n) == (i, s)
    case Type(_, args) => forall i :: 0 <= i < |args| ==> Tagged(profile, args[i])
    case TFree(_, _) => true
  }

  ghost predicate TaggedInput(profile: Symbol -> (nat, Sort), s: TypeSubst, cs: seq<Constraint>) {
    && (forall a :: a in s ==> Tagged(profile, s[a]))
    && (forall i :: 0 <= i < |cs| ==> Tagged(profile, cs[i].left) && Tagged(profile, cs[i].right))
  }

  // ---------- laws of application ----------

  /** An assignment that respects the bindings factors through their application. */
  lemma {:induction false} Factors(theta: Symbol -> Typ, s: TypeSubst, t: Typ)
    requires Triangular(ByName, s) && Respects(theta, s)
    ensures Inst(theta, ApplySubst(s, t)) == Inst(theta, t)
    decreases Level(ByName, s, t), t
  {
    match t
    case TVar(n, _, _) =>
      if n in s {
        LevelOfBinding(ByName, s, t);
        Factors(theta, s, s[n]);
      }
    case Type(_, args) =>
      forall i | 0 <= i < |args| ensures Inst(theta, ApplySubst(s, args[i])) == Inst(theta, args[i]) {
        LevelOfArg(ByName, s, t, i);
        Factors(theta, s, args[i]);
      }
      assert Inst(theta, ApplySubst(s, t)).args == Inst(theta, t).args;
    case TFree(_, _) =>
  }

  lemma {:induction false} ApplyExtended(s: TypeSubst, base: TypeSubst, t: Typ)
    requires Triangular(ByName, s) && Triangular(ByName, base) && Extends(s, base)
    ensures ApplySubst(s, ApplySubst(base, t)) == ApplySubst(s, t)
    decreases Level(ByName, base, t), t
  {
    match t
    case TVar(n, _, _) =>
      if n in base {
        LevelOfBinding(ByName, base, t);
        ApplyExtended(s, base, base[n]);
      }
    case Type(_, args) =>
      forall i | 0 <= i < |args| ensures ApplySubst(s, ApplySubst(base, args[i])) == ApplySubst(s, args[i]) {
        LevelOfArg(ByName, base, t, i);
        ApplyExtended(s, base, args[i]);
      }
      assert ApplySubst(s, ApplySubst(base, t)).args == ApplySubst(s, t).args;
    case TFree(_, _) =>
  }

  lemma {:induction false} ApplyTagged(profile: Symbol -> (nat, Sort), s: TypeSubst, t: Typ)
    requires Triangular(ByName, s) && Tagged(profile, t)
    requires forall a :: a in s ==> Tagged(profile, s[a])
    ensures Tagged(profile, ApplySubst(s, t))
    decreases Level(ByName, s, t), t
  {
    match t
    case TVar(n, _, _) =>
      if n in s {
        LevelOfBinding(ByName, s, t);
        ApplyTagged(profile, s, s[n]);
      }
    case Type(_, args) =>
      forall i | 0 <= i < |args| ensures Tagged(profile, ApplySubst(s, args[i])) {
        LevelOfArg(ByName, s, t, i);
        ApplyTagged(profile, s, args[i]);
      }
    case TFree(_, _) =>
  }

  // ---------- sizes ----------

  ghost function TypSize(t: Typ): (n: nat)
    ensures n >= 1
    decreases t, 0
  {
    match t
    case Type(_, args) => 1 + SizeAll(args)
    case _ => 1
  }

  ghost function SizeAll(ts: seq<Typ>): nat
    decreases ts
  {
    if ts == [] then 0 else SizeAll(ts[..|ts| - 1]) + TypSize(ts[|ts| - 1])
  }

  lemma {:induction false} SizeOfMember(ts: seq<Typ>, i: nat)
    requires i < |ts|
    ensures TypSize(ts[i]) <= SizeAll(ts)
  {
    if i < |ts| - 1 {
      SizeOfMember(ts[..|ts| - 1], i);
    }
  }

  /** What is assigned to a variable fits inside the instance of every type that mentions it. */
  lemma {:induction false} OccursSize(theta: Symbol -> Typ, v: Symbol, t: Typ)
    requires OccursIn(v, t)
    ensures TypSize(theta(v)) <= TypSize(Inst(theta, t))
    ensures t.Type? ==> TypSize(theta(v)) < TypSize(Inst(theta, t))
  {
    match t
    case Type(_, args) =>
      var i :| 0 <= i < |args| && OccursIn(v, args[i]);
      OccursSize(theta, v, args[i]);
      assert Inst(theta, t).args[i] == Inst(theta, args[i]);
      SizeOfMember(Inst(theta, t).args, i);
    case _ =>
  }

  ghost function Cost(s: TypeSubst, c: Constraint): nat
    requires Triangular(ByName, s)
  {
    TypSize(ApplySubst(s, c.left)) + TypSize(ApplySubst(s, c.right))
  }

  ghost function Total(s: TypeSubst, cs: seq<Constraint>): nat
    requires Triangular(ByName, s)
  {
    if cs == [] then 0 else Total(s, cs[..|cs| - 1]) + Cost(s, cs[|cs| - 1])
  }

  function Zip(a: seq<Typ>, b: seq<Typ>): seq<Constraint>
    requires |a| == |b|
  {
    seq(|a|, i requires 0 <= i < |a| => Constraint(a[i], b[i]))
  }

  lemma TotalPush(s: TypeSubst, cs: seq<Constraint>, c: Constraint)
    requires Triangular(ByName, s)
    ensures Total(s, cs + [c]) == Total(s, cs) + Cost(s, c)
  {
    assert (cs + [c])[..|cs|] == cs;
  }

  lemma ZipSnoc(a: seq<Typ>, b: seq<Typ>)
    requires |a| == |b| > 0
    ensures var n := |a| - 1; Zip(a, b) == Zip(a[..n], b[..n]) + [Constraint(a[n], b[n])]
  {
  }

  /** Decomposing two applied types costs less than comparing them. */
  lemma {:induction false} ZipCost(s: TypeSubst, cs: seq<Constraint>, a: seq<Typ>, b: seq<Typ>)
    requires Triangular(ByName, s) && |a| == |b|
    requires forall i :: 0 <= i < |a| ==> ApplySubst(s, a[i]) == a[i] && ApplySubst(s, b[i]) == b[i]
    ensures Total(s, cs + Zip(a, b)) == Total(s, cs) + SizeAll(a) + SizeAll(b)
  {
    if a == [] {
      assert cs + Zip(a, b) == cs;
    } else {
      var n := |a| - 1;
      var c, shorter := Constraint(a[n], b[n]), cs + Zip(a[..n], b[..n]);
      ZipCost(s, cs, a[..n], b[..n]);
      ZipSnoc(a, b);
      assert cs + (Zip(a[..n], b[..n]) + [c]) == shorter + [c];
      TotalPush(s, shorter, c);
      assert Cost(s, c) == TypSize(a[n]) + TypSize(b[n]);
    }
  }

  lemma AppliedArgs(s: TypeSubst, u: Typ, t: Typ)
    requires Triangular(ByName, s) && t == ApplySubst(s, u) && t.Type?
    ensures forall i :: 0 <= i < |t.args| ==> ApplySubst(s, t.args[i]) == t.args[i]
  {
    ApplyIdempotent(ByName, s, u);
    assert ApplySubst(s, t).args == t.args;
  }

  /** The names a run of the solver can meet. */
  function Names(s: TypeSubst, cs: seq<Constraint>): set<Symbol> {
    s.Keys + (set a, v | a in s && v in Vars(s[a]) :: v)
           + (set i, v | 0 <= i < |cs| && v in Vars(cs[i].left) + Vars(cs[i].right) :: v)
  }

  // ---------- one step of the solver ----------

  /** All that happens to the constraints does not change which assignments solve them. */
  ghost predicate SameSolutions(base: TypeSubst, all: seq<Constraint>, s: TypeSubst, cs: seq<Constraint>) {
    forall theta: Symbol -> Typ :: Respects(theta, base) && Unifies(theta, all) ==> Respects(theta, s) && Unifies(theta, cs)
  }

  /** What is left suffices for what was asked. */
  ghost predicate Suffices(s: TypeSubst, cs: seq<Constraint>, all: seq<Constraint>) {
    forall r: TypeSubst :: Triangular(ByName, r) && Extends(r, s) && Equalizes(r, cs) ==> Equalizes(r, all)
  }

  lemma InstArgs(theta: Symbol -> Typ, t1: Typ, t2: Typ)
    requires t1.Type? && t2.Type? && t1.name == t2.name && |t1.args| == |t2.args|
    ensures Inst(theta, t1) == Inst(theta, t2) <==> Unifies(theta, Zip(t1.args, t2.args))
  {
    var z := Zip(t1.args, t2.args);
    if Inst(theta, t1) == Inst(theta, t2) {
      forall i | 0 <= i < |z| ensures Inst(theta, z[i].left) == Inst(theta, z[i].right) {
        assert Inst(theta, t1).args[i] == Inst(theta, t2).args[i];
      }
    }
    if Unifies(theta, z) {
      forall i | 0 <= i < |t1.args| ensures Inst(theta, t1.args[i]) == Inst(theta, t2.args[i]) {
        assert Inst(theta, z[i].left) == Inst(theta, z[i].right);
      }
      assert Inst(theta, t1).args == Inst(theta, t2).args;
    }
  }

  lemma ApplyArgs(s: TypeSubst, t1: Typ, t2: Typ)
    requires Triangular(ByName, s)
    requires t1.Type? && t2.Type? && t1.name == t2.name && |t1.args| == |t2.args|
    requires Equalizes(s, Zip(t1.args, t2.args))
    ensures ApplySubst(s, t1) == ApplySubst(s, t2)
  {
    var z := Zip(t1.args, t2.args);
    forall i | 0 <= i < |t1.args| ensures ApplySubst(s, t1.args[i]) == ApplySubst(s, t2.args[i]) {
      assert ApplySubst(s, z[i].left) == ApplySubst(s, z[i].right);
    }
    assert ApplySubst(s, t1).args == ApplySubst(s, t2).args;
  }

  /** Two applied types that the solver rejects have no common instance, unless they are one name with two tags. */
  lemma RejectedHaveNoInstance(theta: Symbol -> Typ, t1: Typ, t2: Typ)
    requires t1 != t2
    requires (t1.TVar? && OccursIn(t1.name, t2)) || (t2.TVar? && OccursIn(t2.name, t1))
      || (!t1.TVar? && !t2.TVar? && !(t1.Type? && t2.Type? && t1.name == t2.name && |t1.args| == |t2.args|))
    requires !(t1.TVar? && t2.TVar? && t1.name == t2.name)
    ensures Inst(theta, t1) != Inst(theta, t2)
  {
    if t1.TVar? && OccursIn(t1.name, t2) {
      OccursSize(theta, t1.name, t2);
    } else if t2.TVar? && OccursIn(t2.name, t1) {
      OccursSize(theta, t2.name, t1);
    } else if t1.Type? && t2.Type? {
      assert Inst(theta, t1).name == t1.name && |Inst(theta, t1).args| == |t1.args|;
    }
  }

  lemma DecomposeSuffices(s: TypeSubst, cs: seq<Constraint>, c: Constraint, t1: Typ, t2: Typ)
    requires Triangular(ByName, s) && t1 == ApplySubst(s, c.left) && t2 == ApplySubst(s, c.right)
    requires t1.Type? && t2.Type? && t1.name == t2.name && |t1.args| == |t2.args|
    ensures Suffices(s, cs + Zip(t1.args, t2.args), cs + [c])
    ensures forall theta: Symbol -> Typ :: Respects(theta, s) && Unifies(theta, cs + [c]) ==>
              Unifies(theta, cs + Zip(t1.args, t2.args))
  {
    var z := Zip(t1.args, t2.args);
    forall r: TypeSubst | Triangular(ByName, r) && Extends(r, s) && Equalizes(r, cs + z)
      ensures Equalizes(r, cs + [c])
    {
      forall i | 0 <= i < |cs| ensures ApplySubst(r, cs[i].left) == ApplySubst(r, cs[i].right) {
        assert (cs + z)[i] == cs[i];
      }
      forall i | 0 <= i < |z| ensures ApplySubst(r, z[i].left) == ApplySubst(r, z[i].right) {
        assert (cs + z)[|cs| + i] == z[i];
      }
      ApplyArgs(r, t1, t2);
      ApplyExtended(r, s, c.left);
      ApplyExtended(r, s, c.right);
    }
    forall theta: Symbol -> Typ | Respects(theta, s) && Unifies(theta, cs + [c]) ensures Unifies(theta, cs + z) {
      assert (cs + [c])[|cs|] == c;
      Factors(theta, s, c.left);
      Factors(theta, s, c.right);
      InstArgs(theta, t1, t2);
      forall i | 0 <= i < |cs + z| ensures Inst(theta, (cs + z)[i].left) == Inst(theta, (cs + z)[i].right) {
        if i < |cs| { assert (cs + [c])[i] == cs[i]; }
      }
    }
  }

  lemma BindSuffices(s: TypeSubst, cs: seq<Constraint>, c: Constraint, v: Typ, t: Typ)
    requires Triangular(ByName, s)
    requires (v, t) == (ApplySubst(s, c.left), ApplySubst(s, c.right))
      || (t, v) == (ApplySubst(s, c.left), ApplySubst(s, c.right))
    requires v.TVar? && !OccursIn(v.name, t)
    ensures v.name !in s && Triangular(ByName, s[v.name := t])
    ensures Suffices(s[v.name := t], cs, cs + [c])
    ensures forall theta: Symbol -> Typ :: Respects(theta, s) && Unifies(theta, cs + [c]) ==>
              Respects(theta, s[v.name := t]) && Unifies(theta, cs)
  {
    var u := if v == ApplySubst(s, c.left) then c.left else c.right;
    ApplyVars(ByName, s, c.left);
    ApplyVars(ByName, s, c.right);
    assert v.name in Vars(v);
    BindKeepsTriangular(ByName, s, v.name, t);
    var s' := s[v.name := t];
    forall r: TypeSubst | Triangular(ByName, r) && Extends(r, s') && Equalizes(r, cs) ensures Equalizes(r, cs + [c]) {
      assert Extends(r, s) by {
        forall a | a in s ensures a in r && r[a] == s[a] { assert a in s' && s'[a] == s[a]; }
      }
      ApplyExtended(r, s, c.left);
      ApplyExtended(r, s, c.right);
      assert r[v.name] == s'[v.name] == t;
      assert ApplySubst(r, v) == ApplySubst(r, t);
    }
    forall theta: Symbol -> Typ | Respects(theta, s) && Unifies(theta, cs + [c])
      ensures Respects(theta, s') && Unifies(theta, cs)
    {
      assert (cs + [c])[|cs|] == c;
      Factors(theta, s, c.left);
      Factors(theta, s, c.right);
      assert Inst(theta, v) == theta(v.name);
      forall i | 0 <= i < |cs| ensures Inst(theta, cs[i].left) == Inst(theta, cs[i].right) {
        assert (cs + [c])[i] == cs[i];
      }
    }
  }

  /** Nothing an assignment could do solves the constraints within the bindings. */
  ghost predicate Unsolvable(s: TypeSubst, cs: seq<Constraint>) {
    forall theta: Symbol -> Typ :: !(Respects(theta, s) && Unifies(theta, cs))
  }

  /** What one step keeps, whatever happened before. */
  ghost predicate StepKeeps(s: TypeSubst, cs: seq<Constraint>, s': TypeSubst, cs': seq<Constraint>) {
    && Triangular(ByName, s') && Extends(s', s)
    && Suffices(s', cs', cs)
    && (forall theta: Symbol -> Typ :: Respects(theta, s) && Unifies(theta, cs) ==>
          Respects(theta, s') && Unifies(theta, cs'))
    && (forall profile: Symbol -> (nat, Sort) :: TaggedInput(profile, s, cs) ==> TaggedInput(profile, s', cs'))
    && Names(s', cs') <= Names(s, cs)
  }

  /** What every state of a run keeps, relative to where the run began. */
  ghost predicate Invariant(base: TypeSubst, all: seq<Constraint>, s: TypeSubst, cs: seq<Constraint>) {
    Triangular(ByName, base) && StepKeeps(base, all, s, cs)
  }

  lemma InvariantStep(base: TypeSubst, all: seq<Constraint>,
                      s: TypeSubst, cs: seq<Constraint>, s': TypeSubst, cs': seq<Constraint>)
    requires Invariant(base, all, s, cs) && StepKeeps(s, cs, s', cs')
    ensures Invariant(base, all, s', cs')
  {
    forall r: TypeSubst | Triangular(ByName, r) && Extends(r, s') && Equalizes(r, cs') ensures Equalizes(r, all) {
      assert Extends(r, s) by {
        forall a | a in s ensures a in r && r[a] == s[a] { assert a in s' && s'[a] == s[a]; }
      }
      assert Equalizes(r, cs);
    }
    assert Extends(s', base) by {
      forall a | a in base ensures a in s' && s'[a] == base[a] { assert a in s && s[a] == base[a]; }
    }
  }

  /** The state gets closer to an end: fewer unbound names, or as many and a smaller total size. */
  ghost predicate Closer(s: TypeSubst, cs: seq<Constraint>, s': TypeSubst, cs': seq<Constraint>)
    requires Triangular(ByName, s) && Triangular(ByName, s')
  {
    (exists a :: a in Names(s, cs) && a in s' && a !in s) || (s' == s && Total(s, cs') < Total(s, cs))
  }

  lemma SkipStep(s: TypeSubst, front: seq<Constraint>, c: Constraint)
    requires Triangular(ByName, s) && ApplySubst(s, c.left) == ApplySubst(s, c.right)
    ensures StepKeeps(s, front + [c], s, front) && Closer(s, front + [c], s, front)
  {
    var cs := front + [c];
    assert cs[..|cs| - 1] == front && forall i :: 0 <= i < |front| ==> cs[i] == front[i];
    forall r: TypeSubst | Triangular(ByName, r) && Extends(r, s) && Equalizes(r, front) ensures Equalizes(r, cs) {
      ApplyExtended(r, s, c.left);
      ApplyExtended(r, s, c.right);
    }
  }

  ghost predicate Decomposable(s: TypeSubst, c: Constraint)
    requires Triangular(ByName, s)
  {
    var t1, t2 := ApplySubst(s, c.left), ApplySubst(s, c.right);
    t1.Type? && t2.Type? && t1.name == t2.name && |t1.args| == |t2.args|
  }

  lemma DecomposeStep(s: TypeSubst, front: seq<Constraint>, c: Constraint)
    requires Triangular(ByName, s) && Decomposable(s, c)
    ensures var z := Zip(ApplySubst(s, c.left).args, ApplySubst(s, c.right).args);
            StepKeeps(s, front + [c], s, front + z) && Closer(s, front + [c], s, front + z)
  {
    var t1, t2 := ApplySubst(s, c.left), ApplySubst(s, c.right);
    var cs, z := front + [c], Zip(t1.args, t2.args);
    DecomposeSuffices(s, front, c, t1, t2);
    AppliedArgs(s, c.left, t1);
    AppliedArgs(s, c.right, t2);
    ZipCost(s, front, t1.args, t2.args);
    assert cs[..|cs| - 1] == front && cs[|cs| - 1] == c;
    forall profile: Symbol -> (nat, Sort) | TaggedInput(profile, s, cs) ensures TaggedInput(profile, s, front + z) {
      ApplyTagged(profile, s, c.left);
      ApplyTagged(profile, s, c.right);
      assert forall i :: 0 <= i < |front| ==> cs[i] == front[i];
    }
    DecomposeNames(s, front, c);
  }

  lemma AppliedNames(s: TypeSubst, cs: seq<Constraint>, c: Constraint)
    requires Triangular(ByName, s) && c in cs
    ensures Vars(ApplySubst(s, c.left)) + Vars(ApplySubst(s, c.right)) <= Names(s, cs)
  {
    var i :| 0 <= i < |cs| && cs[i] == c;
    ApplyVars(ByName, s, c.left);
    ApplyVars(ByName, s, c.right);
    forall n | n in Vars(ApplySubst(s, c.left)) + Vars(ApplySubst(s, c.right)) ensures n in Names(s, cs) {
      if !exists a :: a in s && n in Vars(s[a]) {
        assert n in Vars(cs[i].left) + Vars(cs[i].right);
      }
    }
  }

  lemma DecomposeNames(s: TypeSubst, front: seq<Constraint>, c: Constraint)
    requires Triangular(ByName, s) && Decomposable(s, c)
    ensures Names(s, front + Zip(ApplySubst(s, c.left).args, ApplySubst(s, c.right).args)) <= Names(s, front + [c])
  {
    var t1, t2 := ApplySubst(s, c.left), ApplySubst(s, c.right);
    var cs, ds := front + [c], front + Zip(t1.args, t2.args);
    AppliedNames(s, cs, c);
    forall n | n in Names(s, ds) ensures n in Names(s, cs) {
      if n !in s && !exists a :: a in s && n in Vars(s[a]) {
        var i :| 0 <= i < |ds| && n in Vars(ds[i].left) + Vars(ds[i].right);
        if i < |front| {
          assert cs[i] == ds[i];
        } else {
          assert n in Vars(t1) + Vars(t2);
        }
      }
    }
  }

  lemma BindStep(s: TypeSubst, front: seq<Constraint>, c: Constraint, v: Typ, t: Typ)
    requires Triangular(ByName, s)
    requires (v, t) == (ApplySubst(s, c.left), ApplySubst(s, c.right))
      || (t, v) == (ApplySubst(s, c.left), ApplySubst(s, c.right))
    requires v.TVar? && !OccursIn(v.name, t)
    ensures StepKeeps(s, front + [c], s[v.name := t], front)
    ensures Closer(s, front + [c], s[v.name := t], front)
  {
    var cs := front + [c];
    assert cs[|front|] == c;
    BindSuffices(s, front, c, v, t);
    BindNames(s, front, c, v, t);
    forall profile: Symbol -> (nat, Sort) | TaggedInput(profile, s, cs)
      ensures TaggedInput(profile, s[v.name := t], front)
    {
      BindTagged(profile, s, front, c, v, t);
    }
  }

  lemma BindTagged(profile: Symbol -> (nat, Sort), s: TypeSubst, front: seq<Constraint>, c: Constraint, v: Typ, t: Typ)
    requires Triangular(ByName, s) && TaggedInput(profile, s, front + [c])
    requires (v, t) == (ApplySubst(s, c.left), ApplySubst(s, c.right))
      || (t, v) == (ApplySubst(s, c.left), ApplySubst(s, c.right))
    requires v.TVar?
    ensures TaggedInput(profile, s[v.name := t], front)
  {
    var cs := front + [c];
    assert cs[|front|] == c;
    ApplyTagged(profile, s, c.left);
    ApplyTagged(profile, s, c.right);
    assert forall i :: 0 <= i < |front| ==> cs[i] == front[i];
  }

  lemma BindNames(s: TypeSubst, front: seq<Constraint>, c: Constraint, v: Typ, t: Typ)
    requires Triangular(ByName, s)
    requires (v, t) == (ApplySubst(s, c.left), ApplySubst(s, c.right))
      || (t, v) == (ApplySubst(s, c.left), ApplySubst(s, c.right))
    requires v.TVar?
    ensures v.name in Names(s, front + [c])
    ensures Names(s[v.name := t], front) <= Names(s, front + [c])
  {
    var cs, s' := front + [c], s[v.name := t];
    assert cs[|front|] == c;
    AppliedNames(s, cs, c);
    assert v.name in Vars(v);
    forall n | n in Names(s', front) ensures n in Names(s, cs) {
      if n in s'.Keys {
      } else if exists a :: a in s' && n in Vars(s'[a]) {
        var a :| a in s' && n in Vars(s'[a]);
        if a == v.name { assert n in Vars(t); } else { assert s'[a] == s[a]; }
      } else {
        var i :| 0 <= i < |front| && n in Vars(front[i].left) + Vars(front[i].right);
        assert cs[i] == front[i];
      }
    }
  }

  lemma FailStep(base: TypeSubst, all: seq<Constraint>, s: TypeSubst, front: seq<Constraint>, c: Constraint)
    requires Invariant(base, all, s, front + [c])
    requires var t1, t2 := ApplySubst(s, c.left), ApplySubst(s, c.right);
             && t1 != t2
             && ((t1.TVar? && OccursIn(t1.name, t2)) || (t2.TVar? && OccursIn(t2.name, t1))
                 || (!t1.TVar? && !t2.TVar?
                     && !(t1.Type? && t2.Type? && t1.name == t2.name && |t1.args| == |t2.args|)))
    ensures forall profile: Symbol -> (nat, Sort) :: TaggedInput(profile, base, all) ==> Unsolvable(base, all)
  {
    var cs := front + [c];
    var t1, t2 := ApplySubst(s, c.left), ApplySubst(s, c.right);
    assert cs[|front|] == c;
    forall profile: Symbol -> (nat, Sort) | TaggedInput(profile, base, all) ensures Unsolvable(base, all) {
      assert TaggedInput(profile, s, cs);
      ApplyTagged(profile, s, c.left);
      ApplyTagged(profile, s, c.right);
      forall theta: Symbol -> Typ ensures !(Respects(theta, base) && Unifies(theta, all)) {
        if Respects(theta, base) && Unifies(theta, all) {
          assert Unifies(theta, cs);
          Factors(theta, s, c.left);
          Factors(theta, s, c.right);
          RejectedHaveNoInstance(theta, t1, t2);
        }
      }
    }
  }

  /** An assignment of the unbound names, carried on to the bound ones. */
  ghost function Completed(rho: Symbol -> Typ, s: TypeSubst): Symbol -> Typ
    requires Triangular(ByName, s)
  {
    (a: Symbol) => if Triangular(ByName, s) && a in s then Inst(rho, ApplySubst(s, s[a])) else rho(a)
  }

  lemma {:induction false} CompletedIsApply(rho: Symbol -> Typ, s: TypeSubst, t: Typ)
    requires Triangular(ByName, s)
    ensures Inst(Completed(rho, s), t) == Inst(rho, ApplySubst(s, t))
    decreases t
  {
    match t
    case TVar(_, _, _) =>
    case Type(_, args) =>
      forall i | 0 <= i < |args| ensures Inst(Completed(rho, s), args[i]) == Inst(rho, ApplySubst(s, args[i])) {
        CompletedIsApply(rho, s, args[i]);
      }
      assert Inst(Completed(rho, s), t).args == Inst(rho, ApplySubst(s, t)).args;
    case TFree(_, _) =>
  }

  lemma CompletedRespects(rho: Symbol -> Typ, s: TypeSubst)
    requires Triangular(ByName, s)
    ensures Respects(Completed(rho, s), s)
  {
    forall a | a in s ensures Completed(rho, s)(a) == Inst(Completed(rho, s), s[a]) {
      CompletedIsApply(rho, s, s[a]);
    }
  }

  /** Bindings that make every constraint an equation carry every assignment of the unbound names on to a solution. */
  lemma SolvedIsSolvable(rho: Symbol -> Typ, s: TypeSubst, cs: seq<Constraint>)
    requires Triangular(ByName, s) && Equalizes(s, cs)
    ensures Respects(Completed(rho, s), s) && Unifies(Completed(rho, s), cs)
    ensures forall a :: a !in s ==> Completed(rho, s)(a) == rho(a)
  {
    CompletedRespects(rho, s);
    forall i | 0 <= i < |cs|
      ensures Inst(Completed(rho, s), cs[i].left) == Inst(Completed(rho, s), cs[i].right)
    {
      CompletedIsApply(rho, s, cs[i].left);
      CompletedIsApply(rho, s, cs[i].right);
    }
  }

  // ---------- the whole run ----------

  lemma StepDecreases(s: TypeSubst, cs: seq<Constraint>, s': TypeSubst, cs': seq<Constraint>)
    requires Triangular(ByName, s) && StepKeeps(s, cs, s', cs') && Closer(s, cs, s', cs')
    ensures var now, next := |Names(s, cs) - s.Keys|, |Names(s', cs') - s'.Keys|;
            next < now || (next <= now && Total(s', cs') < Total(s, cs))
  {
    var now, next := Names(s, cs) - s.Keys, Names(s', cs') - s'.Keys;
    assert s.Keys <= s'.Keys by {
      forall a | a in s ensures a in s' { assert s'[a] == s[a]; }
    }
    assert now == next + (now - next);
    if s' != s {
      var a :| a in Names(s, cs) && a in s' && a !in s;
      assert a in now - next;
    }
  }

  /** The bindings a run of the solver ends with, or nothing if it fails. The last constraint is solved first. */
  ghost function Solving(s: TypeSubst, cs: seq<Constraint>): Option<TypeSubst>
    requires Triangular(ByName, s)
    decreases |Names(s, cs) - s.Keys|, Total(s, cs)
  {
    if cs == [] then Some(s)
    else
      var c, front := cs[|cs| - 1], cs[..|cs| - 1];
      var t1, t2 := ApplySubst(s, c.left), ApplySubst(s, c.right);
      assert cs == front + [c];
      if t1 == t2 then
        SkipStep(s, front, c);
        StepDecreases(s, cs, s, front);
        Solving(s, front)
      else if Decomposable(s, c) then
        DecomposeStep(s, front, c);
        StepDecreases(s, cs, s, front + Zip(t1.args, t2.args));
        Solving(s, front + Zip(t1.args, t2.args))
      else if t1.TVar? then
        if OccursIn(t1.name, t2) then None
        else
          BindStep(s, front, c, t1, t2);
          StepDecreases(s, cs, s[t1.name := t2], front);
          Solving(s[t1.name := t2], front)
      else if t2.TVar? then
        if OccursIn(t2.name, t1) then None
        else
          BindStep(s, front, c, t2, t1);
          StepDecreases(s, cs, s[t2.name := t1], front);
          Solving(s[t2.name := t1], front)
      else None
  }

  /** The next state of a run, if it does not end here. */
  ghost predicate Continues(s: TypeSubst, cs: seq<Constraint>, s': TypeSubst, cs': seq<Constraint>) {
    Triangular(ByName, s) && StepKeeps(s, cs, s', cs') && Closer(s, cs, s', cs') && Solving(s, cs) == Solving(s', cs')
  }

  /** The same run goes on from bindings that extend the ones before, with less left to do. */
  ghost predicate Advances(s: TypeSubst, cs: seq<Constraint>, s': TypeSubst, cs': seq<Constraint>) {
    && Triangular(ByName, s) && Triangular(ByName, s') && Extends(s', s) && Solving(s, cs) == Solving(s', cs')
    && var now, next := |Names(s, cs) - s.Keys|, |Names(s', cs') - s'.Keys|;
       next < now || (next <= now && Total(s', cs') < Total(s, cs))
  }

  lemma ContinuesAdvances(s: TypeSubst, cs: seq<Constraint>, s': TypeSubst, cs': seq<Constraint>)
    requires Continues(s, cs, s', cs')
    ensures Advances(s, cs, s', cs')
  {
    StepDecreases(s, cs, s', cs');
  }

  ghost predicate Stuck(s: TypeSubst, front: seq<Constraint>, c: Constraint)
    requires Triangular(ByName, s)
  {
    var t1, t2 := ApplySubst(s, c.left), ApplySubst(s, c.right);
    && t1 != t2
    && ((t1.TVar? && OccursIn(t1.name, t2)) || (t2.TVar? && OccursIn(t2.name, t1))
        || (!t1.TVar? && !t2.TVar? && !Decomposable(s, c)))
  }

  lemma SkipRuns(s: TypeSubst, front: seq<Constraint>, c: Constraint)
    requires Triangular(ByName, s) && ApplySubst(s, c.left) == ApplySubst(s, c.right)
    ensures Continues(s, front + [c], s, front)
  {
    assert (front + [c])[..|front|] == front;
    SkipStep(s, front, c);
  }

  lemma DecomposeRuns(s: TypeSubst, front: seq<Constraint>, c: Constraint)
    requires Triangular(ByName, s) && ApplySubst(s, c.left) != ApplySubst(s, c.right) && Decomposable(s, c)
    ensures Continues(s, front + [c], s, front + Zip(ApplySubst(s, c.left).args, ApplySubst(s, c.right).args))
  {
    assert (front + [c])[..|front|] == front;
    DecomposeStep(s, front, c);
  }

  /** The variable on the left is bound if there is one, and else the one on the right. */
  lemma BindRuns(s: TypeSubst, front: seq<Constraint>, c: Constraint, v: Typ, t: Typ)
    requires Triangular(ByName, s) && v.TVar? && v != t && !OccursIn(v.name, t)
    requires (v, t) == (ApplySubst(s, c.left), ApplySubst(s, c.right))
      || (!t.TVar? && (t, v) == (ApplySubst(s, c.left), ApplySubst(s, c.right)))
    ensures Continues(s, front + [c], s[v.name := t], front)
  {
    assert (front + [c])[..|front|] == front;
    BindStep(s, front, c, v, t);
  }

  lemma StuckFails(s: TypeSubst, front: seq<Constraint>, c: Constraint)
    requires Triangular(ByName, s) && Stuck(s, front, c)
    ensures Solving(s, front + [c]).None?
  {
    assert (front + [c])[..|front|] == front;
  }

  /** A run either stops at its last constraint or goes on from a state that keeps the solutions. */
  lemma SolvingStep(s: TypeSubst, front: seq<Constraint>, c: Constraint)
    returns (next: Option<(TypeSubst, seq<Constraint>)>)
    requires Triangular(ByName, s)
    ensures next.None? ==> Solving(s, front + [c]).None? && Stuck(s, front, c)
    ensures next.Some? ==> Continues(s, front + [c], next.value.0, next.value.1)
  {
    var t1, t2 := ApplySubst(s, c.left), ApplySubst(s, c.right);
    if t1 == t2 {
      SkipRuns(s, front, c);
      next := Some((s, front));
    } else if Decomposable(s, c) {
      DecomposeRuns(s, front, c);
      next := Some((s, front + Zip(t1.args, t2.args)));
    } else if t1.TVar? && !OccursIn(t1.name, t2) {
      BindRuns(s, front, c, t1, t2);
      next := Some((s[t1.name := t2], front));
    } else if !t1.TVar? && t2.TVar? && !OccursIn(t2.name, t1) {
      BindRuns(s, front, c, t2, t1);
      next := Some((s[t2.name := t1], front));
    } else {
      StuckFails(s, front, c);
      next := None;
    }
  }

  lemma LastApart(cs: seq<Constraint>)
    requires cs != []
    ensures cs == cs[..|cs| - 1] + [cs[|cs| - 1]]
  {
  }

  lemma ExtendsTransitive(r: TypeSubst, s: TypeSubst, base: TypeSubst)
    requires Extends(r, s) && Extends(s, base)
    ensures Extends(r, base)
  {
    forall a | a in base ensures a in r && r[a] == base[a] {
      assert a in s && s[a] == base[a];
    }
  }

  lemma StepKeepsItself(s: TypeSubst, cs: seq<Constraint>)
    requires Triangular(ByName, s)
    ensures Invariant(s, cs, s, cs)
  {
  }

  /** A run ends in bindings that equalise the constraints and lose no solution, or the input has none. */
  lemma {:induction false} SolvingKeeps(s: TypeSubst, cs: seq<Constraint>)
    requires Triangular(ByName, s)
    ensures Solving(s, cs).Some? ==> StepKeeps(s, cs, Solving(s, cs).value, [])
    ensures Solving(s, cs).None? ==>
              forall profile: Symbol -> (nat, Sort) :: TaggedInput(profile, s, cs) ==> Unsolvable(s, cs)
    decreases |Names(s, cs) - s.Keys|, Total(s, cs)
  {
    StepKeepsItself(s, cs);
    if cs != [] {
      var c, front := cs[|cs| - 1], cs[..|cs| - 1];
      assert cs == front + [c];
      var next := SolvingStep(s, front, c);
      if next.None? {
        FailStep(s, cs, s, front, c);
      } else {
        var (s', cs') := next.value;
        StepDecreases(s, cs, s', cs');
        SolvingKeeps(s', cs');
        if Solving(s', cs').Some? {
          InvariantStep(s, cs, s', cs', Solving(s', cs').value, []);
        } else {
          forall profile: Symbol -> (nat, Sort) | TaggedInput(profile, s, cs) ensures Unsolvable(s, cs) {
            assert TaggedInput(profile, s', cs');
          }
        }
      }
    }
  }

  // ---------- for which variables the solver is complete ----------

  type Tag = (Symbol, nat, Sort)

  /** Every variable of the type is one of these. */
  ghost predicate Among(tags: iset<Tag>, t: Typ) {
    match t
    case TVar(n, i, s) => (n, i, s) in tags
    case Type(_, args) => forall i :: 0 <= i < |args| ==> Among(tags, args[i])
    case TFree(_, _) => true
  }

  ghost predicate AllAmong(tags: iset<Tag>, cs: seq<Constraint>) {
    forall i :: 0 <= i < |cs| ==> Among(tags, cs[i].left) && Among(tags, cs[i].right)
  }

  ghost predicate OneTagEach(tags: iset<Tag>) {
    forall a, b :: a in tags && b in tags && a.0 == b.0 ==> a == b
  }

  ghost predicate Complete(tags: iset<Tag>) {
    Triangular(ByName, map[]) &&
    forall cs: seq<Constraint> :: AllAmong(tags, cs) && Solving(map[], cs).None? ==>
      forall theta: Symbol -> Typ :: !Unifies(theta, cs)
  }

  lemma NoBindings()
    ensures Triangular(ByName, map[])
  {
    var rank: Symbol -> nat := (v: Symbol) => 0;
    assert Graph.Ranked(Edges(ByName, map[]), rank);
  }

  /** One name with two tags: every assignment solves the equation, the solver rejects it. */
  lemma TwoTagsAreRejected(n: Symbol, i: nat, s: Sort, j: nat, u: Sort)
    requires (i, s) != (j, u)
    ensures Triangular(ByName, map[])
    ensures var cs := [Constraint(TVar(n, i, s), TVar(n, j, u))];
            Solving(map[], cs).None? && forall theta: Symbol -> Typ :: Unifies(theta, cs)
  {
    NoBindings();
    var c := Constraint(TVar(n, i, s), TVar(n, j, u));
    assert [c][|[c]| - 1] == c;
    assert ApplySubst(map[], c.left) == c.left && ApplySubst(map[], c.right) == c.right;
    assert n in Vars(c.right);
  }

  lemma {:induction false} AmongIsTagged(tags: iset<Tag>, profile: Symbol -> (nat, Sort), t: Typ)
    requires Among(tags, t) && forall a :: a in tags ==> profile(a.0) == (a.1, a.2)
    ensures Tagged(profile, t)
  {
    match t
    case Type(_, args) =>
      forall i | 0 <= i < |args| ensures Tagged(profile, args[i]) { AmongIsTagged(tags, profile, args[i]); }
    case TVar(n, i, s) => assert (n, i, s) in tags;
    case TFree(_, _) =>
  }

  /** The solver is complete for the constraints over a set of variables exactly if no name in it has two tags. */
  lemma CompleteExact(tags: iset<Tag>)
    ensures Complete(tags) <==> OneTagEach(tags)
  {
    NoBindings();
    if OneTagEach(tags) {
      var profile: Symbol -> (nat, Sort) := (n: Symbol) =>
        if exists i, s :: (n, i, s) in tags then var i, s :| (n, i, s) in tags; (i, s) else (0, TOP_SORT);
      forall a | a in tags ensures profile(a.0) == (a.1, a.2) {
        assert (a.0, a.1, a.2) in tags;
      }
      forall cs: seq<Constraint> | AllAmong(tags, cs) && Solving(map[], cs).None?
        ensures forall theta: Symbol -> Typ :: !Unifies(theta, cs)
      {
        forall i | 0 <= i < |cs| ensures Tagged(profile, cs[i].left) && Tagged(profile, cs[i].right) {
          AmongIsTagged(tags, profile, cs[i].left);
          AmongIsTagged(tags, profile, cs[i].right);
        }
        SolvingKeeps(map[], cs);
        assert TaggedInput(profile, map[], cs);
        forall theta: Symbol -> Typ ensures !Unifies(theta, cs) {
          assert Respects(theta, map[]);
        }
      }
    } else {
      var a, b :| a in tags && b in tags && a.0 == b.0 && a != b;
      TwoTagsAreRejected(a.0, a.1, a.2, b.1, b.2);
      var cs := [Constraint(TVar(a.0, a.1, a.2), TVar(a.0, b.1, b.2))];
      assert (a.0, a.1, a.2) == a && (a.0, b.1, b.2) == b;
      assert AllAmong(tags, cs);
      assert Unifies((n: Symbol) => DUMMY, cs);
    }
  }
}
