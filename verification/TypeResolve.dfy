/**
 Triangular type substitutions: bindings may mention other bound variables, and application dereferences them.
 Type inference looks variables up by name alone, unification environments by name and index; both are instances of
 one application function, parameterised by the key of a variable.
 */
module TypeResolve {
  import opened Syntax
  import opened Graph

  type KeyOf<!K> = (Symbol, nat) -> K

  /** The variables of a type, as keys. */
  function VarsOf<K(!new, ==)>(key: KeyOf<K>, t: Typ): set<K> {
    match t
    case TVar(n, i, _) => {key(n, i)}
    case TFree(_, _) => {}
    case Type(_, args) => set i, k | 0 <= i < |args| && k in VarsOf(key, args[i]) :: k
  }

  ghost function Edges<K(!new)>(key: KeyOf<K>, m: map<K, Typ>): map<K, set<K>> {
    map k | k in m :: VarsOf(key, m[k])
  }

  /** No variable is bound, directly or through other bindings, to a type that mentions it. */
  ghost predicate Triangular<K(!new)>(key: KeyOf<K>, m: map<K, Typ>) {
    HasRank(Edges(key, m))
  }

  ghost function RankOf<K(!new)>(key: KeyOf<K>, m: map<K, Typ>): (rank: K -> nat)
    requires Triangular(key, m)
    ensures Ranked(Edges(key, m), rank)
  {
    var rank: K -> nat :| Ranked(Edges(key, m), rank);
    rank
  }

  /** A bound on the depth of dereferencing a type needs. */
  ghost function Level<K(!new)>(key: KeyOf<K>, m: map<K, Typ>, t: Typ): nat
    requires Triangular(key, m)
  {
    Highest(RankOf(key, m), VarsOf(key, t))
  }

  lemma LevelOfBinding<K(!new)>(key: KeyOf<K>, m: map<K, Typ>, t: Typ)
    requires Triangular(key, m) && t.TVar? && key(t.name, t.index) in m
    ensures Level(key, m, m[key(t.name, t.index)]) < Level(key, m, t)
  {
    var k := key(t.name, t.index);
    assert Edges(key, m)[k] == VarsOf(key, m[k]);
  }

  lemma LevelOfArg<K(!new)>(key: KeyOf<K>, m: map<K, Typ>, t: Typ, i: nat)
    requires Triangular(key, m) && t.Type? && i < |t.args|
    ensures VarsOf(key, t.args[i]) <= VarsOf(key, t)
    ensures Level(key, m, t.args[i]) <= Level(key, m, t)
  {
  }

  /** Dereferences every bound variable, repeatedly. */
  function Apply<K(!new, ==)>(key: KeyOf<K>, m: map<K, Typ>, t: Typ): Typ
    requires Triangular(key, m)
    decreases Level(key, m, t), t
  {
    match t
    case TVar(n, i, _) =>
      if key(n, i) in m then
        LevelOfBinding(key, m, t);
        Apply(key, m, m[key(n, i)])
      else t
    case Type(n, args) =>
      Type(n, seq(|args|, i requires 0 <= i < |args| => LevelOfArg(key, m, t, i); Apply(key, m, args[i])))
    case TFree(_, _) => t
  }

  /** A type that mentions no bound variable is left alone. */
  lemma {:induction false} ApplyUnbound<K(!new)>(key: KeyOf<K>, m: map<K, Typ>, t: Typ)
    requires Triangular(key, m) && forall k :: k in VarsOf(key, t) ==> k !in m
    ensures Apply(key, m, t) == t
    decreases t
  {
    match t
    case TVar(n, i, _) => assert key(n, i) in VarsOf(key, t);
    case Type(n, args) =>
      forall i | 0 <= i < |args| ensures Apply(key, m, args[i]) == args[i] {
        LevelOfArg(key, m, t, i);
        ApplyUnbound(key, m, args[i]);
      }
      assert Apply(key, m, t).args == args;
    case TFree(_, _) =>
  }

  /** The result of an application mentions no bound variable, and only variables of the input or of a binding. */
  lemma {:induction false} ApplyVars<K(!new)>(key: KeyOf<K>, m: map<K, Typ>, t: Typ)
    requires Triangular(key, m)
    ensures forall k :: k in VarsOf(key, Apply(key, m, t)) ==>
              k !in m && (k in VarsOf(key, t) || exists j :: j in m && k in VarsOf(key, m[j]))
    decreases Level(key, m, t), t
  {
    match t
    case TVar(n, i, _) =>
      if key(n, i) in m {
        LevelOfBinding(key, m, t);
        ApplyVars(key, m, m[key(n, i)]);
      }
    case Type(n, args) =>
      var r := Apply(key, m, t);
      forall k | k in VarsOf(key, r)
        ensures k !in m && (k in VarsOf(key, t) || exists j :: j in m && k in VarsOf(key, m[j]))
      {
        var i :| 0 <= i < |r.args| && k in VarsOf(key, r.args[i]);
        LevelOfArg(key, m, t, i);
        ApplyVars(key, m, args[i]);
      }
    case TFree(_, _) =>
  }

  lemma ApplyIdempotent<K(!new)>(key: KeyOf<K>, m: map<K, Typ>, t: Typ)
    requires Triangular(key, m)
    ensures Apply(key, m, Apply(key, m, t)) == Apply(key, m, t)
  {
    ApplyVars(key, m, t);
    ApplyUnbound(key, m, Apply(key, m, t));
  }

  /** Binding an unbound variable to a fully applied type that does not mention it keeps the substitution triangular. */
  lemma BindKeepsTriangular<K(!new)>(key: KeyOf<K>, m: map<K, Typ>, k: K, t: Typ)
    requires Triangular(key, m) && k !in m
    requires k !in VarsOf(key, t) && forall j :: j in VarsOf(key, t) ==> j !in m
    ensures Triangular(key, m[k := t])
  {
    var now, redirected := Edges(key, m[k := t]), Edges(key, m)[k := VarsOf(key, t)];
    RedirectToSinks(Edges(key, m), k, VarsOf(key, t));
    assert now.Keys == redirected.Keys;
    assert forall j :: j in now ==> now[j] == redirected[j];
    assert now == redirected;
  }
}
