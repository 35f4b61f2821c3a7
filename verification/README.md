# A model of the Pure kernel

This project models the logical core of a Rust rebuild of the Isabelle/Pure kernel and proves properties of it. A term
is a lambda term with de Bruijn indices and simple types; a theorem is a list of hypotheses, a proposition and the names
of the oracles it depends on; the inference rules are the only way to make one. Around the kernel stand substitution,
normalisation, unification, matching, type inference, term orders, fresh names, the class hierarchy and the database of
definitions.

Code of the original that computes by recursion is a function here, code that works on stacks and vectors is a method
with a loop, and an object whose methods update it is a class. Each method is tied to a function by its postcondition,
and what the original promises is proved about that function.

| file | content |
|---|---|
| `Syntax.dfy`, `Numerals.dfy` | types, terms, decimal names |
| `WorkStack.dfy` | traversals with a stack of frames and a stack of results |
| `TermSubst.dfy`, `TermAbs.dfy`, `Eta.dfy` | substitution, abstraction of variables, eta-contraction |
| `Graph.dfy` | finite graphs: paths, ranks, acyclicity, redirected nodes |
| `Logic.dfy`, `Hyps.dfy`, `Kernel.dfy` | connectives, hypotheses, rules and derivations |
| `RuleLaws.dfy`, `Drule.dfy` | laws between rules, derived rules |
| `Semantics.dfy`, `Soundness.dfy`, `Consistency.dfy` | models, soundness of every run, a model and consistency |
| `Instantiation.dfy` | with which terms quantifiers may be instantiated |
| `Resolution.dfy`, `ResolutionLimits.dfy` | resolution with matching and unification: when it is sound, and when it is not |
| `TypeResolve.dfy`, `TypeUnify.dfy`, `TypeGen.dfy`, `TypeLinks.dfy`, `TypeInfer.dfy` | triangular substitutions, the type unifier, constraint generation, real typing, inference |
| `Envir.dfy` | environments and normalisation with a step budget |
| `Unify.dfy`, `Moves.dfy`, `Unifiers.dfy` | solutions of term equations, one round of unification and matching, whole runs |
| `TypedSolutions.dfy`, `Completeness.dfy` | solutions that agree on the types a loop compares; what has a solution is solved |
| `Patterns.dfy`, `Matches.dfy`, `LinearPairs.dfy` | higher-order patterns, which matches succeed and what they are worth, unification without repeated variables |
| `TermOrd.dfy`, `TermKeys.dfy` | orders of types and terms, hashing; the keys whose dictionary order they are |
| `Names.dfy`, `Sorts.dfy`, `Defs.dfy` | fresh names, type classes, the definition database |

## How to read the main results

**Soundness.** A derivation is a tree of rule applications, so a statement about every derivation is one about every run
of the kernel. A model interprets constants, application and abstraction; types play no role in it and no beta law is
asked for. A derivation is *proper* if its input terms are closed and use constants, free and schematic variables from
separated name spaces (the kernel's comparison lets them match each other), if quantifiers are instantiated only where
substitution is capture-avoiding, and if resolved theorems have no redexes. Every proper run makes a theorem that is
true in every model that reads implication, universal quantification and equality as meant and in which what its oracles
admit is true. A concrete model shows that this is not empty: falsity has no proper derivation without oracles and
hypotheses, while other propositions have one. Separated name spaces are needed: over a signature with the connectives,
every proper run without oracles is sound exactly if they are separated (`Consistency.SeparationExact`). Terms put in
place of quantified variables may have no bound index: `Soundness.DisciplinedIsSound` is soundness under this condition on
the input alone, and `Instantiation.InstantiationExact` says that no weaker condition on these terms is enough.

**Runs of the unifier.** A run is a function of its input: rounds that normalise a pair, take a branch and go on, fail for
a reason or conclude. The loops return what this function says, and the theorems are about it: which reasons there are,
what a failure means, what the bindings solve, and for which inputs an acyclic environment stays acyclic. Unification
compares the types of binders and matching those of atoms, so completeness is stated for solutions that agree on these
types (`TypedSolutions.InstIn`); where a problem has one binder type, or one type for each atom, any solution will do.

**Resolution.** One step of `bicompose`, in any of its branches, is sound for first-order theorems if the bindings are
closed, the normalisations end, and the bindings make conclusion and premise the same (`Resolution.SoundBicomposeOf`). The
last is not automatic: see below.

**Orders.** Each order is tied to a key, a sequence of numbers read off the type or term without comparing anything: one
comes before the other exactly if its key does in the dictionary.

**Acyclicity.** A substitution or an environment is acyclic if some rank falls along each of its bindings. Ranks are
what lets dereferencing end; they also make the definition database and the renamings of names end.

**Budgets.** Normalisation gives up after 20000 steps and returns its input. It is modelled with this budget, so
idempotence holds whether or not the budget runs out, and statements about results name the condition that it did not.

## Where the code departs from its documentation

- `lift_bound_iter` keeps its cutoff under a binder, and `subst_bounds` subtracts the length of the extended argument
  list from an index beyond the arguments. `TermSubst.SubstBoundsExact` says exactly when the result is nevertheless
  capture-avoiding substitution, and `TermSubst.LambdaArgumentGoesWrong` shows one input for which it is not.
- For this reason `forall_elim` is unsound: a closed, correctly typed argument with a bound index captures
  (`Instantiation.IdentityIsUnsound`, `Instantiation.IndexIsUnsound`), and only such arguments do
  (`Instantiation.InstantiationExact`).
- `abstraction` puts a binder around both sides without binding the named variable. It is the documented rule exactly if it
  fails or the variable occurs on neither side (`RuleLaws.AbstractionExact`; `RuleLaws.AbstractionLeavesFree` shows inputs
  where it is not); what it makes is true all the same (`Soundness.SoundAbstraction`).
- `implies_intr_list` makes the last assumption the first premise. The documented order comes out exactly for lists of at
  most one assumption (`Drule.DocumentedOrder`).
- `compose` at a premise other than the first succeeds only if the first premise matches too, and removes that one.
- The comparison of propositions is not transitive. Over separated names it is so through a term exactly if all its
  binder types are known (`Semantics.TransitiveExact`); two atoms confused across kinds make a theorem that is false in a
  model (`Consistency.ConfusionIsUnsound`).
- Type inference gives each occurrence of a bound variable a type of its own, so the type found need not be a typing:
  `TypeLinks.IdentityTyping` and `TypeLinks.IdentityLinksFail` show it for the identity on any known type. Every real
  typing is an instance of the type found. The type found is always a real one exactly if it is one with the bindings as
  they are (`TypeLinks.AlwaysRealChecked`), exactly if the equations left out follow from those generated
  (`TypeLinks.AlwaysRealExact`), and in any case if no bound variable occurs (`TypeLinks.NoBoundAlwaysReal`).
- The solver rejects one type variable name with two indices or sorts, although such an equation has solutions under
  lookup by name (`TypeUnify.TwoTagsAreRejected`); it is complete exactly where no name has two (`TypeUnify.CompleteExact`).
- `bicompose` does not look at pairs that unification dropped. The trivial theorems of two variables resolve to the theorem
  that any proposition implies any other (`ResolutionLimits.DroppedPairIsUnsound`); a first-order premise is met exactly if
  the bindings solve the dropped pairs (`Resolution.UnifiedMeets`).
- Under `match_flag` a match that was concluded early is taken for a match. Reflexivity of `?p x` resolves every equation of
  two constants (`ResolutionLimits.ReflexivityMeetsAll`); first-order matches that succeed do meet the premise
  (`Resolution.MatchedMeets`).
- A variable below a binder is bound to the index of that binder as it is (`ResolutionLimits.BinderEscapes`).
- Pairs of two different variables are dropped by unification, not solved later (`Unifiers.FlexFlexIsDropped`). A
  first-order problem is unified exactly if the dropped pairs are (`Unifiers.UnifiedExact`); without repeated variables that
  is the case exactly if no two variables face each other (`LinearPairs.LinearUnified`).
- A variable applied to distinct bound or free variables ends matching at once, with whatever is still pending, and so
  does a free variable so applied. A match that succeeds, as `bicompose` uses it under `match_flag`, need not make the
  pattern equal to the object (`Matches.ConcludesTooEarly`). `Matches.MatchedExactly` says after the call, and
  `Matches.MatchedBeforehand` and `Matches.LinearBeforehand` before it, exactly when it does; `Matches.LinearSucceeds` says
  which matches succeed.
- `variants` can return one name twice (`Names.VariantsCollide`), when bumping reaches an underscore;
  `Names.VariantsDistinct` says exactly for which lists it does not, and `Names.CollisionExact` for which names asked for
  twice some context makes it happen.
- `latest_name` follows the renamings and then returns its argument, which is the latest name exactly if it is clean and
  has no renaming (`Names.OwnLatest`; `Names.LatestNameFails` is an input where it is not).
- `add_class` for a class that exists forgets its superclasses (`Sorts.AddClassExact` says when this loses a relation).

## Model

| member | source | states |
|---|---|---|
| `WorkStack.Build` | src/core/term_subst.rs:68-77 | in every traversal, a frame that rebuilds a node finds the results it pops, so the fallback values are never used, and what the traversal computes stays the same |
| `TermSubst.LiftBoundIter` | src/core/term_subst.rs:83-124 | the frame stack computes the recursive lifting function |
| `TermSubst.SubstBoundsIter` | src/core/term_subst.rs:35-80 | the frame stack with one argument list per frame computes the recursive substitution |
| `TermSubst.LiftIsShift` | src/core/term_subst.rs:83-124 | lifting with a fixed cutoff is textbook shifting exactly if nothing in the term is bound inside it |
| `TermSubst.SubstAtDepth` | src/core/term_subst.rs:35-80 | below any number of binders, substitution with the extended argument list is the capture-avoiding one exactly on the safe inputs |
| `TermSubst.SubstBoundsExact` | src/core/term_subst.rs:35-80 | `subst_bounds` is capture-avoiding simultaneous substitution exactly on the safe inputs |
| `TermSubst.CoveredIsSafe` | src/core/term_subst.rs:45-66 | safe are all bodies whose loose indices the arguments cover, if no argument has a binder or none has an index, at every depth |
| `TermSubst.SafeEverywhereExact` | src/core/term_subst.rs:35-80 | a closed argument is safe in every body of a quantifier exactly if it has no bound index |
| `TermSubst.LambdaArgumentGoesWrong` | src/core/term_subst.rs:97-109 | a closed argument with a binder, substituted below a binder, comes out as another function with a loose index |
| `TermSubst.StdSubstCloses` | src/core/term_subst.rs:35-80 | closed arguments for all outer indices leave none of them |
| `TermAbs.IncrBoundIter` | src/core/term.rs:196-234 | the frame stack computes the increment of indices that escape their binders |
| `TermAbs.SubstVarBoundIter` | src/core/term.rs:149-192 | the frame stack computes the replacement of a variable by the index of a new binder |
| `TermAbs.LambdaClosed` | src/core/term.rs:134-145 | abstracting a variable from a closed term gives a closed term, and its index step changes nothing there |
| `TermAbs.SameVarExact` | src/core/term.rs:237-247 | two terms are the same variable exactly if both are variables with one name and index, a free variable counting as index 0 |
| `TermAbs.IncrIsShift` | src/core/term.rs:196-234 | the index step is textbook shifting by one, at every depth and for open terms |
| `TermAbs.AbstractedOpen` | src/core/term.rs:134-247 | for every term, open ones too, textbook substitution of the variable undoes its abstraction exactly if only the variable itself was abstracted |
| `TermAbs.InstantiateAbstracted` | src/core/term.rs:134-247 | putting a variable back where it was abstracted gives the term back exactly if everything that counts as the variable is that variable |
| `TermAbs.AbstractInstantiated` | src/core/term.rs:134-247 | opening a binder with a fresh variable and abstracting it is the identity |
| `Eta.LowerThenShift` | src/core/term_subst.rs:287-304 | lowering above an index that does not occur is undone by shifting, at every depth |
| `Eta.ShiftThenLower` | src/core/term_subst.rs:277-304 | shifting is undone by lowering, and the index shifted over does not occur |
| `Eta.EtaContractExact` | src/core/term_subst.rs:253-274 | the contracted term expands back to the original by putting its binders around it, and is no eta-redex at the top |
| `Logic.StripImpPremsLoop` | src/core/logic.rs:98-106 | the loop collects the premises and the conclusion of a chain of implications |
| `Logic.MkImpliesListLoop` | src/core/thm.rs:1076-1080 | the loop over reversed premises builds the chain with the premises in order |
| `Logic.StripMkImpliesList` | src/core/logic.rs:18-106 | chaining premises onto a proposition and stripping gives those premises, then the ones it had, and its conclusion |
| `Logic.ConclIsNoImplication` | src/core/logic.rs:98-106 | what is left as conclusion is no implication |
| `Logic.EqNameExact` | src/core/logic.rs:73-92 | the constants taken for equality are exactly those whose names end in ".eq", those of both logics among them |
| `Hyps.AlphaEqReflexive` | src/core/thm.rs:215-246 | the kernel's comparison of terms is reflexive |
| `Hyps.AlphaEqSymmetric` | src/core/thm.rs:215-246 | the comparison is symmetric |
| `Hyps.AlphaEqNotTransitive` | src/core/thm.rs:219-227 | the comparison is not transitive: two different constants match one free variable |
| `Hyps.AlphaEqOfShape` | src/core/thm.rs:215-246 | terms that are equal up to types and binder names match exactly if the known types of their binders agree, whatever types their atoms have |
| `Hyps.AlphaEqCrossKinds` | src/core/thm.rs:219-227 | a free variable matches exactly the constants of its name up to a qualifier on one side and the schematic variables of its name, whatever their index |
| `Hyps.HypList.Contains` | src/core/thm.rs:175-177 | found exactly if some hypothesis matches |
| `Hyps.HypList.Insert` | src/core/thm.rs:167-172 | the new list is the old one, with the hypothesis appended if none matched |
| `Hyps.HypList.Union` | src/core/thm.rs:190-196 | a new list: the first, extended by the hypotheses of the second one by one |
| `Hyps.InsertDistinct` | src/core/thm.rs:167-172 | insertion keeps hypotheses pairwise non-matching |
| `Hyps.UnionDistinct` | src/core/thm.rs:190-196 | union keeps hypotheses pairwise non-matching |
| `Hyps.UnionMembers` | src/core/thm.rs:190-196 | a union has no entry of its own, keeps all of the first part, and has a match for all of the second |
| `Hyps.UnionExtends` | src/core/thm.rs:190-196 | a union begins with the first list, unchanged |
| `Hyps.RemoveMembers` | src/core/thm.rs:199-208 | removal keeps exactly the hypotheses that do not match |
| `Hyps.RemoveDistinct` | src/core/thm.rs:199-208 | removal keeps hypotheses pairwise non-matching |
| `Hyps.RemoveFirst` | src/core/thm.rs:199-208 | from pairwise non-matching hypotheses, removing the first leaves exactly the others in order |
| `Kernel.UnionOraclesLoop` | src/core/thm.rs:463-477 | the loop computes the union of two footprints in order of first occurrence |
| `Kernel.AddOraclesIsUnion` | src/core/thm.rs:463-477 | the union has exactly the names of both, without repetition |
| `Kernel.FreeInLoop` | src/core/thm.rs:1376-1390 | the stack search finds a free variable exactly if it occurs |
| `Kernel.TrivialHolds` | src/core/thm.rs:1271-1273 | for every proposition the initial goal state is the unconditional theorem that it implies itself |
| `Kernel.OraclesExact` | src/core/thm.rs:463-1143 | in every run the footprint is exactly the set of oracles admitted at the leaves, without repetition |
| `Kernel.HypsStayDistinct` | src/core/thm.rs:158-1143 | in every run no hypothesis of a theorem matches another |
| `Kernel.EvalKeepsPremises` | src/core/thm.rs:1055-1073 | normalising a chain of implications loses no premise, so that cutting out the goal is within bounds |
| `Semantics.AlphaEqDenotes` | src/core/thm.rs:215-246 | over separated name spaces, terms that match denote the same, whatever binder types they ignore; which terms match is said by `AlphaEqExact` |
| `Semantics.AlphaEqExact` | src/core/thm.rs:215-246 | over separated name spaces two terms match exactly if they are equal up to types and binder names and the types of their binders agree, an unknown type agreeing with any |
| `Semantics.TransitiveExact` | src/core/thm.rs:215-246 | over separated name spaces, matching is transitive through a term exactly if the types of all its binders are known |
| `Semantics.DenoteAbstracted` | src/core/term.rs:134-192 | abstracting a variable: the bound index takes the value the variable had |
| `Semantics.DenoteSubstituted` | src/core/term_subst.rs:35-80 | substituting closed terms: the indices take the values of the terms |
| `Semantics.TrueMkAll` | src/core/logic.rs:35-52 | a quantified proposition is true exactly if the body is for every value of the variable |
| `Semantics.TrueStripped` | src/core/logic.rs:98-106 | a chain of implications is true exactly if its premises together imply its conclusion |
| `Semantics.TrueMkImpliesList` | src/core/thm.rs:1076-1080 | a chain built from premises is true exactly if the premises together imply the rest |
| `Soundness.Sound0` | src/core/thm.rs:536-600 | admitted, assumed and reflexive theorems are true in every model in which the admitted propositions are |
| `Soundness.SoundSymmetric` | src/core/thm.rs:604-623 | symmetry is sound |
| `Soundness.SoundTransitive` | src/core/thm.rs:630-667 | transitivity is sound, although the middle terms only match |
| `Soundness.SoundCombination` | src/core/thm.rs:688-731 | combination is sound |
| `Soundness.SoundAbstraction` | src/core/thm.rs:740-773 | the abstraction rule as coded is sound |
| `Soundness.SoundImpliesIntr` | src/core/thm.rs:816-837 | discharging all matching hypotheses is sound |
| `Soundness.SoundImpliesElim` | src/core/thm.rs:845-869 | modus ponens on a matching antecedent is sound |
| `Soundness.SoundForallIntr` | src/core/thm.rs:875-895 | generalisation over a variable that is in no hypothesis is sound |
| `Soundness.SoundForallElim` | src/core/thm.rs:897-914 | instantiation is sound where substitution is capture-avoiding |
| `Soundness.SoundSubstPremise` | src/core/thm.rs:1111-1143 | replacing a premise by the other side of an equation is sound |
| `Soundness.BicomposeResolves` | src/core/thm.rs:1015-1098 | exact-match resolution of theorems without redexes applies exactly if the goal exists and matches; the result has the premises before the goal, those of the first theorem (none on a full match), and those after it, over the same conclusion; theorems with redexes are the matter of `RuleLaws.BicomposeReduces` |
| `Soundness.TrueResolved` | src/core/thm.rs:1055-1080 | if the premises of a resolvent are true, so are those of the second theorem |
| `Soundness.SoundBicompose` | src/core/thm.rs:1015-1098 | exact-match resolution of theorems without redexes is sound |
| `Soundness.RunIsSound` | src/core/thm.rs:536-1143 | every proper run makes a closed theorem true in every model in which what its oracles admit is true |
| `Soundness.ProvedIsValid` | src/core/thm.rs:368-380 | a theorem with an empty footprint is true in every model |
| `Soundness.RunIsFine` | src/core/thm.rs:536-1143 | whatever its oracles admit, every proper run makes a closed theorem over the signature |
| `Soundness.DisciplinedIsSound` | src/core/thm.rs:536-1143 | soundness of every run under a condition on its input: no term put in place of a quantified variable has a bound index |
| `Consistency.WitnessReads` | src/core/logic.rs:18-97 | a concrete model with two truth values reads the connectives as meant |
| `Consistency.Consistent` | src/core/thm.rs:368-380 | no proper run without oracles and hypotheses proves falsity |
| `Consistency.ConfusionIsUnsound` | src/core/thm.rs:215-246 | every two atoms of different kinds that match make a theorem without oracles and hypotheses that is false in a model |
| `Consistency.SeparationExact` | src/core/thm.rs:215-246 | over a signature with the connectives, all proper runs without oracles make true theorems exactly if its name spaces are separated |
| `Consistency.SomethingIsProved` | src/core/thm.rs:816-895 | some proper run without oracles makes the generalised identity implication |
| `Instantiation.IdentityIsUnsound` | src/core/thm.rs:897-914 | instantiating with the identity makes a theorem without oracles and hypotheses that is false in a model |
| `Instantiation.IdentityDisciplined` | src/core/thm.rs:897-914 | but for this instance the run is proper |
| `Instantiation.LiftedDiffers` | src/core/term_subst.rs:83-109 | in a model that sees bound indices, a lifted closed term with an index denotes something else below a binder |
| `Instantiation.IndexIsUnsound` | src/core/thm.rs:897-914 | every closed term with a bound index has a run that instantiates with it alone and makes a theorem false in a model |
| `Instantiation.InstantiationExact` | src/core/thm.rs:897-914 | for every set of closed terms, the runs without oracles that instantiate with these only are all true exactly if none of them has a bound index |
| `Resolution.Bicompose` | src/core/thm.rs:1015-1098 | the program, with its loops for matching, unification, instantiation and chains, returns what its specification says in every branch |
| `Resolution.InstantiateLoop` | src/core/thm.rs:924-946 | the loop normalises the hypotheses one by one into a list without repetitions |
| `Resolution.ExactBranch` | src/core/thm.rs:1035-1042 | where comparison decides, the full operation is resolution on an exact match |
| `Resolution.LookIsSafe` | src/core/thm.rs:963-1012 | the look before unification rejects no two terms with a common instance, but one constant with two known types that have none |
| `Resolution.DenoteInst` | src/core/thm.rs:919-946 | an instance denotes what the term does where the variables have the values of the closed terms put in their place |
| `Resolution.SoundInstance` | src/core/thm.rs:919-946 | instantiating a first-order theorem with closed bindings is sound, if the normalisations end |
| `Resolution.UnifiedMeets` | src/core/thm.rs:1043-1055 | after a first-order unification that succeeds, the premise is met exactly if the bindings solve the pairs that were dropped |
| `Resolution.MatchedMeets` | src/core/thm.rs:1022-1034 | after a first-order match that succeeds, the premise is met |
| `Resolution.SoundResolved` | src/core/thm.rs:1058-1098 | resolution of first-order theorems with closed bindings is sound if the premise is met, by comparison or because the bindings make it the same as the conclusion |
| `Resolution.SoundBicomposeOf` | src/core/thm.rs:1015-1098 | every branch is sound for first-order theorems, if the bindings are closed, the normalisations end and no dropped pair is left unsolved |
| `ResolutionLimits.UnifiedReady` | src/core/thm.rs:1043-1055 | for closed first-order conclusion and premise without abstractions the bindings of unification are closed and acyclic, if its normalisations end |
| `ResolutionLimits.BinderEscapes` | src/core/unify.rs:119-144 | for any names and types, a variable below a binder against the index of that binder is bound to the loose index |
| `ResolutionLimits.DroppedPairIsUnsound` | src/core/thm.rs:1043-1098 | the trivial theorems of any two variables of different names resolve to one that is false in every model that has something true and something not true |
| `ResolutionLimits.ReflexivityMeetsAll` | src/core/thm.rs:1022-1098 | under `match_flag` a reflexive equation of an applied variable resolves the trivial goal to the equation of any two constants, false wherever they denote different things |
| `RuleLaws.TransitiveReflexive` | src/core/thm.rs:581-667 | reflexive equations are neutral for transitivity on either side |
| `RuleLaws.SymmetricEquation` | src/core/thm.rs:604-623 | symmetry applies exactly to equations, states the reversed one, and twice gives the equation back |
| `RuleLaws.CombinationCommutes` | src/core/thm.rs:604-731 | application of any two equations succeeds exactly if application of their symmetric forms does, commutes with symmetry, and makes a reflexive equation of reflexive ones |
| `RuleLaws.CombinationExact` | src/core/thm.rs:688-731 | application needs an equation between functions and an equation, and a domain and an argument type that are both known must be the same; the result equates the applications at the codomain |
| `RuleLaws.TransitiveReverses` | src/core/thm.rs:604-667 | symmetry turns a chain of two equations into the chain of their symmetric forms in the other order |
| `RuleLaws.AbstractionExact` | src/core/thm.rs:736-773 | the rule as coded is the documented one exactly if it fails or the variable occurs on neither side; of a reflexive equation it makes a reflexive one |
| `RuleLaws.AbstractionLeavesFree` | src/core/thm.rs:736-773 | with the variable as one side it stays free below its own binder, where the documented rule binds it |
| `RuleLaws.IntroducedThenEliminated` | src/core/thm.rs:816-869 | discharging applies exactly to hypotheses, and supplying what was discharged gives the proposition back |
| `RuleLaws.EliminatedThenIntroduced` | src/core/thm.rs:816-869 | supplying a new antecedent and discharging it gives the implication and the hypotheses back |
| `RuleLaws.PremiseReplaced` | src/core/thm.rs:1111-1143 | rewriting a premise applies exactly if it is there and matches; all other premises and the conclusion stay |
| `RuleLaws.PremiseRestored` | src/core/thm.rs:1111-1143 | rewriting with an equation and with its symmetric form restores the premises |
| `RuleLaws.FirstComesFirst` | src/core/thm.rs:630-869 | of two theorems joined by a rule, the hypotheses and oracles of the first come first, unchanged |
| `RuleLaws.TransitiveErrors` | src/core/thm.rs:630-642 | an error names the first proposition that is no equation, or reports middle terms that do not match |
| `RuleLaws.CombinationErrors` | src/core/thm.rs:688-710 | an error names the first proposition that is no equation, a type that is no function type, or the known domain and the known argument type that differ |
| `RuleLaws.HypothesisErrors` | src/core/thm.rs:816-895 | generalising fails exactly for a variable of a hypothesis, discharging exactly if no hypothesis matches |
| `RuleLaws.BicomposeApplies` | src/core/thm.rs:1015-1042 | for all theorems, resolution on an exact match applies exactly if the premise exists and the first proposition or its conclusion matches it |
| `RuleLaws.BicomposeReduces` | src/core/thm.rs:924-1098 | for all theorems, redexes included, the result has the premises and the conclusion of the beta normal forms of the two propositions, with the goal exchanged for the premises of the first (none on a full match), and the beta normal forms of the hypotheses; if the normalisations end, nothing in the result has a redex |
| `Drule.ImpliesIntrListLoop` | src/core/drule.rs:48-54 | the loop discharges the assumptions one after the other, or returns the first error |
| `Drule.ImpliesElimListLoop` | src/core/drule.rs:59-65 | the loop supplies the antecedents one after the other, or returns the first error |
| `Drule.DischargeList` | src/core/drule.rs:46-54 | for every list, discharging gives its members as premises, the last first, over exactly the hypotheses none of them matches |
| `Drule.RemoveEachMembers` | src/core/drule.rs:46-54 | what is left of the hypotheses are exactly those that no member of the list matches |
| `Drule.DischargeSucceeds` | src/core/drule.rs:46-54 | it succeeds exactly if each member matches a hypothesis that no earlier member matches |
| `Drule.DocumentedOrder` | src/core/drule.rs:46-54 | when it succeeds, the premises have the documented order exactly if the list has at most one member |
| `Drule.DischargeAll` | src/core/drule.rs:114-117 | discharging pairwise non-matching hypotheses always succeeds; they become premises, last one first |
| `Drule.DischargeEveryRun` | src/core/drule.rs:114-117 | for every run, discharging all hypotheses gives an unconditional theorem with one more premise per hypothesis |
| `Drule.SupplyPremises` | src/core/drule.rs:59-65 | supplying assumptions for the premises of a chain collects them as hypotheses in order |
| `Drule.DischargeAndSupply` | src/core/drule.rs:48-117 | discharging all hypotheses and supplying them again gives the theorem back with its hypotheses reversed |
| `Drule.GeneralizeAndInstantiate` | src/core/thm.rs:875-914 | `forall_elim` of `x` undoes `forall_intr` of `x` exactly if everything bound was `x` itself |
| `Drule.ComposeTakesFirst` | src/core/drule.rs:75-85 | composition at any premise succeeds exactly if the first premise matches, and removes the first premise |
| `TypeResolve.ApplyVars` | src/core/type_infer.rs:77-92 | an applied type mentions no bound variable, and only variables of the type or of bindings |
| `TypeResolve.ApplyIdempotent` | src/core/type_infer.rs:77-92 | applying an acyclic substitution twice is applying it once |
| `TypeResolve.BindKeepsTriangular` | src/core/type_infer.rs:233-256 | binding an unbound variable to an applied type without it keeps the substitution acyclic, so application stays total |
| `TypeUnify.OccursIn` | src/core/type_infer.rs:301-307 | the occurs check holds exactly for the variables of the type |
| `TypeUnify.Factors` | src/core/type_infer.rs:77-92 | every assignment that respects the bindings factors through their application |
| `TypeUnify.SkipStep` | src/core/type_infer.rs:213-224 | a constraint that is already an equation can go, and the total size falls |
| `TypeUnify.DecomposeStep` | src/core/type_infer.rs:224-232 | decomposition keeps the solutions, and the total size falls |
| `TypeUnify.BindStep` | src/core/type_infer.rs:233-256 | a binding keeps the solutions and acyclicity, and one name less is unbound |
| `TypeUnify.FailStep` | src/core/type_infer.rs:213-266 | a constraint the solver rejects leaves the input without a solution, if each name has one index and sort |
| `TypeUnify.RejectedHaveNoInstance` | src/core/type_infer.rs:224-262 | types on which the solver fails have no common instance, unless they are one name with two tags |
| `TypeUnify.SolvedIsSolvable` | src/core/type_infer.rs:213-266 | bindings that equalise the constraints carry every assignment of the unbound names on to a solution |
| `TypeUnify.SolvingKeeps` | src/core/type_infer.rs:213-266 | every run of the solver ends, in bindings that equalise the constraints and lose no solution, or in a failure that leaves tagged input without one |
| `TypeUnify.TwoTagsAreRejected` | src/core/type_infer.rs:213-266 | for every name and every two different tags the solver rejects an equation that every assignment solves |
| `TypeUnify.CompleteExact` | src/core/type_infer.rs:213-266 | over a set of variables, failure means no solution for all constraint lists exactly if no name in the set has two tags |
| `TypeGen.FreshInjective` | src/core/type_infer.rs:131-135 | generated variable names are pairwise different |
| `TypeGen.GeneratedAvoids` | src/core/type_infer.rs:148-210 | generation uses no variable name at or beyond the index it returns |
| `TypeGen.GenerateSound` | src/core/type_infer.rs:148-210 | every solution of the generated constraints is a typing in their own sense, where occurrences of bound variables are free |
| `TypeGen.GenerateComplete` | src/core/type_infer.rs:148-210 | every typing is an instance of what is generated, by an assignment that changes only the fresh names |
| `TypeLinks.AllPartsReal` | src/core/type_infer.rs:185-188 | all typings of a term and its parts in the sense of the constraints are real typings exactly if no bound variable occurs |
| `TypeLinks.IdentityTyping` | src/core/type_infer.rs:185-195 | for the identity on a known type the constraints allow every result type, a real typing only that of the binder |
| `TypeLinks.LinkedExact` | src/core/type_infer.rs:148-210 | the constraints together with one equation per occurrence of a bound variable have exactly the real typings as solutions |
| `TypeLinks.AlwaysRealExact` | src/core/type_infer.rs:141-210 | the type found from most general bindings is a real typing under every assignment exactly if the equations left out follow from those generated |
| `TypeLinks.AlwaysRealChecked` | src/core/type_infer.rs:141-210 | a type is a real typing under every assignment exactly if it is one under the bindings as they are |
| `TypeLinks.NoBoundAlwaysReal` | src/core/type_infer.rs:141-210 | so it is for closed terms in which no bound variable occurs |
| `TypeLinks.SolvedLinksFollow` | src/core/type_infer.rs:141-210 | they follow if the bindings found satisfy them |
| `TypeLinks.IdentityLinksFail` | src/core/type_infer.rs:185-195 | for the identity on a known type they do not follow |
| `TypeInfer.TypeInfer.FreshVar` | src/core/type_infer.rs:131-135 | a variable with the next index, and the counter moves on by one |
| `TypeInfer.TypeInfer.InferWithConstraints` | src/core/type_infer.rs:148-210 | the method threads the counter as the generating function does |
| `TypeInfer.TypeInfer.SolveConstraints` | src/core/type_infer.rs:213-266 | the loop computes the solving function; success equalises all constraints and loses no solution, failure means there is none on tagged input |
| `TypeInfer.TypeInfer.Infer` | src/core/type_infer.rs:141-145 | every real typing is an instance of the type found, and none is found only for terms without one; whether a type found is always a real typing is decided by one typing, and it is for closed terms without bound variables |
| `TypeInfer.FoundIsPrincipal` | src/core/type_infer.rs:141-266 | every typing, in either sense, is an instance of what the bindings make of the generated type |
| `TypeInfer.NoneIsUntypable` | src/core/type_infer.rs:141-266 | constraints without a solution leave the term without a typing in either sense |
| `Envir.Envir.GenVar` | src/core/envir.rs:92-95 | the new variable occurs in no term whose indices were within the bound, and in no binding of an environment within it |
| `Envir.Envir.Update` | src/core/envir.rs:122-125 | exactly one binding is added or replaced |
| `Envir.Envir.NormTermIter` | src/core/envir.rs:158-222 | the work-stack loop, with its reductions and its step budget, computes the normalisation function, the cutoff included |
| `Envir.NormTermIdempotent` | src/core/envir.rs:158-222 | normalising twice is normalising once, for every term and every environment with acyclic types, cutoff or not |
| `Envir.EvalIsNormal` | src/core/envir.rs:158-222 | a result within the budget has no redex, mentions no bound variable, and no type in it changes any more |
| `Envir.NormalEvaluates` | src/core/envir.rs:158-222 | for a normal term two steps a node are budget enough |
| `Envir.EvalMoreFuel` | src/core/envir.rs:158-222 | a larger budget changes nothing but what is left of it |
| `Envir.EvalIsBetaNorm` | src/core/term_subst.rs:230-246 | with the initial environment, an evaluation that ends gives the beta normal form |
| `Envir.BetaNormIsEval` | src/core/term_subst.rs:230-246 | whenever beta normalisation ends, some budget lets the evaluation end with the same result |
| `Envir.InitKeepsRedexFree` | src/core/envir.rs:158-222 | the initial environment leaves a term without redexes as it is |
| `Unify.OccursCheck` | src/core/unify.rs:232-246 | the stack search finds a variable exactly if it occurs |
| `Unify.OccursCheckExact` | src/core/unify.rs:208-246 | for a normal term the occurs check decides exactly whether a binding keeps the environment acyclic |
| `Unify.TermEqNoTypes` | src/core/unify.rs:403-426 | equal exactly if the terms are equal up to types and binder names |
| `Unify.EvalRigid` | src/core/unify.rs:104-105 | normalising first-order terms keeps them first-order and keeps every instance under a solution |
| `Unify.EvalIsUnfoldedBeta` | src/core/envir.rs:138-225 | in every acyclic environment a normalisation that ends gives the beta normal form of the term with all bindings put in place and all types normalised |
| `Unify.ExchangeStep` | src/core/unify.rs:87-195 | exchanging a pair for others or for a binding keeps the solutions of the whole problem |
| `Unify.NoSolutionOccurs` | src/core/unify.rs:208-222 | a pair rejected by the occurs check has no solution |
| `Unify.NoSolutionClash` | src/core/unify.rs:149-193 | a pair with different rigid heads has no solution |
| `Unify.SolutionRespects` | src/core/unify.rs:75-85 | an acyclic environment has a solution |
| `Unify.NormIsInstance` | src/core/unify.rs:75-85 | normalisation of first-order terms, if it ends, gives the instance under that solution |
| `Moves.BindVarStep` | src/core/unify.rs:208-222 | a bound variable is retried, one that occurs is rejected, any other is to be bound |
| `Moves.UnifyRound` | src/core/unify.rs:98-193 | one round keeps bounds, the solutions of first-order problems and, if its normalisations end, acyclicity, or rejects a problem without solutions |
| `Moves.RigidHasNoArgs` | src/core/unify.rs:327-348 | a first-order application is never taken for a variable applied to variables |
| `Moves.AbstractArgsLoop` | src/core/unify.rs:362-389 | the loop puts one binder per argument around the object, the first outermost |
| `Moves.MatchRound` | src/core/unify.rs:269-319 | one round of matching keeps bounds, the solutions of first-order problems and, if its normalisations end, acyclicity, or rejects one without solutions |
| `Moves.SolvedPairsAgree` | src/core/unify.rs:75-85 | bindings equivalent to the pairs make both sides of each pair normalise to the same term |
| `Moves.MatchedPatternIsObject` | src/core/unify.rs:252-257 | bindings equivalent to a match make the pattern normalise to the object |
| `Unifiers.UnifyDpairs` | src/core/unify.rs:87-195 | the loop returns what the run of rounds ends with, the step bound included |
| `Unifiers.Unifiers` | src/core/unify.rs:79-195 | the result is the one of that run on the pairs in their order, of which `UnifiersRight` and `UnifiersFail` say what it means |
| `Unifiers.StackInOrder` | src/core/unify.rs:92-95 | the pairs are taken in the order given |
| `Unifiers.StepsExact` | src/core/unify.rs:96-104 | each pair costs a step and there are ten times as many steps as the search bound: so many equal pairs and no more go through |
| `Unifiers.UnifiersRight` | src/core/unify.rs:79-195 | a run that succeeds keeps types, bounds and, if every normalisation ended, acyclicity; for first-order problems bindings and dropped pairs have exactly the original solutions, and solved pairs normalise to equal terms |
| `Unifiers.UnifiersFail` | src/core/unify.rs:79-195 | a run fails on a clash, on two binder types or out of steps, and a first-order clash means no solution; when two binder types are the reason, no solution agrees on binder types (`Completeness.UnifyComplete`) |
| `Unifiers.UnifiedExact` | src/core/unify.rs:79-195 | a first-order run that succeeds has unified the pairs exactly if it has unified those it dropped |
| `Unifiers.UnifiedEach` | src/core/unify.rs:75-85 | pairs are unified together exactly if each of them is |
| `Unifiers.UnifiedNormalForms` | src/core/unify.rs:75-85 | within the budget, pairs are unified exactly if their sides have normal forms of the same shape |
| `Completeness.UnifyComplete` | src/core/unify.rs:79-195 | with the types of binders counted, bindings and dropped pairs have exactly the solutions of the first-order problem; and if it has one, the run succeeds or runs out of steps, provided that the normalisations end or the type bindings leave the binder types alone |
| `Completeness.UnifyCompleteOneType` | src/core/unify.rs:79-195 | if all binders have one type, left alone by the type bindings, a first-order problem that some assignment solves is solved or runs out of steps |
| `Completeness.UnifiedBinderTypes` | src/core/unify.rs:79-195 | after a first-order success that dropped nothing, both sides have normal forms that agree, the types of binders included |
| `Patterns.IdentityUnifies` | src/core/unify.rs:163-190 | a variable applied to a term, against that term, becomes the identity, and both sides have one normal form |
| `LinearPairs.LinearUnified` | src/core/unify.rs:87-195 | for first-order pairs without repeated variables success unifies exactly if no two variables face each other in them |
| `LinearPairs.RunFaces` | src/core/unify.rs:98-193 | such a run drops a pair exactly if two variables face, and leaves both unbound |
| `Unifiers.GroundUnify` | src/core/unify.rs:79-195 | against variable-free right sides no pair is dropped and an acyclic environment stays acyclic, ended normalisations or not |
| `Unifiers.FlexFlexIsDropped` | src/core/unify.rs:110-114 | for any two different unbound variables the run succeeds without binding either, and they stay different |
| `Unifiers.MatchPattern` | src/core/unify.rs:261-322 | the loop returns what the run of rounds ends with, after a concluding binding as well as at the end |
| `Unifiers.Matchers` | src/core/unify.rs:255-322 | the result is the one of that run, of which `MatchersRight`, `MatchersFail` and `Matches.MatchedBeforehand` say what it means |
| `Unifiers.MatchersRight` | src/core/unify.rs:255-322 | a run that succeeds keeps types, bounds and, if every normalisation ended, acyclicity; on first-order input it instantiates the pattern to a variable-free object up to types and binder names, repeated variables included |
| `Unifiers.MatchersInstance` | src/core/unify.rs:255-322 | up to a bound on the sizes of pattern and object, a first-order success instantiates the pattern to the object without a condition on the budget |
| `Unifiers.MatchersFail` | src/core/unify.rs:255-322 | a first-order match that fails on a clash has no solution |
| `Unifiers.MatchersFailFor` | src/core/unify.rs:255-322 | a first-order match against a variable-free object fails on a clash, on types or out of steps only, if every normalisation ended; exactly when it fails is said by `Completeness.MatchExact` |
| `Completeness.MatchExact` | src/core/unify.rs:255-322 | a first-order match against a variable-free object of at most 2000 nodes succeeds exactly if some assignment makes pattern and object equal with the types of atoms, whatever the binder types; after a success they normalise alike |
| `Completeness.MatchExactOneType` | src/core/unify.rs:255-322 | if each constant and free variable has one type, it succeeds exactly if some assignment makes them equal, all types aside |
| `Unifiers.GroundMatch` | src/core/unify.rs:255-322 | against a variable-free object an acyclic environment stays acyclic, ended normalisations or not |
| `Patterns.PatternNorm` | src/core/unify.rs:252-257 | a normalisation of a pattern that ends is its instance, with applied abstractions contracted |
| `Patterns.StaysExact` | src/core/unify.rs:350-389 | contracting all arguments of the binding gives the object back exactly if each of its indices is mapped to itself |
| `Patterns.ClosedStays` | src/core/unify.rs:350-389 | objects without loose indices are given back for all arguments |
| `Patterns.OneArgument` | src/core/unify.rs:350-389 | with one argument the object is given back exactly if it has no loose index but the one that is the argument |
| `Patterns.CollectExact` | src/core/unify.rs:327-348 | arguments are collected exactly from a schematic or free variable applied to pairwise distinct bound or free variables |
| `Patterns.BindersOfArgs` | src/core/unify.rs:362-389 | the binding has a binder for each argument in turn around the object, with the name and type of a free variable |
| `Matches.MatchedExactly` | src/core/unify.rs:255-389 | after a match that succeeds, pattern and object are equal exactly if the concluding binding is right and every pair then pending is made equal too; a match that was not concluded makes them equal |
| `Matches.MatchedBeforehand` | src/core/unify.rs:255-389 | unless it runs out of steps the loop ends as matching by recursion does, failure and its reason included; the recursion tells before the call whether a match that succeeds makes pattern and object equal, repeated variables included; which matches succeed is read off the terms alone in `LinearSucceeds` and `Completeness.MatchExact` |
| `Matches.LinearBeforehand` | src/core/unify.rs:255-389 | for patterns without repeated variables it is read off the two terms: exactly if no applied variable is met from left to right, or the first one met has an object whose indices survive and all to its right is the same already |
| `Matches.LinearSucceeds` | src/core/unify.rs:255-389 | for such patterns success is read off the two terms and the variables bound before: exactly if no different atoms and no nodes of different kinds are met, and no applied free variable that is taken; steps suffice for 2000 nodes |
| `Matches.ConcludesTooEarly` | src/core/unify.rs:297-300 | for any two different constants to the right of an applied variable the match succeeds and the instance differs from the object |
| `TermOrd.StripComb` | src/core/term.rs:57-66 | the head is no application, and applying it to the arguments gives the term back |
| `TermOrd.TypOrdLoop` | src/core/term_ord.rs:77-115 | the loop over arguments computes the lexicographic comparison |
| `TermOrd.TypesTotal` | src/core/term_ord.rs:77-115 | types are totally ordered, and equal in the order only if they are the same; which order it is: `TermKeys.TypOrdExact` |
| `TermOrd.FastTermOrdTotal` | src/core/term_ord.rs:135-212 | the fast order reverses on swap and is transitive; equal in it are exactly the terms equal up to binder names; which order it is: `TermKeys.FastTermOrdExact` |
| `TermOrd.TermOrdTotal` | src/core/term_ord.rs:219-323 | the order by size reverses on swap, is transitive, puts smaller terms first, and on terms without redexes equates exactly terms equal up to binder names; which order it is: `TermKeys.TermOrdExact` |
| `TermOrd.TermOrdSees` | src/core/term_ord.rs:249-323 | two terms are equal in the order exactly if they differ at most in binder names and in the bodies, of one size, of applied abstractions |
| `TermOrd.RedexesLookAlike` | src/core/term_ord.rs:249-323 | two redexes that reduce to different constants are equal in the order |
| `TermKeys.TypOrdExact` | src/core/term_ord.rs:36-115 | one type comes before another exactly if its key does in the dictionary: schematic variables by index, name and sort, then free ones by name and sort, then constructed types by name and arguments |
| `TermKeys.FastTermOrdExact` | src/core/term_ord.rs:123-212 | the fast order is the dictionary order of keys that list the kinds of all nodes, then all atoms, then all types |
| `TermKeys.TermOrdExact` | src/core/term_ord.rs:219-323 | the order by size is the dictionary order of keys that list size, number of arguments, head by index, name, type and kind, and the keys of the arguments; below a binder the body comes before the type |
| `TermKeys.IndexFirst` | src/core/term_ord.rs:36-49 | a smaller index comes first in all three orders, whatever the names |
| `TermKeys.NameNext` | src/core/term_ord.rs:36-115 | at one index the name decides that is a proper beginning of the other or has the smaller character where they first differ |
| `TermKeys.KindsOfTypes` | src/core/term_ord.rs:67-73 | schematic type variables, then free ones, then constructed types |
| `TermKeys.KindsOfTerms` | src/core/term_ord.rs:123-132 | constants, free and schematic variables, indices, abstractions and applications in the fast order |
| `TermKeys.StructureFirst` | src/core/term_ord.rs:204-212 | in the fast order nothing but the structure matters if that differs |
| `TermKeys.AtomsNext` | src/core/term_ord.rs:204-212 | and nothing but the atoms if these differ |
| `TermKeys.HeadThenArguments` | src/core/term_ord.rs:249-323 | for terms of one size with equally many arguments the heads decide, and then the first argument from the left that differs |
| `TermKeys.TermHashed` | src/core/term_ord.rs:434-515 | the hash of a term mixes kinds, lengths of names and indices in the order of the nodes |
| `TermOrd.TermHasher.HashTypInto` | src/core/term_ord.rs:491-515 | hashing a type moves the state as the hash function does |
| `TermOrd.TermHasher.HashTermInto` | src/core/term_ord.rs:434-489 | hashing a term moves the state as the hash function does |
| `TermOrd.AconvHash` | src/core/term_ord.rs:419-515 | terms equal in the fast order have the same hash |
| `Names.BumpIncreases` | src/core/name.rs:117-133 | bumping leads to a later name, by length and then lexicographically |
| `Names.BumpIsNext` | src/core/name.rs:117-133 | bumping a name of lower-case letters leads to a later one with no other between |
| `Names.BumpMovesOn` | src/core/name.rs:117-133 | bumping moves on the last character that is not the end of an alphabet and sets back those behind it, adding a letter where there is none to move on |
| `Names.BumpInitMovesOn` | src/core/name.rs:136-151 | the first character moves on as one bumped by itself, and is set back behind the last letters |
| `Names.CleanIndex` | src/core/name.rs:100-108 | the clean base and the number of underscores taken off |
| `Names.CleanName` | src/core/name.rs:91-97 | the loop takes off all trailing underscores |
| `Names.CleanUnique` | src/core/name.rs:91-108 | the clean name is the only one from which the name arises by appending underscores |
| `Names.FirstFree` | src/core/name.rs:325-329 | the search from a name on terminates in one that is not taken and not earlier |
| `Names.FirstFreeIsFirst` | src/core/name.rs:325-329 | every name bumped over on the way was taken |
| `Names.FreeNamesDistinct` | src/core/name.rs:263-275 | invented names are not taken, ascend, and are pairwise distinct |
| `Names.NameContext.Declare` | src/core/name.rs:201-209 | the clean name is new exactly if it was absent, nothing else changes, renamings stay acyclic |
| `Names.NameContext.DeclareRenamed` | src/core/name.rs:212-228 | one renaming and its target are recorded, no declared name is lost, renamings stay acyclic |
| `Names.NameContext.IsDeclared` | src/core/name.rs:233-236 | declared exactly if the clean name is |
| `Names.NameContext.FollowRenamings` | src/core/name.rs:245-252 | following renamings ends at the latest name of the chain |
| `Names.NameContext.LatestName` | src/core/name.rs:245-257 | what is returned is the latest name of its chain exactly if the argument is clean and has no renaming |
| `Names.LatestIsUnique` | src/core/name.rs:245-252 | a chain of renamings has one end only |
| `Names.OwnLatest` | src/core/name.rs:245-257 | a name ends its own chain exactly if it is clean and has no renaming |
| `Names.LatestNameFails` | src/core/name.rs:245-257 | a declared renaming for which the name returned is not the latest |
| `Names.NameContext.Invent` | src/core/name.rs:263-275 | terminates with the first free names in bumping order |
| `Names.NameContext.Variant` | src/core/name.rs:315-338 | terminates with the chosen name and a new context that declares it; renamings stay acyclic, the old context is unchanged |
| `Names.NameContext.Variants` | src/core/name.rs:346-355 | the variants in order, each from the context of the one before |
| `Names.VariantIsNew` | src/core/name.rs:315-338 | a variant is never a name that was taken |
| `Names.ChoosingRecords` | src/core/name.rs:315-333 | a free name is declared as it is; otherwise the bumped start of the search is renamed to what was found, and nothing else changes |
| `Names.ChosenIsClean` | src/core/name.rs:315-338 | the chosen name is recorded as taken exactly if the search was not trapped at an underscore |
| `Names.AskedTwice` | src/core/name.rs:315-338 | one name asked for twice gives two names exactly if the search is not trapped |
| `Names.VariantsAreNew` | src/core/name.rs:346-355 | no variant in the list is a name that was taken before the call |
| `Names.VariantsDistinct` | src/core/name.rs:346-355 | variants are pairwise distinct exactly if no name found by a trapped search is chosen again later in the list |
| `Names.NeverTrappedDistinct` | src/core/name.rs:346-355 | so they are if no search is trapped |
| `Names.SafeNamesNeverTrapped` | src/core/name.rs:117-151 | no search is trapped for names from which bumping does not lead to an underscore |
| `Names.CollisionExact` | src/core/name.rs:315-355 | some context makes two requests for a name give the same name exactly if bumping leads from it to an underscore and what stands before that is not reserved |
| `Names.AlphanumericIsSafe` | src/core/name.rs:117-151 | alphanumeric names are such names |
| `Names.VariantsCollide` | src/core/name.rs:315-355 | two variants of one name that are the same |
| `Sorts.Algebra.AddClass` | src/core/sorts.rs:51-57 | the class has exactly the given superclasses, all other classes keep theirs |
| `Sorts.Algebra.AddClassrel` | src/core/sorts.rs:60-63 | the subclass relation grows by exactly what the new edge connects |
| `Sorts.Algebra.ClassLe` | src/core/sorts.rs:83-103 | terminates on every class graph, cyclic or not, and decides the reflexive-transitive closure |
| `Sorts.Algebra.AllSuperClasses` | src/core/sorts.rs:180-194 | the result lists exactly the classes reachable, in ascending order |
| `Sorts.Algebra.SortLe` | src/core/sorts.rs:113-115 | holds exactly if every class of the second sort has a subclass in the first |
| `Sorts.Algebra.SortEq` | src/core/sorts.rs:118-120 | holds exactly if each sort is below the other |
| `Sorts.NewEdgeExact` | src/core/sorts.rs:60-63 | reachability after a new edge, in terms of reachability before |
| `Sorts.SortsPreordered` | src/core/sorts.rs:113-120 | sorts are preordered, a sort is below its parts, and below a union exactly if below both parts |
| `Sorts.AddClassExact` | src/core/sorts.rs:51-57 | adding a class keeps all subclass relations exactly if it keeps those to its old superclasses |
| `Sorts.ReaddingForgets` | src/core/sorts.rs:51-57 | adding a class again can drop a relation |
| `Definitions.DisjointMeansDistinct` | src/hol/defs.rs:200-206 | argument lists are disjoint exactly if they differ |
| `Definitions.AddEdgesExact` | src/hol/defs.rs:162-165 | new dependencies keep the graph acyclic exactly if nothing they mention depends on their item |
| `Definitions.Defs.IsTransitiveDep` | src/hol/defs.rs:182-197 | the search with a shared visited set finds only real dependencies, and if it fails every item it visited is finished |
| `Definitions.Defs.WouldCreateCycle` | src/hol/defs.rs:170-179 | rejects exactly if something on the right-hand side already depends on the item |
| `Definitions.Defs.Define` | src/hol/defs.rs:117-168 | succeeds exactly without a conflict and without a cycle, and says which it found first; the graph stays acyclic, the reverse graph its converse, both equal to the recorded right-hand sides; on an error nothing changes |
| `Definitions.Defs.DefineAll` | src/hol/defs.rs:103-111 | the specifications of one item are recorded in order up to the first error |
| `Definitions.Defs.Merge` | src/hol/defs.rs:100-114 | in whatever order items come, succeeds exactly if there is no conflict and the union graph is acyclic; the result has the specifications of both and the inputs are unchanged |

## Left out

- De Bruijn indices, schematic indices and counters are unbounded naturals; overflow of a machine word is modelled in hashing only.
- Certification of terms by type inference and by the table of known theorems; the type of a reflexive equation is a parameter of the rule.
- `maxidx`, unsolved pairs, sort hypotheses, derivation records and serial numbers of theorems, and the rules that only strip them.
- Soundness.RunIsSound: `beta_conversion`, which has no place in models without a beta law; the matching and the unifying branch of `bicompose` as steps of a derivation, for which `Resolution.SoundBicomposeOf` stands; `bicompose_eresolve` and `flexflex_resolve`.
- Resolution.SoundBicomposeOf: theorems in which a variable is applied, and bindings with loose indices.
- Soundness.SoundBicompose: truth of what resolution of theorems with redexes makes, which would need a beta law of models.
- `instantiate` and `generalize` of `term_subst.rs`, and the eta-contraction below the top of a term.
- TypeInfer.TypeInfer.SolveConstraints: failure means no solution only if each name carries one index and one sort; `TypeUnify.CompleteExact` says that nothing else would do.
- `TypeSubst::compose`, `apply_to_term` and annotation of terms.
- `Envir::merge` and `genvars`.
- Unifiers.UnifiersRight: nothing is said about solutions beyond first-order pairs, where a variable applied to a term is given the identity without looking at other solutions (`Patterns.IdentityUnifies`); the binders carried with a pair are never read and are not modelled.
- LinearPairs.LinearUnified: pairs in which a variable occurs twice, where a later binding can still unify a dropped pair; `Unifiers.UnifiedExact` covers them after the run.
- Matches.MatchedExactly: terms are compared up to types and binder names, and the bindings of type variables are empty, as in the environments the kernel starts from; variables of the object are not applied in it and are not bound by the run. Patterns in which a variable occurs both applied and alone, or applied to anything but distinct bound or free variables, are not covered.
- Envir.EvalIsBetaNorm: with no depth limit `beta_norm` need not end, so it is a recursion with a depth, and the statement holds for every depth at which it ends.
- TermOrd.TermOrdTotal: the shortcuts for two references to one term, which reflexivity of the orders makes redundant, and the path order `term_lpo`.
- Names.BumpIncreases: names with characters beyond ASCII, where the original works on bytes and can fall back to appending a letter.
- `invent_declare`, `variant_bound`, and the predicates on internal and skolem names.
- Arities of type constructors, sort checking of constructed types, and minimal sorts.
- Definitions.Defs.Define: the wording of the error messages; listing functions of the database.
- Conversions, the simplifier, tactics, morphisms, discrimination nets, the definitional packages, the document model and the language server.
