# lambda-rs normalizer, modelled in Dafny

This project models the core of a small normalizer for the untyped lambda
calculus, written in Rust (`src/lambda.rs`). Terms are variables,
abstractions and applications. The normalizer has these parts:

- It computes the free variables of a term.
- It substitutes a term for a variable, renaming a binder when the binder
  clashes with a free variable of the substituted term. The fresh name is
  the binder followed by enough `'` marks.
- It reduces terms in normal order to weak head normal form (`whnf`) and
  to full normal form (`nf`). While walking down the left spine of
  applications, it keeps a stack of pending arguments.
- It decides alpha-equivalence by renaming the right-hand binder to the
  left-hand one. Beta-equivalence is alpha-equivalence of the two normal
  forms.

Files, one module each:

- `terms.dfy` (`Terms`): the `Term` datatype and `FreeVars`. It also holds
  the spine helpers `Head`, `Args` and `ApplyAll`. `ApplyAll` is the fold
  with `app_ref` that re-applies pending arguments.
- `subst.dfy` (`Substitution`): `CloneSym`, `Subst`, `SubstVar`, and the
  side condition `NoCapture` under which substitution is capture-free.
- `reduce.dfy` (`Reduce`): `SpineWhnf`/`Whnf` and `SpineNf`/`ApplyNf`/`Nf`.
  The argument stack is a `seq<Term>` with its front at index 0. Reduction
  may diverge, so each function takes a `fuel` bound and returns
  `Option<Term>`. Only a beta step uses fuel. `None` means the bound was
  reached along some path.
- `equiv.dfy` (`Equiv`): `AlphaEq`, `BetaEq`, and the Church-numeral test.

Where the design intent and the code disagree, the model follows the code:

- Substitution is not capture-free in general. `clone_sym` avoids only the
  free variables of the substituted term. It does not avoid the free
  variables of the body, and it does not avoid the variable being replaced.
  `SubstCapturesFreeName` and `SubstRenamesOntoTarget` show one concrete
  capture of each kind. `SubstFreeVarsExact` proves capture freedom under
  `NoCapture`, which states both missing side conditions.
- `alpha_eq` is not symmetric (`AlphaEqNotSymmetric`), so only
  reflexivity is proved.
- Idempotence of `nf` is proved as structural equality, which is stronger
  than alpha-equivalence.

## Model

| member | source | states |
|---|---|---|
| `Terms.FreeVars` | src/lambda.rs:106-116 | the free variables of a term are among the names written in it |
| `Terms.FreeVarsIsOccursFree` | src/lambda.rs:106-116 | `x` is in `FreeVars(t)` exactly when some occurrence of `x` in `t` is bound by no enclosing abstraction of `x` (checked against an independent definition) |
| `Terms.FreeVarsExamples` | src/lambda.rs:190-201 | the tests: `x` has free set `{x}`, which is not `{y}`; `\y.x` has `{x}`; `\x.x` has none |
| `Terms.SpineDecomposition` | src/lambda.rs:37-41 | every term is its spine head re-applied to its spine arguments by the `app_ref` fold |
| `Substitution.CloneSym` | src/lambda.rs:134-140 | the result is not in `vars`; it is `i` followed by `'` marks; every shorter candidate is in `vars`, so the first free candidate is taken; it is `i` when `i` is not in `vars`; termination follows because the members of `vars` at least as long as the candidate form a strictly shrinking set |
| `Substitution.Subst` | src/lambda.rs:146-174 | substituting a variable keeps the term size, which makes the recursion on the renamed body well-founded |
| `Substitution.SubstVar` | src/lambda.rs:142-144 | renaming a variable keeps the term size |
| `Substitution.SubstExamples` | src/lambda.rs:217-226 | the tests: `y[x:=x] = y`; `(\x.x)[x:=y] = \x.x` because the binder shadows `x`; `(x z)[x:=y] = y z` |
| `Substitution.SubstFreeVarsBound` | src/lambda.rs:146-174 | `FreeVars(b[v:=x])` is within `(FreeVars(b) - {v}) + FreeVars(x)`; so `v` is no longer free when it is not free in `x` |
| `Substitution.SubstSelf` | src/lambda.rs:148-170 | substituting `v` for itself leaves every term unchanged |
| `Substitution.NoCaptureWithoutClash` | src/lambda.rs:160-169 | when no binder of `b` is free in `x`, the rename branch never fires and substitution avoids capture |
| `Substitution.SubstFreeVarsExact` | src/lambda.rs:146-174 | under `NoCapture`, `FreeVars(b[v:=x])` equals `FreeVars(b) - {v}`, plus `FreeVars(x)` when `v` was free in `b`: no free variable is lost or captured |
| `Substitution.SubstCapturesFreeName` | src/lambda.rs:163-166 | `(\y. y' v)[v:=y]` is `\y'. y' y`, in which the free `y'` of the input is captured |
| `Substitution.SubstRenamesOntoTarget` | src/lambda.rs:163-166 | `(\y. y)[y':=y]` is `\y'. y`: the fresh name equals the substituted variable, and the closed input becomes an open term |
| `Substitution.SubstRenamesWithoutOccurrence` | src/lambda.rs:163-166 | `(\y. y)[v:=y]` is `\y'. y'`: the rename branch fires even when `v` does not occur |
| `Reduce.WhnfUnwind` | src/lambda.rs:37-41 | descending an application spine moves its arguments onto the stack in application order, innermost on top |
| `Reduce.WhnfPopsInnermostFirst` | src/lambda.rs:37-51 | in `App(App(Abs(s, e), a1), a2)` the beta step substitutes `a1`, leaving `a2` pending |
| `Reduce.WhnfNeutral` | src/lambda.rs:55 | a term whose spine head is a variable is returned structurally unchanged |
| `Reduce.WhnfAbs` | src/lambda.rs:42-45 | an abstraction is returned as it is |
| `Reduce.WhnfShape` | src/lambda.rs:35-61 | every result is an abstraction or a spine headed by a variable, so no redex is left at the head |
| `Reduce.WhnfOfWhnf` | src/lambda.rs:35-61 | terms in weak head normal form are fixed points of `whnf`, for any fuel |
| `Reduce.WhnfFreeVars` | src/lambda.rs:35-57 | the result's free variables are among those of the term and of its pending arguments |
| `Reduce.WhnfFuelMonotone` | src/lambda.rs:35-57 | a result reached with some fuel is the result with any larger fuel |
| `Reduce.WhnfIdentityExample` | src/lambda.rs:229-233 | the test: `(\x.x) oi` reduces to `oi` |
| `Reduce.SpineNfNormal` | src/lambda.rs:63-85 | every result of the spine walk contains no application of an abstraction anywhere |
| `Reduce.ApplyNfNormal` | src/lambda.rs:83 | normalized arguments re-applied to a normal non-abstraction head give a normal non-abstraction term |
| `Reduce.NfNormal` | src/lambda.rs:87-90 | a result of `nf` contains no redex anywhere |
| `Reduce.NfOfNormal` | src/lambda.rs:63-90 | normal terms are fixed points of `nf`, for any fuel |
| `Reduce.SpineNfNeutral` | src/lambda.rs:65-69 | a normal non-abstraction head with normal pending arguments normalizes to that very application |
| `Reduce.ApplyNfNormalArgs` | src/lambda.rs:83 | normalizing and re-applying arguments that are already normal is the plain `app_ref` fold |
| `Reduce.NfIdempotent` | src/lambda.rs:87-90 | `nf(nf t) == nf t` structurally, whatever fuel either call gets |
| `Reduce.NormalIsWhnf` | src/lambda.rs:63-90 | a normal term is in weak head normal form |
| `Reduce.SpineNfFreeVars` | src/lambda.rs:63-85 | the result's free variables are among those of the term and of its pending arguments |
| `Reduce.ApplyNfFreeVars` | src/lambda.rs:83 | the free variables of the re-applied result are among those of the head and of the arguments |
| `Reduce.SpineNfFuelMonotone` | src/lambda.rs:63-85 | a result reached with some fuel is the result with any larger fuel |
| `Reduce.ApplyNfFuelMonotone` | src/lambda.rs:83 | the same for the normalization of the pending arguments |
| `Reduce.NfIdentityExample` | src/lambda.rs:252-256 | the test: `(\x.x) oi` normalizes to `oi` |
| `Equiv.AlphaEq` | src/lambda.rs:92-99 | terms it accepts have the same size |
| `Equiv.AlphaEqRefl` | src/lambda.rs:92-99 | every term is alpha-equivalent to itself |
| `Equiv.AlphaEqRenamedBinder` | src/lambda.rs:96 | `\x.x` is alpha-equivalent to `\y.y` |
| `Equiv.AlphaEqNotSymmetric` | src/lambda.rs:96 | `\x.x` is alpha-equivalent to `\y.x`, but `\y.x` is not alpha-equivalent to `\x.x` |
| `Equiv.BetaEqNormalForm` | src/lambda.rs:101-103 | a term with a normal form is beta-equivalent to itself and to its normal form |
| `Equiv.BetaEqFuelMonotone` | src/lambda.rs:101-103 | an answer reached with some fuel is the answer with any larger fuel |
| `Equiv.NfTwoApplied` | src/lambda.rs:244 | the Church numeral `two` applied to `s` and `z` normalizes to `s (s z)` |
| `Equiv.ChurchOnePlusTwo` | src/lambda.rs:241-249 | the test: `plus one two` is beta-equivalent to `three` |

## Left out

- The interactive loop in `src/main.rs` is not part of this model. It is console I/O plus a string dispatch to `nf`.
- The parser in `src/parser.rs` is not part of this model. Its behaviour lives in a parser-combinator library whose source is not available.
- The `set!` macro, hashing with `RandomState`, `Box` and `clone` ownership, and `Debug` printing are Rust mechanics. They are modelled as Dafny sets and immutable datatype values.
- The helper constructors `app`, `abs` and `var` are Dafny's datatype constructors. `app_ref` is the step of `Terms.ApplyAll`.
- `clone_sym` takes a term parameter that it never uses. `Substitution.CloneSym` drops it.
- Reduce.SpineWhnf, Reduce.Whnf, Reduce.SpineNf, Reduce.ApplyNf, Reduce.Nf and Equiv.BetaEq take a fuel bound, because the source recurses forever on terms without a normal form. `None` stands for that divergence, or for a reduction that needs more fuel. Only `Some` results are described, and fuel monotonicity ties every bound to the unbounded behaviour.
- Substitution.SubstFreeVarsExact holds only under `NoCapture`. An unconditional capture-freedom theorem is false for this code, as the two counterexample lemmas show.
- Equiv.AlphaEqRefl is the only algebraic law proved for `alpha_eq`. Symmetry fails (`AlphaEqNotSymmetric`), so transitivity is not claimed either.
- Substitution is not claimed to leave a term unchanged, or even alpha-equivalent, when `v` does not occur free. The rename branch changes binders regardless (`SubstRenamesWithoutOccurrence`).
