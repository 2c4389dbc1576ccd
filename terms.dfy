/**
  Terms of the untyped lambda calculus (src/lambda.rs), their free variables,
  and the left spine of applications that the reducer walks.
 */
module Terms {

  /** A name; the source's `Sym` is an owned string. */
  type Sym = string

  /** The source's `Lambda` enum: variables, abstractions and applications.
      Equality on this datatype is structural, like the derived `PartialEq`. */
  datatype Term =
    | Var(name: Sym)
    | Abs(bound: Sym, body: Term)
    | App(func: Term, arg: Term)

  /** Number of nodes; the measure that substitution and reduction decrease. */
  function Size(t: Term): (n: nat)
    ensures n >= 1
  {
    match t
    case Var(_) => 1
    case Abs(_, e) => 1 + Size(e)
    case App(f, a) => 1 + Size(f) + Size(a)
  }

  /** Every name written in a term, bound or free. */
  function Names(t: Term): set<Sym>
  {
    match t
    case Var(x) => {x}
    case Abs(x, e) => {x} + Names(e)
    case App(f, a) => Names(f) + Names(a)
  }

  /** `free_vars`: an abstraction removes its binder from its body's set,
      an application joins the sets of both sides. */
  function FreeVars(t: Term): (r: set<Sym>)
    ensures r <= Names(t)
  {
    match t
    case Var(x) => {x}
    case Abs(x, e) => FreeVars(e) - {x}
    case App(f, a) => FreeVars(f) + FreeVars(a)
  }

  /** Reference definition of a free occurrence: an occurrence of `x`
      that no enclosing abstraction of `x` binds. */
  ghost predicate OccursFree(x: Sym, t: Term)
  {
    match t
    case Var(y) => x == y
    case Abs(y, e) => x != y && OccursFree(x, e)
    case App(f, a) => OccursFree(x, f) || OccursFree(x, a)
  }

  /** `free_vars` collects exactly the names that occur free. */
  lemma {:induction false} FreeVarsIsOccursFree(x: Sym, t: Term)
    ensures x in FreeVars(t) <==> OccursFree(x, t)
  {
    match t
    case Var(_) =>
    case Abs(_, e) => FreeVarsIsOccursFree(x, e);
    case App(f, a) => FreeVarsIsOccursFree(x, f); FreeVarsIsOccursFree(x, a);
  }

  /** The cases of the free-variable tests. */
  lemma FreeVarsExamples()
    ensures FreeVars(Var("x")) == {"x"}
    ensures FreeVars(Var("x")) != {"y"}
    ensures FreeVars(Abs("y", Var("x"))) == {"x"}
    ensures FreeVars(Abs("x", Var("x"))) == {}
  {
    assert "y" !in FreeVars(Var("x"));
  }

  /** The fold with `app_ref`: re-applies pending arguments, first argument
      innermost, so `ApplyAll(h, [a1, a2]) == App(App(h, a1), a2)`. */
  function ApplyAll(h: Term, xs: seq<Term>): Term
    decreases |xs|
  {
    if xs == [] then h else ApplyAll(App(h, xs[0]), xs[1..])
  }

  /** The term at the bottom of the left spine of applications. */
  function Head(t: Term): (h: Term)
    ensures !h.App?
  {
    match t
    case App(f, _) => Head(f)
    case _ => t
  }

  /** The arguments along the left spine, outermost last. */
  function Args(t: Term): seq<Term>
  {
    match t
    case App(f, a) => Args(f) + [a]
    case _ => []
  }

  /** Sum of the sizes of a stack of pending arguments. */
  function SizeAll(xs: seq<Term>): nat
  {
    if xs == [] then 0 else Size(xs[0]) + SizeAll(xs[1..])
  }

  /** Union of the free variables of a stack of pending arguments. */
  function FreeVarsAll(xs: seq<Term>): set<Sym>
  {
    if xs == [] then {} else FreeVars(xs[0]) + FreeVarsAll(xs[1..])
  }

  lemma {:induction false} ApplyAllSnoc(h: Term, xs: seq<Term>, a: Term)
    ensures ApplyAll(h, xs + [a]) == App(ApplyAll(h, xs), a)
    decreases |xs|
  {
    if xs == [] {
      assert [a][1..] == [];
    } else {
      assert (xs + [a])[1..] == xs[1..] + [a];
      ApplyAllSnoc(App(h, xs[0]), xs[1..], a);
    }
  }

  /** Every term is its spine head re-applied to its spine arguments. */
  lemma {:induction false} SpineDecomposition(t: Term)
    ensures t == ApplyAll(Head(t), Args(t))
  {
    match t
    case App(f, a) =>
      SpineDecomposition(f);
      ApplyAllSnoc(Head(f), Args(f), a);
    case _ =>
  }

  /** Re-applying arguments does not change the spine head. */
  lemma {:induction false} HeadApplyAll(h: Term, xs: seq<Term>)
    ensures Head(ApplyAll(h, xs)) == Head(h)
    decreases |xs|
  {
    if xs != [] {
      HeadApplyAll(App(h, xs[0]), xs[1..]);
    }
  }

  /** Re-applying arguments to a head that is not an abstraction keeps
      that head and those arguments on the spine. */
  lemma {:induction false} ArgsApplyAll(h: Term, xs: seq<Term>)
    ensures Args(ApplyAll(h, xs)) == Args(h) + xs
    decreases |xs|
  {
    if xs != [] {
      ArgsApplyAll(App(h, xs[0]), xs[1..]);
      assert Args(h) + xs == (Args(h) + [xs[0]]) + xs[1..];
    }
  }

  lemma {:induction false} FreeVarsApplyAll(h: Term, xs: seq<Term>)
    ensures FreeVars(ApplyAll(h, xs)) == FreeVars(h) + FreeVarsAll(xs)
    decreases |xs|
  {
    if xs != [] {
      FreeVarsApplyAll(App(h, xs[0]), xs[1..]);
    }
  }

  lemma FreeVarsAllCons(a: Term, xs: seq<Term>)
    ensures FreeVarsAll([a] + xs) == FreeVars(a) + FreeVarsAll(xs)
    ensures SizeAll([a] + xs) == Size(a) + SizeAll(xs)
  {
    assert ([a] + xs)[0] == a;
    assert ([a] + xs)[1..] == xs;
  }
}
