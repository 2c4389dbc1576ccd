/**
  Normal-order reduction along the left spine (src/lambda.rs, `spine_whnf`,
  `whnf`, `spine_nf`, `nf`). The stack of pending arguments is a sequence
  with its front at index 0. Reduction need not terminate, so each
  function takes a fuel bound on the number of beta steps along one path
  of the recursion and answers `None` when it runs out.
 */
module Reduce {
  import opened Terms
  import opened Substitution

  datatype Option<T> = None | Some(value: T)

  /** `spine_whnf`: pushes arguments while descending the spine, performs
      a beta step when an abstraction meets a pending argument, and
      otherwise re-applies the pending arguments to the head. */
  function SpineWhnf(t: Term, xs: seq<Term>, fuel: nat): Option<Term>
    decreases fuel, t
  {
    match t
    case App(f, a) => SpineWhnf(f, [a] + xs, fuel)
    case Abs(s, e) =>
      if xs == [] then Some(ApplyAll(t, xs))
      else if fuel == 0 then None
      else SpineWhnf(Subst(s, xs[0], e), xs[1..], fuel - 1)
    case Var(_) => Some(ApplyAll(t, xs))
  }

  /** `whnf`: weak head normal form, starting with no pending arguments. */
  function Whnf(t: Term, fuel: nat): Option<Term>
  {
    SpineWhnf(t, [], fuel)
  }

  /** Weak head normal form: no redex at the head of the spine. */
  predicate IsWhnf(t: Term)
  {
    t.Abs? || Head(t).Var?
  }

  /** Descending the spine only moves its arguments onto the stack, in
      application order: the innermost argument ends up on top. */
  lemma {:induction false} WhnfUnwind(t: Term, xs: seq<Term>, fuel: nat)
    ensures SpineWhnf(t, xs, fuel) == SpineWhnf(Head(t), Args(t) + xs, fuel)
  {
    match t
    case App(f, a) =>
      WhnfUnwind(f, [a] + xs, fuel);
      assert Args(f) + ([a] + xs) == Args(t) + xs;
    case _ =>
      assert [] + xs == xs;
  }

  /** In `App(App(Abs(s, e), a1), a2)` the first argument popped is `a1`. */
  lemma WhnfPopsInnermostFirst(s: Sym, e: Term, a1: Term, a2: Term, fuel: nat)
    ensures SpineWhnf(App(App(Abs(s, e), a1), a2), [], fuel + 1)
         == SpineWhnf(Subst(s, a1, e), [a2], fuel)
  {
    var t := App(App(Abs(s, e), a1), a2);
    assert [a2] + [] == [a2];
    assert SpineWhnf(t, [], fuel + 1) == SpineWhnf(App(Abs(s, e), a1), [a2], fuel + 1);
    assert [a1] + [a2] == [a1, a2];
    assert SpineWhnf(t, [], fuel + 1) == SpineWhnf(Abs(s, e), [a1, a2], fuel + 1);
    assert [a1, a2][1..] == [a2];
  }

  /** A spine headed by a variable is returned structurally unchanged. */
  lemma WhnfNeutral(t: Term, fuel: nat)
    requires Head(t).Var?
    ensures Whnf(t, fuel) == Some(t)
  {
    WhnfUnwind(t, [], fuel);
    SpineDecomposition(t);
    assert Args(t) + [] == Args(t);
  }

  /** An abstraction is returned as it is. */
  lemma WhnfAbs(s: Sym, e: Term, fuel: nat)
    ensures Whnf(Abs(s, e), fuel) == Some(Abs(s, e))
  {
  }

  /** Every result is in weak head normal form. */
  lemma {:induction false} WhnfShape(t: Term, xs: seq<Term>, fuel: nat)
    requires SpineWhnf(t, xs, fuel).Some?
    ensures IsWhnf(SpineWhnf(t, xs, fuel).value)
    decreases fuel, t
  {
    match t
    case App(f, a) => WhnfShape(f, [a] + xs, fuel);
    case Abs(s, e) =>
      if xs != [] {
        WhnfShape(Subst(s, xs[0], e), xs[1..], fuel - 1);
      }
    case Var(_) => HeadApplyAll(t, xs);
  }

  /** Terms already in weak head normal form are fixed points of `whnf`. */
  lemma WhnfOfWhnf(t: Term, fuel: nat)
    requires IsWhnf(t)
    ensures Whnf(t, fuel) == Some(t)
  {
    if !t.Abs? {
      WhnfNeutral(t, fuel);
    }
  }

  /** Reduction to weak head normal form introduces no free variable. */
  lemma {:induction false} WhnfFreeVars(t: Term, xs: seq<Term>, fuel: nat)
    requires SpineWhnf(t, xs, fuel).Some?
    ensures FreeVars(SpineWhnf(t, xs, fuel).value) <= FreeVars(t) + FreeVarsAll(xs)
    decreases fuel, t
  {
    match t
    case App(f, a) =>
      WhnfFreeVars(f, [a] + xs, fuel);
      FreeVarsAllCons(a, xs);
    case Abs(s, e) =>
      if xs == [] {
      } else {
        WhnfFreeVars(Subst(s, xs[0], e), xs[1..], fuel - 1);
        SubstFreeVarsBound(s, xs[0], e);
      }
    case Var(_) => FreeVarsApplyAll(t, xs);
  }

  /** More fuel never changes an answer already reached. */
  lemma {:induction false} WhnfFuelMonotone(t: Term, xs: seq<Term>, fuel: nat, more: nat)
    requires SpineWhnf(t, xs, fuel).Some?
    requires fuel <= more
    ensures SpineWhnf(t, xs, more) == SpineWhnf(t, xs, fuel)
    decreases fuel, t
  {
    match t
    case App(f, a) => WhnfFuelMonotone(f, [a] + xs, fuel, more);
    case Abs(s, e) =>
      if xs != [] {
        WhnfFuelMonotone(Subst(s, xs[0], e), xs[1..], fuel - 1, more - 1);
      }
    case Var(_) =>
  }

  /** The test case: `(\x. x) oi` reduces to `oi`. */
  lemma WhnfIdentityExample()
    ensures Whnf(App(Abs("x", Var("x")), Var("oi")), 1) == Some(Var("oi"))
  {
    assert [Var("oi")] + [] == [Var("oi")];
  }

  /** `spine_nf`: like `SpineWhnf`, but an abstraction with no pending
      argument has its body normalized, and the arguments re-applied to a
      variable head are normalized first. */
  function SpineNf(t: Term, xs: seq<Term>, fuel: nat): Option<Term>
    decreases fuel, Size(t) + SizeAll(xs), 0
  {
    match t
    case App(f, a) =>
      FreeVarsAllCons(a, xs);
      SpineNf(f, [a] + xs, fuel)
    case Abs(s, e) =>
      if xs == [] then
        match SpineNf(e, [], fuel)
        case None => None
        case Some(e') => Some(Abs(s, e'))
      else if fuel == 0 then None
      else SpineNf(Subst(s, xs[0], e), xs[1..], fuel - 1)
    case Var(_) => ApplyNf(t, xs, fuel)
  }

  /** The `map(nf)` and `fold(app_ref)` that end `spine_nf`: normalizes each
      pending argument, first to last, and applies it to the head. */
  function ApplyNf(h: Term, xs: seq<Term>, fuel: nat): Option<Term>
    decreases fuel, SizeAll(xs), 1
  {
    if xs == [] then Some(h)
    else
      match SpineNf(xs[0], [], fuel)
      case None => None
      case Some(n) => ApplyNf(App(h, n), xs[1..], fuel)
  }

  /** `nf`: full normal form, starting with no pending arguments. */
  function Nf(t: Term, fuel: nat): Option<Term>
  {
    SpineNf(t, [], fuel)
  }

  /** Normal form: no application of an abstraction anywhere. */
  predicate IsNormal(t: Term)
  {
    match t
    case Var(_) => true
    case Abs(_, e) => IsNormal(e)
    case App(f, a) => !f.Abs? && IsNormal(f) && IsNormal(a)
  }

  /** Every result of `SpineNf` is normal. */
  lemma {:induction false} SpineNfNormal(t: Term, xs: seq<Term>, fuel: nat)
    requires SpineNf(t, xs, fuel).Some?
    ensures IsNormal(SpineNf(t, xs, fuel).value)
    decreases fuel, Size(t) + SizeAll(xs), 0
  {
    match t
    case App(f, a) =>
      FreeVarsAllCons(a, xs);
      SpineNfNormal(f, [a] + xs, fuel);
    case Abs(s, e) =>
      if xs == [] {
        SpineNfNormal(e, [], fuel);
      } else {
        SpineNfNormal(Subst(s, xs[0], e), xs[1..], fuel - 1);
      }
    case Var(_) => ApplyNfNormal(t, xs, fuel);
  }

  /** Normalized arguments applied to a normal head that is not an
      abstraction give a normal term that is not an abstraction. */
  lemma {:induction false} ApplyNfNormal(h: Term, xs: seq<Term>, fuel: nat)
    requires IsNormal(h) && !h.Abs?
    requires ApplyNf(h, xs, fuel).Some?
    ensures IsNormal(ApplyNf(h, xs, fuel).value) && !ApplyNf(h, xs, fuel).value.Abs?
    decreases fuel, SizeAll(xs), 1
  {
    if xs != [] {
      SpineNfNormal(xs[0], [], fuel);
      var n := SpineNf(xs[0], [], fuel).value;
      ApplyNfNormal(App(h, n), xs[1..], fuel);
    }
  }

  /** A terminating `nf` leaves no redex anywhere. */
  lemma NfNormal(t: Term, fuel: nat)
    requires Nf(t, fuel).Some?
    ensures IsNormal(Nf(t, fuel).value)
  {
    SpineNfNormal(t, [], fuel);
  }

  /** Normal terms are fixed points of `nf`, whatever the fuel. */
  lemma {:induction false} NfOfNormal(t: Term, fuel: nat)
    requires IsNormal(t)
    ensures Nf(t, fuel) == Some(t)
    decreases Size(t), 1
  {
    match t
    case Abs(s, e) => NfOfNormal(e, fuel);
    case _ => SpineNfNeutral(t, [], fuel);
  }

  /** A normal term that is not an abstraction, applied to normal
      arguments, normalizes to that very application. */
  lemma {:induction false} SpineNfNeutral(t: Term, xs: seq<Term>, fuel: nat)
    requires IsNormal(t) && !t.Abs?
    requires forall k :: 0 <= k < |xs| ==> IsNormal(xs[k])
    ensures SpineNf(t, xs, fuel) == Some(ApplyAll(t, xs))
    decreases Size(t) + SizeAll(xs), 0
  {
    match t
    case App(f, a) =>
      FreeVarsAllCons(a, xs);
      SpineNfNeutral(f, [a] + xs, fuel);
      assert ApplyAll(f, [a] + xs) == ApplyAll(App(f, a), xs) by {
        assert ([a] + xs)[0] == a;
        assert ([a] + xs)[1..] == xs;
      }
    case Var(_) => ApplyNfNormalArgs(t, xs, fuel);
  }

  /** `ApplyNf` on normal arguments is the plain fold. */
  lemma {:induction false} ApplyNfNormalArgs(h: Term, xs: seq<Term>, fuel: nat)
    requires forall k :: 0 <= k < |xs| ==> IsNormal(xs[k])
    ensures ApplyNf(h, xs, fuel) == Some(ApplyAll(h, xs))
    decreases SizeAll(xs), 2
  {
    if xs != [] {
      NfOfNormal(xs[0], fuel);
      ApplyNfNormalArgs(App(h, xs[0]), xs[1..], fuel);
    }
  }

  /** `nf` is idempotent: normalizing a normal form gives it back. */
  lemma NfIdempotent(t: Term, fuel: nat, fuel': nat)
    requires Nf(t, fuel).Some?
    ensures Nf(Nf(t, fuel).value, fuel') == Nf(t, fuel)
  {
    NfNormal(t, fuel);
    NfOfNormal(Nf(t, fuel).value, fuel');
  }

  /** Normal forms are in particular weak head normal forms. */
  lemma {:induction false} NormalIsWhnf(t: Term)
    requires IsNormal(t)
    ensures IsWhnf(t)
  {
    match t
    case App(f, _) => NormalIsWhnf(f);
    case _ =>
  }

  /** Reduction to normal form introduces no free variable. */
  lemma {:induction false} SpineNfFreeVars(t: Term, xs: seq<Term>, fuel: nat)
    requires SpineNf(t, xs, fuel).Some?
    ensures FreeVars(SpineNf(t, xs, fuel).value) <= FreeVars(t) + FreeVarsAll(xs)
    decreases fuel, Size(t) + SizeAll(xs), 0
  {
    match t
    case App(f, a) =>
      FreeVarsAllCons(a, xs);
      SpineNfFreeVars(f, [a] + xs, fuel);
    case Abs(s, e) =>
      if xs == [] {
        SpineNfFreeVars(e, [], fuel);
      } else {
        SpineNfFreeVars(Subst(s, xs[0], e), xs[1..], fuel - 1);
        SubstFreeVarsBound(s, xs[0], e);
      }
    case Var(_) => ApplyNfFreeVars(t, xs, fuel);
  }

  lemma {:induction false} ApplyNfFreeVars(h: Term, xs: seq<Term>, fuel: nat)
    requires ApplyNf(h, xs, fuel).Some?
    ensures FreeVars(ApplyNf(h, xs, fuel).value) <= FreeVars(h) + FreeVarsAll(xs)
    decreases fuel, SizeAll(xs), 1
  {
    if xs != [] {
      SpineNfFreeVars(xs[0], [], fuel);
      var n := SpineNf(xs[0], [], fuel).value;
      ApplyNfFreeVars(App(h, n), xs[1..], fuel);
    }
  }

  /** More fuel never changes an answer already reached. */
  lemma {:induction false} SpineNfFuelMonotone(t: Term, xs: seq<Term>, fuel: nat, more: nat)
    requires SpineNf(t, xs, fuel).Some?
    requires fuel <= more
    ensures SpineNf(t, xs, more) == SpineNf(t, xs, fuel)
    decreases fuel, Size(t) + SizeAll(xs), 0
  {
    match t
    case App(f, a) =>
      FreeVarsAllCons(a, xs);
      SpineNfFuelMonotone(f, [a] + xs, fuel, more);
    case Abs(s, e) =>
      if xs == [] {
        SpineNfFuelMonotone(e, [], fuel, more);
      } else {
        SpineNfFuelMonotone(Subst(s, xs[0], e), xs[1..], fuel - 1, more - 1);
      }
    case Var(_) => ApplyNfFuelMonotone(t, xs, fuel, more);
  }

  lemma {:induction false} ApplyNfFuelMonotone(h: Term, xs: seq<Term>, fuel: nat, more: nat)
    requires ApplyNf(h, xs, fuel).Some?
    requires fuel <= more
    ensures ApplyNf(h, xs, more) == ApplyNf(h, xs, fuel)
    decreases fuel, SizeAll(xs), 1
  {
    if xs != [] {
      SpineNfFuelMonotone(xs[0], [], fuel, more);
      var n := SpineNf(xs[0], [], fuel).value;
      ApplyNfFuelMonotone(App(h, n), xs[1..], fuel, more);
    }
  }

  /** The test case: `(\x. x) oi` normalizes to `oi`. */
  lemma NfIdentityExample()
    ensures Nf(App(Abs("x", Var("x")), Var("oi")), 1) == Some(Var("oi"))
  {
    assert [Var("oi")] + [] == [Var("oi")];
    assert Subst("x", Var("oi"), Var("x")) == Var("oi");
    assert SpineNf(Var("oi"), [], 0) == Some(Var("oi"));
    assert Nf(App(Abs("x", Var("x")), Var("oi")), 1) == SpineNf(Abs("x", Var("x")), [Var("oi")], 1);
  }
}
