/**
  Fresh-name generation and substitution (src/lambda.rs, `clone_sym`,
  `subst_var`, `subst`).
 */
module Substitution {
  import opened Terms

  /** `k` prime marks. */
  function Primes(k: nat): (p: string)
    ensures |p| == k
    ensures forall j :: 0 <= j < k ==> p[j] == '\''
  {
    if k == 0 then "" else "'" + Primes(k - 1)
  }

  /** `clone_sym`: appends `'` to `i` until the candidate is not in `vars`.
      Each step lengthens the candidate, so the members of `vars` at least
      as long as it form a strictly shrinking set. The source's unused
      term parameter is dropped. */
  function CloneSym(i: Sym, vars: set<Sym>): (r: Sym)
    ensures r !in vars
    ensures |r| >= |i| && r == i + Primes(|r| - |i|)
    ensures forall k :: 0 <= k < |r| - |i| ==> i + Primes(k) in vars
    ensures i !in vars ==> r == i
    decreases set s | s in vars && |s| >= |i|
  {
    if i in vars then
      assert (set s | s in vars && |s| >= |i + "'"|) < (set s | s in vars && |s| >= |i|) by {
        var longer := set s | s in vars && |s| >= |i + "'"|;
        var atLeast := set s | s in vars && |s| >= |i|;
        assert longer <= atLeast;
        assert i in atLeast && i !in longer;
      }
      var r := CloneSym(i + "'", vars);
      assert r == i + Primes(|r| - |i|) by {
        assert r == (i + "'") + Primes(|r| - |i| - 1);
        assert (i + "'") + Primes(|r| - |i| - 1) == i + ("'" + Primes(|r| - |i| - 1));
      }
      assert i + Primes(0) in vars by { assert i + Primes(0) == i; }
      assert forall k :: 1 <= k < |r| - |i| ==> i + Primes(k) == (i + "'") + Primes(k - 1);
      r
    else
      i
  }

  /** `subst(v, x, b)` computes `b[v := x]`. A variable equal to `v` becomes
      `x`; an abstraction of `v` shadows it and is left as it is; an
      abstraction whose binder is free in `x` is first renamed to a name
      that `CloneSym` picks outside the free variables of `x`.
      Replacing a variable by a variable keeps the size, which is what
      makes the recursion on the renamed body well-founded. */
  function Subst(v: Sym, x: Term, b: Term): (r: Term)
    ensures x.Var? ==> Size(r) == Size(b)
    decreases Size(b)
  {
    match b
    case Var(i) => if i == v then x else b
    case App(f, a) => App(Subst(v, x, f), Subst(v, x, a))
    case Abs(i, e) =>
      if v == i then b
      else if i in FreeVars(x) then
        var i2 := CloneSym(i, FreeVars(x));
        var e2 := Subst(i, Var(i2), e);
        Abs(i2, Subst(v, x, e2))
      else
        Abs(i, Subst(v, x, e))
  }

  /** `subst_var`: renames free occurrences of `s1` to `s2`. */
  function SubstVar(s1: Sym, s2: Sym, e: Term): (r: Term)
    ensures Size(r) == Size(e)
  {
    Subst(s1, Var(s2), e)
  }

  /** The substitution tests. */
  lemma SubstExamples()
    ensures Subst("x", Var("x"), Var("y")) == Var("y")
    ensures Subst("x", Var("y"), Abs("x", Var("x"))) == Abs("x", Var("x"))
    ensures Subst("x", Var("y"), App(Var("x"), Var("z"))) == App(Var("y"), Var("z"))
  {
  }

  /** Free variables of `b[v := x]` are bounded: those of `b` other than `v`,
      plus those of `x`. In particular `v` is gone when it is not free in `x`. */
  lemma {:induction false} SubstFreeVarsBound(v: Sym, x: Term, b: Term)
    ensures FreeVars(Subst(v, x, b)) <= (FreeVars(b) - {v}) + FreeVars(x)
    ensures v !in FreeVars(x) ==> v !in FreeVars(Subst(v, x, b))
    decreases Size(b)
  {
    match b
    case Var(_) =>
    case App(f, a) =>
      SubstFreeVarsBound(v, x, f);
      SubstFreeVarsBound(v, x, a);
    case Abs(i, e) =>
      if v == i {
      } else if i in FreeVars(x) {
        var i2 := CloneSym(i, FreeVars(x));
        var e2 := Subst(i, Var(i2), e);
        SubstFreeVarsBound(i, Var(i2), e);
        SubstFreeVarsBound(v, x, e2);
      } else {
        SubstFreeVarsBound(v, x, e);
      }
  }

  /** Substituting a variable for itself changes nothing. */
  lemma {:induction false} SubstSelf(v: Sym, e: Term)
    ensures Subst(v, Var(v), e) == e
  {
    match e
    case Var(_) =>
    case App(f, a) => SubstSelf(v, f); SubstSelf(v, a);
    case Abs(i, body) =>
      if v != i {
        assert i !in FreeVars(Var(v));
        SubstSelf(v, body);
      }
  }

  /** The side conditions under which `subst` avoids capture: at every
      abstraction it renames, the fresh name differs from `v` and is not
      free in the body, and the same holds of the renaming and of the
      substitution into the renamed body. `CloneSym` checks neither. */
  ghost predicate NoCapture(v: Sym, x: Term, b: Term)
    decreases Size(b)
  {
    match b
    case Var(_) => true
    case App(f, a) => NoCapture(v, x, f) && NoCapture(v, x, a)
    case Abs(i, e) =>
      if v == i then true
      else if i in FreeVars(x) then
        var i2 := CloneSym(i, FreeVars(x));
        && i2 != v
        && i2 !in FreeVars(e)
        && NoCapture(i, Var(i2), e)
        && NoCapture(v, x, Subst(i, Var(i2), e))
      else
        NoCapture(v, x, e)
  }

  /** Every binder of a term. */
  function Binders(t: Term): set<Sym>
  {
    match t
    case Var(_) => {}
    case Abs(i, e) => {i} + Binders(e)
    case App(f, a) => Binders(f) + Binders(a)
  }

  /** When no binder of `b` is free in `x`, `subst` never renames and so
      never captures. */
  lemma {:induction false} NoCaptureWithoutClash(v: Sym, x: Term, b: Term)
    requires Binders(b) !! FreeVars(x)
    ensures NoCapture(v, x, b)
  {
    match b
    case Var(_) =>
    case App(f, a) =>
      NoCaptureWithoutClash(v, x, f);
      NoCaptureWithoutClash(v, x, a);
    case Abs(i, e) =>
      NoCaptureWithoutClash(v, x, e);
  }

  /** Capture freedom: when `subst` avoids capture, the free variables of
      `b[v := x]` are exactly those of `b` other than `v`, together with
      those of `x` if `v` was free in `b`. */
  lemma {:induction false} SubstFreeVarsExact(v: Sym, x: Term, b: Term)
    requires NoCapture(v, x, b)
    ensures FreeVars(Subst(v, x, b))
         == (FreeVars(b) - {v}) + (if v in FreeVars(b) then FreeVars(x) else {})
    decreases Size(b)
  {
    match b
    case Var(_) =>
    case App(f, a) =>
      SubstFreeVarsExact(v, x, f);
      SubstFreeVarsExact(v, x, a);
    case Abs(i, e) =>
      if v == i {
      } else if i in FreeVars(x) {
        var i2 := CloneSym(i, FreeVars(x));
        var e2 := Subst(i, Var(i2), e);
        SubstFreeVarsExact(i, Var(i2), e);
        assert FreeVars(e2) == (FreeVars(e) - {i}) + (if i in FreeVars(e) then {i2} else {});
        SubstFreeVarsExact(v, x, e2);
        assert v in FreeVars(e2) <==> v in FreeVars(e);
      } else {
        SubstFreeVarsExact(v, x, e);
      }
  }

  /** Capture happens when the fresh name is free in the body: in
      `(\y. y' v)[v := y]` the binder `y` becomes `y'`, and the free `y'`
      of the body is captured by it. */
  lemma SubstCapturesFreeName()
    ensures Subst("v", Var("y"), Abs("y", App(Var("y'"), Var("v"))))
         == Abs("y'", App(Var("y'"), Var("y")))
    ensures "y'" in FreeVars(Abs("y", App(Var("y'"), Var("v"))))
    ensures "y'" !in FreeVars(Subst("v", Var("y"), Abs("y", App(Var("y'"), Var("v")))))
    ensures !NoCapture("v", Var("y"), Abs("y", App(Var("y'"), Var("v"))))
  {
    assert CloneSym("y", {"y"}) == "y'";
  }

  /** Capture also happens when the fresh name is `v` itself: in
      `(\y. y)[y' := y]` the binder is renamed to `y'`, and the renamed
      occurrence is then replaced by `y`, so a closed term becomes open. */
  lemma SubstRenamesOntoTarget()
    ensures Subst("y'", Var("y"), Abs("y", Var("y"))) == Abs("y'", Var("y"))
    ensures FreeVars(Abs("y", Var("y"))) == {}
    ensures FreeVars(Subst("y'", Var("y"), Abs("y", Var("y")))) == {"y"}
    ensures !NoCapture("y'", Var("y"), Abs("y", Var("y")))
  {
    assert CloneSym("y", {"y"}) == "y'";
  }

  /** The rename branch fires even when `v` does not occur: `(\y. y)[v := y]`
      is `\y'. y'`, not the input. */
  lemma SubstRenamesWithoutOccurrence()
    ensures Subst("v", Var("y"), Abs("y", Var("y"))) == Abs("y'", Var("y'"))
  {
    assert CloneSym("y", {"y"}) == "y'";
  }
}
