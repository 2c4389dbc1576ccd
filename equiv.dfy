/**
  Alpha- and beta-equivalence (src/lambda.rs, `alpha_eq`, `beta_eq`).
 */
module Equiv {
  import opened Terms
  import opened Substitution
  import opened Reduce

  /** `alpha_eq`: compares shapes pairwise; under two abstractions the
      right binder is renamed to the left one in the right body before the
      bodies are compared. Terms it accepts have the same shape, hence the
      same size. */
  function AlphaEq(a: Term, b: Term): (r: bool)
    ensures r ==> Size(a) == Size(b)
    decreases a
  {
    match (a, b)
    case (Var(v), Var(v1)) => v == v1
    case (App(f, x), App(f1, x1)) => AlphaEq(f, f1) && AlphaEq(x, x1)
    case (Abs(s, e), Abs(s1, e1)) => AlphaEq(e, SubstVar(s1, s, e1))
    case _ => false
  }

  /** Alpha-equivalence is reflexive. */
  lemma {:induction false} AlphaEqRefl(t: Term)
    ensures AlphaEq(t, t)
  {
    match t
    case Var(_) =>
    case App(f, x) => AlphaEqRefl(f); AlphaEqRefl(x);
    case Abs(s, e) =>
      SubstSelf(s, e);
      AlphaEqRefl(e);
  }

  /** Consistently renamed binders are alpha-equivalent. */
  lemma AlphaEqRenamedBinder()
    ensures AlphaEq(Abs("x", Var("x")), Abs("y", Var("y")))
  {
    assert SubstVar("y", "x", Var("y")) == Var("x");
  }

  /** `alpha_eq` is not symmetric: `\x. x` matches `\y. x`, because renaming
      `y` to `x` on the right makes the free `x` agree, but not conversely. */
  lemma AlphaEqNotSymmetric()
    ensures AlphaEq(Abs("x", Var("x")), Abs("y", Var("x")))
    ensures !AlphaEq(Abs("y", Var("x")), Abs("x", Var("x")))
  {
    assert SubstVar("y", "x", Var("x")) == Var("x");
    assert SubstVar("x", "y", Var("x")) == Var("y");
  }

  /** `beta_eq`: alpha-equivalence of the two normal forms; `None` when
      either normalization runs out of fuel. */
  function BetaEq(a: Term, b: Term, fuel: nat): Option<bool>
  {
    match (Nf(a, fuel), Nf(b, fuel))
    case (Some(na), Some(nb)) => Some(AlphaEq(na, nb))
    case _ => None
  }

  /** A term with a normal form is beta-equivalent to itself and to its
      normal form. */
  lemma BetaEqNormalForm(t: Term, fuel: nat)
    requires Nf(t, fuel).Some?
    ensures BetaEq(t, t, fuel) == Some(true)
    ensures BetaEq(t, Nf(t, fuel).value, fuel) == Some(true)
  {
    var n := Nf(t, fuel).value;
    AlphaEqRefl(n);
    NfIdempotent(t, fuel, fuel);
  }

  /** A positive answer survives more fuel. */
  lemma BetaEqFuelMonotone(a: Term, b: Term, fuel: nat, more: nat)
    requires BetaEq(a, b, fuel).Some?
    requires fuel <= more
    ensures BetaEq(a, b, more) == BetaEq(a, b, fuel)
  {
    SpineNfFuelMonotone(a, [], fuel, more);
    SpineNfFuelMonotone(b, [], fuel, more);
  }

  // Church numerals of the reduction test.
  const One: Term := Abs("s", Abs("z", App(Var("s"), Var("z"))))
  const Two: Term := Abs("s", Abs("z", App(Var("s"), App(Var("s"), Var("z")))))
  const Three: Term := Abs("s", Abs("z", App(Var("s"), App(Var("s"), App(Var("s"), Var("z"))))))
  const Plus: Term :=
    Abs("m", Abs("n", Abs("s", Abs("z",
      App(App(Var("m"), Var("s")), App(App(Var("n"), Var("s")), Var("z")))))))

  /** `s (s z)`, the body of `two` applied to `s` and `z`. */
  lemma NfTwoApplied(fuel: nat)
    requires fuel >= 2
    ensures Nf(App(App(Two, Var("s")), Var("z")), fuel)
         == Some(App(Var("s"), App(Var("s"), Var("z"))))
  {
    var s, z := Var("s"), Var("z");
    var ssz := App(s, App(s, z));
    calc {
      Nf(App(App(Two, s), z), fuel);
      SpineNf(App(Two, s), [z] + [], fuel);
      { assert [z] + [] == [z] && [s] + [z] == [s, z]; }
      SpineNf(Two, [s, z], fuel);
      { assert [s, z][1..] == [z]; }
      SpineNf(Subst("s", s, Two.body), [z], fuel - 1);
      { assert FreeVars(s) == {"s"}; }
      SpineNf(Abs("z", ssz), [z], fuel - 1);
      { assert [z][1..] == []; }
      SpineNf(Subst("z", z, ssz), [], fuel - 2);
      SpineNf(ssz, [], fuel - 2);
      { NfOfNormal(ssz, fuel - 2); }
      Some(ssz);
    }
  }

  /** The test case: `plus one two` is beta-equivalent to `three`. */
  lemma ChurchOnePlusTwo()
    ensures BetaEq(App(App(Plus, One), Two), Three, 6) == Some(true)
  {
    var s, z := Var("s"), Var("z");
    var twoSZ := App(App(Two, s), z);
    var inner := App(App(One, s), twoSZ);
    var afterM := Abs("n", Abs("s", Abs("z", App(App(One, s), App(App(Var("n"), s), z)))));
    assert FreeVars(One) == {} && FreeVars(Two) == {};
    calc {
      Nf(App(App(Plus, One), Two), 6);
      SpineNf(App(Plus, One), [Two] + [], 6);
      { assert [Two] + [] == [Two] && [One] + [Two] == [One, Two]; }
      SpineNf(Plus, [One, Two], 6);
      { assert [One, Two][1..] == [Two]; }
      SpineNf(Subst("m", One, Plus.body), [Two], 5);
      { assert Subst("m", One, Plus.body) == afterM; }
      SpineNf(afterM, [Two], 5);
      { assert [Two][1..] == []; }
      SpineNf(Subst("n", Two, afterM.body), [], 4);
      { assert Subst("n", Two, One) == One; }
      SpineNf(Abs("s", Abs("z", inner)), [], 4);
    }
    calc {
      SpineNf(inner, [], 4);
      SpineNf(App(One, s), [twoSZ] + [], 4);
      { assert [twoSZ] + [] == [twoSZ] && [s] + [twoSZ] == [s, twoSZ]; }
      SpineNf(One, [s, twoSZ], 4);
      { assert [s, twoSZ][1..] == [twoSZ]; }
      SpineNf(Subst("s", s, One.body), [twoSZ], 3);
      { assert Subst("s", s, One.body) == Abs("z", App(s, z)); }
      SpineNf(Abs("z", App(s, z)), [twoSZ], 3);
      { assert [twoSZ][1..] == []; }
      SpineNf(Subst("z", twoSZ, App(s, z)), [], 2);
      SpineNf(App(s, twoSZ), [], 2);
      { assert [twoSZ] + [] == [twoSZ]; }
      SpineNf(s, [twoSZ], 2);
      ApplyNf(s, [twoSZ], 2);
      { NfTwoApplied(2); assert [twoSZ][1..] == []; }
      Some(App(s, App(s, App(s, z))));
    }
    assert SpineNf(Abs("z", inner), [], 4) == Some(Abs("z", App(s, App(s, App(s, z)))));
    assert Nf(App(App(Plus, One), Two), 6) == Some(Three);
    NfOfNormal(Three, 6);
    AlphaEqRefl(Three);
  }
}
