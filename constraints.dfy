/** Signed constraints over polynomials of one bit width, and what it means
    for them to hold under an assignment.  Only the two constraint kinds the
    forbidden-interval engine and the active saturation rules inspect, `ule`
    and `umul_ovfl`, have a meaning here; every other kind is carried as an
    opaque tag. */
module Constraints {
  import opened Words
  import opened Terms

  datatype Constraint =
    | Ule(lhs: Expr, rhs: Expr)        // lhs <= rhs, unsigned
    | UmulOvfl(p: Expr, q: Expr)       // p * q overflows the word
    | Other(kind: nat)                 // any other constraint kind

  /** A constraint together with its polarity and the width of its polynomials.
      `positive == false` is the negated literal (`sign()` in the solver). */
  datatype Signed = Signed(c: Constraint, positive: bool, width: nat)

  /** Truth of an unsigned constraint modulo m; other kinds are taken as false. */
  predicate Sat(c: Constraint, env: Env, m: nat)
    requires m > 0
  {
    match c
    case Ule(l, r) => Eval(l, env, m) <= Eval(r, env, m)
    case UmulOvfl(p, q) => Eval(p, env, m) * Eval(q, env, m) >= m
    case Other(_) => false
  }

  /** Truth of a literal: the constraint for a positive one, its negation otherwise. */
  predicate Holds(sc: Signed, env: Env) {
    Sat(sc.c, env, Pow2(sc.width)) == sc.positive
  }

  predicate AllHold(cs: seq<Signed>, env: Env) {
    forall i :: 0 <= i < |cs| ==> Holds(cs[i], env)
  }

  lemma AllHoldAppend(a: seq<Signed>, b: seq<Signed>, env: Env)
    ensures AllHold(a + b, env) <==> AllHold(a, env) && AllHold(b, env)
  {
    if AllHold(a, env) && AllHold(b, env) {
      forall i | 0 <= i < |a + b|
        ensures Holds((a + b)[i], env)
      {
        if i >= |a| {
          assert (a + b)[i] == b[i - |a|];
        }
      }
    }
    if AllHold(a + b, env) {
      forall i | 0 <= i < |a|
        ensures Holds(a[i], env)
      {
        assert (a + b)[i] == a[i];
      }
      forall i | 0 <= i < |b|
        ensures Holds(b[i], env)
      {
        assert (a + b)[|a| + i] == b[i];
      }
    }
  }

  // ---- the constraint constructors of the solver ----

  function Negate(sc: Signed): (r: Signed)
    ensures forall env: Env :: Holds(r, env) <==> !Holds(sc, env)
  {
    sc.(positive := !sc.positive)
  }

  /** p <= q */
  function MkUle(p: Expr, q: Expr, w: nat): Signed {
    Signed(Ule(p, q), true, w)
  }

  /** p < q, written as the negation of q <= p. */
  function MkUlt(p: Expr, q: Expr, w: nat): Signed {
    Signed(Ule(q, p), false, w)
  }

  /** p = 0, written as p <= 0. */
  function MkEqZero(p: Expr, w: nat): Signed {
    Signed(Ule(p, Num(0)), true, w)
  }

  /** p = q, written as p - q = 0. */
  function MkEq(p: Expr, q: Expr, w: nat): Signed {
    MkEqZero(Minus(p, q, Pow2(w)), w)
  }

  /** Omega*(p, q): the unsigned product of p and q overflows. */
  function MkOvfl(p: Expr, q: Expr, w: nat): Signed {
    Signed(UmulOvfl(p, q), true, w)
  }

  lemma HoldsUle(p: Expr, q: Expr, w: nat, env: Env)
    ensures Holds(MkUle(p, q, w), env) <==> Eval(p, env, Pow2(w)) <= Eval(q, env, Pow2(w))
  {
  }

  lemma HoldsUlt(p: Expr, q: Expr, w: nat, env: Env)
    ensures Holds(MkUlt(p, q, w), env) <==> Eval(p, env, Pow2(w)) < Eval(q, env, Pow2(w))
  {
  }

  lemma HoldsEqZero(p: Expr, w: nat, env: Env)
    ensures Holds(MkEqZero(p, w), env) <==> Eval(p, env, Pow2(w)) == 0
  {
    EvalNum(0, env, Pow2(w));
  }

  /** The equality constraint means what it says, although it is stored as p - q <= 0. */
  lemma HoldsEq(p: Expr, q: Expr, w: nat, env: Env)
    ensures Holds(MkEq(p, q, w), env) <==> Eval(p, env, Pow2(w)) == Eval(q, env, Pow2(w))
  {
    var m := Pow2(w);
    var x: int, y: int := Eval(p, env, m), Eval(q, env, m);
    var d := Minus(p, q, m);
    HoldsEqZero(d, w, env);
    EvalMinus(p, q, env, m);
    assert Eval(d, env, m) == Wrap(x - y, m);
    WrapCases(x - y, m);
  }

  lemma HoldsOvfl(p: Expr, q: Expr, w: nat, env: Env)
    ensures Holds(MkOvfl(p, q, w), env) <==> Eval(p, env, Pow2(w)) * Eval(q, env, Pow2(w)) >= Pow2(w)
  {
  }
}
