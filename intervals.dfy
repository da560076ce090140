/** Forbidden intervals on the circle of residues modulo 2^N.  A proper
    interval [lo, hi) wraps around: it holds y iff (y - lo) mod 2^N is below
    (hi - lo) mod 2^N, so [lo, lo) is empty and [hi, lo) is the complement of
    [lo, hi) whenever lo != hi.  Each endpoint carries both a polynomial (so
    the explanation can be re-evaluated under another assignment) and its
    current value. */
module Intervals {
  import opened Words
  import opened Terms

  datatype Endpoint = Endpoint(sym: Expr, val: nat)

  datatype Interval =
    | Full
    | Empty
    | Proper(lo: Endpoint, hi: Endpoint)

  /** A numeral endpoint (an endpoint built with mk_val). */
  function NumEndpoint(k: nat): Endpoint {
    Endpoint(Num(k), k)
  }

  /** y lies in [lo, hi) modulo m. */
  predicate InRange(y: int, lo: int, hi: int, m: nat)
    requires m > 0
  {
    Wrap(y - lo, m) < Wrap(hi - lo, m)
  }

  /** Membership by the current endpoint values. */
  predicate Contains(I: Interval, y: int, m: nat)
    requires m > 0
  {
    match I
    case Full => true
    case Empty => false
    case Proper(lo, hi) => InRange(y, lo.val, hi.val, m)
  }

  /** The interval with its endpoint values recomputed from their polynomials under env. */
  function EvalAt(I: Interval, env: Env, m: nat): (r: Interval)
    requires m > 0
    ensures r.Proper? <==> I.Proper?
    ensures r.Proper? ==> r.lo.sym == I.lo.sym && r.hi.sym == I.hi.sym
  {
    match I
    case Proper(lo, hi) =>
      Proper(Endpoint(lo.sym, Eval(lo.sym, env, m)), Endpoint(hi.sym, Eval(hi.sym, env, m)))
    case _ => I
  }

  /** The endpoint values agree with their polynomials under env. */
  predicate ConsistentAt(I: Interval, env: Env, m: nat)
    requires m > 0
  {
    I.Proper? ==> Eval(I.lo.sym, env, m) == I.lo.val && Eval(I.hi.sym, env, m) == I.hi.val
  }

  lemma EvalAtConsistent(I: Interval, env: Env, m: nat)
    requires m > 0 && ConsistentAt(I, env, m)
    ensures EvalAt(I, env, m) == I
  {
  }

  predicate IsCurrentlyEmpty(I: Interval) {
    match I
    case Full => false
    case Empty => true
    case Proper(lo, hi) => lo.val == hi.val
  }

  /** Lower bound used to order records; Full and Empty report 0. */
  function LoVal(I: Interval): nat {
    if I.Proper? then I.lo.val else 0
  }

  /** Swapping the endpoints of a non-degenerate interval gives its complement. */
  lemma Complement(y: int, lo: nat, hi: nat, m: nat)
    requires m > 0 && lo < m && hi < m && lo != hi
    ensures InRange(y, hi, lo, m) <==> !InRange(y, lo, hi, m)
  {
    var s: int, d: int := Wrap(y - lo, m), Wrap(hi - lo, m);
    WrapCases(hi - lo, m);
    assert d != 0;
    // (y - hi) = (y - lo) - (hi - lo) and (lo - hi) = 0 - (hi - lo)
    WrapDiff(y - lo, hi - lo, m);
    assert (y - lo) - (hi - lo) == y - hi;
    assert Wrap(y - hi, m) == Wrap(s - d, m);
    WrapSubRight(0, hi - lo, m);
    assert 0 - (hi - lo) == lo - hi;
    assert Wrap(lo - hi, m) == Wrap(-d, m);
    WrapCases(s - d, m);
    WrapCases(-d, m);
  }

  lemma NegationOffsets(s: nat, d: nat, m: nat)
    requires s < m && d < m
    ensures Wrap(d - s - 1, m) < d <==> s < d
  {
    WrapCases(d - s - 1, m);
  }

  /** The offset of -y from 1 - u, in terms of the offsets of [l, u). */
  lemma NegatedOffset(y: int, lo: int, hi: int, m: nat)
    requires m > 0
    ensures Wrap(Wrap(-y, m) - Wrap(1 - hi, m), m) == Wrap(Wrap(hi - lo, m) - Wrap(y - lo, m) - 1, m)
  {
    var d: int, e: int := Wrap(hi - lo, m), Wrap(y - lo, m);
    calc {
      Wrap(Wrap(-y, m) - Wrap(1 - hi, m), m);
      { WrapDiff(-y, 1 - hi, m); }
      Wrap(-y - (1 - hi), m);
      { assert -y - (1 - hi) == hi - lo - (y - lo) + -1; }
      Wrap(hi - lo - (y - lo) + -1, m);
      { WrapDiffShift(hi - lo, y - lo, -1, m); }
      Wrap(d - e + -1, m);
      { assert d - e + -1 == d - e - 1; }
      Wrap(d - e - 1, m);
    }
  }

  /** [1 - u, 1 - l) is as wide as [l, u). */
  lemma NegatedWidth(lo: int, hi: int, m: nat)
    requires m > 0
    ensures Wrap(Wrap(1 - lo, m) - Wrap(1 - hi, m), m) == Wrap(hi - lo, m)
  {
    WrapDiff(1 - lo, 1 - hi, m);
    assert (1 - lo) - (1 - hi) == hi - lo;
  }

  /** y in [l, u)  iff  -y in [1 - u, 1 - l). */
  lemma Negation(y: int, lo: int, hi: int, m: nat)
    requires m > 0
    ensures InRange(Wrap(-y, m), Wrap(1 - hi, m), Wrap(1 - lo, m), m) <==> InRange(y, lo, hi, m)
  {
    NegatedOffset(y, lo, hi, m);
    NegatedWidth(lo, hi, m);
    NegationOffsets(Wrap(y - lo, m), Wrap(hi - lo, m), m);
  }

  /** (u + b) mod m < c  iff  u in [-b, c - b), for a bound c below m. */
  lemma Shift(u: int, b: int, c: nat, m: nat)
    requires m > 0 && c < m
    ensures Wrap(u + b, m) < c <==> InRange(u, Wrap(-b, m), Wrap(c - b, m), m)
  {
    WrapSubRight(u, -b, m);
    assert u - -b == u + b;
    WrapDiff(c - b, -b, m);
    assert (c - b) - -b == c;
    WrapCases(c, m);
  }

  /** Membership depends only on the residue of the point and of the endpoints. */
  lemma InRangeWrap(y: int, lo: int, hi: int, m: nat)
    requires m > 0
    ensures InRange(Wrap(y, m), lo, hi, m) == InRange(y, lo, hi, m)
    ensures InRange(y, Wrap(lo, m), Wrap(hi, m), m) == InRange(y, lo, hi, m)
  {
    WrapAdd(y, -lo, m);
    WrapSubRight(y, lo, m);
    WrapDiff(hi, lo, m);
  }

  /** (u + b) mod m >= k  iff  u in [k - b, -b), for a bound 0 < k < m. */
  lemma ShiftAbove(u: int, b: int, k: nat, m: nat)
    requires 0 < k < m
    ensures Wrap(u + b, m) >= k <==> InRange(u, Wrap(k - b, m), Wrap(-b, m), m)
  {
    Shift(u, b, k, m);
    var lo, hi := Wrap(-b, m), Wrap(k - b, m);
    WrapDiff(k - b, -b, m);
    assert (k - b) - -b == k;
    WrapCases(k, m);
    WrapCases(0, m);
    Complement(u, lo, hi, m);
  }
}
