/** Extraction of forbidden intervals from a single constraint
    (forbidden_intervals.cpp).  Given a literal that the current assignment
    falsifies and a variable v, the engine writes both sides as a*v + e,
    recognises one of a fixed list of shapes, and returns an interval of
    values of coeff*v that the literal forbids, together with side
    conditions under which that holds.  Here every matcher is a pure
    function; the imperative drivers that store the result in an fi_record
    are in the IntervalExtraction module (get_interval.dfy). */
module ForbiddenIntervals {
  import opened Words
  import opened Terms
  import opened Constraints
  import opened Intervals

  datatype Option<T> = None | Some(value: T)

  // ---------------------------------------------------------------------
  // linear_decompose
  // ---------------------------------------------------------------------

  /** The tuple linear_decompose returns, plus the side conditions it appends.
      When `ok` holds, the polynomial is a*v + e and b is the numeral e
      evaluates to under the current assignment. */
  datatype Decomposition = Decomposition(ok: bool, a: nat, e: Expr, b: Expr, side: seq<Signed>)

  /** linear_decompose(v, p): factor p by v, then substitute the current
      assignment into the coefficient (adding the side condition q = r when
      the coefficient was not already a numeral) and into the remainder. */
  function LinearDecompose(v: nat, p: Expr, asg: Assignment, w: nat): (d: Decomposition)
    ensures d.ok ==> Degree(p, v) <= 1 && d.b.Num? && d.b.n < Pow2(w) && d.a < Pow2(w)
    ensures d.ok ==> (d.e.Num? ==> d.b.n == Wrap(d.e.n, Pow2(w)))
    ensures |d.side| <= 1
  {
    var m := Pow2(w);
    var deg := Degree(p, v);
    if deg > 1 then
      Decomposition(false, 0, Num(0), Num(0), [])
    else
      var qe := if deg == 0 then (Num(0), p) else Factor(p, v, m);
      var q, e := qe.0, qe.1;
      if !q.Num? then
        var r := Subst(q, asg, m);
        if !r.Num? then
          // the source returns (false, 0, q, e) here: q and e in the e and b slots
          Decomposition(false, 0, q, e, [])
        else
          var b := Subst(e, asg, m);
          Decomposition(b.Num?, r.n, e, b, [MkEq(q, r, w)])
      else
        var b := Subst(e, asg, m);
        Decomposition(b.Num?, Wrap(q.n, m), e, b, [])
  }

  /** Success is exactly: degree at most one, and both parts evaluate under the assignment. */
  lemma DecomposeSucceeds(v: nat, p: Expr, asg: Assignment, w: nat)
    ensures var m := Pow2(w);
      LinearDecompose(v, p, asg, w).ok <==>
        Degree(p, v) <= 1 &&
        var qe := if Degree(p, v) == 0 then (Num(0), p) else Factor(p, v, m);
        Subst(qe.0, asg, m).Num? && Subst(qe.1, asg, m).Num?
  {
    var m := Pow2(w);
    if Degree(p, v) <= 1 {
      var qe := if Degree(p, v) == 0 then (Num(0), p) else Factor(p, v, m);
      if qe.0.Num? {
        assert Subst(qe.0, asg, m) == Const(qe.0.n, m);
      }
    }
  }

  /** The coefficient side condition is added only for a non-numeral coefficient. */
  lemma DecomposeSideCondition(v: nat, p: Expr, asg: Assignment, w: nat)
    requires Degree(p, v) <= 1
    ensures var m := Pow2(w);
      var qe := if Degree(p, v) == 0 then (Num(0), p) else Factor(p, v, m);
      var d := LinearDecompose(v, p, asg, w);
      |d.side| == 1 <==> !qe.0.Num? && Subst(qe.0, asg, m).Num?
  {
  }

  /** Degree 0: the coefficient is 0 and e is p itself. */
  lemma DecomposeConstant(v: nat, p: Expr, asg: Assignment, w: nat)
    requires Degree(p, v) == 0
    ensures var d := LinearDecompose(v, p, asg, w);
      d.a == 0 && d.e == p && d.side == [] && d.ok == Subst(p, asg, Pow2(w)).Num?
  {
    WrapCases(0, Pow2(w));
  }

  lemma LinearValues(value: int, q: int, a: nat, x: nat, b: nat, m: nat)
    requires m > 0 && value == Wrap(q * x + b, m) && q == a
    ensures value == Wrap(a * x + b, m)
  {
  }

  /** Under every assignment satisfying its side conditions, p = a*v + e. */
  lemma DecomposeSound(v: nat, p: Expr, asg: Assignment, w: nat, env: Env)
    requires LinearDecompose(v, p, asg, w).ok
    requires AllHold(LinearDecompose(v, p, asg, w).side, env)
    ensures var m := Pow2(w); var d := LinearDecompose(v, p, asg, w);
      Eval(p, env, m) == Wrap(d.a * Eval(Var(v), env, m) + Eval(d.e, env, m), m)
  {
    var m := Pow2(w);
    var d := LinearDecompose(v, p, asg, w);
    var x := Eval(Var(v), env, m);
    if Degree(p, v) == 0 {
      DecomposeConstant(v, p, asg, w);
      ZeroCoefficientValues(0, x, Eval(p, env, m), m);
      WrapCases(0, m);
    } else {
      FactorSound(p, v, env, m);
      DecomposeCoefficient(v, p, asg, w, env);
      LinearValues(Eval(p, env, m), Eval(Factor(p, v, m).0, env, m), d.a, x, Eval(d.e, env, m), m);
    }
  }

  /** For degree one, the coefficient evaluates to a (the side condition pins a
      non-numeral coefficient to it) and e is the remainder of the split. */
  lemma DecomposeCoefficient(v: nat, p: Expr, asg: Assignment, w: nat, env: Env)
    requires Degree(p, v) == 1 && LinearDecompose(v, p, asg, w).ok
    requires AllHold(LinearDecompose(v, p, asg, w).side, env)
    ensures var m := Pow2(w); var d := LinearDecompose(v, p, asg, w);
      Eval(Factor(p, v, m).0, env, m) == d.a && d.e == Factor(p, v, m).1
  {
    var m := Pow2(w);
    var d := LinearDecompose(v, p, asg, w);
    var q := Factor(p, v, m).0;
    if !q.Num? {
      var r := Subst(q, asg, m);
      assert d.side == [MkEq(q, r, w)];
      assert Holds(d.side[0], env);
      HoldsEq(q, r, w, env);
      EvalNum(r.n, env, m);
    }
  }

  /** Under the current assignment the side conditions hold and e evaluates to b. */
  lemma DecomposeCurrent(v: nat, p: Expr, asg: Assignment, w: nat, env: Env)
    requires Agrees(env, asg) && LinearDecompose(v, p, asg, w).ok
    ensures var d := LinearDecompose(v, p, asg, w);
      AllHold(d.side, env) && Eval(d.e, env, Pow2(w)) == d.b.n
  {
    var m := Pow2(w);
    var d := LinearDecompose(v, p, asg, w);
    SubstSound(d.e, asg, env, m);
    EvalNum(d.b.n, env, m);
    if d.side != [] {
      var q := Factor(p, v, m).0;
      var r := Subst(q, asg, m);
      SubstSound(q, asg, env, m);
      HoldsEq(q, r, w, env);
    }
  }

  // ---------------------------------------------------------------------
  // push_eq, to_interval, add_non_unit_side_conds
  // ---------------------------------------------------------------------

  /** push_eq: record that p is zero (or non-zero); nothing when p is a numeral,
      whose value is already known. */
  function PushEq(isZero: bool, p: Expr, w: nat): (side: seq<Signed>)
    ensures p.Num? <==> side == []
    ensures forall env: Env :: AllHold(side, env) ==> p.Num? || ((Eval(p, env, Pow2(w)) == 0) == isZero)
  {
    if p.Num? then []
    else
      var z := MkEqZero(p, w);
      var sc := if isZero then z else Negate(z);
      assert forall env: Env :: AllHold([sc], env) ==> ((Eval(p, env, Pow2(w)) == 0) == isZero) by {
        forall env: Env | AllHold([sc], env) ensures (Eval(p, env, Pow2(w)) == 0) == isZero {
          assert Holds([sc][0], env);
          HoldsEqZero(p, w, env);
        }
      }
      [sc]
  }

  /** The endpoints and coefficient after the reflection y in [l, u) <=> -y in [1 - u, 1 - l)
      that to_interval applies when the coefficient exceeds half the modulus. */
  function Reflect(coeff: int, lo: Endpoint, hi: Endpoint, m: nat): (r: (int, Endpoint, Endpoint))
    requires m > 0
  {
    (m - coeff,
     Endpoint(Minus(Const(1, m), hi.sym, m), Wrap(1 - hi.val, m)),
     Endpoint(Minus(Const(1, m), lo.sym, m), Wrap(1 - lo.val, m)))
  }

  /** to_interval: Empty (positive) or Full (negative) for a trivial literal;
      otherwise [lo, hi) for a positive and [hi, lo) for a negative literal,
      after reflecting when 2 * coeff > 2^N.  Returns the interval and the new coefficient. */
  function ToInterval(positive: bool, trivial: bool, coeff: int, lo: Endpoint, hi: Endpoint, m: nat): (r: (Interval, int))
    requires m > 0
    ensures trivial ==> r.1 == coeff && r.0 == (if positive then Empty else Full)
    ensures !trivial ==> r.0.Proper? && (2 * coeff > m ==> r.1 == m - coeff) && (2 * coeff <= m ==> r.1 == coeff)
    ensures 0 <= coeff <= m ==> 0 <= r.1 <= m
  {
    if trivial then
      (if positive then Empty else Full, coeff)
    else
      var n := if 2 * coeff > m then Reflect(coeff, lo, hi, m) else (coeff, lo, hi);
      (if positive then Proper(n.1, n.2) else Proper(n.2, n.1), n.0)
  }

  lemma EvalOneMinus(s: Expr, env: Env, m: nat)
    requires m > 0
    ensures Eval(Minus(Const(1, m), s, m), env, m) == Wrap(1 - Eval(s, env, m), m)
  {
    EvalMinus(Const(1, m), s, env, m);
    EvalConst(1, env, m);
    WrapAdd(1, -(Eval(s, env, m) as int), m);
  }

  lemma ReflectRing(c: int, x: int, m: int)
    ensures (m - c) * x == -(c * x) + x * m
  {
  }

  /** Reflection on values: (m - c) * x is in [1 - h, 1 - l) iff c * x is in [l, h). */
  lemma ReflectValues(c: int, x: int, l: nat, h: nat, l': int, h': int, m: nat)
    requires l < m && h < m && l != h
    requires l' == Wrap(1 - h, m) && h' == Wrap(1 - l, m)
    ensures l' != h'
    ensures InRange((m - c) * x, l', h', m) <==> InRange(c * x, l, h, m)
  {
    WrapCases(1 - h, m);
    WrapCases(1 - l, m);
    ReflectRing(c, x, m);
    WrapAddMultiple(-(c * x), x, m);
    InRangeWrap((m - c) * x, l', h', m);
    InRangeWrap(-(c * x), l', h', m);
    Negation(c * x, l, h, m);
  }

  /** Reflection keeps membership: (m - c) * x is in the reflected interval iff c * x is in the original. */
  lemma ReflectSound(coeff: int, lo: Endpoint, hi: Endpoint, x: int, env: Env, m: nat)
    requires m > 0 && Eval(lo.sym, env, m) != Eval(hi.sym, env, m)
    ensures var r := Reflect(coeff, lo, hi, m);
      var l, h := Eval(lo.sym, env, m), Eval(hi.sym, env, m);
      var l', h' := Eval(r.1.sym, env, m), Eval(r.2.sym, env, m);
      l' != h' && (InRange(r.0 * x, l', h', m) <==> InRange(coeff * x, l, h, m))
  {
    EvalOneMinus(hi.sym, env, m);
    EvalOneMinus(lo.sym, env, m);
    var r := Reflect(coeff, lo, hi, m);
    ReflectValues(coeff, x, Eval(lo.sym, env, m), Eval(hi.sym, env, m),
      Eval(r.1.sym, env, m), Eval(r.2.sym, env, m), m);
  }

  /** to_interval is sound: given a literal whose positive form is `base`, with
      c * v in [lo, hi) exactly when base fails, the interval returned holds
      c' * v exactly when the literal is false. */
  lemma ToIntervalSound(positive: bool, trivial: bool, coeff: int, lo: Endpoint, hi: Endpoint,
                        x: int, env: Env, m: nat, base: bool)
    requires m > 0
    requires trivial ==> base
    requires !trivial ==> Eval(lo.sym, env, m) != Eval(hi.sym, env, m)
    requires !trivial ==> (InRange(coeff * x, Eval(lo.sym, env, m), Eval(hi.sym, env, m), m) <==> !base)
    ensures var r := ToInterval(positive, trivial, coeff, lo, hi, m);
      Contains(EvalAt(r.0, env, m), Wrap(r.1 * x, m), m) <==> base != positive
  {
    if !trivial {
      var n := if 2 * coeff > m then Reflect(coeff, lo, hi, m) else (coeff, lo, hi);
      if 2 * coeff > m {
        ReflectSound(coeff, lo, hi, x, env, m);
      }
      var l, h := Eval(n.1.sym, env, m), Eval(n.2.sym, env, m);
      assert l != h && (InRange(n.0 * x, l, h, m) <==> !base);
      InRangeWrap(n.0 * x, h, l, m);
      InRangeWrap(n.0 * x, l, h, m);
      Complement(n.0 * x, l, h, m);
    }
  }

  /** add_non_unit_side_conds: for a coefficient other than 1, pin e1 and e2 to
      their current values b1 and b2 (each only when it is not already that numeral). */
  function NonUnitSideConds(coeff: int, e1: Expr, b1: nat, e2: Expr, b2: nat, w: nat): (side: seq<Signed>)
    ensures coeff == 1 ==> side == []
    ensures forall env: Env :: AllHold(side, env) && coeff != 1 ==>
      Eval(e1, env, Pow2(w)) == Eval(Num(b1), env, Pow2(w)) && Eval(e2, env, Pow2(w)) == Eval(Num(b2), env, Pow2(w))
  {
    if coeff == 1 then []
    else
      var s1 := if e1 != Num(b1) then [MkEq(Num(b1), e1, w)] else [];
      var s2 := if e2 != Num(b2) then [MkEq(Num(b2), e2, w)] else [];
      assert forall env: Env :: AllHold(s1 + s2, env) ==>
        Eval(e1, env, Pow2(w)) == Eval(Num(b1), env, Pow2(w)) && Eval(e2, env, Pow2(w)) == Eval(Num(b2), env, Pow2(w)) by {
        forall env: Env | AllHold(s1 + s2, env)
          ensures Eval(e1, env, Pow2(w)) == Eval(Num(b1), env, Pow2(w)) && Eval(e2, env, Pow2(w)) == Eval(Num(b2), env, Pow2(w))
        {
          AllHoldAppend(s1, s2, env);
          HoldsEq(Num(b1), e1, w, env);
          HoldsEq(Num(b2), e2, w, env);
          if s1 != [] { assert Holds(s1[0], env); }
          if s2 != [] { assert Holds(s2[0], env); }
        }
      }
      s1 + s2
  }

  // ---------------------------------------------------------------------
  // The matchers of get_interval_ule
  // ---------------------------------------------------------------------

  /** One side of `lhs <= rhs` after decomposition: a*v + e, where e currently
      evaluates to the numeral b. */
  datatype Side = Side(a: nat, e: Expr, b: nat)

  /** What linear_decompose guarantees of a side it returns with ok set. */
  predicate SideOk(s: Side, m: nat)
    requires m > 0
  {
    s.a < m && s.b < m && (s.e.Num? ==> s.b == Wrap(s.e.n, m))
  }

  /** A forbidden interval for coeff * v together with its side conditions. */
  datatype Found = Found(interval: Interval, coeff: int, side: seq<Signed>)

  /** The value of a side when v is x. */
  function Lin(s: Side, x: int, env: Env, m: nat): (r: nat)
    requires m > 0
  {
    Wrap(s.a * x + Eval(s.e, env, m), m)
  }

  /** The literal a1*v + e1 <= a2*v + e2 (or its negation) at v = x. */
  predicate Literal(positive: bool, s1: Side, s2: Side, x: int, env: Env, m: nat)
    requires m > 0
  {
    (Lin(s1, x, env, m) <= Lin(s2, x, env, m)) == positive
  }

  /** The interval holds coeff * x exactly when the literal is false at x. */
  predicate ForbidsExactly(f: Found, positive: bool, s1: Side, s2: Side, x: int, env: Env, m: nat)
    requires m > 0
  {
    Contains(EvalAt(f.interval, env, m), Wrap(f.coeff * x, m), m) <==> !Literal(positive, s1, s2, x, env, m)
  }

  lemma EvalPlusOne(e: Expr, env: Env, m: nat)
    requires m > 0
    ensures Eval(Plus(e, Const(1, m), m), env, m) == Wrap(Eval(e, env, m) + 1, m)
  {
    EvalPlus(e, Const(1, m), env, m);
    EvalConst(1, env, m);
    WrapAddRight(Eval(e, env, m), 1, m);
  }

  lemma EvalLinear1Lo(e1: Expr, e2: Expr, env: Env, m: nat)
    requires m > 0
    ensures Eval(Plus(Minus(e2, e1, m), Const(1, m), m), env, m)
         == Wrap(Eval(e2, env, m) - Eval(e1, env, m) + 1, m)
  {
    EvalPlusOne(Minus(e2, e1, m), env, m);
    EvalMinus(e2, e1, env, m);
    WrapAdd(Eval(e2, env, m) - Eval(e1, env, m), 1, m);
  }

  /** The value of a side without v. */
  lemma LinConstant(s: Side, x: int, env: Env, m: nat)
    requires m > 0 && s.a == 0
    ensures Lin(s, x, env, m) == Eval(s.e, env, m)
  {
    WrapCases(Eval(s.e, env, m), m);
  }

  /** push_eq's side condition, or the numeral it skips, fixes whether p is zero. */
  lemma PushEqFixes(isZero: bool, p: Expr, w: nat, env: Env)
    requires AllHold(PushEq(isZero, p, w), env) && !p.Num?
    ensures (Eval(p, env, Pow2(w)) == 0) == isZero
  {
  }

  lemma PushEqCurrent(isZero: bool, p: Expr, w: nat, env: Env)
    requires (Eval(p, env, Pow2(w)) == 0) == isZero
    ensures AllHold(PushEq(isZero, p, w), env)
  {
    if !p.Num? {
      HoldsEqZero(p, w, env);
    }
  }

  lemma NonUnitCurrent(coeff: int, e1: Expr, b1: nat, e2: Expr, b2: nat, w: nat, env: Env)
    requires b1 < Pow2(w) && b2 < Pow2(w)
    requires Eval(e1, env, Pow2(w)) == b1 && Eval(e2, env, Pow2(w)) == b2
    ensures AllHold(NonUnitSideConds(coeff, e1, b1, e2, b2, w), env)
  {
    EvalNum(b1, env, Pow2(w));
    EvalNum(b2, env, Pow2(w));
    HoldsEq(Num(b1), e1, w, env);
    HoldsEq(Num(b2), e2, w, env);
    var s1 := if e1 != Num(b1) then [MkEq(Num(b1), e1, w)] else [];
    var s2 := if e2 != Num(b2) then [MkEq(Num(b2), e2, w)] else [];
    AllHoldAppend(s1, s2, env);
  }

  /** to_interval keeps endpoint values in step with their polynomials. */
  lemma ToIntervalConsistent(positive: bool, trivial: bool, coeff: int, lo: Endpoint, hi: Endpoint, env: Env, m: nat)
    requires m > 0 && ConsistentAt(Proper(lo, hi), env, m)
    ensures ConsistentAt(ToInterval(positive, trivial, coeff, lo, hi, m).0, env, m)
  {
    EvalOneMinus(hi.sym, env, m);
    EvalOneMinus(lo.sym, env, m);
  }

  /** The common tail of match_linear1..3: push_eq for the trivial case,
      to_interval, then the side conditions for a non-unit coefficient. */
  function LinearPattern(positive: bool, trivial: bool, p: Expr, lo: Endpoint, hi: Endpoint, coeff: int,
                         s1: Side, s2: Side, w: nat): (f: Found)
    ensures f.side == PushEq(trivial, p, w) + NonUnitSideConds(f.coeff, s1.e, s1.b, s2.e, s2.b, w)
  {
    var ic := ToInterval(positive, trivial, coeff, lo, hi, Pow2(w));
    Found(ic.0, ic.1, PushEq(trivial, p, w) + NonUnitSideConds(ic.1, s1.e, s1.b, s2.e, s2.b, w))
  }

  /** What a linear matcher must establish once its push_eq condition holds:
      a trivial literal is true, and otherwise coeff * x lies in [lo, hi)
      exactly when the positive literal fails. */
  predicate PatternFacts(trivial: bool, lo: Endpoint, hi: Endpoint, coeff: int,
                         s1: Side, s2: Side, x: int, env: Env, m: nat)
    requires m > 0
  {
    var base := Lin(s1, x, env, m) <= Lin(s2, x, env, m);
    (trivial ==> base) &&
    (!trivial ==> Eval(lo.sym, env, m) != Eval(hi.sym, env, m) &&
                  (InRange(coeff * x, Eval(lo.sym, env, m), Eval(hi.sym, env, m), m) <==> !base))
  }

  /** PatternFacts from the values of the endpoints and of both sides. */
  lemma PatternFactsIntro(trivial: bool, lo: Endpoint, hi: Endpoint, coeff: int, s1: Side, s2: Side,
                          x: int, env: Env, m: nat, t: int, l: int, h: int, u1: int, u2: int)
    requires m > 0 && coeff * x == t
    requires Eval(lo.sym, env, m) == l && Eval(hi.sym, env, m) == h
    requires Lin(s1, x, env, m) == u1 && Lin(s2, x, env, m) == u2
    requires trivial ==> u1 <= u2
    requires !trivial ==> l != h && (InRange(t, l, h, m) <==> !(u1 <= u2))
    ensures PatternFacts(trivial, lo, hi, coeff, s1, s2, x, env, m)
  {
  }

  lemma LinearPatternSound(positive: bool, trivial: bool, p: Expr, lo: Endpoint, hi: Endpoint, coeff: int,
                           s1: Side, s2: Side, w: nat, x: int, env: Env)
    requires AllHold(LinearPattern(positive, trivial, p, lo, hi, coeff, s1, s2, w).side, env)
    requires AllHold(PushEq(trivial, p, w), env) ==> PatternFacts(trivial, lo, hi, coeff, s1, s2, x, env, Pow2(w))
    ensures ForbidsExactly(LinearPattern(positive, trivial, p, lo, hi, coeff, s1, s2, w), positive, s1, s2, x, env, Pow2(w))
  {
    var m := Pow2(w);
    var f := LinearPattern(positive, trivial, p, lo, hi, coeff, s1, s2, w);
    AllHoldAppend(PushEq(trivial, p, w), NonUnitSideConds(f.coeff, s1.e, s1.b, s2.e, s2.b, w), env);
    ToIntervalSound(positive, trivial, coeff, lo, hi, x, env, m, Lin(s1, x, env, m) <= Lin(s2, x, env, m));
  }

  lemma LinearPatternCurrent(positive: bool, trivial: bool, p: Expr, lo: Endpoint, hi: Endpoint, coeff: int,
                             s1: Side, s2: Side, w: nat, env: Env)
    requires s1.b < Pow2(w) && s2.b < Pow2(w)
    requires Eval(s1.e, env, Pow2(w)) == s1.b && Eval(s2.e, env, Pow2(w)) == s2.b
    requires (Eval(p, env, Pow2(w)) == 0) == trivial
    requires ConsistentAt(Proper(lo, hi), env, Pow2(w))
    ensures var f := LinearPattern(positive, trivial, p, lo, hi, coeff, s1, s2, w);
      AllHold(f.side, env) && ConsistentAt(f.interval, env, Pow2(w))
  {
    var f := LinearPattern(positive, trivial, p, lo, hi, coeff, s1, s2, w);
    PushEqCurrent(trivial, p, w, env);
    NonUnitCurrent(f.coeff, s1.e, s1.b, s2.e, s2.b, w, env);
    AllHoldAppend(PushEq(trivial, p, w), NonUnitSideConds(f.coeff, s1.e, s1.b, s2.e, s2.b, w), env);
    ToIntervalConsistent(positive, trivial, coeff, lo, hi, env, Pow2(w));
  }

  // ---- match_linear1:  e1 + a1*v <= e2 ----

  function Linear1Lo(s1: Side, s2: Side, m: nat): Endpoint
    requires m > 0
  {
    Endpoint(Plus(Minus(s2.e, s1.e, m), Const(1, m), m), Wrap(s2.b - s1.b + 1, m))
  }

  function Linear1Hi(s1: Side, m: nat): Endpoint
    requires m > 0
  {
    Endpoint(Neg(s1.e, m), Wrap(-(s1.b as int), m))
  }

  /** match_linear1: applies when only the left side mentions v; trivial when e2 = -1;
      the forbidden interval for a1*v is [e2 - e1 + 1, -e1). */
  function MatchLinear1(positive: bool, s1: Side, s2: Side, w: nat): (r: Option<Found>)
    ensures r.Some? <==> s2.a == 0 && s1.a != 0
  {
    if s2.a == 0 && s1.a != 0 then
      var m := Pow2(w);
      var trivial := Wrap(s2.b + 1, m) == 0;
      Some(LinearPattern(positive, trivial, Plus(s2.e, Const(1, m), m),
        Linear1Lo(s1, s2, m), Linear1Hi(s1, m), s1.a, s1, s2, w))
    else
      None
  }

  /** On values: with y2 != -1, t + y1 exceeds y2 exactly on [y2 - y1 + 1, -y1). */
  lemma Linear1Values(t: int, y1: int, y2: int, m: nat)
    requires 0 <= y1 < m && 0 <= y2 && y2 + 1 < m
    ensures Wrap(y2 - y1 + 1, m) != Wrap(-y1, m)
    ensures InRange(t, Wrap(y2 - y1 + 1, m), Wrap(-y1, m), m) <==> !(Wrap(t + y1, m) <= y2)
  {
    ShiftAbove(t, y1, y2 + 1, m);
    assert y2 + 1 - y1 == y2 - y1 + 1;
    WrapDiff(y2 - y1 + 1, -y1, m);
    assert (y2 - y1 + 1) - -y1 == y2 + 1;
    WrapCases(y2 + 1, m);
    WrapCases(0, m);
  }

  /** Under its push_eq condition, match_linear1's trivial flag means e2 = -1. */
  lemma Linear1Trivial(s2: Side, w: nat, env: Env)
    requires SideOk(s2, Pow2(w))
    requires var m := Pow2(w);
      AllHold(PushEq(Wrap(s2.b + 1, m) == 0, Plus(s2.e, Const(1, m), m), w), env)
    ensures var m := Pow2(w);
      (Wrap(s2.b + 1, m) == 0) <==> Eval(s2.e, env, m) + 1 == m
  {
    var m := Pow2(w);
    var y2: int := Eval(s2.e, env, m);
    var trivial := Wrap(s2.b + 1, m) == 0;
    var p := Plus(s2.e, Const(1, m), m);
    WrapCases(s2.b + 1, m);
    WrapCases(y2 + 1, m);
    EvalPlusOne(s2.e, env, m);
    FoldsNumerals(s2.e, Const(1, m), m);
    if p.Num? {
      EvalNum(s2.b, env, m);
    } else {
      PushEqFixes(trivial, p, w, env);
    }
  }

  /** On values, both cases of match_linear1: trivial (y2 = -1) bounds t + y1
      by y2 outright, otherwise Linear1Values applies. */
  lemma Linear1Cases(trivial: bool, t: int, y1: int, y2: int, m: nat)
    requires 0 <= y1 < m && 0 <= y2 < m && (trivial <==> y2 + 1 == m)
    ensures trivial ==> Wrap(t + y1, m) <= y2
    ensures !trivial ==> Wrap(y2 - y1 + 1, m) != Wrap(-y1, m)
    ensures !trivial ==> (InRange(t, Wrap(y2 - y1 + 1, m), Wrap(-y1, m), m) <==> !(Wrap(t + y1, m) <= y2))
  {
    if !trivial {
      Linear1Values(t, y1, y2, m);
    }
  }

  /** The values of match_linear1's endpoints and of both sides. */
  lemma Linear1Endpoints(s1: Side, s2: Side, x: int, env: Env, m: nat, t: int, y1: int, y2: int)
    requires m > 0 && s2.a == 0
    requires t == s1.a * x && y1 == Eval(s1.e, env, m) && y2 == Eval(s2.e, env, m)
    ensures Eval(Linear1Lo(s1, s2, m).sym, env, m) == Wrap(y2 - y1 + 1, m)
    ensures Eval(Linear1Hi(s1, m).sym, env, m) == Wrap(-y1, m)
    ensures Lin(s1, x, env, m) == Wrap(t + y1, m)
    ensures Lin(s2, x, env, m) == y2
  {
    LinConstant(s2, x, env, m);
    EvalLinear1Lo(s1.e, s2.e, env, m);
    EvalNeg(s1.e, env, m);
  }

  lemma Linear1Facts(s1: Side, s2: Side, w: nat, x: int, env: Env)
    requires s2.a == 0
    requires var m := Pow2(w);
      (Wrap(s2.b + 1, m) == 0) <==> Eval(s2.e, env, m) + 1 == m
    ensures var m := Pow2(w);
      PatternFacts(Wrap(s2.b + 1, m) == 0, Linear1Lo(s1, s2, m), Linear1Hi(s1, m), s1.a, s1, s2, x, env, m)
  {
    var m := Pow2(w);
    var y1: int, y2: int := Eval(s1.e, env, m), Eval(s2.e, env, m);
    var t := s1.a * x;
    var trivial := Wrap(s2.b + 1, m) == 0;
    Linear1Endpoints(s1, s2, x, env, m, t, y1, y2);
    Linear1Cases(trivial, t, y1, y2, m);
    PatternFactsIntro(trivial, Linear1Lo(s1, s2, m), Linear1Hi(s1, m), s1.a, s1, s2, x, env, m,
      t, Wrap(y2 - y1 + 1, m), Wrap(-y1, m), Wrap(t + y1, m), y2);
  }

  lemma MatchLinear1Sound(positive: bool, s1: Side, s2: Side, w: nat, x: int, env: Env)
    requires SideOk(s1, Pow2(w)) && SideOk(s2, Pow2(w))
    requires MatchLinear1(positive, s1, s2, w).Some?
    requires AllHold(MatchLinear1(positive, s1, s2, w).value.side, env)
    ensures ForbidsExactly(MatchLinear1(positive, s1, s2, w).value, positive, s1, s2, x, env, Pow2(w))
  {
    var m := Pow2(w);
    var trivial := Wrap(s2.b + 1, m) == 0;
    var p := Plus(s2.e, Const(1, m), m);
    if AllHold(PushEq(trivial, p, w), env) {
      Linear1Trivial(s2, w, env);
      Linear1Facts(s1, s2, w, x, env);
    }
    LinearPatternSound(positive, trivial, p, Linear1Lo(s1, s2, m), Linear1Hi(s1, m), s1.a, s1, s2, w, x, env);
  }

  lemma Linear1EndpointsCurrent(s1: Side, s2: Side, env: Env, m: nat)
    requires m > 0 && Eval(s1.e, env, m) == s1.b && Eval(s2.e, env, m) == s2.b
    ensures ConsistentAt(Proper(Linear1Lo(s1, s2, m), Linear1Hi(s1, m)), env, m)
    ensures (Eval(Plus(s2.e, Const(1, m), m), env, m) == 0) == (Wrap(s2.b + 1, m) == 0)
  {
    EvalPlusOne(s2.e, env, m);
    EvalLinear1Lo(s1.e, s2.e, env, m);
    EvalNeg(s1.e, env, m);
  }

  lemma MatchLinear1Current(positive: bool, s1: Side, s2: Side, w: nat, env: Env)
    requires SideOk(s1, Pow2(w)) && SideOk(s2, Pow2(w))
    requires Eval(s1.e, env, Pow2(w)) == s1.b && Eval(s2.e, env, Pow2(w)) == s2.b
    requires MatchLinear1(positive, s1, s2, w).Some?
    ensures var f := MatchLinear1(positive, s1, s2, w).value;
      AllHold(f.side, env) && ConsistentAt(f.interval, env, Pow2(w))
  {
    var m := Pow2(w);
    Linear1EndpointsCurrent(s1, s2, env, m);
    LinearPatternCurrent(positive, Wrap(s2.b + 1, m) == 0, Plus(s2.e, Const(1, m), m),
      Linear1Lo(s1, s2, m), Linear1Hi(s1, m), s1.a, s1, s2, w, env);
  }

  // ---- match_linear2:  e1 <= e2 + a2*v ----

  function Linear2Lo(s2: Side, m: nat): Endpoint
    requires m > 0
  {
    Endpoint(Neg(s2.e, m), Wrap(-(s2.b as int), m))
  }

  function Linear2Hi(s1: Side, s2: Side, m: nat): Endpoint
    requires m > 0
  {
    Endpoint(Minus(s1.e, s2.e, m), Wrap(s1.b - s2.b, m))
  }

  /** match_linear2: applies when only the right side mentions v; trivial when e1 = 0;
      the forbidden interval for a2*v is [-e2, e1 - e2). */
  function MatchLinear2(positive: bool, s1: Side, s2: Side, w: nat): (r: Option<Found>)
    ensures r.Some? <==> s1.a == 0 && s2.a != 0
  {
    if s1.a == 0 && s2.a != 0 then
      var m := Pow2(w);
      Some(LinearPattern(positive, s1.b == 0, s1.e, Linear2Lo(s2, m), Linear2Hi(s1, s2, m), s2.a, s1, s2, w))
    else
      None
  }

  /** On values: with y1 != 0, t + y2 is below y1 exactly on [-y2, y1 - y2). */
  lemma Linear2Values(t: int, y1: int, y2: int, m: nat)
    requires 0 < y1 < m && 0 <= y2 < m
    ensures Wrap(-y2, m) != Wrap(y1 - y2, m)
    ensures InRange(t, Wrap(-y2, m), Wrap(y1 - y2, m), m) <==> !(y1 <= Wrap(t + y2, m))
  {
    Shift(t, y2, y1, m);
    WrapDiff(y1 - y2, -y2, m);
    assert (y1 - y2) - -y2 == y1;
    WrapCases(y1, m);
    WrapCases(0, m);
  }

  /** Under its push_eq condition, match_linear2's trivial flag means e1 = 0. */
  lemma Linear2Trivial(s1: Side, w: nat, env: Env)
    requires SideOk(s1, Pow2(w)) && AllHold(PushEq(s1.b == 0, s1.e, w), env)
    ensures s1.b == 0 <==> Eval(s1.e, env, Pow2(w)) == 0
  {
    if !s1.e.Num? {
      PushEqFixes(s1.b == 0, s1.e, w, env);
    }
  }

  /** On values, both cases of match_linear2: trivial (y1 = 0) makes the
      literal hold outright, otherwise Linear2Values applies. */
  lemma Linear2Cases(trivial: bool, t: int, y1: int, y2: int, m: nat)
    requires 0 <= y1 < m && 0 <= y2 < m && (trivial <==> y1 == 0)
    ensures trivial ==> y1 <= Wrap(t + y2, m)
    ensures !trivial ==> Wrap(-y2, m) != Wrap(y1 - y2, m)
    ensures !trivial ==> (InRange(t, Wrap(-y2, m), Wrap(y1 - y2, m), m) <==> !(y1 <= Wrap(t + y2, m)))
  {
    if !trivial {
      Linear2Values(t, y1, y2, m);
    }
  }

  /** The values of match_linear2's endpoints and of both sides. */
  lemma Linear2Endpoints(s1: Side, s2: Side, x: int, env: Env, m: nat, t: int, y1: int, y2: int)
    requires m > 0 && s1.a == 0
    requires t == s2.a * x && y1 == Eval(s1.e, env, m) && y2 == Eval(s2.e, env, m)
    ensures Eval(Linear2Lo(s2, m).sym, env, m) == Wrap(-y2, m)
    ensures Eval(Linear2Hi(s1, s2, m).sym, env, m) == Wrap(y1 - y2, m)
    ensures Lin(s1, x, env, m) == y1
    ensures Lin(s2, x, env, m) == Wrap(t + y2, m)
  {
    LinConstant(s1, x, env, m);
    EvalNeg(s2.e, env, m);
    EvalMinus(s1.e, s2.e, env, m);
  }

  lemma Linear2Facts(s1: Side, s2: Side, w: nat, x: int, env: Env)
    requires s1.a == 0
    requires s1.b == 0 <==> Eval(s1.e, env, Pow2(w)) == 0
    ensures var m := Pow2(w);
      PatternFacts(s1.b == 0, Linear2Lo(s2, m), Linear2Hi(s1, s2, m), s2.a, s1, s2, x, env, m)
  {
    var m := Pow2(w);
    var y1: int, y2: int := Eval(s1.e, env, m), Eval(s2.e, env, m);
    var t := s2.a * x;
    Linear2Endpoints(s1, s2, x, env, m, t, y1, y2);
    Linear2Cases(s1.b == 0, t, y1, y2, m);
    PatternFactsIntro(s1.b == 0, Linear2Lo(s2, m), Linear2Hi(s1, s2, m), s2.a, s1, s2, x, env, m,
      t, Wrap(-y2, m), Wrap(y1 - y2, m), y1, Wrap(t + y2, m));
  }

  lemma MatchLinear2Sound(positive: bool, s1: Side, s2: Side, w: nat, x: int, env: Env)
    requires SideOk(s1, Pow2(w)) && SideOk(s2, Pow2(w))
    requires MatchLinear2(positive, s1, s2, w).Some?
    requires AllHold(MatchLinear2(positive, s1, s2, w).value.side, env)
    ensures ForbidsExactly(MatchLinear2(positive, s1, s2, w).value, positive, s1, s2, x, env, Pow2(w))
  {
    var m := Pow2(w);
    if AllHold(PushEq(s1.b == 0, s1.e, w), env) {
      Linear2Trivial(s1, w, env);
      Linear2Facts(s1, s2, w, x, env);
    }
    LinearPatternSound(positive, s1.b == 0, s1.e, Linear2Lo(s2, m), Linear2Hi(s1, s2, m), s2.a, s1, s2, w, x, env);
  }

  lemma Linear2EndpointsCurrent(s1: Side, s2: Side, env: Env, m: nat)
    requires m > 0 && Eval(s1.e, env, m) == s1.b && Eval(s2.e, env, m) == s2.b
    ensures ConsistentAt(Proper(Linear2Lo(s2, m), Linear2Hi(s1, s2, m)), env, m)
  {
    EvalNeg(s2.e, env, m);
    EvalMinus(s1.e, s2.e, env, m);
  }

  lemma MatchLinear2Current(positive: bool, s1: Side, s2: Side, w: nat, env: Env)
    requires SideOk(s1, Pow2(w)) && SideOk(s2, Pow2(w))
    requires Eval(s1.e, env, Pow2(w)) == s1.b && Eval(s2.e, env, Pow2(w)) == s2.b
    requires MatchLinear2(positive, s1, s2, w).Some?
    ensures var f := MatchLinear2(positive, s1, s2, w).value;
      AllHold(f.side, env) && ConsistentAt(f.interval, env, Pow2(w))
  {
    var m := Pow2(w);
    Linear2EndpointsCurrent(s1, s2, env, m);
    LinearPatternCurrent(positive, s1.b == 0, s1.e, Linear2Lo(s2, m), Linear2Hi(s1, s2, m), s2.a, s1, s2, w, env);
  }

  // ---- match_linear3:  e1 + a*v <= e2 + a*v ----

  function Linear3Lo(s2: Side, m: nat): Endpoint
    requires m > 0
  {
    Endpoint(Neg(s2.e, m), Wrap(-(s2.b as int), m))
  }

  function Linear3Hi(s1: Side, m: nat): Endpoint
    requires m > 0
  {
    Endpoint(Neg(s1.e, m), Wrap(-(s1.b as int), m))
  }

  /** match_linear3: applies when both sides carry the same non-zero coefficient;
      trivial when e1 = e2; the forbidden interval for a*v is [-e2, -e1). */
  function MatchLinear3(positive: bool, s1: Side, s2: Side, w: nat): (r: Option<Found>)
    ensures r.Some? <==> s1.a == s2.a && s1.a != 0
  {
    if s1.a == s2.a && s1.a != 0 then
      var m := Pow2(w);
      Some(LinearPattern(positive, s1.b == s2.b, Minus(s1.e, s2.e, m),
        Linear3Lo(s2, m), Linear3Hi(s1, m), s1.a, s1, s2, w))
    else
      None
  }

  /** A non-zero offset d moves u upwards exactly when u + d does not wrap. */
  lemma OffsetUp(u: int, d: int, m: nat)
    requires 0 <= u < m && 0 < d < m
    ensures Wrap(u + d, m) > u <==> u < m - d
  {
    WrapCases(u + d, m);
  }

  /** For distinct residues y1, y2: y1 - y2 is a non-zero residue d and y2 - y1 is m - d. */
  lemma OppositeOffsets(y1: int, y2: int, m: nat)
    requires 0 <= y1 < m && 0 <= y2 < m && y1 != y2
    ensures 0 < Wrap(y1 - y2, m) && Wrap(y2 - y1, m) == m - Wrap(y1 - y2, m)
    ensures Wrap(-y2, m) != Wrap(-y1, m)
  {
    WrapCases(y1 - y2, m);
    WrapCases(y2 - y1, m);
    WrapCases(-y1, m);
    WrapCases(-y2, m);
  }

  /** t + y1 is (t + y2) + (y1 - y2), up to residues. */
  lemma RebaseSum(t: int, y1: int, y2: int, m: nat)
    requires m > 0
    ensures Wrap(t + y1, m) == Wrap(Wrap(t + y2, m) + Wrap(y1 - y2, m), m)
  {
    WrapSum(t + y2, y1 - y2, m);
    assert (t + y2) + (y1 - y2) == t + y1;
  }

  /** t in [-y2, -y1) compares the offset of t + y2 with y2 - y1. */
  lemma Linear3Range(t: int, y1: int, y2: int, m: nat)
    requires m > 0
    ensures InRange(t, Wrap(-y2, m), Wrap(-y1, m), m) <==> Wrap(t + y2, m) < Wrap(y2 - y1, m)
  {
    InRangeWrap(t, -y2, -y1, m);
    assert t - -y2 == t + y2 && -y1 - -y2 == y2 - y1;
  }

  /** On values: with y1 != y2, t + y1 exceeds t + y2 exactly when t lies in [-y2, -y1). */
  lemma Linear3Values(t: int, y1: int, y2: int, m: nat)
    requires 0 <= y1 < m && 0 <= y2 < m && y1 != y2
    ensures Wrap(-y2, m) != Wrap(-y1, m)
    ensures InRange(t, Wrap(-y2, m), Wrap(-y1, m), m) <==> !(Wrap(t + y1, m) <= Wrap(t + y2, m))
  {
    Linear3Range(t, y1, y2, m);
    RebaseSum(t, y1, y2, m);
    OppositeOffsets(y1, y2, m);
    OffsetUp(Wrap(t + y2, m), Wrap(y1 - y2, m), m);
  }

  /** Under its push_eq condition, match_linear3's trivial flag means e1 = e2. */
  lemma Linear3Trivial(s1: Side, s2: Side, w: nat, env: Env)
    requires SideOk(s1, Pow2(w)) && SideOk(s2, Pow2(w))
    requires AllHold(PushEq(s1.b == s2.b, Minus(s1.e, s2.e, Pow2(w)), w), env)
    ensures s1.b == s2.b <==> Eval(s1.e, env, Pow2(w)) == Eval(s2.e, env, Pow2(w))
  {
    var m := Pow2(w);
    var p := Minus(s1.e, s2.e, m);
    var y1: int, y2: int := Eval(s1.e, env, m), Eval(s2.e, env, m);
    FoldsNumerals(s1.e, s2.e, m);
    if !p.Num? {
      PushEqFixes(s1.b == s2.b, p, w, env);
      EvalMinus(s1.e, s2.e, env, m);
      WrapCases(y1 - y2, m);
    }
  }

  /** On values, both cases of match_linear3: trivial (y1 = y2) makes the
      literal hold outright, otherwise Linear3Values applies. */
  lemma Linear3Cases(trivial: bool, t: int, y1: int, y2: int, m: nat)
    requires 0 <= y1 < m && 0 <= y2 < m && (trivial <==> y1 == y2)
    ensures trivial ==> Wrap(t + y1, m) <= Wrap(t + y2, m)
    ensures !trivial ==> Wrap(-y2, m) != Wrap(-y1, m)
    ensures !trivial ==> (InRange(t, Wrap(-y2, m), Wrap(-y1, m), m) <==> !(Wrap(t + y1, m) <= Wrap(t + y2, m)))
  {
    if !trivial {
      Linear3Values(t, y1, y2, m);
    }
  }

  /** The values of match_linear3's endpoints and of both sides. */
  lemma Linear3Endpoints(s1: Side, s2: Side, x: int, env: Env, m: nat, t: int, y1: int, y2: int)
    requires m > 0 && s1.a == s2.a
    requires t == s1.a * x && y1 == Eval(s1.e, env, m) && y2 == Eval(s2.e, env, m)
    ensures Eval(Linear3Lo(s2, m).sym, env, m) == Wrap(-y2, m)
    ensures Eval(Linear3Hi(s1, m).sym, env, m) == Wrap(-y1, m)
    ensures Lin(s1, x, env, m) == Wrap(t + y1, m)
    ensures Lin(s2, x, env, m) == Wrap(t + y2, m)
  {
    EvalNeg(s2.e, env, m);
    EvalNeg(s1.e, env, m);
  }

  lemma Linear3Facts(s1: Side, s2: Side, w: nat, x: int, env: Env)
    requires s1.a == s2.a
    requires s1.b == s2.b <==> Eval(s1.e, env, Pow2(w)) == Eval(s2.e, env, Pow2(w))
    ensures var m := Pow2(w);
      PatternFacts(s1.b == s2.b, Linear3Lo(s2, m), Linear3Hi(s1, m), s1.a, s1, s2, x, env, m)
  {
    var m := Pow2(w);
    var y1: int, y2: int := Eval(s1.e, env, m), Eval(s2.e, env, m);
    var t := s1.a * x;
    Linear3Endpoints(s1, s2, x, env, m, t, y1, y2);
    Linear3Cases(s1.b == s2.b, t, y1, y2, m);
    PatternFactsIntro(s1.b == s2.b, Linear3Lo(s2, m), Linear3Hi(s1, m), s1.a, s1, s2, x, env, m,
      t, Wrap(-y2, m), Wrap(-y1, m), Wrap(t + y1, m), Wrap(t + y2, m));
  }

  lemma MatchLinear3Sound(positive: bool, s1: Side, s2: Side, w: nat, x: int, env: Env)
    requires SideOk(s1, Pow2(w)) && SideOk(s2, Pow2(w))
    requires MatchLinear3(positive, s1, s2, w).Some?
    requires AllHold(MatchLinear3(positive, s1, s2, w).value.side, env)
    ensures ForbidsExactly(MatchLinear3(positive, s1, s2, w).value, positive, s1, s2, x, env, Pow2(w))
  {
    var m := Pow2(w);
    var p := Minus(s1.e, s2.e, m);
    if AllHold(PushEq(s1.b == s2.b, p, w), env) {
      Linear3Trivial(s1, s2, w, env);
      Linear3Facts(s1, s2, w, x, env);
    }
    LinearPatternSound(positive, s1.b == s2.b, p, Linear3Lo(s2, m), Linear3Hi(s1, m), s1.a, s1, s2, w, x, env);
  }

  lemma Linear3EndpointsCurrent(s1: Side, s2: Side, env: Env, m: nat)
    requires m > 0 && s1.b < m && s2.b < m
    requires Eval(s1.e, env, m) == s1.b && Eval(s2.e, env, m) == s2.b
    ensures ConsistentAt(Proper(Linear3Lo(s2, m), Linear3Hi(s1, m)), env, m)
    ensures (Eval(Minus(s1.e, s2.e, m), env, m) == 0) == (s1.b == s2.b)
  {
    EvalNeg(s2.e, env, m);
    EvalNeg(s1.e, env, m);
    EvalMinus(s1.e, s2.e, env, m);
    WrapCases(s1.b - s2.b, m);
  }

  lemma MatchLinear3Current(positive: bool, s1: Side, s2: Side, w: nat, env: Env)
    requires SideOk(s1, Pow2(w)) && SideOk(s2, Pow2(w))
    requires Eval(s1.e, env, Pow2(w)) == s1.b && Eval(s2.e, env, Pow2(w)) == s2.b
    requires MatchLinear3(positive, s1, s2, w).Some?
    ensures var f := MatchLinear3(positive, s1, s2, w).value;
      AllHold(f.side, env) && ConsistentAt(f.interval, env, Pow2(w))
  {
    var m := Pow2(w);
    Linear3EndpointsCurrent(s1, s2, env, m);
    LinearPatternCurrent(positive, s1.b == s2.b, Minus(s1.e, s2.e, m),
      Linear3Lo(s2, m), Linear3Hi(s1, m), s1.a, s1, s2, w, env);
  }

  // ---- match_linear4:  e1 + a1*v <= e2 + a2*v with a1 != a2 ----

  /** The relation match_linear4 hands to its caller through the interval:
      lo.val * v + lo.sym against hi.val * v + hi.sym, non-strict for a
      positive literal and strict for a negative one. */
  predicate LinearRelation(positive: bool, I: Interval, x: int, env: Env, m: nat)
    requires m > 0 && I.Proper?
  {
    var l := Wrap(I.lo.val * x + Eval(I.lo.sym, env, m), m);
    var h := Wrap(I.hi.val * x + Eval(I.hi.sym, env, m), m);
    if positive then l <= h else l < h
  }

  /** match_linear4: not an interval at all; coefficient -1 tells the caller to
      read lo = (b1, a1) and hi = (b2, a2) (swapped for a negative literal) as
      the two sides of a linear inequality. */
  function MatchLinear4(positive: bool, s1: Side, s2: Side, w: nat): (r: Option<Found>)
    ensures r.Some? <==> s1.a != s2.a && s1.a != 0 && s2.a != 0
    ensures r.Some? ==> r.value.coeff == -1 && r.value.interval.Proper? && !IsCurrentlyEmpty(r.value.interval)
  {
    if s1.a != s2.a && s1.a != 0 && s2.a != 0 then
      var m := Pow2(w);
      var ic := ToInterval(positive, false, -1, Endpoint(Num(s1.b), s1.a), Endpoint(Num(s2.b), s2.a), m);
      Some(Found(ic.0, ic.1, NonUnitSideConds(ic.1, s1.e, s1.b, s2.e, s2.b, w)))
    else
      None
  }

  /** Under its side conditions the relation handed over is the literal itself. */
  lemma MatchLinear4Sound(positive: bool, s1: Side, s2: Side, w: nat, x: int, env: Env)
    requires SideOk(s1, Pow2(w)) && SideOk(s2, Pow2(w))
    requires MatchLinear4(positive, s1, s2, w).Some?
    requires AllHold(MatchLinear4(positive, s1, s2, w).value.side, env)
    ensures Literal(positive, s1, s2, x, env, Pow2(w))
        <==> LinearRelation(positive, MatchLinear4(positive, s1, s2, w).value.interval, x, env, Pow2(w))
  {
    var m := Pow2(w);
    EvalNum(s1.b, env, m);
    EvalNum(s2.b, env, m);
  }

  lemma MatchLinear4Current(positive: bool, s1: Side, s2: Side, w: nat, env: Env)
    requires SideOk(s1, Pow2(w)) && SideOk(s2, Pow2(w))
    requires Eval(s1.e, env, Pow2(w)) == s1.b && Eval(s2.e, env, Pow2(w)) == s2.b
    requires MatchLinear4(positive, s1, s2, w).Some?
    ensures AllHold(MatchLinear4(positive, s1, s2, w).value.side, env)
  {
    NonUnitCurrent(-1, s1.e, s1.b, s2.e, s2.b, w, env);
  }

  // ---- match_zero and match_max: a*v + b = 0 (or = -1) with a odd ----

  /** For an odd coefficient both matchers forbid a single point n (or all but n):
      [n, n + 1) for one polarity and its complement [n + 1, n) for the other. */
  function PointInterval(positive: bool, lo: Endpoint, m: nat): (I: Interval)
    requires m > 0
  {
    var hi := Endpoint(Plus(lo.sym, Const(1, m), m), Wrap(lo.val + 1, m));
    if positive then Proper(hi, lo) else Proper(lo, hi)
  }

  /** On values: [n, n + 1) holds exactly n, and differs from its complement. */
  lemma UnitValues(x: int, n: nat, m: nat)
    requires m >= 2 && 0 <= x < m && n < m
    ensures n != Wrap(n + 1, m)
    ensures InRange(x, n, Wrap(n + 1, m), m) <==> x == n
  {
    WrapCases(n + 1, m);
    WrapCases(1, m);
    WrapAdd(n + 1, -(n as int), m);
    assert n + 1 + -(n as int) == 1;
    WrapCases(x - n, m);
  }

  /** The positive interval holds exactly the points other than n, the negative one exactly n. */
  lemma PointIntervalSound(positive: bool, lo: Endpoint, x: int, env: Env, m: nat)
    requires m >= 2 && 0 <= x < m
    ensures Contains(EvalAt(PointInterval(positive, lo, m), env, m), x, m)
        <==> (positive <==> x != Eval(lo.sym, env, m))
  {
    var n := Eval(lo.sym, env, m);
    EvalPlusOne(lo.sym, env, m);
    UnitValues(x, n, m);
    Complement(x, n, Wrap(n + 1, m), m);
  }

  lemma PointIntervalCurrent(positive: bool, lo: Endpoint, env: Env, m: nat)
    requires m > 0 && Eval(lo.sym, env, m) == lo.val
    ensures ConsistentAt(PointInterval(positive, lo, m), env, m)
  {
    EvalPlusOne(lo.sym, env, m);
  }

  lemma UnitTimes(x: int, m: nat)
    requires m > 0
    ensures Wrap(1 * x, m) == Wrap(x, m)
  {
  }

  /** Side condition pinning e to its current value b (when e is not already that numeral). */
  function PinSide(e: Expr, b: nat, w: nat): (side: seq<Signed>)
    ensures forall env: Env :: AllHold(side, env) ==> Eval(e, env, Pow2(w)) == Eval(Num(b), env, Pow2(w))
  {
    if e != Num(b) then
      var sc := MkEq(Num(b), e, w);
      assert forall env: Env :: AllHold([sc], env) ==> Eval(e, env, Pow2(w)) == Eval(Num(b), env, Pow2(w)) by {
        forall env: Env | AllHold([sc], env) ensures Eval(e, env, Pow2(w)) == Eval(Num(b), env, Pow2(w)) {
          assert Holds([sc][0], env);
          HoldsEq(Num(b), e, w, env);
        }
      }
      [sc]
    else
      []
  }

  lemma PinSideCurrent(e: Expr, b: nat, w: nat, env: Env)
    requires b < Pow2(w) && Eval(e, env, Pow2(w)) == b
    ensures AllHold(PinSide(e, b, w), env)
  {
    EvalNum(b, env, Pow2(w));
    HoldsEq(Num(b), e, w, env);
  }

  function ZeroLo(s1: Side, inv: nat, m: nat): Endpoint
    requires m > 0
  {
    Endpoint(Times(Neg(s1.e, m), Const(inv, m), m), Wrap(-(s1.b as int) * inv, m))
  }

  /** match_zero: a1*v + e1 <= 0 with a1 odd; n = -e1 * a1^-1 is the only root, so the
      positive literal forbids [n + 1, n) and the negative one [n, n + 1). */
  function MatchZero(positive: bool, s1: Side, s2: Side, w: nat): (r: Option<Found>)
    ensures r.Some? <==> IsOdd(s1.a) && s2.a == 0 && s2.b == 0
    ensures r.Some? ==> r.value.coeff == 1
  {
    if IsOdd(s1.a) && s2.a == 0 && s2.b == 0 then
      var m := Pow2(w);
      var inv := Inverse(s1.a, w);
      Some(Found(PointInterval(positive, ZeroLo(s1, inv, m), m), 1, PinSide(s2.e, s2.b, w)))
    else
      None
  }

  lemma EvalZeroLo(s1: Side, inv: nat, env: Env, m: nat)
    requires m > 0 && inv < m
    ensures Eval(ZeroLo(s1, inv, m).sym, env, m) == Wrap(-(Eval(s1.e, env, m) as int) * inv, m)
  {
    var y1: int := Eval(s1.e, env, m);
    EvalTimes(Neg(s1.e, m), Const(inv, m), env, m);
    EvalNeg(s1.e, env, m);
    EvalConst(inv, env, m);
    WrapCases(inv, m);
    WrapMul(-y1, inv, m);
  }

  lemma MatchZeroSound(positive: bool, s1: Side, s2: Side, w: nat, x: int, env: Env)
    requires w >= 1 && 0 <= x < Pow2(w)
    requires SideOk(s1, Pow2(w)) && SideOk(s2, Pow2(w))
    requires MatchZero(positive, s1, s2, w).Some?
    requires AllHold(MatchZero(positive, s1, s2, w).value.side, env)
    ensures ForbidsExactly(MatchZero(positive, s1, s2, w).value, positive, s1, s2, x, env, Pow2(w))
  {
    var m := Pow2(w);
    var inv := Inverse(s1.a, w);
    var y1: int := Eval(s1.e, env, m);
    assert Lin(s2, x, env, m) == 0 by {
      EvalNum(s2.b, env, m);
      LinConstant(s2, x, env, m);
    }
    EvalZeroLo(s1, inv, env, m);
    OddRoot(s1.a, inv, y1, x, m);
    UnitTimes(x, m);
    WrapCases(x, m);
    PointIntervalSound(positive, ZeroLo(s1, inv, m), x, env, m);
  }

  lemma MatchZeroCurrent(positive: bool, s1: Side, s2: Side, w: nat, env: Env)
    requires SideOk(s1, Pow2(w)) && SideOk(s2, Pow2(w))
    requires Eval(s1.e, env, Pow2(w)) == s1.b && Eval(s2.e, env, Pow2(w)) == s2.b
    requires MatchZero(positive, s1, s2, w).Some?
    ensures var f := MatchZero(positive, s1, s2, w).value;
      AllHold(f.side, env) && ConsistentAt(f.interval, env, Pow2(w))
  {
    var m := Pow2(w);
    var inv := Inverse(s1.a, w);
    PinSideCurrent(s2.e, s2.b, w, env);
    EvalZeroLo(s1, inv, env, m);
    PointIntervalCurrent(positive, ZeroLo(s1, inv, m), env, m);
  }

  function MaxLo(s2: Side, inv: nat, m: nat): Endpoint
    requires m > 0
  {
    Endpoint(Times(Minus(Const(-1, m), s2.e, m), Const(inv, m), m), Wrap((-1 - s2.b) * inv, m))
  }

  /** match_max: -1 <= a2*v + e2 with a2 odd; n = (-1 - e2) * a2^-1 is the only point where
      the right side is -1, so the positive literal forbids [n + 1, n) and the negative one [n, n + 1). */
  function MatchMax(positive: bool, s1: Side, s2: Side, w: nat): (r: Option<Found>)
    ensures r.Some? <==> s1.a == 0 && s1.b + 1 == Pow2(w) && IsOdd(s2.a)
    ensures r.Some? ==> r.value.coeff == 1
  {
    var m := Pow2(w);
    if s1.a == 0 && s1.b == m - 1 && IsOdd(s2.a) then
      var inv := Inverse(s2.a, w);
      Some(Found(PointInterval(positive, MaxLo(s2, inv, m), m), 1, PinSide(s1.e, s1.b, w)))
    else
      None
  }

  lemma EvalMaxLo(s2: Side, inv: nat, env: Env, m: nat)
    requires m > 0 && inv < m
    ensures Eval(MaxLo(s2, inv, m).sym, env, m) == Wrap((-1 - Eval(s2.e, env, m)) * inv, m)
  {
    var y2: int := Eval(s2.e, env, m);
    EvalTimes(Minus(Const(-1, m), s2.e, m), Const(inv, m), env, m);
    EvalMinus(Const(-1, m), s2.e, env, m);
    EvalConst(-1, env, m);
    WrapAdd(-1, -y2, m);
    EvalConst(inv, env, m);
    WrapCases(inv, m);
    WrapMul(-1 - y2, inv, m);
  }

  /** A residue is the maximum exactly when one more wraps to zero. */
  lemma MaxValues(k: int, m: nat)
    requires m > 0
    ensures Wrap(k, m) == m - 1 <==> Wrap(k + 1, m) == 0
  {
    WrapAdd(k, 1, m);
    WrapCases(Wrap(k, m) + 1, m);
  }

  lemma NegSucc(y: int, inv: int)
    ensures (-1 - y) * inv == -(y + 1) * inv
  {
  }

  /** On values: a*x + y is the maximum exactly at x = (-1 - y) * a^-1. */
  lemma MaxRoot(a: int, inv: int, y: int, x: nat, m: nat)
    requires m > 0 && Wrap(a * inv, m) == Wrap(1, m) && x < m
    ensures Wrap(a * x + y, m) == m - 1 <==> x == Wrap((-1 - y) * inv, m)
  {
    MaxValues(a * x + y, m);
    assert a * x + y + 1 == a * x + (y + 1);
    OddRoot(a, inv, y + 1, x, m);
    NegSucc(y, inv);
  }

  lemma MatchMaxSound(positive: bool, s1: Side, s2: Side, w: nat, x: int, env: Env)
    requires w >= 1 && 0 <= x < Pow2(w)
    requires SideOk(s1, Pow2(w)) && SideOk(s2, Pow2(w))
    requires MatchMax(positive, s1, s2, w).Some?
    requires AllHold(MatchMax(positive, s1, s2, w).value.side, env)
    ensures ForbidsExactly(MatchMax(positive, s1, s2, w).value, positive, s1, s2, x, env, Pow2(w))
  {
    var m := Pow2(w);
    var inv := Inverse(s2.a, w);
    var y2: int := Eval(s2.e, env, m);
    assert Lin(s1, x, env, m) == m - 1 by {
      EvalNum(s1.b, env, m);
      LinConstant(s1, x, env, m);
    }
    MaxRoot(s2.a, inv, y2, x, m);
    EvalMaxLo(s2, inv, env, m);
    UnitTimes(x, m);
    WrapCases(x, m);
    PointIntervalSound(positive, MaxLo(s2, inv, m), x, env, m);
  }

  lemma MatchMaxCurrent(positive: bool, s1: Side, s2: Side, w: nat, env: Env)
    requires SideOk(s1, Pow2(w)) && SideOk(s2, Pow2(w))
    requires Eval(s1.e, env, Pow2(w)) == s1.b && Eval(s2.e, env, Pow2(w)) == s2.b
    requires MatchMax(positive, s1, s2, w).Some?
    ensures var f := MatchMax(positive, s1, s2, w).value;
      AllHold(f.side, env) && ConsistentAt(f.interval, env, Pow2(w))
  {
    var m := Pow2(w);
    var inv := Inverse(s2.a, w);
    PinSideCurrent(s1.e, s1.b, w, env);
    EvalMaxLo(s2, inv, env, m);
    PointIntervalCurrent(positive, MaxLo(s2, inv, m), env, m);
  }

  // ---------------------------------------------------------------------
  // get_interval_ule
  // ---------------------------------------------------------------------

  /** What a result of the matchers means: for coefficient -1 (match_linear4) the
      literal is the linear relation handed over; otherwise the interval holds
      coeff * x exactly when the literal is false. */
  predicate Explains(f: Found, positive: bool, s1: Side, s2: Side, x: int, env: Env, m: nat)
    requires m > 0
  {
    if f.coeff == -1 then
      f.interval.Proper? && (Literal(positive, s1, s2, x, env, m) <==> LinearRelation(positive, f.interval, x, env, m))
    else
      ForbidsExactly(f, positive, s1, s2, x, env, m)
  }

  /** The matchers in the order get_interval_ule tries them; the first that applies wins. */
  function FirstMatch(positive: bool, s1: Side, s2: Side, w: nat): (r: Option<Found>)
    ensures r.Some? <==> s1.a != 0 || s2.a != 0
  {
    var z := MatchZero(positive, s1, s2, w);
    if z.Some? then z else
    var x := MatchMax(positive, s1, s2, w);
    if x.Some? then x else
    var l1 := MatchLinear1(positive, s1, s2, w);
    if l1.Some? then l1 else
    var l2 := MatchLinear2(positive, s1, s2, w);
    if l2.Some? then l2 else
    var l3 := MatchLinear3(positive, s1, s2, w);
    if l3.Some? then l3 else
    MatchLinear4(positive, s1, s2, w)
  }

  lemma FirstMatchSound(positive: bool, s1: Side, s2: Side, w: nat, x: int, env: Env)
    requires w >= 1 && 0 <= x < Pow2(w)
    requires SideOk(s1, Pow2(w)) && SideOk(s2, Pow2(w))
    requires FirstMatch(positive, s1, s2, w).Some?
    requires AllHold(FirstMatch(positive, s1, s2, w).value.side, env)
    ensures Explains(FirstMatch(positive, s1, s2, w).value, positive, s1, s2, x, env, Pow2(w))
  {
    if MatchZero(positive, s1, s2, w).Some? {
      MatchZeroSound(positive, s1, s2, w, x, env);
    } else if MatchMax(positive, s1, s2, w).Some? {
      MatchMaxSound(positive, s1, s2, w, x, env);
    } else if MatchLinear1(positive, s1, s2, w).Some? {
      MatchLinear1Sound(positive, s1, s2, w, x, env);
    } else if MatchLinear2(positive, s1, s2, w).Some? {
      MatchLinear2Sound(positive, s1, s2, w, x, env);
    } else if MatchLinear3(positive, s1, s2, w).Some? {
      MatchLinear3Sound(positive, s1, s2, w, x, env);
    } else {
      MatchLinear4Sound(positive, s1, s2, w, x, env);
    }
  }

  lemma FirstMatchCurrent(positive: bool, s1: Side, s2: Side, w: nat, env: Env)
    requires SideOk(s1, Pow2(w)) && SideOk(s2, Pow2(w))
    requires Eval(s1.e, env, Pow2(w)) == s1.b && Eval(s2.e, env, Pow2(w)) == s2.b
    requires FirstMatch(positive, s1, s2, w).Some?
    ensures var f := FirstMatch(positive, s1, s2, w).value;
      AllHold(f.side, env) && (f.coeff != -1 ==> ConsistentAt(f.interval, env, Pow2(w)))
  {
    if MatchZero(positive, s1, s2, w).Some? {
      MatchZeroCurrent(positive, s1, s2, w, env);
    } else if MatchMax(positive, s1, s2, w).Some? {
      MatchMaxCurrent(positive, s1, s2, w, env);
    } else if MatchLinear1(positive, s1, s2, w).Some? {
      MatchLinear1Current(positive, s1, s2, w, env);
    } else if MatchLinear2(positive, s1, s2, w).Some? {
      MatchLinear2Current(positive, s1, s2, w, env);
    } else if MatchLinear3(positive, s1, s2, w).Some? {
      MatchLinear3Current(positive, s1, s2, w, env);
    } else {
      MatchLinear4Current(positive, s1, s2, w, env);
    }
  }

  function SideOf(d: Decomposition): Side
    requires d.b.Num?
  {
    Side(d.a, d.e, d.b.n)
  }

  /** get_interval_ule without its bookkeeping: decompose both sides, give up
      (None) unless both decompositions succeed and v occurs on some side, then
      take the first matching shape.  The side conditions are those of both
      decompositions followed by the matcher's own. */
  function UleExplain(c: Signed, v: nat, asg: Assignment): (r: Option<Found>)
    requires c.c.Ule?
    ensures var d1 := LinearDecompose(v, c.c.lhs, asg, c.width);
      var d2 := LinearDecompose(v, c.c.rhs, asg, c.width);
      r.Some? <==> d1.ok && d2.ok && (d1.a != 0 || d2.a != 0)
  {
    var w := c.width;
    var d1 := LinearDecompose(v, c.c.lhs, asg, w);
    var d2 := LinearDecompose(v, c.c.rhs, asg, w);
    if !d1.ok || !d2.ok || (d1.a == 0 && d2.a == 0) then
      None
    else
      var f := FirstMatch(c.positive, SideOf(d1), SideOf(d2), w).value;
      Some(f.(side := d1.side + d2.side + f.side))
  }

  /** The meaning of an explanation for the literal c about v, under env. */
  predicate ExplainsLiteral(f: Found, c: Signed, v: nat, env: Env) {
    var m := Pow2(c.width);
    var x := Eval(Var(v), env, m);
    if f.coeff == -1 then
      f.interval.Proper? && (Holds(c, env) <==> LinearRelation(c.positive, f.interval, x, env, m))
    else
      Contains(EvalAt(f.interval, env, m), Wrap(f.coeff * x, m), m) <==> !Holds(c, env)
  }

  /** The literal, read through both decompositions, is the side-by-side comparison. */
  lemma UleAsLiteral(c: Signed, v: nat, asg: Assignment, env: Env)
    requires c.c.Ule?
    requires LinearDecompose(v, c.c.lhs, asg, c.width).ok && LinearDecompose(v, c.c.rhs, asg, c.width).ok
    requires AllHold(LinearDecompose(v, c.c.lhs, asg, c.width).side, env)
    requires AllHold(LinearDecompose(v, c.c.rhs, asg, c.width).side, env)
    ensures var m := Pow2(c.width);
      Holds(c, env) <==> Literal(c.positive, SideOf(LinearDecompose(v, c.c.lhs, asg, c.width)),
                                 SideOf(LinearDecompose(v, c.c.rhs, asg, c.width)), Eval(Var(v), env, m), env, m)
  {
    DecomposeSound(v, c.c.lhs, asg, c.width, env);
    DecomposeSound(v, c.c.rhs, asg, c.width, env);
  }

  /** Soundness of get_interval_ule: wherever the side conditions hold, the
      interval is exactly the set of values of coeff * v that falsify the literal
      (or, for coefficient -1, the relation handed over is the literal). */
  lemma UleExplainSound(c: Signed, v: nat, asg: Assignment, env: Env)
    requires c.c.Ule? && c.width >= 1
    requires UleExplain(c, v, asg).Some?
    requires AllHold(UleExplain(c, v, asg).value.side, env)
    ensures ExplainsLiteral(UleExplain(c, v, asg).value, c, v, env)
  {
    var w := c.width;
    var m := Pow2(w);
    var d1 := LinearDecompose(v, c.c.lhs, asg, w);
    var d2 := LinearDecompose(v, c.c.rhs, asg, w);
    var s1, s2 := SideOf(d1), SideOf(d2);
    var f := FirstMatch(c.positive, s1, s2, w).value;
    AllHoldAppend(d1.side + d2.side, f.side, env);
    AllHoldAppend(d1.side, d2.side, env);
    UleAsLiteral(c, v, asg, env);
    FirstMatchSound(c.positive, s1, s2, w, Eval(Var(v), env, m), env);
  }

  /** Under the current assignment all side conditions hold and the endpoint
      values agree with their polynomials. */
  lemma UleExplainCurrent(c: Signed, v: nat, asg: Assignment, env: Env)
    requires c.c.Ule? && Agrees(env, asg)
    requires UleExplain(c, v, asg).Some?
    ensures var f := UleExplain(c, v, asg).value;
      AllHold(f.side, env) && (f.coeff != -1 ==> ConsistentAt(f.interval, env, Pow2(c.width)))
  {
    var w := c.width;
    var d1 := LinearDecompose(v, c.c.lhs, asg, w);
    var d2 := LinearDecompose(v, c.c.rhs, asg, w);
    var s1, s2 := SideOf(d1), SideOf(d2);
    var f := FirstMatch(c.positive, s1, s2, w).value;
    DecomposeCurrent(v, c.c.lhs, asg, w, env);
    DecomposeCurrent(v, c.c.rhs, asg, w, env);
    FirstMatchCurrent(c.positive, s1, s2, w, env);
    AllHoldAppend(d1.side, d2.side, env);
    AllHoldAppend(d1.side + d2.side, f.side, env);
  }

  /** The point of the exercise: when the current assignment falsifies the
      literal, the current value of coeff * v lies in the interval by its stored
      endpoint values. */
  lemma UleExplainCovers(c: Signed, v: nat, asg: Assignment, env: Env)
    requires c.c.Ule? && c.width >= 1 && Agrees(env, asg) && !Holds(c, env)
    requires UleExplain(c, v, asg).Some? && UleExplain(c, v, asg).value.coeff != -1
    ensures var f := UleExplain(c, v, asg).value; var m := Pow2(c.width);
      Contains(f.interval, Wrap(f.coeff * Eval(Var(v), env, m), m), m)
  {
    UleExplainCurrent(c, v, asg, env);
    UleExplainSound(c, v, asg, env);
    var f := UleExplain(c, v, asg).value;
    EvalAtConsistent(f.interval, env, Pow2(c.width));
  }

  // ---------------------------------------------------------------------
  // get_interval_umul_ovfl
  // ---------------------------------------------------------------------

  /** The bounds of the positive case: A = (2^N - 1) / b2 and B the largest
      value with A * B < 2^N.  The ensures are the source's own assertions. */
  function PositiveBounds(b2: nat, m: nat): (r: (nat, nat))
    requires 2 <= b2 < m
    ensures var (A, B) := r;
      1 <= A && A * b2 <= m - 1 < (A + 1) * b2 &&
      b2 <= B && A * B <= m - 1 && (A + 1) * B > m - 1 && A * (B + 1) > m - 1
  {
    var A := (m - 1) / b2;
    DivBounds(m - 1, b2);
    QuotientPositive(m - 1, b2, A);
    var C := (m - 1 + A) / A;
    DivBounds(m - 1 + A, A);
    Commute(C, A);
    var B: int := C - 1;
    Distribute(A, B);
    Distribute(A, b2);
    Commute(b2, A);
    assert b2 <= B by {
      if b2 > B {
        MulLe(A, A, B + 1, b2);
      }
    }
    MulLe(A + 1, A + 1, b2, B);
    (A, B)
  }

  /** The bounds of the negative case: A = (2^N - 1) / b2 + 1 and B the least
      value with A * B >= 2^N.  The ensures are the source's own assertions. */
  function NegativeBounds(b2: nat, m: nat): (r: (nat, nat))
    requires 2 <= b2 < m
    ensures var (A, B) := r;
      2 <= A && A * b2 >= m && (A - 1) * b2 <= m - 1 &&
      A * B > m - 1 && A * (B - 1) <= m - 1 && (A - 1) * B <= m - 1 && b2 >= B
  {
    var A0 := (m - 1) / b2;
    DivBounds(m - 1, b2);
    QuotientPositive(m - 1, b2, A0);
    var A := A0 + 1;
    var B := (m - 1 + A) / A;
    DivBounds(m - 1 + A, A);
    Commute(B, A);
    Distribute(A, B);
    Distribute(A0, b2);
    Commute(b2, A0);
    assert b2 >= B by {
      if b2 < B {
        MulLe(A, A, b2, B - 1);
      }
    }
    MulLe(A - 1, A - 1, B, b2);
    (A, B)
  }

  /** The interval and bound side condition for Omega*(v, e2) with e2 currently b2:
      positive: Full if b2 <= 1 (under e2 <= 1), else [0, A + 1) under e2 <= B;
      negative: [A, 0) under b2 <= e2.  None where the source gives up. */
  function OvflBound(positive: bool, e2: Expr, b2: nat, w: nat): (r: Option<(Interval, Signed)>)
    requires b2 < Pow2(w)
    ensures r.None? <==> if positive then 2 <= b2 && PositiveBounds(b2, Pow2(w)).0 >= 4 && PositiveBounds(b2, Pow2(w)).1 >= 4
                         else b2 <= 1 || (NegativeBounds(b2, Pow2(w)).0 >= 4 && NegativeBounds(b2, Pow2(w)).1 >= 4)
  {
    var m := Pow2(w);
    if positive then
      if b2 <= 1 then
        Some((Full, MkUle(e2, Const(1, m), w)))
      else
        var (A, B) := PositiveBounds(b2, m);
        if A >= 4 && B >= 4 then None
        else Some((Proper(NumEndpoint(0), NumEndpoint(A + 1)), MkUle(e2, Const(B, m), w)))
    else
      if b2 <= 1 then
        None
      else
        var (A, B) := NegativeBounds(b2, m);
        if A >= 4 && B >= 4 then None
        else Some((Proper(NumEndpoint(A), NumEndpoint(0)), MkUle(Const(b2, m), e2, w)))
  }

  lemma BelowValues(x: int, k: nat, m: nat)
    requires 0 <= x < m && k < m
    ensures InRange(x, 0, k, m) <==> x < k
  {
    WrapCases(x, m);
    WrapCases(k, m);
  }

  lemma AboveValues(x: int, k: nat, m: nat)
    requires 0 <= x < m && 0 < k < m
    ensures InRange(x, k, 0, m) <==> k <= x
  {
    WrapCases(x - k, m);
    WrapCases(-(k as int), m);
  }

  lemma OvflFullCase(e2: Expr, w: nat, x: int, env: Env)
    requires 0 <= x < Pow2(w) && Holds(MkUle(e2, Const(1, Pow2(w)), w), env)
    ensures x * Eval(e2, env, Pow2(w)) < Pow2(w)
  {
    var m := Pow2(w);
    EvalConst(1, env, m);
    WrapCases(1, m);
    MulLe(x, x, Eval(e2, env, m), 1);
  }

  /** A multiple of a factor of at least 2 that stays below m leaves room for one more. */
  lemma HalfBound(A: int, b2: int, m: int)
    requires 0 <= A && 2 <= b2 < m && A * b2 <= m - 1
    ensures A + 1 < m
  {
    MulLe(A, A, 2, b2);
  }

  lemma OvflPositiveCase(e2: Expr, A: nat, B: nat, w: nat, x: int, env: Env)
    requires 0 <= x < Pow2(w) && A + 1 < Pow2(w) && B < Pow2(w) && A * B <= Pow2(w) - 1
    requires Holds(MkUle(e2, Const(B, Pow2(w)), w), env)
    requires Contains(EvalAt(Proper(NumEndpoint(0), NumEndpoint(A + 1)), env, Pow2(w)), x, Pow2(w))
    ensures x * Eval(e2, env, Pow2(w)) < Pow2(w)
  {
    var m := Pow2(w);
    var y2 := Eval(e2, env, m);
    assert y2 <= B by {
      EvalConst(B, env, m);
      WrapCases(B, m);
    }
    assert x <= A by {
      EvalNum(0, env, m);
      EvalNum(A + 1, env, m);
      BelowValues(x, A + 1, m);
    }
    MulLe(x, A, y2, B);
  }

  lemma OvflNegativeCase(e2: Expr, A: nat, b2: nat, w: nat, x: int, env: Env)
    requires 0 <= x < Pow2(w) && 0 < A < Pow2(w) && b2 < Pow2(w) && A * b2 >= Pow2(w)
    requires Holds(MkUle(Const(b2, Pow2(w)), e2, w), env)
    requires Contains(EvalAt(Proper(NumEndpoint(A), NumEndpoint(0)), env, Pow2(w)), x, Pow2(w))
    ensures x * Eval(e2, env, Pow2(w)) >= Pow2(w)
  {
    var m := Pow2(w);
    var y2 := Eval(e2, env, m);
    assert b2 <= y2 by {
      EvalConst(b2, env, m);
      WrapCases(b2, m);
    }
    assert A <= x by {
      EvalNum(0, env, m);
      EvalNum(A, env, m);
      AboveValues(x, A, m);
    }
    MulLe(A, x, b2, y2);
  }

  lemma OvflBoundPositive(e2: Expr, b2: nat, w: nat, x: int, env: Env)
    requires 2 <= b2 < Pow2(w) && 0 <= x < Pow2(w)
    requires OvflBound(true, e2, b2, w).Some?
    requires Holds(OvflBound(true, e2, b2, w).value.1, env)
    requires Contains(EvalAt(OvflBound(true, e2, b2, w).value.0, env, Pow2(w)), x, Pow2(w))
    ensures x * Eval(e2, env, Pow2(w)) < Pow2(w)
  {
    var A, B := OvflBoundPositiveShape(e2, b2, w);
    OvflPositiveCase(e2, A, B, w, x, env);
  }

  /** The interval and the bound of the positive case, with the facts about
      the two values of PositiveBounds that OvflPositiveCase needs. */
  lemma OvflBoundPositiveShape(e2: Expr, b2: nat, w: nat) returns (A: nat, B: nat)
    requires 2 <= b2 < Pow2(w) && OvflBound(true, e2, b2, w).Some?
    ensures A + 1 < Pow2(w) && B < Pow2(w) && A * B <= Pow2(w) - 1 && b2 <= B
    ensures OvflBound(true, e2, b2, w).value == (Proper(NumEndpoint(0), NumEndpoint(A + 1)), MkUle(e2, Const(B, Pow2(w)), w))
  {
    var m := Pow2(w);
    A, B := PositiveBounds(b2, m).0, PositiveBounds(b2, m).1;
    HalfBound(A, b2, m);
    MulLe(1, A, B, B);
  }

  lemma OvflBoundNegative(e2: Expr, b2: nat, w: nat, x: int, env: Env)
    requires b2 < Pow2(w) && 0 <= x < Pow2(w)
    requires OvflBound(false, e2, b2, w).Some?
    requires Holds(OvflBound(false, e2, b2, w).value.1, env)
    requires Contains(EvalAt(OvflBound(false, e2, b2, w).value.0, env, Pow2(w)), x, Pow2(w))
    ensures x * Eval(e2, env, Pow2(w)) >= Pow2(w)
  {
    var A := OvflBoundNegativeShape(e2, b2, w);
    OvflNegativeCase(e2, A, b2, w, x, env);
  }

  /** The interval and the bound of the negative case, with the facts about
      the first value of NegativeBounds that OvflNegativeCase needs. */
  lemma OvflBoundNegativeShape(e2: Expr, b2: nat, w: nat) returns (A: nat)
    requires b2 < Pow2(w) && OvflBound(false, e2, b2, w).Some?
    ensures 0 < A < Pow2(w) && A * b2 >= Pow2(w)
    ensures OvflBound(false, e2, b2, w).value == (Proper(NumEndpoint(A), NumEndpoint(0)), MkUle(Const(b2, Pow2(w)), e2, w))
  {
    var m := Pow2(w);
    A := NegativeBounds(b2, m).0;
    HalfBound(A - 1, b2, m);
  }

  /** Every x in the interval falsifies the literal Omega*(x, y2) once the bound holds for y2. */
  lemma OvflBoundSound(positive: bool, e2: Expr, b2: nat, w: nat, x: int, env: Env)
    requires b2 < Pow2(w) && 0 <= x < Pow2(w)
    requires OvflBound(positive, e2, b2, w).Some?
    requires Holds(OvflBound(positive, e2, b2, w).value.1, env)
    ensures var m := Pow2(w);
      Contains(EvalAt(OvflBound(positive, e2, b2, w).value.0, env, m), x, m) ==>
        (x * Eval(e2, env, m) >= m) != positive
  {
    var m := Pow2(w);
    if Contains(EvalAt(OvflBound(positive, e2, b2, w).value.0, env, m), x, m) {
      if positive && b2 <= 1 {
        assert OvflBound(positive, e2, b2, w).value.1 == MkUle(e2, Const(1, m), w);
        OvflFullCase(e2, w, x, env);
      } else if positive {
        OvflBoundPositive(e2, b2, w, x, env);
      } else {
        OvflBoundNegative(e2, b2, w, x, env);
      }
    }
  }

  /** One factor of the product together with its decomposition. */
  datatype Operand = Operand(poly: Expr, d: Decomposition)

  /** The side condition the overflow rule needs and the source does not add:
      e1 = 0, for the part of the first factor that does not mention v. */
  function Pin(pinZero: bool, e: Expr, w: nat): seq<Signed> {
    if pinZero then PinSide(e, 0, w) else []
  }

  /** get_interval_umul_ovfl without its bookkeeping, for Omega*(p, q) about v.
      With pinZero false this is the rule as the source writes it; with pinZero
      true it also pins e1 = 0, which its intervals rely on. */
  function OvflExplainWith(c: Signed, v: nat, asg: Assignment, pinZero: bool): (r: Option<Found>)
    requires c.c.UmulOvfl?
    ensures r.Some? ==> r.value.coeff == 1
  {
    var w := c.width;
    var m := Pow2(w);
    var d1 := LinearDecompose(v, c.c.p, asg, w);
    var d2 := LinearDecompose(v, c.c.q, asg, w);
    var side0 := d1.side + d2.side;
    var o := if d2.ok && !d1.ok then (Operand(c.c.q, d2), Operand(c.c.p, d1)) else (Operand(c.c.p, d1), Operand(c.c.q, d2));
    if o.0.d.ok && !o.1.d.ok && o.0.d.a == 1 && o.0.d.b.n == 0 && c.positive then
      // Omega*(v, q) is false for v in {0, 1}
      Some(Found(Proper(NumEndpoint(0), Endpoint(Const(2, m), 2)), 1, side0 + Pin(pinZero, o.0.d.e, w)))
    else if !o.0.d.ok || !o.1.d.ok then
      None
    else
      var u := if o.1.d.a == 1 && o.0.d.a == 0 then (o.1, o.0) else o;
      if u.0.d.a != 1 || u.1.d.a != 0 || u.0.d.b.n != 0 then
        None
      else
        var bound := OvflBound(c.positive, u.1.d.e, u.1.d.b.n, w);
        if bound.None? then None
        else Some(Found(bound.value.0, 1, side0 + Pin(pinZero, u.0.d.e, w) + [bound.value.1]))
  }

  /** get_interval_umul_ovfl as written. */
  function UmulOvflExplainAsWritten(c: Signed, v: nat, asg: Assignment): (r: Option<Found>)
    requires c.c.UmulOvfl?
    ensures r == OvflExplainWith(c, v, asg, false)
  {
    OvflExplainWith(c, v, asg, false)
  }

  /** get_interval_umul_ovfl with the missing side condition e1 = 0 added. */
  function UmulOvflExplain(c: Signed, v: nat, asg: Assignment): (r: Option<Found>)
    requires c.c.UmulOvfl?
    ensures r == OvflExplainWith(c, v, asg, true)
  {
    OvflExplainWith(c, v, asg, true)
  }

  lemma UnitCoefficient(a: int, x: int, y: int, m: nat)
    requires a == 1 && y == 0 && 0 <= x < m
    ensures Wrap(a * x + y, m) == x
  {
    WrapCases(x, m);
  }

  lemma ZeroCoefficient(a: int, x: int, y: int, m: nat)
    requires a == 0 && 0 <= y < m
    ensures Wrap(a * x + y, m) == y
  {
    WrapCases(y, m);
  }

  /** An operand with coefficient 1 and a rest pinned to zero is v itself;
      one with coefficient 0 is its rest. */
  lemma OperandValue(op: Operand, v: nat, asg: Assignment, w: nat, env: Env)
    requires op.d == LinearDecompose(v, op.poly, asg, w) && op.d.ok && AllHold(op.d.side, env)
    ensures var m := Pow2(w); var x := Eval(Var(v), env, m);
      (op.d.a == 1 && Eval(op.d.e, env, m) == 0 ==> Eval(op.poly, env, m) == x) &&
      (op.d.a == 0 ==> Eval(op.poly, env, m) == Eval(op.d.e, env, m))
  {
    var m := Pow2(w);
    var x := Eval(Var(v), env, m);
    var y := Eval(op.d.e, env, m);
    DecomposeSound(v, op.poly, asg, w, env);
    if op.d.a == 1 && y == 0 {
      UnitCoefficient(op.d.a, x, y, m);
    }
    if op.d.a == 0 {
      ZeroCoefficient(op.d.a, x, y, m);
    }
  }

  /** Soundness of the corrected rule: every value of v in the interval
      falsifies the literal wherever the side conditions hold. */
  lemma UmulOvflExplainSound(c: Signed, v: nat, asg: Assignment, env: Env)
    requires c.c.UmulOvfl?
    requires UmulOvflExplain(c, v, asg).Some?
    requires AllHold(UmulOvflExplain(c, v, asg).value.side, env)
    ensures var f := UmulOvflExplain(c, v, asg).value; var m := Pow2(c.width);
      Contains(EvalAt(f.interval, env, m), Wrap(f.coeff * Eval(Var(v), env, m), m), m) ==> !Holds(c, env)
  {
    var w := c.width;
    var m := Pow2(w);
    var x := Eval(Var(v), env, m);
    var f := UmulOvflExplain(c, v, asg).value;
    var d1 := LinearDecompose(v, c.c.p, asg, w);
    var d2 := LinearDecompose(v, c.c.q, asg, w);
    var side0 := d1.side + d2.side;
    var o := if d2.ok && !d1.ok then (Operand(c.c.q, d2), Operand(c.c.p, d1)) else (Operand(c.c.p, d1), Operand(c.c.q, d2));
    assert Eval(o.0.poly, env, m) * Eval(o.1.poly, env, m) == Eval(c.c.p, env, m) * Eval(c.c.q, env, m) by {
      Commute(Eval(c.c.p, env, m), Eval(c.c.q, env, m));
    }
    UnitTimes(x, m);
    WrapCases(x, m);
    if o.0.d.ok && !o.1.d.ok && o.0.d.a == 1 && o.0.d.b.n == 0 && c.positive {
      var pin := Pin(true, o.0.d.e, w);
      AllHoldAppend(side0, pin, env);
      AllHoldAppend(d1.side, d2.side, env);
      EvalNum(0, env, m);
      OperandValue(o.0, v, asg, w, env);
      if Contains(EvalAt(f.interval, env, m), x, m) {
        EvalConst(2, env, m);
        WrapCases(2, m);
        WrapCases(x, m);
        assert x <= 1;
        MulLe(x, 1, Eval(o.1.poly, env, m), Eval(o.1.poly, env, m));
      }
    } else {
      var u := if o.1.d.a == 1 && o.0.d.a == 0 then (o.1, o.0) else o;
      assert Eval(u.0.poly, env, m) * Eval(u.1.poly, env, m) == Eval(c.c.p, env, m) * Eval(c.c.q, env, m) by {
        Commute(Eval(o.0.poly, env, m), Eval(o.1.poly, env, m));
      }
      var bound := OvflBound(c.positive, u.1.d.e, u.1.d.b.n, w);
      var pin := Pin(true, u.0.d.e, w);
      AllHoldAppend(side0 + pin, [bound.value.1], env);
      AllHoldAppend(side0, pin, env);
      AllHoldAppend(d1.side, d2.side, env);
      assert Holds([bound.value.1][0], env);
      EvalNum(0, env, m);
      OperandValue(u.0, v, asg, w, env);
      OperandValue(u.1, v, asg, w, env);
      OvflBoundSound(c.positive, u.1.d.e, u.1.d.b.n, w, x, env);
    }
  }

  /** The side condition a decomposition pushes (q = r, for a coefficient q
      currently r) holds under the current assignment, whether or not the
      decomposition succeeded. */
  lemma DecomposeSideCurrent(v: nat, p: Expr, asg: Assignment, w: nat, env: Env)
    requires Agrees(env, asg)
    ensures AllHold(LinearDecompose(v, p, asg, w).side, env)
  {
    var m := Pow2(w);
    var d := LinearDecompose(v, p, asg, w);
    if d.side != [] {
      var q := Factor(p, v, m).0;
      var r := Subst(q, asg, m);
      assert d.side == [MkEq(q, r, w)];
      SubstSound(q, asg, env, m);
      HoldsEq(q, r, w, env);
    }
  }

  /** The bound pushed for Omega*(v, e2) holds while e2 has its current value b2. */
  lemma OvflBoundCurrent(positive: bool, e2: Expr, b2: nat, w: nat, env: Env)
    requires b2 < Pow2(w) && Eval(e2, env, Pow2(w)) == b2
    requires OvflBound(positive, e2, b2, w).Some?
    ensures Holds(OvflBound(positive, e2, b2, w).value.1, env)
  {
    var m := Pow2(w);
    if positive && b2 <= 1 {
      assert OvflBound(positive, e2, b2, w).value.1 == MkUle(e2, Const(1, m), w);
      HoldsUle(e2, Const(1, m), w, env);
      EvalConst(1, env, m);
      WrapCases(1, m);
    } else if positive {
      var A, B := OvflBoundPositiveShape(e2, b2, w);
      HoldsUle(e2, Const(B, m), w, env);
      EvalConst(B, env, m);
      WrapCases(B, m);
    } else {
      var A := OvflBoundNegativeShape(e2, b2, w);
      HoldsUle(Const(b2, m), e2, w, env);
      EvalConst(b2, env, m);
      WrapCases(b2, m);
    }
  }

  /** Under the current assignment every side condition of the corrected rule
      holds: the decompositions' conditions, the pin e1 = 0 (e1 is currently 0)
      and the bound on e2. */
  lemma UmulOvflExplainCurrent(c: Signed, v: nat, asg: Assignment, env: Env)
    requires c.c.UmulOvfl? && Agrees(env, asg)
    requires UmulOvflExplain(c, v, asg).Some?
    ensures AllHold(UmulOvflExplain(c, v, asg).value.side, env)
  {
    var w := c.width;
    var d1 := LinearDecompose(v, c.c.p, asg, w);
    var d2 := LinearDecompose(v, c.c.q, asg, w);
    var side0 := d1.side + d2.side;
    var o := if d2.ok && !d1.ok then (Operand(c.c.q, d2), Operand(c.c.p, d1)) else (Operand(c.c.p, d1), Operand(c.c.q, d2));
    DecomposeSideCurrent(v, c.c.p, asg, w, env);
    DecomposeSideCurrent(v, c.c.q, asg, w, env);
    AllHoldAppend(d1.side, d2.side, env);
    if o.0.d.ok && !o.1.d.ok && o.0.d.a == 1 && o.0.d.b.n == 0 && c.positive {
      DecomposeCurrent(v, o.0.poly, asg, w, env);
      PinSideCurrent(o.0.d.e, 0, w, env);
      AllHoldAppend(side0, Pin(true, o.0.d.e, w), env);
    } else {
      var u := if o.1.d.a == 1 && o.0.d.a == 0 then (o.1, o.0) else o;
      var bound := OvflBound(c.positive, u.1.d.e, u.1.d.b.n, w);
      var pin := Pin(true, u.0.d.e, w);
      DecomposeCurrent(v, u.0.poly, asg, w, env);
      DecomposeCurrent(v, u.1.poly, asg, w, env);
      PinSideCurrent(u.0.d.e, 0, w, env);
      OvflBoundCurrent(c.positive, u.1.d.e, u.1.d.b.n, w, env);
      AllHoldAppend(side0, pin, env);
      AllHoldAppend(side0 + pin, [bound.value.1], env);
    }
  }

  lemma CounterexampleDecompositions()
    ensures LinearDecompose(0, Add(Var(0), Var(1)), map[1 := 0], 2)
         == Decomposition(true, 1, Add(Num(0), Var(1)), Num(0), [])
    ensures LinearDecompose(0, Num(2), map[1 := 0], 2) == Decomposition(true, 0, Num(2), Num(2), [])
  {
    assert Pow2(2) == 4;
    WrapCases(0, 4);
    WrapCases(1, 4);
    WrapCases(2, 4);
    assert Const(1, 4) == Num(1) && Const(0, 4) == Num(0) && Const(2, 4) == Num(2);
    assert Factor(Var(0), 0, 4) == (Num(1), Num(0));
    assert Factor(Var(1), 0, 4) == (Num(0), Var(1));
    assert Plus(Num(1), Num(0), 4) == Num(1);
    assert Factor(Add(Var(0), Var(1)), 0, 4) == (Num(1), Add(Num(0), Var(1)));
    assert Subst(Num(0), map[1 := 0], 4) == Num(0);
    assert Subst(Var(1), map[1 := 0], 4) == Num(0);
    assert Subst(Add(Num(0), Var(1)), map[1 := 0], 4) == Num(0);
    assert Degree(Add(Var(0), Var(1)), 0) == 1;
    assert Subst(Num(2), map[1 := 0], 4) == Num(2);
  }

  lemma CounterexampleBound()
    ensures OvflBound(true, Num(2), 2, 2) == Some((Proper(NumEndpoint(0), NumEndpoint(2)), MkUle(Num(2), Num(3), 2)))
  {
    assert Pow2(2) == 4;
    assert PositiveBounds(2, 4) == (1, 3);
    WrapCases(3, 4);
  }

  lemma CounterexampleResults(pinZero: bool)
    ensures var c := Signed(UmulOvfl(Add(Var(0), Var(1)), Num(2)), true, 2);
      OvflExplainWith(c, 0, map[1 := 0], pinZero)
        == Some(Found(Proper(NumEndpoint(0), NumEndpoint(2)), 1,
                      Pin(pinZero, Add(Num(0), Var(1)), 2) + [MkUle(Num(2), Num(3), 2)]))
  {
    var c := Signed(UmulOvfl(Add(Var(0), Var(1)), Num(2)), true, 2);
    CounterexampleDecompositions();
    CounterexampleBound();
    assert [] + [] + Pin(pinZero, Add(Num(0), Var(1)), 2) == Pin(pinZero, Add(Num(0), Var(1)), 2);
  }

  /** The total assignment of the counterexample: e = 2, everything else 0. */
  function CounterexampleEnv(u: nat): int {
    if u == 1 then 2 else 0
  }

  lemma CounterexampleValues()
    ensures Eval(Var(0), CounterexampleEnv, 4) == 0
    ensures Eval(Add(Var(0), Var(1)), CounterexampleEnv, 4) == 2
    ensures Eval(Add(Num(0), Var(1)), CounterexampleEnv, 4) == 2
    ensures Eval(Num(0), CounterexampleEnv, 4) == 0
    ensures Eval(Num(2), CounterexampleEnv, 4) == 2
    ensures Eval(Num(3), CounterexampleEnv, 4) == 3
  {
    WrapCases(0, 4);
    WrapCases(2, 4);
    WrapCases(3, 4);
  }

  /** The rule as written is unsound: for Omega*(v + e, 2) at width 2 with e
      currently 0, it forbids v in [0, 2) under the side condition 2 <= 3
      only; yet with v = 0 and e = 2 the side condition holds, v = 0 lies in
      the interval, and (0 + 2) * 2 = 4 overflows, so the literal is true.
      The corrected rule adds e = 0, which that assignment violates. */
  lemma UmulOvflAsWrittenCounterexample()
    ensures var c := Signed(UmulOvfl(Add(Var(0), Var(1)), Num(2)), true, 2);
      var asg := map[1 := 0];
      var r := UmulOvflExplainAsWritten(c, 0, asg);
      r.Some? && AllHold(r.value.side, CounterexampleEnv) && Holds(c, CounterexampleEnv) &&
      Contains(EvalAt(r.value.interval, CounterexampleEnv, 4), Wrap(r.value.coeff * Eval(Var(0), CounterexampleEnv, 4), 4), 4) &&
      UmulOvflExplain(c, 0, asg).Some? && !AllHold(UmulOvflExplain(c, 0, asg).value.side, CounterexampleEnv)
  {
    var e := Add(Num(0), Var(1));
    var pin := MkEq(Num(0), e, 2);
    var side := MkUle(Num(2), Num(3), 2);
    CounterexampleExplanations();
    CounterexampleTruths();
    assert AllHold([side], CounterexampleEnv);
    assert [pin, side][0] == pin;
    CounterexampleInside();
  }

  /** What the two versions of the rule report for the counterexample: the
      same interval, with and without the pin e = 0. */
  lemma CounterexampleExplanations()
    ensures var c := Signed(UmulOvfl(Add(Var(0), Var(1)), Num(2)), true, 2);
      var interval := Proper(NumEndpoint(0), NumEndpoint(2));
      var side := MkUle(Num(2), Num(3), 2);
      UmulOvflExplainAsWritten(c, 0, map[1 := 0]) == Some(Found(interval, 1, [side])) &&
      UmulOvflExplain(c, 0, map[1 := 0]) == Some(Found(interval, 1, [MkEq(Num(0), Add(Num(0), Var(1)), 2), side]))
  {
    CounterexampleExplanation(false);
    CounterexampleExplanation(true);
  }

  lemma CounterexampleExplanation(pinZero: bool)
    ensures var c := Signed(UmulOvfl(Add(Var(0), Var(1)), Num(2)), true, 2);
      var side := MkUle(Num(2), Num(3), 2);
      OvflExplainWith(c, 0, map[1 := 0], pinZero)
        == Some(Found(Proper(NumEndpoint(0), NumEndpoint(2)), 1,
                      if pinZero then [MkEq(Num(0), Add(Num(0), Var(1)), 2), side] else [side]))
  {
    var e := Add(Num(0), Var(1));
    var side := MkUle(Num(2), Num(3), 2);
    CounterexampleResults(pinZero);
    if pinZero {
      assert Pin(true, e, 2) == [MkEq(Num(0), e, 2)];
      assert Pin(true, e, 2) + [side] == [MkEq(Num(0), e, 2), side];
    } else {
      assert Pin(false, e, 2) == [];
      assert Pin(false, e, 2) + [side] == [side];
    }
  }

  /** Under the counterexample's assignment the bound holds, the pin e = 0
      does not, and the overflow literal is true. */
  lemma CounterexampleTruths()
    ensures Holds(MkUle(Num(2), Num(3), 2), CounterexampleEnv)
    ensures !Holds(MkEq(Num(0), Add(Num(0), Var(1)), 2), CounterexampleEnv)
    ensures Holds(Signed(UmulOvfl(Add(Var(0), Var(1)), Num(2)), true, 2), CounterexampleEnv)
  {
    assert Pow2(2) == 4;
    CounterexampleValues();
    HoldsUle(Num(2), Num(3), 2, CounterexampleEnv);
    HoldsEq(Num(0), Add(Num(0), Var(1)), 2, CounterexampleEnv);
  }

  /** v = 0 lies in the reported interval [0, 2). */
  lemma CounterexampleInside()
    ensures Contains(EvalAt(Proper(NumEndpoint(0), NumEndpoint(2)), CounterexampleEnv, 4),
                     Wrap(1 * Eval(Var(0), CounterexampleEnv, 4), 4), 4)
  {
    CounterexampleValues();
    WrapCases(0, 4);
    WrapCases(2, 4);
    assert EvalAt(Proper(NumEndpoint(0), NumEndpoint(2)), CounterexampleEnv, 4) == Proper(NumEndpoint(0), NumEndpoint(2));
  }
}
