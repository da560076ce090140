/** Polynomials over word-valued variables, standing in for the solver's PDDs.
    Only what the forbidden-interval matcher asks of a polynomial is modelled:
    building sums and products, the degree in one variable, splitting a linear
    polynomial into coefficient and remainder, substituting the current
    assignment, and recognising a numeral. */
module Terms {
  import opened Words

  datatype Expr =
    | Num(n: nat)
    | Var(v: nat)
    | Add(l: Expr, r: Expr)
    | Mul(l: Expr, r: Expr)

  /** A total assignment of every variable (only its residue matters). */
  type Env = nat -> int

  /** A partial assignment: the variables the search has fixed. */
  type Assignment = map<nat, int>

  /** Value of a polynomial modulo m under a total assignment. */
  function Eval(e: Expr, env: Env, m: nat): (r: nat)
    requires m > 0
    ensures r < m
  {
    match e
    case Num(n) => Wrap(n, m)
    case Var(u) => Wrap(env(u), m)
    case Add(l, r) => Wrap(Eval(l, env, m) + Eval(r, env, m), m)
    case Mul(l, r) => Wrap(Eval(l, env, m) * Eval(r, env, m), m)
  }

  /** A total assignment extends a partial one. */
  ghost predicate Agrees(env: Env, asg: Assignment) {
    forall u :: u in asg ==> env(u) == asg[u]
  }

  // ---- constructors that fold numerals, as the PDD manager does ----

  /** The numeral for k (pdd_manager::mk_val). */
  function Const(k: int, m: nat): (r: Expr)
    requires m > 0
    ensures r.Num? && r.n < m
  {
    Num(Wrap(k, m))
  }

  function Plus(a: Expr, b: Expr, m: nat): Expr
    requires m > 0
  {
    if a.Num? && b.Num? then Const(a.n + b.n, m) else Add(a, b)
  }

  function Times(a: Expr, b: Expr, m: nat): Expr
    requires m > 0
  {
    if a.Num? && b.Num? then Const(a.n * b.n, m) else Mul(a, b)
  }

  /** -a, that is (2^N - 1) * a. */
  function Neg(a: Expr, m: nat): Expr
    requires m > 0
  {
    if a.Num? then Const(-(a.n as int), m) else Mul(Const(-1, m), a)
  }

  function Minus(a: Expr, b: Expr, m: nat): Expr
    requires m > 0
  {
    Plus(a, Neg(b, m), m)
  }

  lemma EvalConst(k: int, env: Env, m: nat)
    requires m > 0
    ensures Eval(Const(k, m), env, m) == Wrap(k, m)
  {
    WrapCases(Wrap(k, m), m);
  }

  lemma EvalPlus(a: Expr, b: Expr, env: Env, m: nat)
    requires m > 0
    ensures Eval(Plus(a, b, m), env, m) == Wrap(Eval(a, env, m) + Eval(b, env, m), m)
  {
    if a.Num? && b.Num? {
      EvalConst(a.n + b.n, env, m);
      WrapSum(a.n, b.n, m);
    }
  }

  lemma EvalTimes(a: Expr, b: Expr, env: Env, m: nat)
    requires m > 0
    ensures Eval(Times(a, b, m), env, m) == Wrap(Eval(a, env, m) * Eval(b, env, m), m)
  {
    if a.Num? && b.Num? {
      EvalConst(a.n * b.n, env, m);
      WrapMul(a.n, b.n, m);
      WrapMul(b.n, Wrap(a.n, m), m);
      assert b.n * Wrap(a.n, m) == Wrap(a.n, m) * b.n;
      assert Wrap(b.n, m) * Wrap(a.n, m) == Wrap(a.n, m) * Wrap(b.n, m);
    }
  }

  lemma EvalNeg(a: Expr, env: Env, m: nat)
    requires m > 0
    ensures Eval(Neg(a, m), env, m) == Wrap(-(Eval(a, env, m) as int), m)
  {
    var x: int := Eval(a, env, m);
    if a.Num? {
      var n: int := a.n;
      EvalConst(-n, env, m);
      WrapCases(x, m);
      WrapMulCongruent(n, x, -1, m);
      assert n * -1 == -n && x * -1 == -x;
    } else {
      EvalConst(-1, env, m);
      WrapMul(-1, x, m);
      assert -1 * x == -x;
    }
  }

  lemma EvalMinus(a: Expr, b: Expr, env: Env, m: nat)
    requires m > 0
    ensures Eval(Minus(a, b, m), env, m) == Wrap(Eval(a, env, m) - Eval(b, env, m), m)
  {
    var nb := Neg(b, m);
    assert Minus(a, b, m) == Plus(a, nb, m);
    EvalPlus(a, nb, env, m);
    EvalNeg(b, env, m);
    WrapAddRight(Eval(a, env, m), -(Eval(b, env, m) as int), m);
  }

  // ---- degree and factoring in one variable (pdd::degree, pdd::factor) ----

  /** Degree of e in the variable v. */
  function Degree(e: Expr, v: nat): nat {
    match e
    case Num(_) => 0
    case Var(u) => if u == v then 1 else 0
    case Add(l, r) =>
      var dl, dr := Degree(l, v), Degree(r, v);
      if dl < dr then dr else dl
    case Mul(l, r) => Degree(l, v) + Degree(r, v)
  }

  /** Splits a polynomial of degree at most one in v into q * v + r,
      where neither q nor r mentions v. */
  function Factor(e: Expr, v: nat, m: nat): (qr: (Expr, Expr))
    requires m > 0 && Degree(e, v) <= 1
    ensures Degree(qr.0, v) == 0 && Degree(qr.1, v) == 0
  {
    match e
    case Num(_) => (Num(0), e)
    case Var(u) => if u == v then (Const(1, m), Num(0)) else (Num(0), e)
    case Add(l, r) =>
      var (ql, rl) := Factor(l, v, m);
      var (qr, rr) := Factor(r, v, m);
      (Plus(ql, qr, m), Plus(rl, rr, m))
    case Mul(l, r) =>
      if Degree(l, v) == 1 then
        var (ql, rl) := Factor(l, v, m);
        (Times(ql, r, m), Times(rl, r, m))
      else if Degree(r, v) == 1 then
        var (qr, rr) := Factor(r, v, m);
        (Times(l, qr, m), Times(l, rr, m))
      else
        (Num(0), e)
  }

  /** A polynomial without v does not depend on the value of v. */
  lemma {:induction false} EvalIgnores(e: Expr, v: nat, env: Env, env': Env, m: nat)
    requires m > 0 && Degree(e, v) == 0
    requires forall u :: u != v ==> env(u) == env'(u)
    ensures Eval(e, env, m) == Eval(e, env', m)
  {
    match e
    case Num(_) =>
    case Var(u) =>
    case Add(l, r) =>
      EvalIgnores(l, v, env, env', m);
      EvalIgnores(r, v, env, env', m);
    case Mul(l, r) =>
      EvalIgnores(l, v, env, env', m);
      EvalIgnores(r, v, env, env', m);
  }

  lemma DistributeRing(q: int, r: int, k: int, x: int)
    ensures (q * x + r) * k == (q * k) * x + r * k
  {
  }

  lemma CollectRing(q1: int, r1: int, q2: int, r2: int, x: int)
    ensures (q1 * x + r1) + (q2 * x + r2) == (q1 + q2) * x + (r1 + r2)
  {
  }

  /** (q * x + r) * k is congruent to (q * k) * x + r * k, with every intermediate wrapped. */
  lemma DistributeWrapped(q: nat, r: nat, k: nat, x: nat, m: nat)
    requires m > 0
    ensures Wrap(Wrap(q * x + r, m) * k, m)
         == Wrap(Wrap(q * k, m) * x + Wrap(r * k, m), m)
  {
    calc {
      Wrap(Wrap(q * x + r, m) * k, m);
      { WrapMul(q * x + r, k, m); }
      Wrap((q * x + r) * k, m);
      { DistributeRing(q, r, k, x); }
      Wrap((q * k) * x + r * k, m);
      { WrapMulAdd(q * k, x, r * k, m); }
      Wrap(Wrap(q * k, m) * x + r * k, m);
      { WrapAddRight(Wrap(q * k, m) * x, r * k, m); }
      Wrap(Wrap(q * k, m) * x + Wrap(r * k, m), m);
    }
  }

  /** (q1 * x + r1) + (q2 * x + r2) is congruent to (q1 + q2) * x + (r1 + r2). */
  lemma CollectWrapped(q1: nat, r1: nat, q2: nat, r2: nat, x: nat, m: nat)
    requires m > 0
    ensures Wrap(Wrap(q1 * x + r1, m) + Wrap(q2 * x + r2, m), m)
         == Wrap(Wrap(q1 + q2, m) * x + Wrap(r1 + r2, m), m)
  {
    calc {
      Wrap(Wrap(q1 * x + r1, m) + Wrap(q2 * x + r2, m), m);
      { WrapSum(q1 * x + r1, q2 * x + r2, m); }
      Wrap((q1 * x + r1) + (q2 * x + r2), m);
      { CollectRing(q1, r1, q2, r2, x); }
      Wrap((q1 + q2) * x + (r1 + r2), m);
      { WrapMulAdd(q1 + q2, x, r1 + r2, m); }
      Wrap(Wrap(q1 + q2, m) * x + (r1 + r2), m);
      { WrapAddRight(Wrap(q1 + q2, m) * x, r1 + r2, m); }
      Wrap(Wrap(q1 + q2, m) * x + Wrap(r1 + r2, m), m);
    }
  }

  /** e = q * v + r under env. */
  ghost predicate SplitExact(e: Expr, q: Expr, r: Expr, v: nat, env: Env, m: nat)
    requires m > 0
  {
    Eval(e, env, m) == Wrap(Eval(q, env, m) * Eval(Var(v), env, m) + Eval(r, env, m), m)
  }

  /** e = q * v + r for the split Factor computes, under env. */
  ghost predicate FactorExact(e: Expr, v: nat, env: Env, m: nat)
    requires m > 0 && Degree(e, v) <= 1
  {
    SplitExact(e, Factor(e, v, m).0, Factor(e, v, m).1, v, env, m)
  }

  /** The arithmetic of the Add case of FactorSound, on plain numbers. */
  lemma CollectValues(el: int, er: int, a1: nat, b1: nat, a2: nat, b2: nat, x: nat, pq: int, pr: int, m: nat)
    requires m > 0
    requires el == Wrap(a1 * x + b1, m) && er == Wrap(a2 * x + b2, m)
    requires pq == Wrap(a1 + a2, m) && pr == Wrap(b1 + b2, m)
    ensures Wrap(el + er, m) == Wrap(pq * x + pr, m)
  {
    CollectWrapped(a1, b1, a2, b2, x, m);
  }

  /** The arithmetic of the Mul cases of FactorSound, on plain numbers. */
  lemma DistributeValues(e: int, k: nat, a: nat, b: nat, x: nat, pq: int, pr: int, m: nat)
    requires m > 0
    requires e == Wrap(a * x + b, m)
    requires pq == Wrap(a * k, m) && pr == Wrap(b * k, m)
    ensures Wrap(e * k, m) == Wrap(pq * x + pr, m)
  {
    DistributeWrapped(a, b, k, x, m);
  }

  /** Splits of l and r add up to a split of l + r. */
  lemma SplitExactAdd(l: Expr, r: Expr, ql: Expr, rl: Expr, qr: Expr, rr: Expr, v: nat, env: Env, m: nat)
    requires m > 0
    requires SplitExact(l, ql, rl, v, env, m) && SplitExact(r, qr, rr, v, env, m)
    ensures SplitExact(Add(l, r), Plus(ql, qr, m), Plus(rl, rr, m), v, env, m)
  {
    EvalPlus(ql, qr, env, m);
    EvalPlus(rl, rr, env, m);
    CollectValues(Eval(l, env, m), Eval(r, env, m), Eval(ql, env, m), Eval(rl, env, m), Eval(qr, env, m), Eval(rr, env, m),
      Eval(Var(v), env, m), Eval(Plus(ql, qr, m), env, m), Eval(Plus(rl, rr, m), env, m), m);
  }

  /** A split of l, multiplied through by k, is a split of l * k. */
  lemma SplitExactMulLeft(l: Expr, k: Expr, ql: Expr, rl: Expr, v: nat, env: Env, m: nat)
    requires m > 0
    requires SplitExact(l, ql, rl, v, env, m)
    ensures SplitExact(Mul(l, k), Times(ql, k, m), Times(rl, k, m), v, env, m)
  {
    EvalTimes(ql, k, env, m);
    EvalTimes(rl, k, env, m);
    DistributeValues(Eval(l, env, m), Eval(k, env, m), Eval(ql, env, m), Eval(rl, env, m),
      Eval(Var(v), env, m), Eval(Times(ql, k, m), env, m), Eval(Times(rl, k, m), env, m), m);
  }

  /** A split of r, multiplied through by k on the left, is a split of k * r. */
  lemma SplitExactMulRight(k: Expr, r: Expr, qr: Expr, rr: Expr, v: nat, env: Env, m: nat)
    requires m > 0
    requires SplitExact(r, qr, rr, v, env, m)
    ensures SplitExact(Mul(k, r), Times(k, qr, m), Times(k, rr, m), v, env, m)
  {
    var j, a, b := Eval(k, env, m), Eval(qr, env, m), Eval(rr, env, m);
    EvalTimes(k, qr, env, m);
    EvalTimes(k, rr, env, m);
    assert j * a == a * j && j * b == b * j;
    DistributeValues(Eval(r, env, m), j, a, b,
      Eval(Var(v), env, m), Eval(Times(k, qr, m), env, m), Eval(Times(k, rr, m), env, m), m);
    assert Eval(r, env, m) * j == j * Eval(r, env, m);
  }

  lemma ZeroCoefficientValues(z: int, x: nat, y: nat, m: nat)
    requires m > 0 && z == Wrap(0, m) && y < m
    ensures Wrap(z * x + y, m) == y
  {
    WrapCases(0, m);
    WrapCases(y, m);
  }

  lemma UnitCoefficientValues(o: int, z: int, x: nat, m: nat)
    requires m > 0 && o == Wrap(1, m) && z == Wrap(0, m) && x < m
    ensures Wrap(o * x + z, m) == x
  {
    WrapCases(0, m);
    WrapCases(1, m);
    WrapCases(x, m);
    if m == 1 {
      assert o * x + z == 0;
    } else {
      assert o * x + z == x;
    }
  }

  /** A polynomial left whole as the remainder, with coefficient 0, is split exactly. */
  lemma FactorExactConstant(e: Expr, v: nat, env: Env, m: nat)
    requires m > 0 && Degree(e, v) <= 1 && Factor(e, v, m) == (Num(0), e)
    ensures FactorExact(e, v, env, m)
  {
    ZeroCoefficientValues(Eval(Num(0), env, m), Eval(Var(v), env, m), Eval(e, env, m), m);
  }

  lemma FactorExactVar(v: nat, env: Env, m: nat)
    requires m > 0
    ensures FactorExact(Var(v), v, env, m)
  {
    assert Factor(Var(v), v, m) == (Const(1, m), Num(0));
    UnitCoefficientValues(Eval(Const(1, m), env, m), Eval(Num(0), env, m), Eval(Var(v), env, m), m);
  }

  /** Factoring is exact: e = q * v + r for every assignment. */
  lemma {:induction false} FactorSound(e: Expr, v: nat, env: Env, m: nat)
    requires m > 0 && Degree(e, v) <= 1
    ensures FactorExact(e, v, env, m)
  {
    match e
    case Num(n) =>
      FactorExactConstant(e, v, env, m);
    case Var(u) =>
      if u == v {
        FactorExactVar(v, env, m);
      } else {
        FactorExactConstant(e, v, env, m);
      }
    case Add(l, r) =>
      var (ql, rl) := Factor(l, v, m);
      var (qr, rr) := Factor(r, v, m);
      FactorSound(l, v, env, m);
      FactorSound(r, v, env, m);
      SplitExactAdd(l, r, ql, rl, qr, rr, v, env, m);
    case Mul(l, r) =>
      if Degree(l, v) == 1 {
        var (ql, rl) := Factor(l, v, m);
        FactorSound(l, v, env, m);
        SplitExactMulLeft(l, r, ql, rl, v, env, m);
      } else if Degree(r, v) == 1 {
        var (qr, rr) := Factor(r, v, m);
        FactorSound(r, v, env, m);
        SplitExactMulRight(l, r, qr, rr, v, env, m);
      } else {
        FactorExactConstant(e, v, env, m);
      }
  }

  // ---- substitution of the current assignment (core::subst) ----

  /** Replaces every assigned variable by its value and folds numerals. */
  function Subst(e: Expr, asg: Assignment, m: nat): (r: Expr)
    requires m > 0
    ensures r.Num? ==> r.n < m
  {
    match e
    case Num(n) => Const(n, m)
    case Var(u) => if u in asg then Const(asg[u], m) else e
    case Add(l, r) => Plus(Subst(l, asg, m), Subst(r, asg, m), m)
    case Mul(l, r) => Times(Subst(l, asg, m), Subst(r, asg, m), m)
  }

  /** Substitution keeps the value under every assignment that extends it. */
  lemma {:induction false} SubstSound(e: Expr, asg: Assignment, env: Env, m: nat)
    requires m > 0 && Agrees(env, asg)
    ensures Eval(Subst(e, asg, m), env, m) == Eval(e, env, m)
  {
    match e
    case Num(n) =>
      EvalConst(n, env, m);
    case Var(u) =>
      if u in asg {
        EvalConst(asg[u], env, m);
      }
    case Add(l, r) =>
      SubstSound(l, asg, env, m);
      SubstSound(r, asg, env, m);
      EvalPlus(Subst(l, asg, m), Subst(r, asg, m), env, m);
    case Mul(l, r) =>
      SubstSound(l, asg, env, m);
      SubstSound(r, asg, env, m);
      EvalTimes(Subst(l, asg, m), Subst(r, asg, m), env, m);
  }

  /** A numeral denotes its own residue under every assignment. */
  lemma EvalNum(n: nat, env: Env, m: nat)
    requires m > 0 && n < m
    ensures Eval(Num(n), env, m) == n
  {
    WrapCases(n, m);
  }

  /** The folding constructors yield a numeral exactly when all their operands are numerals. */
  lemma FoldsNumerals(a: Expr, b: Expr, m: nat)
    requires m > 0
    ensures Plus(a, b, m).Num? <==> a.Num? && b.Num?
    ensures Times(a, b, m).Num? <==> a.Num? && b.Num?
    ensures Neg(a, m).Num? <==> a.Num?
    ensures Minus(a, b, m).Num? <==> a.Num? && b.Num?
  {
  }
}
