/** The active saturation rules: for a variable v and the constraints of the
    unsat core, infer p = q from a pair of mirrored inequalities, and turn
    y*x < z*x into the clause "x*y overflows or y < z".  Every clause and
    propagation is handed to the solver core, which may accept or reject it;
    the rule set remembers whether anything was accepted. */
module Saturation {
  import opened Words
  import opened Terms
  import opened Constraints
  import opened ForbiddenIntervals

  // ---------------------------------------------------------------------
  // Inequalities, clauses and what the solver core is asked
  // ---------------------------------------------------------------------

  /** An unsigned inequality lhs <= rhs or lhs < rhs read off a ule literal. */
  datatype Inequality = Inequality(id: nat, lhs: Expr, rhs: Expr, strict: bool, width: nat)

  /** ineq(is_strict, p, q): p < q or p <= q as a literal. */
  function Ineq(strict: bool, p: Expr, q: Expr, w: nat): (r: Signed)
    ensures r.width == w
    ensures forall env: Env :: Holds(r, env) <==>
      if strict then Eval(p, env, Pow2(w)) < Eval(q, env, Pow2(w)) else Eval(p, env, Pow2(w)) <= Eval(q, env, Pow2(w))
  {
    if strict then MkUlt(p, q, w) else MkUle(p, q, w)
  }

  /** The literal an inequality stands for. */
  function LiteralOf(i: Inequality): Signed {
    Ineq(i.strict, i.lhs, i.rhs, i.width)
  }

  /** inequality::from_ule: a positive lhs <= rhs is itself, a negated one,
      not (lhs <= rhs), is rhs < lhs.  Reading the literal back gives the
      constraint it was read from. */
  function FromUle(id: nat, sc: Signed): (i: Inequality)
    requires sc.c.Ule?
    ensures LiteralOf(i) == sc && i.id == id && i.width == sc.width
    ensures i.strict <==> !sc.positive
  {
    if sc.positive then Inequality(id, sc.c.lhs, sc.c.rhs, false, sc.width)
    else Inequality(id, sc.c.rhs, sc.c.lhs, true, sc.width)
  }

  /** A clause: if every premise holds, some literal does. */
  datatype Clause = Clause(premises: seq<Signed>, lits: seq<Signed>)

  /** What the rules hand to the solver core. */
  datatype Request =
    | Propagation(lit: Signed, premises: seq<Signed>)
    | AddClause(clause: Clause)

  ghost predicate SomeHolds(lits: seq<Signed>, env: Env) {
    exists k :: 0 <= k < |lits| && Holds(lits[k], env)
  }

  /** env makes every premise of the clause true and every literal false. */
  ghost predicate Falsifies(cl: Clause, env: Env) {
    AllHold(cl.premises, env) && !SomeHolds(cl.lits, env)
  }

  /** A request is justified when no assignment of the variables refutes it. */
  ghost predicate Justified(r: Request) {
    match r
    case Propagation(lit, premises) => forall env: Env :: AllHold(premises, env) ==> Holds(lit, env)
    case AddClause(cl) => forall env: Env :: !Falsifies(cl, env)
  }

  /** What the rules read from the solver core: the constraint behind each id,
      the unsat core and the assigned constraints in order, which constraints
      already evaluate to true, the width of each variable, the current
      assignment, and whether the core accepts a request. */
  datatype Core = Core(
    constraintOf: nat -> Signed,
    unsatCore: seq<nat>,
    assignedIds: seq<nat>,
    isTrue: nat -> bool,
    varWidth: nat -> nat,
    asg: Assignment,
    accepts: Request -> bool)

  // ---------------------------------------------------------------------
  // First match (match_core, match_constraints)
  // ---------------------------------------------------------------------

  /** The first id of ids whose constraint satisfies p. */
  function First(ids: seq<nat>, constraintOf: nat -> Signed, p: Signed -> bool): Option<nat> {
    if ids == [] then None
    else if p(constraintOf(ids[0])) then Some(ids[0])
    else First(ids[1..], constraintOf, p)
  }

  /** First finds an id exactly when one qualifies, and what it finds is the
      earliest qualifying one. */
  lemma {:induction false} FirstIsFirst(ids: seq<nat>, constraintOf: nat -> Signed, p: Signed -> bool)
    ensures First(ids, constraintOf, p).None? <==> forall k :: 0 <= k < |ids| ==> !p(constraintOf(ids[k]))
    ensures First(ids, constraintOf, p).Some? ==>
      exists k :: 0 <= k < |ids| && ids[k] == First(ids, constraintOf, p).value && p(constraintOf(ids[k])) &&
        forall j :: 0 <= j < k ==> !p(constraintOf(ids[j]))
  {
    if ids != [] && !p(constraintOf(ids[0])) {
      FirstIsFirst(ids[1..], constraintOf, p);
      if First(ids, constraintOf, p).Some? {
        var k :| 0 <= k < |ids[1..]| && ids[1..][k] == First(ids, constraintOf, p).value && p(constraintOf(ids[1..][k])) &&
          forall j :: 0 <= j < k ==> !p(constraintOf(ids[1..][j]));
        assert ids[k + 1] == ids[1..][k];
        forall j | 0 <= j < k + 1
          ensures !p(constraintOf(ids[j]))
        {
          if j > 0 {
            assert ids[j] == ids[1..][j - 1];
          }
        }
      } else {
        forall k | 0 <= k < |ids|
          ensures !p(constraintOf(ids[k]))
        {
          if k > 0 {
            assert ids[k] == ids[1..][k - 1];
          }
        }
      }
    } else if ids != [] {
      assert ids[0] == First(ids, constraintOf, p).value;
    }
  }

  // ---------------------------------------------------------------------
  // The rules
  // ---------------------------------------------------------------------

  /** The predicate propagate_infer_equality looks for: the positive mirror
      inequality rhs <= lhs of i. */
  predicate IsMirror(i: Inequality, sc: Signed) {
    sc.c.Ule? && sc.positive && sc.width == i.width && sc.c.lhs == i.rhs && sc.c.rhs == i.lhs
  }

  function MirrorTest(i: Inequality): Signed -> bool {
    sc => IsMirror(i, sc)
  }

  /** propagate_infer_equality: for a non-strict p <= q mentioning x, with the
      mirror q <= p in the unsat core, propagate p = q from both. */
  function InferEquality(core: Core, x: nat, i: Inequality): Option<Request> {
    if i.strict || (Degree(i.lhs, x) == 0 && Degree(i.rhs, x) == 0) then None
    else
      var found := First(core.unsatCore, core.constraintOf, MirrorTest(i));
      if found.None? then None
      else Some(Propagation(MkEq(i.lhs, i.rhs, i.width), [core.constraintOf(found.value), LiteralOf(i)]))
  }

  /** p <= q and q <= p give p = q. */
  lemma InferEqualitySound(core: Core, x: nat, i: Inequality)
    requires InferEquality(core, x, i).Some?
    ensures Justified(InferEquality(core, x, i).value)
  {
    var r := InferEquality(core, x, i).value;
    var m := Pow2(i.width);
    FirstIsFirst(core.unsatCore, core.constraintOf, MirrorTest(i));
    assert IsMirror(i, r.premises[0]);
    forall env: Env | AllHold(r.premises, env)
      ensures Holds(r.lit, env)
    {
      assert Holds(r.premises[0], env) && Holds(r.premises[1], env);
      assert Eval(i.rhs, env, m) <= Eval(i.lhs, env, m);
      assert Eval(i.lhs, env, m) <= Eval(i.rhs, env, m);
      HoldsEq(i.lhs, i.rhs, i.width, env);
    }
  }

  /** is_xY_l_xZ: i reads x*Y <op> x*Z for x the variable v; gives (Y, Z). */
  function MatchXYXZ(v: nat, i: Inequality): (r: Option<(Expr, Expr)>)
    ensures r.Some? ==> i.lhs == Mul(Var(v), r.value.0) && i.rhs == Mul(Var(v), r.value.1)
  {
    if i.lhs.Mul? && i.lhs.l == Var(v) && i.rhs.Mul? && i.rhs.l == Var(v) then Some((i.lhs.r, i.rhs.r))
    else None
  }

  /** try_ugt_x: y*x < z*x gives "x*y overflows or y < z"; the non-strict
      form also allows x = 0 and concludes y <= z. */
  function UgtXClause(v: nat, i: Inequality): Option<Clause> {
    var yz := MatchXYXZ(v, i);
    if yz.None? then None
    else
      var (x, y, z, w) := (Var(v), yz.value.0, yz.value.1, i.width);
      if i.strict then Some(Clause([LiteralOf(i)], [MkOvfl(x, y, w), MkUlt(y, z, w)]))
      else Some(Clause([LiteralOf(i)], [MkOvfl(x, y, w), MkEqZero(x, w), MkUle(y, z, w)]))
  }

  /** Cancelling a common factor: without overflow of x*y, x*y <= x*z
      (mod 2^N) needs x = 0 or y <= z, and x*y < x*z needs y < z. */
  lemma Cancel(x: nat, y: nat, z: nat, m: nat)
    requires m > 0 && x < m && y < m && z < m && x * y < m
    ensures Wrap(x * y, m) < Wrap(x * z, m) ==> y < z
    ensures Wrap(x * y, m) <= Wrap(x * z, m) ==> x == 0 || y <= z
  {
    if z <= y {
      MulLe(0, x, 0, z);
      MulLe(x, x, z, y);
      if z < y && x > 0 {
        MulLe(x, x, z + 1, y);
        Distribute(x, z);
      }
      WrapCases(x * y, m);
      WrapCases(x * z, m);
    }
  }

  /** The clause of try_ugt_x is valid. */
  lemma UgtXSound(v: nat, i: Inequality)
    requires UgtXClause(v, i).Some?
    ensures Justified(AddClause(UgtXClause(v, i).value))
  {
    var cl := UgtXClause(v, i).value;
    var (y, z) := MatchXYXZ(v, i).value;
    var w := i.width;
    var m := Pow2(w);
    forall env: Env
      ensures !Falsifies(cl, env)
    {
      if AllHold(cl.premises, env) && !Holds(cl.lits[0], env) {
        assert Holds(cl.premises[0], env);
        var xv, yv, zv := Eval(Var(v), env, m), Eval(y, env, m), Eval(z, env, m);
        HoldsOvfl(Var(v), y, w, env);
        Cancel(xv, yv, zv, m);
        if i.strict {
          HoldsUlt(y, z, w, env);
          assert Holds(cl.lits[1], env);
        } else if xv == 0 {
          HoldsEqZero(Var(v), w, env);
          assert Holds(cl.lits[1], env);
        } else {
          HoldsUle(y, z, w, env);
          assert Holds(cl.lits[2], env);
        }
      }
    }
  }

  /** A non-overflowing product is its own residue, and it grows with its
      first factor. */
  lemma Monotone(a: nat, b: nat, x: nat, m: nat)
    requires m > 0 && a <= b && b * x < m
    ensures Wrap(a * x, m) == a * x <= b * x == Wrap(b * x, m)
  {
    MulLeMono(a, b, x);
    WrapCases(a * x, m);
    WrapCases(b * x, m);
  }

  /** is_Xy_l_XZ: i reads X*y <op> X*Z for y the variable v; gives (X, Z). */
  function MatchXyXZ(v: nat, i: Inequality): (r: Option<(Expr, Expr)>)
    ensures r.Some? ==> i.lhs == Mul(r.value.0, Var(v)) && i.rhs == Mul(r.value.0, r.value.1)
  {
    if i.lhs.Mul? && i.lhs.r == Var(v) && i.rhs.Mul? && i.rhs.l == i.lhs.l then Some((i.lhs.l, i.rhs.r))
    else None
  }

  /** is_YX_l_zX: i reads Y*X <op> z*X for z the variable v; gives (X, Y). */
  function MatchYXzX(v: nat, i: Inequality): (r: Option<(Expr, Expr)>)
    ensures r.Some? ==> i.lhs == Mul(r.value.1, r.value.0) && i.rhs == Mul(Var(v), r.value.0)
  {
    if i.lhs.Mul? && i.rhs.Mul? && i.rhs.l == Var(v) && i.lhs.r == i.rhs.r then Some((i.rhs.r, i.lhs.l))
    else None
  }

  /** try_ugt_y from z' <= y (j) and X*y <= X*Z (i), for y the variable v:
      "X*y overflows or z'*X <= Z*X", strict when i is.  With zPrimeFromJ
      false, z' is taken from i.lhs() as the source does; with strictFromJ,
      a strict j also makes the conclusion strict, as the source does. */
  function UgtYClauseWith(v: nat, i: Inequality, j: Inequality, zPrimeFromJ: bool, strictFromJ: bool): Option<Clause> {
    var xz := MatchXyXZ(v, i);
    if xz.None? || j.rhs != Var(v) || j.width != i.width then None
    else
      var (x, z, w) := (xz.value.0, xz.value.1, i.width);
      var m := Pow2(w);
      var zPrime := if zPrimeFromJ then j.lhs else i.lhs;
      var strict := i.strict || (strictFromJ && j.strict);
      Some(Clause([LiteralOf(i), LiteralOf(j)], [MkOvfl(x, Var(v), w), Ineq(strict, Times(zPrime, x, m), Times(z, x, m), w)]))
  }

  /** try_ugt_y as written. */
  function UgtYClauseAsWritten(v: nat, i: Inequality, j: Inequality): (r: Option<Clause>)
    ensures r == UgtYClauseWith(v, i, j, false, true)
  {
    UgtYClauseWith(v, i, j, false, true)
  }

  /** try_ugt_y as its comment states it: z' from j, strict exactly when i is. */
  function UgtYClause(v: nat, i: Inequality, j: Inequality): (r: Option<Clause>)
    ensures r == UgtYClauseWith(v, i, j, true, false)
  {
    UgtYClauseWith(v, i, j, true, false)
  }

  /** The clause of the corrected try_ugt_y is valid. */
  lemma UgtYSound(v: nat, i: Inequality, j: Inequality)
    requires UgtYClause(v, i, j).Some?
    ensures Justified(AddClause(UgtYClause(v, i, j).value))
  {
    var cl := UgtYClause(v, i, j).value;
    var (x, z) := MatchXyXZ(v, i).value;
    var w := i.width;
    var m := Pow2(w);
    forall env: Env
      ensures !Falsifies(cl, env)
    {
      if AllHold(cl.premises, env) && !Holds(cl.lits[0], env) {
        assert Holds(cl.premises[0], env) && Holds(cl.premises[1], env);
        var xv, yv, zv, zp := Eval(x, env, m), Eval(Var(v), env, m), Eval(z, env, m), Eval(j.lhs, env, m);
        HoldsOvfl(x, Var(v), w, env);
        Commute(xv, yv);
        Commute(xv, zv);
        Monotone(zp, yv, xv, m);
        EvalTimes(j.lhs, x, env, m);
        EvalTimes(z, x, env, m);
        assert Holds(cl.lits[1], env);
      }
    }
  }

  /** try_ugt_z from z <= y' (j) and Y*X <= z*X (i), for z the variable v:
      "X*y' overflows or Y*X <= y'*X", strict when i is.  With strictFromJ,
      a strict j also makes the conclusion strict, as the source does. */
  function UgtZClauseWith(v: nat, i: Inequality, j: Inequality, strictFromJ: bool): Option<Clause> {
    var xy := MatchYXzX(v, i);
    if xy.None? || j.lhs != Var(v) || j.width != i.width then None
    else
      var (x, y, w) := (xy.value.0, xy.value.1, i.width);
      var m := Pow2(w);
      var yPrime := j.rhs;
      var strict := i.strict || (strictFromJ && j.strict);
      Some(Clause([LiteralOf(i), LiteralOf(j)], [MkOvfl(x, yPrime, w), Ineq(strict, Times(y, x, m), Times(yPrime, x, m), w)]))
  }

  /** try_ugt_z as written. */
  function UgtZClauseAsWritten(v: nat, i: Inequality, j: Inequality): (r: Option<Clause>)
    ensures r == UgtZClauseWith(v, i, j, true)
  {
    UgtZClauseWith(v, i, j, true)
  }

  /** try_ugt_z as its comment states it: strict exactly when i is. */
  function UgtZClause(v: nat, i: Inequality, j: Inequality): (r: Option<Clause>)
    ensures r == UgtZClauseWith(v, i, j, false)
  {
    UgtZClauseWith(v, i, j, false)
  }

  /** The clause of the corrected try_ugt_z is valid. */
  lemma UgtZSound(v: nat, i: Inequality, j: Inequality)
    requires UgtZClause(v, i, j).Some?
    ensures Justified(AddClause(UgtZClause(v, i, j).value))
  {
    var cl := UgtZClause(v, i, j).value;
    var (x, y) := MatchYXzX(v, i).value;
    var w := i.width;
    var m := Pow2(w);
    forall env: Env
      ensures !Falsifies(cl, env)
    {
      if AllHold(cl.premises, env) && !Holds(cl.lits[0], env) {
        assert Holds(cl.premises[0], env) && Holds(cl.premises[1], env);
        var xv, yv, zv, yp := Eval(x, env, m), Eval(y, env, m), Eval(Var(v), env, m), Eval(j.rhs, env, m);
        HoldsOvfl(x, j.rhs, w, env);
        Commute(xv, yp);
        Monotone(zv, yp, xv, m);
        EvalTimes(y, x, env, m);
        EvalTimes(j.rhs, x, env, m);
        assert Holds(cl.lits[1], env);
      }
    }
  }

  // ---- counterexamples to the rules as written (width 4) ----

  lemma Width4()
    ensures Pow2(4) == 16
  {
    assert Pow2(1) == 2 && Pow2(2) == 4 && Pow2(3) == 8;
  }

  /** y = 3, x = 2, z = 4, z' = 3 as variables 0, 1, 2, 3. */
  function UgtYEnv(u: nat): int {
    if u == 0 then 3 else if u == 1 then 2 else if u == 2 then 4 else if u == 3 then 3 else 0
  }

  /** try_ugt_y as written takes z' from i: from 3 <= y and 2*y <= 2*4 with
      y = 3 it concludes (2*3)*2 <= 4*2, that is 12 <= 8, although 2*3 does
      not overflow.  The clause is false at a point where both premises hold. */
  lemma UgtYAsWrittenCounterexample()
    ensures var i := Inequality(0, Mul(Var(1), Var(0)), Mul(Var(1), Var(2)), false, 4);
      var j := Inequality(1, Var(3), Var(0), false, 4);
      UgtYClauseAsWritten(0, i, j).Some? && Falsifies(UgtYClauseAsWritten(0, i, j).value, UgtYEnv)
  {
    var i := Inequality(0, Mul(Var(1), Var(0)), Mul(Var(1), Var(2)), false, 4);
    var j := Inequality(1, Var(3), Var(0), false, 4);
    var env: Env := UgtYEnv;
    Width4();
    var cl := UgtYClauseAsWritten(0, i, j).value;
    assert cl.premises == [MkUle(Mul(Var(1), Var(0)), Mul(Var(1), Var(2)), 4), MkUle(Var(3), Var(0), 4)];
    assert cl.lits == [MkOvfl(Var(1), Var(0), 4), MkUle(Mul(Mul(Var(1), Var(0)), Var(1)), Mul(Var(2), Var(1)), 4)];
    WrapCases(2, 16);
    WrapCases(3, 16);
    WrapCases(4, 16);
    WrapCases(6, 16);
    WrapCases(8, 16);
    WrapCases(12, 16);
    assert Eval(Mul(Var(1), Var(0)), env, 16) == 6;
    assert Eval(Mul(Var(1), Var(2)), env, 16) == 8;
    assert Eval(Mul(Mul(Var(1), Var(0)), Var(1)), env, 16) == 12;
    assert Eval(Mul(Var(2), Var(1)), env, 16) == 8;
    assert Holds(cl.premises[0], env) && Holds(cl.premises[1], env);
    assert !Holds(cl.lits[0], env) && !Holds(cl.lits[1], env);
  }

  /** x = 1 and y = 0 (variable 0) give 0 < 1; everything else is 0. */
  function StrictEnv(u: nat): int {
    if u == 3 then 1 else 0
  }

  /** try_ugt_z as written makes the conclusion strict when only j is: from
      z < y' and y*x <= z*x with x = 0, z = 0, y' = 1 it concludes 0 < 0,
      although 0*1 does not overflow. */
  lemma UgtZAsWrittenCounterexample()
    ensures var i := Inequality(0, Mul(Var(2), Var(1)), Mul(Var(0), Var(1)), false, 4);
      var j := Inequality(1, Var(0), Var(3), true, 4);
      UgtZClauseAsWritten(0, i, j).Some? && Falsifies(UgtZClauseAsWritten(0, i, j).value, StrictEnv)
  {
    var i := Inequality(0, Mul(Var(2), Var(1)), Mul(Var(0), Var(1)), false, 4);
    var j := Inequality(1, Var(0), Var(3), true, 4);
    var env: Env := StrictEnv;
    Width4();
    var cl := UgtZClauseAsWritten(0, i, j).value;
    assert cl.premises == [MkUle(Mul(Var(2), Var(1)), Mul(Var(0), Var(1)), 4), MkUlt(Var(0), Var(3), 4)];
    assert cl.lits == [MkOvfl(Var(1), Var(3), 4), MkUlt(Mul(Var(2), Var(1)), Mul(Var(3), Var(1)), 4)];
    WrapCases(0, 16);
    WrapCases(1, 16);
    assert Eval(Var(0), env, 16) == 0 && Eval(Var(3), env, 16) == 1;
    assert Eval(Mul(Var(2), Var(1)), env, 16) == 0;
    assert Eval(Mul(Var(0), Var(1)), env, 16) == 0;
    assert Eval(Mul(Var(3), Var(1)), env, 16) == 0;
    assert Holds(cl.premises[0], env) && Holds(cl.premises[1], env);
    assert !Holds(cl.lits[0], env) && !Holds(cl.lits[1], env);
  }

  /** y = 1 (variable 0); everything else is 0. */
  function StrictYEnv(u: nat): int {
    if u == 0 then 1 else 0
  }

  /** The same strictness slip in try_ugt_y, with z' already taken from j:
      from z' < y and x*y <= x*z with x = 0, z' = 0, y = 1 it concludes 0 < 0. */
  lemma UgtYStrictnessCounterexample()
    ensures var i := Inequality(0, Mul(Var(1), Var(0)), Mul(Var(1), Var(2)), false, 4);
      var j := Inequality(1, Var(4), Var(0), true, 4);
      UgtYClauseWith(0, i, j, true, true).Some? &&
      Falsifies(UgtYClauseWith(0, i, j, true, true).value, StrictYEnv)
  {
    var i := Inequality(0, Mul(Var(1), Var(0)), Mul(Var(1), Var(2)), false, 4);
    var j := Inequality(1, Var(4), Var(0), true, 4);
    var env: Env := StrictYEnv;
    Width4();
    var cl := UgtYClauseWith(0, i, j, true, true).value;
    assert cl.premises == [MkUle(Mul(Var(1), Var(0)), Mul(Var(1), Var(2)), 4), MkUlt(Var(4), Var(0), 4)];
    assert cl.lits == [MkOvfl(Var(1), Var(0), 4), MkUlt(Mul(Var(4), Var(1)), Mul(Var(2), Var(1)), 4)];
    WrapCases(0, 16);
    WrapCases(1, 16);
    assert Eval(Var(4), env, 16) == 0 && Eval(Var(0), env, 16) == 1;
    assert Eval(Mul(Var(1), Var(0)), env, 16) == 0;
    assert Eval(Mul(Var(1), Var(2)), env, 16) == 0;
    assert Eval(Mul(Var(4), Var(1)), env, 16) == 0;
    assert Eval(Mul(Var(2), Var(1)), env, 16) == 0;
    assert Holds(cl.premises[0], env) && Holds(cl.premises[1], env);
    assert !Holds(cl.lits[0], env) && !Holds(cl.lits[1], env);
  }

  // ---- is_non_overflow ----

  /** is_non_overflow: both factors evaluate under the current assignment and
      their product stays below 2^N.  Then Omega*(x, y) is false wherever the
      assignment is extended. */
  function IsNonOverflow(asg: Assignment, x: Expr, y: Expr, w: nat): (r: bool)
    ensures r ==> forall env: Env :: Agrees(env, asg) ==> !Holds(MkOvfl(x, y, w), env)
  {
    var m := Pow2(w);
    var xs, ys := Subst(x, asg, m), Subst(y, asg, m);
    var r := xs.Num? && ys.Num? && xs.n * ys.n < m;
    assert r ==> forall env: Env :: Agrees(env, asg) ==> !Holds(MkOvfl(x, y, w), env) by {
      if r {
        forall env: Env | Agrees(env, asg)
          ensures !Holds(MkOvfl(x, y, w), env)
        {
          SubstSound(x, asg, env, m);
          SubstSound(y, asg, env, m);
          EvalNum(xs.n, env, m);
          EvalNum(ys.n, env, m);
          HoldsOvfl(x, y, w, env);
        }
      }
    }
    r
  }

  /** The second is_non_overflow: the overflow literal that is false, when it is. */
  function NonOverflowLiteral(asg: Assignment, x: Expr, y: Expr, w: nat): (r: Option<Signed>)
    ensures r.Some? <==> IsNonOverflow(asg, x, y, w)
    ensures r.Some? ==> r.value == MkOvfl(x, y, w) && forall env: Env :: Agrees(env, asg) ==> !Holds(r.value, env)
  {
    if IsNonOverflow(asg, x, y, w) then Some(MkOvfl(x, y, w)) else None
  }

  // ---------------------------------------------------------------------
  // What one round of propagation asks of the core
  // ---------------------------------------------------------------------

  function Opt(r: Option<Request>): seq<Request> {
    if r.Some? then [r.value] else []
  }

  function UgtXRequest(v: nat, i: Inequality): Option<Request> {
    var cl := UgtXClause(v, i);
    if cl.Some? then Some(AddClause(cl.value)) else None
  }

  /** inequality::is_l_v: sc, read as an inequality, has v on its right. */
  function BelowTest(v: nat, w: nat): Signed -> bool {
    (sc: Signed) => sc.c.Ule? && sc.width == w && FromUle(0, sc).rhs == Var(v)
  }

  /** inequality::is_g_v: sc, read as an inequality, has v on its left. */
  function AboveTest(v: nat, w: nat): Signed -> bool {
    (sc: Signed) => sc.c.Ule? && sc.width == w && FromUle(0, sc).lhs == Var(v)
  }

  /** try_ugt_y: the second premise is the first assigned constraint below v. */
  function UgtYRequest(core: Core, v: nat, i: Inequality): Option<Request> {
    if MatchXyXZ(v, i).None? then None
    else
      var found := First(core.assignedIds, core.constraintOf, BelowTest(v, i.width));
      if found.None? || !core.constraintOf(found.value).c.Ule? then None
      else
        var cl := UgtYClause(v, i, FromUle(found.value, core.constraintOf(found.value)));
        if cl.Some? then Some(AddClause(cl.value)) else None
  }

  /** try_ugt_z: the second premise is the first assigned constraint above v. */
  function UgtZRequest(core: Core, v: nat, i: Inequality): Option<Request> {
    if MatchYXzX(v, i).None? then None
    else
      var found := First(core.assignedIds, core.constraintOf, AboveTest(v, i.width));
      if found.None? || !core.constraintOf(found.value).c.Ule? then None
      else
        var cl := UgtZClause(v, i, FromUle(found.value, core.constraintOf(found.value)));
        if cl.Some? then Some(AddClause(cl.value)) else None
  }

  /** propagate(v, i): nothing when the widths differ, else the equality
      rule and then try_ugt_x. */
  function IneqRequests(core: Core, v: nat, i: Inequality): seq<Request> {
    if core.varWidth(v) != i.width then []
    else Opt(InferEquality(core, v, i)) + Opt(UgtXRequest(v, i))
  }

  /** Whether propagate(v, i) sets the flag: only try_ugt_x goes through
      add_clause, and the flag follows the core's answer. */
  predicate IneqFlag(core: Core, v: nat, i: Inequality) {
    core.varWidth(v) == i.width && UgtXRequest(v, i).Some? && core.accepts(UgtXRequest(v, i).value)
  }

  /** propagate(v, id): nothing for a constraint that is already true, and
      only ule constraints are read as inequalities. */
  function IdRequests(core: Core, v: nat, id: nat): seq<Request> {
    var sc := core.constraintOf(id);
    if core.isTrue(id) || !sc.c.Ule? then [] else IneqRequests(core, v, FromUle(id, sc))
  }

  /** The result of propagate(v, id) for a constraint not already true. */
  predicate IdFlag(core: Core, v: nat, id: nat) {
    var sc := core.constraintOf(id);
    sc.c.Ule? && IneqFlag(core, v, FromUle(id, sc))
  }

  /** propagate(v): the requests for each id of ids in turn. */
  function AllRequests(core: Core, v: nat, ids: seq<nat>): seq<Request> {
    if ids == [] then [] else AllRequests(core, v, ids[..|ids| - 1]) + IdRequests(core, v, ids[|ids| - 1])
  }

  /** The flag after propagate(v) over ids: the last id not already true decides. */
  predicate FlagAfter(core: Core, v: nat, ids: seq<nat>, init: bool) {
    if ids == [] then init
    else if core.isTrue(ids[|ids| - 1]) then FlagAfter(core, v, ids[..|ids| - 1], init)
    else IdFlag(core, v, ids[|ids| - 1])
  }

  /** Extending the prefix ids[..k] by ids[k] appends that id's requests and
      lets it decide the flag unless it is already true. */
  lemma PrefixStep(core: Core, v: nat, ids: seq<nat>, k: nat, init: bool, before: seq<Request>)
    requires k < |ids|
    ensures AllRequests(core, v, ids[..k + 1]) == AllRequests(core, v, ids[..k]) + IdRequests(core, v, ids[k])
    ensures before + AllRequests(core, v, ids[..k + 1]) == (before + AllRequests(core, v, ids[..k])) + IdRequests(core, v, ids[k])
    ensures FlagAfter(core, v, ids[..k + 1], init)
         == if core.isTrue(ids[k]) then FlagAfter(core, v, ids[..k], init) else IdFlag(core, v, ids[k])
  {
    var prefix := ids[..k + 1];
    assert prefix[..|prefix| - 1] == ids[..k] && prefix[|prefix| - 1] == ids[k];
  }

  /** Every request one inequality gives rise to is justified. */
  lemma IneqRequestsJustified(core: Core, v: nat, i: Inequality)
    ensures forall k :: 0 <= k < |IneqRequests(core, v, i)| ==> Justified(IneqRequests(core, v, i)[k])
  {
    if core.varWidth(v) == i.width {
      if InferEquality(core, v, i).Some? {
        InferEqualitySound(core, v, i);
      }
      if UgtXRequest(v, i).Some? {
        UgtXSound(v, i);
      }
      var rs := IneqRequests(core, v, i);
      forall k | 0 <= k < |rs|
        ensures Justified(rs[k])
      {
        if InferEquality(core, v, i).Some? && k == 0 {
          assert rs[k] == InferEquality(core, v, i).value;
        } else {
          assert rs[k] == UgtXRequest(v, i).value;
        }
      }
    }
  }

  /** Soundness of propagate(v): everything it hands to the core is justified. */
  lemma {:induction false} AllRequestsJustified(core: Core, v: nat, ids: seq<nat>)
    ensures forall k :: 0 <= k < |AllRequests(core, v, ids)| ==> Justified(AllRequests(core, v, ids)[k])
  {
    if ids != [] {
      var front, last := ids[..|ids| - 1], ids[|ids| - 1];
      AllRequestsJustified(core, v, front);
      var sc := core.constraintOf(last);
      if !core.isTrue(last) && sc.c.Ule? {
        IneqRequestsJustified(core, v, FromUle(last, sc));
      }
      var a, b := AllRequests(core, v, front), IdRequests(core, v, last);
      forall k | 0 <= k < |a + b|
        ensures Justified((a + b)[k])
      {
        if k >= |a| {
          assert (a + b)[k] == b[k - |a|];
        } else {
          assert (a + b)[k] == a[k];
        }
      }
    }
  }

  /** The flag of propagate(v) is set only by a clause the core accepted. */
  lemma {:induction false} FlagMeansAccepted(core: Core, v: nat, ids: seq<nat>)
    ensures FlagAfter(core, v, ids, false) ==>
      exists k :: 0 <= k < |AllRequests(core, v, ids)| &&
        AllRequests(core, v, ids)[k].AddClause? && core.accepts(AllRequests(core, v, ids)[k])
  {
    if ids != [] && FlagAfter(core, v, ids, false) {
      var front, last := ids[..|ids| - 1], ids[|ids| - 1];
      var a, b := AllRequests(core, v, front), IdRequests(core, v, last);
      assert AllRequests(core, v, ids) == a + b;
      if core.isTrue(last) {
        FlagMeansAccepted(core, v, front);
        var k :| 0 <= k < |a| && a[k].AddClause? && core.accepts(a[k]);
        assert (a + b)[k] == a[k];
      } else {
        var i := FromUle(last, core.constraintOf(last));
        var r := UgtXRequest(v, i).value;
        assert b[|b| - 1] == r;
        assert (a + b)[|a| + |b| - 1] == r;
      }
    }
  }

  /** The requests of try_ugt_y and try_ugt_z are justified too. */
  lemma UgtYZRequestsJustified(core: Core, v: nat, i: Inequality)
    ensures UgtYRequest(core, v, i).Some? ==> Justified(UgtYRequest(core, v, i).value)
    ensures UgtZRequest(core, v, i).Some? ==> Justified(UgtZRequest(core, v, i).value)
  {
    var below := First(core.assignedIds, core.constraintOf, BelowTest(v, i.width));
    if UgtYRequest(core, v, i).Some? {
      UgtYSound(v, i, FromUle(below.value, core.constraintOf(below.value)));
    }
    var above := First(core.assignedIds, core.constraintOf, AboveTest(v, i.width));
    if UgtZRequest(core, v, i).Some? {
      UgtZSound(v, i, FromUle(above.value, core.constraintOf(above.value)));
    }
  }

  // ---------------------------------------------------------------------
  // The rule set
  // ---------------------------------------------------------------------

  /** The saturation rules over one solver core.  `propagated` is the flag the
      rules raise when the core accepts what they send; `sent` records every
      request handed to the core, in order. */
  class Saturator {
    const core: Core
    var propagated: bool
    var sent: seq<Request>

    constructor (core: Core)
      ensures this.core == core && !propagated && sent == []
    {
      this.core := core;
      propagated := false;
      sent := [];
    }

    /** propagate(sc, premises): hand a propagation to the core and raise the
        flag if the core accepts it. */
    method Propagate(sc: Signed, premises: seq<nat>)
      modifies this
      ensures var r := Propagation(sc, seq(|premises|, k requires 0 <= k < |premises| => core.constraintOf(premises[k])));
        sent == old(sent) + [r] && propagated == (old(propagated) || core.accepts(r))
    {
      var r := Propagation(sc, seq(|premises|, k requires 0 <= k < |premises| => core.constraintOf(premises[k])));
      sent := sent + [r];
      if core.accepts(r) {
        propagated := true;
      }
    }

    /** add_clause: hand a clause to the core and raise the flag if the core
        accepts it. */
    method AddClauseToCore(cl: Clause)
      modifies this
      ensures sent == old(sent) + [AddClause(cl)] && propagated == (old(propagated) || core.accepts(AddClause(cl)))
    {
      sent := sent + [AddClause(cl)];
      if core.accepts(AddClause(cl)) {
        propagated := true;
      }
    }

    /** The loop of match_core and match_constraints: the first id of ids
        whose constraint satisfies p. */
    method FindFirst(ids: seq<nat>, p: Signed -> bool) returns (found: bool, id: nat)
      ensures found == First(ids, core.constraintOf, p).Some?
      ensures found ==> id == First(ids, core.constraintOf, p).value && p(core.constraintOf(id))
    {
      var k := 0;
      while k < |ids|
        invariant 0 <= k <= |ids|
        invariant First(ids, core.constraintOf, p) == First(ids[k..], core.constraintOf, p)
      {
        if p(core.constraintOf(ids[k])) {
          return true, ids[k];
        }
        assert ids[k..][1..] == ids[k + 1..];
        k := k + 1;
      }
      return false, 0;
    }

    /** match_core: the first constraint of the unsat core satisfying p. */
    method MatchCore(p: Signed -> bool) returns (found: bool, id: nat)
      ensures found == First(core.unsatCore, core.constraintOf, p).Some?
      ensures found ==> id == First(core.unsatCore, core.constraintOf, p).value && p(core.constraintOf(id))
    {
      found, id := FindFirst(core.unsatCore, p);
    }

    /** match_constraints: the first assigned constraint satisfying p. */
    method MatchConstraints(p: Signed -> bool) returns (found: bool, id: nat)
      ensures found == First(core.assignedIds, core.constraintOf, p).Some?
      ensures found ==> id == First(core.assignedIds, core.constraintOf, p).value && p(core.constraintOf(id))
    {
      found, id := FindFirst(core.assignedIds, p);
    }

    /** propagate_infer_equality: goes to the core directly, so the flag is
        left alone whatever the core answers. */
    method PropagateInferEquality(x: nat, i: Inequality)
      modifies this
      ensures sent == old(sent) + Opt(InferEquality(core, x, i)) && propagated == old(propagated)
    {
      if i.strict {
        return;
      }
      if Degree(i.lhs, x) == 0 && Degree(i.rhs, x) == 0 {
        return;
      }
      var found, id := MatchCore(MirrorTest(i));
      if !found {
        return;
      }
      sent := sent + [Propagation(MkEq(i.lhs, i.rhs, i.width), [core.constraintOf(id), LiteralOf(i)])];
    }

    /** try_ugt_x */
    method TryUgtX(v: nat, i: Inequality)
      modifies this
      ensures sent == old(sent) + Opt(UgtXRequest(v, i))
      ensures propagated == (old(propagated) || (UgtXRequest(v, i).Some? && core.accepts(UgtXRequest(v, i).value)))
    {
      var yz := MatchXYXZ(v, i);
      if yz.None? {
        return;
      }
      var x, y, z, w := Var(v), yz.value.0, yz.value.1, i.width;
      if i.strict {
        AddClauseToCore(Clause([LiteralOf(i)], [MkOvfl(x, y, w), MkUlt(y, z, w)]));
      } else {
        AddClauseToCore(Clause([LiteralOf(i)], [MkOvfl(x, y, w), MkEqZero(x, w), MkUle(y, z, w)]));
      }
    }

    /** try_ugt_y with z' taken from the matched j and the strictness of i
        (see UgtYClause for why both differ from the code as written). */
    method TryUgtY(v: nat, i: Inequality)
      modifies this
      ensures sent == old(sent) + Opt(UgtYRequest(core, v, i))
      ensures propagated == (old(propagated) || (UgtYRequest(core, v, i).Some? && core.accepts(UgtYRequest(core, v, i).value)))
    {
      var xz := MatchXyXZ(v, i);
      if xz.None? {
        return;
      }
      var found, id := MatchConstraints(BelowTest(v, i.width));
      if !found {
        return;
      }
      var j := FromUle(id, core.constraintOf(id));
      var x, z, w, m := xz.value.0, xz.value.1, i.width, Pow2(i.width);
      var zPrime := j.lhs;
      var strict := i.strict;
      AddClauseToCore(Clause([LiteralOf(i), LiteralOf(j)], [MkOvfl(x, Var(v), w), Ineq(strict, Times(zPrime, x, m), Times(z, x, m), w)]));
    }

    /** try_ugt_z with the strictness of i (see UgtZClause). */
    method TryUgtZ(v: nat, i: Inequality)
      modifies this
      ensures sent == old(sent) + Opt(UgtZRequest(core, v, i))
      ensures propagated == (old(propagated) || (UgtZRequest(core, v, i).Some? && core.accepts(UgtZRequest(core, v, i).value)))
    {
      var xy := MatchYXzX(v, i);
      if xy.None? {
        return;
      }
      var found, id := MatchConstraints(AboveTest(v, i.width));
      if !found {
        return;
      }
      var j := FromUle(id, core.constraintOf(id));
      var x, y, w, m := xy.value.0, xy.value.1, i.width, Pow2(i.width);
      var yPrime := j.rhs;
      var strict := i.strict;
      AddClauseToCore(Clause([LiteralOf(i), LiteralOf(j)], [MkOvfl(x, yPrime, w), Ineq(strict, Times(y, x, m), Times(yPrime, x, m), w)]));
    }

    /** propagate(v, i) */
    method PropagateInequality(v: nat, i: Inequality)
      modifies this
      ensures sent == old(sent) + IneqRequests(core, v, i)
      ensures propagated == (old(propagated) || IneqFlag(core, v, i))
    {
      if core.varWidth(v) != i.width {
        return;
      }
      PropagateInferEquality(v, i);
      TryUgtX(v, i);
    }

    /** propagate(v, id) */
    method PropagateId(v: nat, id: nat) returns (r: bool)
      modifies this
      ensures sent == old(sent) + IdRequests(core, v, id)
      ensures core.isTrue(id) ==> !r && propagated == old(propagated)
      ensures !core.isTrue(id) ==> r == propagated == IdFlag(core, v, id)
    {
      if core.isTrue(id) {
        return false;
      }
      var sc := core.constraintOf(id);
      propagated := false;
      if sc.c.Ule? {
        PropagateInequality(v, FromUle(id, sc));
      }
      r := propagated;
    }

    /** propagate(v): every id of the unsat core in turn. */
    method PropagateAll(v: nat)
      modifies this
      ensures sent == old(sent) + AllRequests(core, v, core.unsatCore)
      ensures propagated == FlagAfter(core, v, core.unsatCore, old(propagated))
    {
      var ids := core.unsatCore;
      for k := 0 to |ids|
        invariant sent == old(sent) + AllRequests(core, v, ids[..k])
        invariant propagated == FlagAfter(core, v, ids[..k], old(propagated))
      {
        PrefixStep(core, v, ids, k, old(propagated), old(sent));
        var _ := PropagateId(v, ids[k]);
      }
      assert ids[..|ids|] == ids;
    }
  }
}
