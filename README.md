# Forbidden intervals and saturation rules of the polysat bit-vector solver

This project models two parts of polysat, the polynomial bit-vector solver in
z3.

- **Forbidden-interval extraction.** Take a constraint `c` over N-bit words
  and a variable `v`. Rewrite `c` as a linear relation in `v`. Compute a
  wrap-around interval `[lo, hi[` and a coefficient `a` such that `c` is
  false when `a*v mod 2^N` lies in the interval (for `p <= q`: exactly
  when). The result is valid wherever a list of side conditions holds, and
  the side conditions are true under the current assignment. Two constraint
  kinds are handled:
  - unsigned `p <= q`, through the shapes match_zero, match_max and
    match_linear1 to 4;
  - the multiplication overflow literal `Omega*(p, q)`.

  The result is stored in place in an `fi_record`. A rollback guard cuts the
  side-condition list back when extraction gives up.
- **Saturation rules.** For a variable `v`, each constraint of the unsat core
  is read as an inequality. Two rules fire on it:
  - `p <= q` together with `q <= p` gives `p = q`;
  - `y*x < z*x` gives the clause "`x*y` overflows or `y < z`".

  The rules hand their clauses and propagations to the solver core, and
  remember whether the core accepted any. The module also contains the rules
  for the other operand positions (try_ugt_y, try_ugt_z), the
  non-overflow test, and the bilinear-form helper type.

Words are natural numbers below `m = 2^N`. `Wrap(x, m)` is the reduction
into `[0, m)`. Polynomials are a small expression type (`Terms.Expr`). It
stands in for the solver's decision diagrams, with degree, factoring and
substitution of the current assignment. A constraint's meaning is
`Constraints.Holds(c, env)` for a total assignment `env`.

The extraction functions are each proved against this semantics:
- soundness: under the side conditions, the interval is exactly where the
  literal is false for `p <= q`, and for the overflow literal every value
  in the interval falsifies it (the interval may leave out some values that
  do too); match_linear4 hands back a relation instead, and the literal
  holds exactly when that relation does;
- currency: the side conditions hold under the current assignment.

The imperative drivers (`IntervalExtraction.Finder`,
`Saturation.Saturator`) update their state in place, as the source does.
Their postconditions tie the new state to those functions.

## Model

| member | source | states |
|---|---|---|
| ForbiddenIntervals.LinearDecompose | src/sat/smt/polysat/forbidden_intervals.cpp:254-281 | success requires degree at most 1 in v; the evaluated coefficient and constant are words; a numeral constant part is its own value; at most one side condition (q = r) is pushed |
| ForbiddenIntervals.DecomposeSucceeds | src/sat/smt/polysat/forbidden_intervals.cpp:254-281 | decomposition succeeds exactly when the degree is at most 1 and both the coefficient and the constant part evaluate to numerals under the assignment |
| ForbiddenIntervals.DecomposeSound | src/sat/smt/polysat/forbidden_intervals.cpp:254-281 | wherever the side condition holds, p equals a*v + e, and e equals b when the assignment is extended |
| ForbiddenIntervals.DecomposeCurrent | src/sat/smt/polysat/forbidden_intervals.cpp:268-280 | under the current assignment the pushed side condition holds and e evaluates to b |
| ForbiddenIntervals.PushEq | src/sat/smt/polysat/forbidden_intervals.cpp:244-252 | nothing is pushed exactly for a numeral; otherwise the pushed literal fixes whether p is zero |
| ForbiddenIntervals.PushEqCurrent | src/sat/smt/polysat/forbidden_intervals.cpp:244-252 | the pushed literal holds wherever p's zeroness is the one recorded |
| ForbiddenIntervals.ToInterval | src/sat/smt/polysat/forbidden_intervals.cpp:283-327 | trivial: empty for a positive literal, full for a negative one; otherwise a proper interval, with the coefficient reflected to 2^N - coeff when it exceeds half the range |
| ForbiddenIntervals.ReflectValues | src/sat/smt/polysat/forbidden_intervals.cpp:303-320 | y in [l, u[ iff -y in [1-u, 1-l[: the reflected interval and coefficient forbid the same values |
| ForbiddenIntervals.ToIntervalSound | src/sat/smt/polysat/forbidden_intervals.cpp:283-327 | if the proper interval [lo, hi[ describes where the positive literal fails, the result describes where the literal with its sign fails |
| ForbiddenIntervals.NonUnitSideConds | src/sat/smt/polysat/forbidden_intervals.cpp:613-620 | no condition when the coefficient is 1; otherwise the conditions pin e1 and e2 to their current values b1 and b2 |
| ForbiddenIntervals.NonUnitCurrent | src/sat/smt/polysat/forbidden_intervals.cpp:613-620 | the pinned values are the current ones, so the conditions hold under the current assignment |
| ForbiddenIntervals.MatchLinear1 | src/sat/smt/polysat/forbidden_intervals.cpp:333-352 | applies exactly when the left side mentions v and the right side does not |
| ForbiddenIntervals.MatchLinear1Sound | src/sat/smt/polysat/forbidden_intervals.cpp:333-352 | under the side conditions, a1*v + e1 <= e2 fails exactly when coeff*v lies in [e2 - e1 + 1, -e1[ |
| ForbiddenIntervals.MatchLinear1Current | src/sat/smt/polysat/forbidden_intervals.cpp:333-352 | the side conditions hold and the interval endpoints carry their current values under the current assignment |
| ForbiddenIntervals.MatchLinear2 | src/sat/smt/polysat/forbidden_intervals.cpp:358-377 | applies exactly when only the right side mentions v |
| ForbiddenIntervals.MatchLinear2Sound | src/sat/smt/polysat/forbidden_intervals.cpp:358-377 | under the side conditions, e1 <= a2*v + e2 fails exactly when coeff*v lies in [-e2, e1 - e2[ |
| ForbiddenIntervals.MatchLinear2Current | src/sat/smt/polysat/forbidden_intervals.cpp:358-377 | the side conditions hold and the endpoints are consistent under the current assignment |
| ForbiddenIntervals.MatchLinear3 | src/sat/smt/polysat/forbidden_intervals.cpp:383-401 | applies exactly when both sides have the same non-zero coefficient |
| ForbiddenIntervals.MatchLinear3Sound | src/sat/smt/polysat/forbidden_intervals.cpp:383-401 | under the side conditions, a*v + e1 <= a*v + e2 fails exactly when coeff*v lies in [-e2, -e1[ |
| ForbiddenIntervals.MatchLinear3Current | src/sat/smt/polysat/forbidden_intervals.cpp:383-401 | the side conditions hold and the endpoints are consistent under the current assignment |
| ForbiddenIntervals.MatchLinear4 | src/sat/smt/polysat/forbidden_intervals.cpp:406-427 | applies exactly when both sides mention v with different coefficients; reports coefficient -1 and a proper interval that is not currently empty |
| ForbiddenIntervals.MatchLinear4Sound | src/sat/smt/polysat/forbidden_intervals.cpp:406-427 | under its side conditions (the current values of e1 and e2) the literal holds exactly when LinearRelation does |
| ForbiddenIntervals.MatchLinear4Current | src/sat/smt/polysat/forbidden_intervals.cpp:406-427 | its side conditions hold under the current assignment |
| ForbiddenIntervals.PinSide | src/sat/smt/polysat/forbidden_intervals.cpp:613-620 | the pushed equation forces e to equal the numeral b |
| ForbiddenIntervals.MatchZero | src/sat/smt/polysat/forbidden_intervals.cpp:440-472 | applies exactly to a*v + e <= 0 with a odd; coefficient 1 |
| ForbiddenIntervals.MatchZeroSound | src/sat/smt/polysat/forbidden_intervals.cpp:440-472 | under the side conditions the literal fails exactly off the single point -e * a^-1, or exactly on it for the negated literal |
| ForbiddenIntervals.MatchZeroCurrent | src/sat/smt/polysat/forbidden_intervals.cpp:440-472 | the side conditions hold and the point carries its current value |
| ForbiddenIntervals.MatchMax | src/sat/smt/polysat/forbidden_intervals.cpp:478-510 | applies exactly to -1 <= a*v + e with a odd; coefficient 1 |
| ForbiddenIntervals.MatchMaxSound | src/sat/smt/polysat/forbidden_intervals.cpp:478-510 | under the side conditions the literal fails exactly off the single point (-1 - e) * a^-1, or exactly on it for the negated literal |
| ForbiddenIntervals.MatchMaxCurrent | src/sat/smt/polysat/forbidden_intervals.cpp:478-510 | the side conditions hold and the point carries its current value |
| ForbiddenIntervals.FirstMatch | src/sat/smt/polysat/forbidden_intervals.cpp:222-239 | some shape applies exactly when v occurs on at least one side |
| ForbiddenIntervals.FirstMatchSound | src/sat/smt/polysat/forbidden_intervals.cpp:222-239 | the first shape that applies explains the literal: as an interval, or as the linear relation of match_linear4 |
| ForbiddenIntervals.UleExplainSound | src/sat/smt/polysat/forbidden_intervals.cpp:171-242 | for p <= q, under all side conditions, coeff*v is in the interval exactly when the literal is false (linear4: the relation holds exactly when the literal does) |
| ForbiddenIntervals.UleExplainCurrent | src/sat/smt/polysat/forbidden_intervals.cpp:171-242 | all side conditions hold under the current assignment |
| ForbiddenIntervals.UleExplainCovers | src/sat/smt/polysat/forbidden_intervals.cpp:171-242 | a literal false under the current assignment is explained: the current value of v lies in the interval |
| ForbiddenIntervals.PositiveBounds | src/sat/smt/polysat/forbidden_intervals.cpp:105-127 | A = (2^N - 1) div b2 and the largest B with A*B < 2^N; b2 <= B |
| ForbiddenIntervals.NegativeBounds | src/sat/smt/polysat/forbidden_intervals.cpp:139-155 | A = (2^N - 1) div b2 + 1 and the smallest B with A*B >= 2^N; B <= b2 |
| ForbiddenIntervals.OvflBound | src/sat/smt/polysat/forbidden_intervals.cpp:99-162 | gives up exactly when A >= 4 and B >= 4, or on the negated literal with b2 <= 1 |
| ForbiddenIntervals.OvflBoundSound | src/sat/smt/polysat/forbidden_intervals.cpp:99-162 | under the pushed bound on e2, v in the interval means v*e2 does not overflow (positive literal false), or overflows (negated literal false) |
| ForbiddenIntervals.UmulOvflExplainSound | src/sat/smt/polysat/forbidden_intervals.cpp:43-167 | for the corrected rule: under all side conditions, v in the interval falsifies the overflow literal |
| ForbiddenIntervals.UmulOvflExplainCurrent | src/sat/smt/polysat/forbidden_intervals.cpp:43-167 | for the corrected rule: under the current assignment every side condition holds: the conditions of both decompositions, the pin e1 = 0 and the bound on e2 (e2 <= 1, e2 <= B or b2 <= e2) |
| ForbiddenIntervals.UmulOvflAsWrittenCounterexample | src/sat/smt/polysat/forbidden_intervals.cpp:66-75 | the rule as written reports an interval containing a value for which the literal is true, with every side condition holding; the corrected rule's extra condition fails there |
| FiRecords.FiRecord.constructor | src/sat/smt/polysat/forbidden_intervals.h:33-34 | the new record is the invalid one: full interval, nothing collected |
| FiRecords.FiRecord.Reset | src/sat/smt/polysat/forbidden_intervals.h:36-43 | every field is back to its initial value |
| FiRecords.LessIsStrictWeakOrder | src/sat/smt/polysat/forbidden_intervals.h:45-49 | ordering by lower bound is irreflexive, asymmetric and transitive, and incomparability is transitive |
| FiRecords.Backtrack.constructor | src/sat/smt/polysat/forbidden_intervals.h:107-111 | the guard remembers its record and the current list length, not released |
| FiRecords.Backtrack.Exit | src/sat/smt/polysat/forbidden_intervals.h:112-115 | unless released, the side-condition list is cut back to the remembered length; the prefix and every other field are unchanged |
| IntervalExtraction.Explain | src/sat/smt/polysat/forbidden_intervals.cpp:31-41 | only ule and overflow literals are explained |
| IntervalExtraction.ExplainSound | src/sat/smt/polysat/forbidden_intervals.cpp:31-41 | any interval reported for a literal (coefficient other than -1) is forbidden: under the side conditions, coeff*v in it falsifies the literal |
| IntervalExtraction.Finder.GetInterval | src/sat/smt/polysat/forbidden_intervals.cpp:31-41 | records v's width; succeeds exactly when Explain does; on success stores interval, coefficient, side conditions and source; on failure rolls back the side conditions; other literals leave the record empty |
| IntervalExtraction.Finder.GetIntervalUle | src/sat/smt/polysat/forbidden_intervals.cpp:171-242 | succeeds exactly when UleExplain does, storing its result, else leaves interval and side conditions as they were with coefficient 1 and the source recorded |
| IntervalExtraction.Finder.GetIntervalUmulOvfl | src/sat/smt/polysat/forbidden_intervals.cpp:43-167 | the same for the corrected overflow rule |
| IntervalExtraction.Finder.PushOvflBound | src/sat/smt/polysat/forbidden_intervals.cpp:99-162 | stores the interval and pushes the pin and the bound exactly when OvflBound succeeds; otherwise changes nothing |
| BilinearForms.EvalNeg | src/sat/smt/polysat/saturation.h:23-34 | the negated form evaluates to the negated value |
| BilinearForms.EvalSub | src/sat/smt/polysat/saturation.h:36-43 | the difference of two forms evaluates to the difference of their values |
| BilinearForms.EvalShift | src/sat/smt/polysat/saturation.h:45-61 | adding or subtracting a constant shifts every value by it and leaves the a, b, c coefficients alone |
| BilinearForms.NegSubFacts | src/sat/smt/polysat/saturation.h:27-61 | negation is an involution, f - f is the zero form, and adding then subtracting k restores the form |
| Saturation.Ineq | src/sat/smt/polysat/saturation.cpp:96-98 | the literal holds exactly when p < q (strict) or p <= q |
| Saturation.FromUle | src/sat/smt/polysat/saturation.cpp:48-49 | reading a ule literal as an inequality gives back that literal; it is strict exactly when the literal is negated |
| Saturation.FirstIsFirst | src/sat/smt/polysat/saturation.cpp:74-94 | the first-match search returns nothing exactly when no constraint qualifies, and otherwise the earliest one that does |
| Saturation.InferEqualitySound | src/sat/smt/polysat/saturation.cpp:103-113 | the equality is propagated only from a non-strict p <= q and a core literal q <= p, and it holds wherever both premises do |
| Saturation.UgtXSound | src/sat/smt/polysat/saturation.cpp:119-134 | the clause "x*y overflows or y < z (y <= z or x = 0)" follows from x*y < x*z (x*y <= x*z) |
| Saturation.UgtYSound | src/sat/smt/polysat/saturation.cpp:143-159 | the corrected try_ugt_y clause follows from its two premises |
| Saturation.UgtZSound | src/sat/smt/polysat/saturation.cpp:166-182 | the corrected try_ugt_z clause follows from its two premises |
| Saturation.UgtYAsWrittenCounterexample | src/sat/smt/polysat/saturation.cpp:156 | with z' taken from i, the clause is false at a point where both premises hold |
| Saturation.UgtZAsWrittenCounterexample | src/sat/smt/polysat/saturation.cpp:180 | with strictness taken from j, the clause is false at a point where both premises hold |
| Saturation.UgtYStrictnessCounterexample | src/sat/smt/polysat/saturation.cpp:157 | the same strictness slip in try_ugt_y |
| Saturation.IsNonOverflow | src/sat/smt/polysat/saturation.cpp:188-192 | a true answer means x*y does not overflow under any extension of the current assignment |
| Saturation.NonOverflowLiteral | src/sat/smt/polysat/saturation.cpp:194-196 | the overflow literal is produced exactly when is_non_overflow holds, and it is then false under the current assignment |
| Saturation.IneqRequestsJustified | src/sat/smt/polysat/saturation.cpp:55-61 | every clause and propagation one inequality gives rise to is valid |
| Saturation.UgtYZRequestsJustified | src/sat/smt/polysat/saturation.cpp:143-182 | the requests of try_ugt_y and try_ugt_z (over the assigned constraints) are valid |
| Saturation.AllRequestsJustified | src/sat/smt/polysat/saturation.cpp:37-40 | every request propagate(v) sends over the unsat core is valid |
| Saturation.FlagMeansAccepted | src/sat/smt/polysat/saturation.cpp:42-53 | a raised flag after propagate(v) means the core accepted some clause |
| Saturation.Saturator.constructor | src/sat/smt/polysat/saturation.cpp:35 | nothing sent, flag down |
| Saturation.Saturator.Propagate | src/sat/smt/polysat/saturation.cpp:64-67 | the propagation is sent; the flag rises exactly when the core accepts it |
| Saturation.Saturator.AddClauseToCore | src/sat/smt/polysat/saturation.cpp:69-72 | the clause is sent; the flag rises exactly when the core accepts it |
| Saturation.Saturator.MatchCore | src/sat/smt/polysat/saturation.cpp:74-83 | finds the first unsat-core constraint satisfying p, or reports none |
| Saturation.Saturator.MatchConstraints | src/sat/smt/polysat/saturation.cpp:85-94 | finds the first assigned constraint satisfying p, or reports none |
| Saturation.Saturator.PropagateInferEquality | src/sat/smt/polysat/saturation.cpp:103-113 | sends the equality exactly when InferEquality gives one; the flag is not touched |
| Saturation.Saturator.TryUgtX | src/sat/smt/polysat/saturation.cpp:119-134 | sends the clause exactly when the pattern matches; the flag follows the core's answer |
| Saturation.Saturator.TryUgtY | src/sat/smt/polysat/saturation.cpp:143-159 | sends the corrected clause exactly when the pattern and an assigned z' <= y match |
| Saturation.Saturator.TryUgtZ | src/sat/smt/polysat/saturation.cpp:166-182 | sends the corrected clause exactly when the pattern and an assigned z <= y' match |
| Saturation.Saturator.PropagateInequality | src/sat/smt/polysat/saturation.cpp:55-61 | nothing for a width mismatch; otherwise the equality rule then try_ugt_x |
| Saturation.Saturator.PropagateId | src/sat/smt/polysat/saturation.cpp:42-53 | a constraint already true gives false and changes nothing; otherwise the flag is reset and the result is whether a request of this constraint was accepted |
| Saturation.Saturator.PropagateAll | src/sat/smt/polysat/saturation.cpp:37-40 | the requests of each unsat-core constraint in order; the flag as left by the last one not already true |

## Left out

- Decision diagrams are replaced by `Terms.Expr`. Canonical forms are not modelled. A polynomial is a numeral only when it is syntactically one after substitution, and the matchers compare expressions syntactically.
- The solver core is a value (`Saturation.Core`): the constraint table, the unsat core, the assigned constraints, the evaluation oracle, the variable widths, the current assignment, and an `accepts` function standing for `propagate`/`add_clause`. Whether the core accepts a request depends only on the request. The core's own state changes are not modelled.
- Clause names, the redundancy flag, tracing, logging and `SASSERT`s are not modelled.
- Rational arithmetic is modelled as `int`. The bilinear form's coefficients are `int`.
- match_non_zero and match_non_max are not modelled: get_interval_ule never calls them, because their calls are guarded by `false &&`.
- Code under `#if 0` in saturation.cpp is not modelled. Nor are the declarations in saturation.h and forbidden_intervals.h that have no active definition.
- Inequality pattern recognisers (is_xY_l_xZ, is_Xy_l_XZ, is_YX_l_zX, is_l_v, is_g_v) are not part of this model. `MatchXYXZ`, `MatchXyXZ`, `MatchYXzX`, `BelowTest` and `AboveTest` recognise one fixed operand order each.
- IntervalExtraction.Finder.GetInterval: the width stored is `varWidth(v)`, the width the core reports for v.
- ForbiddenIntervals.UmulOvflExplainSound: one direction only (v in the interval falsifies the literal). The rule reports a subset of the forbidden values, not all of them.
- The definition of eval_interval is not part of this model. `Intervals.Interval` stands for its full, empty and proper forms, with symbolic endpoints and their current values.

## Findings

| source | as written | input that shows it | evidently intended | confidence | as-written member | corrected member |
|---|---|---|---|---|---|---|
| src/sat/smt/polysat/forbidden_intervals.cpp:66-75, 91-129 | the interval for Omega*(v + e1, e2) is derived for e1 = 0, but e1 = 0 is checked only on its current value and never pushed as a side condition | width 2, Omega*(v + e, 2), e currently 0: interval [0, 2[ under side condition 2 <= 3; yet v = 0, e = 2 overflows | push e1 = 0 as a side condition when e1 is not a numeral | not executed | ForbiddenIntervals.UmulOvflExplainAsWritten (UmulOvflAsWrittenCounterexample) | ForbiddenIntervals.UmulOvflExplain (UmulOvflExplainSound) |
| src/sat/smt/polysat/saturation.cpp:156 | try_ugt_y takes z' from i.lhs(), the product x*y itself, instead of from j; latent, since propagate(v, i) at lines 55-61 does not call try_ugt_y | width 4, 2*y <= 2*4 and 3 <= y with y = 3, x = 2, z = 4, z' = 3: concludes 12 <= 8 with 2*3 not overflowing | z' = j.lhs(), as the comment at lines 136-142 states | not executed | Saturation.UgtYClauseAsWritten (UgtYAsWrittenCounterexample) | Saturation.UgtYClause (UgtYSound) |
| src/sat/smt/polysat/saturation.cpp:157, 180 | the conclusion is strict when either premise is, although the comments at lines 139-142 and 164-167 make it strict only when yx < zx is; latent, since propagate(v, i) at lines 55-61 calls neither rule | width 4, try_ugt_z with y*0 <= z*0, z < y', z = 0, y' = 1: concludes 0 < 0 with 0*1 not overflowing (and the same for try_ugt_y) | strict exactly when i is strict | not executed | Saturation.UgtZClauseAsWritten (UgtZAsWrittenCounterexample, UgtYStrictnessCounterexample) | Saturation.UgtZClause (UgtZSound), Saturation.UgtYClause (UgtYSound) |
