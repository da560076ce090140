/** The entry points of forbidden-interval extraction: they fill an FiRecord
    in place, pushing side conditions under a rollback guard, and succeed
    exactly when the explanation functions of ForbiddenIntervals do. */
module IntervalExtraction {
  import opened Words
  import opened Terms
  import opened Constraints
  import opened Intervals
  import opened ForbiddenIntervals
  import opened FiRecords

  /** What get_interval computes for a literal: a ule or umul_ovfl literal is
      explained by its rule, any other kind by none. */
  function Explain(c: Signed, v: nat, asg: Assignment): (r: Option<Found>)
    ensures r.Some? ==> c.c.Ule? || c.c.UmulOvfl?
  {
    match c.c
    case Ule(_, _) => UleExplain(c, v, asg)
    case UmulOvfl(_, _) => UmulOvflExplain(c, v, asg)
    case Other(_) => None
  }

  /** Soundness of every interval get_interval reports: wherever its side
      conditions hold, a value of v whose multiple lies in the interval
      falsifies the literal (for ule literals the converse holds too, see
      UleExplainSound).  Coefficient -1 marks the relation match_linear4 hands
      over instead of an interval. */
  lemma ExplainSound(c: Signed, v: nat, asg: Assignment, env: Env)
    requires c.width >= 1
    requires Explain(c, v, asg).Some? && Explain(c, v, asg).value.coeff != -1
    requires AllHold(Explain(c, v, asg).value.side, env)
    ensures var f := Explain(c, v, asg).value; var m := Pow2(c.width);
      Contains(EvalAt(f.interval, env, m), Wrap(f.coeff * Eval(Var(v), env, m), m), m) ==> !Holds(c, env)
  {
    if c.c.Ule? {
      UleExplainSound(c, v, asg, env);
    } else {
      UmulOvflExplainSound(c, v, asg, env);
    }
  }

  lemma AppendAssoc(a: seq<Signed>, b: seq<Signed>, c: seq<Signed>, d: seq<Signed>)
    ensures a + b + c + d == a + (b + c + d)
  {
  }

  /** The record after a successful extraction: f stored, its side conditions
      appended, c recorded as the source. */
  ghost predicate Stored(fi: FiRecord, f: Found, sideBefore: seq<Signed>, srcBefore: seq<Signed>, c: Signed)
    reads fi
  {
    fi.interval == f.interval && fi.coeff == f.coeff &&
    fi.sideCond == sideBefore + f.side && fi.src == srcBefore + [c]
  }

  /** The record after a failed extraction: the interval untouched, the side
      conditions rolled back, coefficient 1 and c recorded as the source. */
  ghost predicate RolledBack(fi: FiRecord, intervalBefore: Interval, sideBefore: seq<Signed>, srcBefore: seq<Signed>, c: Signed)
    reads fi
  {
    fi.interval == intervalBefore && fi.coeff == 1 &&
    fi.sideCond == sideBefore && fi.src == srcBefore + [c]
  }

  /** The extractor, with the two things it asks of the solver core: the
      current assignment (for substitution) and the width of each variable. */
  class Finder {
    const asg: Assignment
    const varWidth: nat -> nat

    constructor (asg: Assignment, varWidth: nat -> nat)
      ensures this.asg == asg && this.varWidth == varWidth
    {
      this.asg := asg;
      this.varWidth := varWidth;
    }

    /** get_interval: records the width of v and dispatches on the kind of c. */
    method GetInterval(c: Signed, v: nat, fi: FiRecord) returns (ok: bool)
      requires fi.sideCond == [] && fi.src == []
      modifies fi
      ensures fi.bitWidth == varWidth(v) && fi.deps == old(fi.deps)
      ensures ok <==> Explain(c, v, asg).Some?
      ensures ok ==> Stored(fi, Explain(c, v, asg).value, [], [], c)
      ensures !ok && (c.c.Ule? || c.c.UmulOvfl?) ==> RolledBack(fi, old(fi.interval), [], [], c)
      ensures c.c.Other? ==> fi.interval == old(fi.interval) && fi.coeff == old(fi.coeff) && fi.sideCond == [] && fi.src == []
      ensures |fi.src| <= 1
    {
      fi.bitWidth := varWidth(v);
      if c.c.Ule? {
        ok := GetIntervalUle(c, v, fi);
      } else if c.c.UmulOvfl? {
        ok := GetIntervalUmulOvfl(c, v, fi);
      } else {
        ok := false;
      }
    }

    /** get_interval_ule: decompose both sides, give up unless both succeed
        and v occurs, then let the first matching shape fill the record. */
    method GetIntervalUle(c: Signed, v: nat, fi: FiRecord) returns (ok: bool)
      requires c.c.Ule?
      modifies fi
      ensures fi.bitWidth == old(fi.bitWidth) && fi.deps == old(fi.deps)
      ensures ok <==> UleExplain(c, v, asg).Some?
      ensures ok ==> Stored(fi, UleExplain(c, v, asg).value, old(fi.sideCond), old(fi.src), c)
      ensures !ok ==> RolledBack(fi, old(fi.interval), old(fi.sideCond), old(fi.src), c)
    {
      var w := c.width;
      var guard := new Backtrack(fi);
      fi.coeff := 1;
      fi.src := fi.src + [c];
      var d1 := LinearDecompose(v, c.c.lhs, asg, w);
      fi.sideCond := fi.sideCond + d1.side;
      var d2 := LinearDecompose(v, c.c.rhs, asg, w);
      fi.sideCond := fi.sideCond + d2.side;
      assert fi.sideCond == old(fi.sideCond) + d1.side + d2.side;
      guard.released := true;
      if !d1.ok || !d2.ok || (d1.a == 0 && d2.a == 0) {
        guard.released := false;
        guard.Exit();
        return false;
      }
      var s1, s2 := SideOf(d1), SideOf(d2);
      var found := MatchZero(c.positive, s1, s2, w);
      if found.None? {
        found := MatchMax(c.positive, s1, s2, w);
      }
      if found.None? {
        found := MatchLinear1(c.positive, s1, s2, w);
      }
      if found.None? {
        found := MatchLinear2(c.positive, s1, s2, w);
      }
      if found.None? {
        found := MatchLinear3(c.positive, s1, s2, w);
      }
      if found.None? {
        found := MatchLinear4(c.positive, s1, s2, w);
      }
      assert found == FirstMatch(c.positive, s1, s2, w);
      ghost var f := found.value.(side := d1.side + d2.side + found.value.side);
      assert UleExplain(c, v, asg) == Some(f);
      ghost var before := old(fi.sideCond);
      AppendAssoc(before, d1.side, d2.side, found.value.side);
      fi.coeff := found.value.coeff;
      fi.interval := found.value.interval;
      fi.sideCond := fi.sideCond + found.value.side;
      guard.Exit();
      ok := true;
    }

    /** get_interval_umul_ovfl, with the side condition e1 = 0 that its
        intervals rely on pushed alongside the bound. */
    method GetIntervalUmulOvfl(c: Signed, v: nat, fi: FiRecord) returns (ok: bool)
      requires c.c.UmulOvfl?
      modifies fi
      ensures fi.bitWidth == old(fi.bitWidth) && fi.deps == old(fi.deps)
      ensures ok <==> UmulOvflExplain(c, v, asg).Some?
      ensures ok ==> Stored(fi, UmulOvflExplain(c, v, asg).value, old(fi.sideCond), old(fi.src), c)
      ensures !ok ==> RolledBack(fi, old(fi.interval), old(fi.sideCond), old(fi.src), c)
    {
      var w := c.width;
      var m := Pow2(w);
      var guard := new Backtrack(fi);
      fi.coeff := 1;
      fi.src := fi.src + [c];
      var d1 := LinearDecompose(v, c.c.p, asg, w);
      fi.sideCond := fi.sideCond + d1.side;
      var d2 := LinearDecompose(v, c.c.q, asg, w);
      fi.sideCond := fi.sideCond + d2.side;
      ghost var side0 := d1.side + d2.side;
      assert fi.sideCond == old(fi.sideCond) + side0;
      if d2.ok && !d1.ok {
        d1, d2 := d2, d1;
      }
      if d1.ok && !d2.ok && d1.a == 1 && d1.b.n == 0 && c.positive {
        // Omega*(v, q) is false for v in {0, 1}
        guard.released := true;
        fi.interval := Proper(NumEndpoint(0), Endpoint(Const(2, m), 2));
        fi.sideCond := fi.sideCond + PinSide(d1.e, 0, w);
        assert fi.sideCond == old(fi.sideCond) + (side0 + PinSide(d1.e, 0, w));
        assert UmulOvflExplain(c, v, asg) == Some(Found(fi.interval, 1, side0 + PinSide(d1.e, 0, w)));
        guard.Exit();
        return true;
      }
      if !d1.ok || !d2.ok {
        assert UmulOvflExplain(c, v, asg).None?;
        guard.Exit();
        return false;
      }
      if d2.a == 1 && d1.a == 0 {
        d1, d2 := d2, d1;
      }
      if d1.a != 1 || d2.a != 0 || d1.b.n != 0 {
        assert UmulOvflExplain(c, v, asg).None?;
        guard.Exit();
        return false;
      }
      guard.released := true;
      var pin := PinSide(d1.e, 0, w);
      ghost var before := old(fi.sideCond);
      ghost var bound := OvflBound(c.positive, d2.e, d2.b.n, w);
      assert UmulOvflExplain(c, v, asg)
          == if bound.None? then None else Some(Found(bound.value.0, 1, side0 + pin + [bound.value.1]));
      AppendAssoc(before, side0, pin, if bound.Some? then [bound.value.1] else []);
      ok := PushOvflBound(c.positive, d2.e, d2.b.n, pin, w, fi);
      if !ok {
        guard.released := false;
      }
      guard.Exit();
    }

    /** The tail of get_interval_umul_ovfl for Omega*(v, e2) with e2 currently
        b2: store the interval and push the pin and the bound, or give up
        leaving the record as it was. */
    method PushOvflBound(positive: bool, e2: Expr, b2: nat, pin: seq<Signed>, w: nat, fi: FiRecord) returns (ok: bool)
      requires b2 < Pow2(w)
      modifies fi
      ensures var bound := OvflBound(positive, e2, b2, w);
        ok == bound.Some? &&
        (ok ==> fi.interval == bound.value.0 && fi.sideCond == old(fi.sideCond) + pin + [bound.value.1]) &&
        (!ok ==> fi.interval == old(fi.interval) && fi.sideCond == old(fi.sideCond))
      ensures fi.coeff == old(fi.coeff) && fi.src == old(fi.src)
      ensures fi.bitWidth == old(fi.bitWidth) && fi.deps == old(fi.deps)
    {
      var m := Pow2(w);
      if positive {
        if b2 <= 1 {
          fi.interval := Full;
          fi.sideCond := fi.sideCond + pin + [MkUle(e2, Const(1, m), w)];
        } else {
          var (A, B) := PositiveBounds(b2, m);
          if A >= 4 && B >= 4 {
            return false;
          }
          fi.interval := Proper(NumEndpoint(0), NumEndpoint(A + 1));
          fi.sideCond := fi.sideCond + pin + [MkUle(e2, Const(B, m), w)];
        }
      } else {
        if b2 <= 1 {
          return false;
        }
        var (A, B) := NegativeBounds(b2, m);
        if A >= 4 && B >= 4 {
          return false;
        }
        fi.interval := Proper(NumEndpoint(A), NumEndpoint(0));
        fi.sideCond := fi.sideCond + pin + [MkUle(Const(b2, m), e2, w)];
      }
      ok := true;
    }
  }
}
