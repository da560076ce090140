/** Fixed-width machine words.  A word of width w is a value in [0, 2^w);
    every arithmetic operation of the solver is taken modulo 2^w. */
module Words {

  /** 2^n, the modulus of a word of width n. */
  function Pow2(n: nat): (r: nat)
    ensures r >= 1
    ensures n >= 1 ==> r >= 2 && r % 2 == 0
  {
    if n == 0 then 1 else 2 * Pow2(n - 1)
  }

  /** Reduction into [0, m): the `mod(x, 2^N)` of the source (Euclidean, never
      negative), defined by repeated addition or subtraction of m. */
  function Wrap(x: int, m: nat): (r: nat)
    requires m > 0
    ensures r < m
    decreases if x < 0 then m - x else x
  {
    if x < 0 then Wrap(x + m, m)
    else if x < m then x
    else Wrap(x - m, m)
  }

  predicate IsOdd(a: int) {
    a % 2 == 1
  }

  lemma MulLeMono(a: int, b: int, c: int)
    requires 0 <= a <= b && 0 <= c
    ensures a * c <= b * c
  {
  }

  /** Distributivity over a sum and a difference, proved apart from any residue. */
  lemma Distrib(a: int, b: int, m: int)
    ensures (a + b) * m == a * m + b * m && (a - b) * m == a * m - b * m
  {
  }

  /** Every integer is a multiple of m plus its residue. */
  lemma WrapQuotient(x: int, m: nat) returns (q: int)
    requires m > 0
    ensures x == q * m + Wrap(x, m)
    decreases if x < 0 then m - x else x
  {
    if x < 0 {
      var q' := WrapQuotient(x + m, m);
      q := q' - 1;
      Distrib(q', 1, m);
    } else if x < m {
      q := 0;
    } else {
      var q' := WrapQuotient(x - m, m);
      q := q' + 1;
      Distrib(q', 1, m);
    }
  }

  /** Quotient and remainder are unique: the residue of q*m + r is r. */
  lemma WrapUnique(x: int, m: nat, q: int, r: int)
    requires m > 0 && 0 <= r < m && x == q * m + r
    ensures Wrap(x, m) == r
  {
    var q0 := WrapQuotient(x, m);
    var r0 := Wrap(x, m);
    Distrib(q0, q, m);
    assert (q0 - q) * m == r - r0;
    if q0 > q {
      MulLeMono(1, q0 - q, m);
      assert false;
    } else if q0 < q {
      MulLeMono(1, q - q0, m);
      assert false;
    }
  }

  /** Wrap on the small range used by interval endpoints: at most two moduli away. */
  lemma WrapCases(x: int, m: nat)
    requires m > 0 && -2 * m <= x < 2 * m
    ensures -2 * m <= x && x + m < 0 ==> Wrap(x, m) == x + 2 * m
    ensures 0 <= x + m && x < 0 ==> Wrap(x, m) == x + m
    ensures 0 <= x < m ==> Wrap(x, m) == x
    ensures m <= x ==> Wrap(x, m) == x - m
  {
    if x + m < 0 {
      WrapUnique(x, m, -2, x + 2 * m);
    } else if x < 0 {
      WrapUnique(x, m, -1, x + m);
    } else if x < m {
      WrapUnique(x, m, 0, x);
    } else {
      WrapUnique(x, m, 1, x - m);
    }
  }

  /** Adding a multiple of the modulus does not change the residue. */
  lemma WrapAddMultiple(x: int, k: int, m: nat)
    requires m > 0
    ensures Wrap(x + k * m, m) == Wrap(x, m)
  {
    var q := WrapQuotient(x, m);
    Distrib(q, k, m);
    assert x + k * m == (q + k) * m + Wrap(x, m);
    WrapUnique(x + k * m, m, q + k, Wrap(x, m));
  }

  /** A residue may replace its operand inside a sum. */
  lemma WrapAdd(a: int, b: int, m: nat)
    requires m > 0
    ensures Wrap(Wrap(a, m) + b, m) == Wrap(a + b, m)
  {
    var q := WrapQuotient(a, m);
    assert a + b == (Wrap(a, m) + b) + q * m;
    WrapAddMultiple(Wrap(a, m) + b, q, m);
  }

  /** A residue may replace its operand inside a product. */
  lemma WrapMul(a: int, b: int, m: nat)
    requires m > 0
    ensures Wrap(Wrap(a, m) * b, m) == Wrap(a * b, m)
  {
    var q := WrapQuotient(a, m);
    var r := Wrap(a, m);
    MulSplit(a, q, r, m, b);
    WrapAddMultiple(r * b, q * b, m);
  }

  /** Residues may replace both operands of a difference. */
  lemma WrapDiff(a: int, b: int, m: nat)
    requires m > 0
    ensures Wrap(Wrap(a, m) - Wrap(b, m), m) == Wrap(a - b, m)
  {
    var qa := WrapQuotient(a, m);
    var qb := WrapQuotient(b, m);
    Distrib(qa, qb, m);
    assert a - b == (Wrap(a, m) - Wrap(b, m)) + (qa - qb) * m;
    WrapAddMultiple(Wrap(a, m) - Wrap(b, m), qa - qb, m);
  }

  /** Residues may replace both operands of a difference inside a sum. */
  lemma WrapDiffShift(a: int, b: int, c: int, m: nat)
    requires m > 0
    ensures Wrap(Wrap(a, m) - Wrap(b, m) + c, m) == Wrap(a - b + c, m)
  {
    var qa := WrapQuotient(a, m);
    var qb := WrapQuotient(b, m);
    Distrib(qa, qb, m);
    assert a - b + c == (Wrap(a, m) - Wrap(b, m) + c) + (qa - qb) * m;
    WrapAddMultiple(Wrap(a, m) - Wrap(b, m) + c, qa - qb, m);
  }

  /** A residue may replace the subtrahend of a difference. */
  lemma WrapSubRight(a: int, b: int, m: nat)
    requires m > 0
    ensures Wrap(a - Wrap(b, m), m) == Wrap(a - b, m)
  {
    var q := WrapQuotient(b, m);
    assert a - Wrap(b, m) == (a - b) + q * m;
    WrapAddMultiple(a - b, q, m);
  }

  /** Residues may replace both operands of a sum. */
  lemma WrapSum(a: int, b: int, m: nat)
    requires m > 0
    ensures Wrap(Wrap(a, m) + Wrap(b, m), m) == Wrap(a + b, m)
  {
    var qa := WrapQuotient(a, m);
    var qb := WrapQuotient(b, m);
    Distrib(qa, qb, m);
    assert a + b == (Wrap(a, m) + Wrap(b, m)) + (qa + qb) * m;
    WrapAddMultiple(Wrap(a, m) + Wrap(b, m), qa + qb, m);
  }

  lemma MulSplit(a: int, q: int, r: int, m: int, x: int)
    requires a == q * m + r
    ensures a * x == r * x + (q * x) * m
  {
  }

  /** A residue may replace the left factor of a product inside a sum. */
  lemma WrapMulAdd(a: int, x: int, b: int, m: nat)
    requires m > 0
    ensures Wrap(Wrap(a, m) * x + b, m) == Wrap(a * x + b, m)
  {
    var q := WrapQuotient(a, m);
    MulSplit(a, q, Wrap(a, m), m, x);
    WrapAddMultiple(Wrap(a, m) * x + b, q * x, m);
  }

  /** A residue may replace the right operand of a sum. */
  lemma WrapAddRight(a: int, b: int, m: nat)
    requires m > 0
    ensures Wrap(a + Wrap(b, m), m) == Wrap(a + b, m)
  {
    WrapAdd(b, a, m);
    assert a + Wrap(b, m) == Wrap(b, m) + a && a + b == b + a;
  }

  /** Congruent factors give congruent products. */
  lemma WrapMulCongruent(u: int, u': int, k: int, m: nat)
    requires m > 0 && Wrap(u, m) == Wrap(u', m)
    ensures Wrap(u * k, m) == Wrap(u' * k, m)
  {
    WrapMul(u, k, m);
    WrapMul(u', k, m);
  }

  /** Congruent summands give congruent sums. */
  lemma WrapAddCongruent(u: int, u': int, k: int, m: nat)
    requires m > 0 && Wrap(u, m) == Wrap(u', m)
    ensures Wrap(u + k, m) == Wrap(u' + k, m)
  {
    WrapAdd(u, k, m);
    WrapAdd(u', k, m);
  }

  // Ring identities, kept apart so that no residue is in scope while they are proved.

  lemma OddTimes(a: int, k: int, h: int)
    requires a == 2 * k + 1 || (IsOdd(a) && k == a / 2)
    ensures a * h == k * (2 * h) + h
  {
  }

  lemma HalfTimes(t: int, s: int, h: int)
    requires t == 2 * s
    ensures t * h == s * (2 * h)
  {
  }

  lemma LiftSum(ai: int, ah: int, t: int, s: int, k: int, h: int)
    requires t == 2 * s + 1 && ai == t * h + 1 && ah == k * (2 * h) + h
    ensures ai + ah == (s + k + 1) * (2 * h) + 1
  {
  }

  lemma Rearrange(u: int, v: int, w: int)
    ensures (u * v) * w == u * (w * v) && (u * v) * w == (u * w) * v
  {
  }

  lemma TwoArith(a: int, i: int, q: int, k: int)
    requires a == 2 * k + 1 && a * i == q * 2
    ensures a * (i + 1) == (q + k) * 2 + 1
  {
    Distrib(i, 1, a);
    Commute(a, i + 1);
    Commute(a, i);
  }

  /** The lifting step modulo 2: an odd a times an even product plus a is odd. */
  lemma InverseLiftTwo(a: int, i: int)
    requires IsOdd(a) && Wrap(a * i, 2) != Wrap(1, 2)
    ensures Wrap(a * (i + 1), 2) == 1
  {
    var q := WrapQuotient(a * i, 2);
    WrapCases(1, 2);
    var k := Halve(a);
    TwoArith(a, i, q, k);
    WrapUnique(a * (i + 1), 2, q + k, 1);
  }

  lemma Halve(t: int) returns (s: int)
    ensures t == 2 * s || t == 2 * s + 1
  {
    s := t / 2;
  }

  /** The ring identity behind the lifting step, with no residue in scope. */
  lemma LiftArith(a: int, i: int, h: int, t: int, s: int, k: int)
    requires a == 2 * k + 1 && a * i == t * h + 1 && t == 2 * s + 1
    ensures a * (i + h) == (s + k + 1) * (2 * h) + 1
  {
    OddTimes(a, k, h);
    LiftSum(a * i, a * h, t, s, k, h);
    Distrib(i, h, a);
    Commute(a, i + h);
    Commute(a, i);
    Commute(a, h);
  }

  /** The lifting step for h >= 2: a*i = t*h + 1 with t odd, so adding a*h
      completes a multiple of 2h. */
  lemma InverseLiftStep(a: int, i: int, h: nat)
    requires h >= 2 && IsOdd(a)
    requires Wrap(a * i, h) == Wrap(1, h)
    requires Wrap(a * i, 2 * h) != Wrap(1, 2 * h)
    ensures Wrap(a * (i + h), 2 * h) == 1
  {
    var t := WrapQuotient(a * i, h);
    WrapCases(1, h);
    WrapCases(1, 2 * h);
    var s := Halve(t);
    if t == 2 * s {
      HalfTimes(t, s, h);
      WrapUnique(a * i, 2 * h, s, 1);
    }
    var k := Halve(a);
    LiftArith(a, i, h, t, s, k);
    WrapUnique(a * (i + h), 2 * h, s + k + 1, 1);
  }

  /** One lifting step of the inverse of an odd number from modulus h to 2h. */
  lemma InverseLift(a: int, i: int, h: nat)
    requires h >= 1 && IsOdd(a)
    requires Wrap(a * i, h) == Wrap(1, h)
    requires Wrap(a * i, 2 * h) != Wrap(1, 2 * h)
    ensures Wrap(a * (i + h), 2 * h) == 1
  {
    if h == 1 {
      InverseLiftTwo(a, i);
    } else {
      InverseLiftStep(a, i, h);
    }
  }

  /** The multiplicative inverse of an odd number modulo 2^w (rational::mult_inverse),
      built bit by bit. */
  function Inverse(a: nat, w: nat): (r: nat)
    requires IsOdd(a)
    ensures r < Pow2(w)
    ensures Wrap(a * r, Pow2(w)) == Wrap(1, Pow2(w))
  {
    if w == 0 then
      0
    else
      var i := Inverse(a, w - 1);
      var m := Pow2(w);
      if Wrap(a * i, m) == Wrap(1, m) then
        i
      else
        InverseLift(a, i, Pow2(w - 1));
        WrapCases(1, m);
        i + Pow2(w - 1)
  }

  /** An odd coefficient has exactly one root: a*x + b = 0 (mod m) iff x = -b * a^-1. */
  lemma OddRoot(a: int, inv: int, b: int, x: nat, m: nat)
    requires m > 0 && Wrap(a * inv, m) == Wrap(1, m) && x < m
    ensures Wrap(a * x + b, m) == 0 <==> x == Wrap(-b * inv, m)
  {
    var n := Wrap(-b * inv, m);
    // a * n + b is congruent to -b * (a * inv) + b, that is to -b + b.
    WrapMulCongruent(n, -b * inv, a, m);
    assert n * a == a * n;
    Rearrange(-b, inv, a);
    WrapAddCongruent(a * n, -b * (a * inv), b, m);
    WrapMulCongruent(a * inv, 1, -b, m);
    assert (a * inv) * (-b) == -b * (a * inv);
    WrapAddCongruent(-b * (a * inv), -b, b, m);
    WrapCases(0, m);
    assert Wrap(a * n + b, m) == 0;
    if Wrap(a * x + b, m) == 0 {
      // a * x is congruent to -b, so x = x * (a * inv) is congruent to -b * inv.
      WrapAddCongruent(a * x + b, 0, -b, m);
      assert Wrap(a * x, m) == Wrap(-b, m);
      WrapMulCongruent(a * x, -b, inv, m);
      WrapMulCongruent(a * inv, 1, x, m);
      Rearrange(a, x, inv);
      WrapCases(x, m);
      assert -b * inv == (-b) * inv;
    }
  }

  // Helpers for the bounds of the overflow rule, on plain integers.

  lemma DivBounds(a: int, b: int)
    requires a >= 0 && b > 0
    ensures (a / b) * b <= a < (a / b) * b + b
  {
  }

  lemma MulLe(a: int, b: int, c: int, d: int)
    requires 0 <= a <= b && 0 <= c <= d
    ensures a * c <= b * d
  {
    MulLeMono(a, b, c);
    assert b * c <= b * d;
  }

  lemma Distribute(a: int, b: int)
    ensures a * (b + 1) == a * b + a && (a + 1) * b == a * b + b
    ensures a * (b - 1) == a * b - a && (a - 1) * b == a * b - b
  {
  }

  lemma Commute(a: int, b: int)
    ensures a * b == b * a
  {
  }

  lemma QuotientPositive(n: int, d: int, q: int)
    requires 0 < d <= n && q * d <= n < q * d + d && q >= 0
    ensures q >= 1
  {
  }
}
