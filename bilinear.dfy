/** The bilinear form a*x*y + b*x + c*y + d of the saturation rules: a value
    type whose operators copy the form and adjust its coefficients. */
module BilinearForms {

  datatype Bilinear = Bilinear(a: int, b: int, c: int, d: int)
  {
    function Eval(x: int, y: int): int {
      a * x * y + b * x + c * y + d
    }

    /** Unary minus: every coefficient negated. */
    function Neg(): Bilinear {
      Bilinear(-a, -b, -c, -d)
    }

    /** Coefficient-wise difference. */
    function Sub(other: Bilinear): Bilinear {
      Bilinear(a - other.a, b - other.b, c - other.c, d - other.d)
    }

    /** Adding a constant touches the constant term only. */
    function AddConst(k: int): Bilinear {
      this.(d := d + k)
    }

    /** Subtracting a constant (both the rational and the int overload). */
    function SubConst(k: int): Bilinear {
      this.(d := d - k)
    }
  }

  lemma Linear(a: int, b: int, x: int, y: int)
    ensures (a - b) * x * y == a * x * y - b * x * y
    ensures (-a) * x * y == -(a * x * y)
  {
    calc {
      (a - b) * x * y;
      (a * x - b * x) * y;
      a * x * y - b * x * y;
    }
    calc {
      (-a) * x * y;
      (-(a * x)) * y;
      -(a * x * y);
    }
  }

  /** The value of the negated form is the negated value. */
  lemma EvalNeg(f: Bilinear, x: int, y: int)
    ensures f.Neg().Eval(x, y) == -f.Eval(x, y)
  {
    Linear(f.a, 0, x, y);
  }

  /** Evaluation is linear in the form. */
  lemma EvalSub(f: Bilinear, g: Bilinear, x: int, y: int)
    ensures f.Sub(g).Eval(x, y) == f.Eval(x, y) - g.Eval(x, y)
  {
    Linear(f.a, g.a, x, y);
  }

  /** Adding or subtracting a constant shifts every value by that constant and
      leaves the three variable coefficients alone. */
  lemma EvalShift(f: Bilinear, k: int, x: int, y: int)
    ensures f.AddConst(k).Eval(x, y) == f.Eval(x, y) + k
    ensures f.SubConst(k).Eval(x, y) == f.Eval(x, y) - k
    ensures f.AddConst(k).a == f.a && f.AddConst(k).b == f.b && f.AddConst(k).c == f.c
    ensures f.SubConst(k).a == f.a && f.SubConst(k).b == f.b && f.SubConst(k).c == f.c
  {
  }

  /** Negation undoes itself, and subtracting a form from itself gives the zero form. */
  lemma NegSubFacts(f: Bilinear, k: int)
    ensures f.Neg().Neg() == f
    ensures f.Sub(f) == Bilinear(0, 0, 0, 0)
    ensures f.AddConst(k).SubConst(k) == f
  {
  }
}
