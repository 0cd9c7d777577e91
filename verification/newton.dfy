/** One step of integer Newton's method for the square root,
    `g  ->  (g + n / g) / 2` with truncating division, and the three facts
    the integer square root rests on: the step never falls below the floor
    root, it goes down exactly while the guess is above the root, and the
    quotient `n / g` stays small once the guess is at least the root. */
module Newton {
  import opened FloorRoot

  function NewtonStep(n: nat, g: nat): nat
    requires g >= 1
  {
    (g + n / g) / 2
  }

  lemma MulMonotone(a: nat, b: nat, c: nat)
    requires a <= b
    ensures a * c <= b * c
  {
  }

  lemma MulCancel(a: nat, b: nat, c: nat)
    requires c >= 1 && a * c <= b * c
    ensures a <= b
  {
  }

  /** Truncating division: `q = n / g` is the `q` with `q*g <= n < (q+1)*g`. */
  lemma DivBounds(n: nat, g: nat)
    requires g >= 1
    ensures (n / g) * g <= n < (n / g + 1) * g
  {
  }

  /** `(a + b)^2 >= 4ab`, the integer form of the inequality between the
      arithmetic and the geometric mean. */
  lemma SquareOfSumBound(a: nat, b: nat)
    ensures Square(a + b) >= 4 * (a * b)
  {
    var d: int := a - b;
    SquareIsProduct(a + b);
    assert (a + b) * (a + b) == a * a + 2 * (a * b) + b * b;
    assert d * d == a * a - 2 * (a * b) + b * b;
    assert d * d >= 0;
  }

  lemma SquareOfDouble(u: nat)
    ensures Square(2 * u) == 4 * Square(u)
  {
  }

  /** For every positive guess the next guess is at least the floor root:
      `n < (g1 + 1)^2`. */
  lemma StepStaysAbove(n: nat, g: nat)
    requires g >= 1
    ensures n < Square(NewtonStep(n, g) + 1)
  {
    var q := n / g;
    var u := NewtonStep(n, g) + 1;
    DivBounds(n, g);
    assert g * (q + 1) == (q + 1) * g;
    assert 2 * u >= g + (q + 1);
    SquareMonotone(g + (q + 1), 2 * u);
    SquareOfSumBound(g, q + 1);
    SquareOfDouble(u);
  }

  /** `n / g < g` exactly when `n < g*g`. */
  lemma QuotientBelowGuessIff(n: nat, g: nat)
    requires g >= 1
    ensures n / g < g <==> n < Square(g)
  {
    var q := n / g;
    DivBounds(n, g);
    SquareIsProduct(g);
    if q < g {
      MulMonotone(q + 1, g, g);
    } else {
      MulMonotone(g, q, g);
    }
  }

  /** The step strictly decreases the guess exactly when the guess squared
      exceeds `n`. */
  lemma StepDescendsIff(n: nat, g: nat)
    requires g >= 1
    ensures NewtonStep(n, g) < g <==> n < Square(g)
  {
    QuotientBelowGuessIff(n, g);
  }

  /** Once the guess is at least the floor root, `n / g <= g + 2`, so the
      sum `g + n / g` is at most `2 * g + 2`. */
  lemma QuotientBound(n: nat, g: nat)
    requires g >= 1
    requires n < Square(g + 1)
    ensures n / g <= g + 2
  {
    var q := n / g;
    DivBounds(n, g);
    SquareIsProduct(g + 1);
    assert (g + 1) * (g + 1) == (g + 2) * g + 1;
    MulCancel(q, g + 2, g);
  }
}
