/** The floor square root: the largest natural whose square does not exceed
    `n`. A declarative characterisation, a reference definition by counting
    up, and the facts that tie the two together. */
module FloorRoot {

  /** `k * k`, built up as a sum of odd numbers so that the solver treats
      it as a function of `k` rather than as a product. */
  function Square(k: nat): nat {
    if k == 0 then 0 else Square(k - 1) + 2 * k - 1
  }

  lemma {:induction false} SquareIsProduct(k: nat)
    ensures Square(k) == k * k
  {
    if k > 0 {
      SquareIsProduct(k - 1);
      assert (k - 1) * (k - 1) == k * k - 2 * k + 1;
    }
  }

  lemma {:induction false} SquareMonotone(a: nat, b: nat)
    requires a <= b
    ensures Square(a) <= Square(b)
  {
    if a < b {
      SquareMonotone(a, b - 1);
    }
  }

  /** `r` is the floor square root of `n`: `r*r <= n < (r+1)*(r+1)`. */
  predicate IsFloorRoot(r: nat, n: nat) {
    Square(r) <= n < Square(r + 1)
  }

  /** At most one natural is the floor square root of `n`. */
  lemma FloorRootUnique(r: nat, s: nat, n: nat)
    requires IsFloorRoot(r, n) && IsFloorRoot(s, n)
    ensures r == s
  {
    if r < s {
      SquareMonotone(r + 1, s);
    } else if s < r {
      SquareMonotone(s + 1, r);
    }
  }

  /** Reference definition: the floor square root of `n`, found by stepping
      up from the root of `n - 1`. */
  function FloorSqrt(n: nat): (r: nat)
    ensures IsFloorRoot(r, n)
  {
    if n == 0 then 0
    else
      var r := FloorSqrt(n - 1);
      if Square(r + 1) <= n then
        r + 1
      else
        r
  }

  /** Every `n` has a floor square root, and it is `FloorSqrt(n)`. */
  lemma FloorSqrtIsTheFloorRoot(r: nat, n: nat)
    ensures IsFloorRoot(r, n) <==> r == FloorSqrt(n)
  {
    if IsFloorRoot(r, n) {
      FloorRootUnique(r, FloorSqrt(n), n);
    }
  }

  /** Perfect squares map to their root. */
  lemma FloorSqrtOfSquare(k: nat)
    ensures FloorSqrt(Square(k)) == k
  {
    SquareMonotone(k, k + 1);
    assert Square(k) < Square(k + 1);
    FloorSqrtIsTheFloorRoot(k, Square(k));
  }
}
