/** The integer square root `isqrt(n: u32) -> u32` of the `arith` crate:
    inputs 0 and 1 are their own root; otherwise a power of two above the
    root is the starting guess, and integer Newton steps
    `g1 = (g0 + n / g0) / 2` run while they still go down.

    The starting guess as written, `(1 << (1 + u32::BITS - n.leading_zeros())) / 2`,
    is `2^bitlen(n)`, and its shift amount `bitlen(n) + 1` leaves the `u32`
    range once `n >= 2^30`. `Isqrt` models the code as written, in both
    builds; `IsqrtFixed` models the shift by half that amount, the least
    power of two above the root, which is total on `u32`. */
module Arith {
  import opened U32
  import opened FloorRoot
  import opened Newton

  /** The shift amount of the starting guess as written: `1 + 32 - leading_zeros(n)`. */
  function ShiftAmount(n: nat): (a: nat)
    requires n < MODULUS
    ensures a == BitLength(n) + 1
  {
    1 + BITS - LeadingZeros(n)
  }

  /** The shift in the starting guess as written is within the `u32` range (amount at most 31)
      exactly when `n < 2^30`. */
  lemma ShiftInRangeIff(n: nat)
    requires n < MODULUS
    ensures ShiftAmount(n) < BITS <==> n < 0x4000_0000
  {
    Pow2Constants();
    var b := BitLength(n);
    if n >= 0x4000_0000 && b <= 30 {
      Pow2Monotone(b, 30);
    } else if n < 0x4000_0000 && b >= 31 {
      Pow2Monotone(30, b - 1);
    }
  }

  /** The arithmetic behind the starting guess as written. Below `2^30`
      the shifted one, `2^(bitlen(n) + 1)`, fits in `u32` and its half
      squared exceeds `n`; from `2^30` on the shift amount is 32 or 33. */
  lemma StartGuessBounds(n: nat)
    requires n < MODULUS
    ensures n < 0x4000_0000 ==>
              Pow2(ShiftAmount(n)) < MODULUS
              && Pow2(ShiftAmount(n)) == 2 * Pow2(BitLength(n))
              && Pow2(BitLength(n)) <= 0x4000_0000
              && Square(Pow2(BitLength(n))) > n
    ensures 0x4000_0000 <= n ==> ShiftAmount(n) == (if n < 0x8000_0000 then 32 else 33)
  {
    Pow2Constants();
    var b := BitLength(n);
    if n < 0x4000_0000 {
      ShiftInRangeIff(n);
      Pow2Monotone(b + 1, 31);
      Pow2Monotone(b, 30);
      MulMonotone(1, Pow2(b), Pow2(b));
      SquareIsProduct(Pow2(b));
    } else if n < 0x8000_0000 {
      BitLengthUnique(n, 31);
    } else {
      BitLengthUnique(n, 32);
    }
  }

  /** The starting guess as written: `(1 << ShiftAmount(n)) / 2`. Below
      `2^30` it is `2^bitlen(n)`, whose square exceeds `n`; from `2^30` on a
      debug build panics on the shift and a release build, which shifts by
      the amount modulo 32, yields 0 or 1. */
  function StartGuess(n: nat, build: Build): (r: Outcome)
    requires n < MODULUS
    ensures r.Panicked? <==> build == Debug && n >= 0x4000_0000
    ensures r.Panicked? ==> r.reason == ShiftOverflow
    ensures n < 0x4000_0000 ==> r == Value(Pow2(BitLength(n))) && Square(r.v) > n
    ensures build == Release && n >= 0x4000_0000 ==> r == Value(if n < 0x8000_0000 then 0 else 1)
  {
    ShiftInRangeIff(n);
    StartGuessBounds(n);
    ReleaseShiftOfOne(ShiftAmount(n));
    assert Pow2(1) == 2;
    var s := Shl(1, ShiftAmount(n), build);
    if s.Panicked? then s else Value(s.v / 2)
  }

  /** Whether the loop may start from guess `g`: it is positive, at least
      the floor root of `n`, and small enough that `g + n / g` fits in `u32`. */
  predicate SafeStart(n: nat, g: nat) {
    1 <= g && n < Square(g + 1) && 2 * g + 2 < MODULUS
  }

  /** What the loop does when it starts from guess 1, as it does in a
      release build for `2^31 <= n`: 1 is returned unless `1 + n` overflows. */
  function FromOne(n: nat, build: Build): Outcome {
    if n < MAX then Value(1)
    else if build == Debug then Panicked(AddOverflow)
    else Panicked(DivideByZero)
  }

  /** The next guess of the loop, `let g1 = (g0 + n / g0) / 2`, with the `u32` operators of
      the given build. Without overflow it is the Newton step; a zero guess
      divides by zero; an overflowing sum panics in a debug build and wraps
      in a release build. */
  method NextGuess(n: nat, g0: nat, build: Build) returns (r: Outcome)
    requires n < MODULUS && g0 < MODULUS
    ensures g0 == 0 ==> r == Panicked(DivideByZero)
    ensures g0 >= 1 && g0 + n / g0 < MODULUS ==> r == Value(NewtonStep(n, g0))
    ensures g0 >= 1 && g0 + n / g0 >= MODULUS ==>
              r == (if build == Debug then Panicked(AddOverflow)
                    else Value((g0 + n / g0 - MODULUS) / 2))
  {
    var q := Div(n, g0);
    if q.Panicked? {
      return q;
    }
    var sum := Add(g0, q.v, build);
    if sum.Panicked? {
      return sum;
    }
    return Value(sum.v / 2);
  }

  /** One step of the loop from a safe guess: `g + n / g` does not
      overflow, and the step either stops at the floor root or moves to a
      smaller guess that is still safe. */
  lemma SafeStep(n: nat, g: nat)
    requires 1 <= n && SafeStart(n, g)
    ensures g + n / g < MODULUS
    ensures NewtonStep(n, g) >= g ==> IsFloorRoot(g, n)
    ensures NewtonStep(n, g) < g ==> SafeStart(n, NewtonStep(n, g))
  {
    QuotientBound(n, g);
    assert g + n / g <= 2 * g + 2;
    StepDescendsIff(n, g);
    StepStaysAbove(n, g);
  }

  /** The loop of `isqrt`, from starting guess `g`, with the `u32`
      operators of the given build. From a safe start it returns the floor
      root; from 0 it divides by zero; from 1 it behaves as `FromOne`. */
  method Descend(n: nat, g: nat, build: Build) returns (res: Outcome)
    requires 2 <= n < MODULUS && g < MODULUS
    ensures SafeStart(n, g) ==> res.Value? && IsFloorRoot(res.v, n)
    ensures g == 0 ==> res == Panicked(DivideByZero)
    ensures g == 1 ==> res == FromOne(n, build)
  {
    var g0: nat := g;
    while true
      invariant g0 <= g
      invariant SafeStart(n, g) ==> SafeStart(n, g0)
      invariant g == 0 ==> g0 == 0
      invariant g == 1 ==> g0 == 1 || (g0 == 0 && n == MAX && build == Release)
      decreases g0
    {
      if SafeStart(n, g0) {
        SafeStep(n, g0);
      }
      assert n / 1 == n;
      var step := NextGuess(n, g0, build);
      if step.Panicked? {
        return step;
      }
      var g1: nat := step.v;
      if g1 >= g0 {
        return Value(g0);
      }
      g0 := g1;
    }
  }

  /** `isqrt` as written. Below `2^30` it returns the floor square root in
      either build. From `2^30` on a debug build panics on the shift, and a
      release build divides by zero or returns 1. */
  method Isqrt(n: nat, build: Build) returns (res: Outcome)
    requires n < MODULUS
    ensures n <= 1 ==> res == Value(n)
    ensures n < 0x4000_0000 ==> res == Value(FloorSqrt(n))
    ensures n < 0x4000_0000 ==> forall k :: Square(k) == n ==> res == Value(k)
    ensures build == Debug ==> (res.Panicked? <==> n >= 0x4000_0000)
    ensures build == Debug && n >= 0x4000_0000 ==> res == Panicked(ShiftOverflow)
    ensures build == Release && n >= 0x4000_0000 ==>
              res == (if 0x8000_0000 <= n < MAX then Value(1) else Panicked(DivideByZero))
  {
    if n <= 1 {
      FloorSqrtIsTheFloorRoot(n, n);
      return Value(n);
    }
    var start := StartGuess(n, build);
    if start.Panicked? {
      return start;
    }
    if n < 0x4000_0000 {
      StartGuessBounds(n);
      SquareMonotone(start.v, start.v + 1);
    }
    res := Descend(n, start.v, build);
    if n < 0x4000_0000 {
      FloorSqrtIsTheFloorRoot(res.v, n);
    }
    forall k | Square(k) == n && n < 0x4000_0000
      ensures res == Value(k)
    {
      FloorSqrtOfSquare(k);
    }
  }

  /** The starting guess as written fails from `2^30` on: a debug build
      panics there, and a release build starts `2^31` from 1 and returns 1,
      which is not its floor root. */
  lemma WrittenStartFailsFromPow2Of30()
    ensures StartGuess(0x4000_0000, Debug) == Panicked(ShiftOverflow)
    ensures StartGuess(0x8000_0000, Release) == Value(1)
    ensures FromOne(0x8000_0000, Release) == Value(1)
    ensures !IsFloorRoot(1, 0x8000_0000)
  {
  }

  /** Contrary to the comment on the starting guess, the guess as written is
      not the least power of two above the root: for 4 it is 8, although
      4 already squares above 4. */
  lemma WrittenStartNotLeast()
    ensures StartGuess(4, Debug) == Value(8)
    ensures Square(4) > 4
  {
  }

  lemma SquareOfPow2(k: nat)
    ensures Square(Pow2(k)) == Pow2(k + k)
  {
    Pow2Add(k, k);
    SquareIsProduct(Pow2(k));
  }

  /** The corrected shift amount, `(1 + u32::BITS - n.leading_zeros()) / 2`,
      gives the least power of two whose square exceeds `n`. */
  lemma HalfShiftIsLeastPow2Above(n: nat)
    requires n < MODULUS
    ensures var k := ShiftAmount(n) / 2;
      && k <= 16
      && Square(Pow2(k)) > n
      && (n >= 1 ==> k >= 1 && Square(Pow2(k - 1)) <= n)
  {
    var b := BitLength(n);
    var k := ShiftAmount(n) / 2;
    BitLengthBelowModulus(n);
    HalfBitLengthPow2(n, b, k);
  }

  /** For `2^(b-1) <= n < 2^b`, the power `2^k` with `k = ceil(b / 2)` is
      the least power of two whose square exceeds `n`. */
  lemma HalfBitLengthPow2(n: nat, b: nat, k: nat)
    requires n < Pow2(b)
    requires n >= 1 ==> b >= 1 && Pow2(b - 1) <= n
    requires b <= k + k <= b + 1
    ensures Square(Pow2(k)) > n
    ensures n >= 1 ==> k >= 1 && Square(Pow2(k - 1)) <= n
  {
    SquareOfPow2(k);
    Pow2Monotone(b, k + k);
    if n >= 1 {
      SquareOfPow2(k - 1);
      Pow2Monotone(k - 1 + k - 1, b - 1);
    }
  }

  /** The starting guess with the shift by half the amount,
      `1 << ((1 + u32::BITS - n.leading_zeros()) / 2)`: never panics, and is
      the least power of two whose square exceeds `n`. */
  function StartGuessFixed(n: nat, build: Build): (r: Outcome)
    requires n < MODULUS
    ensures r == Value(Pow2(ShiftAmount(n) / 2))
    ensures r.v <= 0x1_0000
    ensures Square(r.v) > n
    ensures n >= 1 ==> r.v >= 2 && Square(r.v / 2) <= n
  {
    var k := ShiftAmount(n) / 2;
    HalfShiftIsLeastPow2Above(n);
    Pow2Of16();
    Pow2Monotone(k, 16);
    var s := Shl(1, k, build);
    assert s == Value(Pow2(k));
    assert n >= 1 ==> Pow2(k) / 2 == Pow2(k - 1);
    s
  }

  /** `isqrt` with the corrected starting guess: the floor square root of
      every `u32`, in either build, with no panic. */
  method IsqrtFixed(n: nat, build: Build) returns (r: nat)
    requires n < MODULUS
    ensures r == FloorSqrt(n)
    ensures IsFloorRoot(r, n)
  {
    if n <= 1 {
      FloorSqrtIsTheFloorRoot(n, n);
      return n;
    }
    var start := StartGuessFixed(n, build);
    SquareMonotone(start.v, start.v + 1);
    var res := Descend(n, start.v, build);
    r := res.v;
    FloorSqrtIsTheFloorRoot(r, n);
  }
}
