/** Unsigned 32-bit machine integers as Rust's `u32` behaves: powers of two,
    bit length and `leading_zeros`, and the three operators the integer
    square root uses (`<<`, `+`, `/`) with their panics in a debug build
    and their wrap-around in a release build.

    Values are naturals below MODULUS; every operation says explicitly what
    happens at the edge of the 32-bit range. */
module U32 {

  const BITS: nat := 32
  const MODULUS: nat := 0x1_0000_0000
  const MAX: nat := 0xFFFF_FFFF

  /** Rust checks shift amounts and additions for overflow only in a debug
      build; a release build masks the shift amount and wraps the sum. */
  datatype Build = Debug | Release

  /** The reasons a `u32` operation panics. */
  datatype Panic = ShiftOverflow | AddOverflow | DivideByZero

  /** The result of a `u32` computation: a value, or the panic that ended it. */
  datatype Outcome = Value(v: nat) | Panicked(reason: Panic)

  function Pow2(k: nat): (r: nat)
    ensures r >= 1
  {
    if k == 0 then 1 else 2 * Pow2(k - 1)
  }

  lemma {:induction false} Pow2Add(a: nat, b: nat)
    ensures Pow2(a + b) == Pow2(a) * Pow2(b)
  {
    if a > 0 {
      Pow2Add(a - 1, b);
      assert Pow2(a + b) == 2 * Pow2(a - 1 + b);
    }
  }

  lemma {:induction false} Pow2Monotone(a: nat, b: nat)
    requires a <= b
    ensures Pow2(a) <= Pow2(b)
  {
    if a < b {
      Pow2Monotone(a, b - 1);
    }
  }

  lemma Pow2Of16()
    ensures Pow2(16) == 0x1_0000
  {
    assert Pow2(2) == 4;
    Pow2Add(2, 2);
    Pow2Add(4, 4);
    Pow2Add(8, 8);
  }

  lemma Pow2Constants()
    ensures Pow2(30) == 0x4000_0000
    ensures Pow2(31) == 0x8000_0000
    ensures Pow2(BITS) == MODULUS
  {
    Pow2Of16();
    assert Pow2(2) == 4;
    Pow2Add(2, 2);
    Pow2Add(4, 4);
    Pow2Add(8, 4);
    Pow2Add(12, 2);
    Pow2Add(16, 14);
    assert Pow2(31) == 2 * Pow2(30);
    assert Pow2(32) == 2 * Pow2(31);
  }

  /** The number of binary digits of `n`: zero for zero, otherwise the
      position of the highest set bit plus one. */
  function BitLength(n: nat): (b: nat)
    ensures n < Pow2(b)
    ensures n > 0 ==> b >= 1 && Pow2(b - 1) <= n
    ensures n == 0 ==> b == 0
  {
    if n == 0 then 0 else 1 + BitLength(n / 2)
  }

  /** The bit length is the only `b` with `2^(b-1) <= n < 2^b`. */
  lemma BitLengthUnique(n: nat, b: nat)
    requires b >= 1 && Pow2(b - 1) <= n < Pow2(b)
    ensures BitLength(n) == b
  {
    var c := BitLength(n);
    if c < b {
      Pow2Monotone(c, b - 1);
    } else if c > b {
      Pow2Monotone(b, c - 1);
    }
  }

  lemma BitLengthBelowModulus(n: nat)
    requires n < MODULUS
    ensures BitLength(n) <= BITS
  {
    Pow2Constants();
    var b := BitLength(n);
    if b > BITS {
      Pow2Monotone(BITS, b - 1);
    }
  }

  /** `u32::leading_zeros`: the number of zero bits above the highest set bit
      in the 32-bit representation of `n`. */
  function LeadingZeros(n: nat): (z: nat)
    requires n < MODULUS
    ensures z <= BITS
    ensures n < Pow2(BITS - z)
    ensures n == 0 <==> z == BITS
    ensures n > 0 ==> Pow2(BITS - 1 - z) <= n
  {
    BitLengthBelowModulus(n);
    BITS - BitLength(n)
  }

  /** `x << amount` on `u32`. A debug build panics when the amount is 32 or
      more; a release build uses the amount modulo 32. Bits shifted out at
      the top are lost in both. */
  function Shl(x: nat, amount: nat, build: Build): (r: Outcome)
    requires x < MODULUS
    ensures r.Panicked? <==> build == Debug && amount >= BITS
    ensures r.Panicked? ==> r.reason == ShiftOverflow
    ensures r.Value? ==> r.v < MODULUS
    ensures amount < BITS && x * Pow2(amount) < MODULUS ==> r == Value(x * Pow2(amount))
  {
    if build == Debug && amount >= BITS then
      Panicked(ShiftOverflow)
    else
      Value((x * Pow2(amount % BITS)) % MODULUS)
  }

  /** In a release build an over-wide shift of one by `a` in `32..63`
      shifts by `a - 32` instead. */
  lemma ReleaseShiftOfOne(a: nat)
    requires a < 2 * BITS
    ensures BITS <= a ==> Shl(1, a, Release) == Value(Pow2(a - BITS))
  {
    if BITS <= a {
      var p := Pow2(a - BITS);
      Pow2Constants();
      Pow2Monotone(a - BITS, BITS - 1);
      assert a % BITS == a - BITS;
      assert (1 * p) % MODULUS == p;
    }
  }

  /** `x + y` on `u32`: a debug build panics on overflow, a release build wraps. */
  function Add(x: nat, y: nat, build: Build): (r: Outcome)
    requires x < MODULUS && y < MODULUS
    ensures r.Panicked? <==> build == Debug && x + y >= MODULUS
    ensures r.Panicked? ==> r.reason == AddOverflow
    ensures r.Value? ==> r.v < MODULUS && (r.v == x + y || r.v == x + y - MODULUS)
  {
    if x + y < MODULUS then Value(x + y)
    else if build == Debug then Panicked(AddOverflow)
    else Value(x + y - MODULUS)
  }

  /** `x / y` on `u32`: truncating, and a panic in every build when `y` is zero. */
  function Div(x: nat, y: nat): (r: Outcome)
    requires x < MODULUS && y < MODULUS
    ensures r.Panicked? <==> y == 0
    ensures r.Panicked? ==> r.reason == DivideByZero
    ensures r.Value? ==> r.v * y <= x < (r.v + 1) * y
  {
    if y == 0 then Panicked(DivideByZero) else Value(x / y)
  }
}
