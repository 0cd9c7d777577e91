# Integer square root of a `u32`, modelled in Dafny

The repository's `arith` crate provides `isqrt(n: u32) -> u32`, the integer
square root by integer Newton's method. Inputs 0 and 1 are returned as they
are. For larger inputs a power of two is taken as the starting guess. The
loop then replaces the guess `g0` by `g1 = (g0 + n / g0) / 2`, with
truncating division, and returns `g0` as soon as `g1 >= g0`.

The model follows that code step by step, with Rust's `u32` operators made
explicit (`U32.Shl`, `U32.Add`, `U32.Div`). It covers both build modes:

- A debug build panics on a shift by 32 or more and on an overflowing sum.
- A release build masks the shift amount to five bits and wraps the sum.
- Both builds panic on division by zero.

The build mode is Rust's `overflow-checks` setting. It is on by default in
debug builds and off in release builds. `U32.Build` stands for that flag:
`Debug` is checks on, and `Release` is checks off.

A panic is a value of `U32.Outcome`, so every path of the code has a
defined result in the model.

Modules:

- `U32` (u32.dfy): powers of two, bit length, `leading_zeros`, and the three
  `u32` operators with their debug and release behaviour.
- `FloorRoot` (floor_root.dfy): the floor square root. It is defined
  declaratively (`IsFloorRoot`: `r*r <= n < (r+1)*(r+1)`) and by a reference
  function (`FloorSqrt`), and the two are proved to agree.
- `Newton` (newton.dfy): the integer Newton step and the facts the loop
  rests on.
- `Arith` (arith.dfy): the starting guess and the loop as written (`Isqrt`).
  It also holds the corrected starting guess (`IsqrtFixed`).

What the proofs establish:

- For `n < 2^30`, `Isqrt` returns the floor square root in either build.
  Perfect squares map to their root.
- For `n >= 2^30`, the shift on line 20 is out of range. A debug build
  panics there, exactly for those inputs.
- A release build, for `n >= 2^30`, returns 1 or divides by zero.
- `IsqrtFixed` returns the floor square root of every `u32`, with no panic.

The doc comment on `isqrt` (arith/src/lib.rs:14) says it returns the
integer square root of an unsigned integer `n`. It names no restriction on
`n` and documents no panic. The code does not keep that promise for
`n >= 2^30` (see Findings). The model follows the code.

## Model

| member | source | states |
|---|---|---|
| `U32.LeadingZeros` | arith/src/lib.rs:20 | `leading_zeros(n)` is at most 32; it is 32 exactly for 0; otherwise `2^(31-z) <= n < 2^(32-z)`, so the highest set bit sits right below the leading zeros |
| `U32.BitLengthUnique` | arith/src/lib.rs:20 | `32 - leading_zeros(n)`, the bit length, is the only `b >= 1` with `2^(b-1) <= n < 2^b` |
| `U32.Shl` | arith/src/lib.rs:20 | `<<` on `u32`: it panics exactly in a debug build with an amount of 32 or more; the result is below `2^32`; an in-range shift that loses no bits multiplies by `2^amount` |
| `U32.ReleaseShiftOfOne` | arith/src/lib.rs:20 | in a release build, shifting 1 by an amount in `32..63` gives `2^(amount-32)` |
| `U32.Add` | arith/src/lib.rs:22 | `+` on `u32`: it panics exactly in a debug build when the sum reaches `2^32`; otherwise the result is the sum, or the sum less `2^32` |
| `U32.Div` | arith/src/lib.rs:22 | `/` on `u32`: it panics exactly on a zero divisor; otherwise it gives the `q` with `q*y <= x < (q+1)*y` |
| `Arith.ShiftAmount` | arith/src/lib.rs:20 | the shift amount `1 + u32::BITS - n.leading_zeros()` is the bit length of `n` plus one |
| `Arith.ShiftInRangeIff` | arith/src/lib.rs:20 | the shift amount `1 + 32 - leading_zeros(n)` is at most 31 exactly when `n < 2^30` |
| `Arith.StartGuessBounds` | arith/src/lib.rs:19-20 | below `2^30`, the shifted one is `2 * 2^bitlen(n)` and fits in `u32`, and `2^bitlen(n)` squared exceeds `n`; from `2^30` on, the shift amount is 32 (for `n < 2^31`) or 33 |
| `Arith.StartGuess` | arith/src/lib.rs:19-20 | the starting guess panics exactly in a debug build with `n >= 2^30`, on the shift; below `2^30` it is `2^bitlen(n)` and its square exceeds `n`; in a release build from `2^30` on it is 0 (below `2^31`) or 1 |
| `Newton.StepStaysAbove` | arith/src/lib.rs:22 | from any positive guess, the next guess `g1` satisfies `n < (g1+1)^2`, so it is never below the floor root |
| `Newton.StepDescendsIff` | arith/src/lib.rs:22-26 | the step strictly lowers the guess exactly when `g*g > n`; so when the stop test `g1 >= g0` fires, `g0*g0 <= n` |
| `Newton.QuotientBound` | arith/src/lib.rs:22 | once the guess is at least the floor root, `n / g <= g + 2`, which bounds the sum `g + n / g` |
| `Arith.NextGuess` | arith/src/lib.rs:22 | `(g0 + n / g0) / 2` on `u32`: a zero guess divides by zero; when the sum fits it is the Newton step; an overflowing sum panics in a debug build and wraps before the halving in a release build |
| `Arith.SafeStep` | arith/src/lib.rs:21-27 | from a positive guess at least the root with `2g+2 < 2^32`, for `n >= 1`: the sum `g + n / g` fits in `u32`; if the step does not go down, the guess is the floor root; otherwise the smaller guess has the same properties |
| `Arith.Descend` | arith/src/lib.rs:21-27 | the loop terminates, with the guess as its decreasing measure; from such a guess it returns the floor root; from guess 0 it divides by zero; from guess 1 it returns 1, unless `1 + n` overflows |
| `Arith.Isqrt` | arith/src/lib.rs:15-28 | `n <= 1` gives `n`; for `n < 2^30` the result is the floor root and perfect squares give their root; a debug build panics exactly when `n >= 2^30`, and on the shift; a release build for `n >= 2^30` gives 1 when `2^31 <= n < 2^32 - 1`, and otherwise divides by zero |
| `FloorRoot.FloorRootUnique` | arith/src/lib.rs:58-59 | at most one natural `r` satisfies `r*r <= n < (r+1)*(r+1)` |
| `FloorRoot.FloorSqrtIsTheFloorRoot` | arith/src/lib.rs:58-59 | `r` satisfies `r*r <= n < (r+1)*(r+1)` if and only if `r` is the reference floor root `FloorSqrt(n)` |
| `FloorRoot.FloorSqrtOfSquare` | arith/src/lib.rs:58-59 | the floor root of `k*k` is `k`, for every `k` |
| `Arith.WrittenStartFailsFromPow2Of30` | arith/src/lib.rs:20 | the starting guess as written panics for `2^30` in a debug build; in a release build it is 1 for `2^31`, and the loop then returns 1, which is not the floor root of `2^31` |
| `Arith.WrittenStartNotLeast` | arith/src/lib.rs:19-20 | for `n = 4` the starting guess as written is 8, although 4 already squares above 4 |
| `Arith.HalfShiftIsLeastPow2Above` | arith/src/lib.rs:19-20 | shifting by `(1 + 32 - leading_zeros(n)) / 2` gives a power of two whose square exceeds `n`, and for `n >= 1` the next smaller power of two squares to at most `n`; the amount is at most 16 |
| `Arith.StartGuessFixed` | arith/src/lib.rs:19-20 | the corrected starting guess never panics and is the power of two `2^((1 + 32 - leading_zeros(n)) / 2)`; it is at most `2^16`; its square exceeds `n`; for `n >= 1` its half squares to at most `n`, so it is the least power of two above the root |
| `Arith.IsqrtFixed` | arith/src/lib.rs:15-28 | with the corrected starting guess, the result is the floor square root of every `u32`, in either build |

## Findings

| source | as written | input that shows it | evidently intended | confidence | as-written member | corrected member |
|---|---|---|---|---|---|---|
| arith/src/lib.rs:20 | `(1 << (1 + u32::BITS - n.leading_zeros())) / 2` shifts by `bitlen(n) + 1`, which is 32 or 33 once `n >= 2^30` | `n = 0x4000_0000`: a debug build panics on the shift. `n = 0x8000_0000`: a release build starts from 1 and returns 1. `n = 0x4000_0000` or `n = 0xFFFF_FFFF`: a release build divides by zero | `1 << ((1 + u32::BITS - n.leading_zeros()) / 2)`: the parenthesis closes after the halving. This shifts by at most 16 and gives the floor root for every `u32` | high; not executed | `Arith.WrittenStartFailsFromPow2Of30` | `Arith.IsqrtFixed` |
| arith/src/lib.rs:19-20 | the comment promises the least power of two greater than `sqrt(n)`; the expression gives `2^bitlen(n)`, which exceeds `n` itself for `n >= 2` | `n = 4`: the guess is 8, but 4 is the least power of two above `sqrt(4) = 2` | the least power of two above the root, `2^ceil(bitlen(n)/2)` | high; not executed | `Arith.WrittenStartNotLeast` | `Arith.HalfShiftIsLeastPow2Above` |

The second row costs only extra loop iterations, not correctness. Below
`2^30` the guess as written is still above the root, and the loop still
reaches the floor root.

## Left out

- `sqrt(n: f32)` (arith/src/lib.rs:1-12) is IEEE-754 single-precision Newton iteration. Its result and its termination depend on rounding, NaN comparisons, infinities and `f32::EPSILON`, which Dafny's `real` does not model. Its one discrete behaviour is the NaN return for negative input.
- The test module (arith/src/lib.rs:30-62) uses a random number generator and compares against a float square root. It is left out. The floor-root property it checks on `0..0xffff` is proved above for all `n < 2^30`.
- Panics are modelled as a returned `Outcome.Panicked` value. Unwinding and the panic message are not modelled.
- The `u32` return type is not restated in the contracts. Every result is at most `2^16`, since it is the floor root of a value below `2^32`.
