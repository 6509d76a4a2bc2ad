/**
 The fixed-width integers of the modelled code. Every operation that saturates, wraps or
 truncates in the original is written out here; everything else is exact arithmetic on `int`.
 */
module Machine {
  const I64_MIN := -0x8000_0000_0000_0000
  const I64_MAX := 0x7fff_ffff_ffff_ffff
  const U64_MAX := 0xffff_ffff_ffff_ffff

  type I64 = x: int | I64_MIN <= x <= I64_MAX
  type U64 = x: int | 0 <= x <= U64_MAX

  /** Forces a value into the range of `i64`. */
  function ClampI64(x: int): (r: I64)
  {
    if x < I64_MIN then I64_MIN else if x > I64_MAX then I64_MAX else x
  }

  function SatAddI64(a: I64, b: I64): (r: I64) { ClampI64(a + b) }

  function SatSubI64(a: I64, b: I64): (r: I64) { ClampI64(a - b) }

  /** The value an unbounded count takes in a saturating `u64`. */
  function Saturate(x: int): int { if x > U64_MAX then U64_MAX else x }

  function SatAddU64(a: U64, b: U64): (r: U64)
  {
    if a + b > U64_MAX then U64_MAX else a + b
  }

  /** Two's complement wrap-around of an `i64` result, the release-build behaviour of `+`, `-`, `*`. */
  function WrapI64(x: int): (r: I64)
  {
    (x - I64_MIN) % 0x1_0000_0000_0000_0000 + I64_MIN
  }

  function AbsI64(a: I64): (r: I64)
  {
    if a == I64_MIN then I64_MAX else if a < 0 then -a else a
  }

  /** Integer division that truncates toward zero. */
  function TruncDiv(a: int, b: int): (r: int)
    requires b > 0
  {
    if a >= 0 then a / b else -((-a) / b)
  }

  /** Quotient and remainder of a natural number, with the equation that defines them. */
  function Quotient(a: nat, b: int): (q: nat)
    requires b > 0
    ensures q * b <= a < q * b + b
  {
    a / b
  }

  function Remainder(a: nat, b: int): (r: nat)
    requires b > 0
    ensures r < b && a == Quotient(a, b) * b + r
  {
    a % b
  }

  function Abs(x: int): nat { if x < 0 then -x else x }

  function Max(a: int, b: int): int { if a < b then b else a }

  function Min(a: int, b: int): int { if a < b then a else b }

  /** Truncating division never leaves an interval whose multiples bound the dividend. */
  lemma TruncDivWithin(sum: int, count: int, low: int, high: int)
    requires count > 0
    requires low * count <= sum <= high * count
    ensures low <= TruncDiv(sum, count) <= high
  {
    if sum >= 0 {
      QuotientWithin(sum, count, low, high);
    } else {
      assert -high * count == -(high * count) && -low * count == -(low * count);
      QuotientWithin(-sum, count, -high, -low);
    }
  }

  lemma QuotientWithin(a: nat, b: int, low: int, high: int)
    requires b > 0 && low * b <= a <= high * b
    ensures low <= a / b <= high
  {
    var q := a / b;
    assert q * b + a % b == a && 0 <= a % b < b;
    assert (high + 1) * b == high * b + b;
    assert (q + 1) * b == q * b + b;
    if q > high {
      Scale(high + 1, q, b);
    }
    if q < low {
      Scale(q + 1, low, b);
    }
  }

  lemma Scale(x: int, y: int, b: int)
    requires x <= y && b >= 0
    ensures x * b <= y * b
  {
  }

  lemma QuotientGrows(a: nat, b: nat, d: int)
    requires a <= b && d > 0
    ensures a / d <= b / d
  {
    var p, q := Quotient(a, d), Quotient(b, d);
    if p > q {
      Scale(q + 1, p, d);
    }
  }
}
