/** The SDK's `LegacyDec`: a signed decimal with 18 fractional digits, held
    here as the integer count of 10^-18 units it stands for. Only the
    operations the yield settlement uses are modelled. */
module LegacyDec {

  /** 10^18: the scaled value of the decimal 1. */
  const Precision: int := 1_000_000_000_000_000_000
  const HalfPrecision: int := 500_000_000_000_000_000

  type Dec = int

  function Abs(x: int): nat {
    if x < 0 then -x else x
  }

  /** `big.Int.Quo`: division that truncates toward zero (Dafny's `/` is
      Euclidean, so the signs are handled explicitly). */
  function QuoTrunc(a: int, b: int): (q: int)
    requires b != 0
  {
    var m := Abs(a) / Abs(b);
    if (a < 0) == (b < 0) then m else -m
  }

  /** `chopPrecisionAndRound` on a non-negative value: divide by 10^18 and
      round to the nearest integer, ties to the even neighbour. */
  function ChopRoundNonNeg(x: nat): (r: nat)
    ensures r * Precision - HalfPrecision <= x <= r * Precision + HalfPrecision
    ensures x == r * Precision + HalfPrecision || x == r * Precision - HalfPrecision ==> r % 2 == 0
  {
    var q := x / Precision;
    var rem := x % Precision;
    if rem < HalfPrecision then q
    else if rem > HalfPrecision then q + 1
    else if q % 2 == 0 then q
    else q + 1
  }

  /** `chopPrecisionAndRound`: negative values are rounded by magnitude. */
  function ChopRound(x: int): (r: int)
    ensures r * Precision - HalfPrecision <= x <= r * Precision + HalfPrecision
    ensures x >= 0 ==> r >= 0
    ensures x <= 0 ==> r <= 0
    ensures x == r * Precision + HalfPrecision || x == r * Precision - HalfPrecision ==> r % 2 == 0
  {
    if x < 0 then -(ChopRoundNonNeg(-x) as int) else ChopRoundNonNeg(x)
  }

  /** A negative exact tie goes to the even neighbour: −1.5 rounds to −2. */
  lemma NegativeTieRoundsToEven()
    ensures ChopRound(-3 * HalfPrecision) == -2
  {
  }

  /** `LegacyNewDecFromInt` / `LegacyNewDec`. */
  function FromInt(n: int): (d: Dec)
    ensures TruncateInt(d) == n
  {
    n * Precision
  }

  /** `LegacyDec.Mul`: exact product, rounded back to 18 digits. */
  function Mul(a: Dec, b: Dec): Dec {
    ChopRound(a * b)
  }

  /** `LegacyDec.Quo`: scales the dividend by 10^36, truncates the division,
      then rounds away the extra 18 digits. */
  function Quo(a: Dec, b: Dec): Dec
    requires b != 0
  {
    ChopRound(QuoTrunc(a * Precision * Precision, b))
  }

  /** `LegacyDec.TruncateInt`: the integer part, truncated toward zero. */
  function TruncateInt(d: Dec): (n: int)
    ensures Abs(n) * Precision <= Abs(d) < (Abs(n) + 1) * Precision
    ensures d >= 0 ==> n >= 0
    ensures d <= 0 ==> n <= 0
  {
    QuoTrunc(d, Precision)
  }

  /** Multiplying by an integer-valued decimal loses nothing: `Mul(FromInt(n), r)` is n·r. */
  lemma MulByIntegerIsExact(n: int, r: Dec)
    ensures Mul(FromInt(n), r) == n * r
  {
    var x := n * Precision * r;
    assert x == (n * r) * Precision;
    if x >= 0 {
      assert n * r >= 0;
      assert x / Precision == n * r && x % Precision == 0;
    } else {
      assert -x == (-(n * r)) * Precision;
      assert (-x) / Precision == -(n * r) && (-x) % Precision == 0;
    }
  }

  /** For a non-negative dividend and a positive divisor, `Quo` lands within
      one divisor unit of the exact quotient: |Quo(a, b)·b − a·10^18| ≤ b. */
  lemma QuoNearExact(a: Dec, b: Dec)
    requires a >= 0 && b > 0
    ensures Quo(a, b) >= 0
    ensures a * Precision - b <= Quo(a, b) * b <= a * Precision + b
  {
    var x := a * Precision;
    MulMono(0, a, Precision);
    MulMono(0, x, Precision);
    var t := QuoTrunc(x * Precision, b);
    TruncatedQuotient(x * Precision, b);
    RoundingBound(Quo(a, b), t, x, b);
  }

  lemma TruncatedQuotient(n: int, b: int)
    requires n >= 0 && b > 0
    ensures QuoTrunc(n, b) >= 0
    ensures QuoTrunc(n, b) * b <= n < QuoTrunc(n, b) * b + b
  {
    assert QuoTrunc(n, b) == n / b;
  }

  /** A value r rounded from t = ⌊x·10^18 / b⌋ is within b of x once multiplied by b. */
  lemma RoundingBound(r: int, t: int, x: int, b: int)
    requires b > 0
    requires r * Precision - HalfPrecision <= t <= r * Precision + HalfPrecision
    requires t * b <= x * Precision < t * b + b
    ensures x - b <= r * b <= x + b
  {
    MulMono(r * Precision - HalfPrecision, t, b);
    MulMono(t, r * Precision + HalfPrecision, b);
    assert (r * b) * Precision - HalfPrecision * b <= t * b;
    assert t * b <= (r * b) * Precision + HalfPrecision * b;
    MulMono(HalfPrecision + 1, Precision, b);
    assert (r * b) * Precision < (x + b) * Precision;
    CancelLt(r * b, x + b, Precision);
    assert x * Precision < (r * b + b) * Precision;
    CancelLt(x, r * b + b, Precision);
  }

  lemma MulMono(x: int, y: int, k: int)
    requires x <= y && k >= 0
    ensures x * k <= y * k
  {
    assert y * k - x * k == (y - x) * k;
  }

  lemma CancelLt(x: int, y: int, k: int)
    requires k > 0 && x * k < y * k
    ensures x < y
  {
    if x >= y {
      MulMono(y, x, k);
    }
  }

  lemma CancelLe(x: int, y: int, k: int)
    requires k > 0 && x * k <= y * k
    ensures x <= y
  {
    if x > y {
      MulMono(y + 1, x, k);
    }
  }
}
