/** The part of the `rust_decimal` number type the program uses: a decimal is an integer
    mantissa and a scale, and stands for mantissa / 10^scale. */
module FixedPoint {
  import opened Types

  /** The largest scale a decimal may carry. */
  const MAX_PRECISION: nat := 28

  /** The mantissa is a 96-bit magnitude. */
  const MAX_MANTISSA: nat := 0xFFFF_FFFF_FFFF_FFFF_FFFF_FFFF

  datatype Decimal = Decimal(mantissa: int, scale: nat)

  function Pow10(n: nat): (r: nat)
    ensures r >= 1
  {
    if n == 0 then 1 else 10 * Pow10(n - 1)
  }

  lemma {:induction false} Pow10Add(a: nat, b: nat)
    ensures Pow10(a + b) == Pow10(a) * Pow10(b)
  {
    if a > 0 {
      Pow10Add(a - 1, b);
      assert Pow10(a + b) == 10 * Pow10(a - 1 + b);
    }
  }

  /** The decimal made from an unsigned machine integer: the integer itself at scale 0. */
  function FromUnsigned(n: nat): Decimal {
    Decimal(n, 0)
  }

  /** Multiplication is exact: mantissas multiply and scales add. Whether the product still fits
      the 96-bit mantissa is the caller's question (see `Representable`). */
  function Mul(a: Decimal, b: Decimal): Decimal {
    Decimal(a.mantissa * b.mantissa, a.scale + b.scale)
  }

  /** Whether a decimal fits the 96-bit mantissa and the scale limit. */
  predicate Representable(d: Decimal) {
    -(MAX_MANTISSA as int) <= d.mantissa <= MAX_MANTISSA && d.scale <= MAX_PRECISION
  }

  /** Keeps the mantissa and replaces the scale, which divides the value by a power of ten.
      Fails when the new scale is above the limit. */
  function SetScale(d: Decimal, s: nat): (r: Option<Decimal>)
    ensures r.Some? <==> s <= MAX_PRECISION
    ensures r.Some? ==> r.value.mantissa == d.mantissa && r.value.scale == s
  {
    if s > MAX_PRECISION then None else Some(Decimal(d.mantissa, s))
  }

  /** Rescaling to a larger scale divides the value by the power of ten between the two
      scales: the new value times 10^(s − old scale) is the old value. */
  lemma SetScaleDivides(d: Decimal, s: nat)
    requires d.scale <= s <= MAX_PRECISION
    ensures SetScale(d, s).Some?
    ensures Scaled(SetScale(d, s).value, s) * Pow10(s - d.scale) == Scaled(d, s)
  {
    assert Pow10(0) == 1;
  }

  /** The value of `d` times 10^s, exactly, for any `s` no smaller than `d`'s scale. */
  function Scaled(d: Decimal, s: nat): int
    requires d.scale <= s
  {
    d.mantissa * Pow10(s - d.scale)
  }

  lemma ScaledRescale(d: Decimal, m: nat, s: nat)
    requires d.scale <= m <= s
    ensures Scaled(d, m) * Pow10(s - m) == Scaled(d, s)
  {
    Pow10Add(m - d.scale, s - m);
    assert s - d.scale == (m - d.scale) + (s - m);
  }

  /** Subtraction aligns both operands to the larger scale and is exact there. */
  function Sub(a: Decimal, b: Decimal): Decimal {
    var s := Max(a.scale, b.scale);
    Decimal(Scaled(a, s) - Scaled(b, s), s)
  }

  /** Comparison by value. */
  predicate Less(a: Decimal, b: Decimal) {
    var s := Max(a.scale, b.scale);
    Scaled(a, s) < Scaled(b, s)
  }

  /** Subtraction loses nothing: measured at any scale that both operands fit, the difference of
      the values is the value of the difference. */
  lemma SubIsExact(a: Decimal, b: Decimal, s: nat)
    requires a.scale <= s && b.scale <= s
    ensures Sub(a, b).scale <= s
    ensures Scaled(Sub(a, b), s) == Scaled(a, s) - Scaled(b, s)
  {
    var m := Max(a.scale, b.scale);
    ScaledRescale(a, m, s);
    ScaledRescale(b, m, s);
    calc {
      Scaled(Sub(a, b), s);
      (Scaled(a, m) - Scaled(b, m)) * Pow10(s - m);
      Scaled(a, m) * Pow10(s - m) - Scaled(b, m) * Pow10(s - m);
    }
  }

  /** Conversion to an unsigned 64-bit integer: the value truncated toward zero, or nothing
      when the value is negative or the truncated value does not fit in 64 bits. */
  function ToU64(d: Decimal): (r: Option<U64>)
    ensures r.Some? ==> r.value * Pow10(d.scale) <= d.mantissa < (r.value + 1) * Pow10(d.scale)
    ensures r.None? <==> d.mantissa < 0 || d.mantissa >= (U64_MAX + 1) * Pow10(d.scale)
  {
    if d.mantissa < 0 then None
    else
      var p := Pow10(d.scale);
      var q := d.mantissa / p;
      DivBounds(d.mantissa, p);
      if q <= U64_MAX then
        MulMonotone(q + 1, U64_MAX + 1, p);
        Some(q)
      else
        MulMonotone(U64_MAX + 1, q, p);
        None
  }

  /** Truncation is determined by its bounds: the `q` with q·10^scale ≤ mantissa < (q+1)·10^scale
      is what `ToU64` returns. */
  lemma ToU64Exact(d: Decimal, q: U64)
    requires q * Pow10(d.scale) <= d.mantissa < (q + 1) * Pow10(d.scale)
    ensures ToU64(d) == Some(q)
  {
    var p := Pow10(d.scale);
    MulMonotone(0, q, p);
    MulMonotone(q + 1, U64_MAX + 1, p);
    var r := ToU64(d).value;
    if r > q {
      MulMonotone(q + 1, r, p);
    } else if r < q {
      MulMonotone(r + 1, q, p);
    }
  }

  /** A value below zero at some scale has a negative mantissa and no `u64` conversion. */
  lemma NegativeHasNoU64(d: Decimal, s: nat)
    requires d.scale <= s && Scaled(d, s) < 0
    ensures ToU64(d) == None
  {
    if d.mantissa >= 0 {
      MulMonotone(0, d.mantissa, Pow10(s - d.scale));
    }
  }

  lemma MulMonotone(a: int, b: int, p: nat)
    requires a <= b
    ensures a * p <= b * p
  {
  }

  lemma DivBounds(m: nat, p: nat)
    requires p >= 1
    ensures (m / p) * p <= m < (m / p + 1) * p
    ensures forall k: int :: k * p <= m ==> k <= m / p
  {
    assert m == (m / p) * p + m % p;
    forall k: int | k * p <= m ensures k <= m / p {
      if k > m / p {
        MulMonotone(m / p + 1, k, p);
      }
    }
  }
}
