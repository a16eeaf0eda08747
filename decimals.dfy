/** Decimal availabilities and their quantization to two places.

    An availability is stored in a `decimal(3, 2)` column, so the model
    keeps it as a whole number of hundredths (0.75 is 75). A value the
    client submits may have any number of places; Python's
    `Decimal.quantize(Decimal('0.01'))` rounds it with the default context,
    whose rounding mode is ROUND_HALF_EVEN. */
module Decimals {

  /** A finite decimal `digits × 10^-places`, as a `Decimal` holds it. */
  datatype Dec = Dec(digits: int, places: nat)

  function Pow10(n: nat): (p: int)
    ensures p >= 1
  {
    if n == 0 then 1 else 10 * Pow10(n - 1)
  }

  function Abs(x: int): (a: int)
    ensures a >= 0 && (a == x || a == -x)
  {
    if x < 0 then -x else x
  }

  lemma Pow10Hundred(p: nat)
    requires p >= 2
    ensures Pow10(p) == 100 * Pow10(p - 2)
  {
    assert Pow10(p) == 10 * Pow10(p - 1);
    assert Pow10(p - 1) == 10 * Pow10(p - 2);
  }

  /** `n / d` rounded to the nearest whole number; a tie goes to the even
      neighbour. `/` and `%` are floor division here, which for a positive
      divisor is what makes the rule symmetric about zero. */
  function RoundHalfEven(n: int, d: int): (q: int)
    requires d > 0
    ensures n / d <= q <= n / d + 1
  {
    var f, r := n / d, n % d;
    if 2 * r > d then f + 1
    else if 2 * r < d then f
    else if f % 2 == 0 then f
    else f + 1
  }

  /** The rounded quotient is within half a unit of the exact one, exact
      when `d` divides `n`, and even on a tie. */
  lemma RoundHalfEvenNearest(n: int, d: int)
    requires d > 0
    ensures 2 * Abs(RoundHalfEven(n, d) * d - n) <= d
    ensures n % d == 0 ==> RoundHalfEven(n, d) * d == n
    ensures 2 * Abs(RoundHalfEven(n, d) * d - n) == d ==> RoundHalfEven(n, d) % 2 == 0
  {
    var f, r := n / d, n % d;
    assert n == f * d + r;
    var q := RoundHalfEven(n, d);
    if 2 * r > d {
      assert q * d - n == d - r;
    } else if 2 * r < d {
      assert q * d - n == -r;
    } else if f % 2 == 0 {
      assert q * d - n == -r;
    } else {
      assert q * d - n == d - r;
    }
  }

  /** Scaling by, or dividing by, a positive number keeps the sign. */
  lemma ScaleSign(n: int, p: int)
    requires p >= 1
    ensures n >= 0 ==> n * p >= 0 && n / p >= 0
    ensures n < 0 ==> n * p < 0 && n / p < 0
  {
  }

  /** `value.quantize(TWOPLACES)`, in hundredths. Quantizing keeps the
      sign of the value. */
  function Quantize(x: Dec): (h: int)
    ensures x.digits >= 0 ==> h >= 0
    ensures x.digits <= 0 ==> h <= 0
  {
    if x.places <= 2 then
      ScaleSign(x.digits, Pow10(2 - x.places));
      x.digits * Pow10(2 - x.places)
    else
      ScaleSign(x.digits, Pow10(x.places - 2));
      RoundHalfEven(x.digits, Pow10(x.places - 2))
  }

  lemma SmallPowers()
    ensures Pow10(0) == 1 && Pow10(1) == 10 && Pow10(2) == 100
  {
    assert Pow10(1) == 10 * Pow10(0);
    assert Pow10(2) == 10 * Pow10(1);
  }

  /** A value with two places or fewer is scaled up, not rounded. */
  lemma QuantizeExact(x: Dec)
    requires x.places <= 2
    ensures Quantize(x) * Pow10(x.places) == 100 * x.digits
  {
    SmallPowers();
    var n := x.digits;
    if x.places == 0 {
      assert Quantize(x) == n * 100;
    } else if x.places == 1 {
      assert Quantize(x) == n * 10;
    } else {
      assert Quantize(x) == n;
    }
  }

  /** The distance to the exact value, in units of `10^-places`, is 100
      times the rounding error of the quotient by `10^(places - 2)`. */
  lemma QuantizeError(x: Dec)
    requires x.places > 2
    ensures Quantize(x) * Pow10(x.places) - 100 * x.digits ==
              100 * (Quantize(x) * Pow10(x.places - 2) - x.digits)
  {
    Pow10Hundred(x.places);
    var h, d := Quantize(x), Pow10(x.places - 2);
    assert h * (100 * d) == 100 * (h * d);
  }

  /** Quantizing moves a value by at most half a hundredth, leaves a value
      that already has two places or fewer exactly as it is, and breaks a
      tie towards an even number of hundredths. */
  lemma QuantizeNearest(x: Dec)
    ensures 2 * Abs(Quantize(x) * Pow10(x.places) - 100 * x.digits) <= Pow10(x.places)
    ensures x.places <= 2 ==> Quantize(x) * Pow10(x.places) == 100 * x.digits
    ensures 2 * Abs(Quantize(x) * Pow10(x.places) - 100 * x.digits) == Pow10(x.places) ==>
              Quantize(x) % 2 == 0
  {
    var p := x.places;
    if p <= 2 {
      QuantizeExact(x);
    } else {
      var d := Pow10(p - 2);
      RoundHalfEvenNearest(x.digits, d);
      QuantizeError(x);
      Pow10Hundred(p);
      var y := Quantize(x) * d - x.digits;
      assert Abs(100 * y) == 100 * Abs(y);
    }
  }

  /** Floor division of a value between 0 and `100 * d` by `d`. */
  lemma DivHundred(n: int, d: int)
    requires d > 0 && 0 <= n <= 100 * d
    ensures 0 <= n / d <= 100
    ensures n / d == 100 ==> n % d == 0
  {
    var f, r := n / d, n % d;
    assert n == f * d + r && 0 <= r < d;
    if f == 100 {
      assert f * d == 100 * d;
    }
  }

  /** A submitted value between 0 and 1 inclusive quantizes to between 0
      and 100 hundredths, so the store's range check does not reject it. */
  lemma QuantizeUnitInterval(x: Dec)
    requires 0 <= x.digits <= Pow10(x.places)
    ensures 0 <= Quantize(x) <= 100
  {
    var n, p := x.digits, x.places;
    if p <= 2 {
      SmallPowers();
      if p == 0 {
        assert Quantize(x) == n * 100;
      } else if p == 1 {
        assert Quantize(x) == n * 10;
      } else {
        assert Quantize(x) == n;
      }
    } else {
      var d := Pow10(p - 2);
      Pow10Hundred(p);
      DivHundred(n, d);
    }
  }
}
