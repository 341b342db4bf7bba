/** The discount helper and the conversion of a discounted price to whole
    pennies.  Prices are exact rationals (`real`), so the model states what
    the helper computes without the artefacts of binary floating point. */
module Discount {

  /** The colleague discount: 15% off, i.e. a factor of 0.85. */
  const FlatFactor: real := 0.85

  /** The first step of `discounted_price`: the colleague discount. */
  function FlatStep(price: real, apply15: bool): real
  {
    if apply15 then price * FlatFactor else price
  }

  /** The second step: a further `extra`% off, only when `extra` is positive. */
  function ExtraStep(amount: real, extra: real): real
  {
    if extra > 0.0 then amount * (1.0 - extra / 100.0) else amount
  }

  /** `discounted_price`: the flat 15% first (when switched on), then, only
      when the extra percentage is positive, a further `extra`% off what is
      left.  The helper validates nothing; the settings panel keeps `extra`
      within [0, 100]. */
  function DiscountedPrice(price: real, apply15: bool, extra: real): (p: real)
    ensures !apply15 && extra <= 0.0 ==> p == price
    ensures 0.0 <= price && extra <= 100.0 ==> 0.0 <= p <= price
  {
    ExtraStepBounds(FlatStep(price, apply15), extra);
    ExtraStep(FlatStep(price, apply15), extra)
  }

  /** Taking `extra`% (at most 100) off a non-negative amount gives an amount
      between zero and the original. */
  lemma ExtraStepBounds(amount: real, extra: real)
    ensures 0.0 <= amount && extra <= 100.0 ==> 0.0 <= ExtraStep(amount, extra) <= amount
  {
    if 0.0 <= amount && 0.0 < extra <= 100.0 {
      var f := 1.0 - extra / 100.0;
      assert 0.0 <= f <= 1.0;
      assert amount * f <= amount * 1.0 by {
        assert amount * (1.0 - f) >= 0.0;
      }
    }
  }

  /** For every setting of the flat discount and every extra percentage of
      at least 0, the result is the price, scaled by the flat factor when it
      is on, then by the fraction left after `extra`%. */
  lemma DiscountClosedForm(price: real, apply15: bool, extra: real)
    requires 0.0 <= extra
    ensures DiscountedPrice(price, apply15, extra)
            == (if apply15 then price * 0.85 else price) * (1.0 - extra / 100.0)
  {
  }

  /** A larger extra percentage never yields a larger price
      (for non-negative prices). */
  lemma DiscountMonotone(price: real, apply15: bool, e1: real, e2: real)
    requires 0.0 <= price
    requires 0.0 <= e1 <= e2
    ensures DiscountedPrice(price, apply15, e2) <= DiscountedPrice(price, apply15, e1)
  {
    ExtraStepMonotone(FlatStep(price, apply15), e1, e2);
  }

  /** The extra-percentage step alone is antitone in the percentage. */
  lemma ExtraStepMonotone(a: real, e1: real, e2: real)
    requires 0.0 <= a && 0.0 <= e1 <= e2
    ensures ExtraStep(a, e2) <= ExtraStep(a, e1)
  {
    if e1 > 0.0 {
      var d := (e2 - e1) / 100.0;
      assert ExtraStep(a, e1) - ExtraStep(a, e2) == a * d;
      assert 0.0 <= a * d;
    } else if e2 > 0.0 {
      ExtraStepBounds(a, e2);
    }
  }

  /** The worked figures: 100.00 with the flat discount is 85.00, and a
      further 10% off gives 76.50; with neither it stays 100.00. */
  lemma DiscountExamples()
    ensures DiscountedPrice(100.0, true, 0.0) == 85.0
    ensures DiscountedPrice(100.0, true, 10.0) == 76.5
    ensures DiscountedPrice(100.0, false, 0.0) == 100.0
  {
  }

  /** Python's `round` on a number to an integer: the nearest integer, and
      on an exact tie the even one. */
  function RoundHalfEven(x: real): (r: int)
    ensures x - 0.5 <= r as real <= x + 0.5
    ensures (r as real - x == 0.5 || x - r as real == 0.5) ==> r % 2 == 0
    ensures 0.0 <= x ==> 0 <= r
  {
    var f := x.Floor;
    var frac := x - f as real;
    if frac < 0.5 then f
    else if frac > 0.5 then f + 1
    else if f % 2 == 0 then f
    else f + 1
  }

  /** The two properties of `RoundHalfEven` pin its result down: any integer
      within one half of `x`, even on a tie, is that result. */
  lemma RoundHalfEvenUnique(x: real, n: int)
    requires x - 0.5 <= n as real <= x + 0.5
    requires (n as real - x == 0.5 || x - n as real == 0.5) ==> n % 2 == 0
    ensures n == RoundHalfEven(x)
  {
  }

  /** `round(price * 100)`: a monetary amount in pounds to whole pennies. */
  function ToPennies(amount: real): (pennies: int)
    ensures amount * 100.0 - 0.5 <= pennies as real <= amount * 100.0 + 0.5
    ensures 0.0 <= amount ==> 0 <= pennies
  {
    RoundHalfEven(amount * 100.0)
  }

  /** An amount that is an exact number of pennies converts to exactly that
      number. */
  lemma ToPenniesExact(k: int)
    ensures ToPennies(k as real / 100.0) == k
  {
    assert (k as real / 100.0) * 100.0 == k as real;
    RoundHalfEvenUnique(k as real, k);
  }
}
