/** Minimum prices and margins in whole micro-dollars (packages/pricing/src/index.ts). */
module Margin {
  import opened Outcomes

  datatype Rational = Rational(numerator: int, denominator: int)

  const TARGET_MARGIN := Rational(70, 100)
  const MINIMUM_ACCEPTED_MARGIN := Rational(60, 100)

  datatype PricingError = MarginTooHigh | PriceNotPositive

  // ---- JavaScript's integer arithmetic ----

  function Abs(a: int): nat { if a < 0 then -a else a }

  /** `a % b`: the remainder takes the sign of the dividend. */
  function JsRem(a: int, b: int): (r: int)
    requires b != 0
    ensures Abs(r) < Abs(b)
  {
    if a < 0 then -(Abs(a) % Abs(b)) else a % Abs(b)
  }

  function CeilDiv(a: int, b: int): int
    requires b > 0
  {
    -((-a) / b)
  }

  function Gcd(a: int, b: int): int
    decreases Abs(b)
  {
    if b == 0 then a else Gcd(b, JsRem(a, b))
  }

  lemma NegatedProducts(m: int, b: int)
    ensures m * -b == -(m * b) && -m * b == -(m * b)
  {
  }

  lemma JsRemQuotient(a: int, b: int) returns (q: int)
    requires b != 0
    ensures a == q * b + JsRem(a, b)
  {
    var m, r := Abs(a) / Abs(b), Abs(a) % Abs(b);
    assert Abs(a) == Abs(b) * m + r;
    NegatedProducts(m, b);
    q := if (a < 0) == (b < 0) then m else -m;
  }

  lemma CommonFactor(g: int, q: int, u: int, v: int)
    ensures q * (g * u) + g * v == g * (q * u + v)
  {
  }

  /** The two numbers are multiples of what `gcd` returns, which is not zero. */
  lemma {:induction false} GcdDivides(a: int, b: int) returns (x: int, y: int)
    requires a != 0 || b != 0
    ensures Gcd(a, b) != 0
    ensures a == Gcd(a, b) * x && b == Gcd(a, b) * y
    decreases Abs(b)
  {
    if b == 0 {
      x, y := 1, 0;
    } else {
      var q := JsRemQuotient(a, b);
      var u, v := GcdDivides(b, JsRem(a, b));
      var g := Gcd(a, b);
      x, y := q * u + v, u;
      CommonFactor(g, q, u, v);
    }
  }

  lemma {:induction false} GcdPositive(a: nat, b: nat)
    requires a > 0 || b > 0
    ensures Gcd(a, b) > 0
    decreases b
  {
    if b > 0 { GcdPositive(b, JsRem(a, b)); }
  }

  // ---- The functions ----

  function ComputeMinimumPriceMicro(cost: int, margin: Rational): Result<int, PricingError> {
    if margin.numerator >= margin.denominator then Failure(MarginTooHigh)
    else Success(CeilDiv(cost * margin.denominator, margin.denominator - margin.numerator))
  }

  function ComputeMarginMicro(price: int, cost: int): Result<Rational, PricingError> {
    if price <= 0 then Failure(PriceNotPositive)
    else
      var g := Gcd(price - cost, price);
      GcdNonZero(price - cost, price);
      Success(Rational((price - cost) / g, price / g))
  }

  lemma GcdNonZero(a: int, b: int)
    requires a != 0 || b != 0
    ensures Gcd(a, b) != 0
  {
    var x, y := GcdDivides(a, b);
  }

  predicate ValidateMargin(margin: Rational, minimum: Rational) {
    margin.numerator * minimum.denominator >= minimum.numerator * margin.denominator
  }

  // ---- The least acceptable price ----

  lemma Distributes(g: int, x: int, y: int)
    ensures g * (x - y) == g * x - g * y
  {
  }

  lemma NonNegativeProduct(a: nat, b: nat)
    ensures a * b >= 0
  {
  }

  lemma ProductSigns(g: int, x: int)
    requires g < 0
    ensures x > 0 ==> g * x <= g
    ensures x < 0 ==> g * x >= -g
    ensures x == 0 ==> g * x == 0
  {
    if x > 0 {
      NonNegativeProduct(-g, x - 1);
      Distributes(-g, x, 1);
      NegatedProducts(g, x);
    } else if x < 0 {
      NonNegativeProduct(-g, -x - 1);
      Distributes(-g, -x, 1);
      NegatedProducts(g, -x);
      NegatedProducts(g, x);
    }
  }

  lemma ExactQuotient(g: int, x: int)
    requires g != 0
    ensures (g * x) / g == x
  {
    var q, r := (g * x) / g, (g * x) % g;
    assert g * x == g * q + r && 0 <= r < Abs(g);
    var k := x - q;
    Distributes(g, x, q);
    ProductSigns(if g < 0 then g else -g, k);
    NegatedProducts(g, k);
  }

  /** The reduced margin is the unreduced one. */
  lemma MarginReduces(price: int, cost: int) returns (g: int, m: Rational)
    requires price > 0
    ensures ComputeMarginMicro(price, cost) == Success(m) && g == Gcd(price - cost, price) != 0
    ensures price - cost == g * m.numerator && price == g * m.denominator
  {
    var x, y := GcdDivides(price - cost, price);
    g := Gcd(price - cost, price);
    ExactQuotient(g, x);
    ExactQuotient(g, y);
    m := Rational(x, y);
  }

  lemma CeilDivLeast(a: int, b: int, p: int)
    requires b > 0
    ensures p >= CeilDiv(a, b) <==> p * b >= a
  {
    var q, r := (-a) / b, (-a) % b;
    assert -a == b * q + r && 0 <= r < b;
    if p >= -q {
      assert p * b >= -q * b;
    } else {
      assert (p + 1) * b <= -q * b;
    }
  }

  lemma ScaleComparison(g: int, a: int, b: int)
    requires g > 0
    ensures g * a >= g * b <==> a >= b
  {
    if a >= b { assert g * (a - b) >= 0; } else { assert g * (b - a) > 0; }
  }

  /** Comparing the reduced margin is comparing the unreduced one, when the common
      divisor is positive. */
  lemma ValidExactlyUnreduced(price: int, cost: int, minimum: Rational)
    requires price > 0 && Gcd(price - cost, price) > 0
    ensures ValidateMargin(ComputeMarginMicro(price, cost).value, minimum) <==>
            (price - cost) * minimum.denominator >= minimum.numerator * price
  {
    var g, m := MarginReduces(price, cost);
    var n, d := minimum.numerator, minimum.denominator;
    ScaleComparison(g, m.numerator * d, n * m.denominator);
    assert g * (m.numerator * d) == (price - cost) * d;
    assert g * (n * m.denominator) == n * price;
  }

  lemma PriceCoversExactly(price: int, cost: int, minimum: Rational)
    requires 0 <= minimum.numerator < minimum.denominator
    ensures price >= ComputeMinimumPriceMicro(cost, minimum).value <==>
            (price - cost) * minimum.denominator >= minimum.numerator * price
  {
    var n, d := minimum.numerator, minimum.denominator;
    CeilDivLeast(cost * d, d - n, price);
    assert price * (d - n) - cost * d == (price - cost) * d - n * price;
  }

  /** The computed minimum is the least price whose margin is accepted. */
  lemma LeastAcceptablePrice(price: int, cost: int, minimum: Rational)
    requires 0 <= minimum.numerator < minimum.denominator
    requires 0 <= cost <= price && price > 0
    ensures ValidateMargin(ComputeMarginMicro(price, cost).value, minimum) <==>
            price >= ComputeMinimumPriceMicro(cost, minimum).value
  {
    GcdPositive(price - cost, price);
    ValidExactlyUnreduced(price, cost, minimum);
    PriceCoversExactly(price, cost, minimum);
  }

  // ---- The sign of the divisor ----

  /** The number of steps of Euclid's algorithm on two naturals. */
  function EuclidSteps(a: nat, b: nat): nat
    decreases b
  {
    if b == 0 then 0 else 1 + EuclidSteps(b, a % b)
  }

  lemma {:induction false} SignAlternates(a: nat, b: nat)
    requires a > 0 || b > 0
    ensures a > 0 ==> (Gcd(0 - a, b) > 0 <==> EuclidSteps(a, b) % 2 == 1)
    ensures b > 0 ==> (Gcd(a, 0 - b) > 0 <==> EuclidSteps(a, b) % 2 == 0)
    decreases b
  {
    if b > 0 {
      SignAlternates(b, a % b);
      assert a > 0 ==> JsRem(0 - a, b) == -(a % b);
      assert JsRem(a, 0 - b) == a % b;
    }
  }

  /** Whether the margin of this price and cost comes out with the right signs: it does
      unless there is a loss that Euclid's algorithm reduces in an even number of steps. */
  predicate SignsHold(price: int, cost: int)
    requires price > 0
  {
    cost <= price || EuclidSteps(cost - price, price) % 2 == 1
  }

  lemma DivisorPositiveExactly(price: int, cost: int)
    requires price > 0 && cost >= 0
    ensures Gcd(price - cost, price) > 0 <==> SignsHold(price, cost)
  {
    if cost <= price {
      GcdPositive(price - cost, price);
    } else {
      SignAlternates(cost - price, price);
    }
  }

  lemma LossIsNeverEnough(price: int, cost: int, minimum: Rational)
    requires 0 <= minimum.numerator < minimum.denominator && 0 < price < cost
    ensures price < ComputeMinimumPriceMicro(cost, minimum).value
  {
    PriceCoversExactly(price, cost, minimum);
    assert (price - cost) * minimum.denominator < 0;
    assert minimum.numerator * price >= 0;
  }

  lemma NegativeDivisorAccepts(price: int, cost: int, minimum: Rational)
    requires 0 <= minimum.numerator < minimum.denominator && 0 < price < cost
    requires Gcd(price - cost, price) < 0
    ensures ValidateMargin(ComputeMarginMicro(price, cost).value, minimum)
  {
    var g, m := MarginReduces(price, cost);
    ProductSigns(g, m.denominator);
    ProductSigns(g, m.numerator);
    assert m.numerator * minimum.denominator > 0;
    assert minimum.numerator * m.denominator <= 0;
  }

  /** For every positive price and every cost, also one above the price: the margin check
      agrees with the minimum price exactly when the signs hold. */
  lemma MarginCheckRightExactly(price: int, cost: int, minimum: Rational)
    requires 0 <= minimum.numerator < minimum.denominator
    requires 0 <= cost && price > 0
    ensures (ValidateMargin(ComputeMarginMicro(price, cost).value, minimum) <==>
             price >= ComputeMinimumPriceMicro(cost, minimum).value)
       <==> SignsHold(price, cost)
  {
    GcdNonZero(price - cost, price);
    DivisorPositiveExactly(price, cost);
    if SignsHold(price, cost) {
      ValidExactlyUnreduced(price, cost, minimum);
      PriceCoversExactly(price, cost, minimum);
    } else {
      LossIsNeverEnough(price, cost, minimum);
      NegativeDivisorAccepts(price, cost, minimum);
    }
  }

  /** A price computed for the target margin passes the check with the accepted minimum. */
  lemma TargetPriceIsAccepted(cost: int)
    requires cost > 0
    ensures var price := ComputeMinimumPriceMicro(cost, TARGET_MARGIN).value;
            price > 0 && ValidateMargin(ComputeMarginMicro(price, cost).value, MINIMUM_ACCEPTED_MARGIN)
    ensures var price := ComputeMinimumPriceMicro(cost, TARGET_MARGIN).value;
            100 * (price - cost) >= 70 * price && 100 * (price - 1 - cost) < 70 * (price - 1)
  {
    var price := ComputeMinimumPriceMicro(cost, TARGET_MARGIN).value;
    CeilDivLeast(cost * 100, 30, price);
    CeilDivLeast(cost * 100, 40, price);
    CeilDivLeast(cost * 100, 30, price - 1);
    assert price * 30 >= cost * 100;
    LeastAcceptablePrice(price, cost, MINIMUM_ACCEPTED_MARGIN);
  }

  /** A price without a loss is accepted exactly when cost is at most four tenths of it. */
  lemma AcceptedAtFourTenths(price: int, cost: int)
    requires 0 <= cost <= price && price > 0
    ensures ValidateMargin(ComputeMarginMicro(price, cost).value, MINIMUM_ACCEPTED_MARGIN) <==> 10 * cost <= 4 * price
  {
    GcdPositive(price - cost, price);
    ValidExactlyUnreduced(price, cost, MINIMUM_ACCEPTED_MARGIN);
  }

  lemma GcdStep(a: int, b: int)
    requires b != 0
    ensures Gcd(a, b) == Gcd(b, JsRem(a, b))
  {
  }

  lemma SmallRemainder(a: nat, b: nat)
    requires a < b
    ensures a % b == a
  {
  }

  /** The failing side is not empty: a loss that divides the price flips the signs, and a
      price below cost is accepted. */
  lemma DividingLossIsAccepted(price: int, loss: int, minimum: Rational)
    requires 0 <= minimum.numerator < minimum.denominator
    requires 0 < loss < price && price % loss == 0
    ensures ValidateMargin(ComputeMarginMicro(price, price + loss).value, minimum)
  {
    assert JsRem(-loss, price) == -loss by { SmallRemainder(loss, price); }
    assert JsRem(price, -loss) == 0;
    GcdStep(-loss, price);
    GcdStep(price, -loss);
    NegativeDivisorAccepts(price, price + loss, minimum);
  }

  lemma LossAtPriceThree()
    ensures ComputeMarginMicro(3, 4) == Success(Rational(1, -3))
    ensures ValidateMargin(Rational(1, -3), MINIMUM_ACCEPTED_MARGIN)
  {
    assert JsRem(-1, 3) == -1 && JsRem(3, -1) == 0;
    assert Gcd(-1, 3) == Gcd(3, -1) == Gcd(-1, 0) == -1;
  }
}
