/** Decimal dollar strings and whole micro-dollars
    (packages/pricing/src/index.ts and service-prices.ts). */
module MicroUsd {
  import opened Decimal

  const MICRO_USD_PER_USD: nat := 1_000_000

  /** The part of a string before its first `stop`. */
  function Before(s: string, stop: char): (r: string)
    ensures |r| <= |s| && r == s[..|r|]
    ensures |r| < |s| ==> s[|r|] == stop
    ensures stop !in r
  {
    if s == "" || s[0] == stop then "" else [s[0]] + Before(s[1..], stop)
  }

  lemma {:induction false} BeforeAt(a: string, stop: char, b: string)
    requires stop !in a
    ensures Before(a + [stop] + b, stop) == a
  {
    if a == "" {
      assert a + [stop] + b == [stop] + b;
    } else {
      assert (a + [stop] + b)[1..] == a[1..] + [stop] + b;
      BeforeAt(a[1..], stop, b);
    }
  }

  lemma {:induction false} BeforeAll(a: string, stop: char)
    requires stop !in a
    ensures Before(a, stop) == a
  {
    if a != "" { BeforeAll(a[1..], stop); }
  }

  function Whole(usd: string): string { Before(usd, '.') }

  /** The part after the first point, up to a second one. */
  function Fraction(usd: string): string {
    var n := |Whole(usd)|;
    if n == |usd| then "" else Before(usd[n + 1..], '.')
  }

  /** A digit string with an optional fraction. */
  predicate IsUsd(usd: string) {
    && Whole(usd) != "" && AllDigits(Whole(usd)) && AllDigits(Fraction(usd))
    && (usd == Whole(usd) || usd == Whole(usd) + "." + Fraction(usd))
  }

  /** The fraction, padded with zeros or cut to six digits. */
  function SixDigits(fraction: string): (r: string)
    ensures |r| == 6
    ensures AllDigits(fraction) ==> AllDigits(r)
  {
    (fraction + Zeros(6))[..6]
  }

  function UsdToMicro(usd: string): nat
    requires IsUsd(usd)
  {
    Value(Whole(usd)) * MICRO_USD_PER_USD + Value(SixDigits(Fraction(usd)))
  }

  function PadStart(s: string, n: nat): string {
    if |s| >= n then s else Zeros(n - |s|) + s
  }

  function MicroToUsd(micro: nat): string {
    Print(micro / MICRO_USD_PER_USD) + "." + PadStart(Print(micro % MICRO_USD_PER_USD), 6)
  }

  // ---- Reading back what was printed ----

  lemma {:induction false} PrintLength(n: nat, k: nat)
    requires k > 0 && n < Pow10(k)
    ensures |Print(n)| <= k
  {
    if n >= 10 {
      assert k > 1 by { assert Pow10(1) == 10 * Pow10(0) == 10; }
      PrintLength(n / 10, k - 1);
    }
  }

  lemma PaddedValue(s: string, n: nat)
    requires AllDigits(s) && |s| <= n
    ensures |PadStart(s, n)| == n && AllDigits(PadStart(s, n)) && Value(PadStart(s, n)) == Value(s)
  {
    if |s| < n { ValueOfConcat(Zeros(n - |s|), s); }
  }

  lemma NoPoint(s: string)
    requires AllDigits(s)
    ensures '.' !in s
  {
  }

  lemma PartsOf(whole: string, fraction: string)
    requires whole != "" && AllDigits(whole) && AllDigits(fraction)
    ensures var usd := whole + "." + fraction; Whole(usd) == whole && Fraction(usd) == fraction && IsUsd(usd)
  {
    var usd := whole + "." + fraction;
    NoPoint(whole);
    NoPoint(fraction);
    BeforeAt(whole, '.', fraction);
    assert usd[|whole| + 1..] == fraction;
    BeforeAll(fraction, '.');
  }

  lemma MicroOfParts(whole: string, fraction: string)
    requires whole != "" && AllDigits(whole) && AllDigits(fraction)
    ensures IsUsd(whole + "." + fraction)
    ensures UsdToMicro(whole + "." + fraction) == Value(whole) * MICRO_USD_PER_USD + Value(SixDigits(fraction))
  {
    PartsOf(whole, fraction);
  }

  lemma SixIsMillion()
    ensures Pow10(6) == MICRO_USD_PER_USD
  {
    assert Pow10(3) == 10 * Pow10(2) == 100 * Pow10(1) == 1000;
    Pow10Adds(3, 3);
  }

  lemma SixDigitsOfSix(fraction: string)
    requires |fraction| == 6
    ensures SixDigits(fraction) == fraction
  {
  }

  /** Printing an amount and reading it back gives the amount. */
  lemma MicroRoundTrip(micro: nat)
    ensures IsUsd(MicroToUsd(micro)) && UsdToMicro(MicroToUsd(micro)) == micro
  {
    var whole, rest := micro / MICRO_USD_PER_USD, micro % MICRO_USD_PER_USD;
    var fraction := PadStart(Print(rest), 6);
    SixIsMillion();
    PrintLength(rest, 6);
    PaddedValue(Print(rest), 6);
    PartsOf(Print(whole), fraction);
    SixDigitsOfSix(fraction);
    ValueOfPrint(whole);
    ValueOfPrint(rest);
  }

  // ---- Reading any amount ----

  lemma ZerosPrefix(n: nat, k: nat)
    requires k <= n
    ensures Zeros(n)[..k] == Zeros(k)
  {
    assert forall i | 0 <= i < k :: Zeros(n)[..k][i] == Zeros(k)[i];
  }

  lemma PaddedFraction(fraction: string, k: nat)
    requires AllDigits(fraction) && |fraction| + k == 6
    ensures Value(SixDigits(fraction)) == Value(fraction) * Pow10(k)
  {
    SixDigitsPadded(fraction, k);
    ValueOfPadded(fraction, k);
  }

  lemma ValueOfPadded(s: string, k: nat)
    requires AllDigits(s)
    ensures AllDigits(s + Zeros(k)) && Value(s + Zeros(k)) == Value(s) * Pow10(k)
  {
    ValueOfConcat(s, Zeros(k));
  }

  lemma SixDigitsPadded(fraction: string, k: nat)
    requires |fraction| + k == 6
    ensures SixDigits(fraction) == fraction + Zeros(k)
  {
    ZerosPrefix(6, k);
    TakeConcat(fraction, Zeros(6), 6);
  }

  lemma TakeConcat(a: string, b: string, n: nat)
    requires |a| <= n <= |a| + |b|
    ensures (a + b)[..n] == a + b[..n - |a|]
  {
  }

  /** `f` is the floor of `n / d`. */
  predicate IsFloor(f: nat, n: nat, d: nat) { f * d <= n < (f + 1) * d }

  lemma ShortFraction(fraction: string, n: nat)
    requires AllDigits(fraction) && |fraction| <= 6 && n == Value(fraction) * MICRO_USD_PER_USD
    ensures IsFloor(Value(SixDigits(fraction)), n, Pow10(|fraction|))
  {
    var k := 6 - |fraction|;
    PaddedFraction(fraction, k);
    Pow10Adds(k, |fraction|);
    assert k + |fraction| == 6;
    SixIsMillion();
    ScaledExactly(Value(fraction), Pow10(k), Pow10(|fraction|), MICRO_USD_PER_USD, Value(SixDigits(fraction)), n);
  }

  lemma ScaledExactly(a: nat, b: nat, c: nat, m: nat, f: nat, n: nat)
    requires b * c == m && c > 0 && f == a * b && n == a * m
    ensures IsFloor(f, n, c)
  {
    Reassociate(a, b, c);
    assert (f + 1) * c == f * c + c;
  }

  lemma Reassociate(a: nat, b: nat, c: nat)
    ensures (a * b) * c == a * (b * c)
  {
  }

  lemma LongFraction(fraction: string, n: nat)
    requires AllDigits(fraction) && |fraction| > 6 && n == Value(fraction) * MICRO_USD_PER_USD
    ensures IsFloor(Value(SixDigits(fraction)), n, Pow10(|fraction|))
  {
    var head, tail := fraction[..6], fraction[6..];
    assert SixDigits(fraction) == head && fraction == head + tail;
    ValueOfConcat(head, tail);
    ValueBounded(tail);
    Pow10Adds(|tail|, 6);
    SixIsMillion();
    SqueezeInto(Value(head), Value(tail), Pow10(|tail|), MICRO_USD_PER_USD, Pow10(|fraction|), n);
  }

  lemma SqueezeInto(h: nat, t: nat, q: nat, m: nat, p: nat, n: nat)
    requires t < q && m > 0 && p == q * m && n == (h * q + t) * m
    ensures IsFloor(h, n, p)
  {
    Squeeze(h, t, q, m);
  }

  lemma Squeeze(h: nat, t: nat, q: nat, m: nat)
    requires t < q && m > 0
    ensures h * (q * m) <= (h * q + t) * m < (h + 1) * (q * m)
  {
    Reassociate(h, q, m);
    assert (h * q + t) * m == h * q * m + t * m;
    assert t * m >= 0;
    assert (q - t) * m > 0;
    assert (q - t) * m == q * m - t * m;
    assert (h + 1) * (q * m) == h * (q * m) + q * m;
  }

  lemma ProductMonotone(a: nat, b: nat, d: nat)
    requires a <= b
    ensures a * d <= b * d
  {
  }

  lemma FloorUnique(n: nat, d: nat, f: nat, g: nat)
    requires IsFloor(f, n, d) && IsFloor(g, n, d)
    ensures f == g
  {
    if f < g { ProductMonotone(f + 1, g, d); }
    if g < f { ProductMonotone(g + 1, f, d); }
  }

  /** `Math.floor(n / d)` */
  function Floor(n: nat, d: nat): (f: nat)
    requires d > 0
    ensures IsFloor(f, n, d)
  {
    DivisionBounds(n, d);
    n / d
  }

  lemma DivisionBounds(n: nat, d: nat)
    requires d > 0
    ensures n / d >= 0 && IsFloor(n / d, n, d)
  {
    assert n == d * (n / d) + n % d;
  }

  /** The digits of the amount without the point; with the number of fraction digits
      they give its exact value. */
  function Digits(usd: string): (d: string)
    requires IsUsd(usd)
    ensures AllDigits(d)
  {
    Whole(usd) + Fraction(usd)
  }

  /** Reading an amount gives the floor of its value times 10^6: digits beyond the
      sixth are dropped, never rounded. */
  lemma ReadingFloors(usd: string)
    requires IsUsd(usd)
    ensures UsdToMicro(usd) == Floor(Value(Digits(usd)) * MICRO_USD_PER_USD, Pow10(|Fraction(usd)|))
  {
    var whole, fraction := Whole(usd), Fraction(usd);
    var p, f, x := Pow10(|fraction|), Value(SixDigits(fraction)), Value(fraction);
    ValueOfConcat(whole, fraction);
    var n := x * MICRO_USD_PER_USD;
    if |fraction| <= 6 { ShortFraction(fraction, n); } else { LongFraction(fraction, n); }
    var d := Value(Digits(usd)) * MICRO_USD_PER_USD;
    AddWhole(Value(whole), x, f, p, MICRO_USD_PER_USD, n, d, UsdToMicro(usd));
    FloorUnique(d, p, UsdToMicro(usd), Floor(d, p));
  }

  lemma AddWhole(w: nat, x: nat, f: nat, p: nat, m: nat, n: nat, d: nat, u: nat)
    requires IsFloor(f, n, p) && n == x * m
    requires d == (w * p + x) * m && u == w * m + f
    ensures IsFloor(u, d, p)
  {
    assert u * p == w * m * p + f * p;
    assert (u + 1) * p == w * m * p + (f + 1) * p;
    assert d == w * p * m + x * m;
    assert w * p * m == w * m * p;
  }

  // ---- Atomic units of an asset ----

  /** Rescaling of whole micro-dollars to an asset with the given number of decimals. */
  function Rescale(micro: nat, decimals: int): (amount: nat)
    ensures decimals < 6 ==> IsFloor(amount, micro, Pow10(6 - decimals))
    ensures decimals >= 6 ==> amount == micro * Pow10(decimals - 6)
  {
    if decimals == 6 then micro
    else if decimals > 6 then
      ProductMonotone(0, micro, Pow10(decimals - 6));
      micro * Pow10(decimals - 6)
    else Floor(micro, Pow10(6 - decimals))
  }

  function UsdToAtomicUnits(usd: string, decimals: int): string
    requires IsUsd(usd)
  {
    Print(Rescale(UsdToMicro(usd), decimals))
  }

  /** The converted amount is never above the original, is less than one unit below it,
      and is exact when the asset has at least six decimals. */
  lemma AtomicUnitsNeverOverstate(usd: string, decimals: int)
    requires IsUsd(usd)
    ensures Canonical(UsdToAtomicUnits(usd, decimals))
    ensures var amount := Value(UsdToAtomicUnits(usd, decimals));
            if decimals >= 6 then amount == UsdToMicro(usd) * Pow10(decimals - 6)
            else IsFloor(amount, UsdToMicro(usd), Pow10(6 - decimals))
  {
    ValueOfPrint(Rescale(UsdToMicro(usd), decimals));
  }
}
