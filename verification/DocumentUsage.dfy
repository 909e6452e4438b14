/** Charges for documents (packages/pricing/src/document-usage.ts), and their acceptance by
    packages/protocol-nevermined/src/dynamic-settlement.ts. */
module DocumentUsage {
  import opened Outcomes
  import opened Decimal
  import opened MicroUsd

  datatype Page = Page(number: int, ocrUsed: bool, tableCount: int)

  datatype Tier = Native | Ocr | Table

  function TierForPage(page: Page): Tier {
    if page.tableCount > 0 then Table else if page.ocrUsed then Ocr else Native
  }

  datatype PricingKey = TierPrice(tier: Tier) | MaxJob

  /** The entries of the embedded price table that documents use: the digits that
      `String` prints after `0.`. */
  function PriceDigits(key: PricingKey): string {
    match key
    case TierPrice(Native) => "012"
    case TierPrice(Ocr) => "019"
    case TierPrice(Table) => "029"
    case MaxJob => "19"
  }

  function ResolveServiceMaxPriceUsd(key: PricingKey): string { "0" + "." + PriceDigits(key) }

  function PriceMicro(key: PricingKey): (price: nat)
    ensures price == match key case TierPrice(Native) => 12_000 case TierPrice(Ocr) => 19_000
                               case TierPrice(Table) => 29_000 case MaxJob => 190_000
  {
    if key == MaxJob then TwoDigitPrice(PriceDigits(key)); UsdToMicro(ResolveServiceMaxPriceUsd(key))
    else ThreeDigitPrice(PriceDigits(key)); UsdToMicro(ResolveServiceMaxPriceUsd(key))
  }

  lemma TwoDigits(f: string)
    requires |f| == 2 && AllDigits(f)
    ensures Value(f) == DigitValue(f[0]) * 10 + DigitValue(f[1])
  {
    assert f[..1][..0] == "";
    assert Value(f[..1]) == DigitValue(f[0]);
  }

  lemma SmallPowers()
    ensures Pow10(3) == 1_000 && Pow10(4) == 10_000
  {
    assert Pow10(2) == 10 * Pow10(1) == 100;
  }

  lemma ZeroWhole()
    ensures AllDigits("0") && Value("0") == 0
  {
    assert "0"[..0] == "";
  }

  lemma FractionOnly(f: string, k: nat)
    requires |f| + k == 6 && AllDigits(f)
    ensures IsUsd("0" + "." + f) && UsdToMicro("0" + "." + f) == Value(f) * Pow10(k)
  {
    ZeroWhole();
    MicroOfParts("0", f);
    PaddedFraction(f, k);
  }

  lemma ThreeDigitPrice(f: string)
    requires |f| == 3 && AllDigits(f)
    ensures IsUsd("0" + "." + f)
    ensures UsdToMicro("0" + "." + f) == (DigitValue(f[0]) * 100 + DigitValue(f[1]) * 10 + DigitValue(f[2])) * 1000
  {
    FractionOnly(f, 3);
    SmallPowers();
    TwoDigits(f[..2]);
  }

  lemma TwoDigitPrice(f: string)
    requires |f| == 2 && AllDigits(f)
    ensures IsUsd("0" + "." + f)
    ensures UsdToMicro("0" + "." + f) == (DigitValue(f[0]) * 10 + DigitValue(f[1])) * 10000
  {
    FractionOnly(f, 4);
    SmallPowers();
    TwoDigits(f);
  }

  // ---- The charge ----

  datatype PageCost = PageCost(number: int, tier: Tier, price: nat)

  datatype Calculation = Calculation(pageCosts: seq<PageCost>, subtotal: nat, maxJob: nat, total: nat, capped: bool)

  function CostOf(page: Page): PageCost {
    PageCost(page.number, TierForPage(page), PriceMicro(TierPrice(TierForPage(page))))
  }

  function Costs(pages: seq<Page>): seq<PageCost> {
    seq(|pages|, i requires 0 <= i < |pages| => CostOf(pages[i]))
  }

  /** The sum of the page prices, from the first page on. */
  function SumPrices(costs: seq<PageCost>): nat {
    if costs == [] then 0 else SumPrices(costs[..|costs| - 1]) + costs[|costs| - 1].price
  }

  function CalculateDocumentUsage(pages: seq<Page>): Calculation {
    var costs := Costs(pages);
    var subtotal, maxJob := SumPrices(costs), PriceMicro(MaxJob);
    Calculation(costs, subtotal, maxJob, if subtotal > maxJob then maxJob else subtotal, subtotal > maxJob)
  }

  function Total(pages: seq<Page>): nat { CalculateDocumentUsage(pages).total }

  // ---- What the charge depends on ----

  function Count(pages: seq<Page>, tier: Tier): nat {
    if pages == [] then 0
    else Count(pages[..|pages| - 1], tier) + (if TierForPage(pages[|pages| - 1]) == tier then 1 else 0)
  }

  /** The charge is the smaller of the cap and the sum over tiers of pages times price;
      it depends only on how many pages there are of each tier. */
  lemma ChargeByTier(pages: seq<Page>)
    ensures var sum := 12_000 * Count(pages, Native) + 19_000 * Count(pages, Ocr) + 29_000 * Count(pages, Table);
            && Total(pages) == (if sum > 190_000 then 190_000 else sum)
            && (CalculateDocumentUsage(pages).capped <==> sum > 190_000)
  {
    SubtotalByTier(pages);
  }

  /** The price of a tier, as a number. */
  function TierMicro(tier: Tier): nat {
    match tier
    case Native => 12_000
    case Ocr => 19_000
    case Table => 29_000
  }

  lemma TierMicroIsPrice(tier: Tier)
    ensures PriceMicro(TierPrice(tier)) == TierMicro(tier)
  {
  }

  lemma SubtotalStep(pages: seq<Page>)
    requires pages != []
    ensures SumPrices(Costs(pages))
            == SumPrices(Costs(pages[..|pages| - 1])) + TierMicro(TierForPage(pages[|pages| - 1]))
  {
    var n := |pages| - 1;
    assert Costs(pages)[..n] == Costs(pages[..n]);
    TierMicroIsPrice(TierForPage(pages[n]));
  }

  lemma {:induction false} SubtotalByTier(pages: seq<Page>)
    ensures SumPrices(Costs(pages))
         == 12_000 * Count(pages, Native) + 19_000 * Count(pages, Ocr) + 29_000 * Count(pages, Table)
  {
    if pages != [] {
      SubtotalByTier(pages[..|pages| - 1]);
      SubtotalStep(pages);
    }
  }

  // ---- The charge by what was found on the pages ----

  /** The cost of a page: tables decide first, then character recognition. */
  lemma CostByFields(page: Page)
    ensures CostOf(page).number == page.number
    ensures page.tableCount > 0 ==> CostOf(page).tier == Table && CostOf(page).price == 29_000
    ensures page.tableCount <= 0 && page.ocrUsed ==> CostOf(page).tier == Ocr && CostOf(page).price == 19_000
    ensures page.tableCount <= 0 && !page.ocrUsed ==> CostOf(page).tier == Native && CostOf(page).price == 12_000
  {
    TierMicroIsPrice(TierForPage(page));
  }

  ghost function Places(pages: seq<Page>, tier: Tier): set<int> {
    set i | 0 <= i < |pages| && TierForPage(pages[i]) == tier
  }

  lemma {:induction false} CountIsPlaces(pages: seq<Page>, tier: Tier)
    ensures Count(pages, tier) == |Places(pages, tier)|
  {
    if pages != [] {
      var n := |pages| - 1;
      CountIsPlaces(pages[..n], tier);
      var before := Places(pages[..n], tier);
      assert Places(pages, tier) == if TierForPage(pages[n]) == tier then before + {n} else before;
    }
  }

  lemma PlacesByFields(pages: seq<Page>)
    ensures Places(pages, Table) == set i | 0 <= i < |pages| && pages[i].tableCount > 0
    ensures Places(pages, Ocr) == set i | 0 <= i < |pages| && pages[i].tableCount <= 0 && pages[i].ocrUsed
    ensures Places(pages, Native) == set i | 0 <= i < |pages| && pages[i].tableCount <= 0 && !pages[i].ocrUsed
  {
  }

  /** The charge by how many pages have tables, have none but were recognised, and have
      neither; every page has its cost in the list, in page order. */
  lemma ChargeByFields(pages: seq<Page>)
    ensures var tables := |set i | 0 <= i < |pages| && pages[i].tableCount > 0|;
            var scans := |set i | 0 <= i < |pages| && pages[i].tableCount <= 0 && pages[i].ocrUsed|;
            var plain := |set i | 0 <= i < |pages| && pages[i].tableCount <= 0 && !pages[i].ocrUsed|;
            var sum := 29_000 * tables + 19_000 * scans + 12_000 * plain;
            && Total(pages) == (if sum > 190_000 then 190_000 else sum)
            && CalculateDocumentUsage(pages).subtotal == sum
            && (CalculateDocumentUsage(pages).capped <==> sum > 190_000)
    ensures CalculateDocumentUsage(pages).maxJob == 190_000
    ensures var costs := CalculateDocumentUsage(pages).pageCosts;
            |costs| == |pages| && forall i | 0 <= i < |pages| :: costs[i] == CostOf(pages[i])
  {
    SubtotalByTier(pages);
    PlacesByFields(pages);
    CountIsPlaces(pages, Table);
    CountIsPlaces(pages, Ocr);
    CountIsPlaces(pages, Native);
  }

  // ---- How the charge changes ----

  lemma {:induction false} CountConcat(a: seq<Page>, b: seq<Page>, tier: Tier)
    ensures Count(a + b, tier) == Count(a, tier) + Count(b, tier)
  {
    if b == [] {
      assert a + b == a;
    } else {
      assert (a + b)[..|a + b| - 1] == a + b[..|b| - 1];
      CountConcat(a, b[..|b| - 1], tier);
    }
  }

  lemma CountOne(page: Page, tier: Tier)
    ensures Count([page], tier) == if TierForPage(page) == tier then 1 else 0
  {
    assert [page][..0] == [];
  }

  lemma CountSplit(before: seq<Page>, page: Page, after: seq<Page>, tier: Tier)
    ensures Count(before + [page] + after, tier)
         == Count(before + after, tier) + (if TierForPage(page) == tier then 1 else 0)
  {
    CountConcat(before + [page], after, tier);
    CountConcat(before, [page], tier);
    CountConcat(before, after, tier);
    CountOne(page, tier);
  }

  lemma MatchingPage(a: seq<Page>, b: seq<Page>) returns (k: nat)
    requires a != [] && multiset(a) == multiset(b)
    ensures k < |b| && b == b[..k] + [a[|a| - 1]] + b[k + 1..]
    ensures multiset(b[..k] + b[k + 1..]) == multiset(a[..|a| - 1])
  {
    var page := a[|a| - 1];
    assert a == a[..|a| - 1] + [page];
    assert page in multiset(b);
    k :| 0 <= k < |b| && b[k] == page;
    assert b == b[..k] + [page] + b[k + 1..];
    var rest := b[..k] + b[k + 1..];
    assert multiset(b) == multiset(rest) + multiset{page};
    assert multiset(a) == multiset(a[..|a| - 1]) + multiset{page};
    assert multiset(rest) == multiset(b) - multiset{page};
  }

  lemma {:induction false} CountIgnoresOrder(a: seq<Page>, b: seq<Page>, tier: Tier)
    requires multiset(a) == multiset(b)
    ensures Count(a, tier) == Count(b, tier)
    decreases |a|
  {
    if a == [] {
      assert |multiset(b)| == |b| == 0;
    } else {
      var k := MatchingPage(a, b);
      CountIgnoresOrder(a[..|a| - 1], b[..k] + b[k + 1..], tier);
      CountSplit(b[..k], a[|a| - 1], b[k + 1..], tier);
    }
  }

  /** Reordering the pages does not change the charge. */
  lemma ChargeIgnoresOrder(a: seq<Page>, b: seq<Page>)
    requires multiset(a) == multiset(b)
    ensures Total(a) == Total(b)
  {
    ChargeByTier(a);
    ChargeByTier(b);
    CountIgnoresOrder(a, b, Native);
    CountIgnoresOrder(a, b, Ocr);
    CountIgnoresOrder(a, b, Table);
  }

  /** Adding a page anywhere, or moving one to a dearer tier, never lowers the charge. */
  lemma ChargeGrows(before: seq<Page>, page: Page, dearer: Page, after: seq<Page>)
    requires TierMicro(TierForPage(page)) <= TierMicro(TierForPage(dearer))
    ensures Total(before + after) <= Total(before + [page] + after) <= Total(before + [dearer] + after)
  {
    ChargeWithPage(before, page, after);
    ChargeWithPage(before, dearer, after);
  }

  /** One page more adds its price, up to the cap. */
  lemma ChargeWithPage(before: seq<Page>, page: Page, after: seq<Page>)
    ensures var sum := SumPrices(Costs(before + after));
            && Total(before + after) == (if sum > 190_000 then 190_000 else sum)
            && Total(before + [page] + after)
            == (if sum + TierMicro(TierForPage(page)) > 190_000 then 190_000 else sum + TierMicro(TierForPage(page)))
  {
    SubtotalByTier(before + after);
    SubtotalByTier(before + [page] + after);
    CountSplit(before, page, after, Native);
    CountSplit(before, page, after, Ocr);
    CountSplit(before, page, after, Table);
  }

  lemma {:induction false} SomeTier(pages: seq<Page>)
    requires pages != []
    ensures Count(pages, Native) + Count(pages, Ocr) + Count(pages, Table) >= 1
  {
    var n := |pages| - 1;
    assert TierForPage(pages[n]) in {Native, Ocr, Table};
  }

  /** The charge for at least one page lies in the redemption range of the plan. */
  lemma ChargeInRedemptionRange(pages: seq<Page>)
    requires pages != []
    ensures 12_000 <= Total(pages) <= 190_000
  {
    ChargeByTier(pages);
    SomeTier(pages);
  }

  // ---- Atomic units ----

  function DocumentUsageToAtomicUnits(calculation: Calculation, decimals: int): string {
    Print(Rescale(calculation.total, decimals))
  }

  /** The direct conversion agrees with printing the total and converting the string,
      for every number of decimals, and never overstates it. */
  lemma AtomicUnitsAgree(calculation: Calculation, decimals: int)
    ensures IsUsd(MicroToUsd(calculation.total))
    ensures DocumentUsageToAtomicUnits(calculation, decimals)
            == UsdToAtomicUnits(MicroToUsd(calculation.total), decimals)
    ensures decimals <= 6 ==>
            Value(DocumentUsageToAtomicUnits(calculation, decimals)) * Pow10(6 - decimals) <= calculation.total
  {
    MicroRoundTrip(calculation.total);
    ValueOfPrint(Rescale(calculation.total, decimals));
  }

  // ---- Settlement of the charge ----

  datatype UsageResult = UsageResult(
    serviceId: string, actualAmount: string, authorizedMaximum: string, usageResultHash: string)

  datatype Preparation =
    | Prepared(actualAmount: string, authorizedMaximum: string, settlementAmount: string, usageResultHash: string)
    | AuthorizationExceeded
    | InvalidUsageResult

  /** One digit or more. */
  predicate IsDigits(s: string) { s != "" && AllDigits(s) }

  const DOCUMENT_SERVICE_ID := "document_evidence_json.v1"

  function PrepareUsageSettlement(u: UsageResult): Preparation {
    if u.serviceId != DOCUMENT_SERVICE_ID || !IsDigits(u.actualAmount) || !IsDigits(u.authorizedMaximum) then
      InvalidUsageResult
    else if Value(u.actualAmount) > Value(u.authorizedMaximum) then AuthorizationExceeded
    else Prepared(u.actualAmount, u.authorizedMaximum, u.actualAmount, u.usageResultHash)
  }

  /** One decimal digit or more. */
  ghost predicate IsAmount(s: string) { s != "" && forall i | 0 <= i < |s| :: '0' <= s[i] <= '9' }

  /** A usage result is refused exactly when it is of another service or its amounts are no
      digit strings, or when it is above the authorization; else what was used is settled. */
  lemma PreparedExactly(u: UsageResult)
    ensures PrepareUsageSettlement(u) == InvalidUsageResult <==>
            || u.serviceId != "document_evidence_json.v1"
            || !IsAmount(u.actualAmount) || !IsAmount(u.authorizedMaximum)
    ensures u.serviceId == "document_evidence_json.v1" && IsAmount(u.actualAmount) && IsAmount(u.authorizedMaximum) ==>
            PrepareUsageSettlement(u)
            == if Value(u.actualAmount) <= Value(u.authorizedMaximum)
               then Prepared(u.actualAmount, u.authorizedMaximum, u.actualAmount, u.usageResultHash)
               else AuthorizationExceeded
  {
    assert forall s :: IsDigits(s) <==> IsAmount(s);
  }

  /** A document charge, authorized up to the cap, is always accepted, and what is
      settled is exactly the charge. */
  lemma DocumentChargeIsAccepted(pages: seq<Page>, hash: string)
    ensures var actual := DocumentUsageToAtomicUnits(CalculateDocumentUsage(pages), 6);
            var maximum := Print(CalculateDocumentUsage(pages).maxJob);
            && PrepareUsageSettlement(UsageResult(DOCUMENT_SERVICE_ID, actual, maximum, hash))
            == Prepared(actual, maximum, actual, hash)
            && Value(actual) == Total(pages)
  {
    ValueOfPrint(Total(pages));
    ValueOfPrint(CalculateDocumentUsage(pages).maxJob);
  }

  /** With a smaller authorization it is accepted exactly when the charge is within it. */
  lemma AcceptedExactlyWithinAuthorization(pages: seq<Page>, maximum: nat, hash: string)
    ensures var actual := DocumentUsageToAtomicUnits(CalculateDocumentUsage(pages), 6);
            PrepareUsageSettlement(UsageResult(DOCUMENT_SERVICE_ID, actual, Print(maximum), hash)).Prepared?
            <==> Total(pages) <= maximum
  {
    ValueOfPrint(Total(pages));
    ValueOfPrint(maximum);
  }
}
