/** Evidence of prepaid-credit settlements
    (packages/protocol-nevermined/src/credits-settlement-evidence.ts). */
module CreditSettlement {
  import opened Outcomes
  import opened Decimal

  datatype Payload = Payload(
    paymentIdentifier: string, planId: string, startingBalance: string, creditsAcquired: string,
    creditsRedeemed: string, usageValueAtomic: string, remainingBalance: string, cashMovementAtomic: string,
    transaction: string, observedAt: string)

  datatype Evidence = Evidence(kind: string, payload: Payload, evidenceHash: string)

  datatype Expectation = Expectation(
    paymentIdentifier: string, planId: string, authorizedMaximum: string, actualUsage: string,
    expectedStartingBalance: string, expectedAcquisition: string)

  datatype Reason =
    | MalformedEvidence | PaymentIdentifierMismatch | PlanIdMismatch | StartingBalanceMismatch
    | CreditsAcquiredMismatch | CreditsRedeemedMismatch | UsageValueMismatch | CashAcquisitionMismatch
    | AuthorizationExceeded | CreditBalanceEquationMismatch | EvidenceHashMismatch

  datatype Validation = Valid | Invalid(reason: Reason)

  const KIND := "nevermined_credits_settlement"

  /** What lies outside: the hash of a payload, and which strings are dates. */
  datatype Outside = Outside(hash: Payload -> string, isDate: string -> bool)

  predicate LowerHex(c: char) { IsDigit(c) || 'a' <= c <= 'f' }

  predicate IsTransaction(s: string) {
    |s| == 66 && s[..2] == "0x" && forall i | 2 <= i < 66 :: LowerHex(s[i]) || 'A' <= s[i] <= 'F'
  }

  predicate IsHash(s: string) {
    |s| == 71 && s[..7] == "sha256:" && forall i | 7 <= i < 71 :: LowerHex(s[i])
  }

  predicate WellFormedPayload(o: Outside, p: Payload) {
    && p.paymentIdentifier != "" && p.planId != ""
    && Canonical(p.startingBalance) && Canonical(p.creditsAcquired) && Canonical(p.creditsRedeemed)
    && Canonical(p.usageValueAtomic) && Canonical(p.remainingBalance) && Canonical(p.cashMovementAtomic)
    && IsTransaction(p.transaction) && o.isDate(p.observedAt)
  }

  predicate StructurallyValid(o: Outside, e: Evidence) {
    e.kind == KIND && WellFormedPayload(o, e.payload) && IsHash(e.evidenceHash)
  }

  predicate CanonicalExpectation(x: Expectation) {
    && Canonical(x.authorizedMaximum) && Canonical(x.actualUsage)
    && Canonical(x.expectedStartingBalance) && Canonical(x.expectedAcquisition)
  }

  /** `buildNeverminedCreditsSettlementEvidence`; `None` is the thrown error. */
  function Build(o: Outside, p: Payload): Option<Evidence> {
    if WellFormedPayload(o, p) then Some(Evidence(KIND, p, o.hash(p))) else None
  }

  /** `validateNeverminedCreditsSettlementEvidence` */
  function Validate(o: Outside, e: Evidence, x: Expectation): Validation {
    var p := e.payload;
    if !StructurallyValid(o, e) || !CanonicalExpectation(x) then Invalid(MalformedEvidence)
    else if p.paymentIdentifier != x.paymentIdentifier then Invalid(PaymentIdentifierMismatch)
    else if p.planId != x.planId then Invalid(PlanIdMismatch)
    else if p.startingBalance != x.expectedStartingBalance then Invalid(StartingBalanceMismatch)
    else if p.creditsAcquired != x.expectedAcquisition then Invalid(CreditsAcquiredMismatch)
    else if p.creditsRedeemed != x.actualUsage then Invalid(CreditsRedeemedMismatch)
    else if p.usageValueAtomic != x.actualUsage then Invalid(UsageValueMismatch)
    else if Value(p.usageValueAtomic) > Value(x.authorizedMaximum) then Invalid(AuthorizationExceeded)
    else if p.cashMovementAtomic != x.expectedAcquisition then Invalid(CashAcquisitionMismatch)
    else
      var expectedRemaining := Value(p.startingBalance) + Value(p.creditsAcquired) - Value(p.creditsRedeemed);
      if expectedRemaining < 0 || Value(p.remainingBalance) != expectedRemaining then
        Invalid(CreditBalanceEquationMismatch)
      else if e.evidenceHash != o.hash(p) then Invalid(EvidenceHashMismatch)
      else Valid
  }

  /** The settlement is as expected, in numbers. */
  predicate AddsUp(p: Payload, x: Expectation)
    requires CanonicalExpectation(x)
    requires Canonical(p.startingBalance) && Canonical(p.creditsAcquired) && Canonical(p.creditsRedeemed)
    requires Canonical(p.usageValueAtomic) && Canonical(p.remainingBalance) && Canonical(p.cashMovementAtomic)
  {
    && Value(p.startingBalance) == Value(x.expectedStartingBalance)
    && Value(p.creditsAcquired) == Value(x.expectedAcquisition) == Value(p.cashMovementAtomic)
    && Value(p.creditsRedeemed) == Value(x.actualUsage) == Value(p.usageValueAtomic)
    && Value(p.creditsRedeemed) <= Value(x.authorizedMaximum)
    && Value(p.remainingBalance) + Value(p.creditsRedeemed) == Value(p.startingBalance) + Value(p.creditsAcquired)
  }

  /** Evidence that was built validates exactly when it is about the expected payment
      and plan and its numbers add up: comparing canonical strings compares numbers. */
  lemma BuiltEvidenceValidExactly(o: Outside, p: Payload, x: Expectation)
    requires Build(o, p).Some? && IsHash(o.hash(p)) && CanonicalExpectation(x)
    ensures Validate(o, Build(o, p).value, x) == Valid <==>
            p.paymentIdentifier == x.paymentIdentifier && p.planId == x.planId && AddsUp(p, x)
  {
    CanonicalEqual(p.startingBalance, x.expectedStartingBalance);
    CanonicalEqual(p.creditsAcquired, x.expectedAcquisition);
    CanonicalEqual(p.creditsRedeemed, x.actualUsage);
    CanonicalEqual(p.usageValueAtomic, x.actualUsage);
    CanonicalEqual(p.cashMovementAtomic, x.expectedAcquisition);
  }

  lemma ValidAddsUp(o: Outside, e: Evidence, x: Expectation)
    requires Validate(o, e, x) == Valid
    ensures StructurallyValid(o, e) && CanonicalExpectation(x) && AddsUp(e.payload, x)
  {
  }

  /** With a hash that tells payloads apart, changing any field of valid evidence
      while keeping its hash is detected. */
  lemma AlteredEvidenceIsInvalid(o: Outside, e: Evidence, altered: Payload, x: Expectation, y: Expectation)
    requires Validate(o, e, x) == Valid && altered != e.payload
    requires forall p, q: Payload | o.hash(p) == o.hash(q) :: p == q
    ensures Validate(o, e.(payload := altered), y) != Valid
  {
    assert o.hash(altered) != o.hash(e.payload);
  }

  // ---- What is refused, and for what reason ----

  function Amount(s: string): nat { if AllDigits(s) then Value(s) else 0 }

  /** Zero, or decimal digits that start with none. */
  ghost predicate IsPlainNumber(s: string) {
    s == "0" || (s != "" && s[0] != '0' && forall i | 0 <= i < |s| :: '0' <= s[i] <= '9')
  }

  /** 64 hexadecimal digits after the prefix, small ones unless capitals are allowed. */
  ghost predicate IsHexAfter(s: string, prefix: string, capitals: bool) {
    && |s| == |prefix| + 64 && prefix <= s
    && forall i | |prefix| <= i < |s| ::
         '0' <= s[i] <= '9' || 'a' <= s[i] <= 'f' || (capitals && 'A' <= s[i] <= 'F')
  }

  lemma PlainNumberExactly(s: string)
    ensures Canonical(s) <==> IsPlainNumber(s)
  {
    if Canonical(s) && s[0] == '0' { assert s == "0"; }
  }

  lemma HexExactly(s: string)
    ensures IsTransaction(s) <==> IsHexAfter(s, "0x", true)
    ensures IsHash(s) <==> IsHexAfter(s, "sha256:", false)
  {
    assert |"sha256:"| == 7;
  }

  /** Evidence counts as malformed exactly when its kind, an identifier, a number, the
      transaction, the date or the hash does not have its form. */
  lemma MalformedExactly(o: Outside, e: Evidence, x: Expectation)
    ensures var p := e.payload;
            Validate(o, e, x) != Invalid(MalformedEvidence) <==>
            && e.kind == "nevermined_credits_settlement" && p.paymentIdentifier != "" && p.planId != ""
            && IsPlainNumber(p.startingBalance) && IsPlainNumber(p.creditsAcquired)
            && IsPlainNumber(p.creditsRedeemed) && IsPlainNumber(p.usageValueAtomic)
            && IsPlainNumber(p.remainingBalance) && IsPlainNumber(p.cashMovementAtomic)
            && IsPlainNumber(x.authorizedMaximum) && IsPlainNumber(x.actualUsage)
            && IsPlainNumber(x.expectedStartingBalance) && IsPlainNumber(x.expectedAcquisition)
            && IsHexAfter(p.transaction, "0x", true) && o.isDate(p.observedAt)
            && IsHexAfter(e.evidenceHash, "sha256:", false)
  {
    forall s: string ensures Canonical(s) <==> IsPlainNumber(s) { PlainNumberExactly(s); }
    HexExactly(e.payload.transaction);
    HexExactly(e.evidenceHash);
  }

  /** Any other reason names a mismatch that is there. */
  lemma ReasonIsTrue(o: Outside, e: Evidence, x: Expectation)
    ensures var p, v := e.payload, Validate(o, e, x);
            && (v == Invalid(PaymentIdentifierMismatch) ==> p.paymentIdentifier != x.paymentIdentifier)
            && (v == Invalid(PlanIdMismatch) ==> p.planId != x.planId)
            && (v == Invalid(StartingBalanceMismatch) ==>
                  Amount(p.startingBalance) != Amount(x.expectedStartingBalance))
            && (v == Invalid(CreditsAcquiredMismatch) ==> Amount(p.creditsAcquired) != Amount(x.expectedAcquisition))
            && (v == Invalid(CreditsRedeemedMismatch) ==> Amount(p.creditsRedeemed) != Amount(x.actualUsage))
            && (v == Invalid(UsageValueMismatch) ==> Amount(p.usageValueAtomic) != Amount(x.actualUsage))
            && (v == Invalid(AuthorizationExceeded) ==> Amount(p.usageValueAtomic) > Amount(x.authorizedMaximum))
            && (v == Invalid(CashAcquisitionMismatch) ==>
                  Amount(p.cashMovementAtomic) != Amount(x.expectedAcquisition))
            && (v == Invalid(CreditBalanceEquationMismatch) ==>
                  Amount(p.remainingBalance) + Amount(p.creditsRedeemed)
                  != Amount(p.startingBalance) + Amount(p.creditsAcquired))
            && (v == Invalid(EvidenceHashMismatch) ==> e.evidenceHash != o.hash(p))
  {
    if StructurallyValid(o, e) && CanonicalExpectation(x) {
      var p := e.payload;
      CanonicalEqual(p.startingBalance, x.expectedStartingBalance);
      CanonicalEqual(p.creditsAcquired, x.expectedAcquisition);
      CanonicalEqual(p.creditsRedeemed, x.actualUsage);
      CanonicalEqual(p.usageValueAtomic, x.actualUsage);
      CanonicalEqual(p.cashMovementAtomic, x.expectedAcquisition);
    }
  }

  // ---- Chains of settlements ----

  datatype Settlement = Settlement(evidence: Evidence, expected: Expectation)

  /** Every settlement validates and starts from the balance the one before it left. */
  ghost predicate IsChain(o: Outside, initial: string, chain: seq<Settlement>) {
    && (forall i | 0 <= i < |chain| :: Validate(o, chain[i].evidence, chain[i].expected) == Valid)
    && (chain != [] ==> chain[0].expected.expectedStartingBalance == initial)
    && (forall i, j | 0 <= i < j < |chain| && j == i + 1 ::
          chain[j].expected.expectedStartingBalance == chain[i].evidence.payload.remainingBalance)
  }

  function FinalBalance(initial: string, chain: seq<Settlement>): nat {
    if chain == [] then Amount(initial) else Amount(chain[|chain| - 1].evidence.payload.remainingBalance)
  }

  function TotalRedeemed(chain: seq<Settlement>): nat {
    if chain == [] then 0
    else TotalRedeemed(chain[..|chain| - 1]) + Amount(chain[|chain| - 1].evidence.payload.creditsRedeemed)
  }

  function TotalCash(chain: seq<Settlement>): nat {
    if chain == [] then 0
    else TotalCash(chain[..|chain| - 1]) + Amount(chain[|chain| - 1].evidence.payload.cashMovementAtomic)
  }

  lemma ChainPrefix(o: Outside, initial: string, chain: seq<Settlement>, n: nat)
    requires IsChain(o, initial, chain) && n <= |chain|
    ensures IsChain(o, initial, chain[..n])
  {
  }

  /** One settlement takes the balance before it to the balance after it. */
  lemma SettlementConserves(o: Outside, s: Settlement)
    requires Validate(o, s.evidence, s.expected) == Valid
    ensures var p := s.evidence.payload;
            Amount(p.remainingBalance) + Amount(p.creditsRedeemed)
            == Amount(s.expected.expectedStartingBalance) + Amount(p.cashMovementAtomic)
  {
    ValidAddsUp(o, s.evidence, s.expected);
  }

  lemma StartsFromBalanceBefore(o: Outside, initial: string, chain: seq<Settlement>, n: nat)
    requires IsChain(o, initial, chain) && n < |chain|
    ensures Amount(chain[n].expected.expectedStartingBalance) == FinalBalance(initial, chain[..n])
  {
    if n > 0 {
      assert chain[n].expected.expectedStartingBalance == chain[n - 1].evidence.payload.remainingBalance;
    }
  }

  /** What is left and what was redeemed is what there was and what was paid in. */
  lemma {:induction false} CreditsConserved(o: Outside, initial: string, chain: seq<Settlement>)
    requires IsChain(o, initial, chain)
    ensures FinalBalance(initial, chain) + TotalRedeemed(chain) == Amount(initial) + TotalCash(chain)
  {
    if chain != [] {
      var n := |chain| - 1;
      ChainPrefix(o, initial, chain, n);
      CreditsConserved(o, initial, chain[..n]);
      StartsFromBalanceBefore(o, initial, chain, n);
      SettlementConserves(o, chain[n]);
    }
  }

  /** At no point is more redeemed than was ever available, and each redemption stays
      within its authorization. */
  lemma RedemptionsCovered(o: Outside, initial: string, chain: seq<Settlement>, k: nat)
    requires IsChain(o, initial, chain) && k < |chain|
    ensures TotalRedeemed(chain[..k + 1]) <= Amount(initial) + TotalCash(chain[..k + 1])
    ensures Amount(chain[k].evidence.payload.creditsRedeemed) <= Amount(chain[k].expected.authorizedMaximum)
  {
    ChainPrefix(o, initial, chain, k + 1);
    CreditsConserved(o, initial, chain[..k + 1]);
    ValidAddsUp(o, chain[k].evidence, chain[k].expected);
  }
}
