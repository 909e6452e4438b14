/** Recovery of an external settlement after a crash
    (packages/protocol-nevermined/src/settlement-recovery.ts). */
module SettlementRecovery {
  import opened Outcomes
  import opened Text

  // ---- The classifier ----

  const FAILED_STATUSES := {"failed", "declined", "rejected"}

  predicate Succeeded(status: string) { ToLower(status) == "succeeded" }

  predicate Failed(status: string) { ToLower(status) in FAILED_STATUSES }

  /** A status that will not change any more. */
  predicate Final(status: string) { Succeeded(status) || Failed(status) }

  datatype Transaction = Transaction(id: string, status: string)

  datatype Reconciliation = Settled(transaction: Transaction) | NotSettled | Ambiguous

  function ReconcileSettlement(listing: Read<seq<Transaction>>): Reconciliation {
    match listing
    case ReadFailed => Ambiguous
    case ReadOk(transactions) =>
      if |transactions| == 0 then NotSettled
      else if |transactions| > 1 then Ambiguous
      else if Succeeded(transactions[0].status) then Settled(transactions[0])
      else if Failed(transactions[0].status) then NotSettled
      else Ambiguous
  }

  datatype Delegation = Delegation(provider: string, currency: string, planId: Option<string>,
      providerPaymentMethodId: Option<string>)

  datatype Expectation = Expectation(planId: string, provider: string, currency: string, payer: Option<string>)

  /** `validateNeverminedDelegationConsistency`: only populated fields are compared,
      and an empty payer or payment method counts as absent. */
  predicate Consistent(d: Delegation, e: Expectation) {
    && d.provider == e.provider
    && ToLower(d.currency) == ToLower(e.currency)
    && (d.planId.Some? ==> d.planId.value == e.planId)
    && (e.payer.Some? && e.payer.value != "" && d.providerPaymentMethodId.Some? && d.providerPaymentMethodId.value != ""
        ==> ToLower(d.providerPaymentMethodId.value) == ToLower(e.payer.value))
  }

  /** `reconcileNeverminedSettlementForRecovery`; the delegation read is `None` when it
      cannot be seen. */
  function ReconcileForRecovery(delegation: Read<Option<Delegation>>, expected: Expectation,
                                listing: Read<seq<Transaction>>): Reconciliation {
    match delegation
    case ReadFailed => Ambiguous
    case ReadOk(None) => Ambiguous
    case ReadOk(Some(d)) => if !Consistent(d, expected) then Ambiguous else ReconcileSettlement(listing)
  }

  /** SETTLED is reported exactly for a readable, consistent delegation whose one
      transaction has succeeded, and NOT_SETTLED exactly for one without transactions
      or with one that has failed. */
  lemma SettledExactlyOnEvidence(delegation: Read<Option<Delegation>>, expected: Expectation,
                                 listing: Read<seq<Transaction>>, t: Transaction)
    ensures ReconcileForRecovery(delegation, expected, listing) == Settled(t) <==>
            && delegation.ReadOk? && delegation.value.Some? && Consistent(delegation.value.value, expected)
            && listing == ReadOk([t]) && Succeeded(t.status)
    ensures ReconcileForRecovery(delegation, expected, listing) == NotSettled <==>
            && delegation.ReadOk? && delegation.value.Some? && Consistent(delegation.value.value, expected)
            && (listing == ReadOk([]) || exists u: Transaction :: listing == ReadOk([u]) && Failed(u.status))
  {
    if listing.ReadOk? && |listing.value| == 1 {
      assert listing.value == [listing.value[0]];
    }
  }

  // ---- Which delegations and which transactions answer ----

  /** Any one of the four mismatches makes the answer ambiguous, whatever the listing says. */
  lemma MismatchIsAmbiguous(d: Delegation, e: Expectation, listing: Read<seq<Transaction>>)
    requires || d.provider != e.provider
             || !SameUpToCase(d.currency, e.currency)
             || (d.planId.Some? && d.planId.value != e.planId)
             || (d.providerPaymentMethodId.Some? && d.providerPaymentMethodId.value != "" &&
                 e.payer.Some? && e.payer.value != "" &&
                 !SameUpToCase(d.providerPaymentMethodId.value, e.payer.value))
    ensures ReconcileForRecovery(ReadOk(Some(d)), e, listing) == Ambiguous
  {
    CaseIgnored(d, e);
  }

  /** Without one, absent fields included, the answer is that of the listing. */
  lemma AgreeingDelegationLetsListingAnswer(d: Delegation, e: Expectation, listing: Read<seq<Transaction>>)
    requires d.provider == e.provider && SameUpToCase(d.currency, e.currency)
    requires d.planId in {None, Some(e.planId)}
    requires || d.providerPaymentMethodId in {None, Some("")} || e.payer in {None, Some("")}
             || SameUpToCase(d.providerPaymentMethodId.value, e.payer.value)
    ensures ReconcileForRecovery(ReadOk(Some(d)), e, listing) == ReconcileSettlement(listing)
  {
    CaseIgnored(d, e);
  }

  lemma CaseIgnored(d: Delegation, e: Expectation)
    ensures ToLower(d.currency) == ToLower(e.currency) <==> SameUpToCase(d.currency, e.currency)
    ensures d.providerPaymentMethodId.Some? && e.payer.Some? ==>
            (ToLower(d.providerPaymentMethodId.value) == ToLower(e.payer.value) <==>
             SameUpToCase(d.providerPaymentMethodId.value, e.payer.value))
  {
    LowerExactly(d.currency, e.currency);
    if d.providerPaymentMethodId.Some? && e.payer.Some? {
      LowerExactly(d.providerPaymentMethodId.value, e.payer.value);
    }
  }

  /** A delegation that cannot be read or seen answers nothing. */
  lemma UnseenDelegationIsAmbiguous(delegation: Read<Option<Delegation>>, e: Expectation,
                                    listing: Read<seq<Transaction>>)
    requires delegation in {ReadFailed, ReadOk(None)}
    ensures ReconcileForRecovery(delegation, e, listing) == Ambiguous
  {
  }

  /** What a listing answers: one transaction by its status alone, none by permitting the
      payment, several or an unreadable one not at all. */
  lemma ListingAnswers(t: Transaction, several: seq<Transaction>)
    ensures ReconcileSettlement(ReadOk([t])) == Settled(t) <==> SameUpToCase(t.status, "succeeded")
    ensures ReconcileSettlement(ReadOk([t])) == NotSettled <==>
            || SameUpToCase(t.status, "failed") || SameUpToCase(t.status, "declined")
            || SameUpToCase(t.status, "rejected")
    ensures ReconcileSettlement(ReadOk([t])) in {Settled(t), NotSettled, Ambiguous}
    ensures ReconcileSettlement(ReadOk([])) == NotSettled && ReconcileSettlement(ReadFailed) == Ambiguous
    ensures |several| > 1 ==> ReconcileSettlement(ReadOk(several)) == Ambiguous
  {
    StatusWord(t.status, "succeeded");
    StatusWord(t.status, "failed");
    StatusWord(t.status, "declined");
    StatusWord(t.status, "rejected");
    SucceededIsNotFailed(t.status);
  }

  lemma StatusWord(status: string, word: string)
    requires forall i | 0 <= i < |word| :: !('A' <= word[i] <= 'Z')
    ensures ToLower(status) == word <==> SameUpToCase(status, word)
  {
    LowerKeepsSmall(word);
    LowerExactly(status, word);
  }

  // ---- The ledger, requests on their way to it, the caller, and crashes ----

  /** A request that has been sent is in flight until the ledger records it or it is
      lost; nothing that the caller can read shows it before that. A caller that has
      been told NOT_SETTLED is cleared to send once. */
  datatype World = World(ledger: seq<Transaction>, inFlight: nat, caller: Caller)

  const START := World([], 0, Idle)

  datatype Event =
    | Recover(delegation: Read<Option<Delegation>>, listingFails: bool)
    | Send
    | Land(transaction: Transaction)
    | Lose
    | Progress(index: nat, status: string)
    | Crash

  /** Only a cleared caller sends; the ledger only appends and keeps final statuses. */
  predicate Possible(w: World, e: Event) {
    match e
    case Recover(_, _) => true
    case Send => w.caller.Cleared?
    case Land(_) => w.inFlight > 0
    case Lose => w.inFlight > 0
    case Progress(i, status) => i < |w.ledger| && !Final(w.ledger[i].status)
    case Crash => true
  }

  function Recovery(w: World, expected: Expectation, e: Event): Reconciliation
    requires e.Recover?
  {
    ReconcileForRecovery(e.delegation, expected, if e.listingFails then ReadFailed else ReadOk(w.ledger))
  }

  predicate Clears(w: World, expected: Expectation, e: Event) {
    e.Recover? && Recovery(w, expected, e) == NotSettled
  }

  /** Sending uses the clearance up, and a crash forgets it, but requests already sent
      go on their way. */
  function Next(w: World, expected: Expectation, e: Event): World
    requires Possible(w, e)
  {
    match e
    case Recover(_, _) => w.(caller := if Clears(w, expected, e) then Cleared else Idle)
    case Send => w.(inFlight := w.inFlight + 1, caller := Idle)
    case Land(t) => w.(ledger := w.ledger + [t], inFlight := w.inFlight - 1)
    case Lose => w.(inFlight := w.inFlight - 1)
    case Progress(i, status) => w.(ledger := w.ledger[i := w.ledger[i].(status := status)])
    case Crash => w.(caller := Idle)
  }

  /** The world after a history. */
  function Run(expected: Expectation, w: World, history: seq<Event>): Option<World> {
    if history == [] then Some(w)
    else
      var n := |history| - 1;
      match Run(expected, w, history[..n])
      case None => None
      case Some(v) => if Possible(v, history[n]) then Some(Next(v, expected, history[n])) else None
  }

  /** Every recovery that clears the caller runs with no request in flight. */
  predicate Patient(expected: Expectation, w: World, history: seq<Event>) {
    history == [] ||
    var n := |history| - 1;
    && Patient(expected, w, history[..n])
    && var v := Run(expected, w, history[..n]);
       v.Some? && Clears(v.value, expected, history[n]) ==> v.value.inFlight == 0
  }

  predicate FailedAt(w: World, i: nat) { i < |w.ledger| && Failed(w.ledger[i].status) }

  /** At most two attempts are ever recorded or on their way, the second only after the
      first has finally failed; a clearance means that nothing sent so far can still succeed. */
  predicate Invariant(w: World) {
    && |w.ledger| + w.inFlight <= 2
    && (|w.ledger| + w.inFlight == 2 ==> FailedAt(w, 0) && w.caller.Idle?)
    && (w.caller.Cleared? ==> w.inFlight == 0 && (|w.ledger| == 1 ==> FailedAt(w, 0)))
  }

  lemma SucceededIsNotFailed(status: string)
    ensures !(Succeeded(status) && Failed(status))
  {
    assert |"succeeded"| == 9 && |"failed"| == 6 && |"declined"| == 8 && |"rejected"| == 8;
  }

  lemma StepKeepsInvariant(w: World, expected: Expectation, e: Event)
    requires Invariant(w) && Possible(w, e)
    requires Clears(w, expected, e) ==> w.inFlight == 0
    ensures Invariant(Next(w, expected, e))
  {
  }

  lemma {:induction false} RunKeepsInvariant(expected: Expectation, w: World, history: seq<Event>)
    requires Invariant(w) && Run(expected, w, history).Some? && Patient(expected, w, history)
    ensures Invariant(Run(expected, w, history).value)
  {
    if history != [] {
      var n := |history| - 1;
      RunKeepsInvariant(expected, w, history[..n]);
      StepKeepsInvariant(Run(expected, w, history[..n]).value, expected, history[n]);
    }
  }

  function Successes(ledger: seq<Transaction>): nat {
    if ledger == [] then 0
    else Successes(ledger[..|ledger| - 1]) + (if Succeeded(ledger[|ledger| - 1].status) then 1 else 0)
  }

  lemma SuccessesAppend(ledger: seq<Transaction>, t: Transaction)
    ensures Successes(ledger + [t]) == Successes(ledger) + (if Succeeded(t.status) then 1 else 0)
  {
    assert (ledger + [t])[..|ledger|] == ledger;
  }

  lemma AtMostOneSuccess(w: World)
    requires Invariant(w)
    ensures Successes(w.ledger) <= 1
  {
    if |w.ledger| >= 1 {
      SuccessesAppend([], w.ledger[0]);
      assert w.ledger[..1] == [] + [w.ledger[0]];
    }
    if |w.ledger| == 2 {
      SucceededIsNotFailed(w.ledger[0].status);
      SuccessesAppend(w.ledger[..1], w.ledger[1]);
      assert w.ledger == w.ledger[..1] + [w.ledger[1]];
    } else if |w.ledger| == 1 {
      assert w.ledger == w.ledger[..1];
    }
  }

  /** Whatever crashes, losses and restarts happen, no two transactions ever succeed, if
      no recovery clears the caller while a request is in flight. */
  lemma SettledAtMostOnce(expected: Expectation, history: seq<Event>)
    requires Run(expected, START, history).Some? && Patient(expected, START, history)
    ensures Successes(Run(expected, START, history).value.ledger) <= 1
    ensures |Run(expected, START, history).value.ledger| <= 2
  {
    RunKeepsInvariant(expected, START, history);
    AtMostOneSuccess(Run(expected, START, history).value);
  }

  /** However the world goes on from here, patiently, no two transactions succeed. */
  ghost predicate Harmless(expected: Expectation, w: World) {
    forall later | Run(expected, w, later).Some? && Patient(expected, w, later) ::
      Successes(Run(expected, w, later).value.ledger) <= 1
  }

  lemma RunOfThree(expected: Expectation, w: World, a: Event, b: Event, c: Event)
    requires Possible(w, a)
    requires Possible(Next(w, expected, a), b)
    requires Possible(Next(Next(w, expected, a), expected, b), c)
    requires !a.Recover? && !b.Recover? && !c.Recover?
    ensures Run(expected, w, [a, b, c]) == Some(Next(Next(Next(w, expected, a), expected, b), expected, c))
    ensures Patient(expected, w, [a, b, c])
  {
    assert [a, b, c][..2] == [a, b] && [a, b][..1] == [a] && [a][..0] == [];
    assert Run(expected, w, [a]) == Some(Next(w, expected, a));
    assert Patient(expected, w, [a]);
    assert Run(expected, w, [a, b]) == Some(Next(Next(w, expected, a), expected, b));
    assert Patient(expected, w, [a, b]);
  }

  /** A cleared caller with a request in flight can end up with two successes. */
  lemma InFlightSettlesTwice(expected: Expectation, w: World, t: Transaction)
    requires w.caller.Cleared? && w.inFlight > 0 && Succeeded(t.status)
    ensures var later := [Send, Land(t), Land(t)];
            && Patient(expected, w, later)
            && Run(expected, w, later) == Some(World(w.ledger + [t] + [t], w.inFlight - 1, Idle))
    ensures Successes(w.ledger + [t] + [t]) >= 2
  {
    RunOfThree(expected, w, Send, Land(t), Land(t));
    SuccessesAppend(w.ledger, t);
    SuccessesAppend(w.ledger + [t], t);
  }

  lemma SomethingSucceeds() returns (t: Transaction)
    ensures Succeeded(t.status)
  {
    t := Transaction("t", "succeeded");
  }

  /** The condition is exact: a clearance is harmless exactly when nothing is in flight. */
  lemma ClearanceHarmlessExactly(expected: Expectation, w: World, e: Event)
    requires Invariant(w) && Clears(w, expected, e)
    ensures Harmless(expected, Next(w, expected, e)) <==> w.inFlight == 0
  {
    var v := Next(w, expected, e);
    if w.inFlight == 0 {
      forall later | Run(expected, v, later).Some? && Patient(expected, v, later)
        ensures Successes(Run(expected, v, later).value.ledger) <= 1
      {
        StepKeepsInvariant(w, expected, e);
        RunKeepsInvariant(expected, v, later);
        AtMostOneSuccess(Run(expected, v, later).value);
      }
    } else {
      var t := SomethingSucceeds();
      InFlightSettlesTwice(expected, v, t);
      assert !(Successes(Run(expected, v, [Send, Land(t), Land(t)]).value.ledger) <= 1);
    }
  }

  /** The failing run: the process dies after sending, the listing is still empty, the
      caller is cleared again, and both requests are recorded as succeeded. */
  lemma CrashInFlightSettlesTwice(expected: Expectation, d: Delegation, t: Transaction)
    requires Consistent(d, expected) && Succeeded(t.status)
    ensures var recover := Recover(ReadOk(Some(d)), false);
            Run(expected, START, [recover, Send, Crash, recover, Send, Land(t), Land(t)])
                == Some(World([t, t], 0, Idle))
  {
    var recover := Recover(ReadOk(Some(d)), false);
    var before := [recover, Send, Crash, recover];
    var whole := before + [Send, Land(t), Land(t)];
    assert whole == [recover, Send, Crash, recover, Send, Land(t), Land(t)];
    ClearedWithOneInFlight(expected, d);
    InFlightSettlesTwice(expected, World([], 1, Cleared), t);
    RunContinues(expected, START, before, [Send, Land(t), Land(t)]);
    assert [] + [t] + [t] == [t, t];
  }

  lemma ClearedWithOneInFlight(expected: Expectation, d: Delegation)
    requires Consistent(d, expected)
    ensures var recover := Recover(ReadOk(Some(d)), false);
            Run(expected, START, [recover, Send, Crash, recover]) == Some(World([], 1, Cleared))
  {
    var r := Recover(ReadOk(Some(d)), false);
    RunContinues(expected, START, [r], [Send, Crash, r]);
    assert [r][..0] == [] && Run(expected, START, [r]) == Some(World([], 0, Cleared));
    var w := World([], 0, Cleared);
    assert [Send, Crash, r][..2] == [Send, Crash] && [Send, Crash][..1] == [Send] && [Send][..0] == [];
    assert Run(expected, w, [Send]) == Some(World([], 1, Idle));
    assert Run(expected, w, [Send, Crash]) == Some(World([], 1, Idle));
    assert [r] + [Send, Crash, r] == [r, Send, Crash, r];
  }

  lemma {:induction false} RunContinues(expected: Expectation, w: World, before: seq<Event>, later: seq<Event>)
    requires Run(expected, w, before).Some?
    ensures Run(expected, w, before + later) == Run(expected, Run(expected, w, before).value, later)
    decreases |later|
  {
    if later == [] {
      assert before + later == before;
    } else {
      var n := |later| - 1;
      assert (before + later)[..|before + later| - 1] == before + later[..n];
      RunContinues(expected, w, before, later[..n]);
    }
  }

  ghost predicate HasSuccess(w: World) {
    exists t | t in w.ledger :: Succeeded(t.status)
  }

  lemma SuccessIsKept(w: World, expected: Expectation, e: Event)
    requires Possible(w, e) && HasSuccess(w)
    ensures HasSuccess(Next(w, expected, e))
  {
    var i :| 0 <= i < |w.ledger| && Succeeded(w.ledger[i].status);
    assert Next(w, expected, e).ledger[i] == w.ledger[i];
  }

  /** Once a success is recorded, no later reconciliation reports NOT_SETTLED, patient
      or not. */
  lemma {:induction false} SuccessNeverForgotten(expected: Expectation, w: World, later: seq<Event>, e: Event)
    requires HasSuccess(w) && Run(expected, w, later).Some? && e.Recover?
    ensures HasSuccess(Run(expected, w, later).value)
    ensures Recovery(Run(expected, w, later).value, expected, e) != NotSettled
    decreases |later|
  {
    if later != [] {
      var n := |later| - 1;
      SuccessNeverForgotten(expected, w, later[..n], e);
      SuccessIsKept(Run(expected, w, later[..n]).value, expected, later[n]);
    }
    var v := Run(expected, w, later).value;
    var i :| 0 <= i < |v.ledger| && Succeeded(v.ledger[i].status);
    SucceededIsNotFailed(v.ledger[i].status);
  }

  /** A retry after a failed attempt is never reported SETTLED, even if it succeeds:
      two recorded transactions are ambiguous for good. */
  lemma {:induction false} RetryStaysAmbiguous(expected: Expectation, w: World, later: seq<Event>, e: Event)
    requires |w.ledger| >= 2 && Run(expected, w, later).Some? && e.Recover?
    ensures |Run(expected, w, later).value.ledger| >= 2
    ensures Recovery(Run(expected, w, later).value, expected, e) == Ambiguous
    decreases |later|
  {
    if later != [] {
      RetryStaysAmbiguous(expected, w, later[..|later| - 1], e);
    }
  }
}
