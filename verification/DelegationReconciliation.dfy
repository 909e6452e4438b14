/** Deciding whether a spending delegation already exists
    (packages/protocol-nevermined/src/delegation-reconciliation.ts). */
module DelegationReconciliation {
  import opened Outcomes
  import opened Text

  /** Numbers and instants as `Number(...)` and `Date.getTime()` read them; `None` is NaN. */
  datatype Summary = Summary(
    delegationId: string, provider: string, status: string, currency: string,
    remainingBudget: Option<real>, amountSpent: Option<real>, expiresAt: Option<int>)

  datatype Policy = Policy(
    provider: string, currency: string, activeStatuses: seq<string>, minRemainingBudget: real,
    notExpiredAsOf: Option<int>)

  /** `a < b`, false when `a` is NaN. */
  predicate Below(a: Option<real>, b: real) { a.Some? && a.value < b }

  predicate Later(a: Option<int>, b: Option<int>) { a.Some? && b.Some? && a.value > b.value }

  predicate IsExact(d: Summary, p: Policy) {
    && d.provider == p.provider
    && ToLower(d.currency) == ToLower(p.currency)
    && (exists s | s in p.activeStatuses :: ToLower(s) == ToLower(d.status))
    && !Below(d.remainingBudget, p.minRemainingBudget)
    && Later(d.expiresAt, p.notExpiredAsOf)
  }

  predicate IsBenignlyExhausted(d: Summary, p: Policy) {
    && d.provider == p.provider
    && ToLower(d.currency) == ToLower(p.currency)
    && d.amountSpent.Some? && d.amountSpent.value > 0.0
    && Below(d.remainingBudget, p.minRemainingBudget)
  }

  predicate IsCandidate(d: Summary, p: Policy) {
    d.provider == p.provider && !IsBenignlyExhausted(d, p)
  }

  /** The delegations of a listing that matter, in listing order. */
  function Candidates(ds: seq<Summary>, p: Policy): (r: seq<Summary>)
    ensures forall d :: d in r <==> d in ds && IsCandidate(d, p)
  {
    if ds == [] then []
    else (if IsCandidate(ds[0], p) then [ds[0]] else []) + Candidates(ds[1..], p)
  }

  function Exact(ds: seq<Summary>, p: Policy): (r: seq<Summary>)
    ensures forall d :: d in r <==> d in ds && IsExact(d, p)
  {
    if ds == [] then []
    else (if IsExact(ds[0], p) then [ds[0]] else []) + Exact(ds[1..], p)
  }

  function IdsOf(ds: seq<Summary>): seq<string> {
    seq(|ds|, i requires 0 <= i < |ds| => ds[i].delegationId)
  }

  datatype Verdict =
    | ExactExisting(id: string)
    | NoMatch
    | ConflictingExisting(ids: seq<string>)
    | MultipleExact(ids: seq<string>)
    | Timeout

  type Script = seq<Read<seq<Summary>>>

  function Classify(candidates: seq<Summary>, p: Policy): Verdict {
    var exact := Exact(candidates, p);
    if |exact| == 1 then ExactExisting(exact[0].delegationId)
    else if |exact| > 1 then MultipleExact(IdsOf(exact))
    else ConflictingExisting(IdsOf(candidates))
  }

  /** The listing shows something that is not benignly exhausted. */
  predicate ShowsCandidate(listing: Read<seq<Summary>>, p: Policy) {
    listing.ReadOk? && exists d | d in listing.value :: IsCandidate(d, p)
  }

  /** The `i`th delegation is the only one that matches exactly. */
  ghost predicate OnlyExactAt(ds: seq<Summary>, p: Policy, i: nat) {
    i < |ds| && IsExact(ds[i], p) && forall j {:trigger IsExact(ds[j], p)} | 0 <= j < |ds| && j != i ::
      !IsExact(ds[j], p)
  }

  lemma {:induction false} NoneExact(ds: seq<Summary>, p: Policy)
    ensures Exact(ds, p) == [] <==> forall i | 0 <= i < |ds| :: !IsExact(ds[i], p)
  {
    if ds != [] {
      NoneExact(ds[1..], p);
      assert forall j | 0 < j < |ds| :: ds[j] == ds[1..][j - 1];
    }
  }

  lemma {:induction false} OnlyExactIsListed(ds: seq<Summary>, p: Policy, i: nat)
    requires OnlyExactAt(ds, p, i)
    ensures Exact(ds, p) == [ds[i]]
  {
    assert forall j | 0 < j < |ds| :: ds[j] == ds[1..][j - 1];
    if i > 0 {
      OnlyExactIsListed(ds[1..], p, i - 1);
    } else {
      NoneExact(ds[1..], p);
    }
  }

  lemma {:induction false} OneListedIsOnly(ds: seq<Summary>, p: Policy) returns (i: nat)
    requires |Exact(ds, p)| == 1
    ensures OnlyExactAt(ds, p, i)
  {
    assert forall j | 0 < j < |ds| :: ds[j] == ds[1..][j - 1];
    if IsExact(ds[0], p) {
      NoneExact(ds[1..], p);
      i := 0;
    } else {
      i := OneListedIsOnly(ds[1..], p);
      i := i + 1;
    }
  }

  /** Candidates conflict exactly when none matches exactly. */
  lemma ConflictExactly(candidates: seq<Summary>, p: Policy)
    ensures Classify(candidates, p).ConflictingExisting? <==>
            forall i | 0 <= i < |candidates| :: !IsExact(candidates[i], p)
  {
    NoneExact(candidates, p);
  }

  /** A delegation is adopted exactly when it is the only exact match. */
  lemma ClassifyDecides(candidates: seq<Summary>, p: Policy, id: string)
    ensures Classify(candidates, p) == ExactExisting(id) <==>
            exists i: nat :: OnlyExactAt(candidates, p, i) && candidates[i].delegationId == id
  {
    if i: nat :| OnlyExactAt(candidates, p, i) && candidates[i].delegationId == id {
      OnlyExactIsListed(candidates, p, i);
    }
    if Classify(candidates, p) == ExactExisting(id) {
      var i := OneListedIsOnly(candidates, p);
      OnlyExactIsListed(candidates, p, i);
    }
  }

  /** None of the first `n` responses shows a candidate. */
  predicate Silent(script: Script, p: Policy, n: nat)
    requires n <= |script|
  {
    forall j: nat {:trigger ShowsCandidate(script[j], p)} | j < n :: !ShowsCandidate(script[j], p)
  }

  lemma CandidatesShow(ds: seq<Summary>, p: Policy)
    ensures Candidates(ds, p) != [] <==> ShowsCandidate(ReadOk(ds), p)
  {
    if Candidates(ds, p) != [] {
      assert Candidates(ds, p)[0] in Candidates(ds, p);
    }
  }

  /** `reconcileNeverminedDelegation` over the responses of the scheduled attempts: the
      first listing with a candidate decides; absence is declared only by a last listing. */
  method Reconcile(script: Script, p: Policy) returns (r: Verdict)
    ensures forall k: nat | k < |script| && ShowsCandidate(script[k], p) && Silent(script, p, k) ::
              r == Classify(Candidates(script[k].value, p), p)
    ensures Silent(script, p, |script|) ==>
              r == if script != [] && script[|script| - 1].ReadOk? then NoMatch else Timeout
    ensures r == Outcome(script, p)
  {
    for attempt := 0 to |script|
      invariant Outcome(script, p) == Outcome(script[attempt..], p)
    {
      var listing := script[attempt];
      assert script[attempt..][1..] == script[attempt + 1..];
      if listing.ReadFailed? { continue; }
      var candidates := Candidates(listing.value, p);
      if |candidates| == 0 {
        if attempt == |script| - 1 {
          OutcomeExactly(script, p);
          return NoMatch;
        }
        continue;
      }
      OutcomeExactly(script, p);
      return Classify(candidates, p);
    }
    OutcomeExactly(script, p);
    return Timeout;
  }

  /** The result as a function of the script. */
  function Outcome(script: Script, p: Policy): Verdict {
    if script == [] then Timeout
    else if script[0].ReadOk? && Candidates(script[0].value, p) != [] then Classify(Candidates(script[0].value, p), p)
    else if script[0].ReadOk? && |script| == 1 then NoMatch
    else Outcome(script[1..], p)
  }

  lemma SilentRest(script: Script, p: Policy, n: nat)
    requires 0 < n <= |script| && Silent(script, p, n)
    ensures !ShowsCandidate(script[0], p) && Silent(script[1..], p, n - 1)
  {
    forall j: nat | j < n - 1 ensures !ShowsCandidate(script[1..][j], p) {
      assert script[1..][j] == script[j + 1];
      assert !ShowsCandidate(script[j + 1], p);
    }
  }

  lemma OutcomeOfHead(script: Script, p: Policy)
    requires script != []
    ensures ShowsCandidate(script[0], p) ==> Outcome(script, p) == Classify(Candidates(script[0].value, p), p)
    ensures !ShowsCandidate(script[0], p) && |script| > 1 ==> Outcome(script, p) == Outcome(script[1..], p)
  {
    if script[0].ReadOk? { CandidatesShow(script[0].value, p); }
  }

  lemma {:induction false} FirstCandidateDecides(script: Script, p: Policy, k: nat)
    requires k < |script| && ShowsCandidate(script[k], p) && Silent(script, p, k)
    ensures Outcome(script, p) == Classify(Candidates(script[k].value, p), p)
  {
    OutcomeOfHead(script, p);
    if k > 0 {
      SilentRest(script, p, k);
      assert script[1..][k - 1] == script[k];
      FirstCandidateDecides(script[1..], p, k - 1);
    }
  }

  lemma {:induction false} SilentOutcome(script: Script, p: Policy)
    requires Silent(script, p, |script|)
    ensures Outcome(script, p) == if script != [] && script[|script| - 1].ReadOk? then NoMatch else Timeout
  {
    if script != [] {
      if script[0].ReadOk? { CandidatesShow(script[0].value, p); }
      SilentRest(script, p, |script|);
      if |script| > 1 { SilentOutcome(script[1..], p); }
    }
  }

  /** The two cases together: the first response that shows a candidate decides, or there is none. */
  lemma OutcomeExactly(script: Script, p: Policy)
    ensures forall k: nat | k < |script| && ShowsCandidate(script[k], p) && Silent(script, p, k) ::
              Outcome(script, p) == Classify(Candidates(script[k].value, p), p)
    ensures Silent(script, p, |script|) ==>
              Outcome(script, p) == if script != [] && script[|script| - 1].ReadOk? then NoMatch else Timeout
  {
    forall k: nat | k < |script| && ShowsCandidate(script[k], p) && Silent(script, p, k) {
      FirstCandidateDecides(script, p, k);
    }
    if Silent(script, p, |script|) { SilentOutcome(script, p); }
  }

  /** `no_match` means: the last listing succeeded, and no listing that succeeded held a candidate. */
  lemma NoMatchExactly(script: Script, p: Policy)
    ensures Outcome(script, p) == NoMatch <==>
            script != [] && script[|script| - 1].ReadOk? && Silent(script, p, |script|)
  {
    if Silent(script, p, |script|) {
      SilentOutcome(script, p);
    } else {
      var k := FirstShowing(script, p);
      FirstCandidateDecides(script, p, k);
    }
  }

  lemma FirstShowing(script: Script, p: Policy) returns (k: nat)
    requires !Silent(script, p, |script|)
    ensures k < |script| && ShowsCandidate(script[k], p) && Silent(script, p, k)
  {
    k := 0;
    while !ShowsCandidate(script[k], p)
      invariant k < |script| && Silent(script, p, k)
      decreases |script| - k
    {
      k := k + 1;
    }
  }

  /** The exhausted-delegation filter never hides an exact match. */
  lemma FilterKeepsExact(ds: seq<Summary>, p: Policy, d: Summary)
    requires d in ds && IsExact(d, p)
    ensures d in Candidates(ds, p) && d in Exact(Candidates(ds, p), p)
  {
  }

  // ---- What is adopted, and what conflicts, by the fields of the delegations ----

  /** Fit to be used: of the provider and currency of the policy, in a usable status, not
      known to hold less than the minimum, and known to expire later than the instant. */
  ghost predicate Suits(d: Summary, p: Policy) {
    && d.provider == p.provider && SameUpToCase(d.currency, p.currency)
    && (exists s | s in p.activeStatuses :: SameUpToCase(s, d.status))
    && (d.remainingBudget == None || d.remainingBudget.value >= p.minRemainingBudget)
    && d.expiresAt != None && p.notExpiredAsOf != None && p.notExpiredAsOf.value < d.expiresAt.value
  }

  /** Has been spent from and is known to hold less than the minimum. */
  ghost predicate SpentUp(d: Summary, p: Policy) {
    && d.provider == p.provider && SameUpToCase(d.currency, p.currency)
    && d.amountSpent != None && 0.0 < d.amountSpent.value
    && d.remainingBudget != None && p.minRemainingBudget > d.remainingBudget.value
  }

  /** A listing that shows a delegation of the provider that is not spent up. */
  ghost predicate Concerns(listing: Read<seq<Summary>>, p: Policy) {
    listing.ReadOk? && exists d | d in listing.value :: d.provider == p.provider && !SpentUp(d, p)
  }

  ghost predicate FirstToConcern(script: Script, p: Policy, k: nat) {
    && k < |script| && Concerns(script[k], p)
    && forall j: nat {:trigger Concerns(script[j], p)} | j < k :: !Concerns(script[j], p)
  }

  lemma ByFields(d: Summary, p: Policy)
    ensures IsExact(d, p) <==> Suits(d, p)
    ensures IsCandidate(d, p) <==> d.provider == p.provider && !SpentUp(d, p)
  {
    LowerExactly(d.currency, p.currency);
    forall s | s in p.activeStatuses { LowerExactly(s, d.status); }
  }

  lemma ConcernsShows(listing: Read<seq<Summary>>, p: Policy)
    ensures Concerns(listing, p) <==> ShowsCandidate(listing, p)
  {
    if listing.ReadOk? {
      forall d | d in listing.value { ByFields(d, p); }
    }
  }

  lemma {:induction false} ExactOfCandidates(ds: seq<Summary>, p: Policy)
    ensures Exact(Candidates(ds, p), p) == Exact(ds, p)
  {
    if ds != [] {
      ExactOfCandidates(ds[1..], p);
      if IsCandidate(ds[0], p) {
        assert Candidates(ds, p)[1..] == Candidates(ds[1..], p);
      } else {
        assert Candidates(ds, p) == Candidates(ds[1..], p);
      }
    }
  }

  lemma FirstDecides(script: Script, p: Policy, k: nat)
    requires FirstToConcern(script, p, k)
    ensures Outcome(script, p) == Classify(Candidates(script[k].value, p), p)
  {
    ConcernsShows(script[k], p);
    forall j: nat | j < k { ConcernsShows(script[j], p); }
    FirstCandidateDecides(script, p, k);
  }

  /** Delegation `i` of the listing suits, and no other does. */
  ghost predicate OnlyOneSuits(ds: seq<Summary>, p: Policy, i: nat) {
    i < |ds| && Suits(ds[i], p) && forall j {:trigger Suits(ds[j], p)} | 0 <= j < |ds| && j != i :: !Suits(ds[j], p)
  }

  lemma OnlyOneIsExact(ds: seq<Summary>, p: Policy, i: nat)
    ensures OnlyOneSuits(ds, p, i) <==> OnlyExactAt(ds, p, i)
  {
    forall d | d in ds { ByFields(d, p); }
    assert forall j | 0 <= j < |ds| :: ds[j] in ds;
  }

  /** The first listing that concerns the policy is decided by the delegations in it that
      suit: one is adopted, none is a conflict of all that concern, several are reported. */
  lemma AdoptedExactly(script: Script, p: Policy, k: nat, id: string)
    requires FirstToConcern(script, p, k)
    ensures Outcome(script, p) == ExactExisting(id) <==>
            exists i: nat :: OnlyOneSuits(script[k].value, p, i) && script[k].value[i].delegationId == id
  {
    var ds := script[k].value;
    FirstDecides(script, p, k);
    ExactOfCandidates(ds, p);
    forall i: nat { OnlyOneIsExact(ds, p, i); }
    if Outcome(script, p) == ExactExisting(id) {
      var i := OneListedIsOnly(ds, p);
      OnlyExactIsListed(ds, p, i);
    }
    if i: nat :| OnlyOneSuits(ds, p, i) && ds[i].delegationId == id {
      OnlyExactIsListed(ds, p, i);
    }
  }

  lemma ConflictsExactly(script: Script, p: Policy, k: nat)
    requires FirstToConcern(script, p, k)
    ensures Outcome(script, p).ConflictingExisting? <==> forall d | d in script[k].value :: !Suits(d, p)
    ensures Outcome(script, p).ConflictingExisting? ==>
            forall id :: id in Outcome(script, p).ids <==>
              exists d | d in script[k].value :: d.provider == p.provider && !SpentUp(d, p) && d.delegationId == id
    ensures Outcome(script, p).MultipleExact? ==>
            forall id :: id in Outcome(script, p).ids <==>
              exists d | d in script[k].value :: Suits(d, p) && d.delegationId == id
  {
    var ds := script[k].value;
    FirstDecides(script, p, k);
    ExactOfCandidates(ds, p);
    forall d | d in ds { ByFields(d, p); }
    assert Exact(ds, p) != [] ==> Exact(ds, p)[0] in Exact(ds, p);
    IdsAreListed(Candidates(ds, p));
    IdsAreListed(Exact(ds, p));
  }

  lemma IdsAreListed(ds: seq<Summary>)
    ensures forall id :: id in IdsOf(ds) <==> exists d | d in ds :: d.delegationId == id
  {
    forall d | d in ds ensures d.delegationId in IdsOf(ds) {
      var i :| 0 <= i < |ds| && ds[i] == d;
      assert IdsOf(ds)[i] == d.delegationId;
    }
  }

  /** In particular an adopted delegation always suits. */
  lemma AdoptedSuits(script: Script, p: Policy, id: string) returns (k: nat, d: Summary)
    requires Outcome(script, p) == ExactExisting(id)
    ensures FirstToConcern(script, p, k) && d in script[k].value && d.delegationId == id && Suits(d, p)
  {
    if Silent(script, p, |script|) { SilentOutcome(script, p); }
    k := FirstShowing(script, p);
    forall j: nat | j < |script| { ConcernsShows(script[j], p); }
    AdoptedExactly(script, p, k, id);
    var i: nat :| OnlyOneSuits(script[k].value, p, i) && script[k].value[i].delegationId == id;
    d := script[k].value[i];
  }

  /** Absence is declared exactly when the last listing succeeds and all that any listing
      shows is of another provider or spent up. */
  lemma AbsentExactly(script: Script, p: Policy)
    ensures Outcome(script, p) == NoMatch <==>
            && script != [] && script[|script| - 1].ReadOk?
            && forall k: nat | k < |script| && script[k].ReadOk? ::
                 forall d | d in script[k].value :: d.provider == p.provider ==> SpentUp(d, p)
  {
    NoMatchExactly(script, p);
    forall k: nat | k < |script| { ConcernsShows(script[k], p); }
    if forall k: nat | k < |script| && script[k].ReadOk? ::
         forall d | d in script[k].value :: d.provider == p.provider ==> SpentUp(d, p) {
      forall j: nat | j < |script| ensures !ShowsCandidate(script[j], p) { assert !Concerns(script[j], p); }
    }
    if Silent(script, p, |script|) {
      forall k: nat | k < |script| && script[k].ReadOk?
        ensures forall d | d in script[k].value :: d.provider == p.provider ==> SpentUp(d, p)
      {
        assert !ShowsCandidate(script[k], p);
      }
    }
  }

  // ---- Resuming after crashes ----

  datatype World = World(delegations: seq<Summary>, caller: Caller)

  /** Spend only grows; status and expiry may change. */
  predicate SpendsOnly(a: Summary, b: Summary) {
    && b.provider == a.provider && b.currency == a.currency
    && (a.remainingBudget.Some? ==> b.remainingBudget.Some? && b.remainingBudget.value <= a.remainingBudget.value)
    && (a.amountSpent.Some? ==> b.amountSpent.Some? && b.amountSpent.value >= a.amountSpent.value)
  }

  predicate Evolves(a: seq<Summary>, b: seq<Summary>) {
    |a| == |b| && forall i | 0 <= i < |a| :: SpendsOnly(a[i], b[i])
  }

  /** A run of `Reconcile`: at attempt `i` the outside world holds `seen[i]`. A listing
      that succeeds shows delegations as they are then, but may not show them all yet. */
  datatype Event =
    | Resume(script: Script, seen: seq<seq<Summary>>)
    | Create(delegation: Option<Summary>)      // nothing is created when the request is lost
    | Spend(after: seq<Summary>)
    | Crash

  function Before(now: seq<Summary>, seen: seq<seq<Summary>>, i: nat): seq<Summary>
    requires i < |seen|
  {
    if i == 0 then now else seen[i - 1]
  }

  /** The world after `Reconcile` is the one its last attempt saw. */
  function After(now: seq<Summary>, seen: seq<seq<Summary>>): seq<Summary> {
    if seen == [] then now else seen[|seen| - 1]
  }

  predicate Witnessed(now: seq<Summary>, script: Script, seen: seq<seq<Summary>>) {
    && |seen| == |script|
    && (forall i: nat | i < |script| && script[i].ReadOk? :: forall d | d in script[i].value :: d in seen[i])
    && (forall i: nat {:trigger Before(now, seen, i)} | i < |seen| :: Evolves(Before(now, seen, i), seen[i]))
  }

  predicate Possible(w: World, e: Event) {
    match e
    case Resume(script, seen) => Witnessed(w.delegations, script, seen)
    case Create(_) => w.caller.Cleared?
    case Spend(after) => Evolves(w.delegations, after)
    case Crash => true
  }

  function Next(w: World, p: Policy, e: Event): World
    requires Possible(w, e)
  {
    match e
    case Resume(script, seen) =>
      World(After(w.delegations, seen), if Outcome(script, p) == NoMatch then Cleared else Idle)
    case Create(d) => World(if d.Some? then w.delegations + [d.value] else w.delegations, Idle)
    case Spend(after) => World(after, w.caller)
    case Crash => w.(caller := Idle)
  }

  function Run(w: World, p: Policy, history: seq<Event>): Option<World> {
    if history == [] then Some(w)
    else
      var n := |history| - 1;
      match Run(w, p, history[..n])
      case None => None
      case Some(v) => if Possible(v, history[n]) then Some(Next(v, p, history[n])) else None
  }

  ghost predicate AtMostOneLive(ds: seq<Summary>, p: Policy) {
    forall i, j {:trigger IsCandidate(ds[i], p), IsCandidate(ds[j], p)} | 0 <= i < j < |ds| ::
      !IsCandidate(ds[i], p) || !IsCandidate(ds[j], p)
  }

  ghost predicate NoneLive(ds: seq<Summary>, p: Policy) {
    forall i {:trigger IsCandidate(ds[i], p)} | 0 <= i < |ds| :: !IsCandidate(ds[i], p)
  }

  ghost predicate Invariant(w: World, p: Policy) {
    AtMostOneLive(w.delegations, p) && (w.caller.Cleared? ==> NoneLive(w.delegations, p))
  }

  // ---- Delegations that a listing does not show yet ----

  /** Some successful listing of the script shows delegation `d`. */
  ghost predicate Shown(script: Script, seen: seq<seq<Summary>>, d: nat) {
    exists i: nat :: i < |script| && i < |seen| && script[i].ReadOk? && d < |seen[i]| && seen[i][d] in script[i].value
  }

  /** Every delegation that is still live at the end was shown at some attempt. */
  ghost predicate LiveOnesShown(now: seq<Summary>, script: Script, seen: seq<seq<Summary>>, p: Policy) {
    forall d: nat {:trigger Shown(script, seen, d)} |
      d < |After(now, seen)| && IsCandidate(After(now, seen)[d], p) :: Shown(script, seen, d)
  }

  predicate Clears(p: Policy, e: Event) {
    e.Resume? && Outcome(e.script, p) == NoMatch
  }

  /** Every reconciliation that clears the caller was shown what is still live: each
      creation became visible by its last successful listing. */
  ghost predicate Visible(w: World, p: Policy, history: seq<Event>) {
    history == [] ||
    var n := |history| - 1;
    && Visible(w, p, history[..n])
    && var v := Run(w, p, history[..n]);
       v.Some? && Clears(p, history[n]) ==>
         LiveOnesShown(v.value.delegations, history[n].script, history[n].seen, p)
  }

  lemma ExhaustedStaysExhausted(a: Summary, b: Summary, p: Policy)
    requires SpendsOnly(a, b) && IsCandidate(b, p)
    ensures IsCandidate(a, p)
  {
  }

  lemma EvolvingKeeps(a: seq<Summary>, b: seq<Summary>, p: Policy)
    requires Evolves(a, b)
    ensures AtMostOneLive(a, p) ==> AtMostOneLive(b, p)
    ensures NoneLive(a, p) ==> NoneLive(b, p)
  {
    forall i | 0 <= i < |b| && IsCandidate(b[i], p) ensures IsCandidate(a[i], p) {
      ExhaustedStaysExhausted(a[i], b[i], p);
    }
  }

  lemma WitnessedStep(now: seq<Summary>, script: Script, seen: seq<seq<Summary>>, k: nat)
    requires Witnessed(now, script, seen) && k < |seen|
    ensures Evolves(Before(now, seen, k), seen[k])
  {
  }

  lemma {:induction false} SeenKeeps(now: seq<Summary>, script: Script, seen: seq<seq<Summary>>, p: Policy, k: nat)
    requires Witnessed(now, script, seen) && k < |seen| && AtMostOneLive(now, p)
    ensures AtMostOneLive(seen[k], p)
  {
    if k > 0 { SeenKeeps(now, script, seen, p, k - 1); }
    WitnessedStep(now, script, seen, k);
    EvolvingKeeps(Before(now, seen, k), seen[k], p);
  }

  /** What is live at an attempt was live at every attempt before it. */
  lemma {:induction false} WasLiveBefore(now: seq<Summary>, script: Script, seen: seq<seq<Summary>>, p: Policy,
                                         i: nat, k: nat, d: nat)
    requires Witnessed(now, script, seen) && i <= k < |seen|
    requires d < |seen[k]| && IsCandidate(seen[k][d], p)
    ensures d < |seen[i]| && IsCandidate(seen[i][d], p)
    decreases k
  {
    if i < k {
      WitnessedStep(now, script, seen, k);
      assert Before(now, seen, k) == seen[k - 1];
      ExhaustedStaysExhausted(seen[k - 1][d], seen[k][d], p);
      WasLiveBefore(now, script, seen, p, i, k - 1, d);
    }
  }

  /** After `no_match`, a delegation that is still live was shown by no listing at all. */
  lemma LiveWasNotShown(now: seq<Summary>, script: Script, seen: seq<seq<Summary>>, p: Policy, d: nat)
    requires Witnessed(now, script, seen) && Outcome(script, p) == NoMatch
    requires d < |After(now, seen)| && IsCandidate(After(now, seen)[d], p)
    ensures !Shown(script, seen, d)
  {
    NoMatchExactly(script, p);
    forall i: nat | i < |script| && script[i].ReadOk? && d < |seen[i]| ensures seen[i][d] !in script[i].value {
      WasLiveBefore(now, script, seen, p, i, |seen| - 1, d);
      assert !ShowsCandidate(script[i], p);
    }
  }

  /** A clearance has seen everything live exactly when nothing live is left. */
  lemma ShownExactlyWhenNoneLive(now: seq<Summary>, script: Script, seen: seq<seq<Summary>>, p: Policy)
    requires Witnessed(now, script, seen) && Outcome(script, p) == NoMatch
    ensures LiveOnesShown(now, script, seen, p) <==> NoneLive(After(now, seen), p)
  {
    forall d: nat | d < |After(now, seen)| && IsCandidate(After(now, seen)[d], p) ensures !Shown(script, seen, d) {
      LiveWasNotShown(now, script, seen, p, d);
    }
  }

  lemma StepKeepsInvariant(w: World, p: Policy, e: Event)
    requires Invariant(w, p) && Possible(w, e)
    requires Clears(p, e) ==> LiveOnesShown(w.delegations, e.script, e.seen, p)
    ensures Invariant(Next(w, p, e), p)
  {
    match e
    case Resume(script, seen) =>
      if seen != [] {
        SeenKeeps(w.delegations, script, seen, p, |seen| - 1);
      }
      if Outcome(script, p) == NoMatch { ShownExactlyWhenNoneLive(w.delegations, script, seen, p); }
    case Create(d) =>
    case Spend(after) => EvolvingKeeps(w.delegations, after, p);
    case Crash =>
  }

  lemma {:induction false} RunKeepsInvariant(w: World, p: Policy, history: seq<Event>)
    requires Invariant(w, p) && Run(w, p, history).Some? && Visible(w, p, history)
    ensures Invariant(Run(w, p, history).value, p)
  {
    if history != [] {
      var n := |history| - 1;
      RunKeepsInvariant(w, p, history[..n]);
      StepKeepsInvariant(Run(w, p, history[..n]).value, p, history[n]);
    }
  }

  /** A caller that creates only on `no_match` never holds two unexhausted delegations,
      however often it crashes and resumes and however late listings are, if every
      creation is visible by the last successful listing of each later reconciliation
      that clears it. */
  lemma NeverTwoLive(w: World, p: Policy, history: seq<Event>)
    requires AtMostOneLive(w.delegations, p) && w.caller.Idle?
    requires Run(w, p, history).Some? && Visible(w, p, history)
    ensures AtMostOneLive(Run(w, p, history).value.delegations, p)
  {
    RunKeepsInvariant(w, p, history);
  }

  /** A last listing that succeeds shows everything that is live then, whatever comes of it. */
  ghost predicate LastIsFresh(now: seq<Summary>, script: Script, seen: seq<seq<Summary>>, p: Policy) {
    script != [] && script[|script| - 1].ReadOk? ==>
      forall d | d in After(now, seen) && IsCandidate(d, p) :: d in script[|script| - 1].value
  }

  ghost predicate Fresh(w: World, p: Policy, history: seq<Event>) {
    history == [] ||
    var n := |history| - 1;
    && Fresh(w, p, history[..n])
    && var v := Run(w, p, history[..n]);
       v.Some? && history[n].Resume? ==> LastIsFresh(v.value.delegations, history[n].script, history[n].seen, p)
  }

  lemma {:induction false} FreshShowsLiveOnes(now: seq<Summary>, script: Script, seen: seq<seq<Summary>>, p: Policy)
    requires Witnessed(now, script, seen) && Outcome(script, p) == NoMatch && LastIsFresh(now, script, seen, p)
    ensures LiveOnesShown(now, script, seen, p)
  {
    NoMatchExactly(script, p);
    var last := |script| - 1;
    forall d: nat | d < |After(now, seen)| && IsCandidate(After(now, seen)[d], p) ensures Shown(script, seen, d) {
      assert After(now, seen) == seen[last] && seen[last][d] in script[last].value;
    }
  }

  lemma {:induction false} FreshMeansVisible(w: World, p: Policy, history: seq<Event>)
    requires Run(w, p, history).Some? && Fresh(w, p, history)
    ensures Visible(w, p, history)
  {
    if history != [] {
      var n := |history| - 1;
      FreshMeansVisible(w, p, history[..n]);
      if Clears(p, history[n]) {
        FreshShowsLiveOnes(Run(w, p, history[..n]).value.delegations, history[n].script, history[n].seen, p);
      }
    }
  }

  /** In particular never, if a last listing that succeeds always shows what is live. */
  lemma {:induction false} NeverTwoLiveWhenFresh(w: World, p: Policy, history: seq<Event>)
    requires AtMostOneLive(w.delegations, p) && w.caller.Idle?
    requires Run(w, p, history).Some? && Fresh(w, p, history)
    ensures AtMostOneLive(Run(w, p, history).value.delegations, p)
  {
    FreshMeansVisible(w, p, history);
    NeverTwoLive(w, p, history);
  }

  lemma {:induction false} RunContinues(w: World, p: Policy, before: seq<Event>, e: Event)
    requires Run(w, p, before).Some? && Possible(Run(w, p, before).value, e)
    ensures Run(w, p, before + [e]) == Some(Next(Run(w, p, before).value, p, e))
  {
    assert (before + [e])[..|before|] == before;
  }

  lemma {:induction false} EmptyListingClears(p: Policy)
    ensures Outcome([ReadOk([])], p) == NoMatch
  {
    assert Candidates([], p) == [];
  }

  lemma {:induction false} UnshownWitnessed(now: seq<Summary>)
    ensures Witnessed(now, [ReadOk([])], [now])
    ensures After(now, [now]) == now
  {
    assert Before(now, [now], 0) == now && Evolves(now, now);
  }

  /** The failing run: the listing does not show the new delegation yet when the caller
      resumes after a crash, and a second one is created. */
  lemma {:induction false} LateListingCreatesTwice(p: Policy, d: Summary)
    requires IsCandidate(d, p)
    ensures var history := [Resume([ReadOk([])], [[]]), Create(Some(d)), Crash, Resume([ReadOk([])], [[d]]),
            Create(Some(d))];
            Run(World([], Idle), p, history) == Some(World([d, d], Idle))
    ensures !AtMostOneLive([d, d], p)
  {
    var w := World([], Idle);
    var a, b, c, e := Resume([ReadOk([])], [[]]), Create(Some(d)), Crash, Resume([ReadOk([])], [[d]]);
    EmptyListingClears(p);
    UnshownWitnessed([]);
    UnshownWitnessed([d]);
    RunContinues(w, p, [], a);
    RunContinues(w, p, [] + [a], b);
    RunContinues(w, p, [] + [a] + [b], c);
    RunContinues(w, p, [] + [a] + [b] + [c], e);
    RunContinues(w, p, [] + [a] + [b] + [c] + [e], b);
    assert [] + [a] + [b] + [c] + [e] + [b] == [a, b, c, e, b];
    assert [] + [d] == [d] && [d] + [d] == [d, d];
    assert IsCandidate([d, d][0], p) && IsCandidate([d, d][1], p);
  }

  /** However the world goes on from here, with creations visible, no two live
      delegations are held. */
  ghost predicate Harmless(w: World, p: Policy) {
    forall later | Run(w, p, later).Some? && Visible(w, p, later) ::
      AtMostOneLive(Run(w, p, later).value.delegations, p)
  }

  lemma SecondCreation(w: World, p: Policy, d: nat)
    requires w.caller.Cleared? && d < |w.delegations| && IsCandidate(w.delegations[d], p)
    ensures !Harmless(w, p)
  {
    var again := [Create(Some(w.delegations[d]))];
    assert again[..0] == [];
    var ds := w.delegations + [w.delegations[d]];
    assert Run(w, p, again) == Some(World(ds, Idle));
    assert !Clears(p, again[0]) && Visible(w, p, again[..0]);
    assert Visible(w, p, again);
    assert IsCandidate(ds[d], p) && IsCandidate(ds[|ds| - 1], p);
  }

  /** The condition is exact: a clearance is harmless exactly when the listings have
      shown every delegation that is still live. */
  lemma ClearanceHarmlessExactly(w: World, p: Policy, e: Event)
    requires Invariant(w, p) && Possible(w, e) && Clears(p, e)
    ensures Harmless(Next(w, p, e), p) <==> LiveOnesShown(w.delegations, e.script, e.seen, p)
  {
    var v := Next(w, p, e);
    ShownExactlyWhenNoneLive(w.delegations, e.script, e.seen, p);
    if NoneLive(v.delegations, p) {
      StepKeepsInvariant(w, p, e);
      forall later | Run(v, p, later).Some? && Visible(v, p, later)
        ensures AtMostOneLive(Run(v, p, later).value.delegations, p)
      {
        RunKeepsInvariant(v, p, later);
      }
    } else {
      var d: nat :| d < |v.delegations| && IsCandidate(v.delegations[d], p);
      SecondCreation(v, p, d);
    }
  }
}
