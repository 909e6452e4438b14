/** The fail-closed verdict of `runMesh` (packages/verification/src/mesh.ts). */
module MeshVerdict {
  import opened Outcomes

  datatype Status = Pass | Fail | Indeterminate | SkippedByPolicy
  datatype Severity = Info | Warning | Blocking
  datatype Decision = Pass | Conditional | Fail | Quarantined
  datatype Injection = Clean | Suspected | Confirmed

  /** The fields of a verification result that the verdict reads. */
  datatype VerificationResult = VerificationResult(
    verifierId: string, verifierVersion: string, status: Status, severity: Severity, ruleId: string,
    failureCodes: seq<string>, limitations: seq<string>, score: Option<real>)

  /** `resultsById` in insertion order: the registered id and the returned result. */
  type Results = seq<(string, VerificationResult)>

  const SHARED_MANDATORY_IDS := [
    "schema_verifier", "evidence_accessibility_verifier", "claim_evidence_verifier", "freshness_verifier",
    "completeness_verifier", "cross_source_verifier", "provenance_verifier", "prompt_injection_verifier"]

  function MandatoryIds(mode: string): seq<string> {
    if mode == "standard" then SHARED_MANDATORY_IDS
    else if mode == "independent_reproduction" then SHARED_MANDATORY_IDS + ["reproduction_verifier"]
    else []
  }

  // ---- What one verifier contributes ----

  datatype Behaviour = Returned(result: VerificationResult) | Threw | TimedOut

  /** `runVerifier`: a result passes through; an exception or a timeout becomes a blocking
      failure. */
  function RunVerifier(id: string, version: string, behaviour: Behaviour): (r: VerificationResult)
    ensures behaviour.Returned? ==> Returned(r) == behaviour
    ensures !behaviour.Returned? ==> r.verifierId == id && r.status == Status.Fail && r.severity == Blocking
  {
    match behaviour
    case Returned(result) => result
    case Threw => FailedClosed(id, version, "verifier_exception")
    case TimedOut => FailedClosed(id, version, "verifier_timeout")
  }

  function FailedClosed(id: string, version: string, rule: string): VerificationResult {
    VerificationResult(id, version, Status.Fail, Blocking, rule, [rule], [], None)
  }

  function StatusText(s: Status): string {
    match s
    case Pass => "pass"
    case Fail => "fail"
    case Indeterminate => "indeterminate"
    case SkippedByPolicy => "skipped_by_policy"
  }

  // ---- Reading results ----

  function Get(results: Results, id: string): (r: Option<VerificationResult>)
    ensures r.Some? ==> (id, r.value) in results
    ensures r.None? ==> forall p | p in results :: p.0 != id
  {
    if results == [] then None
    else if results[0].0 == id then Some(results[0].1)
    else Get(results[1..], id)
  }

  function Passed(results: Results, id: string): bool {
    var r := Get(results, id);
    r.Some? && r.value.status == Status.Pass
  }

  function ScoreOr(results: Results, id: string, default: real): real {
    var r := Get(results, id);
    if r.Some? && r.value.score.Some? then r.value.score.value else default
  }

  /** `numericScoreOrRatio` */
  function ScoreOrRatio(results: Results, id: string): real {
    ScoreOr(results, id, if Passed(results, id) then 1.0 else 0.0)
  }

  const INJECTION_PREFIX := "prompt_injection_result="

  function FirstWithPrefix(lines: seq<string>, prefix: string): (line: Option<string>)
    ensures line.Some? ==> prefix <= line.value && line.value in lines
  {
    if lines == [] then None
    else if prefix <= lines[0] then Some(lines[0])
    else FirstWithPrefix(lines[1..], prefix)
  }

  function UpTo(s: string, stop: char): string {
    if s == "" || s[0] == stop then "" else [s[0]] + UpTo(s[1..], stop)
  }

  /** The text between the first and the second `=` of the line. */
  function InjectionOfLine(line: string): Injection
    requires INJECTION_PREFIX <= line
  {
    var value := UpTo(line[|INJECTION_PREFIX|..], '=');
    if value == "confirmed" then Confirmed else if value == "suspected" then Suspected else Clean
  }

  /** `extractInjectionResult` */
  function InjectionOf(results: Results): Injection {
    var r := Get(results, "prompt_injection_verifier");
    if r.None? then Clean
    else
      match FirstWithPrefix(r.value.limitations, INJECTION_PREFIX)
      case None => Clean
      case Some(line) => InjectionOfLine(line)
  }

  // ---- The decision ----

  /** The results that may influence the decision. */
  predicate Counted(mode: string, requireAll: bool, r: VerificationResult) {
    r.verifierId in MandatoryIds(mode) || requireAll
  }

  predicate Blocks(r: VerificationResult) { r.status == Status.Fail && r.severity == Blocking }

  predicate Undecided(r: VerificationResult) { r.status == Indeterminate || r.status == SkippedByPolicy }

  ghost predicate AnyBlockingResult(mode: string, requireAll: bool, results: Results) {
    exists p | p in results :: Counted(mode, requireAll, p.1) && Blocks(p.1)
  }

  ghost predicate AnyBlocking(mode: string, requireAll: bool, present: set<string>, results: Results) {
    || (exists id | id in MandatoryIds(mode) :: id !in present)
    || AnyBlockingResult(mode, requireAll, results)
  }

  ghost predicate AnyUndecided(mode: string, requireAll: bool, results: Results) {
    exists p | p in results :: Counted(mode, requireAll, p.1) && Undecided(p.1)
  }

  ghost function Decide(mode: string, requireAll: bool, present: set<string>, results: Results): Decision {
    if AnyBlocking(mode, requireAll, present, results) then
      if InjectionOf(results) == Confirmed then Quarantined else Decision.Fail
    else if AnyUndecided(mode, requireAll, results) then Conditional
    else Decision.Pass
  }

  function Missing(ids: seq<string>, present: set<string>): (m: seq<string>)
    ensures forall id :: id in m <==> id in ids && id !in present
  {
    if ids == [] then []
    else (if ids[0] in present then [] else [ids[0]]) + Missing(ids[1..], present)
  }

  function MissingRequirements(ids: seq<string>): seq<string> {
    if ids == [] then []
    else MissingRequirements(ids[..|ids| - 1]) + ["missing_mandatory_verifier:" + ids[|ids| - 1]]
  }

  function Requirement(mode: string, requireAll: bool, r: VerificationResult): seq<string> {
    if !Counted(mode, requireAll, r) then []
    else if Blocks(r) then [r.ruleId]
    else if Undecided(r) then [r.ruleId + ":" + StatusText(r.status)]
    else []
  }

  /** What the results give, one after the other. */
  function Gathered(results: Results, gives: VerificationResult -> seq<string>): seq<string> {
    if results == [] then [] else Gathered(results[..|results| - 1], gives) + gives(results[|results| - 1].1)
  }

  function Requirements(mode: string, requireAll: bool, results: Results): seq<string> {
    Gathered(results, r => Requirement(mode, requireAll, r))
  }

  function Codes(mode: string, requireAll: bool, r: VerificationResult): seq<string> {
    if Counted(mode, requireAll, r) && Blocks(r) then r.failureCodes else []
  }

  function Failures(mode: string, requireAll: bool, results: Results): seq<string> {
    Gathered(results, r => Codes(mode, requireAll, r))
  }

  function AverageScore(a: real, b: real, c: real, d: real): real { (a + b + c + d) / 4.0 }

  datatype Verdict = Verdict(
    decision: Decision, failedRequirements: seq<string>, deterministicFailures: seq<string>, injection: Injection,
    schemaValid: bool, materialClaimsSupported: bool, provenanceValid: bool,
    evidenceAccessibility: real, freshness: real, completeness: real, crossSourceAgreement: real, score: real)

  function Assemble(decision: Decision, requirements: seq<string>, failures: seq<string>, results: Results): Verdict {
    var accessibility := ScoreOrRatio(results, "evidence_accessibility_verifier");
    var freshness := ScoreOr(results, "freshness_verifier", 0.0);
    var completeness := ScoreOr(results, "completeness_verifier", 0.0);
    var agreement := ScoreOr(results, "cross_source_verifier", 1.0);
    Verdict(
      decision, requirements, failures, InjectionOf(results), Passed(results, "schema_verifier"),
      Passed(results, "claim_evidence_verifier"), Passed(results, "provenance_verifier"),
      accessibility, freshness, completeness, agreement,
      if decision == Decision.Pass then AverageScore(accessibility, freshness, completeness, agreement) else 0.0)
  }

  ghost function VerdictOf(mode: string, requireAll: bool, present: set<string>, results: Results): Verdict {
    var missing := MissingRequirements(Missing(MandatoryIds(mode), present));
    Assemble(Decide(mode, requireAll, present, results), missing + Requirements(mode, requireAll, results),
             missing + Failures(mode, requireAll, results), results)
  }

  method ListMissing(missing: seq<string>) returns (requirements: seq<string>)
    ensures requirements == MissingRequirements(missing)
  {
    requirements := [];
    for i := 0 to |missing|
      invariant requirements == MissingRequirements(missing[..i])
    {
      assert missing[..i + 1][..i] == missing[..i];
      requirements := requirements + ["missing_mandatory_verifier:" + missing[i]];
    }
    assert missing[..|missing|] == missing;
  }

  lemma FlagsExtend(mode: string, requireAll: bool, results: Results, i: nat)
    requires i < |results|
    ensures AnyBlockingResult(mode, requireAll, results[..i + 1]) <==>
            AnyBlockingResult(mode, requireAll, results[..i])
                || (Counted(mode, requireAll, results[i].1) && Blocks(results[i].1))
    ensures AnyUndecided(mode, requireAll, results[..i + 1]) <==>
            AnyUndecided(mode, requireAll, results[..i])
                || (Counted(mode, requireAll, results[i].1) && Undecided(results[i].1))
  {
    assert results[..i + 1] == results[..i] + [results[i]];
    assert results[i] in results[..i + 1];
  }

  lemma ListsExtend(mode: string, requireAll: bool, results: Results, i: nat)
    requires i < |results|
    ensures Requirements(mode, requireAll, results[..i + 1])
         == Requirements(mode, requireAll, results[..i]) + Requirement(mode, requireAll, results[i].1)
    ensures Failures(mode, requireAll, results[..i + 1])
         == Failures(mode, requireAll, results[..i]) + Codes(mode, requireAll, results[i].1)
  {
    assert results[..i + 1][..i] == results[..i];
  }

  method CountResults(mode: string, requireAll: bool, results: Results)
    returns (requirements: seq<string>, failures: seq<string>, anyBlocking: bool, anyUndecided: bool)
    ensures requirements == Requirements(mode, requireAll, results)
    ensures failures == Failures(mode, requireAll, results)
    ensures anyBlocking <==> AnyBlockingResult(mode, requireAll, results)
    ensures anyUndecided <==> AnyUndecided(mode, requireAll, results)
  {
    requirements, failures, anyBlocking, anyUndecided := [], [], false, false;
    for i := 0 to |results|
      invariant requirements == Requirements(mode, requireAll, results[..i])
      invariant failures == Failures(mode, requireAll, results[..i])
      invariant anyBlocking <==> AnyBlockingResult(mode, requireAll, results[..i])
      invariant anyUndecided <==> AnyUndecided(mode, requireAll, results[..i])
    {
      FlagsExtend(mode, requireAll, results, i);
      ListsExtend(mode, requireAll, results, i);
      var r := results[i].1;
      if Counted(mode, requireAll, r) {
        if Blocks(r) {
          anyBlocking := true;
          requirements := requirements + [r.ruleId];
          failures := failures + r.failureCodes;
        }
        if Undecided(r) {
          anyUndecided := true;
          requirements := requirements + [r.ruleId + ":" + StatusText(r.status)];
        }
      }
    }
    assert results[..|results|] == results;
  }

  /** The part of `runMesh` that follows the last wave. */
  method ComputeVerdict(mode: string, requireAll: bool, present: set<string>, results: Results) returns (v: Verdict)
    ensures v == VerdictOf(mode, requireAll, present, results)
    ensures v.decision == Decision.Pass <==>
            && (forall id | id in MandatoryIds(mode) :: id in present)
            && (forall p | p in results && Counted(mode, requireAll, p.1) :: !Blocks(p.1) && !Undecided(p.1))
    ensures v.decision == Quarantined <==> AnyBlocking(mode, requireAll, present, results) && v.injection == Confirmed
    ensures v.decision == Decision.Fail <==> AnyBlocking(mode, requireAll, present, results) && v.injection != Confirmed
    ensures v.decision != Decision.Pass ==> v.score == 0.0
  {
    var missing := Missing(MandatoryIds(mode), present);
    var missingRequirements := ListMissing(missing);
    var requirements, failures, anyBlocking, anyUndecided := CountResults(mode, requireAll, results);
    anyBlocking := |missing| > 0 || anyBlocking;
    assert |missing| > 0 ==> missing[0] in missing;

    var injection := InjectionOf(results);
    var decision;
    if anyBlocking {
      decision := if injection == Confirmed then Quarantined else Decision.Fail;
    } else if anyUndecided {
      decision := Conditional;
    } else {
      decision := Decision.Pass;
    }
    assert decision == Decide(mode, requireAll, present, results);
    v := Assemble(decision, missingRequirements + requirements, missingRequirements + failures, results);
  }

  // ---- Fail-closed properties of the decision ----

  function Rank(d: Decision): nat {
    match d
    case Pass => 2
    case Conditional => 1
    case Fail => 0
    case Quarantined => 0
  }

  /** `r'` is what remains of `r` after a crash, a timeout or a loss of confidence. */
  ghost predicate Degrades(r: VerificationResult, r': VerificationResult) {
    r'.verifierId == r.verifierId && (Blocks(r') || (r.status == Status.Pass && Undecided(r')))
  }

  /** Degrading a result never raises the decision. */
  lemma DegradingNeverRaises(mode: string, requireAll: bool, present: set<string>, results: Results, k: nat,
                             r': VerificationResult)
    requires k < |results| && Degrades(results[k].1, r')
    ensures Rank(Decide(mode, requireAll, present, results[k := (results[k].0, r')]))
         <= Rank(Decide(mode, requireAll, present, results))
  {
    var after := results[k := (results[k].0, r')];
    assert after[k] in after;
    assert forall p | p in results && p != results[k] :: p in after by {
      forall p | p in results && p != results[k] ensures p in after {
        var i :| 0 <= i < |results| && results[i] == p;
        assert after[i] == p;
      }
    }
  }

  /** In particular an exception or a timeout of a counted verifier forces the lowest rank. */
  lemma CrashForcesLowestRank(mode: string, requireAll: bool, present: set<string>, results: Results, k: nat,
                              version: string, behaviour: Behaviour)
    requires k < |results| && Counted(mode, requireAll, results[k].1) && !behaviour.Returned?
    ensures var crashed := RunVerifier(results[k].1.verifierId, version, behaviour);
            Rank(Decide(mode, requireAll, present, results[k := (results[k].0, crashed)])) == 0
  {
    var crashed := RunVerifier(results[k].1.verifierId, version, behaviour);
    var after := results[k := (results[k].0, crashed)];
    assert after[k] in after;
  }

  /** Without a mandatory verifier the decision has the lowest rank, whatever the others say. */
  lemma MissingMandatoryForcesLowestRank(mode: string, requireAll: bool, present: set<string>, results: Results,
                                         id: string)
    requires id in MandatoryIds(mode) && id !in present
    ensures Rank(Decide(mode, requireAll, present, results)) == 0
  {
  }

  /** Every verifier returned a result that carries its own id. */
  ghost predicate OwnIds(results: Results) {
    forall p | p in results :: p.1.verifierId == p.0
  }

  lemma {:induction false} GetSkips(results: Results, k: nat, id: string)
    requires k < |results| && results[k].0 != id
    ensures Get(results[..k] + results[k + 1..], id) == Get(results, id)
  {
    var without := results[..k] + results[k + 1..];
    if k == 0 {
      assert without == results[1..];
    } else {
      GetSkips(results[1..], k - 1, id);
      assert without[0] == results[0];
      assert without[1..] == results[1..][..k - 1] + results[1..][k..];
    }
  }

  lemma InjectionIgnoresOptional(mode: string, results: Results, k: nat)
    requires k < |results| && results[k].0 !in MandatoryIds(mode) && MandatoryIds(mode) != []
    ensures InjectionOf(results[..k] + results[k + 1..]) == InjectionOf(results)
  {
    assert MandatoryIds(mode)[7] == "prompt_injection_verifier";
    GetSkips(results, k, "prompt_injection_verifier");
  }

  lemma FlagsIgnoreOptional(mode: string, present: set<string>, without: Results,
                            optional: (string, VerificationResult), results: Results)
    requires optional.1.verifierId == optional.0 && optional.0 !in MandatoryIds(mode)
    requires forall p :: p in results <==> p in without || p == optional
    ensures AnyBlocking(mode, false, present, without) <==> AnyBlocking(mode, false, present, results)
    ensures AnyBlocking(mode, false, present - {optional.0}, without) <==> AnyBlocking(mode, false, present, results)
    ensures AnyUndecided(mode, false, without) <==> AnyUndecided(mode, false, results)
  {
  }

  /** An optional verifier never changes the decision, unless all are required:
      neither its result nor its registration matters. */
  lemma OptionalNeverDecides(mode: string, present: set<string>, results: Results, k: nat)
    requires OwnIds(results) && k < |results| && results[k].0 !in MandatoryIds(mode)
    ensures Decide(mode, false, present, results[..k] + results[k + 1..]) == Decide(mode, false, present, results)
    ensures Decide(mode, false, present - {results[k].0}, results[..k] + results[k + 1..])
            == Decide(mode, false, present, results)
  {
    var without := results[..k] + results[k + 1..];
    assert results == results[..k] + [results[k]] + results[k + 1..];
    assert results[k] in results;
    FlagsIgnoreOptional(mode, present, without, results[k], results);
    if MandatoryIds(mode) != [] {
      InjectionIgnoresOptional(mode, results, k);
    }
  }

  /** When a blocking result decides: it forces the lowest rank exactly when it is
      counted, by the id written in it, or something else blocks anyway. */
  lemma BlockingDecidesExactly(mode: string, requireAll: bool, present: set<string>, results: Results, k: nat)
    requires k < |results| && Blocks(results[k].1)
    ensures Rank(Decide(mode, requireAll, present, results)) == 0 <==>
            || Counted(mode, requireAll, results[k].1)
            || AnyBlocking(mode, requireAll, present, results[..k] + results[k + 1..])
  {
    var without := results[..k] + results[k + 1..];
    assert results == results[..k] + [results[k]] + results[k + 1..];
    assert results[k] in results;
    assert forall p :: p in results <==> p in without || p == results[k];
  }

  /** The requirement on ids is needed: in every mode, a blocking failure under any label
      that is not mandatory leaves a `pass` as it is. */
  lemma MislabelledFailureIsNotCounted(mode: string, other: string, results: Results, k: nat, present: set<string>)
    requires k < |results| && Decide(mode, false, present, results) == Decision.Pass
    requires other !in MandatoryIds(mode)
    ensures var r := results[k].1.(verifierId := other, status := Status.Fail, severity := Blocking);
            Decide(mode, false, present, results[k := (results[k].0, r)]) == Decision.Pass
  {
    var r := results[k].1.(verifierId := other, status := Status.Fail, severity := Blocking);
    var after := results[k := (results[k].0, r)];
    assert forall i | 0 <= i < |after| :: after[i] == (results[k].0, r) || after[i] in results;
  }

  // ---- Each field of the verdict is its own verifier's ----

  ghost predicate DistinctIds(results: Results) {
    forall i, j | 0 <= i < j < |results| :: results[i].0 != results[j].0
  }

  lemma {:induction false} GetFinds(results: Results, k: nat)
    requires DistinctIds(results) && k < |results|
    ensures Get(results, results[k].0) == Some(results[k].1)
  {
    if k > 0 {
      GetFinds(results[1..], k - 1);
    }
  }

  /** A registered verifier's result decides its own field and no other result does. */
  lemma FieldsAreTheirVerifiers(mode: string, requireAll: bool, present: set<string>, results: Results, k: nat)
    requires DistinctIds(results) && k < |results|
    ensures var v, id, r := VerdictOf(mode, requireAll, present, results), results[k].0, results[k].1;
            && (id == "schema_verifier" ==> (v.schemaValid <==> r.status == Status.Pass))
            && (id == "claim_evidence_verifier" ==> (v.materialClaimsSupported <==> r.status == Status.Pass))
            && (id == "provenance_verifier" ==> (v.provenanceValid <==> r.status == Status.Pass))
            && (id == "freshness_verifier" && r.score.Some? ==> v.freshness == r.score.value)
            && (id == "completeness_verifier" && r.score.Some? ==> v.completeness == r.score.value)
            && (id == "cross_source_verifier" && r.score.Some? ==> v.crossSourceAgreement == r.score.value)
            && (id == "evidence_accessibility_verifier" ==>
                  v.evidenceAccessibility ==
                    if r.score.Some? then r.score.value else if r.status == Status.Pass then 1.0 else 0.0)
  {
    GetFinds(results, k);
  }

  /** Without a result the three checks count as failed and the scores as zero, but
      the sources count as agreeing. */
  lemma AbsentVerifiers(mode: string, requireAll: bool, present: set<string>, results: Results, id: string)
    requires forall p | p in results :: p.0 != id
    ensures var v := VerdictOf(mode, requireAll, present, results);
            && (id == "schema_verifier" ==> !v.schemaValid)
            && (id == "claim_evidence_verifier" ==> !v.materialClaimsSupported)
            && (id == "provenance_verifier" ==> !v.provenanceValid)
            && (id == "freshness_verifier" ==> v.freshness == 0.0)
            && (id == "completeness_verifier" ==> v.completeness == 0.0)
            && (id == "cross_source_verifier" ==> v.crossSourceAgreement == 1.0)
            && (id == "evidence_accessibility_verifier" ==> v.evidenceAccessibility == 0.0)
  {
    assert Get(results, id).None?;
  }

  function InjectionWord(i: Injection): string {
    match i
    case Clean => "clean"
    case Suspected => "suspected"
    case Confirmed => "confirmed"
  }

  lemma {:induction false} FirstWithPrefixIs(lines: seq<string>, prefix: string, n: nat)
    requires n < |lines| && prefix <= lines[n] && forall j | 0 <= j < n :: !(prefix <= lines[j])
    ensures FirstWithPrefix(lines, prefix) == Some(lines[n])
  {
    if n > 0 { FirstWithPrefixIs(lines[1..], prefix, n - 1); }
  }

  lemma {:induction false} UpToAll(s: string, stop: char)
    requires stop !in s
    ensures UpTo(s, stop) == s
  {
    if s != "" { UpToAll(s[1..], stop); }
  }

  lemma DropPrefix(prefix: string, rest: string)
    ensures prefix <= prefix + rest && (prefix + rest)[|prefix|..] == rest
  {
  }

  lemma WordIsRead(word: Injection)
    ensures INJECTION_PREFIX <= INJECTION_PREFIX + InjectionWord(word)
    ensures InjectionOfLine(INJECTION_PREFIX + InjectionWord(word)) == word
  {
    DropPrefix(INJECTION_PREFIX, InjectionWord(word));
    UpToAll(InjectionWord(word), '=');
  }

  /** The first injection line among the limitations is read back as it was written. */
  lemma InjectionIsRead(results: Results, k: nat, n: nat, word: Injection)
    requires DistinctIds(results) && k < |results| && results[k].0 == "prompt_injection_verifier"
    requires n < |results[k].1.limitations| && results[k].1.limitations[n] == INJECTION_PREFIX + InjectionWord(word)
    requires forall j | 0 <= j < n :: !(INJECTION_PREFIX <= results[k].1.limitations[j])
    ensures InjectionOf(results) == word
  {
    GetFinds(results, k);
    WordIsRead(word);
    FirstWithPrefixIs(results[k].1.limitations, INJECTION_PREFIX, n);
  }

  // ---- The decision by names and statuses ----

  /** The verifiers that a mode demands, by name. */
  ghost predicate Demanded(mode: string, id: string) {
    || (mode in {"standard", "independent_reproduction"} &&
        id in {"schema_verifier", "evidence_accessibility_verifier", "claim_evidence_verifier",
               "freshness_verifier", "completeness_verifier", "cross_source_verifier",
               "provenance_verifier", "prompt_injection_verifier"})
    || (mode == "independent_reproduction" && id == "reproduction_verifier")
  }

  lemma MandatoryByName(mode: string, id: string)
    ensures id in MandatoryIds(mode) <==> Demanded(mode, id)
  {
  }

  lemma {:induction false} UpToExactly(s: string, stop: char, word: string)
    requires stop !in word
    ensures UpTo(s, stop) == word <==> s == word || word + [stop] <= s
  {
    assert (word + [stop])[0] == if word == "" then stop else word[0];
    if s != "" && s[0] != stop && word != "" {
      UpToExactly(s[1..], stop, word[1..]);
      assert word == [word[0]] + word[1..] && s == [s[0]] + s[1..];
      assert word + [stop] == [word[0]] + (word[1..] + [stop]);
    }
  }

  /** Line `n` is the first that reports on injection, and says `word`. */
  ghost predicate SaysAt(lines: seq<string>, n: nat, word: string) {
    && n < |lines| && (forall j: nat | j < n :: !("prompt_injection_result=" <= lines[j]))
    && (lines[n] == "prompt_injection_result=" + word || "prompt_injection_result=" + word + "=" <= lines[n])
  }

  /** The first line that reports on injection says `word`, alone or before another `=`. */
  ghost predicate Reports(lines: seq<string>, word: string) {
    exists n: nat :: SaysAt(lines, n, word)
  }

  lemma LineSays(line: string, word: string)
    requires "prompt_injection_result=" <= line && '=' !in word
    ensures UpTo(line[|INJECTION_PREFIX|..], '=') == word <==>
            line == "prompt_injection_result=" + word || "prompt_injection_result=" + word + "=" <= line
  {
    var prefix, rest := "prompt_injection_result=", line[|INJECTION_PREFIX|..];
    assert line == prefix + rest;
    UpToExactly(rest, '=', word);
    SamePrefix(prefix, word, rest);
    SamePrefix(prefix, word + "=", rest);
    assert prefix + word + "=" == prefix + (word + "=");
  }

  lemma SamePrefix(prefix: string, a: string, b: string)
    ensures prefix + a == prefix + b <==> a == b
    ensures prefix + a <= prefix + b <==> a <= b
  {
    assert (prefix + a)[|prefix|..] == a && (prefix + b)[|prefix|..] == b;
    if prefix + a <= prefix + b {
      assert forall i | 0 <= i < |a| :: a[i] == (prefix + a)[|prefix| + i] == (prefix + b)[|prefix| + i];
    }
  }

  lemma {:induction false} FirstWithPrefixNone(lines: seq<string>, prefix: string)
    ensures FirstWithPrefix(lines, prefix).None? <==> forall i | 0 <= i < |lines| :: !(prefix <= lines[i])
  {
    if lines != [] {
      FirstWithPrefixNone(lines[1..], prefix);
      assert forall i | 0 < i < |lines| :: lines[i] == lines[1..][i - 1];
    }
  }

  lemma FirstPrefixed(lines: seq<string>) returns (n: nat)
    requires exists i :: 0 <= i < |lines| && "prompt_injection_result=" <= lines[i]
    ensures n < |lines| && "prompt_injection_result=" <= lines[n]
    ensures forall j: nat | j < n :: !("prompt_injection_result=" <= lines[j])
  {
    n := 0;
    while !("prompt_injection_result=" <= lines[n])
      invariant n < |lines| && forall j: nat | j < n :: !("prompt_injection_result=" <= lines[j])
      decreases |lines| - n
    {
      n := n + 1;
    }
  }

  lemma FirstLineSays(lines: seq<string>, n: nat, word: string)
    requires '=' !in word && n < |lines| && "prompt_injection_result=" <= lines[n]
    requires forall j: nat | j < n :: !("prompt_injection_result=" <= lines[j])
    ensures FirstWithPrefix(lines, INJECTION_PREFIX) == Some(lines[n])
    ensures UpTo(lines[n][|INJECTION_PREFIX|..], '=') == word <==> SaysAt(lines, n, word)
  {
    FirstWithPrefixIs(lines, INJECTION_PREFIX, n);
    LineSays(lines[n], word);
  }

  lemma InjectionOfLines(lines: seq<string>, word: string)
    requires '=' !in word
    ensures Reports(lines, word) <==>
            var line := FirstWithPrefix(lines, INJECTION_PREFIX);
            line.Some? && UpTo(line.value[|INJECTION_PREFIX|..], '=') == word
  {
    FirstWithPrefixNone(lines, INJECTION_PREFIX);
    if FirstWithPrefix(lines, INJECTION_PREFIX).Some? {
      var n := FirstPrefixed(lines);
      FirstLineSays(lines, n, word);
      forall m: nat | SaysAt(lines, m, word) ensures m == n {
        SaysHasPrefix(lines, m, word);
      }
    }
    if n: nat :| SaysAt(lines, n, word) {
      SaysHasPrefix(lines, n, word);
    }
  }

  lemma SaysHasPrefix(lines: seq<string>, n: nat, word: string)
    requires SaysAt(lines, n, word)
    ensures "prompt_injection_result=" <= lines[n]
  {
  }

  /** What the injection verifier's lines make of the verdict. */
  lemma InjectionExactly(results: Results, k: nat)
    requires DistinctIds(results) && k < |results| && results[k].0 == "prompt_injection_verifier"
    ensures InjectionOf(results) == Confirmed <==> Reports(results[k].1.limitations, "confirmed")
    ensures InjectionOf(results) == Suspected <==> Reports(results[k].1.limitations, "suspected")
  {
    GetFinds(results, k);
    InjectionOfLines(results[k].1.limitations, "confirmed");
    InjectionOfLines(results[k].1.limitations, "suspected");
    assert "confirmed"[0] == 'c' && "suspected"[0] == 's';
  }

  /** `x` reports a demanded verifier that is missing. */
  ghost predicate ReportsMissing(mode: string, present: set<string>, x: string) {
    exists id :: Demanded(mode, id) && id !in present && x == "missing_mandatory_verifier:" + id
  }

  /** `x` is a requirement that the result fails. */
  ghost predicate FailsRequirement(mode: string, requireAll: bool, r: VerificationResult, x: string) {
    && (requireAll || Demanded(mode, r.verifierId))
    && match r.status
       case Pass => false
       case Fail => r.severity == Blocking && x == r.ruleId
       case Indeterminate => x == r.ruleId + ":indeterminate"
       case SkippedByPolicy => x == r.ruleId + ":skipped_by_policy"
  }

  /** `x` is a code of a failure that blocks. */
  ghost predicate FailsWith(mode: string, requireAll: bool, r: VerificationResult, x: string) {
    && (requireAll || Demanded(mode, r.verifierId))
    && r.status == Status.Fail && r.severity == Blocking && x in r.failureCodes
  }

  lemma {:induction false} MissingListed(ids: seq<string>, x: string)
    ensures x in MissingRequirements(ids) <==> exists id | id in ids :: x == "missing_mandatory_verifier:" + id
  {
    if ids != [] {
      var n := |ids| - 1;
      MissingListed(ids[..n], x);
      assert ids == ids[..n] + [ids[n]];
    }
  }

  lemma MissingReported(mode: string, present: set<string>, x: string)
    ensures x in MissingRequirements(Missing(MandatoryIds(mode), present)) <==> ReportsMissing(mode, present, x)
  {
    MissingListed(Missing(MandatoryIds(mode), present), x);
    forall id { MandatoryByName(mode, id); }
  }

  lemma CountedByName(mode: string, requireAll: bool, r: VerificationResult)
    ensures Counted(mode, requireAll, r) <==> requireAll || Demanded(mode, r.verifierId)
  {
    MandatoryByName(mode, r.verifierId);
  }

  lemma RequirementOfResult(mode: string, requireAll: bool, r: VerificationResult, x: string)
    ensures x in Requirement(mode, requireAll, r) <==> FailsRequirement(mode, requireAll, r, x)
    ensures x in Codes(mode, requireAll, r) <==> FailsWith(mode, requireAll, r, x)
  {
    CountedByName(mode, requireAll, r);
    SuffixedId(r.ruleId);
  }

  lemma SuffixedId(id: string)
    ensures id + ":" + "indeterminate" == id + ":indeterminate"
    ensures id + ":" + "skipped_by_policy" == id + ":skipped_by_policy"
  {
    assert ":" + "indeterminate" == ":indeterminate" && ":" + "skipped_by_policy" == ":skipped_by_policy";
    assert id + ":" + "indeterminate" == id + (":" + "indeterminate");
    assert id + ":" + "skipped_by_policy" == id + (":" + "skipped_by_policy");
  }

  lemma {:induction false} GatheredFromSome(results: Results, gives: VerificationResult -> seq<string>, x: string)
    ensures x in Gathered(results, gives) <==> exists p | p in results :: x in gives(p.1)
  {
    if results != [] {
      var n := |results| - 1;
      GatheredFromSome(results[..n], gives, x);
      assert results == results[..n] + [results[n]];
    }
  }

  /** A verdict lists as failed exactly the missing verifiers and what the results fail. */
  lemma RequirementsExactly(mode: string, requireAll: bool, present: set<string>, results: Results, x: string)
    ensures x in VerdictOf(mode, requireAll, present, results).failedRequirements <==>
            || ReportsMissing(mode, present, x)
            || exists p | p in results :: FailsRequirement(mode, requireAll, p.1, x)
    ensures x in VerdictOf(mode, requireAll, present, results).deterministicFailures <==>
            || ReportsMissing(mode, present, x)
            || exists p | p in results :: FailsWith(mode, requireAll, p.1, x)
  {
    MissingReported(mode, present, x);
    GatheredFromSome(results, r => Requirement(mode, requireAll, r), x);
    GatheredFromSome(results, r => Codes(mode, requireAll, r), x);
    forall p | p in results { RequirementOfResult(mode, requireAll, p.1, x); }
  }

  /** The score never exceeds 1 when the verifiers' own scores do not. */
  lemma ScoreBounded(mode: string, requireAll: bool, present: set<string>, results: Results)
    requires forall p | p in results && p.1.score.Some? :: 0.0 <= p.1.score.value <= 1.0
    ensures 0.0 <= VerdictOf(mode, requireAll, present, results).score <= 1.0
  {
  }
}
