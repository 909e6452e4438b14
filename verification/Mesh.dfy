/** `runMesh` as a whole (packages/verification/src/mesh.ts). */
module Mesh {
  import opened Outcomes
  import opened Text
  import opened Graph
  import opened VerifierGraph
  import opened Waves
  import opened MeshVerdict
  import MeshRun

  ghost predicate ValidVerifierSet(verifiers: seq<Verifier>) {
    UniqueIds(verifiers) && DependenciesPresent(verifiers) && Acyclic(GraphOf(verifiers))
  }

  function PresentIds(verifiers: seq<Verifier>): set<string> {
    set id | id in Ids(verifiers)
  }

  function Versions(verifiers: seq<Verifier>): (m: map<string, string>)
    ensures forall id :: id in m <==> id in Ids(verifiers)
  {
    if verifiers == [] then map[]
    else
      var n := |verifiers| - 1;
      assert Ids(verifiers) == Ids(verifiers[..n]) + [verifiers[n].verifierId];
      Versions(verifiers[..n])[verifiers[n].verifierId := verifiers[n].verifierVersion]
  }

  /** What each registered verifier contributes, given how it behaves. */
  function Outcome(verifiers: seq<Verifier>, behaviour: map<string, Behaviour>): (m: map<string, VerificationResult>)
    requires forall id | id in Ids(verifiers) :: id in behaviour
    ensures forall id :: id in m <==> id in Ids(verifiers)
  {
    map id | id in Versions(verifiers) :: RunVerifier(id, Versions(verifiers)[id], behaviour[id])
  }

  /** The wave loop: results are stored wave by wave, in wave order. */
  method RunWaves(waves: seq<seq<string>>, outcome: map<string, VerificationResult>) returns (results: Results)
    requires forall id | id in MeshRun.Flatten(waves) :: id in outcome
    ensures results == MeshRun.Pairs(MeshRun.Flatten(waves), outcome)
  {
    results := [];
    assert waves[..|waves|] == waves;
    for w := 0 to |waves|
      invariant forall id | id in MeshRun.Flatten(waves[..w]) :: id in outcome
      invariant results == MeshRun.Pairs(MeshRun.Flatten(waves[..w]), outcome)
    {
      MeshRun.FlattenNext(waves, w);
      MeshRun.FlattenGrows(waves, w + 1, |waves|);
      ghost var before := MeshRun.Flatten(waves[..w]);
      forall id | id in before + waves[w] ensures id in outcome {
        assert id in MeshRun.Flatten(waves);
      }
      for i := 0 to |waves[w]|
        invariant results == MeshRun.Pairs(before + waves[w][..i], outcome)
      {
        assert waves[w][i] in before + waves[w];
        results := results + [(waves[w][i], outcome[waves[w][i]])];
      }
      assert waves[w][..|waves[w]|] == waves[w];
    }
  }

  // ---- What is recorded ----

  /** What a verifier that behaves like this adds to the results: its own result as it is,
      or a blocking failure under its name that says what happened. */
  ghost predicate Contributes(v: Verifier, behaviour: Behaviour, res: VerificationResult) {
    match behaviour
    case Returned(result) => res == result
    case Threw => res == VerificationResult(v.verifierId, v.verifierVersion, Status.Fail, Blocking,
                                            "verifier_exception", ["verifier_exception"], [], None)
    case TimedOut => res == VerificationResult(v.verifierId, v.verifierVersion, Status.Fail, Blocking,
                                               "verifier_timeout", ["verifier_timeout"], [], None)
  }

  lemma {:induction false} VersionsFindEach(verifiers: seq<Verifier>, i: nat)
    requires UniqueIds(verifiers) && i < |verifiers|
    ensures verifiers[i].verifierId in Versions(verifiers)
    ensures Versions(verifiers)[verifiers[i].verifierId] == verifiers[i].verifierVersion
  {
    var n := |verifiers| - 1;
    assert Ids(verifiers)[i] == verifiers[i].verifierId;
    if i < n {
      VersionsFindEach(verifiers[..n], i);
    }
  }

  ghost function ResultsOf(verifiers: seq<Verifier>, waves: seq<seq<string>>,
                           behaviour: map<string, Behaviour>): Results
    requires ByDepth(GraphOf(verifiers), waves) && Tidy(waves)
    requires forall id | id in Ids(verifiers) :: id in behaviour
  {
    MeshRun.WavesListEach(GraphOf(verifiers), waves);
    MeshRun.Pairs(MeshRun.Flatten(waves), Outcome(verifiers, behaviour))
  }

  /** The verifier has an entry under its id, and every such entry is what it contributes. */
  ghost predicate Recorded(v: Verifier, behaviour: map<string, Behaviour>, results: Results)
    requires v.verifierId in behaviour
  {
    && (exists p | p in results :: p.0 == v.verifierId)
    && (forall p | p in results && p.0 == v.verifierId :: Contributes(v, behaviour[v.verifierId], p.1))
  }

  lemma PairsListEach(ids: seq<string>, outcome: map<string, VerificationResult>)
    requires Distinct(ids) && forall id | id in ids :: id in outcome
    ensures var results := MeshRun.Pairs(ids, outcome);
            && DistinctIds(results)
            && (forall p | p in results :: p.0 in outcome && p.1 == outcome[p.0])
            && (forall id | id in ids :: (id, outcome[id]) in results)
  {
    var results := MeshRun.Pairs(ids, outcome);
    forall i, j | 0 <= i < j < |ids| ensures ids[i] != ids[j] { DistinctPrefix(ids, j); }
    forall id | id in ids ensures (id, outcome[id]) in results {
      var i :| 0 <= i < |ids| && ids[i] == id;
      assert results[i] == (id, outcome[id]);
    }
  }

  /** The entries of a run: one for each registered id, with the outcome for that id. */
  lemma RunRecords(verifiers: seq<Verifier>, waves: seq<seq<string>>, behaviour: map<string, Behaviour>)
    requires ByDepth(GraphOf(verifiers), waves) && Tidy(waves)
    requires forall id | id in Ids(verifiers) :: id in behaviour
    ensures var results, outcome := ResultsOf(verifiers, waves, behaviour), Outcome(verifiers, behaviour);
            && DistinctIds(results)
            && (forall p | p in results :: p.0 in outcome && p.1 == outcome[p.0])
            && (forall id | id in outcome :: (id, outcome[id]) in results)
  {
    MeshRun.WavesListEach(GraphOf(verifiers), waves);
    PairsListEach(MeshRun.Flatten(waves), Outcome(verifiers, behaviour));
  }

  lemma OutcomeContributes(verifiers: seq<Verifier>, behaviour: map<string, Behaviour>, v: Verifier)
    requires UniqueIds(verifiers) && v in verifiers
    requires forall id | id in Ids(verifiers) :: id in behaviour
    ensures v.verifierId in Ids(verifiers)
    ensures Contributes(v, behaviour[v.verifierId], Outcome(verifiers, behaviour)[v.verifierId])
  {
    var i :| 0 <= i < |verifiers| && verifiers[i] == v;
    assert Ids(verifiers)[i] == v.verifierId;
    VersionsFindEach(verifiers, i);
  }

  /** Each registered verifier has one entry, and it is what its behaviour contributes. */
  lemma EachIsRecorded(verifiers: seq<Verifier>, waves: seq<seq<string>>, behaviour: map<string, Behaviour>,
                       v: Verifier)
    requires UniqueIds(verifiers) && ByDepth(GraphOf(verifiers), waves) && Tidy(waves)
    requires v in verifiers && v.verifierId in behaviour && forall id | id in Ids(verifiers) :: id in behaviour
    ensures Recorded(v, behaviour, ResultsOf(verifiers, waves, behaviour))
  {
    RunRecords(verifiers, waves, behaviour);
    OutcomeContributes(verifiers, behaviour, v);
    assert (v.verifierId, Outcome(verifiers, behaviour)[v.verifierId]) in ResultsOf(verifiers, waves, behaviour);
  }

  /** Errors are those of the dependency graph. Otherwise the result list is the
      waves concatenated and the verdict is the one those results determine. */
  method RunMesh(verifiers: seq<Verifier>, behaviour: map<string, Behaviour>, mode: string, requireAll: bool)
    returns (waves: seq<seq<string>>, results: Results, r: Result<Verdict, MeshError>)
    requires forall id | id in Ids(verifiers) :: id in behaviour
    ensures r.Success? <==> ValidVerifierSet(verifiers)
    ensures r.Failure? ==> IsDue(verifiers, r.error)
    ensures r.Success? ==> LongestPathLayers(GraphOf(verifiers), waves)
    ensures r.Success? ==>
            && (forall id | id in MeshRun.Flatten(waves) :: id in Outcome(verifiers, behaviour))
            && results == MeshRun.Pairs(MeshRun.Flatten(waves), Outcome(verifiers, behaviour))
            && r.value == VerdictOf(mode, requireAll, PresentIds(verifiers), results)
            && r.value == MeshVerdictOf(verifiers, waves, behaviour, mode, requireAll)
    ensures r.Success? ==> forall v | v in verifiers :: Recorded(v, behaviour, results)
  {
    waves, results := [], [];
    var computed := ComputeWaves(verifiers);
    if computed.Failure? { return waves, results, Failure(computed.error); }
    waves := computed.value;
    MeshRun.WavesListEach(GraphOf(verifiers), waves);
    var outcome := Outcome(verifiers, behaviour);
    results := RunWaves(waves, outcome);
    forall v | v in verifiers { EachIsRecorded(verifiers, waves, behaviour, v); }
    var verdict := ComputeVerdict(mode, requireAll, PresentIds(verifiers), results);
    r := Success(verdict);
  }

  /** Results and verdict are the same for every registration order, every order of
      `dependsOn`, and every completion order inside the waves. */
  lemma VerdictIgnoresOrder(
    a: seq<Verifier>, b: seq<Verifier>, behaviour: map<string, Behaviour>, mode: string, requireAll: bool,
    wavesA: seq<seq<string>>, wavesB: seq<seq<string>>, scheduleA: seq<MeshRun.Event>, scheduleB: seq<MeshRun.Event>)
    requires SameRegistrations(a, b) && Versions(a) == Versions(b)
    requires forall id | id in Ids(a) :: id in behaviour
    requires forall id | id in Ids(b) :: id in behaviour
    requires LongestPathLayers(GraphOf(a), wavesA) && LongestPathLayers(GraphOf(b), wavesB)
    requires var ra := MeshRun.Run(wavesA, Outcome(a, behaviour), scheduleA);
             ra.Some? && MeshRun.Finished(wavesA, ra.value)
    requires var rb := MeshRun.Run(wavesB, Outcome(b, behaviour), scheduleB);
             rb.Some? && MeshRun.Finished(wavesB, rb.value)
    ensures var ra := MeshRun.Run(wavesA, Outcome(a, behaviour), scheduleA).value.recorded;
            var rb := MeshRun.Run(wavesB, Outcome(b, behaviour), scheduleB).value.recorded;
            && ra == rb
            && VerdictOf(mode, requireAll, PresentIds(a), ra) == VerdictOf(mode, requireAll, PresentIds(b), rb)
  {
    WavesIgnoreOrder(GraphOf(a), GraphOf(b), wavesA, wavesB);
    assert Outcome(a, behaviour) == Outcome(b, behaviour);
    MeshRun.ResultsIgnoreSchedule(wavesA, Outcome(a, behaviour), scheduleA);
    MeshRun.ResultsIgnoreSchedule(wavesB, Outcome(b, behaviour), scheduleB);
    SameMultiset(Ids(a), Ids(b));
    assert PresentIds(a) == PresentIds(b);
  }

  // ---- What one verifier can do to the verdict of the run ----

  /** The verdict of `RunMesh`, given the waves. */
  ghost function MeshVerdictOf(verifiers: seq<Verifier>, waves: seq<seq<string>>, behaviour: map<string, Behaviour>,
                               mode: string, requireAll: bool): Verdict
    requires ByDepth(GraphOf(verifiers), waves) && Tidy(waves)
    requires forall id | id in Ids(verifiers) :: id in behaviour
  {
    VerdictOf(mode, requireAll, PresentIds(verifiers), ResultsOf(verifiers, waves, behaviour))
  }

  /** The verifier's failure counts and blocks: its result does, or it did not return one. */
  ghost predicate BlocksRun(mode: string, requireAll: bool, id: string, b: Behaviour) {
    match b
    case Returned(r) =>
      (requireAll || Demanded(mode, r.verifierId)) && r.status == Status.Fail && r.severity == Blocking
    case _ => requireAll || Demanded(mode, id)
  }

  /** The verifier's result counts and leaves the matter open. */
  ghost predicate LeavesOpen(mode: string, requireAll: bool, b: Behaviour) {
    && b.Returned? && (requireAll || Demanded(mode, b.result.verifierId))
    && b.result.status in {Indeterminate, SkippedByPolicy}
  }

  ghost predicate RunIsBlocked(verifiers: seq<Verifier>, behaviour: map<string, Behaviour>, mode: string,
                               requireAll: bool)
    requires forall id | id in Ids(verifiers) :: id in behaviour
  {
    || (exists id :: Demanded(mode, id) && id !in Ids(verifiers))
    || (exists id | id in Ids(verifiers) :: BlocksRun(mode, requireAll, id, behaviour[id]))
  }

  ghost predicate RunIsOpen(verifiers: seq<Verifier>, behaviour: map<string, Behaviour>, mode: string,
                            requireAll: bool)
    requires forall id | id in Ids(verifiers) :: id in behaviour
  {
    exists id | id in Ids(verifiers) :: LeavesOpen(mode, requireAll, behaviour[id])
  }

  /** The injection verifier is registered, returned, and reports `word` first. */
  ghost predicate InjectionReported(verifiers: seq<Verifier>, behaviour: map<string, Behaviour>, word: string)
    requires forall id | id in Ids(verifiers) :: id in behaviour
  {
    && "prompt_injection_verifier" in Ids(verifiers)
    && var b := behaviour["prompt_injection_verifier"];
       b.Returned? && Reports(b.result.limitations, word)
  }

  lemma AnyOfRun(verifiers: seq<Verifier>, waves: seq<seq<string>>, behaviour: map<string, Behaviour>,
                 f: VerificationResult -> bool)
    requires ByDepth(GraphOf(verifiers), waves) && Tidy(waves)
    requires forall id | id in Ids(verifiers) :: id in behaviour
    ensures (exists p | p in ResultsOf(verifiers, waves, behaviour) :: f(p.1)) <==>
            (exists id | id in Ids(verifiers) :: f(Outcome(verifiers, behaviour)[id]))
  {
    RunRecords(verifiers, waves, behaviour);
    if id :| id in Ids(verifiers) && f(Outcome(verifiers, behaviour)[id]) {
      assert (id, Outcome(verifiers, behaviour)[id]) in ResultsOf(verifiers, waves, behaviour);
    }
  }

  lemma ContributionCounts(verifiers: seq<Verifier>, behaviour: map<string, Behaviour>, mode: string,
                           requireAll: bool, id: string)
    requires id in Ids(verifiers) && forall id | id in Ids(verifiers) :: id in behaviour
    ensures var r := Outcome(verifiers, behaviour)[id];
            && (Counted(mode, requireAll, r) && Blocks(r) <==> BlocksRun(mode, requireAll, id, behaviour[id]))
            && (Counted(mode, requireAll, r) && Undecided(r) <==> LeavesOpen(mode, requireAll, behaviour[id]))
  {
    CountedByName(mode, requireAll, Outcome(verifiers, behaviour)[id]);
  }

  lemma MissingExactly(verifiers: seq<Verifier>, mode: string)
    ensures (exists id | id in MandatoryIds(mode) :: id !in PresentIds(verifiers)) <==>
            (exists id :: Demanded(mode, id) && id !in Ids(verifiers))
  {
    forall id { MandatoryByName(mode, id); }
  }

  lemma BlockedExactly(verifiers: seq<Verifier>, waves: seq<seq<string>>, behaviour: map<string, Behaviour>,
                       mode: string, requireAll: bool)
    requires ByDepth(GraphOf(verifiers), waves) && Tidy(waves)
    requires forall id | id in Ids(verifiers) :: id in behaviour
    ensures var results := ResultsOf(verifiers, waves, behaviour);
            && (AnyBlocking(mode, requireAll, PresentIds(verifiers), results) <==>
                RunIsBlocked(verifiers, behaviour, mode, requireAll))
            && (AnyUndecided(mode, requireAll, results) <==> RunIsOpen(verifiers, behaviour, mode, requireAll))
  {
    MissingExactly(verifiers, mode);
    AnyOfRun(verifiers, waves, behaviour, r => Counted(mode, requireAll, r) && Blocks(r));
    AnyOfRun(verifiers, waves, behaviour, r => Counted(mode, requireAll, r) && Undecided(r));
    forall id | id in Ids(verifiers) { ContributionCounts(verifiers, behaviour, mode, requireAll, id); }
  }

  lemma EntryOf(verifiers: seq<Verifier>, waves: seq<seq<string>>, behaviour: map<string, Behaviour>, id: string)
    returns (k: nat)
    requires ByDepth(GraphOf(verifiers), waves) && Tidy(waves)
    requires id in Ids(verifiers) && forall x | x in Ids(verifiers) :: x in behaviour
    ensures var results := ResultsOf(verifiers, waves, behaviour);
            DistinctIds(results) && k < |results| && results[k] == (id, Outcome(verifiers, behaviour)[id])
  {
    var results := ResultsOf(verifiers, waves, behaviour);
    RunRecords(verifiers, waves, behaviour);
    var entry := (id, Outcome(verifiers, behaviour)[id]);
    assert entry in results;
    k :| 0 <= k < |results| && results[k] == entry;
  }

  lemma NoEntryOf(verifiers: seq<Verifier>, waves: seq<seq<string>>, behaviour: map<string, Behaviour>, id: string)
    requires ByDepth(GraphOf(verifiers), waves) && Tidy(waves)
    requires id !in Ids(verifiers) && forall x | x in Ids(verifiers) :: x in behaviour
    ensures Get(ResultsOf(verifiers, waves, behaviour), id).None?
  {
    RunRecords(verifiers, waves, behaviour);
  }

  lemma OutcomeReports(verifiers: seq<Verifier>, behaviour: map<string, Behaviour>, word: string)
    requires "prompt_injection_verifier" in Ids(verifiers) && forall x | x in Ids(verifiers) :: x in behaviour
    ensures Reports(Outcome(verifiers, behaviour)["prompt_injection_verifier"].limitations, word) <==>
            InjectionReported(verifiers, behaviour, word)
  {
  }

  lemma RunInjection(verifiers: seq<Verifier>, waves: seq<seq<string>>, behaviour: map<string, Behaviour>)
    requires ByDepth(GraphOf(verifiers), waves) && Tidy(waves)
    requires forall id | id in Ids(verifiers) :: id in behaviour
    ensures var i := InjectionOf(ResultsOf(verifiers, waves, behaviour));
            && (i == Confirmed <==> InjectionReported(verifiers, behaviour, "confirmed"))
            && (i == Suspected <==> InjectionReported(verifiers, behaviour, "suspected"))
  {
    var results, id := ResultsOf(verifiers, waves, behaviour), "prompt_injection_verifier";
    if id in Ids(verifiers) {
      var k := EntryOf(verifiers, waves, behaviour, id);
      InjectionExactly(results, k);
      OutcomeReports(verifiers, behaviour, "confirmed");
      OutcomeReports(verifiers, behaviour, "suspected");
    } else {
      NoEntryOf(verifiers, waves, behaviour, id);
    }
  }

  /** The decision of a run, said of the registered verifiers and how they behave. */
  lemma DecisionByBehaviour(verifiers: seq<Verifier>, waves: seq<seq<string>>, behaviour: map<string, Behaviour>,
                            mode: string, requireAll: bool)
    requires ByDepth(GraphOf(verifiers), waves) && Tidy(waves)
    requires forall id | id in Ids(verifiers) :: id in behaviour
    ensures var d := MeshVerdictOf(verifiers, waves, behaviour, mode, requireAll).decision;
            var blocked := RunIsBlocked(verifiers, behaviour, mode, requireAll);
            var open := RunIsOpen(verifiers, behaviour, mode, requireAll);
            var confirmed := InjectionReported(verifiers, behaviour, "confirmed");
            && (d == Decision.Pass <==> !blocked && !open)
            && (d == Conditional <==> !blocked && open)
            && (d == Quarantined <==> blocked && confirmed)
            && (d == Decision.Fail <==> blocked && !confirmed)
  {
    BlockedExactly(verifiers, waves, behaviour, mode, requireAll);
    RunInjection(verifiers, waves, behaviour);
  }

  ghost function OrElse(score: Option<real>, default: real): real {
    if score.Some? then score.value else default
  }

  /** The score that a registered verifier returned. */
  ghost function ScoreOf(verifiers: seq<Verifier>, behaviour: map<string, Behaviour>, id: string): Option<real>
    requires forall id | id in Ids(verifiers) :: id in behaviour
  {
    if id in Ids(verifiers) && behaviour[id].Returned? then behaviour[id].result.score else None
  }

  ghost predicate ReturnedPass(verifiers: seq<Verifier>, behaviour: map<string, Behaviour>, id: string)
    requires forall id | id in Ids(verifiers) :: id in behaviour
  {
    id in Ids(verifiers) && behaviour[id].Returned? && behaviour[id].result.status == Status.Pass
  }

  lemma RunResultOf(verifiers: seq<Verifier>, waves: seq<seq<string>>, behaviour: map<string, Behaviour>,
                    id: string, default: real)
    requires ByDepth(GraphOf(verifiers), waves) && Tidy(waves)
    requires forall id | id in Ids(verifiers) :: id in behaviour
    ensures var results := ResultsOf(verifiers, waves, behaviour);
            && (Passed(results, id) <==> ReturnedPass(verifiers, behaviour, id))
            && ScoreOr(results, id, default) == OrElse(ScoreOf(verifiers, behaviour, id), default)
  {
    var results := ResultsOf(verifiers, waves, behaviour);
    if id in Ids(verifiers) {
      var k := EntryOf(verifiers, waves, behaviour, id);
      GetFinds(results, k);
    } else {
      NoEntryOf(verifiers, waves, behaviour, id);
    }
  }

  /** Every other field of the verdict, said of the verifiers' behaviour. */
  lemma FieldsByBehaviour(verifiers: seq<Verifier>, waves: seq<seq<string>>, behaviour: map<string, Behaviour>,
                          mode: string, requireAll: bool)
    requires ByDepth(GraphOf(verifiers), waves) && Tidy(waves)
    requires forall id | id in Ids(verifiers) :: id in behaviour
    ensures var v := MeshVerdictOf(verifiers, waves, behaviour, mode, requireAll);
            && (v.schemaValid <==> ReturnedPass(verifiers, behaviour, "schema_verifier"))
            && (v.materialClaimsSupported <==> ReturnedPass(verifiers, behaviour, "claim_evidence_verifier"))
            && (v.provenanceValid <==> ReturnedPass(verifiers, behaviour, "provenance_verifier"))
            && v.freshness == OrElse(ScoreOf(verifiers, behaviour, "freshness_verifier"), 0.0)
            && v.completeness == OrElse(ScoreOf(verifiers, behaviour, "completeness_verifier"), 0.0)
            && v.crossSourceAgreement == OrElse(ScoreOf(verifiers, behaviour, "cross_source_verifier"), 1.0)
            && v.evidenceAccessibility
            == OrElse(ScoreOf(verifiers, behaviour, "evidence_accessibility_verifier"),
                      if ReturnedPass(verifiers, behaviour, "evidence_accessibility_verifier") then 1.0 else 0.0)
    ensures var v := MeshVerdictOf(verifiers, waves, behaviour, mode, requireAll);
            && 4.0 * v.score
            == (if v.decision == Decision.Pass
                then v.evidenceAccessibility + v.freshness + v.completeness + v.crossSourceAgreement else 0.0)
            && (v.injection == Confirmed <==> InjectionReported(verifiers, behaviour, "confirmed"))
            && (v.injection == Suspected <==> InjectionReported(verifiers, behaviour, "suspected"))
  {
    RunResultOf(verifiers, waves, behaviour, "schema_verifier", 0.0);
    RunResultOf(verifiers, waves, behaviour, "claim_evidence_verifier", 0.0);
    RunResultOf(verifiers, waves, behaviour, "provenance_verifier", 0.0);
    RunResultOf(verifiers, waves, behaviour, "freshness_verifier", 0.0);
    RunResultOf(verifiers, waves, behaviour, "completeness_verifier", 0.0);
    RunResultOf(verifiers, waves, behaviour, "cross_source_verifier", 1.0);
    RunResultOf(verifiers, waves, behaviour, "evidence_accessibility_verifier",
                if ReturnedPass(verifiers, behaviour, "evidence_accessibility_verifier") then 1.0 else 0.0);
    RunInjection(verifiers, waves, behaviour);
  }

  lemma {:induction false} PairsWithOneChanged(ids: seq<string>, outcome: map<string, VerificationResult>, k: nat,
                                               r: VerificationResult)
    requires Distinct(ids) && k < |ids| && forall id | id in ids :: id in outcome
    ensures MeshRun.Pairs(ids, outcome[ids[k] := r]) == MeshRun.Pairs(ids, outcome)[k := (ids[k], r)]
  {
    forall i | 0 <= i < |ids| && i != k ensures ids[i] != ids[k] {
      if i < k { DistinctPrefix(ids, k); } else { DistinctPrefix(ids, i); }
    }
  }

  lemma OutcomeWithOneChanged(verifiers: seq<Verifier>, behaviour: map<string, Behaviour>, id: string, b: Behaviour)
    requires id in Ids(verifiers) && forall x | x in Ids(verifiers) :: x in behaviour
    ensures Outcome(verifiers, behaviour[id := b])
         == Outcome(verifiers, behaviour)[id := RunVerifier(id, Versions(verifiers)[id], b)]
  {
  }

  /** One verifier of a run behaves worse: it crashes, times out, blocks, or becomes
      undecided after a pass. The verdict of the run does not rise. */
  lemma WorseBehaviourNeverRaises(verifiers: seq<Verifier>, waves: seq<seq<string>>, behaviour: map<string, Behaviour>,
                                  mode: string, requireAll: bool, id: string, worse: Behaviour)
    requires ByDepth(GraphOf(verifiers), waves) && Tidy(waves)
    requires id in Ids(verifiers) && forall x | x in Ids(verifiers) :: x in behaviour
    requires Degrades(Outcome(verifiers, behaviour)[id], RunVerifier(id, Versions(verifiers)[id], worse))
    ensures Rank(MeshVerdictOf(verifiers, waves, behaviour[id := worse], mode, requireAll).decision)
         <= Rank(MeshVerdictOf(verifiers, waves, behaviour, mode, requireAll).decision)
  {
    MeshRun.WavesListEach(GraphOf(verifiers), waves);
    var ids, outcome := MeshRun.Flatten(waves), Outcome(verifiers, behaviour);
    var k :| 0 <= k < |ids| && ids[k] == id;
    var r := RunVerifier(id, Versions(verifiers)[id], worse);
    OutcomeWithOneChanged(verifiers, behaviour, id, worse);
    PairsWithOneChanged(ids, outcome, k, r);
    DegradingNeverRaises(mode, requireAll, PresentIds(verifiers), MeshRun.Pairs(ids, outcome), k, r);
  }

  /** A run without one of the mandatory verifiers has a verdict of the lowest rank. */
  lemma RunWithoutMandatory(verifiers: seq<Verifier>, waves: seq<seq<string>>, behaviour: map<string, Behaviour>,
                            mode: string, requireAll: bool, id: string)
    requires ByDepth(GraphOf(verifiers), waves) && Tidy(waves)
    requires forall x | x in Ids(verifiers) :: x in behaviour
    requires id in MandatoryIds(mode) && id !in Ids(verifiers)
    ensures Rank(MeshVerdictOf(verifiers, waves, behaviour, mode, requireAll).decision) == 0
  {
    var results := ResultsOf(verifiers, waves, behaviour);
    MissingMandatoryForcesLowestRank(mode, requireAll, PresentIds(verifiers), results, id);
  }

  lemma IdIsGone(verifiers: seq<Verifier>, k: nat)
    requires k < |verifiers| && UniqueIds(verifiers)
    ensures verifiers[k].verifierId !in Ids(verifiers[..k] + verifiers[k + 1..])
  {
    var rest := verifiers[..k] + verifiers[k + 1..];
    forall i | 0 <= i < |rest| ensures rest[i].verifierId != verifiers[k].verifierId {
      if i < k { assert rest[i] == verifiers[i]; } else { assert rest[i] == verifiers[i + 1]; }
    }
  }

  /** Leaving a mandatory verifier out of the registration never raises the verdict: if
      the rest still runs, its verdict has the lowest rank. */
  lemma DroppingMandatoryNeverRaises(verifiers: seq<Verifier>, k: nat, rest: seq<Verifier>,
                                     waves: seq<seq<string>>, restWaves: seq<seq<string>>,
                                     behaviour: map<string, Behaviour>, mode: string, requireAll: bool)
    requires k < |verifiers| && UniqueIds(verifiers) && verifiers[k].verifierId in MandatoryIds(mode)
    requires rest == verifiers[..k] + verifiers[k + 1..]
    requires ByDepth(GraphOf(verifiers), waves) && Tidy(waves) && forall id | id in Ids(verifiers) :: id in behaviour
    requires ByDepth(GraphOf(rest), restWaves) && Tidy(restWaves) && forall id | id in Ids(rest) :: id in behaviour
    ensures Rank(MeshVerdictOf(rest, restWaves, behaviour, mode, requireAll).decision) == 0
    ensures Rank(MeshVerdictOf(rest, restWaves, behaviour, mode, requireAll).decision)
         <= Rank(MeshVerdictOf(verifiers, waves, behaviour, mode, requireAll).decision)
  {
    IdIsGone(verifiers, k);
    RunWithoutMandatory(rest, restWaves, behaviour, mode, requireAll, verifiers[k].verifierId);
  }
}
