/** The concurrent part of `runMesh` (packages/verification/src/mesh.ts): the
    verifiers of a wave are started one after the other, settle in any order,
    and are recorded together once all of them have settled. */
module MeshRun {
  import opened Outcomes
  import opened Text
  import opened Graph
  import opened VerifierGraph
  import opened Waves

  function Flatten(waves: seq<seq<string>>): seq<string> {
    if waves == [] then [] else Flatten(waves[..|waves| - 1]) + waves[|waves| - 1]
  }

  datatype Event = Launch | Settle(id: string) | Record

  /** `settled` holds the results of the current wave, `recorded` is `resultsById`
      in insertion order and `started` is the history of starts. */
  datatype State<R> = State(wave: nat, launched: nat, settled: map<string, R>,
                            recorded: seq<(string, R)>, started: seq<string>)

  function Initial<R>(): State<R> { State(0, 0, map[], [], []) }

  predicate Enabled<R>(waves: seq<seq<string>>, s: State<R>, e: Event) {
    s.wave < |waves| &&
    var wave := waves[s.wave];
    match e
    case Launch => s.launched < |wave|
    case Settle(id) => s.launched <= |wave| && id in wave[..s.launched] && id !in s.settled
    case Record => s.launched == |wave| && forall id | id in wave :: id in s.settled
  }

  function Pairs<R>(ids: seq<string>, results: map<string, R>): seq<(string, R)>
    requires forall id | id in ids :: id in results
  {
    seq(|ids|, i requires 0 <= i < |ids| => (ids[i], results[ids[i]]))
  }

  function Apply<R>(waves: seq<seq<string>>, outcome: map<string, R>, s: State<R>, e: Event): State<R>
    requires Enabled(waves, s, e)
    requires e.Settle? ==> e.id in outcome
  {
    match e
    case Launch => s.(launched := s.launched + 1, started := s.started + [waves[s.wave][s.launched]])
    case Settle(id) => s.(settled := s.settled[id := outcome[id]])
    case Record => State(s.wave + 1, 0, map[], s.recorded + Pairs(waves[s.wave], s.settled), s.started)
  }

  /** The state after a schedule, or nothing if the schedule is not possible. */
  function Run<R>(waves: seq<seq<string>>, outcome: map<string, R>, schedule: seq<Event>): Option<State<R>> {
    if schedule == [] then Some(Initial())
    else
      var e := schedule[|schedule| - 1];
      match Run(waves, outcome, schedule[..|schedule| - 1])
      case None => None
      case Some(s) =>
        if Enabled(waves, s, e) && (e.Settle? ==> e.id in outcome) then Some(Apply(waves, outcome, s, e)) else None
  }

  ghost predicate Finished<R>(waves: seq<seq<string>>, s: State<R>) {
    s.wave == |waves|
  }

  function Current<R>(waves: seq<seq<string>>, s: State<R>): seq<string>
    requires s.wave < |waves| ==> s.launched <= |waves[s.wave]|
  {
    if s.wave < |waves| then waves[s.wave][..s.launched] else []
  }

  /** What every step of every schedule keeps. */
  ghost predicate Invariant<R>(waves: seq<seq<string>>, outcome: map<string, R>, s: State<R>) {
    && s.wave <= |waves|
    && (s.wave < |waves| ==> s.launched <= |waves[s.wave]|)
    && (s.wave == |waves| ==> s.launched == 0 && s.settled == map[])
    && (forall id | id in s.settled :: id in Current(waves, s) && id in outcome && s.settled[id] == outcome[id])
    && (forall id | id in Flatten(waves[..s.wave]) :: id in outcome)
    && s.recorded == Pairs(Flatten(waves[..s.wave]), outcome)
    && s.started == Flatten(waves[..s.wave]) + Current(waves, s)
  }

  lemma FlattenNext(waves: seq<seq<string>>, w: nat)
    requires w < |waves|
    ensures Flatten(waves[..w + 1]) == Flatten(waves[..w]) + waves[w]
  {
    assert waves[..w + 1][..w] == waves[..w];
  }

  lemma StepKeepsInvariant<R>(waves: seq<seq<string>>, outcome: map<string, R>, s: State<R>, e: Event)
    requires Invariant(waves, outcome, s) && Enabled(waves, s, e)
    requires e.Settle? ==> e.id in outcome
    ensures Invariant(waves, outcome, Apply(waves, outcome, s, e))
  {
    var t := Apply(waves, outcome, s, e);
    match e
    case Launch =>
      assert waves[s.wave][..s.launched + 1] == waves[s.wave][..s.launched] + [waves[s.wave][s.launched]];
    case Settle(id) =>
    case Record =>
      FlattenNext(waves, s.wave);
      assert Current(waves, s) == waves[s.wave];
      assert Current(waves, t) == [];
      assert t.recorded == Pairs(Flatten(waves[..t.wave]), outcome);
  }

  lemma {:induction false} RunKeepsInvariant<R>(waves: seq<seq<string>>, outcome: map<string, R>, schedule: seq<Event>)
    requires Run(waves, outcome, schedule).Some?
    ensures Invariant(waves, outcome, Run(waves, outcome, schedule).value)
  {
    if schedule == [] {
      assert Initial<R>().started == Flatten(waves[..0]) + Current(waves, Initial<R>());
      assert Initial<R>().recorded == Pairs(Flatten(waves[..0]), outcome);
    } else {
      var n := |schedule| - 1;
      RunKeepsInvariant(waves, outcome, schedule[..n]);
      StepKeepsInvariant(waves, outcome, Run(waves, outcome, schedule[..n]).value, schedule[n]);
    }
  }

  /** Whatever the schedule, a finished run has started the verifiers in wave order
      and its result list is the waves concatenated. */
  lemma ResultsIgnoreSchedule<R>(waves: seq<seq<string>>, outcome: map<string, R>, schedule: seq<Event>)
    requires Run(waves, outcome, schedule).Some? && Finished(waves, Run(waves, outcome, schedule).value)
    ensures forall id | id in Flatten(waves) :: id in outcome
    ensures var s := Run(waves, outcome, schedule).value;
            s.started == Flatten(waves) && s.recorded == Pairs(Flatten(waves), outcome)
  {
    RunKeepsInvariant(waves, outcome, schedule);
    assert waves[..|waves|] == waves;
  }

  // ---- Waves of a dependency graph ----

  lemma {:induction false} FlattenDistinct(g: DependencyGraph, waves: seq<seq<string>>, k: nat)
    requires Tidy(waves) && ByDepth(g, waves) && k <= |waves|
    ensures forall id :: id in Flatten(waves[..k]) <==> exists w :: 0 <= w < k && id in waves[w]
    ensures Distinct(Flatten(waves[..k]))
  {
    if k > 0 {
      FlattenDistinct(g, waves, k - 1);
      FlattenNext(waves, k - 1);
      var before, last := Flatten(waves[..k - 1]), waves[k - 1];
      forall id | id in before ensures id !in last {
        var v :| 0 <= v < k - 1 && id in waves[v];
        WavesPartition(g, waves, id);
      }
      DistinctConcat(before, last);
    }
  }

  lemma DistinctConcat(a: seq<string>, b: seq<string>)
    requires Distinct(a) && Distinct(b) && forall x | x in a :: x !in b
    ensures Distinct(a + b)
  {
    forall x | x in a + b ensures multiset(a + b)[x] == 1 {
      assert multiset(a + b)[x] == multiset(a)[x] + multiset(b)[x];
      assert x in a <==> x in multiset(a);
      assert x in b <==> x in multiset(b);
    }
  }

  lemma DistinctPrefixes(a: seq<string>, b: seq<string>)
    requires Distinct(a + b)
    ensures Distinct(a)
  {
    forall x | x in a ensures multiset(a)[x] == 1 {
      assert x in a + b && x in multiset(a);
      assert multiset(a + b)[x] == multiset(a)[x] + multiset(b)[x];
    }
  }

  lemma {:induction false} FlattenGrows(waves: seq<seq<string>>, v: nat, w: nat)
    requires v <= w <= |waves|
    ensures Flatten(waves[..v]) <= Flatten(waves[..w])
    decreases w
  {
    if v < w {
      FlattenNext(waves, w - 1);
      FlattenGrows(waves, v, w - 1);
    }
  }

  /** What has been started so far is an initial part of the waves concatenated. */
  lemma StartedInWaveOrder<R>(waves: seq<seq<string>>, outcome: map<string, R>, s: State<R>)
    requires Invariant(waves, outcome, s)
    ensures s.started <= Flatten(waves)
    ensures Finished(waves, s) ==> s.started == Flatten(waves)
  {
    assert waves[..|waves|] == waves;
    if s.wave < |waves| {
      FlattenNext(waves, s.wave);
      FlattenGrows(waves, s.wave + 1, |waves|);
    }
  }

  lemma RunStartsInWaveOrder<R>(waves: seq<seq<string>>, outcome: map<string, R>, schedule: seq<Event>)
    requires Run(waves, outcome, schedule).Some?
    ensures var s := Run(waves, outcome, schedule).value;
            s.started <= Flatten(waves) && (Finished(waves, s) ==> s.started == Flatten(waves))
  {
    RunKeepsInvariant(waves, outcome, schedule);
    StartedInWaveOrder(waves, outcome, Run(waves, outcome, schedule).value);
  }

  /** Each verifier is started at most once during a run and exactly once by its end. */
  lemma StartedExactlyOnce<R>(g: DependencyGraph, waves: seq<seq<string>>, outcome: map<string, R>,
                              schedule: seq<Event>)
    requires LongestPathLayers(g, waves) && Run(waves, outcome, schedule).Some?
    ensures var s := Run(waves, outcome, schedule).value;
            && Distinct(s.started)
            && (Finished(waves, s) ==> forall id | id in g :: multiset(s.started)[id] == 1)
  {
    RunStartsInWaveOrder(waves, outcome, schedule);
    StartedPartIsDistinct(g, waves, Run(waves, outcome, schedule).value.started);
  }

  lemma StartedPartIsDistinct(g: DependencyGraph, waves: seq<seq<string>>, started: seq<string>)
    requires Tidy(waves) && ByDepth(g, waves) && started <= Flatten(waves)
    ensures Distinct(started)
    ensures started == Flatten(waves) ==> forall id | id in g :: multiset(started)[id] == 1
  {
    WavesListEach(g, waves);
    var rest := Flatten(waves)[|started|..];
    assert Flatten(waves) == started + rest;
    DistinctPrefixes(started, rest);
  }

  lemma WavesListEach(g: DependencyGraph, waves: seq<seq<string>>)
    requires Tidy(waves) && ByDepth(g, waves)
    ensures Distinct(Flatten(waves))
    ensures forall id :: id in Flatten(waves) <==> id in g
  {
    FlattenDistinct(g, waves, |waves|);
    assert waves[..|waves|] == waves;
    forall id ensures id in Flatten(waves) <==> id in g {
      WavesPartition(g, waves, id);
    }
  }

  /** Whenever a verifier is about to start, everything it depends on has been recorded. */
  lemma DependenciesRecordedBeforeStart<R>(g: DependencyGraph, waves: seq<seq<string>>, outcome: map<string, R>,
                                           schedule: seq<Event>, d: string)
    requires Closed(g) && LongestPathLayers(g, waves)
    requires Run(waves, outcome, schedule).Some? && Enabled(waves, Run(waves, outcome, schedule).value, Launch)
    requires var s := Run(waves, outcome, schedule).value;
             waves[s.wave][s.launched] in g && d in g[waves[s.wave][s.launched]]
    ensures d in outcome && (d, outcome[d]) in Run(waves, outcome, schedule).value.recorded
  {
    var s := Run(waves, outcome, schedule).value;
    RunKeepsInvariant(waves, outcome, schedule);
    DependencyInFinishedWaves(g, waves, s.wave, waves[s.wave][s.launched], d);
    FinishedWavesAreRecorded(waves, outcome, s, d);
  }

  lemma DependencyInFinishedWaves(g: DependencyGraph, waves: seq<seq<string>>, w: nat, id: string, d: string)
    requires Closed(g) && LongestPathLayers(g, waves)
    requires w < |waves| && id in waves[w] && id in g && d in g[id]
    ensures d in Flatten(waves[..w])
  {
    DependenciesInEarlierWaves(g, waves, w, id, d);
    FlattenDistinct(g, waves, w);
  }

  lemma FinishedWavesAreRecorded<R>(waves: seq<seq<string>>, outcome: map<string, R>, s: State<R>, id: string)
    requires Invariant(waves, outcome, s) && id in Flatten(waves[..s.wave])
    ensures id in outcome && (id, outcome[id]) in s.recorded
  {
    var done := Flatten(waves[..s.wave]);
    var i :| 0 <= i < |done| && done[i] == id;
    assert s.recorded[i] == (id, outcome[id]);
  }

  /** A run that is not finished can always take a step, if every verifier has an outcome. */
  lemma UnfinishedRunCanStep<R>(waves: seq<seq<string>>, outcome: map<string, R>, schedule: seq<Event>)
    returns (e: Event)
    requires Run(waves, outcome, schedule).Some? && !Finished(waves, Run(waves, outcome, schedule).value)
    requires forall w, id | 0 <= w < |waves| && id in waves[w] :: id in outcome
    ensures Run(waves, outcome, schedule + [e]).Some?
  {
    RunKeepsInvariant(waves, outcome, schedule);
    var s := Run(waves, outcome, schedule).value;
    var wave := waves[s.wave];
    if s.launched < |wave| {
      e := Launch;
    } else if id :| id in wave && id !in s.settled {
      assert wave[..s.launched] == wave;
      e := Settle(id);
    } else {
      e := Record;
    }
    assert (schedule + [e])[..|schedule|] == schedule;
    assert Enabled(waves, s, e);
  }

  lemma {:induction false} MembersOf(s: seq<string>) returns (members: set<string>)
    ensures forall x :: x in members <==> x in s
    ensures |members| <= |s|
    ensures Distinct(s) ==> |members| == |s|
  {
    if s == [] {
      members := {};
    } else {
      var n := |s| - 1;
      assert s == s[..n] + [s[n]];
      var rest := MembersOf(s[..n]);
      members := rest + {s[n]};
      if Distinct(s) {
        DistinctPrefixes(s[..n], [s[n]]);
        DistinctPrefix(s, n);
      }
    }
  }

  /** The number of steps taken is determined by the state, so runs are bounded. */
  lemma {:induction false} StepsTaken<R>(g: DependencyGraph, waves: seq<seq<string>>, outcome: map<string, R>,
                                         schedule: seq<Event>)
    requires LongestPathLayers(g, waves) && Run(waves, outcome, schedule).Some?
    ensures var s := Run(waves, outcome, schedule).value;
            |schedule| == 2 * |s.recorded| + s.launched + |s.settled| + s.wave
  {
    if schedule != [] {
      var n := |schedule| - 1;
      StepsTaken(g, waves, outcome, schedule[..n]);
      RunKeepsInvariant(waves, outcome, schedule[..n]);
      var s, e := Run(waves, outcome, schedule[..n]).value, schedule[n];
      if e.Record? {
        var members := MembersOf(waves[s.wave]);
        assert waves[s.wave][..s.launched] == waves[s.wave];
        assert s.settled.Keys == members;
      }
    }
  }

  /** No schedule is longer than two steps per verifier and one per wave. */
  lemma RunsAreBounded<R>(g: DependencyGraph, waves: seq<seq<string>>, outcome: map<string, R>, schedule: seq<Event>)
    requires LongestPathLayers(g, waves) && Run(waves, outcome, schedule).Some?
    ensures |schedule| <= 2 * |Flatten(waves)| + |waves|
    ensures |schedule| == 2 * |Flatten(waves)| + |waves| <==> Finished(waves, Run(waves, outcome, schedule).value)
  {
    var s := Run(waves, outcome, schedule).value;
    StepsTaken(g, waves, outcome, schedule);
    RunKeepsInvariant(waves, outcome, schedule);
    StartedInWaveOrder(waves, outcome, s);
    SettledAtMostLaunched(waves, outcome, s);
  }

  lemma SettledAtMostLaunched<R>(waves: seq<seq<string>>, outcome: map<string, R>, s: State<R>)
    requires Invariant(waves, outcome, s)
    ensures |s.settled| <= s.launched
    ensures s.launched == |Current(waves, s)|
  {
    var members := MembersOf(Current(waves, s));
    SubsetSize(s.settled.Keys, members);
  }

  lemma {:induction false} SubsetSize(a: set<string>, b: set<string>)
    requires a <= b
    ensures |a| <= |b|
  {
    if a != {} {
      var x :| x in a;
      SubsetSize(a - {x}, b - {x});
    }
  }
}
