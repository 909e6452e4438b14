/** The execution frontier of the task list (scripts/lib/task-frontier.ts). */
module TaskFrontier {
  import opened Outcomes
  import opened Graph

  datatype Task = Task(id: string, state: string, dependencies: seq<string>, blocker: Option<string>)

  const RESOLVED_STATES := {"accepted", "completed", "superseded", "cancelled", "rejected"}
  const ACTIVE_STATES := {"active", "in_progress"}
  const BLOCKED_EXTERNAL := "blocked_external"

  predicate Resolved(t: Task) { t.state in RESOLVED_STATES }

  predicate Active(t: Task) { t.state in ACTIVE_STATES }

  /** The characters that JavaScript's `trim` removes. */
  predicate IsSpace(c: char) {
    || c in {' ', '\t', '\n', '\U{000B}', '\U{000C}', '\r', '\U{00A0}', '\U{1680}', '\U{2028}', '\U{2029}', '\U{202F}',
             '\U{205F}', '\U{3000}', '\U{FEFF}'}
    || '\U{2000}' <= c <= '\U{200A}'
  }

  /** A blocker whose trimmed text is not empty. */
  predicate HasGenuineBlocker(t: Task) {
    t.blocker.Some? && exists i | 0 <= i < |t.blocker.value| :: !IsSpace(t.blocker.value[i])
  }

  /** Tasks by id: a later task replaces an earlier one. */
  function ById(tasks: seq<Task>): (m: map<string, Task>)
    ensures forall id | id in m :: m[id] in tasks && m[id].id == id
  {
    if tasks == [] then map[] else ById(tasks[..|tasks| - 1])[tasks[|tasks| - 1].id := tasks[|tasks| - 1]]
  }

  ghost predicate UniqueIds(tasks: seq<Task>) {
    forall i, j | 0 <= i < j < |tasks| :: tasks[i].id != tasks[j].id
  }

  ghost predicate DependenciesPresent(tasks: seq<Task>) {
    forall t, d | t in tasks && d in t.dependencies :: d in ById(tasks)
  }

  lemma {:induction false} ByIdFindsEach(tasks: seq<Task>, t: Task)
    requires UniqueIds(tasks) && t in tasks
    ensures t.id in ById(tasks) && ById(tasks)[t.id] == t
  {
    var n := |tasks| - 1;
    if t != tasks[n] {
      ByIdFindsEach(tasks[..n], t);
      var i :| 0 <= i < n && tasks[i] == t;
    }
  }

  predicate IsDependencyReady(t: Task, byId: map<string, Task>) {
    forall d | d in t.dependencies :: d in byId && Resolved(byId[d])
  }

  predicate IsReadyUnfinished(t: Task, byId: map<string, Task>) {
    !Resolved(t) && IsDependencyReady(t, byId)
  }

  function Filter(tasks: seq<Task>, keep: Task -> bool): (r: seq<Task>)
    ensures forall t :: t in r <==> t in tasks && keep(t)
  {
    if tasks == [] then []
    else (if keep(tasks[0]) then [tasks[0]] else []) + Filter(tasks[1..], keep)
  }

  /** `dependencyReadyUnfinishedTasks` */
  function ReadyUnfinished(tasks: seq<Task>): (r: seq<Task>)
    ensures forall t :: t in r <==> t in tasks && IsReadyUnfinished(t, ById(tasks))
  {
    Filter(tasks, t => IsReadyUnfinished(t, ById(tasks)))
  }

  // ---- Validation ----

  datatype Failure =
    | ActiveWithBlocker(id: string)
    | SeveralActive(count: nat)
    | ActiveNotReady(id: string)
    | UnclaimedWork(id: string)
    | BlockedWithoutReason(id: string)

  datatype Status = Executable | BlockedExternal | Invalid

  datatype Validation = Validation(valid: bool, failures: seq<Failure>, status: Status)

  predicate ExplicitlyBlocked(t: Task) { t.state == BLOCKED_EXTERNAL && HasGenuineBlocker(t) }

  function ActiveTasks(tasks: seq<Task>): seq<Task> { Filter(tasks, t => Active(t)) }

  method BlockerFailures(active: seq<Task>) returns (failures: seq<Failure>)
    ensures forall f :: f in failures <==>
            exists t | t in active :: HasGenuineBlocker(t) && f == ActiveWithBlocker(t.id)
    ensures failures == [] <==> forall t | t in active :: !HasGenuineBlocker(t)
  {
    failures := [];
    for i := 0 to |active|
      invariant forall f :: f in failures <==>
                  exists k | 0 <= k < i :: HasGenuineBlocker(active[k]) && f == ActiveWithBlocker(active[k].id)
      invariant failures == [] <==> forall k | 0 <= k < i :: !HasGenuineBlocker(active[k])
    {
      if HasGenuineBlocker(active[i]) {
        failures := failures + [ActiveWithBlocker(active[i].id)];
      }
    }
    assert forall k | 0 <= k < |active| :: active[k] in active;
  }

  /** What is wrong with a ready, unresolved task while no task is active. */
  function FailureOf(t: Task): Option<Failure> {
    if t.state != BLOCKED_EXTERNAL then Some(UnclaimedWork(t.id))
    else if !HasGenuineBlocker(t) then Some(BlockedWithoutReason(t.id))
    else None
  }

  method FrontierFailures(ready: seq<Task>) returns (failures: seq<Failure>)
    ensures forall f :: f in failures <==> exists t | t in ready :: FailureOf(t) == Some(f)
    ensures failures == [] <==> forall t | t in ready :: ExplicitlyBlocked(t)
  {
    failures := [];
    for i := 0 to |ready|
      invariant forall f :: f in failures <==>
                exists k | 0 <= k < i :: FailureOf(ready[k]) == Some(f) && f.UnclaimedWork?
      invariant failures == [] <==> forall k | 0 <= k < i :: ready[k].state == BLOCKED_EXTERNAL
    {
      if ready[i].state != BLOCKED_EXTERNAL {
        failures := failures + [UnclaimedWork(ready[i].id)];
      }
    }
    for i := 0 to |ready|
      invariant forall f :: f in failures <==>
                  exists k | 0 <= k < |ready| :: FailureOf(ready[k]) == Some(f) && (f.UnclaimedWork? || k < i)
      invariant failures == [] <==>
                && (forall k | 0 <= k < |ready| :: ready[k].state == BLOCKED_EXTERNAL)
                && (forall k | 0 <= k < i :: ExplicitlyBlocked(ready[k]))
    {
      if ready[i].state == BLOCKED_EXTERNAL && !HasGenuineBlocker(ready[i]) {
        failures := failures + [BlockedWithoutReason(ready[i].id)];
      }
    }
    assert forall k | 0 <= k < |ready| :: ready[k] in ready;
  }

  /** The failures that are due. */
  predicate IsDue(tasks: seq<Task>, f: Failure) {
    var active := ActiveTasks(tasks);
    || (exists t | t in active :: HasGenuineBlocker(t) && f == ActiveWithBlocker(t.id))
    || (|active| > 1 && f == SeveralActive(|active|))
    || (|active| == 1 && !IsDependencyReady(active[0], ById(tasks)) && f == ActiveNotReady(active[0].id))
    || (|active| == 0 && exists t | t in ReadyUnfinished(tasks) :: FailureOf(t) == Some(f))
  }

  /** No task is active, and all ready work is explicitly blocked. */
  predicate AcceptedIdle(tasks: seq<Task>) {
    |ActiveTasks(tasks)| == 0 && forall t | t in ReadyUnfinished(tasks) :: ExplicitlyBlocked(t)
  }

  /** One active task must be ready and unblocked; with none, all ready work must be
      explicitly blocked; several are never valid. */
  method ValidateExecutionFrontier(tasks: seq<Task>) returns (v: Validation)
    ensures v.valid <==> v.failures == []
    ensures forall f :: f in v.failures <==> IsDue(tasks, f)
    ensures |ActiveTasks(tasks)| > 1 ==> !v.valid && v.status == Invalid
    ensures |ActiveTasks(tasks)| == 1 ==>
            var t := ActiveTasks(tasks)[0];
            (v.valid <==> !HasGenuineBlocker(t) && IsDependencyReady(t, ById(tasks))) && v.status == Executable
    ensures |ActiveTasks(tasks)| == 0 ==>
            && (v.valid <==> AcceptedIdle(tasks))
            && v.status == if v.valid then BlockedExternal else Invalid
  {
    var active := ActiveTasks(tasks);
    var failures := BlockerFailures(active);
    if |active| > 1 {
      return Validation(false, failures + [SeveralActive(|active|)], Invalid);
    }
    if |active| == 1 {
      if !IsDependencyReady(active[0], ById(tasks)) {
        failures := failures + [ActiveNotReady(active[0].id)];
      }
      return Validation(failures == [], failures, Executable);
    }
    var ready := ReadyUnfinished(tasks);
    if |ready| == 0 {
      return Validation(true, failures, BlockedExternal);
    }
    failures := FrontierFailures(ready);
    return Validation(failures == [], failures, if failures == [] then BlockedExternal else Invalid);
  }

  // ---- The failures by states, dependencies and blockers ----

  ghost predicate Finished(state: string) {
    state in {"accepted", "completed", "superseded", "cancelled", "rejected"}
  }

  ghost predicate UnderWay(state: string) { state in {"active", "in_progress"} }

  /** The code points that `trim` removes. */
  ghost predicate Blank(c: char) {
    var n := c as int;
    9 <= n <= 13 || 8192 <= n <= 8202 || n in {32, 160, 5760, 8232, 8233, 8239, 8287, 12288, 65279}
  }

  ghost predicate HasReason(t: Task) {
    t.blocker.Some? && exists i | 0 <= i < |t.blocker.value| :: !Blank(t.blocker.value[i])
  }

  /** The last task with this id. */
  ghost predicate IsLast(tasks: seq<Task>, i: nat, id: string) {
    i < |tasks| && tasks[i].id == id && forall j | i < j < |tasks| :: tasks[j].id != id
  }

  /** The dependency exists and is finished. */
  ghost predicate Met(tasks: seq<Task>, d: string) {
    exists i: nat :: IsLast(tasks, i, d) && Finished(tasks[i].state)
  }

  ghost predicate ReadyTask(tasks: seq<Task>, t: Task) {
    t in tasks && !Finished(t.state) && forall d | d in t.dependencies :: Met(tasks, d)
  }

  ghost function NumberUnderWay(tasks: seq<Task>): nat {
    if tasks == [] then 0 else (if UnderWay(tasks[0].state) then 1 else 0) + NumberUnderWay(tasks[1..])
  }

  lemma ByIdStep(tasks: seq<Task>)
    requires tasks != []
    ensures ById(tasks) == ById(tasks[..|tasks| - 1])[tasks[|tasks| - 1].id := tasks[|tasks| - 1]]
  {
  }

  lemma {:induction false} ByIdIsLast(tasks: seq<Task>, i: nat, id: string)
    requires IsLast(tasks, i, id)
    ensures id in ById(tasks) && ById(tasks)[id] == tasks[i]
  {
    var n := |tasks| - 1;
    ByIdStep(tasks);
    if i < n {
      assert tasks[n].id != id;
      assert IsLast(tasks[..n], i, id);
      ByIdIsLast(tasks[..n], i, id);
    }
  }

  lemma {:induction false} LastOf(tasks: seq<Task>, id: string) returns (i: nat)
    requires id in ById(tasks)
    ensures IsLast(tasks, i, id)
  {
    var n := |tasks| - 1;
    i := n;
    if tasks[n].id != id {
      i := LastOf(tasks[..n], id);
    }
  }

  lemma MetExactly(tasks: seq<Task>, d: string)
    ensures Met(tasks, d) <==> d in ById(tasks) && Resolved(ById(tasks)[d])
  {
    if i: nat :| IsLast(tasks, i, d) && Finished(tasks[i].state) { ByIdIsLast(tasks, i, d); }
    if d in ById(tasks) {
      var i := LastOf(tasks, d);
      ByIdIsLast(tasks, i, d);
    }
  }

  lemma ReadyExactly(tasks: seq<Task>, t: Task)
    ensures t in ReadyUnfinished(tasks) <==> ReadyTask(tasks, t)
    ensures IsDependencyReady(t, ById(tasks)) <==> forall d | d in t.dependencies :: Met(tasks, d)
  {
    forall d | d in t.dependencies { MetExactly(tasks, d); }
  }

  lemma {:induction false} ActiveCounted(tasks: seq<Task>)
    ensures |ActiveTasks(tasks)| == NumberUnderWay(tasks)
    ensures forall t :: t in ActiveTasks(tasks) <==> t in tasks && UnderWay(t.state)
  {
    CountFiltered(tasks, t => Active(t));
  }

  lemma {:induction false} CountFiltered(tasks: seq<Task>, keep: Task -> bool)
    requires forall t :: keep(t) <==> UnderWay(t.state)
    ensures |Filter(tasks, keep)| == NumberUnderWay(tasks)
  {
    if tasks != [] { CountFiltered(tasks[1..], keep); }
  }

  lemma GenuineExactly(t: Task)
    ensures HasGenuineBlocker(t) <==> HasReason(t)
  {
    assert forall c :: IsSpace(c) <==> Blank(c);
  }

  /** Each failure is due exactly when the tasks give cause for it. */
  ghost predicate HasCause(tasks: seq<Task>, f: Failure) {
    match f
    case ActiveWithBlocker(id) => exists t | t in tasks :: UnderWay(t.state) && HasReason(t) && t.id == id
    case SeveralActive(n) => n > 1 && NumberUnderWay(tasks) == n
    case ActiveNotReady(id) =>
      NumberUnderWay(tasks) == 1 && exists t | t in tasks :: UnderWay(t.state) && t.id == id && Unmet(tasks, t)
    case UnclaimedWork(id) =>
      NumberUnderWay(tasks) == 0 && exists t :: ReadyTask(tasks, t) && t.state != "blocked_external" && t.id == id
    case BlockedWithoutReason(id) =>
      NumberUnderWay(tasks) == 0 && exists t :: ReadyTask(tasks, t) && BlockedInName(t) && t.id == id
  }

  ghost predicate Unmet(tasks: seq<Task>, t: Task) { exists d | d in t.dependencies :: !Met(tasks, d) }

  ghost predicate BlockedInName(t: Task) { t.state == "blocked_external" && !HasReason(t) }

  lemma ReadyFailure(tasks: seq<Task>, f: Failure)
    requires f.UnclaimedWork? || f.BlockedWithoutReason?
    ensures (exists t | t in ReadyUnfinished(tasks) :: FailureOf(t) == Some(f)) <==>
            exists t :: ReadyTask(tasks, t) && t.id == f.id &&
                        if f.UnclaimedWork? then t.state != "blocked_external" else BlockedInName(t)
  {
    forall t ensures t in ReadyUnfinished(tasks) <==> ReadyTask(tasks, t) { ReadyExactly(tasks, t); }
    forall t ensures HasGenuineBlocker(t) <==> HasReason(t) { GenuineExactly(t); }
  }

  lemma NoReadyFailure(f: Failure)
    requires !f.UnclaimedWork? && !f.BlockedWithoutReason?
    ensures forall t :: FailureOf(t) != Some(f)
  {
  }

  lemma ActiveFailure(tasks: seq<Task>, f: Failure)
    requires !f.UnclaimedWork? && !f.BlockedWithoutReason?
    ensures IsDue(tasks, f) <==> HasCause(tasks, f)
  {
    ActiveCounted(tasks);
    forall t ensures IsDependencyReady(t, ById(tasks)) <==> !Unmet(tasks, t) { ReadyExactly(tasks, t); }
    forall t ensures HasGenuineBlocker(t) <==> HasReason(t) { GenuineExactly(t); }
    if |ActiveTasks(tasks)| == 1 { assert forall t | t in ActiveTasks(tasks) :: t == ActiveTasks(tasks)[0]; }
    assert |ActiveTasks(tasks)| == 1 ==> ActiveTasks(tasks)[0] in ActiveTasks(tasks);
    NoReadyFailure(f);
  }

  lemma DueExactly(tasks: seq<Task>, f: Failure)
    ensures IsDue(tasks, f) <==> HasCause(tasks, f)
  {
    if f.UnclaimedWork? || f.BlockedWithoutReason? {
      ActiveCounted(tasks);
      ReadyFailure(tasks, f);
    } else {
      ActiveFailure(tasks, f);
    }
  }

  // ---- Nothing executable is left behind ----

  /** The unresolved tasks and what they depend on. */
  function Unresolved(tasks: seq<Task>): DependencyGraph {
    map id | id in ById(tasks) && !Resolved(ById(tasks)[id]) :: ById(tasks)[id].dependencies
  }

  /** A chain of unresolved tasks, each waiting on the next, that ends in a task
      whose own dependencies are all resolved. */
  ghost predicate WaitsOn(tasks: seq<Task>, id: string, chain: seq<string>, last: Task) {
    && IsPath(Unresolved(tasks), chain) && chain[0] == id && chain[|chain| - 1] == last.id
    && last in ReadyUnfinished(tasks)
  }

  lemma {:induction false} FollowToReady(tasks: seq<Task>, chain: seq<string>) returns (longer: seq<string>, last: Task)
    requires DependenciesPresent(tasks) && Acyclic(Unresolved(tasks))
    requires IsPath(Unresolved(tasks), chain)
    ensures WaitsOn(tasks, chain[0], longer, last)
    decreases Unresolved(tasks).Keys - (set id | id in chain)
  {
    var g, byId, end := Unresolved(tasks), ById(tasks), chain[|chain| - 1];
    assert end in g;
    last := byId[end];
    if IsDependencyReady(last, byId) {
      longer := chain;
    } else {
      var d :| d in last.dependencies && !Resolved(byId[d]);
      var next := chain + [d];
      assert d in g && IsPath(g, next);
      if d in chain {
        CycleInChain(g, chain, d);
        assert false;
      }
      assert d in g.Keys - (set id | id in chain);
      assert d !in g.Keys - (set id | id in next);
      longer, last := FollowToReady(tasks, next);
    }
  }

  lemma CycleInChain(g: DependencyGraph, chain: seq<string>, d: string)
    requires IsPath(g, chain + [d]) && d in chain
    ensures !Acyclic(g)
  {
    var k := Position(chain, d);
    assert IsCycle(g, (chain + [d])[k..]);
  }

  /** A task that waits, at some remove, on a ready one (or is ready itself). */
  ghost predicate LeadsToReady(tasks: seq<Task>, id: string) {
    exists chain, last :: WaitsOn(tasks, id, chain, last)
  }

  /** Unresolved tasks that wait only on each other: each has an unresolved dependency,
      and none has one outside. */
  ghost predicate Knot(tasks: seq<Task>, ids: set<string>) {
    var g := Unresolved(tasks);
    && ids != {} && ids <= g.Keys
    && (forall id | id in ids :: exists d :: d in g[id] && d in g)
    && (forall id, d | id in ids && d in g[id] && d in g :: d in ids)
  }

  lemma ReadyExactlyWithoutUnresolved(tasks: seq<Task>, t: Task)
    requires UniqueIds(tasks) && DependenciesPresent(tasks) && t in tasks && !Resolved(t)
    ensures t.id in Unresolved(tasks) && Unresolved(tasks)[t.id] == t.dependencies
    ensures t in ReadyUnfinished(tasks) <==> forall d | d in t.dependencies :: d !in Unresolved(tasks)
  {
    ByIdFindsEach(tasks, t);
  }

  lemma {:induction false} ChainStaysInKnot(tasks: seq<Task>, ids: set<string>, chain: seq<string>, i: nat)
    requires Knot(tasks, ids) && IsPath(Unresolved(tasks), chain) && chain[0] in ids && i < |chain|
    ensures chain[i] in ids
  {
    if i > 0 {
      ChainStaysInKnot(tasks, ids, chain, i - 1);
      assert chain[i] in Unresolved(tasks)[chain[i - 1]];
    }
  }

  /** Nothing in a knot ever leads to a ready task. */
  lemma KnotNeverReady(tasks: seq<Task>, ids: set<string>, id: string)
    requires UniqueIds(tasks) && DependenciesPresent(tasks) && Knot(tasks, ids) && id in ids
    ensures !LeadsToReady(tasks, id)
  {
    forall chain, last | WaitsOn(tasks, id, chain, last) ensures false {
      ChainStaysInKnot(tasks, ids, chain, |chain| - 1);
      ReadyExactlyWithoutUnresolved(tasks, last);
      assert false;
    }
  }

  lemma ReadyLeadsToItself(tasks: seq<Task>, id: string, t: Task)
    requires id in Unresolved(tasks) && t in ReadyUnfinished(tasks) && t.id == id
    ensures LeadsToReady(tasks, id)
  {
    assert WaitsOn(tasks, id, [id], t);
  }

  lemma DependentLeadsToo(tasks: seq<Task>, id: string, d: string)
    requires id in Unresolved(tasks) && d in Unresolved(tasks)[id] && LeadsToReady(tasks, d)
    ensures LeadsToReady(tasks, id)
  {
    var chain, last :| WaitsOn(tasks, d, chain, last);
    var longer := [id] + chain;
    forall i, j | 0 <= i < j < |longer| && j == i + 1 ensures longer[j] in Unresolved(tasks)[longer[i]] {
      if i > 0 { assert chain[i] in Unresolved(tasks)[chain[i - 1]]; }
    }
    assert WaitsOn(tasks, id, longer, last);
  }

  /** The tasks that do not lead to a ready one form a knot, if there are any. */
  lemma StuckTasksAreKnot(tasks: seq<Task>, ids: set<string>)
    requires UniqueIds(tasks) && DependenciesPresent(tasks) && ids != {}
    requires forall id :: id in ids <==> id in Unresolved(tasks) && !LeadsToReady(tasks, id)
    ensures Knot(tasks, ids)
  {
    var g := Unresolved(tasks);
    forall id | id in ids ensures exists d :: d in g[id] && d in g {
      var t := ById(tasks)[id];
      ReadyExactlyWithoutUnresolved(tasks, t);
      if t in ReadyUnfinished(tasks) {
        ReadyLeadsToItself(tasks, id, t);
        assert false;
      }
    }
    forall id, d | id in ids && d in g[id] && d in g ensures d in ids {
      if LeadsToReady(tasks, d) {
        DependentLeadsToo(tasks, id, d);
        assert false;
      }
    }
  }

  lemma StuckTaskMeansKnot(tasks: seq<Task>, id: string) returns (ids: set<string>)
    requires UniqueIds(tasks) && DependenciesPresent(tasks)
    requires id in Unresolved(tasks) && !LeadsToReady(tasks, id)
    ensures Knot(tasks, ids)
  {
    ids := set x | x in Unresolved(tasks) && !LeadsToReady(tasks, x);
    assert id in ids;
    StuckTasksAreKnot(tasks, ids);
  }

  ghost predicate AllLeadToReady(tasks: seq<Task>) {
    forall id | id in Unresolved(tasks) :: LeadsToReady(tasks, id)
  }

  ghost predicate NoKnot(tasks: seq<Task>) {
    forall ids :: !Knot(tasks, ids)
  }

  /** Every unresolved task leads to a ready one exactly when there is no knot. */
  lemma ReadyReachedExactlyWithoutKnot(tasks: seq<Task>)
    requires UniqueIds(tasks) && DependenciesPresent(tasks)
    ensures AllLeadToReady(tasks) <==> NoKnot(tasks)
  {
    if !AllLeadToReady(tasks) {
      var id :| id in Unresolved(tasks) && !LeadsToReady(tasks, id);
      var ids := StuckTaskMeansKnot(tasks, id);
    }
    if ids :| Knot(tasks, ids) {
      var id :| id in ids;
      KnotNeverReady(tasks, ids, id);
    }
  }

  /** Without an active task the frontier is accepted exactly when no failure is due. */
  lemma AcceptedIdleExactly(tasks: seq<Task>)
    requires |ActiveTasks(tasks)| == 0
    ensures AcceptedIdle(tasks) <==> forall f :: !IsDue(tasks, f)
  {
    if !AcceptedIdle(tasks) {
      var t :| t in ReadyUnfinished(tasks) && !ExplicitlyBlocked(t);
      assert IsDue(tasks, FailureOf(t).value);
    }
  }

  /** The task is, or waits at some remove on, one that is explicitly blocked. */
  ghost predicate HeldUp(tasks: seq<Task>, id: string) {
    exists chain, last :: WaitsOn(tasks, id, chain, last) && ExplicitlyBlocked(last)
  }

  /** An accepted frontier without an active task leaves nothing executable behind, that
      is, every unresolved task is held up by an explicitly blocked one, exactly when
      there is no knot. */
  lemma AcceptedMeansBlocked(tasks: seq<Task>)
    requires UniqueIds(tasks) && DependenciesPresent(tasks) && AcceptedIdle(tasks)
    ensures (forall id | id in Unresolved(tasks) :: HeldUp(tasks, id)) <==> NoKnot(tasks)
  {
    ReadyReachedExactlyWithoutKnot(tasks);
    forall id | id in Unresolved(tasks) ensures HeldUp(tasks, id) <==> LeadsToReady(tasks, id) {
      if LeadsToReady(tasks, id) {
        var chain, last :| WaitsOn(tasks, id, chain, last);
        assert ExplicitlyBlocked(last);
      }
    }
  }

  /** A task graph without cycles has no knot. */
  lemma AcyclicHasNoKnot(tasks: seq<Task>)
    requires UniqueIds(tasks) && DependenciesPresent(tasks) && Acyclic(Unresolved(tasks))
    ensures NoKnot(tasks)
  {
    forall id | id in Unresolved(tasks) ensures LeadsToReady(tasks, id) {
      var chain, last := FollowToReady(tasks, [id]);
    }
    ReadyReachedExactlyWithoutKnot(tasks);
  }

  /** When nothing is ready, nothing is left to do exactly when no unresolved tasks
      wait on each other in a cycle. */
  lemma NothingReadyMeansAllResolved(tasks: seq<Task>)
    requires UniqueIds(tasks) && DependenciesPresent(tasks)
    requires forall r :: r !in ReadyUnfinished(tasks)
    ensures (forall t | t in tasks :: Resolved(t)) <==> Acyclic(Unresolved(tasks))
  {
    if Acyclic(Unresolved(tasks)) {
      forall t | t in tasks ensures Resolved(t) {
        if !Resolved(t) {
          ByIdFindsEach(tasks, t);
          var chain, last := FollowToReady(tasks, [t.id]);
          assert false;
        }
      }
    }
    if forall t | t in tasks :: Resolved(t) {
      assert Unresolved(tasks) == map[];
    }
  }

  lemma ByIdOfTwo(a: Task, b: Task)
    requires a.id != b.id
    ensures ById([a, b]) == map[a.id := a, b.id := b]
  {
    assert [a, b][..1] == [a] && [a][..0] == [];
  }

  lemma {:induction false} FilterNone(tasks: seq<Task>, keep: Task -> bool)
    requires forall t | t in tasks :: !keep(t)
    ensures Filter(tasks, keep) == []
  {
    if tasks != [] { FilterNone(tasks[1..], keep); }
  }

  /** The failing input: two tasks that wait on each other are a knot. Nothing is ready,
      no failure is due, and the frontier is accepted although neither task is blocked. */
  lemma MutualWaitIsAccepted(a: Task, b: Task)
    requires a.id != b.id && !Resolved(a) && !Resolved(b) && !Active(a) && !Active(b)
    requires a.dependencies == [b.id] && b.dependencies == [a.id]
    ensures UniqueIds([a, b]) && DependenciesPresent([a, b])
    ensures Knot([a, b], {a.id, b.id})
    ensures forall t :: t !in ReadyUnfinished([a, b])
    ensures AcceptedIdle([a, b]) && forall f :: !IsDue([a, b], f)
  {
    var tasks := [a, b];
    ByIdOfTwo(a, b);
    FilterNone(tasks, t => Active(t));
    assert b.id in Unresolved(tasks)[a.id] && a.id in Unresolved(tasks)[b.id];
    forall t ensures t !in ReadyUnfinished(tasks) {
      if t in tasks { assert a.id in [a.id] && b.id in [b.id]; }
    }
    AcceptedIdleExactly(tasks);
  }

  /** A cycle-free task graph has no cycle among its unresolved tasks. */
  lemma AcyclicTasksAcyclicUnresolved(tasks: seq<Task>)
    requires Acyclic(map id | id in ById(tasks) :: ById(tasks)[id].dependencies)
    ensures Acyclic(Unresolved(tasks))
  {
    var g := map id | id in ById(tasks) :: ById(tasks)[id].dependencies;
    forall p ensures !IsCycle(Unresolved(tasks), p) {
      assert IsCycle(Unresolved(tasks), p) ==> IsCycle(g, p);
    }
  }
}
