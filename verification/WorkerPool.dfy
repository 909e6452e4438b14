/** The bounded concurrency runner of scripts/security/load-stats.ts: workers that
    claim task indices from one shared counter, as interleaved steps. */
module WorkerPool {
  import opened Outcomes

  /** Between two steps a worker is about to claim, waits for its task, or has ended. */
  datatype Worker = Ready | Running(task: nat) | Returned | Rejected(task: nat)

  datatype Pool<T> = Pool(nextIndex: nat, workers: seq<Worker>, results: seq<Option<T>>)

  /** Worker `w` is scheduled: it claims, or its task settles. */
  datatype Step = Claim(w: nat) | Finish(w: nat) | Reject(w: nat)

  function Min(a: nat, b: nat): nat { if a <= b then a else b }

  function Start<T>(tasks: nat, concurrency: nat): Pool<T> {
    Pool(0, seq(Min(concurrency, tasks), _ => Ready), seq(tasks, _ => None))
  }

  predicate Enabled<T>(p: Pool<T>, step: Step) {
    step.w < |p.workers| &&
    match step
    case Claim(w) => p.workers[w].Ready?
    case Finish(w) => p.workers[w].Running? && p.workers[w].task < |p.results|
    case Reject(w) => p.workers[w].Running?
  }

  /** `value[i]` is what task `i` resolves to, if it does. */
  function Apply<T>(p: Pool<T>, value: seq<T>, step: Step): Pool<T>
    requires Enabled(p, step) && |value| == |p.results|
  {
    match step
    case Claim(w) =>
      var worker := if p.nextIndex >= |p.results| then Returned else Running(p.nextIndex);
      Pool(p.nextIndex + 1, p.workers[w := worker], p.results)
    case Finish(w) =>
      var i := p.workers[w].task;
      Pool(p.nextIndex, p.workers[w := Ready], p.results[i := Some(value[i])])
    case Reject(w) =>
      p.(workers := p.workers[w := Rejected(p.workers[w].task)])
  }

  /** The pool after a schedule, or nothing if the schedule is not possible. */
  function Run<T>(value: seq<T>, concurrency: nat, schedule: seq<Step>): (r: Option<Pool<T>>)
    ensures r.Some? ==> |r.value.results| == |value|
  {
    if schedule == [] then Some(Start(|value|, concurrency))
    else
      var last := schedule[|schedule| - 1];
      match Run(value, concurrency, schedule[..|schedule| - 1])
      case None => None
      case Some(p) => if Enabled(p, last) then Some(Apply(p, value, last)) else None
  }

  // ---- The code's own form: shared fields updated in place ----

  class SharedPool<T(0)> {
    var nextIndex: nat
    var workers: seq<Worker>
    var results: array<Option<T>>

    ghost function State(): Pool<T>
      reads this, results
    {
      Pool(nextIndex, workers, results[..])
    }

    constructor (tasks: nat, concurrency: nat)
      ensures State() == Start(tasks, concurrency) && fresh(results)
    {
      nextIndex := 0;
      workers := seq(Min(concurrency, tasks), _ => Ready);
      results := new Option<T>[tasks](_ => None);
      new;
      assert results[..] == seq(tasks, _ => None);
    }

    /** Takes the next index and bumps the counter; returns when no task is left. */
    method ClaimNext(w: nat)
      requires Enabled(State(), Claim(w))
      modifies this`nextIndex, this`workers
      ensures forall value: seq<T> | |value| == results.Length ::
                State() == Apply(old(State()), value, Claim(w))
    {
      var i := nextIndex;
      nextIndex := nextIndex + 1;
      if i >= results.Length {
        workers := workers[w := Returned];
      } else {
        workers := workers[w := Running(i)];
      }
    }

    /** The awaited task has resolved: its value is stored at its own index. */
    method StoreResult(w: nat, value: seq<T>)
      requires Enabled(State(), Finish(w)) && |value| == results.Length
      modifies this`workers, results
      ensures results == old(results)
      ensures State() == Apply(old(State()), value, Finish(w))
    {
      var i := workers[w].task;
      results[i] := Some(value[i]);
      workers := workers[w := Ready];
    }
  }

  // ---- What every schedule keeps ----

  predicate Holds(worker: Worker, i: nat) {
    worker == Running(i) || worker == Rejected(i)
  }

  /** Task `i` has been claimed and its value stored. */
  predicate Stored<T>(p: Pool<T>, i: nat) { i < |p.results| && p.results[i].Some? }

  ghost predicate Held<T>(p: Pool<T>, i: nat) {
    exists w: nat :: w < |p.workers| && Holds(p.workers[w], i)
  }

  ghost predicate Invariant<T>(p: Pool<T>, value: seq<T>) {
    && |p.results| == |value|
    // every claimed task is stored or held by a worker, and by one worker only
    && (forall i: nat | i < |value| && i < p.nextIndex :: Stored(p, i) || Held(p, i))
    && (forall w: nat, i: nat {:trigger Holds(p.workers[w], i)} |
          w < |p.workers| && Holds(p.workers[w], i) :: i < p.nextIndex && i < |value| && !Stored(p, i))
    && (forall v: nat, w: nat, i: nat {:trigger Holds(p.workers[v], i), Holds(p.workers[w], i)} |
          v < w < |p.workers| && Holds(p.workers[v], i) :: !Holds(p.workers[w], i))
    // unclaimed tasks are untouched, stored values are the tasks' own
    && (forall i: nat | i < |value| && i >= p.nextIndex :: p.results[i].None?)
    && (forall i: nat | i < |value| && p.results[i].Some? :: p.results[i].value == value[i])
    // nobody returns while a task is unclaimed
    && (forall w: nat | w < |p.workers| && p.workers[w].Returned? :: p.nextIndex >= |value|)
  }

  lemma ClaimKeeps<T>(p: Pool<T>, value: seq<T>, w: nat)
    requires Invariant(p, value) && Enabled(p, Claim(w))
    ensures Invariant(Apply(p, value, Claim(w)), value)
  {
    var q := Apply(p, value, Claim(w));
    forall u: nat, i: nat | u < |q.workers| && Holds(q.workers[u], i)
      ensures i < q.nextIndex && i < |value| && !Stored(q, i)
    {
      assert u != w ==> Holds(p.workers[u], i);
    }
    forall u: nat, v: nat, i: nat | u < v < |q.workers| && Holds(q.workers[u], i) ensures !Holds(q.workers[v], i) {
      assert u != w ==> Holds(p.workers[u], i);
      assert v != w ==> (Holds(q.workers[v], i) <==> Holds(p.workers[v], i));
    }
    forall i: nat | i < |value| && i < q.nextIndex ensures Stored(q, i) || Held(q, i) {
      if i == p.nextIndex {
        assert Holds(q.workers[w], i);
      } else if !Stored(p, i) {
        var u: nat :| u < |p.workers| && Holds(p.workers[u], i);
        assert Holds(q.workers[u], i);
      }
    }
  }

  lemma FinishKeeps<T>(p: Pool<T>, value: seq<T>, w: nat)
    requires Invariant(p, value) && Enabled(p, Finish(w))
    ensures Invariant(Apply(p, value, Finish(w)), value)
  {
    var q := Apply(p, value, Finish(w));
    var t := p.workers[w].task;
    assert Holds(p.workers[w], t);
    forall u: nat, i: nat | u < |q.workers| && Holds(q.workers[u], i)
      ensures i < q.nextIndex && i < |value| && !Stored(q, i)
    {
      assert u != w ==> Holds(p.workers[u], i);
    }
    forall u: nat, v: nat, i: nat | u < v < |q.workers| && Holds(q.workers[u], i) ensures !Holds(q.workers[v], i) {
      assert u != w ==> Holds(p.workers[u], i);
      assert v != w ==> (Holds(q.workers[v], i) <==> Holds(p.workers[v], i));
    }
    forall i: nat | i < |value| && i < q.nextIndex ensures Stored(q, i) || Held(q, i) {
      if i != t && !Stored(p, i) {
        var u: nat :| u < |p.workers| && Holds(p.workers[u], i);
        assert Holds(q.workers[u], i);
      }
    }
  }

  lemma RejectKeeps<T>(p: Pool<T>, value: seq<T>, w: nat)
    requires Invariant(p, value) && Enabled(p, Reject(w))
    ensures Invariant(Apply(p, value, Reject(w)), value)
  {
    var q := Apply(p, value, Reject(w));
    assert forall u: nat, i: nat {:trigger Holds(q.workers[u], i)} | u < |p.workers| :: Holds(q.workers[u], i) <==>
      Holds(p.workers[u], i);
    forall i: nat | i < |value| && i < q.nextIndex ensures Stored(q, i) || Held(q, i) {
      if !Stored(p, i) {
        var u: nat :| u < |p.workers| && Holds(p.workers[u], i);
        assert Holds(q.workers[u], i);
      }
    }
  }

  lemma {:induction false} RunKeepsInvariant<T>(value: seq<T>, concurrency: nat, schedule: seq<Step>)
    requires Run(value, concurrency, schedule).Some?
    ensures Invariant(Run(value, concurrency, schedule).value, value)
    ensures |Run(value, concurrency, schedule).value.workers| == Min(concurrency, |value|)
  {
    if schedule != [] {
      var n := |schedule| - 1;
      RunKeepsInvariant(value, concurrency, schedule[..n]);
      var p := Run(value, concurrency, schedule[..n]).value;
      match schedule[n]
      case Claim(w) => ClaimKeeps(p, value, w);
      case Finish(w) => FinishKeeps(p, value, w);
      case Reject(w) => RejectKeeps(p, value, w);
    }
  }

  /** Which worker claimed task `i` in a schedule, if any, read off the schedule itself. */
  function Claims<T>(value: seq<T>, concurrency: nat, schedule: seq<Step>, i: nat): seq<nat>
    requires Run(value, concurrency, schedule).Some?
  {
    if schedule == [] then []
    else
      var n := |schedule| - 1;
      Claims(value, concurrency, schedule[..n], i) +
      (if schedule[n].Claim? && Run(value, concurrency, schedule[..n]).value.nextIndex == i then [schedule[n].w]
          else [])
  }

  /** Each task index below the counter was claimed by exactly one worker, once, and
      no other index by anyone. */
  lemma {:induction false} ClaimedOnce<T>(value: seq<T>, concurrency: nat, schedule: seq<Step>, i: nat)
    requires Run(value, concurrency, schedule).Some?
    ensures |Claims(value, concurrency, schedule, i)|
         == if i < Run(value, concurrency, schedule).value.nextIndex then 1 else 0
  {
    if schedule != [] {
      ClaimedOnce(value, concurrency, schedule[..|schedule| - 1], i);
    }
  }

  /** The tasks in flight. */
  function InFlight<T>(p: Pool<T>): set<nat> {
    set w | 0 <= w < |p.workers| && p.workers[w].Running? :: p.workers[w].task
  }

  lemma {:induction false} FewerThanWorkers(workers: seq<Worker>)
    ensures |set w | 0 <= w < |workers| && workers[w].Running? :: workers[w].task| <= |workers|
  {
    if workers != [] {
      var n := |workers| - 1;
      FewerThanWorkers(workers[..n]);
      var before := set w | 0 <= w < n && workers[..n][w].Running? :: workers[..n][w].task;
      var all := set w | 0 <= w < |workers| && workers[w].Running? :: workers[w].task;
      assert workers == workers[..n] + [workers[n]];
      if workers[n].Running? {
        assert all == before + {workers[n].task};
      } else {
        assert all == before;
      }
    }
  }

  /** Never more than `min(concurrency, n)` tasks are in flight, and there are that many workers. */
  lemma BoundedConcurrency<T>(value: seq<T>, concurrency: nat, schedule: seq<Step>)
    requires Run(value, concurrency, schedule).Some?
    ensures |InFlight(Run(value, concurrency, schedule).value)| <= Min(concurrency, |value|)
    ensures var workers := |Run(value, concurrency, schedule).value.workers|;
            workers <= concurrency && workers <= |value| && (workers == concurrency || workers == |value|)
  {
    RunKeepsInvariant(value, concurrency, schedule);
    FewerThanWorkers(Run(value, concurrency, schedule).value.workers);
  }

  /** When all workers have returned, `results[i]` is the value of task `i`, for every `i`. */
  lemma ResultsInOrder<T>(value: seq<T>, concurrency: nat, schedule: seq<Step>)
    requires concurrency > 0 && Run(value, concurrency, schedule).Some?
    requires forall w | w in Run(value, concurrency, schedule).value.workers :: w == Returned
    ensures var p := Run(value, concurrency, schedule).value;
            forall i | 0 <= i < |value| :: p.results[i] == Some(value[i])
  {
    RunKeepsInvariant(value, concurrency, schedule);
    var p := Run(value, concurrency, schedule).value;
    if |value| > 0 {
      assert p.workers[0] in p.workers;
      forall i | 0 <= i < |value| ensures p.results[i] == Some(value[i]) {
        assert forall w | 0 <= w < |p.workers| :: p.workers[w] in p.workers;
        assert Stored(p, i);
      }
    }
  }

  /** A worker that has neither returned nor failed can always take a step. */
  lemma NoDeadlock<T>(value: seq<T>, concurrency: nat, schedule: seq<Step>, w: nat) returns (step: Step)
    requires Run(value, concurrency, schedule).Some?
    requires w < |Run(value, concurrency, schedule).value.workers|
    requires var worker := Run(value, concurrency, schedule).value.workers[w]; worker.Ready? || worker.Running?
    ensures Run(value, concurrency, schedule + [step]).Some?
  {
    RunKeepsInvariant(value, concurrency, schedule);
    var p := Run(value, concurrency, schedule).value;
    step := if p.workers[w].Ready? then Claim(w) else Finish(w);
    assert p.workers[w].Running? ==> Holds(p.workers[w], p.workers[w].task);
    assert Enabled(p, step);
    assert (schedule + [step])[..|schedule|] == schedule;
  }

  // ---- Bounded number of steps ----

  function Potential(worker: Worker): nat {
    match worker
    case Ready => 1
    case Running(_) => 2
    case _ => 0
  }

  function TotalPotential(workers: seq<Worker>): nat {
    if workers == [] then 0 else TotalPotential(workers[..|workers| - 1]) + Potential(workers[|workers| - 1])
  }

  lemma {:induction false} PotentialAfterUpdate(workers: seq<Worker>, w: nat, worker: Worker)
    requires w < |workers|
    ensures TotalPotential(workers[w := worker]) == TotalPotential(workers) - Potential(workers[w]) + Potential(worker)
  {
    var n := |workers| - 1;
    if w == n {
      assert workers[w := worker][..n] == workers[..n];
    } else {
      assert workers[w := worker][..n] == workers[..n][w := worker];
      assert workers[w := worker][n] == workers[n] && workers[..n][w] == workers[w];
      PotentialAfterUpdate(workers[..n], w, worker);
    }
  }

  function StepsLeft<T>(p: Pool<T>): nat {
    TotalPotential(p.workers) + 2 * (if p.nextIndex < |p.results| then |p.results| - p.nextIndex else 0)
  }

  lemma StepUsesBudget<T>(p: Pool<T>, value: seq<T>, step: Step)
    requires Enabled(p, step) && |value| == |p.results|
    ensures StepsLeft(Apply(p, value, step)) + 1 <= StepsLeft(p)
  {
    var q := Apply(p, value, step);
    PotentialAfterUpdate(p.workers, step.w, q.workers[step.w]);
  }

  lemma {:induction false} StartBudget(n: nat)
    ensures TotalPotential(seq(n, _ => Ready)) == n
  {
    if n > 0 {
      assert seq(n, _ => Ready)[..n - 1] == seq(n - 1, _ => Ready);
      StartBudget(n - 1);
    }
  }

  /** No schedule has more than two steps per task and one per worker. */
  lemma {:induction false} RunsAreBounded<T>(value: seq<T>, concurrency: nat, schedule: seq<Step>)
    requires Run(value, concurrency, schedule).Some?
    ensures |schedule| + StepsLeft(Run(value, concurrency, schedule).value) <= 2 * |value| + Min(concurrency, |value|)
  {
    if schedule == [] {
      StartBudget(Min(concurrency, |value|));
    } else {
      var n := |schedule| - 1;
      RunsAreBounded(value, concurrency, schedule[..n]);
      StepUsesBudget(Run(value, concurrency, schedule[..n]).value, value, schedule[n]);
    }
  }
}
