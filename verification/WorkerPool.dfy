/** Mapping a list with a bounded number of calls at a time. Between two awaits a worker runs alone,
    so a run is a sequence of starts of workers and of ends of calls, in any order of the calls. */
module WorkerPool {
  import opened Text

  /** The limit, a JavaScript number. */
  datatype Limit = NotANumber | Infinite(positive: bool) | Finite(value: real)

  datatype Pool<!T, !R> = Pool(items: seq<T>, limit: Limit, fn: (T, nat) -> R) {
    /** The number of workers, `max(1, min(limit, items))` cut to an integer; none without a number. */
    function WorkerCount(): nat {
      var n := |items| as real;
      match limit
      case NotANumber => 0
      case Infinite(positive) => if positive && |items| > 1 then |items| else 1
      case Finite(value) =>
        var least := if value < n then value else n;
        if least > 1.0 then least.Floor else 1
    }
  }

  datatype Worker = Running(index: nat) | Finished | Failed

  /** `calls` and `ended` list the indices whose calls were made and have ended, in that order. */
  datatype State<R> = State(next: nat, workers: seq<Worker>, results: map<nat, R>, calls: seq<nat>, ended: seq<nat>)

  datatype Step = Start | Resolve(worker: nat) | Reject(worker: nat)

  function Initial<R>(): State<R> {
    State(0, [], map[], [], [])
  }

  predicate IsEnabled<T, R>(pool: Pool<T, R>, s: State<R>, step: Step) {
    if step.Start? then |s.workers| < pool.WorkerCount()
    else |s.workers| == pool.WorkerCount() && step.worker < |s.workers| && s.workers[step.worker].Running?
         && s.workers[step.worker].index < |pool.items|
  }

  /** What a worker does until its next await: it takes the next index, or it is done. */
  function Claimed<T, R>(pool: Pool<T, R>, s: State<R>): (Worker, State<R>) {
    if s.next < |pool.items| then (Running(s.next), s.(next := s.next + 1, calls := s.calls + [s.next]))
    else (Finished, s)
  }

  function Apply<T, R>(pool: Pool<T, R>, s: State<R>, step: Step): State<R>
    requires IsEnabled(pool, s, step)
  {
    match step
    case Start =>
      var (worker, t) := Claimed(pool, s);
      t.(workers := s.workers + [worker])
    case Resolve(w) =>
      var i := s.workers[w].index;
      var (worker, t) := Claimed(pool, s.(results := s.results[i := pool.fn(pool.items[i], i)], ended := s.ended + [i]));
      t.(workers := s.workers[w := worker])
    case Reject(w) => s.(workers := s.workers[w := Failed], ended := s.ended + [s.workers[w].index])
  }

  function Run<T, R>(pool: Pool<T, R>, s: State<R>, steps: seq<Step>): Option<State<R>>
    decreases |steps|
  {
    if steps == [] then Some(s)
    else if IsEnabled(pool, s, steps[0]) then Run(pool, Apply(pool, s, steps[0]), steps[1..])
    else None
  }

  // ---- What every step keeps ----

  function CountRunning(workers: seq<Worker>): nat {
    if workers == [] then 0
    else (if workers[0].Running? then 1 else 0) + CountRunning(workers[1..])
  }

  lemma {:induction false} CountUpdated(workers: seq<Worker>, w: nat, worker: Worker)
    requires w < |workers|
    ensures CountRunning(workers[w := worker]) + (if workers[w].Running? then 1 else 0)
         == CountRunning(workers) + if worker.Running? then 1 else 0
    decreases workers
  {
    if w > 0 {
      assert workers[w := worker][1..] == workers[1..][w - 1 := worker];
      CountUpdated(workers[1..], w - 1, worker);
    } else {
      assert workers[w := worker][1..] == workers[1..];
    }
  }

  lemma {:induction false} CountAppended(workers: seq<Worker>, worker: Worker)
    ensures CountRunning(workers + [worker]) == CountRunning(workers) + if worker.Running? then 1 else 0
    ensures CountRunning(workers) <= |workers|
    decreases workers
  {
    if workers == [] {
      assert workers + [worker] == [worker] && [worker][1..] == [];
    } else {
      assert (workers + [worker])[1..] == workers[1..] + [worker];
      CountAppended(workers[1..], worker);
    }
  }

  /** The calls are the indices in order, each once. */
  ghost predicate CallsInOrder<R>(s: State<R>, n: nat) {
    |s.calls| == s.next <= n && forall i :: 0 <= i < s.next ==> s.calls[i] == i
  }

  ghost predicate IsClaimedBy(workers: seq<Worker>, i: nat) {
    exists w :: 0 <= w < |workers| && workers[w] == Running(i)
  }

  ghost predicate HasFailed(workers: seq<Worker>) {
    Failed in workers
  }

  /** The workers hold different indices, and no index whose call has ended. */
  ghost predicate ClaimsValid<R>(s: State<R>) {
    && (forall w :: 0 <= w < |s.workers| && s.workers[w].Running? ==>
          s.workers[w].index < s.next && s.workers[w].index !in s.ended)
    && (forall v, w :: 0 <= v < w < |s.workers| && s.workers[v].Running? ==> s.workers[v] != s.workers[w])
    && (forall i <- s.ended :: i < s.next)
    && (forall i, j :: 0 <= i < j < |s.ended| ==> s.ended[i] != s.ended[j])
    && (forall i <- s.results :: i in s.ended)
  }

  ghost predicate CountsValid<R>(s: State<R>) {
    |s.ended| + CountRunning(s.workers) == s.next && (s.workers == [] ==> s.next == 0)
  }

  /** Every index taken is being worked on, has its result, or belongs to a call that failed. */
  ghost predicate ResultsValid<T, R>(pool: Pool<T, R>, s: State<R>) {
    && (forall i <- s.results :: i < s.next && s.next <= |pool.items| && s.results[i] == pool.fn(pool.items[i], i))
    && (HasFailed(s.workers)
        || forall i: nat :: i < s.next ==> i in s.results || IsClaimedBy(s.workers, i))
    && (Finished in s.workers ==> s.next == |pool.items|)
    && |s.workers| <= pool.WorkerCount()
  }

  ghost predicate Valid<T, R>(pool: Pool<T, R>, s: State<R>) {
    CallsInOrder(s, |pool.items|) && ClaimsValid(s) && CountsValid(s) && ResultsValid(pool, s)
  }

  lemma StepKeepsCalls<T, R>(pool: Pool<T, R>, s: State<R>, step: Step)
    requires CallsInOrder(s, |pool.items|) && IsEnabled(pool, s, step)
    ensures CallsInOrder(Apply(pool, s, step), |pool.items|)
  {
  }

  lemma StepKeepsClaims<T, R>(pool: Pool<T, R>, s: State<R>, step: Step)
    requires CallsInOrder(s, |pool.items|) && ClaimsValid(s) && IsEnabled(pool, s, step)
    ensures ClaimsValid(Apply(pool, s, step))
  {
    hide CountRunning, Pool.WorkerCount;
  }

  lemma StepKeepsCounts<T, R>(pool: Pool<T, R>, s: State<R>, step: Step)
    requires CountsValid(s) && IsEnabled(pool, s, step)
    ensures CountsValid(Apply(pool, s, step))
  {
    hide CountRunning, Pool.WorkerCount;
    var t := Apply(pool, s, step);
    match step
    case Start => CountAppended(s.workers, t.workers[|s.workers|]);
    case Resolve(w) => CountUpdated(s.workers, w, t.workers[w]);
    case Reject(w) => CountUpdated(s.workers, w, Failed);
  }

  lemma StepKeepsResults<T, R>(pool: Pool<T, R>, s: State<R>, step: Step)
    requires Valid(pool, s) && IsEnabled(pool, s, step)
    ensures ResultsValid(pool, Apply(pool, s, step))
  {
    var t := Apply(pool, s, step);
    hide Pool.WorkerCount, CountRunning;
    if step.Reject? {
      assert t.workers[step.worker] == Failed;
    }
    if HasFailed(s.workers) && !step.Reject? {
      var w :| 0 <= w < |s.workers| && s.workers[w] == Failed;
      assert t.workers[w] == Failed;
    }
    if !HasFailed(s.workers) && !step.Reject? {
      forall i: nat | i < t.next ensures i in t.results || IsClaimedBy(t.workers, i) {
        StillClaimed(pool, s, step, i);
      }
    }
  }

  lemma StillClaimed<T, R>(pool: Pool<T, R>, s: State<R>, step: Step, i: nat)
    requires Valid(pool, s) && IsEnabled(pool, s, step) && !HasFailed(s.workers) && !step.Reject?
    requires i < Apply(pool, s, step).next
    ensures i in Apply(pool, s, step).results || IsClaimedBy(Apply(pool, s, step).workers, i)
  {
    var t := Apply(pool, s, step);
    hide Pool.WorkerCount, CountRunning;
    if i < s.next && i !in s.results {
      var w :| 0 <= w < |s.workers| && s.workers[w] == Running(i);
      assert step.Start? || step.worker != w ==> t.workers[w] == Running(i);
    } else if i == s.next {
      var w := if step.Start? then |s.workers| else step.worker;
      assert t.workers[w] == Running(i);
    }
  }

  lemma StepKeepsValid<T, R>(pool: Pool<T, R>, s: State<R>, step: Step)
    requires Valid(pool, s) && IsEnabled(pool, s, step)
    ensures Valid(pool, Apply(pool, s, step))
    ensures var t := Apply(pool, s, step);
      |t.workers| + |t.ended| == |s.workers| + |s.ended| + 1
  {
    StepKeepsCalls(pool, s, step);
    StepKeepsClaims(pool, s, step);
    StepKeepsCounts(pool, s, step);
    StepKeepsResults(pool, s, step);
    hide CallsInOrder, ClaimsValid, CountsValid, ResultsValid;
  }

  lemma {:induction false} RunKeepsValid<T, R>(pool: Pool<T, R>, s: State<R>, steps: seq<Step>)
    requires Valid(pool, s) && Run(pool, s, steps).Some?
    ensures Valid(pool, Run(pool, s, steps).value)
    ensures var t := Run(pool, s, steps).value;
      |t.workers| + |t.ended| == |s.workers| + |s.ended| + |steps|
    decreases |steps|
  {
    if steps != [] {
      hide Valid, Apply, IsEnabled;
      StepKeepsValid(pool, s, steps[0]);
      RunKeepsValid(pool, Apply(pool, s, steps[0]), steps[1..]);
    }
  }

  // ---- Over every run ----

  /** The number of workers is at least one and stays within the limit and the list, whatever number
      the limit is. */
  lemma WorkersWithinLimit<T, R>(pool: Pool<T, R>)
    ensures pool.limit.NotANumber? <==> pool.WorkerCount() == 0
    ensures pool.WorkerCount() <= 1 || pool.WorkerCount() <= |pool.items|
    ensures pool.limit.Finite? ==> pool.WorkerCount() <= 1 || pool.WorkerCount() as real <= pool.limit.value
    ensures pool.limit.Finite? && pool.limit.value >= |pool.items| as real && pool.items != []
        ==> pool.WorkerCount() == |pool.items|
  {
  }

  /** In every run the calls are made for the indices in order, each at most once, and no more than
      the allowed number is under way at any time. A run ends: there are only so many steps. */
  lemma CallsAreBounded<T, R>(pool: Pool<T, R>, steps: seq<Step>)
    requires Run(pool, Initial(), steps).Some?
    ensures var s := Run(pool, Initial(), steps).value;
      && (forall i :: 0 <= i < |s.calls| ==> s.calls[i] == i) && |s.calls| <= |pool.items|
      && |s.calls| - |s.ended| == CountRunning(s.workers) <= pool.WorkerCount()
      && |steps| <= pool.WorkerCount() + |pool.items|
  {
    RunKeepsValid(pool, Initial(), steps);
    var s := Run(pool, Initial(), steps).value;
    CountAppended(s.workers, Failed);
  }

  /** The pool is at rest: every worker has begun and none is in a call. */
  ghost predicate IsAtRest<T, R>(pool: Pool<T, R>, s: State<R>) {
    |s.workers| == pool.WorkerCount() && forall w :: 0 <= w < |s.workers| ==> !s.workers[w].Running?
  }

  /** A run can always go on until the pool is at rest. */
  lemma RestsOnlyAtEnd<T, R>(pool: Pool<T, R>, steps: seq<Step>) returns (step: Step)
    requires Run(pool, Initial(), steps).Some? && !IsAtRest(pool, Run(pool, Initial(), steps).value)
    ensures IsEnabled(pool, Run(pool, Initial(), steps).value, step)
  {
    RunKeepsValid(pool, Initial(), steps);
    var s := Run(pool, Initial(), steps).value;
    hide Run, Pool.WorkerCount;
    if |s.workers| < pool.WorkerCount() {
      step := Start;
    } else {
      var w :| 0 <= w < |s.workers| && s.workers[w].Running?;
      step := Resolve(w);
    }
  }

  /** When no call failed and the pool is at rest, there is a result for every index, and it is the
      call's, exactly if the limit was a number or there was nothing to do. */
  lemma RestMeansDone<T, R>(pool: Pool<T, R>, steps: seq<Step>)
    requires Run(pool, Initial(), steps).Some? && IsAtRest(pool, Run(pool, Initial(), steps).value)
    requires !HasFailed(Run(pool, Initial(), steps).value.workers)
    ensures var s := Run(pool, Initial(), steps).value;
      (forall i: nat :: i < |pool.items| ==> i in s.results && s.results[i] == pool.fn(pool.items[i], i))
      <==> !pool.limit.NotANumber? || pool.items == []
    ensures forall i <- Run(pool, Initial(), steps).value.results :: i < |pool.items|
  {
    RunKeepsValid(pool, Initial(), steps);
    WorkersWithinLimit(pool);
    var s := Run(pool, Initial(), steps).value;
    hide Run, Pool.WorkerCount, CallsInOrder, CountRunning;
    if |s.workers| > 0 {
      assert s.workers[0] == Finished by { RestIsFinished(s.workers, 0); }
      assert Finished in s.workers;
    } else if pool.items != [] {
      assert 0 !in s.results by { NoWorkerNoResult(pool, s); }
    }
  }

  lemma RestIsFinished(workers: seq<Worker>, w: nat)
    requires w < |workers| && !workers[w].Running? && !HasFailed(workers)
    ensures workers[w] == Finished
  {
  }

  lemma NoWorkerNoResult<T, R>(pool: Pool<T, R>, s: State<R>)
    requires Valid(pool, s) && |s.workers| == 0
    ensures 0 !in s.results
  {
  }

  /** Without a number for a limit nothing is called: the run without steps is at rest, no call has
      failed, and no item has a result. */
  lemma NoNumberNoResult<T, R>(items: seq<T>, fn: (T, nat) -> R)
    requires items != []
    ensures var pool := Pool(items, NotANumber, fn);
      && Run(pool, Initial(), []) == Some(Initial()) && IsAtRest(pool, Initial()) && !HasFailed(Initial<R>().workers)
      && forall i: nat :: i !in Initial<R>().results
  {
  }
}
