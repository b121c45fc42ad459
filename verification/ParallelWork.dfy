/**
  `ConfigGroup._each` and `_in_parallel`: a list of jobs run one after another,
  or by a bounded number of worker threads under any schedule.  A job is its
  position in the list; `fails[j]` says whether running job `j` raises.
*/
module ParallelWork {
  import opened Common

  type Job = nat
  type Worker = nat

  // ── One after another ───────────────────────────────────────────────────

  /** The loop of `_each` without `concurrency`.  The first `ran` jobs ran;
      `raised` is the job whose exception leaves the call. */
  method Each(fails: seq<bool>, stopOnFailure: bool) returns (ran: nat, raised: Option<Job>)
    ensures ran <= |fails|
    ensures raised.None? <==> forall j :: 0 <= j < ran ==> !fails[j]
    ensures raised.Some? ==> raised.value < ran && fails[raised.value] && forall j :: 0 <= j < raised.value ==>
        !fails[j]
    ensures !stopOnFailure || raised.None? ==> ran == |fails|
    ensures stopOnFailure && raised.Some? ==> ran == raised.value + 1
  {
    var failures: seq<Job> := [];
    for k := 0 to |fails|
      invariant failures == [] ==> forall j :: 0 <= j < k ==> !fails[j]
      invariant failures != [] ==> failures[0] < k && fails[failures[0]] && forall j :: 0 <= j < failures[0] ==>
          !fails[j]
      invariant stopOnFailure ==> failures == []
    {
      if fails[k] {
        if stopOnFailure { return k + 1, Some(k); }
        failures := failures + [k];
      }
    }
    return |fails|, if failures != [] then Some(failures[0]) else None;
  }

  // ── On several threads ──────────────────────────────────────────────────

  datatype Pc = Fetching | Running(job: Job) | Stopped

  /** `pending` and `errors` are the shared lists; `started` is history. */
  datatype State = State(
    fails: seq<bool>, stopOnFailure: bool, pending: seq<Job>, errors: seq<Job>,
    workers: seq<Pc>, started: seq<Job>)

  function Min(a: nat, b: nat): nat { if a < b then a else b }

  function Upto(n: nat): seq<Job> { seq(n, i => i) }

  function Initial(fails: seq<bool>, stopOnFailure: bool, concurrency: nat): State {
    State(fails, stopOnFailure, Upto(|fails|), [], seq(Min(concurrency, |fails|), _ => Fetching), [])
  }

  datatype Step = Fetch(w: Worker) | Finish(w: Worker)

  predicate Enabled(s: State, step: Step) {
    step.w < |s.workers| && if step.Fetch? then s.workers[step.w].Fetching? else s.workers[step.w].Running?
  }

  predicate MustStop(s: State) { s.pending == [] || (s.errors != [] && s.stopOnFailure) }

  predicate Fails(s: State, job: Job) { job < |s.fails| && s.fails[job] }

  /** `Fetch` is the region under the lock; `Finish` is the job ending, its error
      appended under the lock. */
  function Next(s: State, step: Step): State
    requires Enabled(s, step)
  {
    match step
    case Fetch(w) =>
      if MustStop(s) then s.(workers := s.workers[w := Stopped])
      else s.(pending := s.pending[1..], started := s.started + [s.pending[0]],
              workers := s.workers[w := Running(s.pending[0])])
    case Finish(w) =>
      var job := s.workers[w].job;
      if Fails(s, job)
      then s.(errors := s.errors + [job], workers := s.workers[w := if s.stopOnFailure then Stopped else Fetching])
      else s.(workers := s.workers[w := Fetching])
  }

  predicate Idle(s: State, job: Job) { Running(job) !in s.workers }

  predicate Inv(s: State) {
    && s.started + s.pending == Upto(|s.fails|)
    && (forall w :: 0 <= w < |s.workers| && s.workers[w].Running? ==> s.workers[w].job in s.started)
    && (forall w, v :: 0 <= w < v < |s.workers| && s.workers[w].Running? ==> s.workers[w] != s.workers[v])
    && (forall job <- s.errors :: job in s.started && Fails(s, job) && Idle(s, job))
    && (forall job <- s.started :: Fails(s, job) && Idle(s, job) ==> job in s.errors)
    && (Stopped in s.workers ==> MustStop(s))
  }

  /** A step of worker `w` decides only about the job it picks up or puts down. */
  lemma IdleFrame(s: State, step: Step, job: Job)
    requires Inv(s) && Enabled(s, step)
    requires Next(s, step).workers[step.w] != Running(job) && s.workers[step.w] != Running(job)
    ensures Idle(Next(s, step), job) <==> Idle(s, job)
  {
    var s' := Next(s, step);
    if !Idle(s, job) {
      var v :| 0 <= v < |s.workers| && s.workers[v] == Running(job);
      assert s'.workers[v] == Running(job);
    }
  }

  lemma FetchKeeps(s: State, w: Worker)
    requires Inv(s) && Enabled(s, Fetch(w)) && !MustStop(s)
    ensures Inv(Next(s, Fetch(w)))
  {
    var s' := Next(s, Fetch(w));
    var job := s.pending[0];
    assert (s.started + s.pending)[|s.started|] == job == |s.started|;
    assert forall i :: 0 <= i < |s.started| ==> s.started[i] == (s.started + s.pending)[i] == i;
    assert job !in s.started;
    assert s'.workers[w] == Running(job);
    forall j | j in s.started ensures Idle(s', j) <==> Idle(s, j) { IdleFrame(s, Fetch(w), j); }
  }

  lemma FinishKeeps(s: State, w: Worker)
    requires Inv(s) && Enabled(s, Finish(w))
    ensures Inv(Next(s, Finish(w)))
  {
    var s' := Next(s, Finish(w));
    var job := s.workers[w].job;
    assert s.workers[w] in s.workers;
    assert Idle(s', job);
    forall j | j in s.started && j != job ensures Idle(s', j) <==> Idle(s, j) { IdleFrame(s, Finish(w), j); }
  }

  lemma StepKeeps(s: State, step: Step)
    requires Inv(s) && Enabled(s, step)
    ensures Inv(Next(s, step))
  {
    match step
    case Finish(w) => FinishKeeps(s, w);
    case Fetch(w) =>
      if MustStop(s) {
        forall j | j in s.started ensures Idle(Next(s, step), j) <==> Idle(s, j) { IdleFrame(s, step, j); }
      } else {
        FetchKeeps(s, w);
      }
  }

  predicate IsRun(s: State, steps: seq<Step>)
    decreases |steps|
  {
    steps == [] || (Enabled(s, steps[0]) && IsRun(Next(s, steps[0]), steps[1..]))
  }

  function After(s: State, steps: seq<Step>): State
    requires IsRun(s, steps)
    decreases |steps|
  {
    if steps == [] then s else After(Next(s, steps[0]), steps[1..])
  }

  lemma {:induction false} RunKeeps(s: State, steps: seq<Step>)
    requires Inv(s) && IsRun(s, steps)
    ensures var s' := After(s, steps);
            Inv(s') && s'.fails == s.fails && s'.stopOnFailure == s.stopOnFailure && |s'.workers| == |s.workers|
    decreases |steps|
  {
    if steps != [] {
      StepKeeps(s, steps[0]);
      RunKeeps(Next(s, steps[0]), steps[1..]);
    }
  }

  /** Every thread joined. */
  predicate Joined(s: State) { forall pc <- s.workers :: pc.Stopped? }

  lemma StartedIsPrefix(s: State)
    requires Inv(s)
    ensures |s.started| <= |s.fails| && s.started == Upto(|s.started|)
  {
    assert |s.started + s.pending| == |s.fails|;
    assert forall i :: 0 <= i < |s.started| ==> s.started[i] == (s.started + s.pending)[i] == i;
  }

  lemma JoinedErrors(s: State, job: Job)
    requires Inv(s) && Joined(s)
    ensures job in s.errors <==> job < |s.started| && Fails(s, job)
  {
    StartedIsPrefix(s);
    assert Idle(s, job);
    if job < |s.started| { assert s.started[job] == job; }
  }

  /** Whatever the schedule: the jobs started are a prefix of the list, none of
      them twice; the call raises exactly when a job that ran raised, the error
      list holding those jobs and no others; without `stop_on_failure`, and
      whenever nothing raised, every job ran. */
  lemma JoinedOutcome(fails: seq<bool>, stopOnFailure: bool, concurrency: nat, steps: seq<Step>)
    requires concurrency >= 1 && IsRun(Initial(fails, stopOnFailure, concurrency), steps)
    requires Joined(After(Initial(fails, stopOnFailure, concurrency), steps))
    ensures var s := After(Initial(fails, stopOnFailure, concurrency), steps);
            && |s.started| <= |fails| && s.started == Upto(|s.started|)
            && (forall job: Job :: job in s.errors <==> job < |s.started| && fails[job])
            && (!stopOnFailure || s.errors == [] ==> |s.started| == |fails|)
  {
    var s0 := Initial(fails, stopOnFailure, concurrency);
    assert s0.started + s0.pending == Upto(|fails|);
    RunKeeps(s0, steps);
    var s := After(s0, steps);
    StartedIsPrefix(s);
    forall job: Job ensures job in s.errors <==> job < |s.started| && fails[job] { JoinedErrors(s, job); }
    if |s.workers| > 0 { assert s.workers[0] in s.workers && MustStop(s); } else { assert fails == []; }
    assert |s.started + s.pending| == |fails|;
  }

  /** Told to stop on a failure, nothing starts once one is recorded. */
  lemma {:induction false} NothingStartsAfterFailure(s: State, steps: seq<Step>)
    requires s.stopOnFailure && s.errors != [] && IsRun(s, steps)
    ensures After(s, steps).started == s.started
    decreases |steps|
  {
    if steps != [] { NothingStartsAfterFailure(Next(s, steps[0]), steps[1..]); }
  }

  /** How many jobs run at once. */
  function RunningNow(workers: seq<Pc>): nat {
    if workers == [] then 0 else RunningNow(workers[1..]) + if workers[0].Running? then 1 else 0
  }

  lemma {:induction false} RunningAtMost(workers: seq<Pc>)
    ensures RunningNow(workers) <= |workers|
    ensures RunningNow(workers) == |workers| <==> forall pc <- workers :: pc.Running?
  {
    if workers != [] {
      RunningAtMost(workers[1..]);
      assert workers == [workers[0]] + workers[1..];
    }
  }

  /** Never more jobs at once than `concurrency` allows, and as many workers as
      that and the list allow, each free to take a job while one is pending. */
  lemma BoundedConcurrency(fails: seq<bool>, stopOnFailure: bool, concurrency: nat, steps: seq<Step>)
    requires concurrency >= 1 && IsRun(Initial(fails, stopOnFailure, concurrency), steps)
    ensures var s := After(Initial(fails, stopOnFailure, concurrency), steps);
            && RunningNow(s.workers) <= concurrency
            && |s.workers| == (if concurrency < |fails| then concurrency else |fails|)
            && forall w :: 0 <= w < |s.workers| && s.workers[w].Fetching? && !MustStop(s) ==>
                 Enabled(s, Fetch(w)) && Next(s, Fetch(w)).workers[w] == Running(s.pending[0])
  {
    var s0 := Initial(fails, stopOnFailure, concurrency);
    assert s0.started + s0.pending == Upto(|fails|);
    RunKeeps(s0, steps);
    RunningAtMost(After(s0, steps).workers);
  }

  // ── Every schedule ends ─────────────────────────────────────────────────

  function Cost(workers: seq<Pc>): nat {
    if workers == [] then 0
    else Cost(workers[1..]) + if workers[0].Running? then 2 else if workers[0].Fetching? then 1 else 0
  }

  function Remaining(s: State): nat { 3 * |s.pending| + Cost(s.workers) }

  lemma {:induction false} CostUpdate(workers: seq<Pc>, w: nat, pc: Pc)
    requires w < |workers|
    ensures Cost(workers[w := pc]) == Cost(workers) - Cost([workers[w]]) + Cost([pc])
  {
    if w > 0 {
      assert workers[w := pc][1..] == workers[1..][w - 1 := pc];
      CostUpdate(workers[1..], w - 1, pc);
    } else {
      assert workers[w := pc][1..] == workers[1..];
    }
  }

  /** No schedule is longer than what was left to do when it began. */
  lemma {:induction false} SchedulesEnd(s: State, steps: seq<Step>)
    requires IsRun(s, steps)
    ensures |steps| + Remaining(After(s, steps)) <= Remaining(s)
    decreases |steps|
  {
    if steps != [] {
      var s' := Next(s, steps[0]);
      CostUpdate(s.workers, steps[0].w, s'.workers[steps[0].w]);
      SchedulesEnd(s', steps[1..]);
    }
  }
}
