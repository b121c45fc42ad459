/**
  `_Gate`: serialises a hook's calls under a backpressure policy.  The class is
  the source's two critical sections; what they decide to start is started
  after the lock is released, which is a step of its own in the runs below.
*/
module Backpressure {
  import opened Common

  datatype Policy = Every | Latest | Serial | CancelPrevious

  datatype Gate<T> = Gate(running: bool, queue: seq<T>)

  /** What a critical section leaves behind and what its caller goes on to start. */
  datatype Decision<T> = Decision(gate: Gate<T>, start: Option<T>)

  function Submitted<T>(g: Gate<T>, policy: Policy, call: T): Decision<T> {
    if policy.Every? then Decision(g, Some(call))
    else if g.running && policy.Latest? then Decision(g.(queue := [call]), None)
    else if g.running && policy.Serial? then Decision(g.(queue := g.queue + [call]), None)
    else Decision(g.(running := true), Some(call))
  }

  function Finished<T>(g: Gate<T>): Decision<T> {
    if g.queue == [] then Decision(g.(running := false), None)
    else Decision(g.(queue := g.queue[1..]), Some(g.queue[0]))
  }

  function AsSeq<T>(start: Option<T>): seq<T> { if start.Some? then [start.value] else [] }

  class GateObject<T> {
    const policy: Policy
    var running: bool
    var queue: seq<T>

    function View(): Gate<T>
      reads this
    {
      Gate(running, queue)
    }

    constructor (policy: Policy)
      ensures View() == Gate(false, []) && this.policy == policy && Valid()
    {
      this.policy := policy;
      running, queue := false, [];
    }

    /** Nothing waits behind an idle gate. */
    ghost predicate Valid()
      reads this
    {
      queue != [] ==> running
    }

    /** Under SERIAL every call is started or queued last, under LATEST only the
        newest waits; under both, nothing starts while a call runs. */
    method Submit(call: T) returns (start: Option<T>)
      requires Valid()
      modifies this
      ensures Decision(View(), start) == Submitted(old(View()), policy, call) && Valid()
      ensures policy.Serial? ==> AsSeq(start) + queue == old(queue) + [call]
      ensures policy.Latest? ==> AsSeq(start) + queue == [call]
      ensures policy.Serial? || policy.Latest? ==> running && (start.Some? <==> !old(running))
    {
      if policy == Every { return Some(call); }
      if running && policy == Latest {
        queue := [call];
        return None;
      }
      if running && policy == Serial {
        queue := queue + [call];
        return None;
      }
      running := true;
      return Some(call);
    }

    /** The call that waited longest takes over, or nobody does and the gate is idle. */
    method Finish() returns (start: Option<T>)
      requires Valid()
      modifies this
      ensures Decision(View(), start) == Finished(old(View())) && Valid()
      ensures AsSeq(start) + queue == old(queue) && (running <==> start.Some?)
    {
      if queue == [] {
        running := false;
        return None;
      }
      start := Some(queue[0]);
      queue := queue[1..];
    }
  }

  // ── Any number of submitters and runners, in any interleaving ───────────

  /** `submitted` lists the calls in the order `submit` took the lock, `started`
      those handed to the runner, `starting` those decided and not yet handed over. */
  datatype State<T> = State(
    policy: Policy, gate: Gate<T>, starting: seq<T>, active: nat, submitted: seq<T>, started: seq<T>)

  datatype Step<T> = Submit(call: T) | Start | End

  function Initial<T>(policy: Policy): State<T> { State(policy, Gate(false, []), [], 0, [], []) }

  predicate Enabled<T>(s: State<T>, step: Step<T>) {
    match step
    case Submit(_) => true
    case Start => s.starting != []
    case End => s.active > 0
  }

  function Decided<T>(s: State<T>, d: Decision<T>): State<T> {
    s.(gate := d.gate, starting := if d.start.Some? then s.starting + [d.start.value] else s.starting)
  }

  /** A call that ends calls `finished()` once. */
  function Next<T>(s: State<T>, step: Step<T>): State<T>
    requires Enabled(s, step)
  {
    match step
    case Submit(call) => Decided(s.(submitted := s.submitted + [call]), Submitted(s.gate, s.policy, call))
    case Start => s.(starting := s.starting[1..], started := s.started + [s.starting[0]], active := s.active + 1)
    case End => Decided(s.(active := s.active - 1), Finished(s.gate))
  }

  function After<T>(s: State<T>, steps: seq<Step<T>>): State<T>
    requires IsRun(s, steps)
    decreases |steps|
  {
    if steps == [] then s else After(Next(s, steps[0]), steps[1..])
  }

  predicate IsRun<T>(s: State<T>, steps: seq<Step<T>>)
    decreases |steps|
  {
    steps == [] || (Enabled(s, steps[0]) && IsRun(Next(s, steps[0]), steps[1..]))
  }

  /** Every call the gate still knows about, oldest first. */
  function Accepted<T>(s: State<T>): seq<T> { s.started + s.starting + s.gate.queue }

  predicate OneAtATime<T>(s: State<T>) {
    && (s.gate.running ==> |s.starting| + s.active == 1)
    && (!s.gate.running ==> |s.starting| + s.active == 0 && s.gate.queue == [])
  }

  /** `xs` is `ys` with some elements left out. */
  predicate Subsequence<T(==)>(xs: seq<T>, ys: seq<T>)
    decreases |ys|
  {
    xs == [] ||
    (ys != [] && (Subsequence(xs, ys[..|ys| - 1])
                  || (xs[|xs| - 1] == ys[|ys| - 1] && Subsequence(xs[..|xs| - 1], ys[..|ys| - 1]))))
  }

  predicate SerialInv<T(==)>(s: State<T>) { OneAtATime(s) && Accepted(s) == s.submitted }

  predicate LatestInv<T(==)>(s: State<T>) {
    && OneAtATime(s) && |s.gate.queue| <= 1
    && Subsequence(Accepted(s), s.submitted)
    && (s.submitted == [] <==> Accepted(s) == [])
    && (s.submitted != [] ==> Accepted(s)[|Accepted(s)| - 1] == s.submitted[|s.submitted| - 1])
  }

  lemma SubsequenceExtend<T>(xs: seq<T>, ys: seq<T>, y: T)
    requires Subsequence(xs, ys)
    ensures Subsequence(xs, ys + [y]) && Subsequence(xs + [y], ys + [y])
  {
    assert (ys + [y])[..|ys|] == ys && (xs + [y])[..|xs|] == xs;
  }

  lemma {:induction false} SubsequencePrefix<T>(xs: seq<T>, x: T, ys: seq<T>)
    requires Subsequence(xs + [x], ys)
    ensures Subsequence(xs, ys)
    decreases |ys|
  {
    var front := ys[..|ys| - 1];
    assert (xs + [x])[..|xs + [x]| - 1] == xs;
    if Subsequence(xs + [x], front) { SubsequencePrefix(xs, x, front); }
  }

  /** Handing a decided call over, or promoting the queue's head, keeps the order. */
  lemma AcceptedMoves<T>(s: State<T>, step: Step<T>)
    requires OneAtATime(s) && Enabled(s, step) && !step.Submit?
    ensures Accepted(Next(s, step)) == Accepted(s)
  {
  }

  lemma SerialStep<T>(s: State<T>, step: Step<T>)
    requires s.policy.Serial? && SerialInv(s) && Enabled(s, step)
    ensures SerialInv(Next(s, step))
  {
    if step.Submit? {
      assert Accepted(Next(s, step)) == Accepted(s) + [step.call];
    } else {
      AcceptedMoves(s, step);
    }
  }

  lemma LatestStep<T>(s: State<T>, step: Step<T>)
    requires s.policy.Latest? && LatestInv(s) && Enabled(s, step)
    ensures LatestInv(Next(s, step))
  {
    if step.Submit? {
      AheadOfQueue(s);
      AcceptedLast(s, step.call);
      SubsequenceExtend(s.started + s.starting, s.submitted, step.call);
    } else {
      AcceptedMoves(s, step);
    }
  }

  /** What is started or starting was submitted in that order. */
  lemma AheadOfQueue<T>(s: State<T>)
    requires LatestInv(s)
    ensures Subsequence(s.started + s.starting, s.submitted)
  {
    var ahead := s.started + s.starting;
    if s.gate.queue != [] {
      assert Accepted(s) == ahead + [s.gate.queue[0]];
      SubsequencePrefix(ahead, s.gate.queue[0], s.submitted);
    } else {
      assert Accepted(s) == ahead;
    }
  }

  /** The newest submission takes the place of the one that waited. */
  lemma AcceptedLast<T>(s: State<T>, call: T)
    requires s.policy.Latest? && OneAtATime(s)
    ensures var s' := Next(s, Submit(call));
            OneAtATime(s') && |s'.gate.queue| <= 1 && Accepted(s') == s.started + s.starting + [call]
  {
  }

  lemma {:induction false} SerialRun<T>(s: State<T>, steps: seq<Step<T>>)
    requires s.policy.Serial? && SerialInv(s) && IsRun(s, steps)
    ensures SerialInv(After(s, steps))
    decreases |steps|
  {
    if steps != [] {
      SerialStep(s, steps[0]);
      SerialRun(Next(s, steps[0]), steps[1..]);
    }
  }

  lemma {:induction false} LatestRun<T>(s: State<T>, steps: seq<Step<T>>)
    requires s.policy.Latest? && LatestInv(s) && IsRun(s, steps)
    ensures LatestInv(After(s, steps))
    decreases |steps|
  {
    if steps != [] {
      LatestStep(s, steps[0]);
      LatestRun(Next(s, steps[0]), steps[1..]);
    }
  }

  /** SERIAL: at most one call at a time, and the calls started are the first
      submissions in lock order; when the gate is idle they are all of them. */
  lemma SerialDropsNothing<T>(steps: seq<Step<T>>)
    requires IsRun(Initial(Serial), steps)
    ensures var s := After(Initial(Serial), steps);
            && s.active <= 1 && (s.gate.queue != [] ==> s.gate.running)
            && s.started + s.starting + s.gate.queue == s.submitted
            && (!s.gate.running ==> s.started == s.submitted)
  {
    assert Accepted(Initial<T>(Serial)) == [];
    SerialRun(Initial(Serial), steps);
    var s := After(Initial(Serial), steps);
    assert !s.gate.running ==> s.started + s.starting + s.gate.queue == s.started;
  }

  /** LATEST: at most one call at a time and one waiting; the calls started are
      submissions in order, and when the gate is idle the last of them is the
      last submission: what was dropped had been superseded. */
  lemma LatestEndsOnTheNewest<T>(steps: seq<Step<T>>)
    requires IsRun(Initial(Latest), steps)
    ensures var s := After(Initial(Latest), steps);
            && s.active <= 1 && |s.gate.queue| <= 1 && (s.gate.queue != [] ==> s.gate.running)
            && Subsequence(s.started + s.starting + s.gate.queue, s.submitted)
            && (!s.gate.running && s.submitted != [] ==>
                  s.started != [] && s.started[|s.started| - 1] == s.submitted[|s.submitted| - 1])
  {
    assert Accepted(Initial<T>(Latest)) == [];
    LatestRun(Initial(Latest), steps);
    var s := After(Initial(Latest), steps);
    assert !s.gate.running ==> s.started + s.starting + s.gate.queue == s.started;
  }

  predicate StartsAtOnce(policy: Policy) { policy.Every? || policy.CancelPrevious? }

  lemma {:induction false} AtOnceRun<T>(s: State<T>, steps: seq<Step<T>>)
    requires StartsAtOnce(s.policy) && s.gate.queue == [] && s.started + s.starting == s.submitted && IsRun(s, steps)
    ensures var s' := After(s, steps); s'.gate.queue == [] && s'.started + s'.starting == s'.submitted
    decreases |steps|
  {
    if steps != [] {
      var s' := Next(s, steps[0]);
      assert s'.started + s'.starting == s'.submitted;
      AtOnceRun(s', steps[1..]);
    }
  }

  /** Under the other two policies no call waits and none is dropped: each is
      started, in the order of submission. */
  lemma EveryCallStarts<T>(policy: Policy, steps: seq<Step<T>>)
    requires StartsAtOnce(policy) && IsRun(Initial(policy), steps)
    ensures var s := After(Initial(policy), steps); s.gate.queue == [] && s.started + s.starting == s.submitted
  {
    AtOnceRun(Initial(policy), steps);
  }

  /** The one `finished()` per call is needed: while a call has not ended,
      nothing else is ever started. */
  lemma {:induction false} UnfinishedCallBlocks<T>(s: State<T>, steps: seq<Step<T>>)
    requires s.policy.Serial? || s.policy.Latest?
    requires OneAtATime(s) && s.active == 1 && IsRun(s, steps) && forall step <- steps :: !step.End?
    ensures After(s, steps).started == s.started && After(s, steps).active == 1
    decreases |steps|
  {
    if steps != [] {
      assert steps[0] in steps && forall step <- steps[1..] :: step in steps;
      UnfinishedCallBlocks(Next(s, steps[0]), steps[1..]);
    }
  }
}
