/**
  The finalization gate: a counter beside a flag, so that no thread is inside
  Python once the exit handler has drained it.  Any number of `attach` calls,
  nested ones included, in any interleaving with the exit handler.
*/
module FinalGate {

  type Call = nat

  datatype Pc =
    | Counted      // incremented, flag not read yet
    | Inside       // attached
    | Leaving      // detached, or backing out: about to decrement

  datatype Closer = Open | Draining | Drained | TimedOut

  datatype State = State(finalizing: bool, inPython: int, calls: map<Call, Pc>, closer: Closer)

  const INITIAL := State(false, 0, map[], Open)

  datatype Step =
    | Increment(c: Call) | CheckFlag(c: Call) | Detach(c: Call) | Decrement(c: Call)
    | RaiseFlag | ReadCounter | Deadline

  predicate Enabled(s: State, step: Step) {
    match step
    case Increment(c) => c !in s.calls
    case CheckFlag(c) => c in s.calls && s.calls[c].Counted?
    case Detach(c) => c in s.calls && s.calls[c].Inside?
    case Decrement(c) => c in s.calls && s.calls[c].Leaving?
    case RaiseFlag => s.closer.Open?
    case ReadCounter => s.closer.Draining?
    case Deadline => s.closer.Draining?
  }

  function Next(s: State, step: Step): State
    requires Enabled(s, step)
  {
    match step
    case Increment(c) => s.(inPython := s.inPython + 1, calls := s.calls[c := Counted])
    case CheckFlag(c) => s.(calls := s.calls[c := if s.finalizing then Leaving else Inside])
    case Detach(c) => s.(calls := s.calls[c := Leaving])
    case Decrement(c) => s.(inPython := s.inPython - 1, calls := s.calls - {c})
    case RaiseFlag => s.(finalizing := true, closer := Draining)
    case ReadCounter => if s.inPython == 0 then s.(closer := Drained) else s
    case Deadline => s.(closer := TimedOut)
  }

  predicate NobodyInside(s: State) { forall c <- s.calls :: !s.calls[c].Inside? }

  predicate Inv(s: State) {
    && s.inPython == |s.calls.Keys|
    && (s.finalizing <==> !s.closer.Open?)
    && (s.closer.Drained? ==> NobodyInside(s))
  }

  lemma StepKeeps(s: State, step: Step)
    requires Inv(s) && Enabled(s, step)
    ensures Inv(Next(s, step))
    ensures s.closer.Drained? ==> Next(s, step).closer.Drained?
  {
    var s' := Next(s, step);
    match step
    case Increment(c) => assert s'.calls.Keys == s.calls.Keys + {c};
    case Decrement(c) => assert s'.calls.Keys == s.calls.Keys - {c};
    case CheckFlag(c) => assert s'.calls.Keys == s.calls.Keys;
    case Detach(c) => assert s'.calls.Keys == s.calls.Keys;
    case ReadCounter => if s.inPython == 0 { assert s.calls.Keys == {}; }
    case _ =>
  }

  predicate IsRun(s: State, steps: seq<Step>)
    decreases |steps|
  {
    steps == [] || (Enabled(s, steps[0]) && IsRun(Next(s, steps[0]), steps[1..]))
  }

  function After(s: State, steps: seq<Step>): State
    requires IsRun(s, steps)
    decreases |steps|
  {
    if steps == [] then s else After(Next(s, steps[0]), steps[1..])
  }

  lemma {:induction false} RunKeeps(s: State, steps: seq<Step>)
    requires Inv(s) && IsRun(s, steps)
    ensures Inv(After(s, steps))
    ensures s.closer.Drained? ==> After(s, steps).closer.Drained?
    decreases |steps|
  {
    if steps != [] {
      StepKeeps(s, steps[0]);
      RunKeeps(Next(s, steps[0]), steps[1..]);
    }
  }

  /** The counter is the number of calls between increment and decrement. */
  lemma CounterIsExact(steps: seq<Step>)
    requires IsRun(INITIAL, steps)
    ensures After(INITIAL, steps).inPython == |After(INITIAL, steps).calls.Keys|
  {
    RunKeeps(INITIAL, steps);
  }

  /** Once the exit handler has raised the flag and read zero, no call is inside
      Python and none ever will be, whatever still arrives. */
  lemma DrainedMeansNeverAgain(before: seq<Step>, later: seq<Step>)
    requires IsRun(INITIAL, before) && After(INITIAL, before).closer.Drained?
    requires IsRun(After(INITIAL, before), later)
    ensures NobodyInside(After(INITIAL, before)) && NobodyInside(After(After(INITIAL, before), later))
  {
    RunKeeps(INITIAL, before);
    RunKeeps(After(INITIAL, before), later);
  }

  /** The exit handler leaves by draining exactly when no call is between its two updates. */
  lemma DrainsIff(s: State)
    requires Inv(s) && Enabled(s, ReadCounter)
    ensures Next(s, ReadCounter).closer.Drained? <==> s.calls == map[]
  {
    if |s.calls.Keys| == 0 { assert s.calls == map[]; }
  }

  /** A call that arrives after the flag was raised backs out. */
  lemma LateCallsBackOut(s: State, c: Call)
    requires Inv(s) && !s.closer.Open? && Enabled(s, Increment(c))
    ensures var s1 := Next(s, Increment(c));
            && Enabled(s1, CheckFlag(c))
            && var s2 := Next(s1, CheckFlag(c));
               && s2.calls[c].Leaving? && Enabled(s2, Decrement(c))
               && Next(s2, Decrement(c)) == s
  {
    assert s.calls[c := Counted][c := Leaving] - {c} == s.calls;
  }

  /** Only the drain exit promises this: the deadline exit can leave a call inside. */
  lemma DeadlineExitPromisesNothing()
    ensures exists steps :: IsRun(INITIAL, steps) && After(INITIAL, steps).closer.TimedOut?
                            && !NobodyInside(After(INITIAL, steps))
  {
    var steps := [Increment(0), CheckFlag(0), RaiseFlag, Deadline];
    var s1 := Next(INITIAL, Increment(0));
    var s2 := Next(s1, CheckFlag(0));
    var s3 := Next(s2, RaiseFlag);
    assert steps[1..] == [CheckFlag(0), RaiseFlag, Deadline];
    assert steps[1..][1..] == [RaiseFlag, Deadline];
    assert IsRun(s3, [Deadline]) && IsRun(s2, [RaiseFlag, Deadline]);
    assert IsRun(s1, [CheckFlag(0), RaiseFlag, Deadline]);
    assert 0 in After(INITIAL, steps).calls && After(INITIAL, steps).calls[0].Inside?;
  }
}
