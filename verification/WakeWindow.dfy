/**
  What the publish hook leaves open: the generation moves before the hook writes
  the attribute that direct reads and `current()` use.  While installs do not
  overlap this is a window, and exactly that; when they do, their hooks can run
  in the other order, and the older model stays.  Three short runs show it.
*/
module WakeWindow {
  import opened Common
  import opened Wake
  import opened WakeSafety
  import opened WakeTheorems

  /** Installs one at a time: the attribute lags by the one whose hook is pending. */
  predicate Serial(s: State) {
    && s.wrote <= {s.writes} && s.bumped <= {s.writes} && (s.wrote == {} || s.bumped == {})
    && s.generation == (if s.wrote == {} then s.writes else s.writes - 1)
    && var behind := if s.bumped == {} then s.generation else s.generation - 1;
       s.published == if behind <= 0 then None else Some(behind)
  }

  lemma SerialStep(s: State, step: Step)
    requires Inv(s) && Serial(s) && Enabled(s, step)
    requires step.WriteCache? ==> s.wrote == {} && s.bumped == {}
    ensures Serial(Next(s, step))
  {
    if IsStreamStep(step) { assert Next(s, step).published == s.published; }
  }

  /** A direct read under generation `now` gets the model of that install, or a
      newer one, if and only if no publish hook is pending or the generation has
      moved on since. */
  lemma DirectReadIsFreshIff(s: State, c: Stream)
    requires Inv(s) && Serial(s) && Enabled(s, ReadDirect(c)) && s.clients[c].pc.now > s.clients[c].seen
    ensures var now, model := s.clients[c].pc.now, Next(s, ReadDirect(c)).clients[c].pc.wake.model;
            (model.Some? && model.value >= now) <==> s.bumped == {} || now < s.generation
  {
    assert ClientOk(s, c, s.clients[c]);
  }

  // ── What is served at rest ──────────────────────────────────────────────

  /** The install whose publish hook ran last. */
  function LastHook(steps: seq<Step>): Option<nat> {
    if steps == [] then None
    else
      var rest := LastHook(steps[1..]);
      if rest.Some? then rest else if steps[0].Hook? then Some(steps[0].i) else None
  }

  lemma {:induction false} PublishedByLastHook(s: State, steps: seq<Step>)
    requires IsRun(s, steps)
    ensures After(s, steps).published == if LastHook(steps).Some? then LastHook(steps) else s.published
    decreases |steps|
  {
    if steps != [] {
      PublishedByLastHook(Next(s, steps[0]), steps[1..]);
      if IsStreamStep(steps[0]) { assert Next(s, steps[0]).published == s.published; }
    }
  }

  /** Once installs have happened, the attribute holds the newest model if and
      only if the last hook to run was the newest install's. */
  lemma ServesNewestIff(kind: Kind, steps: seq<Step>)
    requires IsRun(Initial(kind), steps) && After(Initial(kind), steps).writes > 0
    ensures var s := After(Initial(kind), steps);
            s.published == Some(s.writes) <==> LastHook(steps) == Some(s.writes)
  {
    PublishedByLastHook(Initial(kind), steps);
  }

  /** No install begins before the hook of the one before has run. */
  predicate OneAtATime(s: State, steps: seq<Step>)
    requires IsRun(s, steps)
    decreases |steps|
  {
    steps == [] ||
    ((steps[0].WriteCache? ==> s.wrote == {} && s.bumped == {}) && OneAtATime(Next(s, steps[0]), steps[1..]))
  }

  lemma {:induction false} SerialRun(s: State, steps: seq<Step>)
    requires Inv(s) && Serial(s) && IsRun(s, steps) && OneAtATime(s, steps)
    ensures Inv(After(s, steps)) && Serial(After(s, steps))
    decreases |steps|
  {
    if steps != [] {
      SerialStep(s, steps[0]);
      StepKeeps(s, steps[0]);
      SerialRun(Next(s, steps[0]), steps[1..]);
    }
  }

  /** Installs one at a time: at rest the newest model is the one served. */
  lemma SerialServesNewest(kind: Kind, steps: seq<Step>)
    requires IsRun(Initial(kind), steps) && OneAtATime(Initial(kind), steps)
    requires Quiescent(After(Initial(kind), steps)) && After(Initial(kind), steps).writes > 0
    ensures After(Initial(kind), steps).published == Some(After(Initial(kind), steps).writes)
    ensures LastHook(steps) == Some(After(Initial(kind), steps).writes)
  {
    InitialHolds(kind);
    SerialRun(Initial(kind), steps);
    ServesNewestIff(kind, steps);
  }

  // ── Three short runs ─────────────────────────────────────────────────────

  ghost predicate Reachable(s: State) {
    exists steps :: IsRun(Initial(Events), steps) && After(Initial(Events), steps) == s
  }

  lemma {:induction false} RunAppend(s: State, steps: seq<Step>, step: Step)
    requires IsRun(s, steps) && Enabled(After(s, steps), step)
    ensures IsRun(s, steps + [step]) && After(s, steps + [step]) == Next(After(s, steps), step)
    decreases |steps|
  {
    if steps == [] {
      assert IsRun(Next(s, step), []);
    } else {
      RunAppend(Next(s, steps[0]), steps[1..], step);
      assert (steps + [step])[1..] == steps[1..] + [step];
    }
  }

  lemma Take(s: State, step: Step) returns (s': State)
    requires Reachable(s) && Enabled(s, step)
    ensures Reachable(s') && s' == Next(s, step)
  {
    var steps :| IsRun(Initial(Events), steps) && After(Initial(Events), steps) == s;
    RunAppend(Initial(Events), steps, step);
    s' := Next(s, step);
  }

  /** One stream, opened before anything was installed, holding a future. */
  lemma OpenStream() returns (s: State)
    ensures Reachable(s)
    ensures s == State(Events, 0, {}, {}, None, 0, 0, None,
                       Notifier([0], Some(Testing(0, 0))), 1, map[], map[0 := Client(Registered(0), 0, 0, [])])
  {
    s := ReadyStream();
    s := Take(s, TakeLock(0));
    s := Take(s, Register(0));
  }

  lemma ReadyStream() returns (s: State)
    ensures Reachable(s) && s == Initial(Events).(clients := map[0 := Client(Ready, 0, 0, [])])
  {
    assert IsRun(Initial(Events), []);
    s := Take(Initial(Events), Open(0));
    s := Take(s, Opened(0));
  }

  /** An install up to and including its generation, the hook still pending. */
  lemma InstallUpToHook(s: State) returns (s': State)
    requires Reachable(s) && s.wrote == {} && s.bumped == {}
    ensures Reachable(s')
    ensures s' == s.(writes := s.writes + 1, generation := s.generation + 1, bumped := {s.writes + 1},
                     notifier := NotifyAll(s.notifier))
  {
    s' := Take(s, WriteCache);
    s' := Take(s', Bump(s.writes + 1));
    assert s'.wrote == {};
  }

  /** One step of stream 0's own program, with the stream's state spelled out. */
  lemma TakeStream(s: State, base: State, step: Step, client: Client) returns (s': State)
    requires 0 in s.clients && s == base.(clients := base.clients[0 := s.clients[0]])
    requires Reachable(s) && Enabled(s, step) && IsStreamStep(step) && !step.TakeLock? && step.c == 0
    requires Moved(s, step) == client
    ensures Reachable(s') && s' == base.(clients := base.clients[0 := client])
  {
    s' := Take(s, step);
    assert s'.clients == base.clients[0 := client];
  }

  /** The stream re-reads the generation, finds it moved and reads directly. */
  lemma LookDirectly(s: State) returns (s': State)
    requires Reachable(s) && s.kind.Events? && 0 in s.clients && s.clients[0].pc.Registered?
    requires s.generation > s.clients[0].seen && s.refusals == s.clients[0].seenR
    ensures Reachable(s')
    ensures s' == s.(clients := s.clients[0 := AfterInstall(s.clients[0], WakeUp(s.generation, s.refusals,
        s.published))])
  {
    var client := s.clients[0];
    var w := WakeUp(s.generation, s.refusals, s.published);
    assert s.clients == s.clients[0 := client];
    s' := TakeStream(s, s, Recheck(0), client.(pc := Rechecked(client.pc.f, s.generation)));
    s' := TakeStream(s', s, Decide(0), client.(pc := Direct(s.generation, s.refusals)));
    s' := TakeStream(s', s, ReadDirect(0), client.(pc := Handling(w, false)));
    s' := TakeStream(s', s, HandleRefusal(0), client.(pc := Installing(w, false)));
    s' := TakeStream(s', s, HandleInstall(0), AfterInstall(client, w));
  }

  /** A stream opened before the first install can end although nothing was released. */
  lemma StreamCanEndUnreleased() returns (s: State)
    ensures Reachable(s) && At(s, 0, Ended) && s.generation == 1 && s.published == Some(1) && s.bumped == {}
  {
    s := OpenStream();
    s := InstallUpToHook(s);
    s := LookDirectly(s);
    s := Take(s, Hook(1));
  }

  /** A stream can report install 2 with the model of install 1. */
  lemma DirectReadCanBeStale() returns (s: State)
    ensures Reachable(s) && s.generation == 2 && s.published == Some(2) && s.bumped == {}
    ensures 0 in s.clients && s.clients[0] == Client(Ready, 2, 0, [Reloaded(2, 1)])
  {
    s := OpenStream();
    s := InstallUpToHook(s);
    s := Take(s, Hook(1));
    assert s.bumped == {};
    s := InstallUpToHook(s);
    s := LookDirectly(s);
    s := Take(s, Hook(2));
  }

  /** Two installs that overlap can run their hooks the other way round: at rest
      the older model is served, and nothing left to happen corrects it. */
  lemma OldModelAtRest() returns (s: State)
    ensures Reachable(s) && Quiescent(s) && s.generation == s.writes == 2 && s.published == Some(1)
  {
    assert IsRun(Initial(Events), []);
    s := InstallUpToHook(Initial(Events));
    s := SecondInstall(s);
    s := Take(s, Hook(1));
    assert s.wrote == {} && s.bumped == {};
  }

  /** A second install begins and ends while the hook of the first is pending. */
  lemma SecondInstall(s: State) returns (s': State)
    requires Reachable(s) && s.writes == s.generation == 1 && s.wrote == {} && s.bumped == {1}
    ensures Reachable(s')
    ensures s' == s.(writes := 2, generation := 2, bumped := {1}, published := Some(2),
                     notifier := NotifyAll(s.notifier))
  {
    s' := Take(s, WriteCache);
    s' := Take(s', Bump(2));
    s' := Take(s', Hook(2));
    assert s'.wrote == {} && s'.bumped == {1};
  }
}
