/** What the wake protocol promises, for every reachable state and every run. */
module WakeTheorems {
  import opened Common
  import opened Wake
  import opened WakeSafety

  lemma InitialHolds(kind: Kind)
    ensures Inv(Initial(kind))
  {
  }

  lemma ReachableHolds(kind: Kind, steps: seq<Step>)
    requires IsRun(Initial(kind), steps)
    ensures Inv(After(Initial(kind), steps))
  {
    InitialHolds(kind);
    RunKeeps(Initial(kind), steps);
  }

  // ── No wake-up is lost ──────────────────────────────────────────────────

  /** Stream `c` awaits its future while a counter is past what it has seen. */
  predicate Behind(s: State, c: Stream) {
    && c in s.clients && s.clients[c].pc.Parked?
    && (s.generation > s.clients[c].seen || Watched(s) > s.clients[c].seenR)
  }

  predicate IsThreadStep(step: Step) {
    step.Test? || step.ReadModel? || step.Swap? || step.Deliver? || step.FinishTurn?
  }

  function IndexOf(xs: seq<Future>, f: Future): (k: nat)
    ensures k <= |xs| && (k < |xs| <==> f in xs) && (k < |xs| ==> xs[k] == f)
  {
    if xs == [] || xs[0] == f then 0 else 1 + IndexOf(xs[1..], f)
  }

  lemma {:induction false} IndexOfAppend(xs: seq<Future>, f: Future, g: Future)
    requires f in xs
    ensures IndexOf(xs + [g], f) == IndexOf(xs, f)
  {
    if xs[0] != f {
      assert (xs + [g])[1..] == xs[1..] + [g];
      IndexOfAppend(xs[1..], f, g);
    }
  }

  /** How many steps of the notifier thread are left before `f` is scheduled. */
  function Distance(s: State, f: Future): nat {
    if f in s.scheduled || s.notifier.thread.None? then 0
    else if InBatch(s, f) then 1 + IndexOf(s.notifier.thread.value.batch, f)
    else 1 + IndexOf(s.notifier.waiters, f) + StepsToSwap(s.notifier.thread.value)
  }

  function StepsToSwap(t: Thread): nat {
    match t
    case Testing(_, _) => 3
    case Asleep(_, _) => 4
    case Reading(_, _, _, _) => 2
    case Resolving(_, _, _) => 1
    case Delivering(_, _, _, batch) => 4 + |batch|
  }

  /** The one step the thread can take, if it is not asleep. */
  function ThreadStep(t: Thread): Step {
    match t
    case Testing(_, _) => Test
    case Asleep(_, _) => Spurious
    case Reading(_, _, _, _) => ReadModel
    case Resolving(_, _, _) => Swap
    case Delivering(_, _, _, batch) => if batch == [] then FinishTurn else Deliver
  }

  /** A stream that is behind is never waiting for a thread that sleeps or is
      gone: its future is scheduled on the loop, or the thread can take a step. */
  lemma NoLostWakeUp(s: State, c: Stream)
    requires Inv(s) && Behind(s, c)
    ensures Enabled(s, Settle(c))
            || (s.notifier.thread.Some?
                && IsThreadStep(ThreadStep(s.notifier.thread.value)) && Enabled(s, ThreadStep(s.notifier.thread.value)))
    ensures s.clients[c].pc.f in s.scheduled <==> Distance(s, s.clients[c].pc.f) == 0
  {
    assert ClientOk(s, c, s.clients[c]);
  }

  lemma ThreadStepCloser(s: State, step: Step, f: Future)
    requires LockOk(s) && Enabled(s, step) && IsThreadStep(step)
    requires f !in s.scheduled && (f in s.notifier.waiters || InBatch(s, f))
    requires step.Test? ==> s.generation > s.notifier.thread.value.seen || Watched(s) > s.notifier.thread.value.seenR
                            || f !in s.notifier.waiters
    ensures Distance(Next(s, step), f) < Distance(s, f)
  {
    if step.Deliver? {
      var batch := s.notifier.thread.value.batch;
      assert batch == [batch[0]] + batch[1..];
    }
  }

  lemma OtherStepNoFurther(s: State, step: Step, f: Future)
    requires LockOk(s) && Enabled(s, step) && !IsThreadStep(step)
    requires f in s.scheduled || f in s.notifier.waiters || InBatch(s, f)
    requires f !in s.scheduled && f in s.notifier.waiters ==> s.notifier.thread.Some?
    ensures Distance(Next(s, step), f) <= Distance(s, f)
  {
    if step.Register? || step.OtherWaiter? {
      if f in s.notifier.waiters { IndexOfAppend(s.notifier.waiters, f, s.nextFuture); }
    } else if IsStreamStep(step) || step.Open? || step.Leave? {
      assert Next(s, step).notifier == s.notifier;
    }
  }

  /** Nobody's step moves a parked future away from its wake-up, and every
      step of the thread brings it closer. */
  lemma DistanceFalls(s: State, step: Step, c: Stream)
    requires Inv(s) && Behind(s, c) && Enabled(s, step)
    ensures var f := s.clients[c].pc.f;
            && Distance(Next(s, step), f) <= Distance(s, f)
            && (IsThreadStep(step) && f !in s.scheduled ==> Distance(Next(s, step), f) < Distance(s, f))
  {
    var f := s.clients[c].pc.f;
    assert ClientOk(s, c, s.clients[c]);
    if !IsThreadStep(step) {
      OtherStepNoFurther(s, step, f);
    } else if f in s.scheduled {
      assert f in Next(s, step).scheduled;
    } else {
      ThreadStepCloser(s, step, f);
    }
  }

  /** Scheduling nothing but the notifier thread, a stream that is behind has
      its future resolved within `Distance` steps, whatever the others did. */
  lemma {:induction false} ThreadAloneSettles(s: State, c: Stream) returns (steps: seq<Step>)
    requires Inv(s) && Behind(s, c)
    ensures |steps| <= Distance(s, s.clients[c].pc.f) && forall step <- steps :: IsThreadStep(step)
    ensures IsRun(s, steps) && Enabled(After(s, steps), Settle(c))
    decreases Distance(s, s.clients[c].pc.f)
  {
    NoLostWakeUp(s, c);
    if s.clients[c].pc.f in s.scheduled {
      steps := [];
    } else {
      var step := ThreadStep(s.notifier.thread.value);
      var s' := Next(s, step);
      StepKeeps(s, step);
      DistanceFalls(s, step, c);
      var rest := ThreadAloneSettles(s', c);
      steps := [step] + rest;
      assert steps[1..] == rest;
    }
  }

  function ThreadSteps(steps: seq<Step>): nat {
    if steps == [] then 0 else (if IsThreadStep(steps[0]) then 1 else 0) + ThreadSteps(steps[1..])
  }

  /** Throughout the run stream `c` awaits the one future. */
  predicate StaysParked(s: State, steps: seq<Step>, c: Stream, f: Future)
    requires IsRun(s, steps)
    decreases |steps|
  {
    At(s, c, Parked(f)) && (steps == [] || StaysParked(Next(s, steps[0]), steps[1..], c, f))
  }

  lemma {:induction false} ScheduledStays(s: State, steps: seq<Step>, f: Future)
    requires IsRun(s, steps) && f in s.scheduled
    ensures f in After(s, steps).scheduled
    decreases |steps|
  {
    if steps != [] {
      assert f in Next(s, steps[0]).scheduled;
      ScheduledStays(Next(s, steps[0]), steps[1..], f);
    }
  }

  lemma StaysBehind(s: State, step: Step, c: Stream)
    requires Inv(s) && Behind(s, c) && Enabled(s, step)
    requires At(Next(s, step), c, s.clients[c].pc)
    ensures Behind(Next(s, step), c)
  {
    if IsStreamStep(step) && step.c == c {
      assert false;
    } else {
      assert Next(s, step).clients[c] == s.clients[c];
    }
  }

  /** In every run, whatever the others do: as many steps of the thread as the
      distance, and the future is scheduled. */
  lemma {:induction false} EnoughThreadStepsSettle(s: State, steps: seq<Step>, c: Stream)
    requires Inv(s) && Behind(s, c) && IsRun(s, steps) && StaysParked(s, steps, c, s.clients[c].pc.f)
    requires ThreadSteps(steps) >= Distance(s, s.clients[c].pc.f)
    ensures s.clients[c].pc.f in After(s, steps).scheduled
    decreases |steps|
  {
    var f := s.clients[c].pc.f;
    NoLostWakeUp(s, c);
    if f in s.scheduled {
      ScheduledStays(s, steps, f);
    } else {
      StepKeeps(s, steps[0]);
      DistanceFalls(s, steps[0], c);
      StaysBehind(s, steps[0], c);
      EnoughThreadStepsSettle(Next(s, steps[0]), steps[1..], c);
    }
  }

  /** Nothing left to do: no install under way, the thread asleep or gone, and
      every live stream awaiting an unresolved future. */
  predicate Quiescent(s: State) {
    && s.wrote == {} && s.bumped == {}
    && (s.notifier.thread.None? || s.notifier.thread.value.Asleep?)
    && forall c <- s.clients ::
         s.clients[c].pc.Ended? || (s.clients[c].pc.Parked? && s.clients[c].pc.f !in s.scheduled)
  }

  /** At rest every live stream has seen every install and every refusal. */
  lemma QuiescentIsCaughtUp(s: State, c: Stream)
    requires Inv(s) && Quiescent(s) && c in s.clients && !s.clients[c].pc.Ended?
    ensures s.clients[c].seen == s.generation == s.writes && s.clients[c].seenR == Watched(s)
  {
    assert ClientOk(s, c, s.clients[c]);
  }

  // ── What a wake says ────────────────────────────────────────────────────

  /** An awaited wake is for a counter that was really reached; whenever its
      install is news to the stream it carries a model, and that model was
      installed no earlier than the generation it is reported under. */
  lemma AwaitedWakeIsFresh(s: State, c: Stream)
    requires Inv(s) && Enabled(s, Settle(c))
    ensures var w := Next(s, Settle(c)).clients[c].pc.wake;
            && w.gen <= s.generation && w.refs <= Watched(s)
            && (w.gen > s.clients[c].seen ==> w.model.Some? && w.gen <= w.model.value <= s.writes)
  {
    assert ClientOk(s, c, s.clients[c]);
  }

  /** The thread reads a model for an install and for nothing else. */
  lemma ModelIsForInstall(s: State)
    requires Inv(s) && Enabled(s, ReadModel)
    ensures var t := s.notifier.thread.value;
            Next(s, ReadModel).notifier.thread.value.wake.model.Some? <==> t.gen > t.seen
  {
  }

  /** A stream goes to sleep exactly when no counter has moved past what it has seen. */
  lemma SleepsIff(s: State, c: Stream)
    requires Enabled(s, Decide(c))
    ensures Next(s, Decide(c)).clients[c].pc.Parked? <==>
            s.clients[c].pc.now <= s.clients[c].seen && Watched(s) <= s.clients[c].seenR
  {
  }

  /** A wake that carries both reports the refusal first and then the install. */
  lemma RefusalFirst(s: State, c: Stream, w: WakeUp, awaited: bool)
    requires Inv(s) && At(s, c, Handling(w, awaited))
    requires w.refs > s.clients[c].seenR && w.gen > s.clients[c].seen && w.model.Some?
    ensures var s1 := Next(s, HandleRefusal(c));
            && Enabled(s1, HandleInstall(c))
            && Next(s1, HandleInstall(c)).clients[c]
               == Client(Ready, w.gen, w.refs, s.clients[c].events + [Refused(w.refs), Reloaded(w.gen, w.model.value)])
  {
    var client := s.clients[c];
    assert client.events + [Refused(w.refs)] + [Reloaded(w.gen, w.model.value)]
           == client.events + [Refused(w.refs), Reloaded(w.gen, w.model.value)];
  }

  /** Over a whole run a stream reports strictly increasing generations and
      strictly increasing refusal counts, none of them past the real counters. */
  lemma ReportsIncrease(kind: Kind, steps: seq<Step>, c: Stream, i: nat, j: nat)
    requires IsRun(Initial(kind), steps)
    requires c in After(Initial(kind), steps).clients
    requires i < j < |After(Initial(kind), steps).clients[c].events|
    ensures var s := After(Initial(kind), steps);
            var events := s.clients[c].events;
            && (events[i].Reloaded? && events[j].Reloaded? ==> events[i].gen < events[j].gen <= s.generation)
            && (events[i].Refused? && events[j].Refused? ==> events[i].count < events[j].count <= Watched(s))
  {
    ReachableHolds(kind, steps);
    var s := After(Initial(kind), steps);
    assert ClientOk(s, c, s.clients[c]);
    assert s.clients[c].events[j] in s.clients[c].events;
  }

  // ── What a stream reports, from the moment it was opened ────────────────

  /** The generation of the newest install reported, `base` if there is none. */
  function NewestGen(events: seq<Event>, base: nat): nat {
    if events == [] then base
    else var last := events[|events| - 1];
      if last.Reloaded? then last.gen else NewestGen(events[..|events| - 1], base)
  }

  function NewestCount(events: seq<Event>, base: nat): nat {
    if events == [] then base
    else var last := events[|events| - 1];
      if last.Refused? then last.count else NewestCount(events[..|events| - 1], base)
  }

  lemma OneMoreReport(events: seq<Event>, e: Event, base: nat)
    ensures NewestGen(events + [e], base) == if e.Reloaded? then e.gen else NewestGen(events, base)
    ensures NewestCount(events + [e], base) == if e.Refused? then e.count else NewestCount(events, base)
  {
    assert (events + [e])[..|events|] == events;
  }

  /** Only installs past `base` are reported, and what the stream has seen is the newest of them. */
  ghost predicate InstallsSince(client: Client, base: nat) {
    && base <= client.seen == NewestGen(client.events, base)
    && forall e <- client.events :: e.Reloaded? ==> e.gen > base
  }

  ghost predicate RefusalsSince(client: Client, base: nat) {
    && !client.pc.Opening? && base <= client.seenR == NewestCount(client.events, base)
    && forall e <- client.events :: e.Refused? ==> e.count > base
  }

  /** No step gives the stream a report it had seen, or has it see what it does not report. */
  lemma SinceStep(s: State, step: Step, c: Stream, base: nat)
    requires Enabled(s, step) && c in s.clients && c in Next(s, step).clients
    ensures InstallsSince(s.clients[c], base) ==> InstallsSince(Next(s, step).clients[c], base)
    ensures RefusalsSince(s.clients[c], base) ==> RefusalsSince(Next(s, step).clients[c], base)
  {
    var client := s.clients[c];
    if step == HandleRefusal(c) {
      RefusalReported(client, client.pc.wake, client.pc.awaited, base);
    } else if step == HandleInstall(c) {
      InstallReported(client, client.pc.wake, base);
    } else {
      OtherSteps(s, step, c);
    }
  }

  lemma RefusalReported(client: Client, wake: WakeUp, awaited: bool, base: nat)
    ensures InstallsSince(client, base) ==> InstallsSince(AfterRefusal(client, wake, awaited), base)
    ensures RefusalsSince(client, base) ==> RefusalsSince(AfterRefusal(client, wake, awaited), base)
  {
    OneMoreReport(client.events, Refused(wake.refs), base);
  }

  lemma InstallReported(client: Client, wake: WakeUp, base: nat)
    ensures InstallsSince(client, base) ==> InstallsSince(AfterInstall(client, wake), base)
    ensures RefusalsSince(client, base) ==> RefusalsSince(AfterInstall(client, wake), base)
  {
    if wake.model.Some? { OneMoreReport(client.events, Reloaded(wake.gen, wake.model.value), base); }
  }

  lemma OtherSteps(s: State, step: Step, c: Stream)
    requires Enabled(s, step) && c in s.clients && c in Next(s, step).clients
    requires step != HandleRefusal(c) && step != HandleInstall(c)
    ensures var client, client' := s.clients[c], Next(s, step).clients[c];
            && client'.events == client.events && client'.seen == client.seen
            && (!client.pc.Opening? ==> !client'.pc.Opening? && client'.seenR == client.seenR)
  {
  }

  lemma {:induction false} SinceRun(s: State, steps: seq<Step>, c: Stream, base: nat)
    requires IsRun(s, steps) && forall step <- steps :: step != Open(c)
    ensures var s' := After(s, steps);
            c in s'.clients ==>
              && c in s.clients
              && (InstallsSince(s.clients[c], base) ==> InstallsSince(s'.clients[c], base))
              && (RefusalsSince(s.clients[c], base) ==> RefusalsSince(s'.clients[c], base))
    decreases |steps|
  {
    if steps != [] {
      assert steps[0] in steps && forall step <- steps[1..] :: step in steps;
      SinceRun(Next(s, steps[0]), steps[1..], c, base);
      if c in s.clients && c in Next(s, steps[0]).clients { SinceStep(s, steps[0], c, base); }
    }
  }

  /** A stream reports only installs made after it was opened, over any run. */
  lemma ReportsSinceOpened(s: State, steps: seq<Step>, c: Stream, e: Event)
    requires Enabled(s, Open(c)) && IsRun(Next(s, Open(c)), steps) && forall step <- steps :: step != Open(c)
    requires var s' := After(Next(s, Open(c)), steps); c in s'.clients && e in s'.clients[c].events && e.Reloaded?
    ensures e.gen > s.generation
  {
    SinceRun(Next(s, Open(c)), steps, c, s.generation);
  }

  lemma {:induction false} KindStays(s: State, steps: seq<Step>)
    requires IsRun(s, steps)
    ensures After(s, steps).kind == s.kind
    decreases |steps|
  {
    if steps != [] { KindStays(Next(s, steps[0]), steps[1..]); }
  }

  /** And only refusals after it had read their counter. */
  lemma RefusalsSinceOpened(s: State, steps: seq<Step>, c: Stream, e: Event)
    requires Inv(s) && Enabled(s, Opened(c)) && IsRun(Next(s, Opened(c)), steps)
    requires forall step <- steps :: step != Open(c)
    requires var s' := After(Next(s, Opened(c)), steps); c in s'.clients && e in s'.clients[c].events && e.Refused?
    ensures e.count > s.refusals
  {
    var s1 := Next(s, Opened(c));
    assert ClientOk(s, c, s.clients[c]);
    SinceRun(s1, steps, c, Watched(s));
    StepKeeps(s, Opened(c));
    RunKeeps(s1, steps);
    KindStays(s1, steps);
    if s.kind.Changes? { ChangesSeesInstallsOnly(After(s1, steps), c); }
  }

  /** At rest, whatever happened since it was opened: the newest install a live
      stream has reported is the newest there is, and it has reported none exactly
      when there was none. */
  lemma AtRestNewestIsReported(s: State, steps: seq<Step>, c: Stream)
    requires Inv(s) && Enabled(s, Open(c)) && IsRun(Next(s, Open(c)), steps)
    requires forall step <- steps :: step != Open(c)
    requires var s' := After(Next(s, Open(c)), steps);
             Quiescent(s') && c in s'.clients && !s'.clients[c].pc.Ended?
    ensures var s' := After(Next(s, Open(c)), steps);
            && NewestGen(s'.clients[c].events, s.generation) == s'.generation
            && (s'.generation == s.generation <==> forall e <- s'.clients[c].events :: e.Refused?)
  {
    var s1 := Next(s, Open(c));
    var s' := After(s1, steps);
    SinceRun(s1, steps, c, s.generation);
    StepKeeps(s, Open(c));
    RunKeeps(s1, steps);
    QuiescentIsCaughtUp(s', c);
    assert ClientOk(s', c, s'.clients[c]);
    NewsIsReported(s'.clients[c], s.generation);
  }

  lemma NewsIsReported(client: Client, base: nat)
    requires InstallsSince(client, base) && EventsOk(client)
    ensures client.seen == base <==> forall e <- client.events :: e.Refused?
  {
    if forall e <- client.events :: e.Refused? { NoReport(client.events, base); }
  }

  lemma {:induction false} NoReport(events: seq<Event>, base: nat)
    requires forall e <- events :: e.Refused?
    ensures NewestGen(events, base) == base
  {
    if events != [] {
      assert events[|events| - 1] in events;
      NoReport(events[..|events| - 1], base);
    }
  }

  /** The same of refusals. */
  lemma AtRestRefusalIsReported(s: State, steps: seq<Step>, c: Stream)
    requires Inv(s) && Enabled(s, Opened(c)) && IsRun(Next(s, Opened(c)), steps)
    requires forall step <- steps :: step != Open(c)
    requires var s' := After(Next(s, Opened(c)), steps);
             Quiescent(s') && c in s'.clients && !s'.clients[c].pc.Ended?
    ensures var s' := After(Next(s, Opened(c)), steps);
            NewestCount(s'.clients[c].events, Watched(s)) == Watched(s')
  {
    var s1 := Next(s, Opened(c));
    assert ClientOk(s, c, s.clients[c]);
    SinceRun(s1, steps, c, Watched(s));
    StepKeeps(s, Opened(c));
    RunKeeps(s1, steps);
    QuiescentIsCaughtUp(After(s1, steps), c);
  }

  /** A `changes()` stream never reports a refusal, however many there were. */
  lemma ChangesSeesInstallsOnly(s: State, c: Stream)
    requires Inv(s) && s.kind.Changes? && c in s.clients
    ensures forall e <- s.clients[c].events :: e.Reloaded?
  {
    assert ClientOk(s, c, s.clients[c]);
  }

  /** And the thread a refusal wakes there goes back to sleep with nothing resolved. */
  lemma RefusalIsNoNews(s: State)
    requires Inv(s) && s.kind.Changes? && s.notifier.thread.Some? && s.notifier.thread.value.Asleep?
    ensures var s1 := Next(s, Refuse);
            Enabled(s1, Test) && Next(s1, Test) == s.(refusals := s.refusals + 1)
  {
  }

  // ── When a stream ends although nothing was released ────────────────────

  /** The only step that ends a stream handles a wake it read directly, past
      its own generation, before any publish hook had run. */
  lemma EndsOnlyFromDirectRead(s: State, step: Step, c: Stream)
    requires Inv(s) && Enabled(s, step) && c in s.clients && !s.clients[c].pc.Ended?
    ensures At(Next(s, step), c, Ended) <==>
            && step == HandleInstall(c)
            && !s.clients[c].pc.awaited && s.clients[c].pc.wake.model.None? &&
                s.clients[c].pc.wake.gen > s.clients[c].seen
  {
    assert ClientOk(s, c, s.clients[c]);
  }

  /** A stream that has not ended and holds no empty-handed direct read. */
  predicate Live(s: State, c: Stream) {
    && c in s.clients
    && match s.clients[c].pc
       case Ended => false
       case Handling(w, awaited) => awaited || w.model.Some? || w.gen <= s.clients[c].seen
       case Installing(w, awaited) => awaited || w.model.Some? || w.gen <= s.clients[c].seen
       case _ => true
  }

  /** A direct read loses the stream exactly when it falls in the window
      between the first install's generation and its publish hook. */
  lemma DirectReadIsLiveIffPublished(s: State, c: Stream)
    requires Inv(s) && Enabled(s, ReadDirect(c))
    ensures Live(Next(s, ReadDirect(c)), c) <==>
            s.published.Some? || s.clients[c].pc.now <= s.clients[c].seen
  {
  }

  lemma LiveMover(s: State, step: Step)
    requires Enabled(s, step) && IsStreamStep(step) && s.published.Some? && Live(s, step.c)
    requires ClientOk(s, step.c, s.clients[step.c])
    ensures Live(Next(s, step), step.c)
  {
  }

  lemma LiveStep(s: State, step: Step, c: Stream)
    requires Inv(s) && Enabled(s, step) && s.published.Some? && Live(s, c)
    ensures Next(s, step).published.Some?
    ensures c in Next(s, step).clients ==> Live(Next(s, step), c)
  {
    assert ClientOk(s, c, s.clients[c]);
    if IsStreamStep(step) && step.c == c {
      LiveMover(s, step);
    } else if step == Leave(c) {
      assert c !in Next(s, step).clients;
    } else if step != Register(c) {
      assert c in Next(s, step).clients ==> Next(s, step).clients[c] == s.clients[c];
    }
  }

  /** Once one publish hook has run, no live stream ever ends by itself. */
  lemma {:induction false} LiveForever(s: State, steps: seq<Step>, c: Stream)
    requires Inv(s) && IsRun(s, steps) && s.published.Some? && Live(s, c)
    requires forall step <- steps :: step != Leave(c)
    ensures Live(After(s, steps), c)
    decreases |steps|
  {
    if steps != [] {
      StepKeeps(s, steps[0]);
      assert steps[0] in steps && forall step <- steps[1..] :: step in steps;
      LiveStep(s, steps[0], c);
      assert c in Next(s, steps[0]).clients;
      LiveForever(Next(s, steps[0]), steps[1..], c);
    }
  }
}
