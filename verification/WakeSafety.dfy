/** The invariant of `Wake` is kept by every step, for any number of streams. */
module WakeSafety {
  import opened Common
  import opened Wake

  // ── Frames: what a stream's invariant does not depend on ────────────────

  /** Counters only grow; nothing else a stream's invariant mentions moves. */
  predicate Grows(s: State, s': State) {
    && s.generation <= s'.generation && Watched(s) <= Watched(s') && s.writes <= s'.writes
    && s.nextFuture <= s'.nextFuture && s'.scheduled == s.scheduled && s'.starter == s.starter && s'.kind == s.kind
  }

  /** The thread may have woken up; its list, its batch and its counters are the same. */
  predicate SameNotifier(s: State, s': State) {
    && s'.notifier.waiters == s.notifier.waiters
    && (s'.notifier == s.notifier
        || (s.notifier.thread.Some? && s'.notifier.thread.Some?
            && !s.notifier.thread.value.Delivering? && !s'.notifier.thread.value.Delivering?
            && s'.notifier.thread.value.seen == s.notifier.thread.value.seen
            && s'.notifier.thread.value.seenR == s.notifier.thread.value.seenR))
  }

  lemma FutureFrame(s: State, s': State, f: Future, now: nat, now': nat)
    requires Grows(s, s') && SameNotifier(s, s') && Covered(s, f, now) && now <= now'
    ensures Covered(s', f, now')
  {
  }

  lemma StreamFrame(s: State, s': State, c: Stream, client: Client)
    requires Grows(s, s') && SameNotifier(s, s') && ClientOk(s, c, client)
    ensures ClientOk(s', c, client)
  {
    match client.pc
    case Registered(f) => FutureFrame(s, s', f, s.generation, s'.generation);
    case Rechecked(f, now) => FutureFrame(s, s', f, now, now);
    case Parked(f) => FutureFrame(s, s', f, client.seen, client.seen);
    case _ =>
  }

  lemma StreamsFrame(s: State, s': State)
    requires Inv(s) && Grows(s, s') && SameNotifier(s, s') && s'.clients == s.clients
    requires CountersOk(s') && LockOk(s')
    ensures Inv(s')
  {
    forall c | c in s'.clients ensures ClientOk(s', c, s'.clients[c]) {
      StreamFrame(s, s', c, s.clients[c]);
    }
  }

  lemma InstallKeeps(s: State, step: Step)
    requires Inv(s) && Enabled(s, step)
    requires step.WriteCache? || step.Hook?
    ensures Inv(Next(s, step))
  {
    if step.WriteCache? { assert s.writes + 1 !in s.wrote; }
    StreamsFrame(s, Next(s, step));
  }

  lemma NotifyKeeps(s: State, step: Step)
    requires Inv(s) && Enabled(s, step)
    requires step.Bump? || step.Refuse?
    ensures Inv(Next(s, step))
  {
    StreamsFrame(s, Next(s, step));
  }

  // ── One stream moves ────────────────────────────────────────────────────

  lemma AppendEvent(client: Client, after: Client, e: Event)
    requires EventsOk(client) && after.events == client.events + [e]
    requires after.seen >= client.seen && after.seenR >= client.seenR
    requires if e.Reloaded? then client.seen < e.gen <= after.seen else client.seenR < e.count <= after.seenR
    ensures EventsOk(after)
  {
    forall i, j | 0 <= i < j < |after.events| && after.events[i].Reloaded? && after.events[j].Reloaded?
      ensures after.events[i].gen < after.events[j].gen
    {
      assert client.events[i] in client.events;
    }
    forall i, j | 0 <= i < j < |after.events| && after.events[i].Refused? && after.events[j].Refused?
      ensures after.events[i].count < after.events[j].count
    {
      assert client.events[i] in client.events;
    }
  }

  lemma MoverKeeps(s: State, step: Step)
    requires Inv(s) && Enabled(s, step)
    requires step.Opened? || step.Recheck? || step.Decide? || step.ReadDirect? || step.Settle?
    ensures ClientOk(s, step.c, Moved(s, step))
  {
    assert ClientOk(s, step.c, s.clients[step.c]);
  }

  lemma HandlerKeeps(s: State, step: Step)
    requires Inv(s) && Enabled(s, step)
    requires step.HandleRefusal? || step.HandleInstall?
    ensures ClientOk(s, step.c, Moved(s, step))
  {
    var client := s.clients[step.c];
    assert ClientOk(s, step.c, client);
    if step.HandleRefusal? && client.pc.wake.refs > client.seenR {
      AppendEvent(client, Moved(s, step), Refused(client.pc.wake.refs));
    } else if step.HandleInstall? && client.pc.wake.gen > client.seen && client.pc.wake.model.Some? {
      AppendEvent(client, Moved(s, step), Reloaded(client.pc.wake.gen, client.pc.wake.model.value));
    }
  }

  lemma OthersFrame(s: State, s': State, c: Stream)
    requires Inv(s) && CountersOk(s') && LockOk(s')
    requires Grows(s, s'.(starter := s.starter)) && s'.notifier == s.notifier
    requires s'.starter == s.starter || s.starter.None?
    requires forall k <- s'.clients :: if k == c then ClientOk(s', c, s'.clients[c])
                                       else k in s.clients && s'.clients[k] == s.clients[k]
    ensures Inv(s')
  {
    forall k | k in s'.clients ensures ClientOk(s', k, s'.clients[k]) {
      if k != c {
        StreamFrame(s, s'.(starter := s.starter), k, s.clients[k]);
      }
    }
  }

  lemma StreamLock(s: State, step: Step)
    requires CountersOk(s) && LockOk(s) && Enabled(s, step)
    requires IsStreamStep(step) && !step.TakeLock?
    ensures CountersOk(Next(s, step)) && LockOk(Next(s, step))
  {
    if s.starter.Some? { assert s.starter.value != step.c; }
  }

  lemma StreamKeeps(s: State, step: Step)
    requires Inv(s) && Enabled(s, step)
    requires IsStreamStep(step) && !step.TakeLock?
    ensures Inv(Next(s, step))
  {
    var s' := Next(s, step);
    StreamLock(s, step);
    if step.HandleRefusal? || step.HandleInstall? { HandlerKeeps(s, step); } else { MoverKeeps(s, step); }
    StreamFrame(s, s', step.c, Moved(s, step));
    OthersFrame(s, s', step.c);
  }

  lemma OpenKeeps(s: State, c: Stream)
    requires Inv(s) && Enabled(s, Open(c))
    ensures Inv(Next(s, Open(c)))
  {
    OthersFrame(s, Next(s, Open(c)), c);
  }

  lemma TakeLockKeeps(s: State, c: Stream)
    requires Inv(s) && Enabled(s, TakeLock(c))
    ensures Inv(Next(s, TakeLock(c)))
  {
    var s' := Next(s, TakeLock(c));
    assert ClientOk(s', c, s'.clients[c]) by { assert ClientOk(s, c, s.clients[c]); }
    assert LockOk(s');
    OthersFrame(s, s', c);
  }

  lemma LeaveKeeps(s: State, c: Stream)
    requires Inv(s) && Enabled(s, Leave(c))
    ensures Inv(Next(s, Leave(c)))
  {
    OthersFrame(s, Next(s, Leave(c)), c);
  }

  // ── The waiter list and the thread move ─────────────────────────────────

  lemma EnqueueFrame(s: State, s': State, c: Stream, client: Client, b: nat, r: nat)
    requires LockOk(s) && ClientOk(s, c, client) && !client.pc.HoldingLock?
    requires s'.(starter := s.starter, clients := s.clients)
             == s.(notifier := Enqueue(s.notifier, s.nextFuture, b, r), nextFuture := s.nextFuture + 1)
    ensures ClientOk(s', c, client)
  {
  }

  lemma RegisterLock(s: State, step: Step)
    requires Inv(s) && Enabled(s, step) && step.Register?
    ensures CountersOk(Next(s, step)) && LockOk(Next(s, step))
    ensures ClientOk(Next(s, step), step.c, Next(s, step).clients[step.c])
  {
    assert ClientOk(s, step.c, s.clients[step.c]);
  }

  lemma RegisterKeeps(s: State, step: Step)
    requires Inv(s) && Enabled(s, step) && step.Register?
    ensures Inv(Next(s, step))
  {
    var s' := Next(s, step);
    RegisterLock(s, step);
    var client := s.clients[step.c];
    assert ClientOk(s, step.c, client);
    var baseline := if client.pc.HoldingLock? then client.pc.baseline else s.generation;
    forall c | c in s'.clients && c != step.c ensures ClientOk(s', c, s'.clients[c]) {
      assert ClientOk(s, c, s.clients[c]);
      EnqueueFrame(s, s', c, s.clients[c], baseline, Watched(s));
    }
  }

  lemma OtherWaiterKeeps(s: State)
    requires Inv(s) && Enabled(s, OtherWaiter)
    ensures Inv(Next(s, OtherWaiter))
  {
    var s' := Next(s, OtherWaiter);
    forall c | c in s'.clients ensures ClientOk(s', c, s'.clients[c]) {
      assert ClientOk(s, c, s.clients[c]);
      EnqueueFrame(s, s', c, s.clients[c], s.generation, Watched(s));
    }
  }

  /** Sleeping, waking and reading leave every stream's future where it was. */
  lemma WaitingKeeps(s: State, step: Step)
    requires Inv(s) && Enabled(s, step)
    requires step.Test? || step.Spurious? || step.ReadModel?
    ensures Inv(Next(s, step))
  {
    StreamsFrame(s, Next(s, step));
  }

  /** A swap moves a live future from the list to the batch; a model-less wake
      is only ever swapped in for streams that have seen its generation. */
  lemma SwapFrame(s: State, s': State, c: Stream, client: Client)
    requires LockOk(s) && ClientOk(s, c, client) && Enabled(s, Swap) && s' == Next(s, Swap)
    ensures ClientOk(s', c, client)
  {
  }

  lemma DeliverFrame(s: State, s': State, c: Stream, client: Client)
    requires LockOk(s) && ClientOk(s, c, client) && Enabled(s, Deliver) && s' == Next(s, Deliver)
    ensures ClientOk(s', c, client)
  {
    var batch := s.notifier.thread.value.batch;
    assert forall f <- batch :: f == batch[0] || f in batch[1..];
  }

  lemma FinishTurnFrame(s: State, s': State, c: Stream, client: Client)
    requires LockOk(s) && ClientOk(s, c, client) && Enabled(s, FinishTurn) && s' == Next(s, FinishTurn)
    ensures ClientOk(s', c, client)
  {
  }

  lemma DeliverLock(s: State)
    requires LockOk(s) && Enabled(s, Deliver)
    ensures LockOk(Next(s, Deliver))
  {
    var batch := s.notifier.thread.value.batch;
    assert batch[0] in batch && forall f <- batch[1..] :: f in batch;
  }

  lemma ResolvingKeeps(s: State, step: Step)
    requires Inv(s) && Enabled(s, step)
    requires step.Swap? || step.Deliver? || step.FinishTurn?
    ensures Inv(Next(s, step))
  {
    var s' := Next(s, step);
    if step.Deliver? { DeliverLock(s); }
    forall c | c in s'.clients ensures ClientOk(s', c, s'.clients[c]) {
      assert ClientOk(s, c, s.clients[c]);
      match step
      case Swap => SwapFrame(s, s', c, s.clients[c]);
      case Deliver => DeliverFrame(s, s', c, s.clients[c]);
      case FinishTurn => FinishTurnFrame(s, s', c, s.clients[c]);
    }
  }

  // ── All steps, all runs ─────────────────────────────────────────────────

  lemma StepKeeps(s: State, step: Step)
    requires Inv(s) && Enabled(s, step)
    ensures Inv(Next(s, step))
  {
    match step
    case WriteCache => InstallKeeps(s, step);
    case Hook(_) => InstallKeeps(s, step);
    case Bump(_) => NotifyKeeps(s, step);
    case Refuse => NotifyKeeps(s, step);
    case Open(c) => OpenKeeps(s, c);
    case TakeLock(c) => TakeLockKeeps(s, c);
    case Leave(c) => LeaveKeeps(s, c);
    case Register(_) => RegisterKeeps(s, step);
    case OtherWaiter => OtherWaiterKeeps(s);
    case Test => WaitingKeeps(s, step);
    case Spurious => WaitingKeeps(s, step);
    case ReadModel => WaitingKeeps(s, step);
    case Swap => ResolvingKeeps(s, step);
    case Deliver => ResolvingKeeps(s, step);
    case FinishTurn => ResolvingKeeps(s, step);
    case _ => StreamKeeps(s, step);
  }

  predicate IsRun(s: State, steps: seq<Step>)
    decreases |steps|
  {
    steps == [] || (Enabled(s, steps[0]) && IsRun(Next(s, steps[0]), steps[1..]))
  }

  function After(s: State, steps: seq<Step>): State
    requires IsRun(s, steps)
    decreases |steps|
  {
    if steps == [] then s else After(Next(s, steps[0]), steps[1..])
  }

  lemma {:induction false} RunKeeps(s: State, steps: seq<Step>)
    requires Inv(s) && IsRun(s, steps)
    ensures Inv(After(s, steps))
    decreases |steps|
  {
    if steps != [] {
      StepKeeps(s, steps[0]);
      RunKeeps(Next(s, steps[0]), steps[1..]);
    }
  }
}
