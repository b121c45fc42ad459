/**
  The condition-variable monitor under the wake protocol, one lock operation at
  a time: any number of threads in `wait_for_change` or `wait_for_event`, any
  number of threads that install or refuse.  Installing is not atomic here: the
  counter moves first, `notify_all` comes second, the lock is released third.
*/
module Monitor {
  import opened Common

  type Tid = nat

  datatype Role = WaitChange(seen: nat) | WaitEvent(seen: nat, seenR: nat) | Install | Refuse

  datatype Pc =
    | Wanting                        // blocked on the lock: new, notified, or woken for no reason
    | Holding                        // owns the lock
    | Moved                          // owns the lock, counter moved, nobody notified yet
    | Notified                       // owns the lock, everyone notified
    | Asleep                         // in `Condvar::wait`
    | Done(gen: nat, refs: nat)      // out of the lock, with the counters it answers

  datatype Thread = Thread(role: Role, pc: Pc)

  datatype State = State(generation: nat, refusals: nat, holder: Option<Tid>, threads: map<Tid, Thread>)

  const INITIAL := State(0, 0, None, map[])

  datatype Step =
    | Arrive(t: Tid, role: Role) | Acquire(t: Tid) | Test(t: Tid) | Spurious(t: Tid)
    | Move(t: Tid) | Notify(t: Tid) | Release(t: Tid)

  predicate IsWaiter(role: Role) { role.WaitChange? || role.WaitEvent? }

  /** The predicate of the wait loop: nothing the caller watches has moved. */
  predicate NothingNew(s: State, role: Role) {
    match role
    case WaitChange(seen) => s.generation <= seen
    case WaitEvent(seen, seenR) => s.generation <= seen && s.refusals <= seenR
    case _ => false
  }

  predicate At(s: State, t: Tid, pc: Pc) { t in s.threads && s.threads[t].pc == pc }

  predicate Enabled(s: State, step: Step) {
    match step
    case Arrive(t, _) => t !in s.threads
    case Acquire(t) => At(s, t, Wanting) && s.holder.None?
    case Test(t) => At(s, t, Holding) && IsWaiter(s.threads[t].role)
    case Spurious(t) => At(s, t, Asleep)
    case Move(t) => At(s, t, Holding) && !IsWaiter(s.threads[t].role)
    case Notify(t) => At(s, t, Moved)
    case Release(t) => At(s, t, Notified)
  }

  function Goto(s: State, t: Tid, pc: Pc): State
    requires t in s.threads
  {
    s.(threads := s.threads[t := s.threads[t].(pc := pc)])
  }

  function Woken(thread: Thread): Thread { if thread.pc.Asleep? then thread.(pc := Wanting) else thread }

  function Next(s: State, step: Step): State
    requires Enabled(s, step)
  {
    match step
    case Arrive(t, role) => s.(threads := s.threads[t := Thread(role, Wanting)])
    case Acquire(t) => Goto(s, t, Holding).(holder := Some(t))
    case Test(t) =>
      Goto(s, t, if NothingNew(s, s.threads[t].role) then Asleep else Done(s.generation, s.refusals)).(holder := None)
    case Spurious(t) => Goto(s, t, Wanting)
    case Move(t) =>
      var s' := Goto(s, t, Moved);
      if s.threads[t].role.Install? then s'.(generation := s.generation + 1) else s'.(refusals := s.refusals + 1)
    case Notify(t) =>
      Goto(s.(threads := map k | k in s.threads :: Woken(s.threads[k])), t, Notified)
    case Release(t) => Goto(s, t, Done(s.generation, s.refusals)).(holder := None)
  }

  predicate Owns(pc: Pc) { pc.Holding? || pc.Moved? || pc.Notified? }

  /** Some thread still owes the `notify_all` for a counter it moved. */
  predicate NotificationPending(s: State) {
    s.holder.Some? && At(s, s.holder.value, Moved)
  }

  predicate ThreadOk(s: State, t: Tid, thread: Thread) {
    && (Owns(thread.pc) <==> s.holder == Some(t))
    && (thread.pc.Asleep? ==> IsWaiter(thread.role) && (NothingNew(s, thread.role) || NotificationPending(s)))
    && (thread.pc.Moved? || thread.pc.Notified? ==> !IsWaiter(thread.role))
    && (thread.pc.Done? ==> thread.pc.gen <= s.generation && thread.pc.refs <= s.refusals)
    && (thread.pc.Done? && IsWaiter(thread.role) ==>
          thread.pc.gen > thread.role.seen || (thread.role.WaitEvent? && thread.pc.refs > thread.role.seenR))
  }

  predicate Inv(s: State) {
    && (s.holder.Some? ==> s.holder.value in s.threads)
    && forall t <- s.threads :: ThreadOk(s, t, s.threads[t])
  }

  lemma StepKeeps(s: State, step: Step)
    requires Inv(s) && Enabled(s, step)
    ensures Inv(Next(s, step))
  {
    var s' := Next(s, step);
    assert step.t in s.threads ==> ThreadOk(s, step.t, s.threads[step.t]);
    forall t | t in s'.threads ensures ThreadOk(s', t, s'.threads[t]) {
      if t in s.threads { assert ThreadOk(s, t, s.threads[t]); }
    }
  }

  predicate IsRun(s: State, steps: seq<Step>)
    decreases |steps|
  {
    steps == [] || (Enabled(s, steps[0]) && IsRun(Next(s, steps[0]), steps[1..]))
  }

  function After(s: State, steps: seq<Step>): State
    requires IsRun(s, steps)
    decreases |steps|
  {
    if steps == [] then s else After(Next(s, steps[0]), steps[1..])
  }

  lemma {:induction false} RunKeeps(s: State, steps: seq<Step>)
    requires Inv(s) && IsRun(s, steps)
    ensures Inv(After(s, steps))
    decreases |steps|
  {
    if steps != [] {
      StepKeeps(s, steps[0]);
      RunKeeps(Next(s, steps[0]), steps[1..]);
    }
  }

  /** The threads that have moved their counter. */
  ghost function MovedBy(s: State, role: Role): set<Tid> {
    set t <- s.threads | s.threads[t].role == role && (s.threads[t].pc.Moved? || s.threads[t].pc.Notified? ||
                                                       s.threads[t].pc.Done?)
  }

  ghost predicate Counted(s: State) {
    s.generation == |MovedBy(s, Install)| && s.refusals == |MovedBy(s, Refuse)|
  }

  lemma CountStep(s: State, step: Step)
    requires Inv(s) && Counted(s) && Enabled(s, step)
    ensures Counted(Next(s, step))
  {
    MoverCounts(s, step, Install);
    MoverCounts(s, step, Refuse);
  }

  lemma MoverCounts(s: State, step: Step, role: Role)
    requires Inv(s) && Enabled(s, step) && !IsWaiter(role)
    ensures var moves := step.Move? && s.threads[step.t].role == role;
            && MovedBy(Next(s, step), role) == MovedBy(s, role) + (if moves then {step.t} else {})
            && (moves ==> step.t !in MovedBy(s, role))
  {
    var s' := Next(s, step);
    assert step.t in s.threads ==> ThreadOk(s, step.t, s.threads[step.t]);
    forall t | t in s.threads && t != step.t ensures t in MovedBy(s', role) <==> t in MovedBy(s, role) {}
  }

  lemma {:induction false} CountRun(s: State, steps: seq<Step>)
    requires Inv(s) && Counted(s) && IsRun(s, steps)
    ensures Counted(After(s, steps))
    decreases |steps|
  {
    if steps != [] {
      StepKeeps(s, steps[0]);
      CountStep(s, steps[0]);
      CountRun(Next(s, steps[0]), steps[1..]);
    }
  }

  /** Over every run the generation counts the installs and the other counter the
      refusals that have moved, each exactly once. */
  lemma CountersCount(steps: seq<Step>)
    requires IsRun(INITIAL, steps)
    ensures var s := After(INITIAL, steps);
            s.generation == |MovedBy(s, Install)| && s.refusals == |MovedBy(s, Refuse)|
  {
    assert MovedBy(INITIAL, Install) == {} && MovedBy(INITIAL, Refuse) == {};
    CountRun(INITIAL, steps);
  }

  /** Under every interleaving a sleeping thread has either seen everything it
      watches or has its notification pending; once the lock is free there is
      no pending notification left. */
  lemma SleepersMissNothing(steps: seq<Step>, t: Tid)
    requires IsRun(INITIAL, steps) && At(After(INITIAL, steps), t, Asleep)
    ensures var s := After(INITIAL, steps);
            NotificationPending(s) ||
            match s.threads[t].role
            case WaitChange(seen) => s.generation <= seen
            case WaitEvent(seen, seenR) => s.generation <= seen && s.refusals <= seenR
            case _ => false
    ensures NotificationPending(After(INITIAL, steps)) ==> After(INITIAL, steps).holder.Some?
  {
    RunKeeps(INITIAL, steps);
    assert ThreadOk(After(INITIAL, steps), t, After(INITIAL, steps).threads[t]);
  }

  /** Neither wait answers for a counter that has not moved past what it was given. */
  lemma AnswersAreNews(steps: seq<Step>, t: Tid)
    requires IsRun(INITIAL, steps)
    requires t in After(INITIAL, steps).threads
    requires After(INITIAL, steps).threads[t].pc.Done? && IsWaiter(After(INITIAL, steps).threads[t].role)
    ensures var s := After(INITIAL, steps);
            var Thread(role, Done(gen, refs)) := s.threads[t];
            && gen <= s.generation && refs <= s.refusals
            && (role.WaitChange? ==> gen > role.seen)
            && (role.WaitEvent? ==> gen > role.seen || refs > role.seenR)
  {
    RunKeeps(INITIAL, steps);
    assert ThreadOk(After(INITIAL, steps), t, After(INITIAL, steps).threads[t]);
  }

  /** The counters move only inside the lock: two threads never hold it at once. */
  lemma MutualExclusion(steps: seq<Step>, t: Tid, u: Tid)
    requires IsRun(INITIAL, steps)
    requires t in After(INITIAL, steps).threads && u in After(INITIAL, steps).threads
    requires Owns(After(INITIAL, steps).threads[t].pc) && Owns(After(INITIAL, steps).threads[u].pc)
    ensures t == u
  {
    RunKeeps(INITIAL, steps);
    assert ThreadOk(After(INITIAL, steps), t, After(INITIAL, steps).threads[t]);
    assert ThreadOk(After(INITIAL, steps), u, After(INITIAL, steps).threads[u]);
  }

  /** From a free lock, a waiter that is not asleep and has news needs only two
      turns of its own to answer it. */
  lemma NewsIsAnswered(s: State, t: Tid)
    requires Inv(s) && s.holder.None? && t in s.threads && !s.threads[t].pc.Done?
    requires match s.threads[t].role
             case WaitChange(seen) => s.generation > seen
             case WaitEvent(seen, seenR) => s.generation > seen || s.refusals > seenR
             case _ => false
    ensures Enabled(s, Acquire(t)) && Enabled(Next(s, Acquire(t)), Test(t))
    ensures At(Next(Next(s, Acquire(t)), Test(t)), t, Done(s.generation, s.refusals))
  {
    assert ThreadOk(s, t, s.threads[t]);
  }
}
