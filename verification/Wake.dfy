/**
  The wake protocol: an install or a refusal moves a counter on the Rust side,
  one notifier thread per configuration sleeps on those counters, and any
  number of `changes()` / `events()` streams are woken through futures.

  One transition system serves both Python classes.  `EventNotifier` is the
  machine as written.  `Notifier` is the machine of kind `Changes`: a refusal
  wakes its thread like any `notify_all`, but its thread and its streams never
  look at the refusal counter, so the second counter read is a stutter.

  Every constructor of `Step` is one atomic action of the source: one region
  under a lock, or one read or write of a shared field outside any lock.
*/
module Wake {
  import opened Common

  type Future = nat
  type Stream = nat

  datatype Kind = Changes | Events

  /** What a future resolves with: the two counters and the number of the model
      read after them, counting writes of the Rust cache from 1. */
  datatype WakeUp = WakeUp(gen: nat, refs: nat, model: Option<nat>)

  /** The notifier thread: `seen`/`seenR` are the counters its last swap of the
      waiter list answered for. */
  datatype Thread =
    | Testing(seen: nat, seenR: nat)
    | Asleep(seen: nat, seenR: nat)
    | Reading(seen: nat, seenR: nat, gen: nat, refs: nat)
    | Resolving(seen: nat, seenR: nat, wake: WakeUp)
    | Delivering(seen: nat, seenR: nat, wake: WakeUp, batch: seq<Future>)

  // ── The fields a `Notifier` guards with its lock ────────────────────────

  datatype Notifier = Notifier(waiters: seq<Future>, thread: Option<Thread>)

  /** `wait`: append the future, start a thread from a baseline if none lives. */
  function Enqueue(n: Notifier, f: Future, baseline: nat, baselineR: nat): Notifier {
    Notifier(n.waiters + [f], if n.thread.Some? then n.thread else Some(Testing(baseline, baselineR)))
  }

  /** `_resolve_all`: swap the list for an empty one; the thread delivers the old one. */
  function TakeAll(n: Notifier, wake: WakeUp): Notifier {
    Notifier([], Some(Delivering(wake.gen, wake.refs, wake, n.waiters)))
  }

  /** The end of one turn of `_run`: die when nobody waits, else wait again. */
  function EndOfTurn(n: Notifier, seen: nat, seenR: nat): Notifier {
    n.(thread := if n.waiters == [] then None else Some(Testing(seen, seenR)))
  }

  /** The object itself: each method is one critical section of `_lock`. */
  class NotifierObject {
    var waiters: seq<Future>
    var thread: Option<Thread>

    function View(): Notifier
      reads this
    {
      Notifier(waiters, thread)
    }

    constructor ()
      ensures View() == Notifier([], None)
    {
      waiters := [];
      thread := None;
    }

    /** Nobody waits without a thread, and the thread has seen no more than the counters say. */
    ghost predicate Attended(generation: nat, refusals: nat)
      reads this
    {
      && (waiters != [] ==> thread.Some?)
      && (thread.Some? ==> thread.value.seen <= generation && thread.value.seenR <= refusals)
    }

    method Wait(f: Future, generation: nat, refusals: nat)
      requires Attended(generation, refusals)
      modifies this
      ensures View() == Enqueue(old(View()), f, generation, refusals)
      ensures Attended(generation, refusals) && thread.Some? && f in waiters && old(waiters) <= waiters
    {
      waiters := waiters + [f];
      StartLocked(generation, refusals);
    }

    /** A living thread is kept; a new one takes nothing past the baseline for seen. */
    method StartLocked(generation: nat, refusals: nat)
      modifies this`thread
      ensures thread.Some? && (old(thread).Some? ==> thread == old(thread))
      ensures old(thread).None? ==> thread.value == Testing(generation, refusals)
    {
      if thread.Some? {
        return;
      }
      thread := Some(Testing(generation, refusals));
    }

    /** Every waiter is handed to the thread, in order, and none is left behind. */
    method ResolveAll(wake: WakeUp)
      modifies this
      ensures View() == TakeAll(old(View()), wake)
      ensures thread.Some? && thread.value.Delivering? && thread.value.batch + waiters == old(waiters)
      ensures forall generation, refusals :: wake.gen <= generation && wake.refs <= refusals ==>
          Attended(generation, refusals)
    {
      var batch := waiters;
      waiters := [];
      thread := Some(Delivering(wake.gen, wake.refs, wake, batch));
    }

    /** The thread lives on exactly when somebody registered in the meantime. */
    method FinishTurn(seen: nat, seenR: nat)
      modifies this
      ensures View() == EndOfTurn(old(View()), seen, seenR)
      ensures waiters == old(waiters) && (thread.Some? <==> waiters != [])
      ensures forall generation, refusals :: seen <= generation && seenR <= refusals ==> Attended(generation, refusals)
    {
      if waiters == [] {
        thread := None;
        return;
      }
      thread := Some(Testing(seen, seenR));
    }
  }

  // ── The streams ─────────────────────────────────────────────────────────

  datatype Event = Refused(count: nat) | Reloaded(gen: nat, model: nat)

  datatype Pc =
    | Opening                                // generation read, refusals not yet
    | Ready                                  // about to call `wait`
    | HoldingLock(baseline: nat)             // inside `wait`, starting the thread
    | Registered(f: Future)                  // future in hand, nothing re-read yet
    | Rechecked(f: Future, now: nat)         // generation re-read, refusals not yet
    | Direct(now: nat, nowR: nat)            // a counter moved: future cancelled, model to be read
    | Parked(f: Future)                      // awaiting the future
    | Handling(wake: WakeUp, awaited: bool)  // the refusal half of a wake comes first
    | Installing(wake: WakeUp, awaited: bool)
    | Ended

  datatype Client = Client(pc: Pc, seen: nat, seenR: nat, events: seq<Event>)

  datatype State = State(
    kind: Kind,
    writes: nat,                 // the Rust cache holds model number `writes`
    wrote: set<nat>,             // installs that wrote the cache and not yet the generation
    bumped: set<nat>,            // installs whose publish hook has not run yet
    published: Option<nat>,      // `_cached`, written by that hook
    generation: nat,
    refusals: nat,
    starter: Option<Stream>,     // the stream holding `_lock` across the two baseline reads
    notifier: Notifier,
    nextFuture: nat,
    scheduled: map<Future, WakeUp>,
    clients: map<Stream, Client>)

  function Initial(kind: Kind): State {
    State(kind, 0, {}, {}, None, 0, 0, None, Notifier([], None), 0, map[], map[])
  }

  datatype Step =
    | WriteCache | Bump(i: nat) | Hook(i: nat) | Refuse
    | Open(c: Stream) | Opened(c: Stream) | TakeLock(c: Stream) | Register(c: Stream)
    | Recheck(c: Stream) | Decide(c: Stream) | ReadDirect(c: Stream) | Settle(c: Stream)
    | HandleRefusal(c: Stream) | HandleInstall(c: Stream) | Leave(c: Stream)
    | OtherWaiter
    | Test | Spurious | ReadModel | Swap | Deliver | FinishTurn

  predicate At(s: State, c: Stream, pc: Pc) { c in s.clients && s.clients[c].pc == pc }

  predicate Enabled(s: State, step: Step) {
    match step
    case WriteCache => true
    case Bump(i) => i in s.wrote
    case Hook(i) => i in s.bumped
    case Refuse => true
    case Open(c) => c !in s.clients
    case Opened(c) => c in s.clients && s.clients[c].pc.Opening?
    case TakeLock(c) => c in s.clients && s.clients[c].pc.Ready? && s.starter.None? && s.notifier.thread.None?
    case Register(c) =>
      c in s.clients &&
      ((s.clients[c].pc.Ready? && s.starter.None? && s.notifier.thread.Some?) || s.clients[c].pc.HoldingLock?)
    case Recheck(c) => c in s.clients && s.clients[c].pc.Registered?
    case Decide(c) => c in s.clients && s.clients[c].pc.Rechecked?
    case ReadDirect(c) => c in s.clients && s.clients[c].pc.Direct?
    case Settle(c) => c in s.clients && s.clients[c].pc.Parked? && s.clients[c].pc.f in s.scheduled
    case HandleRefusal(c) => c in s.clients && s.clients[c].pc.Handling?
    case HandleInstall(c) => c in s.clients && s.clients[c].pc.Installing?
    case Leave(c) => c in s.clients && !s.clients[c].pc.HoldingLock?
    case OtherWaiter => s.kind.Changes? && s.starter.None?
    case Test => s.notifier.thread.Some? && s.notifier.thread.value.Testing?
    case Spurious => s.notifier.thread.Some? && s.notifier.thread.value.Asleep?
    case ReadModel => s.notifier.thread.Some? && s.notifier.thread.value.Reading?
    case Swap => s.starter.None? && s.notifier.thread.Some? && s.notifier.thread.value.Resolving?
    case Deliver => s.notifier.thread.Some? && s.notifier.thread.value.Delivering? &&
        s.notifier.thread.value.batch != []
    case FinishTurn =>
      s.starter.None? && s.notifier.thread.Some? && s.notifier.thread.value.Delivering? &&
          s.notifier.thread.value.batch == []
  }

  /** `notify_all`, called with the generation lock held. */
  function NotifyAll(n: Notifier): Notifier {
    if n.thread.Some? && n.thread.value.Asleep?
    then n.(thread := Some(Testing(n.thread.value.seen, n.thread.value.seenR)))
    else n
  }

  /** The refusal counter as this kind of machine reads it. */
  function Watched(s: State): nat { if s.kind.Events? then s.refusals else 0 }

  function Current(s: State): Option<nat> { if s.writes == 0 then None else Some(s.writes) }

  /** Steps that only move stream `c` along its own program. */
  predicate IsStreamStep(step: Step) {
    step.Opened? || step.TakeLock? || step.Recheck? || step.Decide? || step.ReadDirect?
    || step.Settle? || step.HandleRefusal? || step.HandleInstall?
  }

  /** `changes` and `_events`, one atomic action at a time. */
  function Moved(s: State, step: Step): Client
    requires Enabled(s, step) && IsStreamStep(step)
  {
    var client := s.clients[step.c];
    match step
    case Opened(_) => client.(pc := Ready, seenR := Watched(s))
    case TakeLock(_) => client.(pc := HoldingLock(s.generation))
    case Recheck(_) => client.(pc := Rechecked(client.pc.f, s.generation))
    case Decide(_) =>
      if client.pc.now > client.seen || Watched(s) > client.seenR
      then client.(pc := Direct(client.pc.now, Watched(s)))
      else client.(pc := Parked(client.pc.f))
    case ReadDirect(_) =>
      var model := if client.pc.now > client.seen then s.published else None;
      client.(pc := Handling(WakeUp(client.pc.now, client.pc.nowR, model), false))
    case Settle(_) => client.(pc := Handling(s.scheduled[client.pc.f], true))
    case HandleRefusal(_) => AfterRefusal(client, client.pc.wake, client.pc.awaited)
    case HandleInstall(_) => AfterInstall(client, client.pc.wake)
  }

  function AfterRefusal(client: Client, wake: WakeUp, awaited: bool): Client {
    if wake.refs > client.seenR
    then Client(Installing(wake, awaited), client.seen, wake.refs, client.events + [Refused(wake.refs)])
    else client.(pc := Installing(wake, awaited))
  }

  function AfterInstall(client: Client, wake: WakeUp): Client {
    if wake.gen <= client.seen then client.(pc := Ready)
    else if wake.model.None? then client.(pc := Ended)
    else Client(Ready, wake.gen, client.seenR, client.events + [Reloaded(wake.gen, wake.model.value)])
  }

  function Next(s: State, step: Step): State
    requires Enabled(s, step)
  {
    if IsStreamStep(step) then
      s.(starter := if step.TakeLock? then Some(step.c) else s.starter,
         clients := s.clients[step.c := Moved(s, step)])
    else match step
    case WriteCache => s.(writes := s.writes + 1, wrote := s.wrote + {s.writes + 1})
    case Bump(i) =>
      s.(generation := s.generation + 1, wrote := s.wrote - {i}, bumped := s.bumped + {i},
         notifier := NotifyAll(s.notifier))
    case Hook(i) => s.(bumped := s.bumped - {i}, published := Some(i))
    case Refuse => s.(refusals := s.refusals + 1, notifier := NotifyAll(s.notifier))
    case Open(c) => s.(clients := s.clients[c := Client(Opening, s.generation, 0, [])])
    case Register(c) =>
      var client := s.clients[c];
      var baseline := if client.pc.HoldingLock? then client.pc.baseline else s.generation;
      s.(notifier := Enqueue(s.notifier, s.nextFuture, baseline, Watched(s)),
         starter := None, nextFuture := s.nextFuture + 1,
         clients := s.clients[c := client.(pc := Registered(s.nextFuture))])
    case Leave(c) => s.(clients := map k | k in s.clients && k != c :: s.clients[k])
    case OtherWaiter =>
      s.(notifier := Enqueue(s.notifier, s.nextFuture, s.generation, Watched(s)), nextFuture := s.nextFuture + 1)
    case Test =>
      var t := s.notifier.thread.value;
      s.(notifier := s.notifier.(thread := Some(
         if s.generation <= t.seen && Watched(s) <= t.seenR then Asleep(t.seen, t.seenR)
         else Reading(t.seen, t.seenR, s.generation, Watched(s)))))
    case Spurious =>
      var t := s.notifier.thread.value;
      s.(notifier := s.notifier.(thread := Some(Testing(t.seen, t.seenR))))
    case ReadModel =>
      var t := s.notifier.thread.value;
      var model := if t.gen > t.seen then Current(s) else None;
      s.(notifier := s.notifier.(thread := Some(Resolving(t.seen, t.seenR, WakeUp(t.gen, t.refs, model)))))
    case Swap => s.(notifier := TakeAll(s.notifier, s.notifier.thread.value.wake))
    case Deliver =>
      var t := s.notifier.thread.value;
      s.(notifier := s.notifier.(thread := Some(t.(batch := t.batch[1..]))),
         scheduled := s.scheduled[t.batch[0] := t.wake])
    case FinishTurn =>
      var t := s.notifier.thread.value;
      s.(notifier := EndOfTurn(s.notifier, t.seen, t.seenR))
  }

  // ── The invariant ───────────────────────────────────────────────────────

  /** A wake reports counters that were reached, and its model was written to
      the cache no earlier than the install it is reported for. */
  predicate WakeOk(s: State, w: WakeUp) {
    && w.gen <= s.generation && w.refs <= Watched(s)
    && (w.model.Some? ==> w.gen <= w.model.value <= s.writes)
  }

  /** A wake with no model reports no install past `now`. */
  predicate NoNewsPast(w: WakeUp, now: nat) { w.model.None? ==> w.gen <= now }

  predicate ThreadOk(s: State, t: Thread) {
    && t.seen <= s.generation && t.seenR <= Watched(s)
    && (t.Asleep? ==> s.generation <= t.seen && Watched(s) <= t.seenR)
    && (t.Reading? ==>
          && t.seen <= t.gen <= s.generation && t.seenR <= t.refs <= Watched(s)
          && (t.seen < t.gen || t.seenR < t.refs))
    && (t.Resolving? ==>
          && WakeOk(s, t.wake) && t.seen <= t.wake.gen && t.seenR <= t.wake.refs && NoNewsPast(t.wake, t.seen))
    && (t.Delivering? ==>
          && WakeOk(s, t.wake) && t.wake.gen == t.seen && t.wake.refs == t.seenR
          && forall f <- t.batch :: f < s.nextFuture)
  }

  predicate InBatch(s: State, f: Future) {
    s.notifier.thread.Some? && s.notifier.thread.value.Delivering? && f in s.notifier.thread.value.batch
  }

  /** Where a live future is, and why the thread cannot sleep past its owner:
      the owner has re-read (or will re-read) the generation as `now`. */
  predicate Covered(s: State, f: Future, now: nat) {
    && f < s.nextFuture
    && (f in s.notifier.waiters || InBatch(s, f) || f in s.scheduled)
    && (f in s.notifier.waiters ==> s.notifier.thread.Some? && s.notifier.thread.value.seen <= now)
    && (InBatch(s, f) ==> NoNewsPast(s.notifier.thread.value.wake, now))
    && (f in s.scheduled ==> NoNewsPast(s.scheduled[f], now))
  }

  predicate EventsOk(client: Client) {
    && (forall i, j :: 0 <= i < j < |client.events| && client.events[i].Reloaded? && client.events[j].Reloaded?
          ==> client.events[i].gen < client.events[j].gen)
    && (forall i, j :: 0 <= i < j < |client.events| && client.events[i].Refused? && client.events[j].Refused?
          ==> client.events[i].count < client.events[j].count)
    && (forall e <- client.events :: if e.Reloaded? then 0 < e.gen <= client.seen else 0 < e.count <= client.seenR)
  }

  predicate PcOk(s: State, c: Stream, client: Client) {
    match client.pc
    case Opening => client.seenR == 0 && client.events == []
    case Ready => true
    case HoldingLock(baseline) => s.starter == Some(c) && baseline <= s.generation
    case Registered(f) => Covered(s, f, s.generation)
    case Rechecked(f, now) => now <= s.generation && Covered(s, f, now)
    case Direct(now, nowR) => now <= s.generation && nowR <= Watched(s)
    case Parked(f) =>
      && Covered(s, f, client.seen)
      && (f in s.notifier.waiters ==> s.notifier.thread.value.seenR <= client.seenR)
    case Handling(w, awaited) => HandlingOk(s, client, w, awaited)
    case Installing(w, awaited) => HandlingOk(s, client, w, awaited) && w.refs <= client.seenR
    case Ended => true
  }

  predicate HandlingOk(s: State, client: Client, w: WakeUp, awaited: bool) {
    && w.gen <= s.generation && w.refs <= Watched(s)
    && (awaited ==> WakeOk(s, w) && NoNewsPast(w, client.seen))
  }

  predicate ClientOk(s: State, c: Stream, client: Client) {
    && client.seen <= s.generation && client.seenR <= Watched(s)
    && EventsOk(client)
    && PcOk(s, c, client)
  }

  predicate CountersOk(s: State) {
    && |s.wrote| + s.generation == s.writes
    && (forall i <- s.wrote :: 0 < i <= s.writes)
    && (forall i <- s.bumped :: 0 < i <= s.writes)
    && (s.published.Some? ==> 0 < s.published.value <= s.writes)
  }

  predicate LockOk(s: State) {
    && (s.starter.Some? ==>
          && s.notifier.thread.None?
          && s.starter.value in s.clients && s.clients[s.starter.value].pc.HoldingLock?)
    && (s.notifier.thread.None? ==> s.notifier.waiters == [])
    && (forall f <- s.notifier.waiters :: f < s.nextFuture)
    && (forall f <- s.scheduled :: f < s.nextFuture && WakeOk(s, s.scheduled[f]))
    && (s.notifier.thread.Some? ==> ThreadOk(s, s.notifier.thread.value))
  }

  predicate Inv(s: State) {
    && CountersOk(s)
    && LockOk(s)
    && forall c <- s.clients :: ClientOk(s, c, s.clients[c])
  }
}
