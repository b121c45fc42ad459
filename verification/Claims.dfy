/**
  `Inner::commit` under every interleaving: any number of loads, commit
  attempts and replacements, each cut at its atomic actions.  The claim is a
  `fetch_max` taken while the staged slot is locked; the re-validating arm
  takes none.  `load()` looks at the slot after its validation, and hands back
  what it finds there.
*/
module Claims {
  import opened Common
  import opened Publication

  type Tid = nat

  /** What a validation is for: a load inside the engine (`init`, `reload`,
      `prepare`), `load()`, its second try, or the re-validating arm of `commit`. */
  datatype Why = Engine | Loading | LoadingAgain | Committing

  /** Where one call is. */
  datatype Pc =
    | Attempting(tree: Tree)                  // `commit`, at the staged lock
    | Asking(tree: Tree, why: Why)            // `validate`, schema not yet answered
    | Sequenced(sequence: nat, why: Why)      // numbered, not yet staged
    | Checking(tree: Tree)                    // `load()`, comparing the slot with its tree
    | Taking(tree: Tree)                      // `load()` after its second try, about to read the slot
    | Answered(tree: Tree, model: Model)      // `load()` of `tree` handed `model` back
    | Rereading(tree: Tree)                   // re-validated, about to read the slot again
    | Raising(sequence: nat, model: Model)    // about to `fetch_max` again
    | Caching(model: Model)                   // about to write the cache
    | Bumping                                 // about to move the generation
    | Done

  /** `issued`, `claims`, `retries` and `replaced` are history: what each sequence
      number validated, which call won which number in order, how many publications
      came from the re-validating arm, and the models handed to `replace`. */
  datatype State = State(
    staged: Option<Staged>, nextSequence: nat, lastCommitted: nat, cache: Option<Model>, generation: nat,
    calls: map<Tid, Pc>, issued: map<nat, (Tree, Model)>, replaced: set<Model>, claims: seq<(Tid, nat)>,
    retries: nat, replacements: nat)

  const INITIAL := State(None, 0, 0, None, 0, map[], map[], {}, [], 0, 0)

  datatype Step =
    | StartValidation(t: Tid, tree: Tree) | StartLoad(t: Tid, tree: Tree)
    | StartCommit(t: Tid, tree: Tree) | StartReplace(t: Tid, model: Model)
    | Attempt(t: Tid) | Ask(t: Tid, answer: Answer) | Stage(t: Tid) | Reread(t: Tid)
    | Check(t: Tid) | TakeStaged(t: Tid)
    | Raise(t: Tid) | WriteCache(t: Tid) | Bump(t: Tid)

  predicate Starts(step: Step) {
    step.StartValidation? || step.StartLoad? || step.StartCommit? || step.StartReplace?
  }

  predicate Enabled(s: State, step: Step) {
    if Starts(step) then step.t !in s.calls
    else step.t in s.calls &&
         match step
         case Attempt(t) => s.calls[t].Attempting?
         case Ask(t, _) => s.calls[t].Asking?
         case Stage(t) => s.calls[t].Sequenced? && s.calls[t].sequence in s.issued
         case Reread(t) => s.calls[t].Rereading?
         case Check(t) => s.calls[t].Checking?
         case TakeStaged(t) => s.calls[t].Taking?
         case Raise(t) => s.calls[t].Raising?
         case WriteCache(t) => s.calls[t].Caching?
         case _ => s.calls[step.t].Bumping?
  }

  predicate Matching(s: State, tree: Tree) { s.staged.Some? && s.staged.value.tree == tree }

  /** The matching arm passes its test: this call claims the staged sequence. */
  predicate Wins(s: State, tree: Tree) { Matching(s, tree) && s.lastCommitted < s.staged.value.sequence }

  function Goto(s: State, t: Tid, pc: Pc): State { s.(calls := s.calls[t := pc]) }

  function Next(s: State, step: Step): State
    requires Enabled(s, step)
  {
    match step
    case StartValidation(t, tree) => Goto(s, t, Asking(tree, Engine))
    case StartLoad(t, tree) => Goto(s, t, Asking(tree, Loading))
    case StartCommit(t, tree) => Goto(s, t, Attempting(tree))
    case StartReplace(t, model) =>
      Goto(s.(replaced := s.replaced + {model}, replacements := s.replacements + 1), t, Caching(model))
    case Attempt(t) =>
      var tree := s.calls[t].tree;
      if Wins(s, tree) then
        Goto(s.(lastCommitted := s.staged.value.sequence, claims := s.claims + [(t, s.staged.value.sequence)]),
             t, Raising(s.staged.value.sequence, s.staged.value.model))
      else if Matching(s, tree) then Goto(s, t, Done)
      else Goto(s, t, Asking(tree, Committing))
    case Ask(t, answer) =>
      if answer.Refusal? then Goto(s, t, Done)
      else
        var q := s.nextSequence + 1;
        Goto(s.(nextSequence := q, issued := s.issued[q := (s.calls[t].tree, answer.model)]),
             t, Sequenced(q, s.calls[t].why))
    case Stage(t) =>
      var Sequenced(q, why) := s.calls[t];
      var (tree, model) := s.issued[q];
      Goto(s.(staged := Some(Staged(q, tree, model))), t,
           match why
           case Engine => Done
           case Loading => Checking(tree)
           case LoadingAgain => Taking(tree)
           case Committing => Rereading(tree))
    case Check(t) =>
      var tree := s.calls[t].tree;
      Goto(s, t, if Matching(s, tree) then Answered(tree, s.staged.value.model) else Asking(tree, LoadingAgain))
    case TakeStaged(t) =>
      Goto(s, t, if s.staged.Some? then Answered(s.calls[t].tree, s.staged.value.model) else Done)
    case Reread(t) =>
      if s.staged.None? then Goto(s, t, Done)
      else Goto(s.(retries := s.retries + 1), t, Raising(s.staged.value.sequence, s.staged.value.model))
    case Raise(t) =>
      Goto(s.(lastCommitted := Max(s.lastCommitted, s.calls[t].sequence)), t, Caching(s.calls[t].model))
    case WriteCache(t) => Goto(s.(cache := Some(s.calls[t].model)), t, Bumping)
    case Bump(t) => Goto(s.(generation := s.generation + 1), t, Done)
  }

  /** `model` came out of the validation numbered `q`. */
  predicate Issued(s: State, q: nat, model: Model) { q in s.issued && s.issued[q].1 == model }

  predicate Validated(s: State, model: Model) { exists q <- s.issued :: s.issued[q].1 == model }

  /** `model` was produced by a successful validation or handed to `replace`. */
  predicate Legitimate(s: State, model: Model) { model in s.replaced || Validated(s, model) }

  predicate CallOk(s: State, pc: Pc) {
    match pc
    case Sequenced(q, _) => q in s.issued
    case Raising(q, model) => Issued(s, q, model)
    case Caching(model) => Legitimate(s, model)
    case Answered(_, model) => Validated(s, model)
    case _ => true
  }

  predicate SlotsOk(s: State) {
    && s.lastCommitted <= s.nextSequence
    && (forall q <- s.issued :: 0 < q <= s.nextSequence)
    && (s.staged.Some? ==> var p := s.staged.value; p.sequence in s.issued && s.issued[p.sequence] == (p.tree, p.model))
    && (s.cache.Some? ==> Legitimate(s, s.cache.value))
  }

  predicate ClaimsOk(s: State) {
    && (forall i, j :: 0 <= i < j < |s.claims| ==> s.claims[i].1 < s.claims[j].1)
    && (forall claim <- s.claims :: claim.1 <= s.lastCommitted)
  }

  predicate Inv(s: State) {
    SlotsOk(s) && ClaimsOk(s) && forall t <- s.calls :: CallOk(s, s.calls[t])
  }

  // ── Every step, every run ───────────────────────────────────────────────

  lemma LegitimateGrows(s: State, s': State, model: Model)
    requires Legitimate(s, model) && s.replaced <= s'.replaced
    requires forall q <- s.issued :: q in s'.issued && s'.issued[q] == s.issued[q]
    ensures Legitimate(s', model) && (Validated(s, model) ==> Validated(s', model))
  {
    if Validated(s, model) {
      var q :| q in s.issued && s.issued[q].1 == model;
      assert q in s'.issued && s'.issued[q].1 == model;
    }
  }

  lemma MoverKeeps(s: State, step: Step)
    requires Inv(s) && Enabled(s, step)
    ensures CallOk(Next(s, step), Next(s, step).calls[step.t])
  {
    if step.t in s.calls { assert CallOk(s, s.calls[step.t]); }
    if step.Raise? { assert s.issued[s.calls[step.t].sequence].1 == s.calls[step.t].model; }
    if s.staged.Some? { assert s.issued[s.staged.value.sequence].1 == s.staged.value.model; }
  }

  lemma ClaimsKeep(s: State, step: Step)
    requires Inv(s) && Enabled(s, step)
    ensures ClaimsOk(Next(s, step)) && s.claims <= Next(s, step).claims
    ensures s.lastCommitted <= Next(s, step).lastCommitted
  {
    var s' := Next(s, step);
    if step.Attempt? && Wins(s, s.calls[step.t].tree) {
      forall i, j | 0 <= i < j < |s'.claims| ensures s'.claims[i].1 < s'.claims[j].1 {
        if j == |s.claims| { assert s.claims[i] in s.claims; }
      }
    }
  }

  lemma HistoryGrows(s: State, step: Step)
    requires Inv(s) && Enabled(s, step)
    ensures s.replaced <= Next(s, step).replaced
    ensures forall q <- s.issued :: q in Next(s, step).issued && Next(s, step).issued[q] == s.issued[q]
  {
  }

  lemma SlotsKeep(s: State, step: Step)
    requires Inv(s) && Enabled(s, step)
    ensures SlotsOk(Next(s, step))
  {
    var s' := Next(s, step);
    HistoryGrows(s, step);
    if step.t in s.calls { assert CallOk(s, s.calls[step.t]); }
    if step.WriteCache? {
      LegitimateGrows(s, s', s.calls[step.t].model);
    } else if s.cache.Some? {
      LegitimateGrows(s, s', s.cache.value);
    }
  }

  lemma StepKeeps(s: State, step: Step)
    requires Inv(s) && Enabled(s, step)
    ensures Inv(Next(s, step))
    ensures s.lastCommitted <= Next(s, step).lastCommitted && s.claims <= Next(s, step).claims
  {
    var s' := Next(s, step);
    SlotsKeep(s, step);
    ClaimsKeep(s, step);
    MoverKeeps(s, step);
    HistoryGrows(s, step);
    forall t | t in s'.calls && t != step.t ensures CallOk(s', s'.calls[t]) {
      assert s'.calls[t] == s.calls[t] && CallOk(s, s.calls[t]);
      if s.calls[t].Caching? || s.calls[t].Answered? { LegitimateGrows(s, s', s.calls[t].model); }
    }
  }

  predicate IsRun(s: State, steps: seq<Step>)
    decreases |steps|
  {
    steps == [] || (Enabled(s, steps[0]) && IsRun(Next(s, steps[0]), steps[1..]))
  }

  function After(s: State, steps: seq<Step>): State
    requires IsRun(s, steps)
    decreases |steps|
  {
    if steps == [] then s else After(Next(s, steps[0]), steps[1..])
  }

  lemma {:induction false} RunKeeps(s: State, steps: seq<Step>)
    requires Inv(s) && IsRun(s, steps)
    ensures Inv(After(s, steps))
    ensures s.lastCommitted <= After(s, steps).lastCommitted
    ensures s.claims <= After(s, steps).claims
    decreases |steps|
  {
    if steps != [] {
      StepKeeps(s, steps[0]);
      RunKeeps(Next(s, steps[0]), steps[1..]);
    }
  }

  /** Under every interleaving: no sequence number is claimed twice, the claimed
      numbers are bounded by `last_committed` and it by the numbers handed out. */
  lemma ClaimedAtMostOnce(steps: seq<Step>, i: nat, j: nat)
    requires IsRun(INITIAL, steps)
    ensures var s := After(INITIAL, steps);
            && s.lastCommitted <= s.nextSequence
            && (i < |s.claims| && j < |s.claims| && s.claims[i].1 == s.claims[j].1 ==> i == j)
            && (i < |s.claims| ==> s.claims[i].1 <= s.lastCommitted)
  {
    RunKeeps(INITIAL, steps);
    var s := After(INITIAL, steps);
    if i < |s.claims| { assert s.claims[i] in s.claims; }
  }

  /** Every model ever cached passed the schema or was handed to `replace`. */
  lemma CachedIsLegitimate(steps: seq<Step>)
    requires IsRun(INITIAL, steps) && After(INITIAL, steps).cache.Some?
    ensures Legitimate(After(INITIAL, steps), After(INITIAL, steps).cache.value)
  {
    RunKeeps(INITIAL, steps);
  }

  // ── What a load cannot do ───────────────────────────────────────────────

  /** Where a call is that only validates: a load of the engine's, or `load()`. */
  predicate OnlyValidates(pc: Pc) {
    match pc
    case Asking(_, why) => !why.Committing?
    case Sequenced(_, why) => !why.Committing?
    case _ => pc.Checking? || pc.Taking? || pc.Answered? || pc.Done?
  }

  /** A load never claims, never publishes and never moves the generation, however
      the schema answers it and whatever the others do. */
  lemma {:induction false} LoadsNeverPublish(s: State, steps: seq<Step>, t: Tid)
    requires t in s.calls && OnlyValidates(s.calls[t]) && IsRun(s, steps)
    ensures t in After(s, steps).calls && OnlyValidates(After(s, steps).calls[t])
    ensures t !in InFlight(After(s, steps))
    ensures (forall claim <- s.claims :: claim.0 != t) ==> forall claim <- After(s, steps).claims :: claim.0 != t
    decreases |steps|
  {
    if steps != [] {
      var s' := Next(s, steps[0]);
      assert t in s'.calls && OnlyValidates(s'.calls[t]);
      LoadsNeverPublish(s', steps[1..], t);
    }
  }

  /** The calls `load()` and the engine's loads start. */
  lemma LoadsStartValidating(s: State, step: Step)
    requires Enabled(s, step) && (step.StartLoad? || step.StartValidation?)
    ensures OnlyValidates(Next(s, step).calls[step.t])
  {
  }

  lemma {:induction false} DoneIsDone(s: State, steps: seq<Step>, t: Tid)
    requires t in s.calls && s.calls[t].Done? && IsRun(s, steps)
    ensures t in After(s, steps).calls && After(s, steps).calls[t].Done?
    decreases |steps|
  {
    if steps != [] { DoneIsDone(Next(s, steps[0]), steps[1..], t); }
  }

  /** Nor can a call whose tree the schema refuses, a commit that validates again
      included: it changes nothing then and nothing ever after. */
  lemma RefusedCallPublishesNothing(s: State, steps: seq<Step>, t: Tid)
    requires Enabled(s, Ask(t, Refusal)) && IsRun(Next(s, Ask(t, Refusal)), steps)
    ensures Next(s, Ask(t, Refusal)).(calls := s.calls) == s
    ensures t in After(Next(s, Ask(t, Refusal)), steps).calls && t !in InFlight(After(Next(s, Ask(t, Refusal)), steps))
  {
    DoneIsDone(Next(s, Ask(t, Refusal)), steps, t);
  }

  // ── What a publication serves ───────────────────────────────────────────

  predicate NoneOf(steps: seq<Step>, t: Tid) { forall step <- steps :: step.t != t }

  lemma {:induction false} OthersKeepCall(s: State, steps: seq<Step>, t: Tid)
    requires t in s.calls && IsRun(s, steps) && NoneOf(steps, t)
    ensures t in After(s, steps).calls && After(s, steps).calls[t] == s.calls[t]
    decreases |steps|
  {
    if steps != [] {
      assert steps[0] in steps && forall step <- steps[1..] :: step in steps;
      OthersKeepCall(Next(s, steps[0]), steps[1..], t);
    }
  }

  /** A call about to write `model` writes that model, whatever others do before,
      and moves the generation by one, whatever they do in between. */
  lemma CachingServes(s: State, t: Tid, model: Model, before: seq<Step>, between: seq<Step>)
    requires t in s.calls && s.calls[t] == Caching(model) && IsRun(s, before) && NoneOf(before, t)
    ensures Enabled(After(s, before), WriteCache(t))
    ensures var s1 := Next(After(s, before), WriteCache(t));
            && s1.cache == Some(model)
            && (IsRun(s1, between) && NoneOf(between, t) ==>
                  var s2 := After(s1, between);
                  Enabled(s2, Bump(t)) && Next(s2, Bump(t)).generation == s2.generation + 1)
  {
    OthersKeepCall(s, before, t);
    var s1 := Next(After(s, before), WriteCache(t));
    if IsRun(s1, between) && NoneOf(between, t) { OthersKeepCall(s1, between, t); }
  }

  /** `replace` serves the very model it was handed. */
  lemma ReplacementIsServed(s: State, t: Tid, model: Model, before: seq<Step>)
    requires Enabled(s, StartReplace(t, model)) && IsRun(Next(s, StartReplace(t, model)), before) && NoneOf(before, t)
    ensures var s1 := After(Next(s, StartReplace(t, model)), before);
            Enabled(s1, WriteCache(t)) && Next(s1, WriteCache(t)).cache == Some(model)
  {
    CachingServes(Next(s, StartReplace(t, model)), t, model, before, []);
  }

  /** And a commit that claims a number serves the model staged under it, having
      seen to it that no lower one is claimed later. */
  lemma ClaimIsServed(s: State, t: Tid, before: seq<Step>, between: seq<Step>)
    requires Inv(s) && Enabled(s, Attempt(t)) && Wins(s, s.calls[t].tree)
    requires IsRun(Next(s, Attempt(t)), before) && NoneOf(before, t)
    ensures var s1 := After(Next(s, Attempt(t)), before);
            && Enabled(s1, Raise(t))
            && (IsRun(Next(s1, Raise(t)), between) && NoneOf(between, t) ==>
                  var s2 := After(Next(s1, Raise(t)), between);
                  && Enabled(s2, WriteCache(t)) && s2.lastCommitted >= s.staged.value.sequence
                  && Next(s2, WriteCache(t)).cache == Some(s.staged.value.model))
  {
    var s0 := Next(s, Attempt(t));
    OthersKeepCall(s0, before, t);
    StepKeeps(s, Attempt(t));
    RunKeeps(s0, before);
    var s1 := After(s0, before);
    var s1' := Next(s1, Raise(t));
    StepKeeps(s1, Raise(t));
    if IsRun(s1', between) && NoneOf(between, t) {
      RunKeeps(s1', between);
      CachingServes(s1', t, s.staged.value.model, between, []);
    }
  }

  // ── Generations, counted ────────────────────────────────────────────────

  /** Calls that will move the generation and have not yet. */
  function InFlight(s: State): set<Tid> {
    set t <- s.calls | s.calls[t].Raising? || s.calls[t].Caching? || s.calls[t].Bumping?
  }

  predicate Accounted(s: State) {
    s.generation + |InFlight(s)| == |s.claims| + s.retries + s.replacements
  }

  function One(b: bool): nat { if b then 1 else 0 }

  lemma SplitOff(calls: set<Tid>, t: Tid)
    ensures |calls| == |calls - {t}| + One(t in calls)
  {
    if t in calls { assert calls == calls - {t} + {t}; } else { assert calls == calls - {t}; }
  }

  lemma OthersStand(s: State, s': State, t: Tid, pc: Pc)
    requires s'.calls == s.calls[t := pc]
    ensures InFlight(s') - {t} == InFlight(s) - {t}
    ensures t in InFlight(s') <==> pc.Raising? || pc.Caching? || pc.Bumping?
  {
  }

  /** Only the call that moves can enter or leave the count. */
  lemma OneMoves(s: State, s': State, t: Tid, pc: Pc)
    requires s'.calls == s.calls[t := pc]
    ensures |InFlight(s')| + One(t in InFlight(s)) == |InFlight(s)| + One(t in InFlight(s'))
  {
    OthersStand(s, s', t, pc);
    SplitOff(InFlight(s), t);
    SplitOff(InFlight(s'), t);
  }

  lemma AccountingKeeps(s: State, step: Step)
    requires Accounted(s) && Enabled(s, step)
    ensures Accounted(Next(s, step))
  {
    var s' := Next(s, step);
    OneMoves(s, s', step.t, s'.calls[step.t]);
  }

  lemma {:induction false} RunAccounts(s: State, steps: seq<Step>)
    requires Accounted(s) && IsRun(s, steps)
    ensures Accounted(After(s, steps))
    decreases |steps|
  {
    if steps != [] {
      AccountingKeeps(s, steps[0]);
      RunAccounts(Next(s, steps[0]), steps[1..]);
    }
  }

  /** With every call finished, each claimed sequence number moved the generation
      exactly once, and every further move came from `replace` or from the
      re-validating arm: one per validation exactly when that arm never ran. */
  lemma GenerationsAreClaims(steps: seq<Step>)
    requires IsRun(INITIAL, steps) && InFlight(After(INITIAL, steps)) == {}
    ensures var s := After(INITIAL, steps);
            && s.generation == |s.claims| + s.retries + s.replacements
            && (s.generation == |s.claims| + s.replacements <==> s.retries == 0)
  {
    assert InFlight(INITIAL) == {};
    RunAccounts(INITIAL, steps);
  }

  // ── The second commit attempt of one install ────────────────────────────

  /** What the first attempt leaves: its tree staged, its number claimed. */
  predicate Settled(s: State, tree: Tree) { Matching(s, tree) && s.lastCommitted >= s.staged.value.sequence }

  /** The one step that can unsettle: staging another tree, or a number not yet claimed past. */
  predicate Harmless(s: State, step: Step, tree: Tree)
    requires Enabled(s, step)
  {
    step.Stage? ==> var q := s.calls[step.t].sequence; s.issued[q].0 == tree && q <= s.lastCommitted
  }

  lemma SettledStepIff(s: State, step: Step, tree: Tree)
    requires Settled(s, tree) && Enabled(s, step)
    ensures Settled(Next(s, step), tree) <==> Harmless(s, step, tree)
  {
  }

  /** The second attempt for an install ends at once, publishing nothing, if and
      only if the slot is still settled for its tree, whatever ran in between. */
  lemma SecondAttemptIff(s: State, tree: Tree, between: seq<Step>, t: Tid)
    requires IsRun(s, between) && t in After(s, between).calls && After(s, between).calls[t] == Attempting(tree)
    ensures var s' := After(s, between);
            Next(s', Attempt(t)) == Goto(s', t, Done) <==> Settled(s', tree)
  {
    var s' := After(s, between);
    assert Goto(s', t, Done).calls[t] == Done;
    if Matching(s', tree) && !Settled(s', tree) { assert Next(s', Attempt(t)).calls[t].Raising?; }
    if !Matching(s', tree) { assert Next(s', Attempt(t)).calls[t].Asking?; }
  }

  predicate AllHarmless(s: State, steps: seq<Step>, tree: Tree)
    requires IsRun(s, steps)
    decreases |steps|
  {
    steps == [] || (Harmless(s, steps[0], tree) && AllHarmless(Next(s, steps[0]), steps[1..], tree))
  }

  /** As long as every staging in between is harmless, a second attempt for the
      same install publishes nothing, whatever else runs. */
  lemma {:induction false} SecondAttemptIsSilent(s: State, tree: Tree, between: seq<Step>, t: Tid)
    requires Settled(s, tree) && IsRun(s, between) && AllHarmless(s, between, tree)
    requires t in After(s, between).calls && After(s, between).calls[t] == Attempting(tree)
    ensures Next(After(s, between), Attempt(t)) == Goto(After(s, between), t, Done)
    decreases |between|
  {
    if between != [] {
      SettledStepIff(s, between[0], tree);
      SecondAttemptIsSilent(Next(s, between[0]), tree, between[1..], t);
    }
  }

  /** If the second attempt meets an unsettled slot, some staging in between was
      not harmless: the first such one. */
  lemma {:induction false} FirstHarm(s: State, tree: Tree, between: seq<Step>) returns (k: nat)
    requires Settled(s, tree) && IsRun(s, between) && !Settled(After(s, between), tree)
    ensures k < |between| && IsRun(s, between[..k]) && Settled(After(s, between[..k]), tree)
    ensures Enabled(After(s, between[..k]), between[k]) && !Harmless(After(s, between[..k]), between[k], tree)
    decreases |between|
  {
    var s1 := Next(s, between[0]);
    SettledStepIff(s, between[0], tree);
    if Settled(s1, tree) {
      var rest := FirstHarm(s1, tree, between[1..]);
      k := rest + 1;
      assert between[..k][0] == between[0] && between[..k][1..] == between[1..][..rest];
    } else {
      k := 0;
      assert between[..0] == [];
    }
  }

  ghost predicate Reachable(s: State) { exists steps :: IsRun(INITIAL, steps) && After(INITIAL, steps) == s }

  lemma {:induction false} RunAppend(s: State, steps: seq<Step>, step: Step)
    requires IsRun(s, steps) && Enabled(After(s, steps), step)
    ensures IsRun(s, steps + [step]) && After(s, steps + [step]) == Next(After(s, steps), step)
    decreases |steps|
  {
    if steps == [] {
      assert IsRun(Next(s, step), []);
    } else {
      RunAppend(Next(s, steps[0]), steps[1..], step);
      assert (steps + [step])[1..] == steps[1..] + [step];
    }
  }

  lemma Take(s: State, step: Step) returns (s': State)
    requires Reachable(s) && Enabled(s, step)
    ensures Reachable(s') && s' == Next(s, step)
  {
    var steps :| IsRun(INITIAL, steps) && After(INITIAL, steps) == s;
    RunAppend(INITIAL, steps, step);
    s' := Next(s, step);
  }

  function AfterStage(why: Why, tree: Tree): Pc {
    match why
    case Engine => Done
    case Loading => Checking(tree)
    case LoadingAgain => Taking(tree)
    case Committing => Rereading(tree)
  }

  /** A validation under way, up to its staged model. */
  lemma StageRun(s: State, t: Tid, model: Model) returns (s': State)
    requires Reachable(s) && t in s.calls && s.calls[t].Asking?
    ensures Reachable(s')
    ensures var q, Asking(tree, why) := s.nextSequence + 1, s.calls[t];
            s' == s.(nextSequence := q, issued := s.issued[q := (tree, model)], staged := Some(Staged(q, tree, model)),
                     calls := s.calls[t := AfterStage(why, tree)])
  {
    s' := Take(s, Ask(t, Instance(model)));
    s' := Take(s', Stage(t));
    assert s'.calls == s.calls[t := s'.calls[t]];
  }

  /** The engine's load of `tree`, up to its staged model. */
  lemma ValidationRun(s: State, t: Tid, tree: Tree, model: Model) returns (s': State)
    requires Reachable(s) && t !in s.calls
    ensures Reachable(s')
    ensures var q := s.nextSequence + 1;
            s' == s.(nextSequence := q, issued := s.issued[q := (tree, model)],
                     staged := Some(Staged(q, tree, model)), calls := s.calls[t := Done])
  {
    s' := Take(s, StartValidation(t, tree));
    s' := StageRun(s', t, model);
    assert s'.calls == s.calls[t := Done];
  }

  lemma BeginLoad(s: State, t: Tid, tree: Tree) returns (s': State)
    requires Reachable(s) && t !in s.calls
    ensures Reachable(s') && s' == Goto(s, t, Asking(tree, Loading))
  {
    s' := Take(s, StartLoad(t, tree));
  }

  lemma CheckRun(s: State, t: Tid) returns (s': State)
    requires Reachable(s) && t in s.calls && s.calls[t].Checking? && Matching(s, s.calls[t].tree)
    ensures Reachable(s') && s' == Goto(s, t, Answered(s.calls[t].tree, s.staged.value.model))
  {
    s' := Take(s, Check(t));
  }

  lemma WroteOver(calls: map<Tid, Pc>, t: Tid, first: Pc, second: Pc)
    ensures calls[t := first][t := second] == calls[t := second]
  {
  }

  /** A whole `load()` of `tree` that nothing overlaps. */
  lemma LoadRun(s: State, t: Tid, tree: Tree, model: Model) returns (s': State)
    requires Reachable(s) && t !in s.calls
    ensures Reachable(s')
    ensures var q := s.nextSequence + 1;
            s' == s.(nextSequence := q, issued := s.issued[q := (tree, model)],
                     staged := Some(Staged(q, tree, model)), calls := s.calls[t := Answered(tree, model)])
  {
    s' := BeginLoad(s, t, tree);
    s' := StageRun(s', t, model);
    WroteOver(s.calls, t, Asking(tree, Loading), Checking(tree));
    s' := CheckRun(s', t);
    WroteOver(s.calls, t, Checking(tree), Answered(tree, model));
  }

  /** A call about to publish runs to its end. */
  lemma PublishRun(s: State, t: Tid) returns (s': State)
    requires Reachable(s) && t in s.calls && s.calls[t].Raising?
    ensures Reachable(s')
    ensures s' == s.(lastCommitted := Max(s.lastCommitted, s.calls[t].sequence), cache := Some(s.calls[t].model),
                     generation := s.generation + 1, calls := s.calls[t := Done])
  {
    s' := Take(s, Raise(t));
    s' := Take(s', WriteCache(t));
    s' := Take(s', Bump(t));
    assert s'.calls == s.calls[t := Done];
  }

  /** One validation of tree 1 by one reload, its two commit attempts, and one
      overlapping `load()` of tree 2: the reload moves the generation twice. */
  lemma OverlappingLoadPublishesTwice() returns (s: State)
    ensures Reachable(s) && InFlight(s) == {}
    ensures s.generation == 2 && |s.claims| == 1 && s.replacements == 0 && s.cache == Some(12)
  {
    s := FirstAttempt();
    s := LoadRun(s, 2, 2, 21);
    s := SecondAttempt(s);
    assert s.calls[0] == s.calls[1] == s.calls[3] == Done && s.calls[2].Answered?;
  }

  /** The same with an overlapping `load()` of the very same tree: its higher
      number is unclaimed, and the second attempt claims it. */
  lemma SameTreeLoadPublishesTwice() returns (s: State)
    ensures Reachable(s) && InFlight(s) == {} && s.calls.Keys == {0, 1, 2, 3}
    ensures s.generation == 2 && |s.claims| == 2 && s.retries == 0 && s.replacements == 0
    ensures s.issued == map[1 := (1, 11), 2 := (1, 12)] && s.cache == Some(12)
  {
    s := FirstAttempt();
    s := LoadRun(s, 2, 1, 12);
    s := ClaimingRun(s, 3, 1);
    assert s.calls[0] == s.calls[1] == s.calls[3] == Done && s.calls[2].Answered?;
  }

  /** A commit attempt that wins, up to its end. */
  lemma ClaimingRun(s: State, t: Tid, tree: Tree) returns (s': State)
    requires Reachable(s) && t !in s.calls && Wins(s, tree)
    ensures Reachable(s')
    ensures var q := s.staged.value.sequence;
            s' == s.(lastCommitted := q, claims := s.claims + [(t, q)], cache := Some(s.staged.value.model),
                     generation := s.generation + 1, calls := s.calls[t := Done])
  {
    s' := Take(s, StartCommit(t, tree));
    s' := Take(s', Attempt(t));
    s' := PublishRun(s', t);
    assert s'.calls == s.calls[t := Done];
  }

  /** The reload of tree 1 up to the end of its first commit attempt. */
  lemma FirstAttempt() returns (s: State)
    ensures Reachable(s)
    ensures s == State(Some(Staged(1, 1, 11)), 1, 1, Some(11), 1, map[0 := Done, 1 := Done],
                       map[1 := (1, 11)], {}, [(1, 1)], 0, 0)
  {
    assert IsRun(INITIAL, []);
    s := ValidationRun(INITIAL, 0, 1, 11);
    s := ClaimingRun(s, 1, 1);
    assert s.calls == map[0 := Done, 1 := Done];
  }

  lemma BeginCommit(s: State, t: Tid, tree: Tree) returns (s': State)
    requires Reachable(s) && t !in s.calls
    ensures Reachable(s') && s' == Goto(s, t, Attempting(tree))
  {
    s' := Take(s, StartCommit(t, tree));
  }

  lemma MissRun(s: State, t: Tid) returns (s': State)
    requires Reachable(s) && t in s.calls && s.calls[t].Attempting? && !Matching(s, s.calls[t].tree)
    ensures Reachable(s') && s' == Goto(s, t, Asking(s.calls[t].tree, Committing))
  {
    s' := Take(s, Attempt(t));
  }

  /** A commit attempt that finds another tree staged validates its own again. */
  lemma RevalidatingRun(s: State, t: Tid, tree: Tree, model: Model) returns (s': State)
    requires Reachable(s) && t !in s.calls && !Matching(s, tree)
    ensures Reachable(s')
    ensures var q := s.nextSequence + 1;
            s' == s.(nextSequence := q, issued := s.issued[q := (tree, model)],
                     staged := Some(Staged(q, tree, model)), calls := s.calls[t := Rereading(tree)])
  {
    s' := BeginCommit(s, t, tree);
    s' := MissRun(s', t);
    WroteOver(s.calls, t, Attempting(tree), Asking(tree, Committing));
    s' := StageRun(s', t, model);
    WroteOver(s.calls, t, Asking(tree, Committing), Rereading(tree));
  }

  /** Its second attempt, once the overlapping load has staged tree 2. */
  lemma SecondAttempt(s: State) returns (s': State)
    requires Reachable(s) && 3 !in s.calls && !Matching(s, 1)
    ensures Reachable(s') && s'.calls == s.calls[3 := Done]
    ensures s'.generation == s.generation + 1 && s'.cache == Some(12)
    ensures s'.claims == s.claims && s'.replacements == s.replacements
  {
    s' := RevalidatingRun(s, 3, 1, 12);
    s' := Take(s', Reread(3));
    s' := PublishRun(s', 3);
    assert s'.calls == s.calls[3 := Done];
  }

  /** A re-validating commit of tree 1 can publish the model of tree 2: it reads
      the slot again without comparing trees. */
  lemma RereadCanPublishAnotherTree() returns (s: State)
    ensures Reachable(s) && s.cache == Some(22) && s.generation == 1
    ensures forall q <- s.issued :: s.issued[q].1 == 22 ==> s.issued[q].0 == 2
    ensures s.calls.Keys == {0, 1, 2} && s.claims == []
  {
    assert IsRun(INITIAL, []);
    s := ValidationRun(INITIAL, 0, 2, 21);
    s := RevalidatingRun(s, 1, 1, 11);
    s := LoadRun(s, 2, 2, 22);
    s := Take(s, Reread(1));
    s := PublishRun(s, 1);
  }

  /** The reread publishes a validation of the commit's own tree exactly when
      nobody staged another tree since. */
  lemma RereadIsOwnTreeIff(s: State, t: Tid)
    requires Inv(s) && Enabled(s, Reread(t)) && s.staged.Some?
    ensures var Raising(q, model) := Next(s, Reread(t)).calls[t];
            && Issued(s, q, model)
            && (s.issued[q].0 == s.calls[t].tree <==> Matching(s, s.calls[t].tree))
  {
  }

  // ── What `load()` hands back ────────────────────────────────────────────

  /** Its second read of the slot does not compare trees either: it answers with
      its own tree's model exactly when the slot still holds that tree. */
  lemma LoadAnswersOwnTreeIff(s: State, t: Tid)
    requires Inv(s) && Enabled(s, TakeStaged(t)) && s.staged.Some?
    ensures var Answered(tree, model) := Next(s, TakeStaged(t)).calls[t];
            && tree == s.calls[t].tree && Issued(s, s.staged.value.sequence, model)
            && (s.issued[s.staged.value.sequence].0 == tree <==> Matching(s, tree))
  {
  }

  /** A `load()` of tree 1 that two others overlap hands back a model of tree 3. */
  lemma LoadCanAnswerAnotherTree() returns (s: State)
    ensures Reachable(s) && 0 in s.calls && s.calls[0] == Answered(1, 31)
    ensures forall q <- s.issued :: s.issued[q].1 == 31 ==> s.issued[q].0 == 3
  {
    s := LoadTriesAgain();
    s := OvertakenRun(s, 12, 3, 31);
    s := Take(s, TakeStaged(0));
  }

  /** A `load()` of tree 1 that finds tree 2 in the slot. */
  lemma LoadTriesAgain() returns (s: State)
    ensures Reachable(s) && s.calls.Keys == {0, 2} && s.calls[0] == Asking(1, LoadingAgain)
    ensures s.nextSequence == 2 && s.issued == map[1 := (1, 11), 2 := (2, 21)]
  {
    assert IsRun(INITIAL, []);
    s := BeginLoad(INITIAL, 0, 1);
    s := OvertakenRun(s, 11, 2, 21);
    s := Take(s, Check(0));
  }

  /** Call 0 stages its model of tree 1, and another load stages its own on top. */
  lemma OvertakenRun(s: State, own: Model, tree: Tree, model: Model) returns (s': State)
    requires Reachable(s) && 0 in s.calls && s.calls[0].Asking? && s.calls[0].tree == 1 && tree !in s.calls && tree > 0
    ensures Reachable(s') && 0 in s'.calls && s'.calls[0] == AfterStage(s.calls[0].why, 1)
    ensures s'.calls.Keys == s.calls.Keys + {tree}
    ensures s'.staged == Some(Staged(s.nextSequence + 2, tree, model)) && s'.nextSequence == s.nextSequence + 2
    ensures s'.issued == s.issued[s.nextSequence + 1 := (1, own)][s.nextSequence + 2 := (tree, model)]
  {
    s' := StageRun(s, 0, own);
    s' := ValidationRun(s', tree, tree, model);
  }
}
