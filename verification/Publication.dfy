/**
  The publication protocol of one configuration, for operations that do not
  overlap: what validation stages, which of the two commit attempts of an
  install publishes, and what a prepared commit leaves behind.

  The engine is outside the model.  Its contract: a successful load resolves a
  tree and has it validated, installing makes it the current tree, and the
  reload hook fires on every install but the first.  What the schema's Python
  callable answers is a parameter of each operation, so it may answer
  differently each time it is asked about the same tree.
*/
module Publication {
  import opened Common

  type Tree = nat
  type Model = nat
  type Token = nat

  datatype Answer = Instance(model: Model) | Refusal

  /** One load by the engine: a source failed, or a tree was put to the schema. */
  datatype Load = Failed | Resolved(tree: Tree, answer: Answer)

  /** The answers an install may need beyond the load's own: one for the hook's
      commit attempt, one for the explicit attempt after it. */
  datatype Again = Again(hook: Answer, explicit: Answer)

  datatype Staged = Staged(sequence: nat, tree: Tree, model: Model)

  /** `record` is a history variable: every tree the schema accepted, with the
      instance it gave. */
  datatype Pub = Pub(
    staged: Option<Staged>, nextSequence: nat, lastCommitted: nat,
    cache: Option<Model>, generation: nat,
    installed: Option<Tree>, prepared: map<Token, Tree>, nextPrepared: Token,
    record: set<(Tree, Model)>)

  const FRESH := Pub(None, 0, 0, None, 0, None, map[], 0, {})

  // ── The protocol as functions ───────────────────────────────────────────

  function Validated(p: Pub, tree: Tree, answer: Answer): Pub {
    match answer
    case Refusal => p
    case Instance(model) =>
      p.(nextSequence := p.nextSequence + 1,
         staged := Some(Staged(p.nextSequence + 1, tree, model)),
         record := p.record + {(tree, model)})
  }

  function Max(a: nat, b: nat): nat { if a < b then b else a }

  function Published(p: Pub, sequence: nat, model: Model): Pub {
    p.(lastCommitted := Max(p.lastCommitted, sequence), cache := Some(model), generation := p.generation + 1)
  }

  predicate Matches(p: Pub, tree: Tree) { p.staged.Some? && p.staged.value.tree == tree }

  function Committed(p: Pub, tree: Tree, answer: Answer): Pub {
    if Matches(p, tree) then
      if p.lastCommitted >= p.staged.value.sequence then p
      else Published(p, p.staged.value.sequence, p.staged.value.model)
    else
      match answer
      case Refusal => p
      case Instance(model) => Published(Validated(p, tree, answer), p.nextSequence + 1, model)
  }

  predicate CommitSucceeds(p: Pub, tree: Tree, answer: Answer) { Matches(p, tree) || answer.Instance? }

  /** The engine installs `tree`; a failing commit inside its hook is only reported. */
  function HookRan(p: Pub, tree: Tree, answer: Answer): Pub {
    var p' := p.(installed := Some(tree));
    if p.installed.None? then p' else Committed(p', tree, answer)
  }

  function Installed(p: Pub, tree: Tree, again: Again): Pub {
    Committed(HookRan(p, tree, again.hook), tree, again.explicit)
  }

  predicate InstallSucceeds(p: Pub, tree: Tree, again: Again) {
    CommitSucceeds(HookRan(p, tree, again.hook), tree, again.explicit)
  }

  predicate Loads(load: Load) { load.Resolved? && load.answer.Instance? }

  /** `load`: what any load leaves behind, whether or not something installs. */
  function Loaded(p: Pub, load: Load): Pub {
    if load.Failed? then p else Validated(p, load.tree, load.answer)
  }

  /** `init` and `reload`. */
  function Reloaded(p: Pub, load: Load, again: Again): Pub {
    if Loads(load) then Installed(Loaded(p, load), load.tree, again) else p
  }

  function Prepared(p: Pub, load: Load): Pub {
    if Loads(load)
    then Loaded(p, load).(prepared := p.prepared[p.nextPrepared := load.tree], nextPrepared := p.nextPrepared + 1)
    else p
  }

  function Discarded(p: Pub, token: Token): Pub { p.(prepared := p.prepared - {token}) }

  function TokenCommitted(p: Pub, token: Token, again: Again): Pub {
    if token in p.prepared then Installed(Discarded(p, token), p.prepared[token], again) else p
  }

  predicate TokenCommitSucceeds(p: Pub, token: Token, again: Again) {
    token in p.prepared && InstallSucceeds(Discarded(p, token), p.prepared[token], again)
  }

  // ── The object ──────────────────────────────────────────────────────────

  class Inner {
    const key: string
    var staged: Option<Staged>
    var nextSequence: nat
    var lastCommitted: nat
    var cache: Option<Model>
    var generation: nat
    var installed: Option<Tree>
    var prepared: map<Token, Tree>
    var nextPrepared: Token
    ghost var record: set<(Tree, Model)>

    ghost function View(): Pub
      reads this
    {
      Pub(staged, nextSequence, lastCommitted, cache, generation, installed, prepared, nextPrepared, record)
    }

    constructor (key: string)
      ensures View() == FRESH && this.key == key
    {
      this.key := key;
      staged, nextSequence, lastCommitted := None, 0, 0;
      cache, generation, installed := None, 0, None;
      prepared, nextPrepared, record := map[], 0, {};
    }

    method Validate(tree: Tree, answer: Answer) returns (ok: bool)
      modifies this
      ensures View() == Validated(old(View()), tree, answer)
      ensures ok <==> answer.Instance?
    {
      if answer.Refusal? { return false; }
      nextSequence := nextSequence + 1;
      staged := Some(Staged(nextSequence, tree, answer.model));
      record := record + {(tree, answer.model)};
      return true;
    }

    method Commit(tree: Tree, answer: Answer) returns (ok: bool)
      modifies this
      ensures View() == Committed(old(View()), tree, answer)
      ensures ok <==> CommitSucceeds(old(View()), tree, answer)
    {
      var sequence, model;
      if staged.Some? && staged.value.tree == tree {
        // `fetch_max`: read the old value and raise it in one action.
        var before := lastCommitted;
        lastCommitted := Max(lastCommitted, staged.value.sequence);
        if before >= staged.value.sequence { return true; }
        sequence, model := staged.value.sequence, staged.value.model;
      } else {
        var accepted := Validate(tree, answer);
        if !accepted { return false; }
        sequence, model := staged.value.sequence, staged.value.model;
      }
      lastCommitted := Max(lastCommitted, sequence);
      cache := Some(model);
      generation := generation + 1;
      return true;
    }

    method Install(tree: Tree, again: Again) returns (ok: bool)
      modifies this
      ensures View() == Installed(old(View()), tree, again)
      ensures ok <==> InstallSucceeds(old(View()), tree, again)
    {
      var first := installed.None?;
      installed := Some(tree);
      if !first {
        var _ := Commit(tree, again.hook);
      }
      ok := Commit(tree, again.explicit);
    }

    method LoadOnly(load: Load) returns (r: Option<Model>)
      modifies this
      ensures View() == Loaded(old(View()), load)
      ensures r == if Loads(load) then Some(load.answer.model) else None
    {
      if load.Failed? { return None; }
      var ok := Validate(load.tree, load.answer);
      return if ok then Some(staged.value.model) else None;
    }

    method Reload(load: Load, again: Again) returns (ok: bool)
      modifies this
      ensures View() == Reloaded(old(View()), load, again)
      ensures ok <==> Loads(load)
    {
      var candidate := LoadOnly(load);
      if candidate.None? { return false; }
      ok := Install(load.tree, again);
    }

    method Prepare(load: Load) returns (r: Option<Token>)
      modifies this
      ensures View() == Prepared(old(View()), load)
      ensures r == if Loads(load) then Some(old(nextPrepared)) else None
    {
      var candidate := LoadOnly(load);
      if candidate.None? { return None; }
      r := Some(nextPrepared);
      prepared := prepared[nextPrepared := load.tree];
      nextPrepared := nextPrepared + 1;
    }

    method CommitToken(token: Token, again: Again) returns (ok: bool)
      modifies this
      ensures View() == TokenCommitted(old(View()), token, again)
      ensures ok <==> TokenCommitSucceeds(old(View()), token, again)
    {
      if token !in prepared { return false; }
      var tree := prepared[token];
      prepared := prepared - {token};
      ok := Install(tree, again);
    }

    method Discard(token: Token)
      modifies this
      ensures View() == Discarded(old(View()), token)
      ensures token !in prepared && forall other <- old(prepared) :: other != token ==>
                other in prepared && prepared[other] == old(prepared)[other]
    {
      prepared := prepared - {token};
    }

    /** Any one operation. */
    method Apply(op: Op)
      modifies this
      ensures View() == Step(old(View()), op)
    {
      match op
      case Reload(load, again) => var _ := Reload(load, again);
      case LoadOnly(load) => var _ := LoadOnly(load);
      case Prepare(load) => var _ := Prepare(load);
      case CommitToken(token, again) => var _ := CommitToken(token, again);
      case Discard(token) => Discard(token);
    }
  }

  // ── The invariant over every run ────────────────────────────────────────

  predicate Serves(p: Pub, tree: Tree) {
    p.installed == Some(tree) && p.cache.Some? && (tree, p.cache.value) in p.record
  }

  predicate Valid(p: Pub) {
    && p.lastCommitted <= p.nextSequence
    && (p.staged.None? ==> p.nextSequence == 0)
    && (p.staged.Some? ==>
          && 0 < p.staged.value.sequence == p.nextSequence
          && (p.staged.value.tree, p.staged.value.model) in p.record
          && (p.lastCommitted == p.nextSequence ==> p.cache == Some(p.staged.value.model)))
    && (p.cache.Some? ==> exists pair <- p.record :: pair.1 == p.cache.value)
    && (p.cache.None? <==> p.generation == 0)
    && (p.installed.None? ==> p.cache.None?)
    && forall token <- p.prepared :: token < p.nextPrepared
  }

  datatype Op =
    | Reload(load: Load, again: Again)
    | LoadOnly(load: Load)
    | Prepare(load: Load)
    | CommitToken(token: Token, again: Again)
    | Discard(token: Token)

  function Step(p: Pub, op: Op): Pub {
    match op
    case Reload(load, again) => Reloaded(p, load, again)
    case LoadOnly(load) => Loaded(p, load)
    case Prepare(load) => Prepared(p, load)
    case CommitToken(token, again) => TokenCommitted(p, token, again)
    case Discard(token) => Discarded(p, token)
  }

  function Run(p: Pub, ops: seq<Op>): Pub
    decreases |ops|
  {
    if ops == [] then p else Run(Step(p, ops[0]), ops[1..])
  }

  lemma CommitKeeps(p: Pub, tree: Tree, answer: Answer)
    requires Valid(p) && p.installed == Some(tree)
    ensures Valid(Committed(p, tree, answer))
    ensures CommitSucceeds(p, tree, answer) ==>
              Serves(Committed(p, tree, answer), tree) && Matches(Committed(p, tree, answer), tree)
              && Committed(p, tree, answer).lastCommitted == Committed(p, tree, answer).nextSequence
  {
    var p' := Committed(p, tree, answer);
    if CommitSucceeds(p, tree, answer) { assert (tree, p'.cache.value) in p'.record; }
  }

  /** An install publishes at most once however many attempts it makes, and
      exactly once when the tree it installs is staged and unpublished. */
  lemma InstallKeeps(p: Pub, tree: Tree, again: Again)
    requires Valid(p)
    ensures var p' := Installed(p, tree, again);
            && Valid(p') && p'.installed == Some(tree)
            && (InstallSucceeds(p, tree, again) ==> Serves(p', tree))
            && (!InstallSucceeds(p, tree, again) ==> p'.cache == p.cache && p'.generation == p.generation)
            && p'.generation - p.generation ==
               (if Matches(p, tree) then if p.lastCommitted < p.nextSequence then 1 else 0
                else if InstallSucceeds(p, tree, again) then 1 else 0)
  {
    var p0 := p.(installed := Some(tree));
    assert Valid(p0);
    if p.installed.Some? { CommitKeeps(p0, tree, again.hook); }
    CommitKeeps(HookRan(p, tree, again.hook), tree, again.explicit);
  }

  lemma StepKeeps(p: Pub, op: Op)
    requires Valid(p)
    ensures Valid(Step(p, op))
  {
    match op
    case Reload(load, again) => if Loads(load) { InstallKeeps(Loaded(p, load), load.tree, again); }
    case CommitToken(token, again) =>
      if token in p.prepared { InstallKeeps(Discarded(p, token), p.prepared[token], again); }
    case _ =>
  }

  /** Whatever sequence of operations ran: the staged validation is the newest
      one, nothing newer was committed, and what is served passed the schema. */
  lemma {:induction false} RunKeeps(p: Pub, ops: seq<Op>)
    requires Valid(p)
    ensures Valid(Run(p, ops))
    decreases |ops|
  {
    if ops != [] {
      StepKeeps(p, ops[0]);
      RunKeeps(Step(p, ops[0]), ops[1..]);
    }
  }

  // ── What each operation does, at any point of any run ───────────────────

  lemma FromFresh(ops: seq<Op>)
    ensures Valid(Run(FRESH, ops))
  {
    RunKeeps(FRESH, ops);
  }

  /** Two commit attempts, one generation: an accepted `init` or `reload` moves
      it by exactly one and serves a validation of the tree it installed; a
      refused one changes nothing at all. */
  lemma ReloadIsOneGeneration(ops: seq<Op>, load: Load, again: Again)
    ensures var p := Run(FRESH, ops);
            var p' := Reloaded(p, load, again);
            if Loads(load) then Serves(p', load.tree) && p'.cache == Some(load.answer.model) &&
                p'.generation == p.generation + 1
            else p' == p
  {
    FromFresh(ops);
    var p := Run(FRESH, ops);
    if Loads(load) {
      assert Valid(Loaded(p, load));
      InstallKeeps(Loaded(p, load), load.tree, again);
    }
  }

  /** Committing a token moves the generation by at most one, by none if it
      fails, and serves the prepared tree if it succeeds. */
  lemma TokenCommitIsAtMostOneGeneration(ops: seq<Op>, token: Token, again: Again)
    ensures var p := Run(FRESH, ops);
            var p' := TokenCommitted(p, token, again);
            && p.generation <= p'.generation <= p.generation + 1
            && p'.prepared == p.prepared - {token}
            && (if TokenCommitSucceeds(p, token, again) then Serves(p', p.prepared[token])
                else p'.cache == p.cache && p'.generation == p.generation)
  {
    FromFresh(ops);
    var p := Run(FRESH, ops);
    if token in p.prepared {
      InstallKeeps(Discarded(p, token), p.prepared[token], again);
      assert Installed(Discarded(p, token), p.prepared[token], again).prepared == Discarded(p, token).prepared;
    } else {
      assert p.prepared - {token} == p.prepared;
    }
  }

  /** A commit of an accepted token that moves no generation is a commit of a
      tree whose newest validation is already the one being served. */
  lemma SilentCommitIsAlreadyServed(ops: seq<Op>, token: Token, again: Again)
    ensures var p := Run(FRESH, ops);
            TokenCommitSucceeds(p, token, again) ==>
              (TokenCommitted(p, token, again).generation == p.generation <==>
               Matches(p, p.prepared[token]) && p.lastCommitted == p.nextSequence)
  {
    FromFresh(ops);
    var p := Run(FRESH, ops);
    if TokenCommitSucceeds(p, token, again) { InstallKeeps(Discarded(p, token), p.prepared[token], again); }
  }

  predicate Quiet(op: Op) { op.LoadOnly? || op.Prepare? || op.Discard? }

  /** What readers see is moved by no load, prepare or discard, over any run of
      them and whatever the schema answers. */
  lemma {:induction false} QuietRun(p: Pub, ops: seq<Op>)
    requires forall op <- ops :: Quiet(op)
    ensures var p' := Run(p, ops);
            p'.cache == p.cache && p'.generation == p.generation && p'.installed == p.installed
            && p'.lastCommitted == p.lastCommitted
    decreases |ops|
  {
    if ops != [] {
      assert Quiet(ops[0]);
      QuietRun(Step(p, ops[0]), ops[1..]);
    }
  }

  /** Discarding a prepared commit undoes the preparing, except that the
      validation it made stays staged. */
  lemma DiscardUndoesPrepare(ops: seq<Op>, load: Load)
    ensures var p := Run(FRESH, ops);
            Loads(load) ==> Discarded(Prepared(p, load), p.nextPrepared)
                            == Loaded(p, load).(nextPrepared := p.nextPrepared + 1)
  {
    FromFresh(ops);
    var p := Run(FRESH, ops);
    if Loads(load) { assert p.prepared[p.nextPrepared := load.tree] - {p.nextPrepared} == p.prepared; }
  }
}
