/**
  `ConfigGroup.reload_atomic` over a group of any size: every member prepares,
  then every member commits, and no exit leaves a prepared commit behind.

  Other threads may do anything to a member between its prepare and its commit
  or discard: load, reload, prepare, commit and discard, any number of times.
  That is what can make a commit validate again, and so raise.
*/
module Group {
  import opened Common
  import opened Publication

  datatype Outcome = AllInstalled | PrepareRefused(member: nat) | CommitRaised(member: nat)

  /** One member's share of the call: its own load, what other threads do to it
      until its commit or discard, and the answers its commit may need. */
  datatype Turn = Turn(load: Load, meanwhile: seq<Op>, again: Again)

  // ── One member at each stage ────────────────────────────────────────────

  function Waiting(p: Pub, turn: Turn): Pub { Run(Prepared(p, turn.load), turn.meanwhile) }

  function Applied(p: Pub, turn: Turn): Pub { TokenCommitted(Waiting(p, turn), p.nextPrepared, turn.again) }

  predicate Applies(p: Pub, turn: Turn) { TokenCommitSucceeds(Waiting(p, turn), p.nextPrepared, turn.again) }

  // ── The whole group ─────────────────────────────────────────────────────

  /** The first member whose prepare refuses, or the size of the group. */
  function FirstRefused(turns: seq<Turn>): (k: nat)
    ensures k <= |turns| && (k < |turns| ==> !Loads(turns[k].load))
    ensures forall i :: 0 <= i < k ==> Loads(turns[i].load)
  {
    if turns == [] || !Loads(turns[0].load) then 0 else 1 + FirstRefused(turns[1..])
  }

  /** The first member whose commit raises, or the size of the group. */
  function FirstRaised(ps: seq<Pub>, turns: seq<Turn>): (k: nat)
    requires |ps| == |turns|
    ensures k <= |ps| && (k < |ps| ==> !Applies(ps[k], turns[k]))
    ensures forall i :: 0 <= i < k ==> Applies(ps[i], turns[i])
  {
    if ps == [] || !Applies(ps[0], turns[0]) then 0 else 1 + FirstRaised(ps[1..], turns[1..])
  }

  /** The member as the call last finds it: never taken up, or with the others' share done. */
  function Found(ps: seq<Pub>, turns: seq<Turn>, i: nat): Pub
    requires |ps| == |turns| && i < |ps|
  {
    if FirstRefused(turns) <= i then ps[i] else Waiting(ps[i], turns[i])
  }

  function MemberAfter(ps: seq<Pub>, turns: seq<Turn>, i: nat): Pub
    requires |ps| == |turns| && i < |ps|
  {
    var refused, raised := FirstRefused(turns), FirstRaised(ps, turns);
    if refused == |ps| && i <= raised then Applied(ps[i], turns[i])
    else if i < refused then Discarded(Waiting(ps[i], turns[i]), ps[i].nextPrepared)
    else ps[i]
  }

  function OutcomeOf(ps: seq<Pub>, turns: seq<Turn>): Outcome
    requires |ps| == |turns|
  {
    var refused, raised := FirstRefused(turns), FirstRaised(ps, turns);
    if refused < |ps| then PrepareRefused(refused)
    else if raised < |ps| then CommitRaised(raised)
    else AllInstalled
  }

  datatype GroupError = NoMembers | SharedKey | NoConcurrency

  class ConfigGroup {
    const members: seq<Inner>
    const concurrency: Option<int>

    constructor (members: seq<Inner>, concurrency: Option<int>)
      ensures this.members == members && this.concurrency == concurrency
    {
      this.members := members;
      this.concurrency := concurrency;
    }

    /** The checks of `__init__`. */
    static method Make(members: seq<Inner>, concurrency: Option<int>) returns (r: Result<ConfigGroup, GroupError>)
      ensures r.Ok? <==> members != [] && DistinctKeys(members) && (concurrency.Some? ==> concurrency.value >= 1)
      ensures r.Ok? ==> fresh(r.value) && r.value.members == members && r.value.Valid()
    {
      if members == [] { return Err(NoMembers); }
      if !DistinctKeys(members) { return Err(SharedKey); }
      if concurrency.Some? && concurrency.value < 1 { return Err(NoConcurrency); }
      var group := new ConfigGroup(members, concurrency);
      return Ok(group);
    }

    static predicate DistinctKeys(members: seq<Inner>) {
      forall i, j :: 0 <= i < j < |members| ==> members[i].key != members[j].key
    }

    ghost predicate Valid() { members != [] && DistinctKeys(members) }

    ghost function Views(): (ps: seq<Pub>)
      reads members
      ensures |ps| == |members|
    {
      seq(|members|, i requires 0 <= i < |members| reads members => members[i].View())
    }

    method ReloadAtomic(turns: seq<Turn>) returns (outcome: Outcome)
      requires Valid() && |turns| == |members|
      modifies members
      ensures outcome == OutcomeOf(old(Views()), turns)
      ensures forall i :: 0 <= i < |members| ==> members[i].View() == MemberAfter(old(Views()), turns, i)
    {
      var prepared := PrepareAll(turns);
      if |prepared| < |members| {
        return PrepareRefused(|prepared|);
      }
      var raised := CommitAll(prepared, turns);
      if raised < |members| {
        return CommitRaised(raised);
      }
      return AllInstalled;
    }

    /** The first loop: on a refusal everything prepared so far is discarded. */
    method PrepareAll(turns: seq<Turn>) returns (prepared: seq<(Inner, Token)>)
      requires Valid() && |turns| == |members|
      modifies members
      ensures |prepared| <= |members| && (|prepared| < |members| ==> !Loads(turns[|prepared|].load))
      ensures forall i :: 0 <= i < |prepared| ==> Loads(turns[i].load)
      ensures forall i :: 0 <= i < |prepared| ==> prepared[i] == (members[i], old(members[i].nextPrepared))
      ensures |prepared| == |members| ==>
                forall i :: 0 <= i < |members| ==> members[i].View() == Waiting(old(members[i].View()), turns[i])
      ensures |prepared| < |members| ==>
                forall i :: 0 <= i < |prepared| ==>
                  members[i].View() == Discarded(Waiting(old(members[i].View()), turns[i]), prepared[i].1)
      ensures forall i :: |prepared| <= i < |members| ==> members[i].View() == old(members[i].View())
    {
      prepared := [];
      while |prepared| < |members|
        invariant |prepared| <= |members|
        invariant forall i :: 0 <= i < |prepared| ==> Loads(turns[i].load)
        invariant forall i :: 0 <= i < |prepared| ==> prepared[i] == (members[i], old(members[i].nextPrepared))
        invariant forall i :: 0 <= i < |prepared| ==> members[i].View() == Waiting(old(members[i].View()), turns[i])
        invariant forall i :: |prepared| <= i < |members| ==> members[i].View() == old(members[i].View())
      {
        var config := members[|prepared|];
        var token := PrepareOne(config, turns[|prepared|]);
        if token.None? {
          DiscardAll(prepared);
          return;
        }
        prepared := prepared + [(config, token.value)];
      }
    }

    /** One member prepares.  What other threads then do to it is run at once: the
        call does not touch the member again until its commit or discard. */
    static method PrepareOne(config: Inner, turn: Turn) returns (token: Option<Token>)
      modifies config
      ensures token == if Loads(turn.load) then Some(old(config.nextPrepared)) else None
      ensures config.View() == if Loads(turn.load) then Waiting(old(config.View()), turn) else old(config.View())
    {
      token := config.Prepare(turn.load);
      if token.Some? { OtherThreads(config, turn.meanwhile); }
    }

    /** The second loop: a commit that raises discards the ones still to come. */
    method CommitAll(tokens: seq<(Inner, Token)>, turns: seq<Turn>) returns (raised: nat)
      requires Valid() && |turns| == |members| == |tokens|
      requires forall i :: 0 <= i < |members| ==> tokens[i].0 == members[i]
      modifies members
      ensures raised <= |members|
      ensures forall i :: 0 <= i < raised ==> old(Succeeds(members[i], tokens[i].1, turns[i]))
      ensures forall i :: 0 <= i < raised ==> members[i].View() == old(CommitOf(members[i], tokens[i].1, turns[i]))
      ensures raised < |members| ==>
                !old(Succeeds(members[raised], tokens[raised].1, turns[raised]))
                && members[raised].View() == old(CommitOf(members[raised], tokens[raised].1, turns[raised]))
      ensures forall i :: raised < i < |members| ==> members[i].View() == Discarded(old(members[i].View()), tokens[i].1)
    {
      var prepared := tokens;
      raised := 0;
      while prepared != []
        invariant 0 <= raised <= |members| && prepared == tokens[raised..]
        invariant forall i :: 0 <= i < raised ==> old(Succeeds(members[i], tokens[i].1, turns[i]))
        invariant forall i :: 0 <= i < raised ==> members[i].View() == old(CommitOf(members[i], tokens[i].1, turns[i]))
        invariant forall i :: raised <= i < |members| ==> members[i].View() == old(members[i].View())
      {
        var (config, token) := prepared[0];
        prepared := prepared[1..];
        var ok := config.CommitToken(token, turns[raised].again);
        if !ok {
          DiscardFrom(tokens, raised + 1, prepared);
          return;
        }
        raised := raised + 1;
      }
    }

    ghost predicate Succeeds(member: Inner, token: Token, turn: Turn)
      reads member
    {
      TokenCommitSucceeds(member.View(), token, turn.again)
    }

    ghost function CommitOf(member: Inner, token: Token, turn: Turn): Pub
      reads member
    {
      TokenCommitted(member.View(), token, turn.again)
    }

    /** Discards what is left of the list. */
    method DiscardFrom(tokens: seq<(Inner, Token)>, from: nat, rest: seq<(Inner, Token)>)
      requires Valid() && |tokens| == |members| && from <= |tokens| && rest == tokens[from..]
      requires forall i :: 0 <= i < |members| ==> tokens[i].0 == members[i]
      modifies members
      ensures forall i :: 0 <= i < from ==> members[i].View() == old(members[i].View())
      ensures forall i :: from <= i < |members| ==> members[i].View() == Discarded(old(members[i].View()), tokens[i].1)
    {
      assert forall i :: from <= i < |members| ==> tokens[i] == rest[i - from];
      DiscardAll(rest);
    }

    /** `_discard`. */
    method DiscardAll(prepared: seq<(Inner, Token)>)
      requires forall i, j :: 0 <= i < j < |prepared| ==> prepared[i].0 != prepared[j].0
      modifies set pair <- prepared :: pair.0
      ensures forall i :: 0 <= i < |prepared| ==>
                prepared[i].0.View() == Discarded(old(prepared[i].0.View()), prepared[i].1)
    {
      for k := 0 to |prepared|
        invariant forall i :: 0 <= i < k ==> prepared[i].0.View() == Discarded(old(prepared[i].0.View()), prepared[i].1)
        invariant forall i :: k <= i < |prepared| ==> prepared[i].0.View() == old(prepared[i].0.View())
      {
        prepared[k].0.Discard(prepared[k].1);
      }
    }

    /** What other threads do to one member. */
    static method OtherThreads(member: Inner, ops: seq<Op>)
      modifies member
      ensures member.View() == Run(old(member.View()), ops)
    {
      for k := 0 to |ops|
        invariant Run(member.View(), ops[k..]) == Run(old(member.View()), ops)
      {
        assert ops[k..][1..] == ops[k + 1..];
        member.Apply(ops[k]);
      }
    }
  }

  /** A refusal names the first member that refused, a raise the first whose commit raised. */
  lemma OutcomeNames(ps: seq<Pub>, turns: seq<Turn>, k: nat)
    requires |ps| == |turns|
    ensures OutcomeOf(ps, turns) == PrepareRefused(k) <==>
            k < |turns| && !Loads(turns[k].load) && forall i :: 0 <= i < k ==> Loads(turns[i].load)
    ensures OutcomeOf(ps, turns) == CommitRaised(k) <==>
            && (forall i :: 0 <= i < |turns| ==> Loads(turns[i].load))
            && k < |turns| && !Applies(ps[k], turns[k]) && forall i :: 0 <= i < k ==> Applies(ps[i], turns[i])
    ensures OutcomeOf(ps, turns) == AllInstalled <==>
            forall i :: 0 <= i < |turns| ==> Loads(turns[i].load) && Applies(ps[i], turns[i])
  {
    var refused, raised := FirstRefused(turns), FirstRaised(ps, turns);
    assert refused < |turns| ==> !Loads(turns[refused].load);
    assert raised < |turns| ==> !Applies(ps[raised], turns[raised]);
  }

  // ── What the call promises ──────────────────────────────────────────────

  ghost predicate AllValid(ps: seq<Pub>) { forall p <- ps :: Publication.Valid(p) }

  /** What a reader of member `p` can observe. */
  predicate Untouched(p: Pub, p': Pub) {
    p'.cache == p.cache && p'.generation == p.generation && p'.installed == p.installed
  }

  lemma InstallFrame(p: Pub, tree: Tree, again: Again)
    ensures Installed(p, tree, again).prepared == p.prepared && Installed(p, tree, again).nextPrepared == p.nextPrepared
  {
  }

  lemma StepToken(p: Pub, op: Op, token: Token)
    requires token < p.nextPrepared
    ensures var p' := Step(p, op);
            && token < p'.nextPrepared
            && (token in p'.prepared ==> token in p.prepared && p'.prepared[token] == p.prepared[token])
  {
    match op
    case Reload(load, again) => if Loads(load) { InstallFrame(Loaded(p, load), load.tree, again); }
    case CommitToken(t, again) =>
      if t in p.prepared { InstallFrame(Discarded(p, t), p.prepared[t], again); }
    case _ =>
  }

  /** A token is never issued again: it stays with its tree until it is gone. */
  lemma {:induction false} TokenKeepsTree(p: Pub, ops: seq<Op>, token: Token)
    requires token < p.nextPrepared
    ensures token < Run(p, ops).nextPrepared
    ensures token in Run(p, ops).prepared ==> token in p.prepared && Run(p, ops).prepared[token] == p.prepared[token]
    decreases |ops|
  {
    if ops != [] {
      StepToken(p, ops[0], token);
      TokenKeepsTree(Step(p, ops[0]), ops[1..], token);
    }
  }

  lemma WaitingKeeps(p: Pub, turn: Turn)
    requires Publication.Valid(p) && Loads(turn.load)
    ensures var w := Waiting(p, turn);
            && Publication.Valid(w) && p.nextPrepared !in p.prepared
            && (p.nextPrepared in w.prepared ==> w.prepared[p.nextPrepared] == turn.load.tree)
  {
    var prepared := Prepared(p, turn.load);
    assert Publication.Valid(prepared);
    RunKeeps(prepared, turn.meanwhile);
    TokenKeepsTree(prepared, turn.meanwhile, p.nextPrepared);
  }

  /** One member's commit: it serves the tree it prepared, or raises and leaves
      readers what the other threads left them; either way its token is gone. */
  lemma AppliedServes(p: Pub, turn: Turn)
    requires Publication.Valid(p) && Loads(turn.load)
    ensures var w, p' := Waiting(p, turn), Applied(p, turn);
            && p'.prepared == w.prepared - {p.nextPrepared}
            && w.generation <= p'.generation <= w.generation + 1
            && (if Applies(p, turn) then Serves(p', turn.load.tree)
                else p'.cache == w.cache && p'.generation == w.generation)
  {
    WaitingKeeps(p, turn);
    var w, token := Waiting(p, turn), p.nextPrepared;
    if token in w.prepared {
      var d := Discarded(w, token);
      assert Publication.Valid(d);
      InstallKeeps(d, turn.load.tree, turn.again);
      InstallFrame(d, turn.load.tree, turn.again);
    } else {
      assert w.prepared - {token} == w.prepared;
    }
  }

  /** If any member refuses to prepare, every reader of every member sees what the
      other threads left, generation included; and what it saw before, if those
      only loaded, prepared and discarded. */
  lemma RefusalChangesNothing(ps: seq<Pub>, turns: seq<Turn>, i: nat)
    requires |ps| == |turns| && i < |ps| && OutcomeOf(ps, turns).PrepareRefused?
    ensures Untouched(Found(ps, turns, i), MemberAfter(ps, turns, i))
    ensures (forall op <- turns[i].meanwhile :: Quiet(op)) ==> Untouched(ps[i], MemberAfter(ps, turns, i))
  {
    if forall op <- turns[i].meanwhile :: Quiet(op) {
      QuietRun(Prepared(ps[i], turns[i].load), turns[i].meanwhile);
    }
  }

  /** If every member prepares and no commit raises, every member serves a
      validation of exactly the tree it prepared. */
  lemma SuccessInstallsAll(ps: seq<Pub>, turns: seq<Turn>, i: nat)
    requires |ps| == |turns| && i < |ps| && AllValid(ps) && OutcomeOf(ps, turns).AllInstalled?
    ensures Serves(MemberAfter(ps, turns, i), turns[i].load.tree)
    ensures MemberAfter(ps, turns, i).generation <= Waiting(ps[i], turns[i]).generation + 1
  {
    assert Loads(turns[i].load) && Applies(ps[i], turns[i]);
    assert ps[i] in ps;
    AppliedServes(ps[i], turns[i]);
  }

  /** On every exit the token the call took from a member is gone, and the
      member's other tokens are those the other threads left. */
  lemma NoTokenLeft(ps: seq<Pub>, turns: seq<Turn>, i: nat)
    requires |ps| == |turns| && i < |ps| && AllValid(ps)
    ensures var p' := MemberAfter(ps, turns, i);
            && ps[i].nextPrepared !in p'.prepared
            && p'.prepared == Found(ps, turns, i).prepared - {ps[i].nextPrepared}
            && (turns[i].meanwhile == [] ==> p'.prepared == ps[i].prepared)
  {
    assert ps[i] in ps;
    assert ps[i].prepared - {ps[i].nextPrepared} == ps[i].prepared;
    if Loads(turns[i].load) {
      AppliedServes(ps[i], turns[i]);
      assert ps[i].prepared[ps[i].nextPrepared := turns[i].load.tree] - {ps[i].nextPrepared} == ps[i].prepared;
    }
  }

  /** A commit that raises midway: the members before it serve their new trees;
      at it and after it readers see what the other threads left. */
  lemma RaiseSplitsTheGroup(ps: seq<Pub>, turns: seq<Turn>, i: nat)
    requires |ps| == |turns| && i < |ps| && AllValid(ps) && OutcomeOf(ps, turns).CommitRaised?
    ensures var p', w := MemberAfter(ps, turns, i), Waiting(ps[i], turns[i]);
            if i < OutcomeOf(ps, turns).member then Serves(p', turns[i].load.tree)
            else p'.cache == w.cache && p'.generation == w.generation
  {
    assert Loads(turns[i].load) && ps[i] in ps;
    AppliedServes(ps[i], turns[i]);
  }

  /** A commit raises exactly when its token was taken meanwhile, or another
      tree's validation is staged when it starts and the schema then refuses the
      prepared tree whenever it is asked again. */
  lemma RaisesIff(p: Pub, turn: Turn)
    requires Publication.Valid(p) && Loads(turn.load)
    ensures var w := Waiting(p, turn);
            !Applies(p, turn) <==>
            || p.nextPrepared !in w.prepared
            || (!Matches(w, turn.load.tree) && turn.again.explicit.Refusal?
                && (w.installed.Some? ==> turn.again.hook.Refusal?))
  {
    WaitingKeeps(p, turn);
  }

  // ── Which tree is staged by then ────────────────────────────────────────

  /** The tree of the last accepted load among them, or `tree`. */
  function LastAccepted(loads: seq<Load>, tree: Tree): Tree {
    if loads == [] then tree
    else LastAccepted(loads[1..], if Loads(loads[0]) then loads[0].tree else tree)
  }

  predicate OnlyLoads(ops: seq<Op>) { forall op <- ops :: op.LoadOnly? }

  function LoadsOf(ops: seq<Op>): seq<Load>
    requires OnlyLoads(ops)
  {
    if ops == [] then [] else [ops[0].load] + LoadsOf(ops[1..])
  }

  lemma {:induction false} LastLoadIsStaged(p: Pub, ops: seq<Op>)
    requires p.staged.Some? && OnlyLoads(ops)
    ensures var w := Run(p, ops);
            && w.staged.Some? && w.staged.value.tree == LastAccepted(LoadsOf(ops), p.staged.value.tree)
            && w.prepared == p.prepared && w.installed == p.installed
    decreases |ops|
  {
    if ops != [] { LastLoadIsStaged(Step(p, ops[0]), ops[1..]); }
  }

  /** With loads only in between, the last accepted one decides. */
  lemma LoadsRaiseIff(p: Pub, turn: Turn)
    requires Publication.Valid(p) && Loads(turn.load) && OnlyLoads(turn.meanwhile)
    ensures !Applies(p, turn) <==>
            && LastAccepted(LoadsOf(turn.meanwhile), turn.load.tree) != turn.load.tree
            && turn.again.explicit.Refusal? && (p.installed.Some? ==> turn.again.hook.Refusal?)
  {
    RaisesIff(p, turn);
    LastLoadIsStaged(Prepared(p, turn.load), turn.meanwhile);
  }

  /** Left alone between its two phases, a group in which every member prepares
      always installs: the commit half cannot fail. */
  lemma AloneNeverRaises(ps: seq<Pub>, turns: seq<Turn>)
    requires |ps| == |turns| && AllValid(ps)
    requires forall turn <- turns :: turn.meanwhile == []
    ensures !OutcomeOf(ps, turns).CommitRaised?
  {
    if OutcomeOf(ps, turns).CommitRaised? {
      var k := OutcomeOf(ps, turns).member;
      assert ps[k] in ps && turns[k] in turns && Loads(turns[k].load);
      LoadsRaiseIff(ps[k], turns[k]);
    }
  }
}
