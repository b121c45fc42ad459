# Verified model of the Python bindings

A Dafny model of the parts of `dynamic-config-python` (and of two helpers of
`dynamic-config-python-remote`) whose correctness is not visible in one
function body, with proofs about every run, every interleaving and every input.

`dafny verify dfyconfig.toml` verifies everything.

## What is modelled

**Waking consumers.** `Wake` is one transition system for `Notifier` and
`EventNotifier`, the `changes()` and `events()` streams, installs and refusals:
one step per lock region or per shared read or write, any number of streams.
`WakeSafety` proves its invariant, `WakeTheorems` what it promises,
`WakeWindow` what the publish hook leaves open. `Monitor` is the condition variable
underneath, with `notify_all` and the release of the lock as separate steps.

**Publishing.** `Publication` is one configuration under operations that do not
overlap, as a class whose methods are proved against functions on its state.
`Group` is `reload_atomic` over such objects, with anything other threads may do
to a member between its prepare and its commit or discard. `Claims` is `commit` cut at its atomic actions, under
every interleaving.

**Gates and workers.** `FinalGate` (interpreter exit), `Backpressure` (hook
calls), `ParallelWork` (group operations on threads).

**Types and text.** `MsgspecSecrets` and `PydanticSecrets` (which paths are
redacted, over `PathCover`), `Coercion` (the dataclass validator), `Redaction`, `RedisUrl`
(RFC 3986, sections 2.1, 2.3, 3.2 and 3.2.1), `DottedPaths`, `Conversion`.

The engine, the schema callables, Python constructors and the text of messages
are outside: what they answer is a parameter. The engine's contract is that a
successful load validates a tree, installing makes it current, and the reload
hook fires on every install but the first.

## What the code does that its documentation does not say

- A stream can end although nothing was released: the generation moves before
  the publish hook writes `_cached`, and a stream that re-reads the generation
  in that window on the first install takes the missing model for a release.
  On later installs it can report the previous model under the new generation.
- When two installs overlap, their hooks can run in the other order, and the
  older model is then served at rest, until the next install.
- One reload can publish twice when a `load()` overlaps it, of another tree or of
  the same one. The commit that validates again can publish the model of the
  other load's tree, and `load()` can hand back the model of another load's tree.
- A secret more than eight steps of arguments, fields and root models below a
  container is not found, and its field is not redacted: eight models below a list.
- A configured URL can survive its own replacement when its redacted form can
  rebuild it, as for a host that is the first letter of the scheme.
- Scrubbing is complete for a secret exactly when it neither starts nor ends
  with `*` and does not contain `***`.
- Credentials spliced into a Redis URL with an `@` in its path, query or
  fragment change the host the URL names.
- Secrets behind a `NewType` or a `type` alias, inside `Sequence`, `Mapping`,
  `deque` and other generics that are none of the five built-in containers, and
  inside parametrised structs, are not covered by the listed paths: the walks look
  at the arguments in the brackets and not at what the name in front means. Nor are those of a struct or model met a second
  time before a field redacted whole; below such a field repeats do no harm. An
  index in the alias of a nested Pydantic model is dropped, so the listed paths
  below it are not the file's; the comment that this errs on the safe side holds
  when the field itself is redacted whole.
- A `RootModel` that is its own content through a union sends the walk into
  endless recursion.
- The dataclass validator never looks at dictionary keys, passes by every
  annotation that is neither a class nor one of the containers it knows, checks
  nothing where an annotation allows only `None`, and refuses `None` for a bare
  `Any`.
- `leaf_paths()` lists keys that contain a dot under paths that need not resolve.

## Model

| member | source | states |
|---|---|---|
| `Wake.NotifierObject.Wait` | `dynamic-config-python/python/dynamic_config/_notify.py:173-185` | afterwards the future and every earlier waiter are in the list, a thread is alive, and it has seen no more than the counters read under the same lock |
| `WakeSafety.EnqueueFrame` | `dynamic-config-python/python/dynamic_config/_notify.py:173-203` | a registration, with or without a new thread, keeps every other stream's future where its wake-up reaches it |
| `WakeSafety.SwapFrame` | `dynamic-config-python/python/dynamic_config/_notify.py:223-229` | the swap loses nobody: every stream's future is in the batch or resolved, and a wake without a model goes only to streams that have seen its generation |
| `WakeSafety.FinishTurnFrame` | `dynamic-config-python/python/dynamic_config/_notify.py:218-221` | whether the thread dies or waits again, every parked stream stays within its reach |
| `WakeSafety.StepKeeps` | `dynamic-config-python/python/dynamic_config/_notify.py:58-136` | every atomic action of installs, refusals, notifier thread and any number of streams keeps the invariant: waiters imply a live thread whose `seen` is at most what each waiter has seen |
| `WakeSafety.RunKeeps` | `dynamic-config-python/python/dynamic_config/_notify.py:151-236` | the same over whole runs |
| `WakeTheorems.ReachableHolds` | `dynamic-config-python/python/dynamic_config/_notify.py:165-236` | the invariant holds in every state reachable from a fresh configuration, for both notifier classes |
| `WakeTheorems.NoLostWakeUp` | `dynamic-config-python/python/dynamic_config/_notify.py:86-102` | a parked stream that some counter is ahead of always has its future resolved already, or a notifier thread that is awake and can take its step |
| `WakeTheorems.DistanceFalls` | `dynamic-config-python/python/dynamic_config/_notify.py:104-136` | no step of anyone takes a parked, outrun stream farther from its wake-up; every step of the thread brings it closer |
| `WakeTheorems.ThreadAloneSettles` | `dynamic-config-python/python/dynamic_config/_notify.py:126-148` | the thread alone resolves such a stream within a bounded number of steps, bound given |
| `WakeTheorems.EnoughThreadStepsSettle` | `dynamic-config-python/python/dynamic_config/_notify.py:104-148` | in every run, whatever the others do: after as many thread steps as that bound the future of a stream that stayed parked is resolved |
| `WakeTheorems.QuiescentIsCaughtUp` | `dynamic-config-python/python/dynamic_config/_config.py:1207-1244` | with nothing left to do, every live stream has seen exactly the real generation and, for `events()`, the real refusal count |
| `WakeTheorems.AwaitedWakeIsFresh` | `dynamic-config-python/python/dynamic_config/_config.py:1229-1244` | an awaited wake names counters that were reached; if its generation is news it carries a model at least as new as that generation |
| `WakeTheorems.RefusalFirst` | `dynamic-config-python/python/dynamic_config/_config.py:1318-1342` | a wake carrying both a refusal and an install reports the refusal, then the install, and marks both as seen |
| `WakeTheorems.ReportsIncrease` | `dynamic-config-python/python/dynamic_config/_config.py:1215-1244` | over any run a stream reports strictly increasing generations and refusal counts, none past the real counters |
| `WakeTheorems.ReportsSinceOpened` | `dynamic-config-python/python/dynamic_config/_config.py:1207-1209` | over any run, every install a stream reports came after the generation it read when it was opened |
| `WakeTheorems.RefusalsSinceOpened` | `dynamic-config-python/python/dynamic_config/_config.py:1290-1294` | and every refusal it reports came after the count it read |
| `WakeTheorems.AtRestNewestIsReported` | `dynamic-config-python/python/dynamic_config/_config.py:1207-1244` | at rest the newest install a live stream has reported is the newest there is, and it has reported none if and only if there was none since it was opened |
| `WakeTheorems.AtRestRefusalIsReported` | `dynamic-config-python/python/dynamic_config/_config.py:1290-1342` | likewise the newest refusal |
| `WakeTheorems.SleepsIff` | `dynamic-config-python/python/dynamic_config/_config.py:1215-1227` | a stream awaits its future if and only if no counter has moved past what it has seen |
| `WakeTheorems.ModelIsForInstall` | `dynamic-config-python/src/config/mod.rs:916-926` | the thread reads a model if and only if the generation is news to it |
| `WakeTheorems.ChangesSeesInstallsOnly` | `dynamic-config-python/python/dynamic_config/_notify.py:151-163` | however many refusals there were, a `changes()` stream reports none |
| `WakeTheorems.RefusalIsNoNews` | `dynamic-config-python/python/dynamic_config/_notify.py:104-116` | a refusal wakes the `changes()` thread, which goes back to sleep having changed nothing but the count |
| `WakeTheorems.EndsOnlyFromDirectRead` | `dynamic-config-python/python/dynamic_config/_config.py:1305-1330` | without a release, a stream ends if and only if it handles a wake it read directly, past its own generation, that came without a model |
| `WakeTheorems.DirectReadIsLiveIffPublished` | `dynamic-config-python/python/dynamic_config/_config.py:1305-1311` | a direct read gives such a wake if and only if the generation is news and no publish hook has run yet |
| `WakeTheorems.LiveForever` | `dynamic-config-python/python/dynamic_config/_config.py:222-231` | once one publish hook has run, no live stream ever ends by itself, over any run |
| `WakeWindow.SerialStep` | `dynamic-config-python/src/config/inner.rs:263-283` | with installs that do not overlap, the attribute of the Python object lags the generation by exactly the install whose hook is pending |
| `WakeWindow.ServesNewestIff` | `dynamic-config-python/python/dynamic_config/_config.py:222-231` | over every run, overlapping installs included: the attribute holds the newest model if and only if the last hook to run was the newest install's |
| `WakeWindow.SerialServesNewest` | `dynamic-config-python/python/dynamic_config/_config.py:222-231` | if installs do not overlap, at rest the newest model is served |
| `WakeWindow.OldModelAtRest` | `dynamic-config-python/src/config/inner.rs:273-283` | a reachable state at rest, after two overlapping installs, that serves the older model |
| `WakeWindow.DirectReadIsFreshIff` | `dynamic-config-python/python/dynamic_config/_config.py:1215-1227` | while installs do not overlap, a direct read gets the model of the generation it names, or a newer one, if and only if no hook is pending or the generation has moved on since |
| `WakeWindow.StreamCanEndUnreleased` | `dynamic-config-python/python/dynamic_config/_config.py:1219-1224` | a reachable state in which a stream opened before the first install has ended although nothing was released |
| `WakeWindow.DirectReadCanBeStale` | `dynamic-config-python/python/dynamic_config/_config.py:1219-1227` | a reachable state in which a stream reported install 2 with the model of install 1 |
| `Monitor.SleepersMissNothing` | `dynamic-config-python/src/config/mod.rs:833-840` | under every interleaving a sleeping wait has seen every counter it watches, or its notification is pending with the lock held |
| `Monitor.AnswersAreNews` | `dynamic-config-python/src/config/mod.rs:847-926` | neither wait answers for counters that have not moved past what its caller had seen |
| `Monitor.MutualExclusion` | `dynamic-config-python/src/config/inner.rs:371-378` | two threads never own the generation lock at once |
| `Monitor.CountersCount` | `dynamic-config-python/src/config/inner.rs:371-378` | over every run the generation is the number of installs, and the other counter that of refusals, that have moved it |
| `Monitor.NewsIsAnswered` | `dynamic-config-python/src/config/mod.rs:901-911` | from a free lock a waiter with news answers with the current counters in two turns of its own |
| `Publication.Inner.Validate` | `dynamic-config-python/src/config/inner.rs:163-204` | an accepted tree is staged under a fresh sequence number, a refused one changes nothing |
| `Publication.Inner.Commit` | `dynamic-config-python/src/config/inner.rs:212-286` | publishes the staged model once when its tree is the installed one, else validates again; fails only when that validation refuses |
| `Publication.Inner.Install` | `dynamic-config-python/src/config/mod.rs:1371-1379` | the two commit attempts of one install: the hook (not on the first install) and the explicit one |
| `Publication.Inner.LoadOnly` | `dynamic-config-python/src/config/mod.rs:487-542` | hands back the candidate its own load validated; only the staged slot changes |
| `Publication.Inner.Reload` | `dynamic-config-python/src/config/mod.rs:548-557` | `init` and `reload`: succeeds exactly when the load was accepted |
| `Publication.Inner.Prepare` | `dynamic-config-python/src/config/mod.rs:569-588` | a token for an accepted load, nothing for a refused one |
| `Publication.Inner.CommitToken` | `dynamic-config-python/src/config/mod.rs:596-614` | the token is consumed whatever happens; an unknown one changes nothing and fails |
| `Publication.CommitKeeps` | `dynamic-config-python/src/config/inner.rs:205-211` | a successful commit leaves a validation of the installed tree served, staged and claimed |
| `Publication.InstallKeeps` | `dynamic-config-python/src/config/inner.rs:205-286` | two attempts publish at most once: by how much the generation moves is given for every case |
| `Publication.FromFresh` | `dynamic-config-python/src/config/mod.rs:472-628` | after any sequence of operations: the staged number is the newest, nothing past it was claimed, what is served passed the schema |
| `Publication.ReloadIsOneGeneration` | `dynamic-config-python/src/config/mod.rs:472-481` | at any point of any run an accepted `init`/`reload` moves the generation by exactly one and serves the model of its own load; a refused one changes nothing at all |
| `Publication.TokenCommitIsAtMostOneGeneration` | `dynamic-config-python/src/config/mod.rs:590-614` | a token commit moves the generation by at most one; it serves the prepared tree or leaves readers where they were |
| `Publication.SilentCommitIsAlreadyServed` | `dynamic-config-python/src/config/inner.rs:229-236` | a successful token commit moves no generation if and only if its tree's newest validation is already the one served |
| `Publication.QuietRun` | `dynamic-config-python/src/config/mod.rs:483-628` | over any run of loads, prepares and discards, accepted or refused, what readers see and the claimed number stand still |
| `Publication.DiscardUndoesPrepare` | `dynamic-config-python/src/config/mod.rs:616-628` | discarding leaves exactly what a bare load would have left, and the token counter one further |
| `Claims.StepKeeps` | `dynamic-config-python/src/config/inner.rs:163-286` | every atomic action of any number of loads, commits and replacements keeps: claimed ≤ handed out, staged, cached and answered models validated or replaced, claims in increasing order |
| `Claims.ClaimedAtMostOnce` | `dynamic-config-python/src/config/inner.rs:221-238` | under every interleaving no sequence number is claimed twice and no claim passes the numbers handed out |
| `Claims.CachedIsLegitimate` | `dynamic-config-python/src/config/mod.rs:652-674` | every model ever cached came out of a validation or was handed to `replace` |
| `Claims.ReplacementIsServed` | `dynamic-config-python/src/config/mod.rs:652-674` | `replace(model)` caches that very model, whatever runs in between |
| `Claims.ClaimIsServed` | `dynamic-config-python/src/config/inner.rs:221-281` | a commit that claims a number caches the model staged under it, whatever runs in between |
| `Claims.LoadsNeverPublish` | `dynamic-config-python/src/config/mod.rs:487-542` | a load never claims, publishes or moves the generation, over any run |
| `Claims.RefusedCallPublishesNothing` | `dynamic-config-python/src/config/inner.rs:240-261` | a call whose tree the schema refuses changes nothing then or later, a re-validating commit included |
| `Claims.GenerationsAreClaims` | `dynamic-config-python/src/config/inner.rs:267-281` | with every call finished the generation is the number of claims, of publications by the re-validating arm and of replacements; claims, not reloads, since one reload can claim twice |
| `Claims.SecondAttemptIff` | `dynamic-config-python/src/config/inner.rs:221-261` | after any run in between, the second attempt of an install ends at once, publishing nothing, if and only if the slot still holds its tree under a claimed number |
| `Claims.SettledStepIff` | `dynamic-config-python/src/config/inner.rs:163-195` | a step breaks that condition if and only if it stages another tree, or a number past the last claim |
| `Claims.SecondAttemptIsSilent` | `dynamic-config-python/src/config/inner.rs:229-236` | over whole runs without such a staging the second attempt publishes nothing |
| `Claims.FirstHarm` | `dynamic-config-python/src/config/inner.rs:240-243` | and if it finds the condition broken, such a staging happened in between |
| `Claims.OverlappingLoadPublishesTwice` | `dynamic-config-python/src/config/inner.rs:240-261` | a reachable state: one reload, an overlapping `load()`, two generations for one claim |
| `Claims.SameTreeLoadPublishesTwice` | `dynamic-config-python/src/config/inner.rs:221-238` | a reachable state: one reload, an overlapping `load()` of the same tree, two claims and two generations, the re-validating arm never entered |
| `Claims.RereadCanPublishAnotherTree` | `dynamic-config-python/src/config/inner.rs:249-258` | a reachable state: a commit of tree 1 published a model of tree 2 |
| `Claims.RereadIsOwnTreeIff` | `dynamic-config-python/src/config/inner.rs:249-256` | the re-read publishes a validation of the commit's own tree if and only if the staged tree is still its own |
| `Claims.LoadAnswersOwnTreeIff` | `dynamic-config-python/src/config/mod.rs:521-534` | the second try of `load()` answers with a model of its own tree if and only if the slot still holds that tree |
| `Claims.LoadCanAnswerAnotherTree` | `dynamic-config-python/src/config/mod.rs:497-534` | a reachable state: a `load()` of tree 1 handed back a model of tree 3 |
| `Group.ConfigGroup.Make` | `dynamic-config-python/python/dynamic_config/_group.py:70-87` | a group is accepted if and only if it has members, distinct keys and a concurrency of at least one if any |
| `Group.ConfigGroup.ReloadAtomic` | `dynamic-config-python/python/dynamic_config/_group.py:144-168` | the outcome and every member's whole state afterwards, for any size of group, any answers, and anything other threads do to a member between its prepare and its commit or discard |
| `Group.ConfigGroup.PrepareAll` | `dynamic-config-python/python/dynamic_config/_group.py:146-155` | stops at the first refusal, and then every token taken so far has been discarded, whatever other threads did to those members |
| `Group.ConfigGroup.CommitAll` | `dynamic-config-python/python/dynamic_config/_group.py:157-168` | stops at the first commit that raises, and then every token still to come has been discarded |
| `Group.ConfigGroup.DiscardAll` | `dynamic-config-python/python/dynamic_config/_group.py:171-174` | every listed token, and nothing else, is gone |
| `Group.OutcomeNames` | `dynamic-config-python/python/dynamic_config/_group.py:146-168` | a refusal names the first member that refused, a raise the first whose commit raised, and success means neither |
| `Group.RefusalChangesNothing` | `dynamic-config-python/python/dynamic_config/_group.py:136-138` | if any member refuses, cache, generation and installed tree of every member are what the other threads left, and what they were if those only loaded, prepared and discarded |
| `Group.SuccessInstallsAll` | `dynamic-config-python/python/dynamic_config/_group.py:128-142` | if no member refuses and no commit raises, every member serves a validation of exactly the tree it prepared |
| `Group.NoTokenLeft` | `dynamic-config-python/python/dynamic_config/_group.py:163-174` | on every exit, a commit raising midway included, the token the call took from a member is gone and its other tokens are those the other threads left |
| `Group.RaiseSplitsTheGroup` | `dynamic-config-python/python/dynamic_config/_group.py:162-168` | a raise midway: members before it serve their new trees; at it and after it readers see what the other threads left |
| `Group.RaisesIff` | `dynamic-config-python/src/config/mod.rs:596-614` | whatever other threads did in between, a commit raises if and only if its token was taken, or another tree is staged by then and the schema refuses the prepared tree each time it is asked again |
| `Group.LoadsRaiseIff` | `dynamic-config-python/src/config/inner.rs:240-247` | with loads only in between, the last accepted one decides which tree is staged |
| `Group.AloneNeverRaises` | `dynamic-config-python/python/dynamic_config/_group.py:159-164` | a group nobody else touches never raises in its commit half |
| `FinalGate.CounterIsExact` | `dynamic-config-python/src/gate.rs:38-50` | over every interleaving the counter is the number of calls between increment and decrement |
| `FinalGate.DrainsIff` | `dynamic-config-python/src/gate.rs:64-74` | the exit handler leaves by draining if and only if no call is between its increment and its decrement |
| `FinalGate.DrainedMeansNeverAgain` | `dynamic-config-python/src/gate.rs:54-75` | once the exit handler raised the flag and read zero, no call is inside Python, then or ever after |
| `FinalGate.LateCallsBackOut` | `dynamic-config-python/src/gate.rs:39-44` | a call arriving after the flag backs out and leaves no trace |
| `FinalGate.DeadlineExitPromisesNothing` | `dynamic-config-python/src/gate.rs:64-70` | a run that leaves by the deadline with a call still inside |
| `Backpressure.SerialStep` | `dynamic-config-python/python/dynamic_config/_config.py:1656-1673` | each critical section of a SERIAL gate keeps one call at a time and every submission accounted for, in order |
| `Backpressure.LatestStep` | `dynamic-config-python/python/dynamic_config/_config.py:1650-1673` | each critical section of a LATEST gate keeps one call at a time, at most one waiting, and the newest submission last |
| `Backpressure.SerialDropsNothing` | `dynamic-config-python/python/dynamic_config/_config.py:1656-1673` | SERIAL, any interleaving: one call at a time; started, starting and queued calls together are the submissions in lock order; idle means all of them ran |
| `Backpressure.LatestEndsOnTheNewest` | `dynamic-config-python/python/dynamic_config/_config.py:1650-1673` | LATEST, any interleaving: one call at a time, at most one waiting, calls in submission order; idle means the last started is the last submitted |
| `Backpressure.EveryCallStarts` | `dynamic-config-python/python/dynamic_config/_config.py:1643-1663` | EVERY and CANCEL_PREVIOUS, any interleaving: no call waits, each is started in the order submitted |
| `Backpressure.UnfinishedCallBlocks` | `dynamic-config-python/python/dynamic_config/_config.py:1775-1798` | until the running call calls `finished()`, nothing else is ever started |
| `ParallelWork.Each` | `dynamic-config-python/python/dynamic_config/_group.py:332-347` | runs everything, or up to the first failure when told to stop; what leaves the call is the first failure in list order |
| `ParallelWork.StepKeeps` | `dynamic-config-python/python/dynamic_config/_group.py:414-429` | each worker step keeps: started and pending make up the list, no job runs twice, the error list is the jobs that raised |
| `ParallelWork.JoinedOutcome` | `dynamic-config-python/python/dynamic_config/_group.py:406-443` | under every schedule the jobs started are a duplicate-free prefix, the errors are exactly those that raised, and everything ran unless told to stop |
| `ParallelWork.BoundedConcurrency` | `dynamic-config-python/python/dynamic_config/_group.py:406-436` | never more jobs at once than `concurrency`; as many workers as that and the list allow, each free to take the next job |
| `ParallelWork.NothingStartsAfterFailure` | `dynamic-config-python/python/dynamic_config/_group.py:414-420` | told to stop, nothing starts once a failure is recorded |
| `ParallelWork.SchedulesEnd` | `dynamic-config-python/python/dynamic_config/_group.py:436-440` | every schedule is at most as long as the work left when it began |
| `MsgspecSecrets.Walk` | `dynamic-config-python/python/dynamic_config/_msgspec.py:195-246` | the walk terminates on every table, cyclic or not, with the paths the specification gives |
| `MsgspecSecrets.WalkField` | `dynamic-config-python/python/dynamic_config/_msgspec.py:211-244` | one field: itself when secret or holding secrets in a recognised container, else the paths below it |
| `MsgspecSecrets.ListsIff` | `dynamic-config-python/python/dynamic_config/_msgspec.py:231-241` | something is listed for a struct if and only if a secret is declared below it without entering a struct twice |
| `MsgspecSecrets.ReachedIsCovered` | `dynamic-config-python/python/dynamic_config/_msgspec.py:195-264` | on every table: a position the walk reaches, down to the first field redacted whole, has an equal or ancestor path in the list |
| `MsgspecSecrets.CoveredIff` | `dynamic-config-python/python/dynamic_config/_msgspec.py:195-264` | on every table and for every path: covered if and only if its segments, read from the struct, run along field names through structs the walk enters, none twice, to a field redacted whole |
| `MsgspecSecrets.CoveredIffReached` | `dynamic-config-python/python/dynamic_config/_msgspec.py:195-264` | position by position, where no name on the way misleads: covered if and only if, down to that field, no struct is entered twice and each is one the walk descends into at that very path |
| `MsgspecSecrets.NamedIsUnmistaken` | `dynamic-config-python/python/dynamic_config/_msgspec.py:211-246` | no name misleads where names hold no dot, differ within a struct, and differ between two structs only where one field brings both together; two structs under different fields may share them; keys of elements taken for fields are none of their names |
| `MsgspecSecrets.Coverage` | `dynamic-config-python/python/dynamic_config/_msgspec.py:195-246` | every position reached through unions, recognised containers and structs by their own names, none repeated, is covered |
| `MsgspecSecrets.CoveredIffNoRepeat` | `dynamic-config-python/python/dynamic_config/_msgspec.py:205-208` | for such positions, repeats allowed, where no name misleads: covered if and only if the chain of structs down to the first field redacted whole repeats none |
| `MsgspecSecrets.AcyclicIsCovered` | `dynamic-config-python/python/dynamic_config/_msgspec.py:195-204` | on a table without cycles every position reached through unions, recognised containers and structs by their own names is covered |
| `MsgspecSecrets.SequenceIsMissed` | `dynamic-config-python/python/dynamic_config/_msgspec.py:249-264` | `users: Sequence[Login]`: nothing listed covers `users.0.password` |
| `MsgspecSecrets.GenericStructIsMissed` | `dynamic-config-python/python/dynamic_config/_msgspec.py:221-228` | a field of a parametrised struct: nothing listed covers its password |
| `MsgspecSecrets.AliasIsMissed` | `dynamic-config-python/python/dynamic_config/_schema.py:62-74` | a flat struct whose field is a `type` alias or `NewType` of a secret: nothing listed covers it |
| `MsgspecSecrets.RepeatIsNotCovered` | `dynamic-config-python/python/dynamic_config/_msgspec.py:205-206` | a cyclic struct whose child's password no listed path covers |
| `MsgspecSecrets.RepeatBelowTheCut` | `dynamic-config-python/python/dynamic_config/_msgspec.py:214-216` | a chain that repeats a struct below a field redacted whole, and is covered |
| `MsgspecSecrets.ListedIff` | `dynamic-config-python/python/dynamic_config/_msgspec.py:195-246` | the listed paths are exactly those of the ways down through the named structs to a field redacted whole |
| `MsgspecSecrets.PrecisionIff` | `dynamic-config-python/python/dynamic_config/_msgspec.py:218-244` | where names are apart within a struct and within a field: a listed path has a secret position at or below it if and only if its way enters structs only where a value has their fields and ends on a field that can hold a secret |
| `MsgspecSecrets.SequenceIsMislisted` | `dynamic-config-python/python/dynamic_config/_msgspec.py:243-244` | `users: Sequence[Login]` lists `users.password`, and no position is at or below that |
| `MsgspecSecrets.Precision` | `dynamic-config-python/python/dynamic_config/_msgspec.py:211-246` | where every origin is recognised, every listed path has a secret position at or below it; where there are no containers it is that secret's own path |
| `PydanticSecrets.ListKeys` | `dynamic-config-python/python/dynamic_config/_pydantic.py:57-74` | the field's name and every alias name, in order, without repeats |
| `PathCover.DeduplicatedInOrder` | `dynamic-config-python/python/dynamic_config/_pydantic.py:150` | what is listed keeps the order of its first occurrences, nothing twice |
| `PydanticSecrets.AliasesAreCovered` | `dynamic-config-python/python/dynamic_config/_pydantic.py:19-54` | wherever an alias of any shape reads, its list of names holds that place or an ancestor of it |
| `PydanticSecrets.NamePrefixIs` | `dynamic-config-python/python/dynamic_config/_pydantic.py:29-32` | an `AliasPath` is listed with all its names up to its first index, nothing else cut off |
| `PydanticSecrets.KeyIsOfSpelling` | `dynamic-config-python/python/dynamic_config/_pydantic.py:57-74` | and every key listed is, or is above, a spelling the field really has |
| `PydanticSecrets.Walk` | `dynamic-config-python/python/dynamic_config/_pydantic.py:118-150` | on every schema: the paths the specification gives when the walk returns, a recursion error when it does not |
| `PydanticSecrets.WalkUnder` | `dynamic-config-python/python/dynamic_config/_pydantic.py:153-190` | one field: redacted whole when a member or a recognised container in it is secret, else the paths of its members, roots at the same path; a root met again there recurses without end |
| `PydanticSecrets.ReturnsIff` | `dynamic-config-python/python/dynamic_config/_pydantic.py:176-190` | the walk returns if and only if no chain of root models, from a field of a model it enters and each a member of the content of the one before, comes back to a root of its own |
| `PydanticSecrets.RootOfItselfNeverReturns` | `dynamic-config-python/python/dynamic_config/_pydantic.py:179-185` | a `RootModel` that is its own content through a union: the walk does not return |
| `PydanticSecrets.ContainsIff` | `dynamic-config-python/python/dynamic_config/_pydantic.py:263-300` | true if and only if the declaration names a secret, without entering a model twice, at most eight recursions of arguments, fields and roots away, those before it counted |
| `PydanticSecrets.HoldsIff` | `dynamic-config-python/python/dynamic_config/_pydantic.py:234-260` | true if and only if it names one that way inside a recognised container |
| `PydanticSecrets.EightStepsAreFound` | `dynamic-config-python/python/dynamic_config/_pydantic.py:172-174` | every secret in a recognised container at most eight steps of arguments, fields and roots down has its field redacted whole |
| `PydanticSecrets.ListsListedIff` | `dynamic-config-python/python/dynamic_config/_pydantic.py:243-246` | lists in lists: the field is listed if and only if there are at most eight of them above the secret |
| `PydanticSecrets.NestedListedIff` | `dynamic-config-python/python/dynamic_config/_pydantic.py:265-266` | a list of models in models: the field is listed if and only if there are at most seven models down to the secret |
| `PydanticSecrets.DeepModelIsMissed` | `dynamic-config-python/python/dynamic_config/_pydantic.py:265-266` | with eight models and more, nothing listed covers the secret |
| `PydanticSecrets.ReachedIsCovered` | `dynamic-config-python/python/dynamic_config/_pydantic.py:118-190` | on every schema: a position the walk reaches, however the file spells the way, has an equal or ancestor path in the list |
| `PydanticSecrets.CoveredIff` | `dynamic-config-python/python/dynamic_config/_pydantic.py:118-190` | on every schema and for every path: covered if and only if its segments, read from the model, run along keys of fields through models the walk enters, none twice, to a field redacted whole |
| `PydanticSecrets.CoveredIffReached` | `dynamic-config-python/python/dynamic_config/_pydantic.py:118-190` | position by position, where no key on the way misleads: covered if and only if, down to that field, no model is entered twice, each is entered at that very path, and the file spells each field as one of its keys |
| `PydanticSecrets.TellingIsUnmistaken` | `dynamic-config-python/python/dynamic_config/_pydantic.py:140-190` | no key misleads where, within a model and within what one field brings together through unions and roots, a key and a spelling on one branch are of one field, a shortened key is not continued by a key below it, and keys of elements taken for fields begin none of theirs |
| `PydanticSecrets.ModelIsCovered` | `dynamic-config-python/python/dynamic_config/_pydantic.py:118-190` | what is enough: unions, recognised containers with the secret at most eight steps down, models and roots by their own names and entered once, no nested model below an alias cut short |
| `PydanticSecrets.ModelIsPrecise` | `dynamic-config-python/python/dynamic_config/_pydantic.py:143-150` | every listed path is at or below a key of a field whose declaration names a secret |
| `PydanticSecrets.IndexedModelIsMissed` | `dynamic-config-python/python/dynamic_config/_pydantic.py:29-32` | a nested model read through `AliasPath("login", 0)`: nothing listed covers its secret |
| `PydanticSecrets.SequenceIsMissed` | `dynamic-config-python/python/dynamic_config/_pydantic.py:208-217` | `login: Sequence[Model]`: nothing listed covers an element's secret |
| `PydanticSecrets.RepeatIsMissed` | `dynamic-config-python/python/dynamic_config/_pydantic.py:130-133` | a model inside itself: nothing listed covers the inner one's password |
| `PydanticSecrets.AliasIsMissed` | `dynamic-config-python/python/dynamic_config/_pydantic.py:193-199` | a flat model whose field is a `NewType` or `type` alias of `SecretStr`: nothing listed covers it |
| `Coercion.CoerceValue` | `dynamic-config-python/python/dynamic_config/_dataclasses.py:122-157` | tries the members in order and returns the first that fits |
| `Coercion.MembersMean` | `dynamic-config-python/python/dynamic_config/_dataclasses.py:90-114` | flattening unions and `Annotated` does not change which values inhabit a type |
| `Coercion.Soundness` | `dynamic-config-python/python/dynamic_config/_dataclasses.py:122-337` | for every type the validator really checks, recursive dataclasses included, what comes out inhabits the declared type at every depth |
| `Coercion.CoerceIff` | `dynamic-config-python/python/dynamic_config/_dataclasses.py:122-157` | a value comes out if and only if the first member that does not refuse, in the order declared, gives it; `None` and `Any` apart |
| `Coercion.OneIff` | `dynamic-config-python/python/dynamic_config/_dataclasses.py:160-305` | what each member makes of a value, exactly: containers item by item in order, tables under their keys, dataclasses field by field, scalars as themselves or converted |
| `Coercion.BuildIff` | `dynamic-config-python/python/dynamic_config/_dataclasses.py:308-337` | a dataclass is built if and only if every key is declared and every field has what its own entry gives, or its default where there is no entry |
| `Coercion.BuildFitsIff` | `dynamic-config-python/python/dynamic_config/_dataclasses.py:308-337` | it can be built if and only if every key is declared, every field without a default is supplied and every supplied value fits |
| `Coercion.OneRaisedIff` | `dynamic-config-python/python/dynamic_config/_dataclasses.py:245-258` | exactly what raises and is no validation error: an item of a set that does not hash, or such an exception met inside before anything is refused |
| `Coercion.PassedSoundIff` | `dynamic-config-python/python/dynamic_config/_dataclasses.py:186-188` | an annotation handed back as it came (`NewType`, `Sequence[...]`, `Mapping[...]`, a parametrised dataclass) is checked soundly if and only if every value inhabits it |
| `Coercion.NumberPassesForSequence` | `dynamic-config-python/python/dynamic_config/_dataclasses.py:304-305` | a number goes through as a `Sequence[int]`, a `Mapping` or a parametrised dataclass, none of which it is |
| `Coercion.DictKeysIff` | `dynamic-config-python/python/dynamic_config/_dataclasses.py:278-288` | `dict[K, T]` is validated soundly if and only if `T` is and every text is a `K`, or no value passes for a `T` |
| `Coercion.NoneOnlyChecksNothing` | `dynamic-config-python/python/dynamic_config/_dataclasses.py:138-141` | an annotation that allows only `None` lets every other value through |
| `Coercion.Identity` | `dynamic-config-python/python/dynamic_config/_dataclasses.py:122-305` | on the stable fragment a value that already fits comes back unchanged, at every depth |
| `Coercion.CoercingTwice` | `dynamic-config-python/python/dynamic_config/_dataclasses.py:122-305` | on that fragment validating twice is validating once |
| `Coercion.UnionOrderConverts` | `dynamic-config-python/python/dynamic_config/_dataclasses.py:145-149` | `float | int` turns a fitting integer into a float |
| `Coercion.AnyRefusesNone` | `dynamic-config-python/python/dynamic_config/_dataclasses.py:132-136` | `Any` alone refuses `None` |
| `Redaction.Scrub` | `dynamic-config-python-remote/src/redact.rs:65-81` | URLs first, then secrets; every safe secret listed is gone, and every URL that neither a redacted form nor the mask can rebuild |
| `Redaction.UrlIsGone` | `dynamic-config-python-remote/src/redact.rs:68-70` | for any text and any list of URLs: a configured URL that no redacted form can take part in occurs nowhere in the result |
| `Redaction.UrlCompleteIff` | `dynamic-config-python-remote/src/redact.rs:68-70` | one URL leaves every text if and only if its redacted form cannot rebuild it |
| `Redaction.ShortHostSurvives` | `dynamic-config-python-remote/src/redact.rs:68-70` | `http://u:pw@h` with its redacted form: a text after which the password is still there |
| `Redaction.OneUrl` | `dynamic-config-python-remote/src/redact.rs:68-70` | a URL found once: the text before it, its redacted form, the text after it |
| `Redaction.UrlsInOrder` | `dynamic-config-python-remote/src/redact.rs:68-70` | each URL is replaced in what the ones before it left |
| `Redaction.CompleteIffNotRebuildable` | `dynamic-config-python-remote/src/redact.rs:68-78` | for every string and every mask: replacing is complete over all texts if and only if the mask laid over the string disagrees with it, or an earlier match gets in the way |
| `Redaction.SafeSecretIsGone` | `dynamic-config-python-remote/src/redact.rs:72-80` | for any text and any list, overlapping or nested: each safe secret occurs nowhere in the result, not even across a replacement |
| `Redaction.StarlessIsSafe` | `dynamic-config-python-remote/src/redact.rs:76` | every non-empty secret without `*` is safe |
| `Redaction.CompleteIffSafe` | `dynamic-config-python-remote/src/redact.rs:73-78` | scrubbing a secret out of every text is complete if and only if it has no `*` at either end and no `***` inside |
| `RedisUrl.Encoded` | `dynamic-config-python-remote/src/redis.rs:221-234` | decoding the result gives back the component |
| `RedisUrl.DecodeEncoded` | `dynamic-config-python-remote/src/redis.rs:216-234` | percent-decoding inverts the encoding on every byte string |
| `RedisUrl.EncodedIsHarmless` | `dynamic-config-python-remote/src/redis.rs:225-230` | only unreserved characters and `%` come out |
| `RedisUrl.EncodedByteIs` | `dynamic-config-python-remote/src/redis.rs:224-230` | letters, digits, `-`, `.`, `_` and `~` stay as they are; every other byte becomes `%` and two upper-case hex digits |
| `RedisUrl.CredentialsRoundTrip` | `dynamic-config-python-remote/src/redis.rs:203-214` | splitting the result at its last `@` and first `:` and decoding gives exactly the two arguments and the original text after the last `@`; a text without `://` is returned as it was |
| `RedisUrl.SplicedWithoutAt` | `dynamic-config-python-remote/src/redis.rs:203-213` | without an `@` after `://`, everything there is kept behind the new credentials |
| `RedisUrl.SplicedAtLastAt` | `dynamic-config-python-remote/src/redis.rs:208-213` | with one, what follows the last `@` is kept behind them, and nothing before it |
| `RedisUrl.SplicingTwice` | `dynamic-config-python-remote/src/redis.rs:192-198` | splicing twice is splicing the second pair alone |
| `RedisUrl.AddressKeptIff` | `dynamic-config-python-remote/src/redis.rs:208-213` | the spliced URL names the same host and resource if and only if no `@` follows the authority |
| `DottedPaths.Walk` | `dynamic-config-python/python/dynamic_config/_values.py:180-190` | the loop is a lookup segment by segment, missing as soon as one is |
| `DottedPaths.SplitDot` | `dynamic-config-python/python/dynamic_config/_values.py:184` | splitting `p + "." + q` is splitting `p`, then `q` |
| `DottedPaths.JoinSplit` | `dynamic-config-python/python/dynamic_config/_values.py:184` | joining what was split gives the path back |
| `DottedPaths.SubLookup` | `dynamic-config-python/python/dynamic_config/_values.py:123-156` | looking up `q` in `sub(p)` is looking up `p.q` in the whole, for all texts and all missing cases |
| `DottedPaths.SubOfSub` | `dynamic-config-python/python/dynamic_config/_values.py:126-136` | `sub(p).sub(q)` is `sub(p.q)` |
| `DottedPaths.LeafPathsExact` | `dynamic-config-python/python/dynamic_config/_values.py:169-190` | for dot-free keys the list is exactly the paths a lookup resolves to a value or an empty table |
| `DottedPaths.LeafPathsSorted` | `dynamic-config-python/python/dynamic_config/_values.py:178` | and it is strictly increasing |
| `DottedPaths.ListedLeadsBackIff` | `dynamic-config-python/python/dynamic_config/_values.py:169-190` | on any tree, leaf by leaf: the listed path leads a lookup back down its own chain of keys if and only if no key of it holds a dot |
| `DottedPaths.DottedKeyIsListedNotReached` | `dynamic-config-python/python/dynamic_config/_values.py:217-226` | a key with a dot in it, listed under a path that does not resolve |
| `Conversion.TreeToPython` | `dynamic-config-python/src/convert.rs:20-54` | the loops build the converted value of every tree |
| `Conversion.PythonToTree` | `dynamic-config-python/src/convert.rs:77-130` | the loops build the tree, or the first error met |
| `Conversion.RoundTrip` | `dynamic-config-python/src/convert.rs:20-130` | there and back: the tree with each TOML date table collapsed to its text, nothing else changed |
| `Conversion.RoundTripIsIdentityIff` | `dynamic-config-python/src/convert.rs:34-45` | the round trip is the identity if and only if the tree holds no date table |
| `Conversion.AcceptedIff` | `dynamic-config-python/src/convert.rs:83-130` | Python data is accepted if and only if every integer is in [-2^63, 2^64), every float finite, every key text and everything else plain data |
| `Conversion.RoundTripFromPython` | `dynamic-config-python/src/convert.rs:20-130` | in and out again: what is accepted comes back with tuples as lists and a dict that spells a TOML date as its text, nothing else changed |
| `Conversion.ScalarRefused` | `dynamic-config-python/src/convert.rs:83-104` | which error refuses a scalar |
| `Conversion.FirstItemRefused` | `dynamic-config-python/src/convert.rs:119-127` | a list is refused with the error of its first refused element |
| `Conversion.FirstEntryRefused` | `dynamic-config-python/src/convert.rs:107-117` | a dict with that of its first refused entry, a key that is no text included |
| `Conversion.DigitsSurviveIff` | `dynamic-config-python/src/config/handles.rs:154-163` | an engine integer keeps its digits if and only if it is in [-2^63, 2^64) |
| `Conversion.ViewIsRounded` | `dynamic-config-python/src/config/handles.rs:148-176` | read back, the view is the engine's value with integers out of range as the floats they become and non-finite numbers as null, at every depth |
| `Conversion.LosslessIff` | `dynamic-config-python/src/config/handles.rs:148-176` | reading the snapshot's view back gives the engine's value, at every depth, if and only if its integers are in the two 64-bit ranges and its numbers finite |
| `Conversion.ExactViewsDiffer` | `dynamic-config-python/src/config/handles.rs:148-176` | so no two such values have the same view |

## Left out

- Release: `closed`, and the `None` it sends every waiter. It is set without the
  lock, so what it wakes is not part of the protocol proved here.
- `changed_async`: only its registration is modelled (`OtherWaiter`); it has no
  stale-generation test, so no freshness is stated for it.
- Timeouts of the waits and the five-second deadline's clock: a deadline is a
  step that may happen at any time.
- Event loop shutdown, which discards a scheduled wake.
- The status fields `events()` attaches to its reports: reports carry the
  counters and the model they were made for.
- `Wake.Next`: the two counters of one notifier test are read in one step, since
  both move only under the lock the test holds.
- `Publication.Inner.Reload`: does not cover `replace`, which is part of `Claims`.
- `Publication.Inner.LoadOnly`: does not try a second time, which `load()` does
  only when another operation overlaps it; `Claims` has that try.
- `Group.ConfigGroup.ReloadAtomic`: does not cover `BaseException`; an interrupt
  between the halves leaves tokens behind, because only `Exception` is caught.
- `Backpressure.GateObject.Submit`: cancelling the previous task happens outside
  the gate and is not modelled; a cancelled task never calls `finished()`.
- `ParallelWork.JoinedOutcome`: does not cover the coroutine form `_each_async`.
- `MsgspecSecrets.CoveredIffReached`: only where, at each step, no field but the
  position's own begins the rest of its path; else a path can be covered by the
  accident of a name. `CoveredIff` decides every path, accidents included, and that
  what is reached is covered holds without the condition (`ReachedIsCovered`).
- `MsgspecSecrets.CoveredIffNoRepeat`: under the same condition on its position.
- `MsgspecSecrets.PrecisionIff`: where names are dot-free, distinct within a struct
  and apart within what one field brings together, for the same reason.
- `PydanticSecrets.CoveredIffReached`: likewise for keys; `CoveredIff` and
  `ReachedIsCovered` hold without the condition.
- `PydanticSecrets.ModelIsPrecise`: names the field a listed path belongs to, not
  the position, because a shortened alias names a place the file may not have.
- `PydanticSecrets.Walk`: recursion without end is its only way not to return; how
  deep a schema may nest before Python's own limit is not modelled.
- `Coercion.PassedSoundIff`: a `Sequence[...]` is a list or a tuple; text as a
  sequence of characters, `bytes` and `deque` are not counted among its values.
- `Coercion.Soundness`: messages, `__post_init__`, fields with `init=False`, the
  removal of duplicates by `set`, bare containers without parameters and the
  overflow of huge integers turned to floats are not modelled; `fromisoformat`
  and constructors are one abstract function.
- `Conversion.RoundTrip`: floats are reals without bit patterns or rounding;
  an object's key order is its insertion order; enums, secrets, structs and other
  Python objects `from_py` converts are one refused constructor.
- `Conversion.AcceptedIff`: as above, for plain data only.
- `Redaction.Scrub`: which credentials a redacted URL drops is a library's
  decision, so nothing is promised about what URLs leave behind.
- `RedisUrl.Authenticated`: text is its UTF-8 bytes.
- The dataclass adapter's own `secret_paths`, which lists through containers.
- `overrides()`, layers, watching, telemetry, settings bridges, network clients,
  the fluent facade and the engine.
