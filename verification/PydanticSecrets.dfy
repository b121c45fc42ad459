/**
  The secret-path walk over Pydantic models: nested models, `RootModel`s,
  containers behind a depth guard, and every spelling an alias allows; and which
  of the values a file can hold as a secret it covers.
*/
module PydanticSecrets {
  import opened Common
  import opened DottedPaths
  import opened PathCover

  type Id = nat

  // ── Aliases ─────────────────────────────────────────────────────────────

  datatype Segment = Name(name: string) | Index(text: string)

  datatype Alias =
    | NoAlias
    | Named(name: string)
    | AtPath(first: string, rest: seq<Segment>)     // `AliasPath`
    | Choices(choices: seq<Alias>)                   // `AliasChoices`

  /** The names up to the first index, dotted. */
  function NamePrefix(first: string, rest: seq<Segment>): string
    decreases |rest|
  {
    if rest == [] || rest[0].Index? then first else NamePrefix(first + "." + rest[0].name, rest[1..])
  }

  /** `_alias_names`. */
  function AliasNames(alias: Alias): seq<string>
    decreases alias, 1
  {
    match alias
    case NoAlias => []
    case Named(name) => [name]
    case AtPath(first, rest) => [NamePrefix(first, rest)]
    case Choices(choices) => ChoiceNames(choices)
  }

  function ChoiceNames(choices: seq<Alias>): seq<string>
    decreases choices, 0
  {
    if choices == [] then [] else AliasNames(choices[0]) + ChoiceNames(choices[1..])
  }

  /** Where in a file each alias really reads, indices and all. */
  function FullPath(first: string, rest: seq<Segment>): string
    decreases |rest|
  {
    if rest == [] then first
    else FullPath(first + "." + (if rest[0].Name? then rest[0].name else rest[0].text), rest[1..])
  }

  ghost predicate Reads(alias: Alias, spelling: string)
    decreases alias
  {
    match alias
    case NoAlias => false
    case Named(name) => spelling == name
    case AtPath(first, rest) => spelling == FullPath(first, rest)
    case Choices(choices) => exists i :: 0 <= i < |choices| && Reads(choices[i], spelling)
  }

  lemma {:induction false} PrefixCoversPath(first: string, rest: seq<Segment>, whole: string)
    requires Covers(whole, first)
    ensures Covers(whole, FullPath(first, rest))
    decreases |rest|
  {
    if rest != [] {
      var next := first + "." + (if rest[0].Name? then rest[0].name else rest[0].text);
      assert Covers(first, next);
      CoversTransitive(whole, first, next);
      PrefixCoversPath(next, rest[1..], whole);
    }
  }

  lemma {:induction false} NamePrefixCovers(first: string, rest: seq<Segment>)
    ensures Covers(NamePrefix(first, rest), FullPath(first, rest))
    decreases |rest|
  {
    if rest == [] || rest[0].Index? {
      PrefixCoversPath(first, rest, first);
    } else {
      NamePrefixCovers(first + "." + rest[0].name, rest[1..]);
    }
  }

  /** Every place an alias can read is listed, or an ancestor of it is. */
  lemma {:induction false} AliasesAreCovered(alias: Alias, spelling: string) returns (name: string)
    requires Reads(alias, spelling)
    ensures name in AliasNames(alias) && Covers(name, spelling)
    decreases alias, 1
  {
    match alias
    case Named(n) => name := n;
    case AtPath(first, rest) =>
      NamePrefixCovers(first, rest);
      name := NamePrefix(first, rest);
    case Choices(choices) =>
      var i :| 0 <= i < |choices| && Reads(choices[i], spelling);
      name := ChoiceIsCovered(choices, i, spelling);
  }

  lemma {:induction false} ChoiceIsCovered(choices: seq<Alias>, i: nat, spelling: string) returns (name: string)
    requires i < |choices| && Reads(choices[i], spelling)
    ensures name in ChoiceNames(choices) && Covers(name, spelling)
    decreases choices, 0
  {
    if i == 0 {
      name := AliasesAreCovered(choices[0], spelling);
    } else {
      assert choices[1..][i - 1] == choices[i];
      name := ChoiceIsCovered(choices[1..], i - 1, spelling);
    }
  }

  /** Nothing is cut off but what starts with an index. */
  lemma {:induction false} NamePrefixIs(first: string, rest: seq<Segment>, k: nat)
    requires k <= |rest| && (forall i :: 0 <= i < k ==> rest[i].Name?) && (k < |rest| ==> rest[k].Index?)
    ensures NamePrefix(first, rest) == FullPath(first, rest[..k])
    decreases k
  {
    if k > 0 {
      assert rest[..k][1..] == rest[1..][..k - 1];
      NamePrefixIs(first + "." + rest[0].name, rest[1..], k - 1);
    }
  }

  /** And no name is listed but a place the alias reads, or one above it. */
  lemma {:induction false} NameIsRead(alias: Alias, name: string) returns (spelling: string)
    requires name in AliasNames(alias)
    ensures Reads(alias, spelling) && Covers(name, spelling)
    decreases alias, 1
  {
    match alias
    case Named(n) => spelling := n;
    case AtPath(first, rest) =>
      NamePrefixCovers(first, rest);
      spelling := FullPath(first, rest);
    case Choices(choices) =>
      var i;
      i, spelling := ChoiceIsRead(choices, name);
  }

  lemma {:induction false} ChoiceIsRead(choices: seq<Alias>, name: string) returns (i: nat, spelling: string)
    requires name in ChoiceNames(choices)
    ensures i < |choices| && Reads(choices[i], spelling) && Covers(name, spelling)
    decreases choices, 0
  {
    if name in AliasNames(choices[0]) {
      i := 0;
      spelling := NameIsRead(choices[0], name);
    } else {
      i, spelling := ChoiceIsRead(choices[1..], name);
      i := i + 1;
    }
  }

  // ── Schemas ─────────────────────────────────────────────────────────────

  /** What stands in front of the brackets. */
  datatype Origin =
    | Transparent                  // `Optional`, unions: the value stays where it is
    | Recognised                   // `list`, `set`, `frozenset`, `tuple`, `dict` and what derives from them
    | Other(meaning: Ann)          // anything else, and what a value of it is

  /** A type annotation: `Generic` is an origin with its arguments in order, or a
      name with none.  `Other` stands for `Sequence` or `deque` (a container), a
      dataclass with its parameters or a `TypedDict` (a model of its fields), a
      `NewType` or `type` alias (what it names, unrolled as deep as a value goes). */
  datatype Ann =
    | Plain
    | Secret                                  // `SecretStr`, `SecretBytes`
    | Model(id: Id)
    | Root(id: Id)                            // a `RootModel`
    | Dots
    | Generic(origin: Origin, args: seq<Ann>)

  datatype Field = Field(name: string, validationAlias: Alias, alias: Alias, ann: Ann)

  /** The fields of every model and record, and the content of every `RootModel`. */
  datatype Schema = Schema(models: map<Id, seq<Field>>, roots: map<Id, Ann>)

  /** `keys_of`. */
  function KeysOf(f: Field): (keys: seq<string>)
    ensures f.name in keys
  {
    AddNew(AddNew([f.name], AliasNames(f.validationAlias)), AliasNames(f.alias))
  }

  method ListKeys(f: Field) returns (keys: seq<string>)
    ensures keys == KeysOf(f)
  {
    keys := [f.name];
    for a := 0 to 2
      invariant a == 0 ==> keys == [f.name]
      invariant a == 1 ==> keys == AddNew([f.name], AliasNames(f.validationAlias))
      invariant a == 2 ==> keys == KeysOf(f)
    {
      var names := AliasNames(if a == 0 then f.validationAlias else f.alias);
      ghost var before := keys;
      for k := 0 to |names|
        invariant AddNew(keys, names[k..]) == AddNew(before, names)
      {
        if names[k] !in keys { keys := keys + [names[k]]; }
      }
    }
  }

  ghost predicate Spells(f: Field, spelling: string) {
    spelling == f.name || Reads(f.validationAlias, spelling) || Reads(f.alias, spelling)
  }

  lemma SpellingIsCovered(f: Field, spelling: string) returns (key: string)
    requires Spells(f, spelling)
    ensures key in KeysOf(f) && Covers(key, spelling)
    ensures spelling in KeysOf(f) ==> key == spelling
  {
    if spelling in KeysOf(f) {
      key := spelling;
    } else if Reads(f.validationAlias, spelling) {
      key := AliasesAreCovered(f.validationAlias, spelling);
    } else {
      key := AliasesAreCovered(f.alias, spelling);
    }
  }

  /** And every key is above, or at, a spelling the field has. */
  lemma KeyIsOfSpelling(f: Field, key: string) returns (spelling: string)
    requires key in KeysOf(f)
    ensures Spells(f, spelling) && Covers(key, spelling)
  {
    if key == f.name {
      spelling := key;
    } else if key in AliasNames(f.validationAlias) {
      spelling := NameIsRead(f.validationAlias, key);
    } else {
      spelling := NameIsRead(f.alias, key);
    }
  }

  // ── The two searches ────────────────────────────────────────────────────

  /** `_members`: union members, containers left out. */
  function Members(ann: Ann): seq<Ann>
    decreases ann, 1
  {
    if !ann.Generic? then [ann] else if ann.origin.Recognised? then [] else AllMembers(ann.args)
  }

  function AllMembers(args: seq<Ann>): seq<Ann>
    decreases args, 0
  {
    if args == [] then [] else Members(args[0]) + AllMembers(args[1..])
  }

  const MAX_DEPTH := 8

  /** `_contains_secret`. */
  predicate Contains(s: Schema, ann: Ann, seen: set<Id>, depth: nat)
    decreases MAX_DEPTH + 1 - depth
  {
    depth <= MAX_DEPTH &&
    ((exists m <- Members(ann) ::
        || m.Secret?
        || (m.Root? && m.id in s.roots && Contains(s, s.roots[m.id], seen, depth + 1))
        || (m.Model? && m.id !in seen && m.id in s.models &&
            exists f <- s.models[m.id] :: Contains(s, f.ann, seen + {m.id}, depth + 1)))
     || (ann.Generic? && exists arg <- ann.args :: arg != Dots && Contains(s, arg, seen, depth + 1)))
  }

  /** `_holds_secret_in_container`. */
  predicate Holds(s: Schema, ann: Ann, seen: set<Id>, depth: nat)
    decreases MAX_DEPTH + 1 - depth
  {
    depth <= MAX_DEPTH && ann.Generic? &&
    exists arg <- ann.args ::
      if ann.origin.Recognised? then arg != Dots && Contains(s, arg, seen, depth + 1)
          else Holds(s, arg, seen, depth + 1)
  }

  /** A place in a declaration that names a secret, origins disregarded. */
  datatype Mention =
    | Itself
    | Argument(i: nat, below: Mention)
    | OfField(i: nat, below: Mention)
    | OfRoot(below: Mention)

  /** It names a secret, and no model on the way to it is in `seen` or entered twice. */
  ghost predicate Mentions(s: Schema, ann: Ann, m: Mention, seen: set<Id>)
    decreases m
  {
    match m
    case Itself => ann.Secret?
    case Argument(i, below) => ann.Generic? && i < |ann.args| && Mentions(s, ann.args[i], below, seen)
    case OfField(i, below) =>
      && ann.Model? && ann.id in s.models && ann.id !in seen && i < |s.models[ann.id]|
      && Mentions(s, s.models[ann.id][i].ann, below, seen + {ann.id})
    case OfRoot(below) => ann.Root? && ann.id in s.roots && Mentions(s, s.roots[ann.id], below, seen)
  }

  /** A recognised container is passed before any model is entered. */
  ghost predicate InContainer(ann: Ann, m: Mention)
    decreases m
  {
    m.Argument? && ann.Generic? && m.i < |ann.args| && (ann.origin.Recognised? || InContainer(ann.args[m.i], m.below))
  }

  /** What the depth guard counts, one for each recursion of the search: arguments only on the way to a container. */
  ghost function Steps(s: Schema, ann: Ann, m: Mention): nat
    decreases m
  {
    match m
    case Itself => 0
    case Argument(i, below) =>
      if !ann.Generic? || i >= |ann.args| then 0
      else Steps(s, ann.args[i], below) + if InContainer(ann, m) then 1 else 0
    case OfField(i, below) =>
      if !ann.Model? || ann.id !in s.models || i >= |s.models[ann.id]| then 0
      else Steps(s, s.models[ann.id][i].ann, below) + 1
    case OfRoot(below) => if !ann.Root? || ann.id !in s.roots then 0 else Steps(s, s.roots[ann.id], below) + 1
  }

  ghost predicate Within(s: Schema, ann: Ann, m: Mention, seen: set<Id>, depth: nat) {
    Mentions(s, ann, m, seen) && depth + Steps(s, ann, m) <= 8
  }

  lemma {:induction false} MembersAreTheArguments(args: seq<Ann>, m: Ann)
    ensures m in AllMembers(args) <==> exists i :: 0 <= i < |args| && m in Members(args[i])
  {
    if args != [] {
      MembersAreTheArguments(args[1..], m);
      if i :| 0 <= i < |args| && m in Members(args[i]) {
        if i > 0 { assert m in Members(args[1..][i - 1]); }
      }
      if m in AllMembers(args[1..]) {
        var j :| 0 <= j < |args[1..]| && m in Members(args[1..][j]);
        assert m in Members(args[j + 1]);
      }
    }
  }

  ghost function Size(m: Mention): nat {
    if m.Itself? then 0 else 1 + Size(m.below)
  }

  /** Arguments peeled off: the member a mention goes through. */
  lemma {:induction false} MemberOnTheWay(s: Schema, ann: Ann, m: Mention, seen: set<Id>)
      returns (member: Ann, rest: Mention)
    requires Mentions(s, ann, m, seen) && !InContainer(ann, m)
    ensures member in Members(ann) && Mentions(s, member, rest, seen) && !rest.Argument?
    ensures Steps(s, member, rest) == Steps(s, ann, m) && Size(rest) <= Size(m)
    decreases m
  {
    if m.Argument? {
      member, rest := MemberOnTheWay(s, ann.args[m.i], m.below, seen);
      MembersAreTheArguments(ann.args, member);
    } else {
      member, rest := ann, m;
    }
  }

  lemma {:induction false} WayThroughMember(s: Schema, ann: Ann, member: Ann, rest: Mention, seen: set<Id>)
    returns (m: Mention)
    requires member in Members(ann) && Mentions(s, member, rest, seen) && !member.Generic?
    ensures Mentions(s, ann, m, seen) && Steps(s, ann, m) == Steps(s, member, rest) && !InContainer(ann, m)
    decreases ann
  {
    if ann.Generic? {
      MembersAreTheArguments(ann.args, member);
      var i :| 0 <= i < |ann.args| && member in Members(ann.args[i]);
      var below := WayThroughMember(s, ann.args[i], member, rest, seen);
      m := Argument(i, below);
    } else {
      m := rest;
    }
  }

  predicate ThroughMember(s: Schema, m: Ann, seen: set<Id>, depth: nat)
    requires depth <= MAX_DEPTH
  {
    || m.Secret?
    || (m.Root? && m.id in s.roots && Contains(s, s.roots[m.id], seen, depth + 1))
    || (m.Model? && m.id !in seen && m.id in s.models &&
        exists f <- s.models[m.id] :: Contains(s, f.ann, seen + {m.id}, depth + 1))
  }

  lemma {:induction false} ContainsFinds(s: Schema, ann: Ann, m: Mention, seen: set<Id>, depth: nat)
    requires Within(s, ann, m, seen, depth)
    ensures Contains(s, ann, seen, depth)
    decreases Size(m), 1
  {
    if InContainer(ann, m) {
      ArgumentWithin(s, ann, m, seen, depth);
      ContainsFinds(s, ann.args[m.i], m.below, seen, depth + 1);
      ContainsArgument(s, ann, m.i, seen, depth);
    } else {
      var member, rest := MemberWithin(s, ann, m, seen, depth);
      MemberFinds(s, member, rest, seen, depth);
      ContainsMember(s, ann, member, seen, depth);
    }
  }

  lemma MemberWithin(s: Schema, ann: Ann, m: Mention, seen: set<Id>, depth: nat) returns (member: Ann, rest: Mention)
    requires Within(s, ann, m, seen, depth) && !InContainer(ann, m)
    ensures member in Members(ann) && Within(s, member, rest, seen, depth) && !rest.Argument?
    ensures Size(rest) <= Size(m) && depth <= MAX_DEPTH
  {
    member, rest := MemberOnTheWay(s, ann, m, seen);
  }

  lemma ArgumentWithin(s: Schema, ann: Ann, m: Mention, seen: set<Id>, depth: nat)
    requires Within(s, ann, m, seen, depth) && InContainer(ann, m)
    ensures depth < MAX_DEPTH && m.i < |ann.args| && ann.args[m.i] != Dots && Size(m.below) < Size(m)
    ensures Within(s, ann.args[m.i], m.below, seen, depth + 1)
  {
    DotsMentionNothing(s, m.below, seen);
  }

  lemma DotsMentionNothing(s: Schema, m: Mention, seen: set<Id>)
    ensures !Mentions(s, Dots, m, seen)
  {
  }

  lemma ContainsArgument(s: Schema, ann: Ann, i: nat, seen: set<Id>, depth: nat)
    requires depth <= MAX_DEPTH && ann.Generic? && i < |ann.args|
    requires ann.args[i] != Dots && Contains(s, ann.args[i], seen, depth + 1)
    ensures Contains(s, ann, seen, depth)
  {
    assert ann.args[i] in ann.args;
  }

  lemma ContainsMember(s: Schema, ann: Ann, member: Ann, seen: set<Id>, depth: nat)
    requires depth <= MAX_DEPTH && member in Members(ann) && ThroughMember(s, member, seen, depth)
    ensures Contains(s, ann, seen, depth)
  {
  }

  lemma {:induction false} MemberFinds(s: Schema, member: Ann, rest: Mention, seen: set<Id>, depth: nat)
    requires Within(s, member, rest, seen, depth) && !rest.Argument?
    ensures ThroughMember(s, member, seen, depth)
    decreases Size(rest), 0
  {
    if rest.OfRoot? {
      ContainsFinds(s, s.roots[member.id], rest.below, seen, depth + 1);
    } else if rest.OfField? {
      var f := s.models[member.id][rest.i];
      ContainsFinds(s, f.ann, rest.below, seen + {member.id}, depth + 1);
      assert f in s.models[member.id];
    }
  }

  lemma {:induction false} ContainsIsRight(s: Schema, ann: Ann, seen: set<Id>, depth: nat) returns (m: Mention)
    requires Contains(s, ann, seen, depth)
    ensures Within(s, ann, m, seen, depth)
    decreases MAX_DEPTH + 1 - depth, 1
  {
    if member :| member in Members(ann) && ThroughMember(s, member, seen, depth) {
      var rest := MemberIsRight(s, member, seen, depth);
      m := WayThroughMember(s, ann, member, rest, seen);
    } else {
      var arg :| arg in ann.args && arg != Dots && Contains(s, arg, seen, depth + 1);
      var i :| 0 <= i < |ann.args| && ann.args[i] == arg;
      var below := ContainsIsRight(s, arg, seen, depth + 1);
      m := Argument(i, below);
    }
  }

  lemma {:induction false} MemberIsRight(s: Schema, member: Ann, seen: set<Id>, depth: nat) returns (rest: Mention)
    requires depth <= MAX_DEPTH && ThroughMember(s, member, seen, depth)
    ensures Within(s, member, rest, seen, depth) && !member.Generic?
    decreases MAX_DEPTH + 1 - depth, 0
  {
    if member.Secret? {
      rest := Itself;
    } else if member.Root? {
      var below := ContainsIsRight(s, s.roots[member.id], seen, depth + 1);
      rest := OfRoot(below);
    } else {
      var f :| f in s.models[member.id] && Contains(s, f.ann, seen + {member.id}, depth + 1);
      var i :| 0 <= i < |s.models[member.id]| && s.models[member.id][i] == f;
      var below := ContainsIsRight(s, f.ann, seen + {member.id}, depth + 1);
      rest := OfField(i, below);
      FieldWithin(s, member, i, below, seen, depth);
    }
  }

  lemma FieldWithin(s: Schema, m: Ann, i: nat, below: Mention, seen: set<Id>, depth: nat)
    requires m.Model? && m.id in s.models && m.id !in seen && i < |s.models[m.id]|
    requires Within(s, s.models[m.id][i].ann, below, seen + {m.id}, depth + 1)
    ensures Within(s, m, OfField(i, below), seen, depth)
  {
  }

  /** `_contains_secret` answers for exactly the mentions within the guard. */
  lemma ContainsIff(s: Schema, ann: Ann, seen: set<Id>, depth: nat)
    ensures Contains(s, ann, seen, depth) <==> exists m :: Within(s, ann, m, seen, depth)
  {
    if Contains(s, ann, seen, depth) {
      var m := ContainsIsRight(s, ann, seen, depth);
    }
    if m :| Within(s, ann, m, seen, depth) {
      ContainsFinds(s, ann, m, seen, depth);
    }
  }

  lemma {:induction false} HoldsFinds(s: Schema, ann: Ann, m: Mention, seen: set<Id>, depth: nat)
    requires InContainer(ann, m) && Within(s, ann, m, seen, depth)
    ensures Holds(s, ann, seen, depth)
    decreases Size(m)
  {
    assert ann.args[m.i] in ann.args;
    if ann.origin.Recognised? {
      ContainsFinds(s, ann.args[m.i], m.below, seen, depth + 1);
    } else {
      HoldsFinds(s, ann.args[m.i], m.below, seen, depth + 1);
    }
  }

  lemma {:induction false} HoldsIsRight(s: Schema, ann: Ann, seen: set<Id>, depth: nat) returns (m: Mention)
    requires Holds(s, ann, seen, depth)
    ensures InContainer(ann, m) && Within(s, ann, m, seen, depth)
    decreases MAX_DEPTH + 1 - depth
  {
    var arg :| arg in ann.args &&
      if ann.origin.Recognised? then arg != Dots && Contains(s, arg, seen, depth + 1)
          else Holds(s, arg, seen, depth + 1);
    var i :| 0 <= i < |ann.args| && ann.args[i] == arg;
    var below: Mention;
    if ann.origin.Recognised? {
      below := ContainsIsRight(s, arg, seen, depth + 1);
    } else {
      below := HoldsIsRight(s, arg, seen, depth + 1);
    }
    m := Argument(i, below);
  }

  /** `_holds_secret_in_container` likewise, for mentions in a recognised container. */
  lemma HoldsIff(s: Schema, ann: Ann, seen: set<Id>, depth: nat)
    ensures Holds(s, ann, seen, depth) <==> exists m :: InContainer(ann, m) && Within(s, ann, m, seen, depth)
  {
    if Holds(s, ann, seen, depth) {
      var m := HoldsIsRight(s, ann, seen, depth);
    }
    if m :| InContainer(ann, m) && Within(s, ann, m, seen, depth) {
      HoldsFinds(s, ann, m, seen, depth);
    }
  }

  // ── How deep the two searches look ──────────────────────────────────────

  /** A secret in a recognised container, at most eight steps down, redacts its
      field whole. */
  lemma EightStepsAreFound(s: Schema, ann: Ann, m: Mention, path: string, seen: set<Id>, visiting: set<Id>)
    requires Mentions(s, ann, m, seen) && InContainer(ann, m) && Steps(s, ann, m) <= 8
    ensures PathsUnder(s, ann, path, seen, visiting) == [path]
  {
    HoldsFinds(s, ann, m, seen, 0);
  }

  /** `list[list[... SecretStr ...]]`, `n` deep. */
  function Lists(n: nat): Ann { if n == 0 then Secret else Generic(Recognised, [Lists(n - 1)]) }

  lemma {:induction false} ListsContainIff(s: Schema, n: nat, seen: set<Id>, depth: nat)
    ensures Contains(s, Lists(n), seen, depth) <==> depth + n <= 8
    decreases n
  {
    if n > 0 {
      ListsContainIff(s, n - 1, seen, depth + 1);
      assert Lists(n).args[0] in Lists(n).args;
    } else {
      assert Members(Secret) == [Secret];
    }
  }

  /** Eight lists are looked through, nine are not. */
  lemma ListsListedIff(s: Schema, n: nat, path: string, seen: set<Id>)
    requires n > 0
    ensures PathsUnder(s, Lists(n), path, seen, {}) == if n <= 8 then [path] else []
  {
    ListsContainIff(s, n - 1, seen, 1);
    assert Lists(n).args[0] in Lists(n).args;
  }

  /** `inner: list[M1]`, `M1` holding an `M2` and so on, and a secret in the last. */
  function Nested(n: nat): Schema { Schema(map i: nat | i <= n :: FieldsIn(n, i), map[]) }

  function FieldsIn(n: nat, i: nat): seq<Field> {
    [Field("inner", NoAlias, NoAlias, if i == n then Secret else if i == 0 then USERS else Model(i + 1))]
  }

  const USERS := Generic(Recognised, [Model(1)])

  lemma {:induction false} ModelsContainIff(n: nat, i: nat, seen: set<Id>, depth: nat)
    requires 0 < i <= n && forall id <- seen :: id < i
    ensures Contains(Nested(n), Model(i), seen, depth) <==> depth + (n - i + 1) <= 8
    decreases n - i
  {
    ModelContains(Nested(n), i, FieldsIn(n, i)[0], seen, depth);
    if i < n { ModelsContainIff(n, i + 1, seen + {i}, depth + 1); } else { assert Members(Secret) == [Secret]; }
  }

  /** A model of one field. */
  lemma ModelContains(s: Schema, id: Id, f: Field, seen: set<Id>, depth: nat)
    requires id in s.models && s.models[id] == [f] && id !in seen
    ensures Contains(s, Model(id), seen, depth) <==> depth <= MAX_DEPTH && Contains(s, f.ann, seen + {id}, depth + 1)
  {
    assert Members(Model(id)) == [Model(id)] && f in s.models[id];
  }

  /** Seven models below a list are looked through, eight are not. */
  lemma NestedListedIff(n: nat)
    requires n > 0
    ensures SecretPaths(Nested(n), 0, "", {}) == if n <= 7 then ["inner"] else []
  {
    var s := Nested(n);
    ModelsContainIff(n, 1, {0}, 1);
    assert USERS.args[0] in USERS.args && {} + {0} == {0};
    var f := s.models[0][0];
    var found := if n <= 7 then ["inner"] else [];
    assert "" + "inner" == "inner" && AliasNames(NoAlias) == [] && KeysOf(f) == ["inner"];
    assert PathsUnder(s, USERS, "inner", {0}, {}) == found;
    assert KeyPaths(s, [], USERS, "", {0}) == [] && ["inner"][1..] == [] && found + [] == found;
    assert KeyPaths(s, ["inner"], USERS, "", {0}) == found;
    assert FieldPaths(s, [], "", {0}) == [] && [f][1..] == [];
    assert FieldPaths(s, s.models[0], "", {0}) == found;
  }

  // ── The walk ────────────────────────────────────────────────────────────

  ghost function Unseen(s: Schema, seen: set<Id>): nat { |s.models.Keys - seen| }

  ghost function Unvisited(s: Schema, visiting: set<Id>): nat { |s.roots.Keys - visiting| }

  /** A `RootModel` met again at the same path while its own content is being
      walked: the source makes the call it is in the middle of. */
  predicate Entering(s: Schema, m: Ann, visiting: set<Id>) { m.Root? && m.id in s.roots && m.id !in visiting }

  /** The paths of a walk that returns; where `Returns` fails these are not reached. */
  function SecretPaths(s: Schema, model: Id, prefix: string, seen: set<Id>): seq<string>
    decreases 2 * Unseen(s, seen), 0, 0, 0
  {
    if model in seen || model !in s.models then []
    else
      UnseenFalls(s.models.Keys, seen, model);
      Deduplicated(FieldPaths(s, s.models[model], prefix, seen + {model}))
  }

  function FieldPaths(s: Schema, fields: seq<Field>, prefix: string, seen: set<Id>): seq<string>
    decreases 2 * Unseen(s, seen) + 1, 0, |fields|, 0
  {
    if fields == [] then []
    else KeyPaths(s, KeysOf(fields[0]), fields[0].ann, prefix, seen) + FieldPaths(s, fields[1..], prefix, seen)
  }

  function KeyPaths(s: Schema, keys: seq<string>, ann: Ann, prefix: string, seen: set<Id>): seq<string>
    decreases 2 * Unseen(s, seen), Unvisited(s, {}) + 1, |keys|, 0
  {
    if keys == [] then []
    else PathsUnder(s, ann, prefix + keys[0], seen, {}) + KeyPaths(s, keys[1..], ann, prefix, seen)
  }

  /** `_paths_under`: one secret member decides for the whole field. */
  function PathsUnder(s: Schema, ann: Ann, path: string, seen: set<Id>, visiting: set<Id>): seq<string>
    decreases 2 * Unseen(s, seen), Unvisited(s, visiting), |Members(ann)|, 2
  {
    if Holds(s, ann, seen, 0) || Secret in Members(ann) then [path]
    else MemberPaths(s, Members(ann), path, seen, visiting)
  }

  function MemberPaths(s: Schema, members: seq<Ann>, path: string, seen: set<Id>, visiting: set<Id>): seq<string>
    decreases 2 * Unseen(s, seen), Unvisited(s, visiting), |members|, 1
  {
    if members == [] then []
    else MemberPart(s, members[0], path, seen, visiting) + MemberPaths(s, members[1..], path, seen, visiting)
  }

  function MemberPart(s: Schema, m: Ann, path: string, seen: set<Id>, visiting: set<Id>): seq<string>
    decreases 2 * Unseen(s, seen), Unvisited(s, visiting), 0, 1
  {
    if Entering(s, m, visiting) then
      UnseenFalls(s.roots.Keys, visiting, m.id);
      PathsUnder(s, s.roots[m.id], path, seen, visiting + {m.id})
    else if m.Model? then SecretPaths(s, m.id, path + ".", seen)
    else []
  }

  // ── When it returns ─────────────────────────────────────────────────────

  /** The walk of a model returns: no `RootModel` is met again at its own path
      before a secret member ends the search there. */
  predicate Returns(s: Schema, model: Id, seen: set<Id>)
    decreases 2 * Unseen(s, seen), 0, 0, 0
  {
    model in seen || model !in s.models ||
    (UnseenFalls(s.models.Keys, seen, model);
     forall f <- s.models[model] :: UnderReturns(s, f.ann, seen + {model}, {}))
  }

  predicate UnderReturns(s: Schema, ann: Ann, seen: set<Id>, visiting: set<Id>)
    decreases 2 * Unseen(s, seen) + 1, Unvisited(s, visiting), |Members(ann)|, 2
  {
    Holds(s, ann, seen, 0) || MembersReturn(s, Members(ann), seen, visiting)
  }

  predicate MembersReturn(s: Schema, members: seq<Ann>, seen: set<Id>, visiting: set<Id>)
    decreases 2 * Unseen(s, seen) + 1, Unvisited(s, visiting), |members|, 1
  {
    members == [] || members[0].Secret? ||
    (MemberReturns(s, members[0], seen, visiting) && MembersReturn(s, members[1..], seen, visiting))
  }

  predicate MemberReturns(s: Schema, m: Ann, seen: set<Id>, visiting: set<Id>)
    decreases 2 * Unseen(s, seen) + 1, Unvisited(s, visiting), 0, 1
  {
    if m.Root? && m.id in s.roots then
      m.id !in visiting &&
      (UnseenFalls(s.roots.Keys, visiting, m.id); UnderReturns(s, s.roots[m.id], seen, visiting + {m.id}))
    else m.Model? ==> Returns(s, m.id, seen)
  }

  /** The walk of an annotation comes to the member: nothing ends it before. */
  ghost predicate Leads(s: Schema, ann: Ann, seen: set<Id>, m: Ann) {
    !Holds(s, ann, seen, 0) &&
    exists k :: 0 <= k < |Members(ann)| && Members(ann)[k] == m && Secret !in Members(ann)[..k]
  }

  /** Root models, each come to in the content of the one before. */
  ghost predicate RootChain(s: Schema, ann: Ann, seen: set<Id>, chain: seq<Id>)
    decreases |chain|
  {
    chain == [] ||
    (chain[0] in s.roots && Leads(s, ann, seen, Root(chain[0])) && RootChain(s, s.roots[chain[0]], seen, chain[1..]))
  }

  /** The annotation the chain ends on. */
  ghost function Content(s: Schema, ann: Ann, chain: seq<Id>): Ann
    decreases |chain|
  {
    if chain == [] || chain[0] !in s.roots then ann else Content(s, s.roots[chain[0]], chain[1..])
  }

  /** Some root model of the chain is among `visiting` or is an earlier one. */
  ghost predicate ComesBack(chain: seq<Id>, visiting: set<Id>) {
    exists k :: 0 <= k < |chain| && (chain[k] in visiting || chain[k] in chain[..k])
  }

  /** From an annotation, a chain of root models; then it comes back to itself, or
      leads into a field of a model not entered before, and from there on. */
  datatype Trail = Loop(chain: seq<Id>) | Into(chain: seq<Id>, id: Id, field: nat, below: Trail)

  ghost predicate Endless(s: Schema, ann: Ann, seen: set<Id>, visiting: set<Id>, trail: Trail)
    decreases trail
  {
    RootChain(s, ann, seen, trail.chain) &&
    match trail
    case Loop(chain) => ComesBack(chain, visiting)
    case Into(chain, id, i, below) =>
      && Leads(s, Content(s, ann, chain), seen, Model(id)) && id !in seen && id in s.models && i < |s.models[id]|
      && Endless(s, s.models[id][i].ann, seen + {id}, {}, below)
  }

  lemma ComesBackStep(id: Id, rest: seq<Id>, visiting: set<Id>)
    ensures ComesBack([id] + rest, visiting) <==> id in visiting || ComesBack(rest, visiting + {id})
  {
    var chain := [id] + rest;
    assert forall k :: 0 <= k < |rest| ==> chain[k + 1] == rest[k] && chain[..k + 1] == [id] + rest[..k];
    if k :| 0 <= k < |chain| && (chain[k] in visiting || chain[k] in chain[..k]) {
      if k > 0 { assert rest[k - 1] in visiting + {id} || rest[k - 1] in rest[..k - 1]; }
    }
    if k :| 0 <= k < |rest| && (rest[k] in visiting + {id} || rest[k] in rest[..k]) {
      assert chain[k + 1] in visiting || chain[k + 1] in chain[..k + 1];
    }
    if id in visiting { assert chain[0] in visiting; }
  }

  lemma {:induction false} MembersReturnIff(s: Schema, members: seq<Ann>, seen: set<Id>, visiting: set<Id>)
    ensures MembersReturn(s, members, seen, visiting) <==>
            forall k | 0 <= k < |members| && Secret !in members[..k] :: MemberReturns(s, members[k], seen, visiting)
  {
    if members != [] && !members[0].Secret? {
      MembersReturnIff(s, members[1..], seen, visiting);
      assert forall k :: 0 <= k < |members[1..]| ==>
        members[1..][k] == members[k + 1] && members[..k + 1] == [members[0]] + members[1..][..k];
      if !MembersReturn(s, members[1..], seen, visiting) {
        var k :| 0 <= k < |members[1..]| && Secret !in members[1..][..k]
          && !MemberReturns(s, members[1..][k], seen, visiting);
        assert Secret !in members[..k + 1] && !MemberReturns(s, members[k + 1], seen, visiting);
      }
      if k :| 0 <= k < |members| && Secret !in members[..k] && !MemberReturns(s, members[k], seen, visiting) {
        if k > 0 { assert Secret !in members[1..][..k - 1] && members[1..][k - 1] == members[k]; }
      }
    }
  }

  lemma UnderReturnsIff(s: Schema, ann: Ann, seen: set<Id>, visiting: set<Id>)
    ensures UnderReturns(s, ann, seen, visiting) <==>
            forall m | Leads(s, ann, seen, m) :: MemberReturns(s, m, seen, visiting)
  {
    MembersReturnIff(s, Members(ann), seen, visiting);
    if k :| 0 <= k < |Members(ann)| && Secret !in Members(ann)[..k]
            && !MemberReturns(s, Members(ann)[k], seen, visiting) && !Holds(s, ann, seen, 0) {
      assert Leads(s, ann, seen, Members(ann)[k]);
    }
  }

  lemma ReturnsFields(s: Schema, model: Id, seen: set<Id>)
    ensures Returns(s, model, seen) <==>
            forall i: nat | model !in seen && IsField(s, model, i) ::
              UnderReturns(s, s.models[model][i].ann, seen + {model}, {})
  {
    if model in s.models && model !in seen {
      UnseenFalls(s.models.Keys, seen, model);
      var inner := seen + {model};
      if f :| f in s.models[model] && !UnderReturns(s, f.ann, inner, {}) {
        var i :| 0 <= i < |s.models[model]| && s.models[model][i] == f;
        assert IsField(s, model, i);
      }
      assert forall i: nat | IsField(s, model, i) :: s.models[model][i] in s.models[model];
    }
  }

  lemma {:induction false} FindTrail(s: Schema, ann: Ann, seen: set<Id>, visiting: set<Id>) returns (trail: Trail)
    requires !UnderReturns(s, ann, seen, visiting)
    ensures Endless(s, ann, seen, visiting, trail)
    decreases Unseen(s, seen), Unvisited(s, visiting)
  {
    UnderReturnsIff(s, ann, seen, visiting);
    var m :| Leads(s, ann, seen, m) && !MemberReturns(s, m, seen, visiting);
    if m.Model? {
      ReturnsFields(s, m.id, seen);
      var i: nat :| IsField(s, m.id, i) && !UnderReturns(s, s.models[m.id][i].ann, seen + {m.id}, {});
      UnseenFalls(s.models.Keys, seen, m.id);
      var below := FindTrail(s, s.models[m.id][i].ann, seen + {m.id}, {});
      trail := Into([], m.id, i, below);
    } else {
      var below := Loop([]);
      if m.id !in visiting {
        UnseenFalls(s.roots.Keys, visiting, m.id);
        below := FindTrail(s, s.roots[m.id], seen, visiting + {m.id});
      }
      ComesBackStep(m.id, below.chain, visiting);
      trail := below.(chain := [m.id] + below.chain);
      OneRootMore(s, ann, seen, m.id, below.chain);
    }
  }

  lemma OneRootMore(s: Schema, ann: Ann, seen: set<Id>, id: Id, rest: seq<Id>)
    requires id in s.roots && Leads(s, ann, seen, Root(id)) && RootChain(s, s.roots[id], seen, rest)
    ensures RootChain(s, ann, seen, [id] + rest) && Content(s, ann, [id] + rest) == Content(s, s.roots[id], rest)
  {
    assert ([id] + rest)[1..] == rest;
  }

  lemma EndlessStep(s: Schema, ann: Ann, seen: set<Id>, visiting: set<Id>, trail: Trail)
    requires Endless(s, ann, seen, visiting, trail) && trail.chain != [] && trail.chain[0] !in visiting
    ensures var id := trail.chain[0];
            Endless(s, s.roots[id], seen, visiting + {id}, trail.(chain := trail.chain[1..]))
  {
    assert trail.chain == [trail.chain[0]] + trail.chain[1..];
    ComesBackStep(trail.chain[0], trail.chain[1..], visiting);
  }

  lemma {:induction false} TrailIsEndless(s: Schema, ann: Ann, seen: set<Id>, visiting: set<Id>, trail: Trail)
    requires Endless(s, ann, seen, visiting, trail)
    ensures !UnderReturns(s, ann, seen, visiting)
    decreases Unseen(s, seen), |trail.chain|
  {
    var m: Ann;
    if trail.chain != [] {
      var id, rest := trail.chain[0], trail.chain[1..];
      m := Root(id);
      if id !in visiting {
        EndlessStep(s, ann, seen, visiting, trail);
        TrailIsEndless(s, s.roots[id], seen, visiting + {id}, trail.(chain := rest));
      }
    } else {
      m := Model(trail.id);
      ReturnsFields(s, trail.id, seen);
      assert IsField(s, trail.id, trail.field);
      UnseenFalls(s.models.Keys, seen, trail.id);
      TrailIsEndless(s, s.models[trail.id][trail.field].ann, seen + {trail.id}, {}, trail.below);
    }
    assert Leads(s, ann, seen, m) && !MemberReturns(s, m, seen, visiting);
    UnderReturnsIff(s, ann, seen, visiting);
  }

  ghost predicate EndlessFrom(s: Schema, model: Id, i: nat, trail: Trail) {
    IsField(s, model, i) && Endless(s, s.models[model][i].ann, {model}, {}, trail)
  }

  /** The walk returns if and only if no chain of root models comes back to itself. */
  lemma ReturnsIff(s: Schema, model: Id)
    ensures Returns(s, model, {}) <==> !exists i: nat, trail :: EndlessFrom(s, model, i, trail)
  {
    assert {} + {model} == {model};
    ReturnsFields(s, model, {});
    if !Returns(s, model, {}) {
      var i: nat :| IsField(s, model, i) && !UnderReturns(s, s.models[model][i].ann, {model}, {});
      var trail := FindTrail(s, s.models[model][i].ann, {model}, {});
      assert EndlessFrom(s, model, i, trail);
    }
    if i: nat, trail :| EndlessFrom(s, model, i, trail) {
      TrailIsEndless(s, s.models[model][i].ann, {model}, {}, trail);
    }
  }

  // ── The loops ───────────────────────────────────────────────────────────

  datatype Error = RecursionError

  /** `secret_paths`: the paths when the walk returns, Python's recursion error when it does not. */
  method Walk(s: Schema, model: Id, prefix: string, seen: set<Id>) returns (r: Result<seq<string>, Error>)
    ensures r == if Returns(s, model, seen) then Ok(SecretPaths(s, model, prefix, seen)) else Err(RecursionError)
    decreases 2 * Unseen(s, seen), 0, 0, 0
  {
    if model in seen || model !in s.models { return Ok([]); }
    var fields, inner, paths := s.models[model], seen + {model}, [];
    UnseenFalls(s.models.Keys, seen, model);
    for i := 0 to |fields|
      invariant forall k :: 0 <= k < i ==> UnderReturns(s, fields[k].ann, inner, {})
      invariant paths + FieldPaths(s, fields[i..], prefix, inner) == FieldPaths(s, fields, prefix, inner)
    {
      var keys := ListKeys(fields[i]);
      var more := WalkKeys(s, keys, fields[i].ann, prefix, inner);
      if more.Err? {
        assert fields[i] in fields;
        return Err(RecursionError);
      }
      FieldStep(s, fields, i, prefix, inner);
      Regroup(paths, more.value, FieldPaths(s, fields[i + 1..], prefix, inner));
      paths := paths + more.value;
    }
    assert fields[|fields|..] == [] && paths + [] == paths;
    return Ok(Deduplicated(paths));
  }

  lemma FieldStep(s: Schema, fields: seq<Field>, i: nat, prefix: string, seen: set<Id>)
    requires i < |fields|
    ensures FieldPaths(s, fields[i..], prefix, seen)
         == KeyPaths(s, KeysOf(fields[i]), fields[i].ann, prefix, seen) + FieldPaths(s, fields[i + 1..], prefix, seen)
  {
    assert fields[i..][1..] == fields[i + 1..];
  }

  method WalkKeys(s: Schema, keys: seq<string>, ann: Ann, prefix: string, seen: set<Id>)
    returns (r: Result<seq<string>, Error>)
    requires keys != []
    ensures r == if UnderReturns(s, ann, seen, {}) then Ok(KeyPaths(s, keys, ann, prefix, seen))
        else Err(RecursionError)
    decreases 2 * Unseen(s, seen) + 1, Unvisited(s, {}) + 1, |keys|, 0
  {
    var paths := [];
    for k := 0 to |keys|
      invariant k > 0 ==> UnderReturns(s, ann, seen, {})
      invariant paths + KeyPaths(s, keys[k..], ann, prefix, seen) == KeyPaths(s, keys, ann, prefix, seen)
    {
      var under := WalkUnder(s, ann, prefix + keys[k], seen, {});
      if under.Err? { return Err(RecursionError); }
      KeyStep(s, keys, k, ann, prefix, seen);
      Regroup(paths, under.value, KeyPaths(s, keys[k + 1..], ann, prefix, seen));
      paths := paths + under.value;
    }
    assert keys[|keys|..] == [] && paths + [] == paths;
    return Ok(paths);
  }

  lemma KeyStep(s: Schema, keys: seq<string>, k: nat, ann: Ann, prefix: string, seen: set<Id>)
    requires k < |keys|
    ensures KeyPaths(s, keys[k..], ann, prefix, seen)
         == PathsUnder(s, ann, prefix + keys[k], seen, {}) + KeyPaths(s, keys[k + 1..], ann, prefix, seen)
  {
    assert keys[k..][1..] == keys[k + 1..];
  }

  method WalkUnder(s: Schema, ann: Ann, path: string, seen: set<Id>, visiting: set<Id>)
    returns (r: Result<seq<string>, Error>)
    ensures r == if UnderReturns(s, ann, seen, visiting) then Ok(PathsUnder(s, ann, path, seen, visiting))
                 else Err(RecursionError)
    decreases 2 * Unseen(s, seen) + 1, Unvisited(s, visiting), |Members(ann)|, 2
  {
    if Holds(s, ann, seen, 0) { return Ok([path]); }
    var members, found := Members(ann), [];
    for i := 0 to |members|
      invariant Secret !in members[..i]
      invariant MembersReturn(s, members, seen, visiting) <==> MembersReturn(s, members[i..], seen, visiting)
      invariant found + MemberPaths(s, members[i..], path, seen, visiting) ==
          MemberPaths(s, members, path, seen, visiting)
    {
      var m := members[i];
      MemberStep(s, members, i, path, seen, visiting);
      if m.Secret? { return Ok([path]); }
      var more := WalkMember(s, m, path, seen, visiting);
      if more.Err? { return Err(RecursionError); }
      found := found + more.value;
    }
    assert Secret !in members && members[|members|..] == [];
    assert found == MemberPaths(s, members, path, seen, visiting);
    return Ok(found);
  }

  method WalkMember(s: Schema, m: Ann, path: string, seen: set<Id>, visiting: set<Id>)
    returns (r: Result<seq<string>, Error>)
    ensures r == if MemberReturns(s, m, seen, visiting) then Ok(MemberPart(s, m, path, seen, visiting))
                 else Err(RecursionError)
    decreases 2 * Unseen(s, seen) + 1, Unvisited(s, visiting), 0, 1
  {
    if m.Root? && m.id in s.roots {
      if m.id in visiting { return Err(RecursionError); }
      UnseenFalls(s.roots.Keys, visiting, m.id);
      r := WalkUnder(s, s.roots[m.id], path, seen, visiting + {m.id});
    } else if m.Model? {
      r := Walk(s, m.id, path + ".", seen);
    } else {
      r := Ok([]);
    }
  }

  lemma MemberStep(s: Schema, members: seq<Ann>, i: nat, path: string, seen: set<Id>, visiting: set<Id>)
    requires i < |members|
    ensures MemberPaths(s, members[i..], path, seen, visiting)
         == MemberPart(s, members[i], path, seen, visiting) + MemberPaths(s, members[i + 1..], path, seen, visiting)
    ensures MembersReturn(s, members[i..], seen, visiting) <==>
            members[i].Secret? ||
            (MemberReturns(s, members[i], seen, visiting) && MembersReturn(s, members[i + 1..], seen, visiting))
  {
    assert members[i..][1..] == members[i + 1..];
  }

  // ── Secret positions ────────────────────────────────────────────────────

  /** The way from an annotation to one secret in a conforming value. */
  datatype Position =
    | Here
    | Inside(i: nat, below: Position)                       // a union's member
    | Through(below: Position)                              // what another origin means
    | Element(i: nat, key: string, below: Position)         // one of many values
    | InField(i: nat, spelling: string, below: Position)    // a field, as the file spells it
    | InRoot(below: Position)

  ghost predicate SecretAt(s: Schema, ann: Ann, pos: Position)
    decreases pos
  {
    match pos
    case Here => ann.Secret?
    case Inside(i, below) =>
      ann.Generic? && ann.origin.Transparent? && i < |ann.args| && SecretAt(s, ann.args[i], below)
    case Through(below) => ann.Generic? && ann.origin.Other? && SecretAt(s, ann.origin.meaning, below)
    case Element(i, _, below) =>
      ann.Generic? && ann.origin.Recognised? && i < |ann.args| && SecretAt(s, ann.args[i], below)
    case InField(i, spelling, below) =>
      && ann.Model? && IsField(s, ann.id, i)
      && Spells(s.models[ann.id][i], spelling) && SecretAt(s, s.models[ann.id][i].ann, below)
    case InRoot(below) => ann.Root? && ann.id in s.roots && SecretAt(s, s.roots[ann.id], below)
  }

  ghost predicate IsField(s: Schema, id: Id, i: nat) { id in s.models && i < |s.models[id]| }

  ghost predicate HasKey(s: Schema, id: Id, i: nat, key: string) {
    IsField(s, id, i) && key in KeysOf(s.models[id][i])
  }

  /** The path the file gives the secret. */
  function PathTo(path: string, pos: Position): string
    decreases pos
  {
    match pos
    case Here => path
    case Inside(_, below) => PathTo(path, below)
    case Through(below) => PathTo(path, below)
    case Element(_, key, below) => PathTo(path + "." + key, below)
    case InField(_, spelling, below) => PathTo(path + "." + spelling, below)
    case InRoot(below) => PathTo(path, below)
  }

  lemma {:induction false} PathCoversBelow(path: string, pos: Position)
    ensures Covers(path, PathTo(path, pos))
    decreases pos
  {
    if pos.Element? {
      PathCoversBelow(path + "." + pos.key, pos.below);
      CoversTransitive(path, path + "." + pos.key, PathTo(path, pos));
    } else if pos.InField? {
      PathCoversBelow(path + "." + pos.spelling, pos.below);
      CoversTransitive(path, path + "." + pos.spelling, PathTo(path, pos));
    } else if !pos.Here? {
      PathCoversBelow(path, pos.below);
    }
  }

  function Length(pos: Position): nat { if pos.Here? then 0 else 1 + Length(pos.below) }

  /** The segments of the path below the annotated value. */
  function Segments(pos: Position): seq<string> {
    match pos
    case Here => []
    case Element(_, key, below) => Split(key) + Segments(below)
    case InField(_, spelling, below) => Split(spelling) + Segments(below)
    case _ => Segments(pos.below)
  }

  /** Where a way stands once everything is peeled off that leaves the value where it is. */
  ghost function Landed(s: Schema, ann: Ann, pos: Position): (r: (Ann, Position))
    requires SecretAt(s, ann, pos)
    ensures SecretAt(s, r.0, r.1) && !r.1.Inside? && !r.1.Through? && !r.1.InRoot? && Length(r.1) <= Length(pos)
    ensures (forall path :: PathTo(path, pos) == PathTo(path, r.1)) && Segments(r.1) == Segments(pos)
    decreases pos
  {
    if pos.Inside? then Landed(s, ann.args[pos.i], pos.below)
    else if pos.Through? then Landed(s, ann.origin.meaning, pos.below)
    else if pos.InRoot? then Landed(s, s.roots[ann.id], pos.below)
    else (ann, pos)
  }

  // ── Which positions the walk reaches ────────────────────────────────────

  /** The field is listed itself: a secret, one in a recognised container, or a
      root model whose content is one of these. */
  ghost predicate Redacted(s: Schema, ann: Ann, seen: set<Id>, visiting: set<Id>)
    decreases Unvisited(s, visiting)
  {
    Holds(s, ann, seen, 0) || Secret in Members(ann) ||
    exists m <- Members(ann) ::
      Entering(s, m, visiting) &&
      (UnseenFalls(s.roots.Keys, visiting, m.id); Redacted(s, s.roots[m.id], seen, visiting + {m.id}))
  }

  /** The walk descends into model `id` at the annotated value's own path. */
  ghost predicate Entered(s: Schema, ann: Ann, id: Id, visiting: set<Id>)
    decreases Unvisited(s, visiting)
  {
    exists m <- Members(ann) ::
      m == Model(id) ||
      (Entering(s, m, visiting) &&
       (UnseenFalls(s.roots.Keys, visiting, m.id); Entered(s, s.roots[m.id], id, visiting + {m.id})))
  }

  /** Down to the first field redacted whole: no model is entered twice, every
      model entered is one the walk descends into at that very path, and the file
      spells every field on the way as one of its keys. */
  ghost predicate Reached(s: Schema, model: Id, pos: Position, seen: set<Id>)
    requires pos.InField? && SecretAt(s, Model(model), pos)
    decreases Length(pos)
  {
    model !in seen &&
    var f := s.models[model][pos.i];
    Redacted(s, f.ann, seen + {model}, {}) ||
    (pos.spelling in KeysOf(f) &&
     var (at, rest) := Landed(s, f.ann, pos.below);
     rest.InField? && Entered(s, f.ann, at.id, {}) && Reached(s, at.id, rest, seen + {model}))
  }

  // ── What is listed ──────────────────────────────────────────────────────

  lemma {:induction false} MembersIff(
      s: Schema, members: seq<Ann>, path: string, seen: set<Id>, visiting: set<Id>, p: string)
    ensures p in MemberPaths(s, members, path, seen, visiting) <==>
            exists m <- members :: p in MemberPart(s, m, path, seen, visiting)
    decreases |members|
  {
    if members != [] {
      MembersIff(s, members[1..], path, seen, visiting, p);
      if m :| m in members && p in MemberPart(s, m, path, seen, visiting) {
        assert m == members[0] || m in members[1..];
      }
      assert members[0] in members && forall m <- members[1..] :: m in members;
    }
  }

  lemma {:induction false} KeysIff(s: Schema, keys: seq<string>, ann: Ann, prefix: string, seen: set<Id>, p: string)
    ensures p in KeyPaths(s, keys, ann, prefix, seen) <==>
            exists key <- keys :: p in PathsUnder(s, ann, prefix + key, seen, {})
    decreases |keys|
  {
    if keys != [] {
      KeysIff(s, keys[1..], ann, prefix, seen, p);
      if key :| key in keys && p in PathsUnder(s, ann, prefix + key, seen, {}) {
        assert key == keys[0] || key in keys[1..];
      }
      assert keys[0] in keys && forall key <- keys[1..] :: key in keys;
    }
  }

  ghost predicate FieldLists(s: Schema, f: Field, prefix: string, seen: set<Id>, p: string) {
    p in KeyPaths(s, KeysOf(f), f.ann, prefix, seen)
  }

  lemma {:induction false} FieldsIff(s: Schema, fields: seq<Field>, prefix: string, seen: set<Id>, p: string)
    ensures p in FieldPaths(s, fields, prefix, seen) <==> exists f <- fields :: FieldLists(s, f, prefix, seen, p)
    decreases |fields|
  {
    if fields != [] {
      FieldsIff(s, fields[1..], prefix, seen, p);
      if f :| f in fields && FieldLists(s, f, prefix, seen, p) {
        assert f == fields[0] || f in fields[1..];
      }
      assert fields[0] in fields && forall f <- fields[1..] :: f in fields;
      assert p in KeyPaths(s, KeysOf(fields[0]), fields[0].ann, prefix, seen) <==>
             FieldLists(s, fields[0], prefix, seen, p);
    }
  }

  lemma FieldIsListed(s: Schema, model: Id, i: nat, key: string, prefix: string, seen: set<Id>, p: string)
    requires HasKey(s, model, i, key) && model !in seen
    requires p in PathsUnder(s, s.models[model][i].ann, prefix + key, seen + {model}, {})
    ensures p in SecretPaths(s, model, prefix, seen)
  {
    var f, inner := s.models[model][i], seen + {model};
    KeysIff(s, KeysOf(f), f.ann, prefix, inner, p);
    assert FieldLists(s, f, prefix, inner, p);
    FieldsIff(s, s.models[model], prefix, inner, p);
  }

  lemma ListedField(s: Schema, model: Id, prefix: string, seen: set<Id>, p: string) returns (i: nat, key: string)
    requires p in SecretPaths(s, model, prefix, seen)
    ensures HasKey(s, model, i, key) && model !in seen
    ensures p in PathsUnder(s, s.models[model][i].ann, prefix + key, seen + {model}, {})
  {
    var inner := seen + {model};
    FieldsIff(s, s.models[model], prefix, inner, p);
    var f :| f in s.models[model] && FieldLists(s, f, prefix, inner, p);
    i :| 0 <= i < |s.models[model]| && s.models[model][i] == f;
    KeysIff(s, KeysOf(f), f.ann, prefix, inner, p);
    key :| key in KeysOf(f) && p in PathsUnder(s, f.ann, prefix + key, inner, {});
  }

  /** A redacted field lists its own path, and nothing else decides that. */
  lemma {:induction false} RedactedIff(s: Schema, ann: Ann, path: string, seen: set<Id>, visiting: set<Id>)
    ensures path in PathsUnder(s, ann, path, seen, visiting) <==> Redacted(s, ann, seen, visiting)
    decreases Unvisited(s, visiting)
  {
    if !Holds(s, ann, seen, 0) && Secret !in Members(ann) {
      MembersIff(s, Members(ann), path, seen, visiting, path);
      forall m | m in Members(ann)
        ensures path in MemberPart(s, m, path, seen, visiting) <==>
                Entering(s, m, visiting) && Redacted(s, s.roots[m.id], seen, visiting + {m.id})
      {
        if Entering(s, m, visiting) {
          UnseenFalls(s.roots.Keys, visiting, m.id);
          RedactedIff(s, s.roots[m.id], path, seen, visiting + {m.id});
        } else if m.Model? {
          NotItself(s, m.id, path, seen);
        }
      }
    }
  }

  lemma NotItself(s: Schema, id: Id, path: string, seen: set<Id>)
    ensures path !in SecretPaths(s, id, path + ".", seen)
  {
    if path in SecretPaths(s, id, path + ".", seen) {
      ListedBelow(s, id, path + ".", seen, path);
      assert false;
    }
  }

  lemma {:induction false} ListedBelow(s: Schema, model: Id, prefix: string, seen: set<Id>, p: string)
    requires p in SecretPaths(s, model, prefix, seen)
    ensures prefix <= p
    decreases 2 * Unseen(s, seen), 0, 0
  {
    var i, key := ListedField(s, model, prefix, seen, p);
    UnseenFalls(s.models.Keys, seen, model);
    UnderCovers(s, s.models[model][i].ann, prefix + key, seen + {model}, {}, p);
  }

  lemma {:induction false} UnderCovers(s: Schema, ann: Ann, path: string, seen: set<Id>, visiting: set<Id>, p: string)
    requires p in PathsUnder(s, ann, path, seen, visiting)
    ensures Covers(path, p)
    decreases 2 * Unseen(s, seen), Unvisited(s, visiting), 1
  {
    if !Holds(s, ann, seen, 0) && Secret !in Members(ann) {
      MembersIff(s, Members(ann), path, seen, visiting, p);
      var m :| m in Members(ann) && p in MemberPart(s, m, path, seen, visiting);
      if Entering(s, m, visiting) {
        UnseenFalls(s.roots.Keys, visiting, m.id);
        UnderCovers(s, s.roots[m.id], path, seen, visiting + {m.id}, p);
      } else {
        ListedBelow(s, m.id, path + ".", seen, p);
      }
    }
  }

  /** What a field lists besides itself comes from a model entered at its path. */
  lemma {:induction false} ListedEntered(s: Schema, ann: Ann, path: string, seen: set<Id>, visiting: set<Id>, p: string)
    returns (id: Id)
    requires p in PathsUnder(s, ann, path, seen, visiting) && !Redacted(s, ann, seen, visiting)
    ensures Entered(s, ann, id, visiting) && p in SecretPaths(s, id, path + ".", seen)
    decreases Unvisited(s, visiting)
  {
    MembersIff(s, Members(ann), path, seen, visiting, p);
    var m :| m in Members(ann) && p in MemberPart(s, m, path, seen, visiting);
    if Entering(s, m, visiting) {
      UnseenFalls(s.roots.Keys, visiting, m.id);
      id := ListedEntered(s, s.roots[m.id], path, seen, visiting + {m.id}, p);
    } else {
      id := m.id;
    }
  }

  lemma {:induction false} EnteredIsListed(
      s: Schema, ann: Ann, path: string, seen: set<Id>, visiting: set<Id>, id: Id, p: string)
    requires Entered(s, ann, id, visiting) && !Redacted(s, ann, seen, visiting) &&
        p in SecretPaths(s, id, path + ".", seen)
    ensures p in PathsUnder(s, ann, path, seen, visiting)
    decreases Unvisited(s, visiting)
  {
    MembersIff(s, Members(ann), path, seen, visiting, p);
    if Model(id) !in Members(ann) {
      var m :| m in Members(ann) && Entering(s, m, visiting) && Entered(s, s.roots[m.id], id, visiting + {m.id});
      UnseenFalls(s.roots.Keys, visiting, m.id);
      EnteredIsListed(s, s.roots[m.id], path, seen, visiting + {m.id}, id, p);
      assert p in MemberPart(s, m, path, seen, visiting);
    } else {
      assert p in MemberPart(s, Model(id), path, seen, visiting);
    }
  }

  // ── Coverage, one way ───────────────────────────────────────────────────

  lemma KeyCovers(prefix: string, key: string, spelling: string, below: Position)
    requires Covers(key, spelling)
    ensures Covers(prefix + key, PathTo(prefix + spelling, below))
  {
    if key != spelling { assert prefix + spelling == prefix + key + "." + spelling[|key| + 1..]; }
    PathCoversBelow(prefix + spelling, below);
    CoversTransitive(prefix + key, prefix + spelling, PathTo(prefix + spelling, below));
  }

  lemma {:induction false} ReachedIsCovered(s: Schema, model: Id, prefix: string, pos: Position, seen: set<Id>)
    requires pos.InField? && SecretAt(s, Model(model), pos) && Reached(s, model, pos, seen)
    ensures Covered(SecretPaths(s, model, prefix, seen), PathTo(prefix + pos.spelling, pos.below))
    decreases Length(pos)
  {
    var f, inner := s.models[model][pos.i], seen + {model};
    var goal := PathTo(prefix + pos.spelling, pos.below);
    var key := SpellingIsCovered(f, pos.spelling);
    var path, p := prefix + key, prefix + key;
    RedactedIff(s, f.ann, path, inner, {});
    if Redacted(s, f.ann, inner, {}) {
      KeyCovers(prefix, key, pos.spelling, pos.below);
    } else {
      var (at, rest) := Landed(s, f.ann, pos.below);
      ReachedIsCovered(s, at.id, path + ".", rest, inner);
      assert PathTo(path + "." + rest.spelling, rest.below) == PathTo(path, rest) == goal;
      p :| p in SecretPaths(s, at.id, path + ".", inner) && Covers(p, goal);
      EnteredIsListed(s, f.ann, path, inner, {}, at.id, p);
    }
    FieldIsListed(s, model, pos.i, key, prefix, seen, p);
  }

  // ── Covered, by the names on a path ─────────────────────────────────────

  /** Read from the model, the segments run along keys of fields into models the
      walk enters, none twice, and reach a field that is redacted whole. */
  ghost predicate Followed(s: Schema, model: Id, segments: seq<string>, seen: set<Id>)
    decreases Unseen(s, seen), 0
  {
    model in s.models && model !in seen &&
    (UnseenFalls(s.models.Keys, seen, model);
     exists i: nat, key | HasKey(s, model, i, key) ::
       FollowedInto(s, s.models[model][i].ann, Split(key), segments, seen + {model}))
  }

  ghost predicate FollowedInto(s: Schema, ann: Ann, key: seq<string>, segments: seq<string>, seen: set<Id>)
    decreases Unseen(s, seen), 1
  {
    key <= segments &&
    (Redacted(s, ann, seen, {}) || exists id | Entered(s, ann, id, {}) :: Followed(s, id, segments[|key|..], seen))
  }

  lemma {:induction false} FollowedIsCovered(
      s: Schema, model: Id, prefix: string, base: seq<string>, segments: seq<string>, seen: set<Id>, q: string)
    requires IsPrefix(prefix, base) && Split(q) == base + segments && Followed(s, model, segments, seen)
    ensures Covered(SecretPaths(s, model, prefix, seen), q)
    decreases Unseen(s, seen)
  {
    UnseenFalls(s.models.Keys, seen, model);
    var inner := seen + {model};
    var i: nat, key :| HasKey(s, model, i, key) &&
      FollowedInto(s, s.models[model][i].ann, Split(key), segments, inner);
    var ann, path, names := s.models[model][i].ann, prefix + key, Split(key);
    OneStep(prefix, base, key, segments, q);
    var p := path;
    RedactedIff(s, ann, path, inner, {});
    if !Redacted(s, ann, inner, {}) {
      var id :| Entered(s, ann, id, {}) && Followed(s, id, segments[|names|..], inner);
      FollowedIsCovered(s, id, path + ".", Split(path), segments[|names|..], inner, q);
      p :| p in SecretPaths(s, id, path + ".", inner) && Covers(p, q);
      EnteredIsListed(s, ann, path, inner, {}, id, p);
    }
    FieldIsListed(s, model, i, key, prefix, seen, p);
  }

  lemma {:induction false} CoveredIsFollowed(
      s: Schema, model: Id, prefix: string, base: seq<string>, segments: seq<string>, seen: set<Id>, p: string,
      q: string)
    requires IsPrefix(prefix, base) && Split(q) == base + segments
    requires p in SecretPaths(s, model, prefix, seen) && Covers(p, q)
    ensures Followed(s, model, segments, seen)
    decreases Unseen(s, seen)
  {
    var i, key := ListedField(s, model, prefix, seen, p);
    UnseenFalls(s.models.Keys, seen, model);
    var ann, path, names, inner := s.models[model][i].ann, prefix + key, Split(key), seen + {model};
    UnderCovers(s, ann, path, inner, {}, p);
    CoversTransitive(path, p, q);
    OneStep(prefix, base, key, segments, q);
    if !Redacted(s, ann, inner, {}) {
      var id := ListedEntered(s, ann, path, inner, {}, p);
      CoveredIsFollowed(s, id, path + ".", Split(path), segments[|names|..], inner, p, q);
    }
    assert FollowedInto(s, ann, names, segments, inner);
  }

  /** Exactly which paths the listed ones cover, on every schema. */
  lemma CoveredIff(s: Schema, model: Id, path: string)
    ensures Covered(SecretPaths(s, model, "", {}), path) <==> Followed(s, model, Split(path), {})
  {
    var none: set<Id> := {};
    assert [] + Split(path) == Split(path);
    if Followed(s, model, Split(path), none) {
      FollowedIsCovered(s, model, "", [], Split(path), none, path);
    }
    if p :| p in SecretPaths(s, model, "", none) && Covers(p, path) {
      CoveredIsFollowed(s, model, "", [], Split(path), none, p, path);
    }
  }

  // ── Covered, by position ────────────────────────────────────────────────

  lemma {:induction false} SplitPath(path: string, pos: Position)
    ensures Split(PathTo(path, pos)) == Split(path) + Segments(pos)
    decreases pos
  {
    match pos
    case Here =>
    case Element(_, key, below) =>
      SplitPath(path + "." + key, below);
      OneMore(path, key, Segments(below));
    case InField(_, spelling, below) =>
      SplitPath(path + "." + spelling, below);
      OneMore(path, spelling, Segments(below));
    case _ => SplitPath(path, pos.below);
  }

  /** Some key of the model begins the segments. */
  ghost predicate Begun(s: Schema, id: Id, segments: seq<string>) {
    exists i: nat, key :: HasKey(s, id, i, key) && Split(key) <= segments
  }

  /** No key leads the way by accident: of those the walk meets at each step, the
      position's own begins the segments that are left, or one of its field that
      stops short and leads nowhere. */
  ghost predicate Unmistaken(s: Schema, model: Id, pos: Position)
    requires pos.InField? && SecretAt(s, Model(model), pos)
    decreases Length(pos)
  {
    var ann := s.models[model][pos.i].ann;
    var (at, rest) := Landed(s, ann, pos.below);
    && (forall j: nat, key | HasKey(s, model, j, key) && Split(key) <= Segments(pos) ::
          j == pos.i &&
          (key == pos.spelling || forall id | Entered(s, ann, id, {}) :: !Begun(s, id, Segments(pos)[|Split(key)|..])))
    && (forall id | Entered(s, ann, id, {}) && Begun(s, id, Segments(rest)) :: rest.InField? && at.id == id)
    && (rest.InField? && Entered(s, ann, at.id, {}) ==> Unmistaken(s, at.id, rest))
  }

  lemma {:induction false} FollowedIsReached(s: Schema, model: Id, pos: Position, seen: set<Id>)
    requires pos.InField? && SecretAt(s, Model(model), pos) && Unmistaken(s, model, pos)
    requires Followed(s, model, Segments(pos), seen)
    ensures Reached(s, model, pos, seen)
    decreases Length(pos)
  {
    var inner := seen + {model};
    var j: nat, key :| HasKey(s, model, j, key) &&
      FollowedInto(s, s.models[model][j].ann, Split(key), Segments(pos), inner);
    assert j == pos.i;
    var ann := s.models[model][j].ann;
    if !Redacted(s, ann, inner, {}) {
      var left := Segments(pos)[|Split(key)|..];
      var id :| Entered(s, ann, id, {}) && Followed(s, id, left, inner);
      FollowedBegins(s, id, left, inner);
      var (at, rest) := Landed(s, ann, pos.below);
      assert key == pos.spelling && left == Segments(rest);
      FollowedIsReached(s, id, rest, inner);
    }
  }

  lemma FollowedBegins(s: Schema, id: Id, segments: seq<string>, seen: set<Id>)
    requires Followed(s, id, segments, seen)
    ensures Begun(s, id, segments)
  {
    UnseenFalls(s.models.Keys, seen, id);
    var i: nat, key :| HasKey(s, id, i, key) &&
      FollowedInto(s, s.models[id][i].ann, Split(key), segments, seen + {id});
  }

  /** Position by position: covered if and only if reached, unless a key misleads. */
  lemma CoveredIffReached(s: Schema, model: Id, pos: Position)
    requires pos.InField? && SecretAt(s, Model(model), pos) && Unmistaken(s, model, pos)
    ensures Covered(SecretPaths(s, model, "", {}), PathTo(pos.spelling, pos.below)) <==> Reached(s, model, pos, {})
  {
    var path := PathTo(pos.spelling, pos.below);
    assert "" + pos.spelling == pos.spelling;
    if Reached(s, model, pos, {}) { ReachedIsCovered(s, model, "", pos, {}); }
    CoveredIff(s, model, path);
    SplitPath(pos.spelling, pos.below);
    if Followed(s, model, Split(path), {}) { FollowedIsReached(s, model, pos, {}); }
  }

  // ── When no key misleads ────────────────────────────────────────────────

  predicate Meets(a: seq<string>, b: seq<string>) { a <= b || b <= a }

  /** No key of a model the walk enters from the annotation begins with the segment. */
  ghost predicate Foreign(s: Schema, ann: Ann, segment: string) {
    forall id, k: nat, key | Entered(s, ann, id, {}) && HasKey(s, id, k, key) :: Split(key)[0] != segment
  }

  /** A key and a spelling of one model on one branch belong to one field; where
      the key stops short, no key below it goes on as the spelling does. */
  ghost predicate Tells(s: Schema, id: Id, i: nat, j: nat, key: string, spelling: string) {
    HasKey(s, id, i, key) && IsField(s, id, j) && Spells(s.models[id][j], spelling)
    && Meets(Split(key), Split(spelling)) ==>
      && i == j && Split(key) <= Split(spelling)
      && (key != spelling ==> |Split(key)| < |Split(spelling)| &&
                              Foreign(s, s.models[id][i].ann, Split(spelling)[|Split(key)|]))
  }

  /** Fields of `id` sit at the annotated value's own path. */
  ghost predicate Direct(s: Schema, ann: Ann, id: Id) {
    exists pos | SecretAt(s, ann, pos) :: Landed(s, ann, pos).1.InField? && Landed(s, ann, pos).0.id == id
  }

  /** A model entered from the annotation and another whose fields are really
      there have no key and spelling on one branch. */
  ghost predicate Apart(s: Schema, ann: Ann) {
    forall a, b, i: nat, j: nat, key, spelling |
      && Entered(s, ann, a, {}) && Direct(s, ann, b)
      && HasKey(s, a, i, key) && IsField(s, b, j) && Spells(s.models[b][j], spelling) ::
      Meets(Split(key), Split(spelling)) ==> a == b
  }

  ghost predicate Telling(s: Schema) {
    && (forall id, i: nat, j: nat, key, spelling :: Tells(s, id, i, j, key, spelling))
    && (forall id, i: nat | IsField(s, id, i) :: Apart(s, s.models[id][i].ann))
  }

  /** Keys of elements the walk takes for fields begin no key of those fields:
      indices do not, and a mapping's keys need not. */
  ghost predicate Ordinary(s: Schema, ann: Ann, pos: Position)
    requires SecretAt(s, ann, pos)
    decreases Length(pos)
  {
    var (at, rest) := Landed(s, ann, pos);
    && (rest.Element? ==> Foreign(s, ann, Split(rest.key)[0]))
    && (rest.InField? ==> Ordinary(s, s.models[at.id][rest.i].ann, rest.below))
  }

  lemma PrefixesMeet(a: seq<string>, b: seq<string>, c: seq<string>)
    requires a <= b + c
    ensures Meets(a, b)
  {
    if |a| <= |b| {
      assert a == (b + c)[..|a|] == b[..|a|];
    } else {
      assert b == (b + c)[..|b|] == a[..|b|];
    }
  }

  /** Local conditions on the schema do. */
  lemma {:induction false} TellingIsUnmistaken(s: Schema, model: Id, pos: Position)
    requires Telling(s) && pos.InField? && SecretAt(s, Model(model), pos)
    requires Ordinary(s, s.models[model][pos.i].ann, pos.below)
    ensures Unmistaken(s, model, pos)
    decreases Length(pos)
  {
    var ann := s.models[model][pos.i].ann;
    var (at, rest) := Landed(s, ann, pos.below);
    forall j: nat, key | HasKey(s, model, j, key) && Split(key) <= Segments(pos)
      ensures j == pos.i &&
        (key == pos.spelling || forall id | Entered(s, ann, id, {}) :: !Begun(s, id, Segments(pos)[|Split(key)|..]))
    {
      OwnKey(s, model, pos, j, key);
    }
    forall id | Entered(s, ann, id, {}) && Begun(s, id, Segments(rest)) ensures rest.InField? && at.id == id {
      OwnModel(s, ann, pos.below, id);
    }
    if rest.InField? { TellingIsUnmistaken(s, at.id, rest); }
  }

  lemma ForeignIsNotBegun(s: Schema, ann: Ann, id: Id, segments: seq<string>)
    requires Entered(s, ann, id, {}) && (segments == [] || Foreign(s, ann, segments[0]))
    ensures !Begun(s, id, segments)
  {
    forall k: nat, key | HasKey(s, id, k, key) ensures !(Split(key) <= segments) {
      if segments != [] { assert Split(key)[0] != segments[0]; }
    }
  }

  lemma OwnKey(s: Schema, model: Id, pos: Position, j: nat, key: string)
    requires Telling(s) && pos.InField? && SecretAt(s, Model(model), pos)
    requires HasKey(s, model, j, key) && Split(key) <= Segments(pos)
    ensures j == pos.i
    ensures var ann := s.models[model][pos.i].ann;
            key == pos.spelling ||
            forall id | Entered(s, ann, id, {}) :: !Begun(s, id, Segments(pos)[|Split(key)|..])
  {
    var ann := s.models[model][pos.i].ann;
    PrefixesMeet(Split(key), Split(pos.spelling), Segments(pos.below));
    assert Tells(s, model, j, pos.i, key, pos.spelling);
    if key != pos.spelling {
      var left := Segments(pos)[|Split(key)|..];
      assert left[0] == Split(pos.spelling)[|Split(key)|];
      forall id | Entered(s, ann, id, {}) ensures !Begun(s, id, left) {
        ForeignIsNotBegun(s, ann, id, left);
      }
    }
  }

  lemma OwnModel(s: Schema, ann: Ann, pos: Position, id: Id)
    requires SecretAt(s, ann, pos) && Ordinary(s, ann, pos) && Apart(s, ann)
    requires Entered(s, ann, id, {}) && Begun(s, id, Segments(Landed(s, ann, pos).1))
    ensures var (at, rest) := Landed(s, ann, pos); rest.InField? && at.id == id
  {
    var (at, rest) := Landed(s, ann, pos);
    if !rest.InField? {
      ForeignIsNotBegun(s, ann, id, Segments(rest));
      assert false;
    }
    var i: nat, key :| HasKey(s, id, i, key) && Split(key) <= Segments(rest);
    PrefixesMeet(Split(key), Split(rest.spelling), Segments(rest.below));
    assert Direct(s, ann, at.id);
  }

  // ── What is enough ──────────────────────────────────────────────────────

  /** The place in the declaration a position is declared at. */
  function Shadow(pos: Position): Mention {
    match pos
    case Here => Itself
    case Inside(i, below) => Argument(i, Shadow(below))
    case Through(_) => Itself                               // no mention goes this way
    case Element(i, _, below) => Argument(i, Shadow(below))
    case InField(i, _, below) => OfField(i, Shadow(below))
    case InRoot(below) => OfRoot(Shadow(below))
  }

  /** The field holding the position is redacted whole on its account. */
  predicate Whole(pos: Position) {
    match pos
    case Here => true
    case Element(_, _, _) => true
    case InField(_, _, _) => false
    case Through(_) => false
    case Inside(_, below) => Whole(below)
    case InRoot(below) => Whole(below)
  }

  /** Recognised containers only, within the depth guard; models and root models
      by their own names, entered once; and no nested model below an alias the
      walk cuts short. */
  ghost predicate Guarded(s: Schema, ann: Ann, pos: Position, seen: set<Id>, visiting: set<Id>)
    requires SecretAt(s, ann, pos)
    decreases pos
  {
    if InContainer(ann, Shadow(pos)) then Within(s, ann, Shadow(pos), seen, 0)
    else
      match pos
      case Here => true
      case Element(_, _, _) => false
      case Through(_) => false
      case Inside(i, below) => Guarded(s, ann.args[i], below, seen, visiting)
      case InRoot(below) => ann.id !in visiting && Guarded(s, s.roots[ann.id], below, seen, visiting + {ann.id})
      case InField(i, spelling, below) =>
        ann.id !in seen &&
        var f := s.models[ann.id][i];
        Guarded(s, f.ann, below, seen + {ann.id}, {}) && (spelling in KeysOf(f) || Whole(below))
  }

  /** Unions peeled off. */
  lemma {:induction false} GuardedMember(s: Schema, ann: Ann, pos: Position, seen: set<Id>, visiting: set<Id>)
    returns (m: Ann, rest: Position)
    requires SecretAt(s, ann, pos) && Guarded(s, ann, pos, seen, visiting) && !InContainer(ann, Shadow(pos))
    ensures m in Members(ann) && SecretAt(s, m, rest) && Guarded(s, m, rest, seen, visiting)
    ensures (rest.Here? || rest.InField? || rest.InRoot?) && Length(rest) <= Length(pos) && Whole(rest) == Whole(pos)
    ensures Landed(s, m, rest) == Landed(s, ann, pos)
    decreases pos
  {
    if pos.Inside? {
      m, rest := GuardedMember(s, ann.args[pos.i], pos.below, seen, visiting);
      MembersAreTheArguments(ann.args, m);
    } else {
      m, rest := ann, pos;
    }
  }

  /** A root member's content decides for the field. */
  lemma RootDecides(s: Schema, ann: Ann, m: Ann, seen: set<Id>, visiting: set<Id>)
    requires m in Members(ann) && Entering(s, m, visiting)
    ensures Redacted(s, s.roots[m.id], seen, visiting + {m.id}) ==> Redacted(s, ann, seen, visiting)
    ensures forall id | Entered(s, s.roots[m.id], id, visiting + {m.id}) :: Entered(s, ann, id, visiting)
  {
    UnseenFalls(s.roots.Keys, visiting, m.id);
  }

  lemma {:induction false} GuardedWhole(s: Schema, ann: Ann, pos: Position, seen: set<Id>, visiting: set<Id>)
    requires SecretAt(s, ann, pos) && Guarded(s, ann, pos, seen, visiting) && Whole(pos)
    ensures Redacted(s, ann, seen, visiting)
    decreases Length(pos)
  {
    if InContainer(ann, Shadow(pos)) {
      HoldsFinds(s, ann, Shadow(pos), seen, 0);
    } else {
      var m, rest := GuardedMember(s, ann, pos, seen, visiting);
      if rest.InRoot? {
        GuardedWhole(s, s.roots[m.id], rest.below, seen, visiting + {m.id});
        RootDecides(s, ann, m, seen, visiting);
      }
    }
  }

  ghost predicate SomehowGuarded(s: Schema, ann: Ann, pos: Position, seen: set<Id>)
    requires SecretAt(s, ann, pos)
  {
    exists visiting :: Guarded(s, ann, pos, seen, visiting)
  }

  /** A field that is not redacted whole: the walk enters the position's next model. */
  lemma {:induction false} GuardedEnters(s: Schema, ann: Ann, pos: Position, seen: set<Id>, visiting: set<Id>)
    requires SecretAt(s, ann, pos) && Guarded(s, ann, pos, seen, visiting) && !Redacted(s, ann, seen, visiting)
    ensures var (at, rest) := Landed(s, ann, pos);
            rest.InField? && Entered(s, ann, at.id, visiting) && SomehowGuarded(s, at, rest, seen)
    decreases Length(pos)
  {
    if InContainer(ann, Shadow(pos)) { HoldsFinds(s, ann, Shadow(pos), seen, 0); }
    var m, rest := GuardedMember(s, ann, pos, seen, visiting);
    if rest.InRoot? {
      RootDecides(s, ann, m, seen, visiting);
      GuardedEnters(s, s.roots[m.id], rest.below, seen, visiting + {m.id});
    }
  }

  lemma {:induction false} GuardedIsReached(s: Schema, model: Id, pos: Position, seen: set<Id>, visiting: set<Id>)
    requires pos.InField? && SecretAt(s, Model(model), pos) && Guarded(s, Model(model), pos, seen, visiting)
    ensures Reached(s, model, pos, seen)
    decreases Length(pos)
  {
    var f, inner := s.models[model][pos.i], seen + {model};
    if !Redacted(s, f.ann, inner, {}) {
      if pos.spelling !in KeysOf(f) { GuardedWhole(s, f.ann, pos.below, inner, {}); }
      GuardedEnters(s, f.ann, pos.below, inner, {});
      var (at, rest) := Landed(s, f.ann, pos.below);
      var v :| Guarded(s, at, rest, inner, v);
      GuardedIsReached(s, at.id, rest, inner, v);
    }
  }

  /** Every secret a conforming file can hold this way, however it spells the way
      there, has a listed path at it or above it. */
  lemma ModelIsCovered(s: Schema, model: Id, prefix: string, pos: Position, seen: set<Id>)
    requires pos.InField? && SecretAt(s, Model(model), pos) && Guarded(s, Model(model), pos, seen, {})
    ensures Covered(SecretPaths(s, model, prefix, seen), PathTo(prefix + pos.spelling, pos.below))
  {
    GuardedIsReached(s, model, pos, seen, {});
    ReachedIsCovered(s, model, prefix, pos, seen);
  }

  // ── Precision ───────────────────────────────────────────────────────────

  /** A path is listed at or below a field only for a secret its declaration names. */
  lemma {:induction false} UnderIsPrecise(
      s: Schema, ann: Ann, path: string, seen: set<Id>, visiting: set<Id>, p: string) returns (m: Mention)
    requires p in PathsUnder(s, ann, path, seen, visiting)
    ensures Mentions(s, ann, m, seen) && Covers(path, p)
    decreases 2 * Unseen(s, seen), Unvisited(s, visiting), 1
  {
    UnderCovers(s, ann, path, seen, visiting, p);
    if Holds(s, ann, seen, 0) {
      m := HoldsIsRight(s, ann, seen, 0);
    } else if Secret in Members(ann) {
      m := WayThroughMember(s, ann, Secret, Itself, seen);
    } else {
      MembersIff(s, Members(ann), path, seen, visiting, p);
      var member :| member in Members(ann) && p in MemberPart(s, member, path, seen, visiting);
      var rest: Mention;
      if Entering(s, member, visiting) {
        UnseenFalls(s.roots.Keys, visiting, member.id);
        rest := UnderIsPrecise(s, s.roots[member.id], path, seen, visiting + {member.id}, p);
        rest := OfRoot(rest);
      } else {
        rest := ModelIsPrecise(s, member.id, path + ".", seen, p);
      }
      m := WayThroughMember(s, ann, member, rest, seen);
    }
  }

  /** Every listed path is at or below a key of a field whose declaration names a secret. */
  lemma {:induction false} ModelIsPrecise(s: Schema, model: Id, prefix: string, seen: set<Id>, p: string)
    returns (m: Mention)
    requires p in SecretPaths(s, model, prefix, seen)
    ensures m.OfField? && Mentions(s, Model(model), m, seen)
    ensures exists key <- KeysOf(s.models[model][m.i]) :: Covers(prefix + key, p)
    decreases 2 * Unseen(s, seen), 0, 0
  {
    var i, key := ListedField(s, model, prefix, seen, p);
    UnseenFalls(s.models.Keys, seen, model);
    var below := UnderIsPrecise(s, s.models[model][i].ann, prefix + key, seen + {model}, {}, p);
    m := OfField(i, below);
  }

  // ── What is left out ────────────────────────────────────────────────────

  /** What the file holds at `path` is a password that nothing listed covers. */
  ghost predicate Missed(s: Schema, pos: Position, path: string) {
    && pos.InField? && SecretAt(s, Model(0), pos) && PathTo(pos.spelling, pos.below) == path
    && !Covered(SecretPaths(s, 0, "", {}), path)
  }

  const PASSWORD := Field("password", NoAlias, NoAlias, Secret)

  /** Model 0 has a `login` and, perhaps, a password; model 1 has a password. */
  function LoginSchema(alias: Alias, ann: Ann): Schema {
    Schema(map[0 := [Field("login", alias, NoAlias, ann), PASSWORD],
               1 := [Field("secret", NoAlias, NoAlias, Secret)]], map[])
  }

  lemma LoginKeys(alias: Alias, ann: Ann)
    requires alias == NoAlias || alias == AtPath("login", [Index("0")])
    ensures var s := LoginSchema(alias, ann);
            && (forall i: nat, key | HasKey(s, 0, i, key) ::
                  '.' !in key && key == if i == 0 then "login" else "password")
            && (forall i: nat, key | HasKey(s, 1, i, key) :: '.' !in key && key == "secret")
            && (alias != NoAlias ==> Spells(s.models[0][0], "login.0"))
            && SecretAt(s, Model(1), InField(0, "secret", Here))
  {
    assert NamePrefix("login", [Index("0")]) == "login" && FullPath("login", [Index("0")]) == "login.0";
    assert AliasNames(AtPath("login", [Index("0")])) == ["login"] && AliasNames(NoAlias) == [];
    assert AddNew(["login"], ["login"]) == ["login"];
  }

  /** The login is not redacted, nor is anything the walk enters from it listed at `rest`. */
  ghost predicate Passed(s: Schema, ann: Ann, rest: seq<string>) {
    !Redacted(s, ann, {0}, {}) && forall id | Entered(s, ann, id, {}) :: !Followed(s, id, rest, {0})
  }

  lemma ModelIsPassed(s: Schema, id: Id, rest: seq<string>)
    requires !Followed(s, id, rest, {0})
    ensures Passed(s, Model(id), rest)
  {
    assert Members(Model(id)) == [Model(id)];
  }

  /** What the path holds behind such a login decides. */
  lemma LoginIsMissed(alias: Alias, ann: Ann, pos: Position, path: string, rest: seq<string>)
    requires alias == NoAlias || alias == AtPath("login", [Index("0")])
    requires pos.InField? && SecretAt(LoginSchema(alias, ann), Model(0), pos)
    requires PathTo(pos.spelling, pos.below) == path && Split(path) == ["login"] + rest
    requires Passed(LoginSchema(alias, ann), ann, rest)
    ensures Missed(LoginSchema(alias, ann), pos, path)
  {
    var s := LoginSchema(alias, ann);
    LoginKeys(alias, ann);
    assert (["login"] + rest)[1..] == rest && {} + {0} == {0};
    forall i: nat, key | HasKey(s, 0, i, key)
      ensures !FollowedInto(s, s.models[0][i].ann, Split(key), ["login"] + rest, {0})
    {
      SplitDotFree(key);
      assert (["login"] + rest)[0] == "login";
    }
    CoveredIff(s, 0, path);
  }

  lemma SplitSecret()
    ensures Split("login.0.secret") == ["login"] + ["0", "secret"]
    ensures PathTo("login.0", InField(0, "secret", Here)) == "login.0.secret"
    ensures PathTo("login", Element(0, "0", InField(0, "secret", Here))) == "login.0.secret"
  {
    assert "login" + "." + "0" == "login.0" && "login.0" + "." + "secret" == "login.0.secret";
    SplitThree("login", "0", "secret");
  }

  lemma SplitLogin()
    ensures Split("login.password") == ["login"] + ["password"]
    ensures PathTo("login", InField(1, "password", Here)) == "login.password"
  {
    assert "login" + "." + "password" == "login.password";
    SplitTwo("login", "password");
  }

  lemma SecretIsNotFollowed(alias: Alias, ann: Ann)
    requires alias == NoAlias || alias == AtPath("login", [Index("0")])
    ensures !Followed(LoginSchema(alias, ann), 1, ["0", "secret"], {0})
  {
    var s := LoginSchema(alias, ann);
    LoginKeys(alias, ann);
    SplitDotFree("secret");
    assert ["0", "secret"][0] == "0" && |"0"| != |"secret"|;
    assert forall i: nat, key | HasKey(s, 1, i, key) :: !(Split(key) <= ["0", "secret"]);
  }

  /** An index in the alias of a nested model is dropped, and the paths listed
      below it then name places the file does not have. */
  lemma IndexedModelIsMissed()
    ensures exists pos :: Missed(LoginSchema(AtPath("login", [Index("0")]), Model(1)), pos, "login.0.secret")
  {
    var alias := AtPath("login", [Index("0")]);
    var pos, rest := IndexedSecret(alias);
    LoginIsMissed(alias, Model(1), pos, "login.0.secret", rest);
  }

  lemma IndexedSecret(alias: Alias) returns (pos: Position, rest: seq<string>)
    requires alias == AtPath("login", [Index("0")])
    ensures var s := LoginSchema(alias, Model(1));
            pos.InField? && SecretAt(s, Model(0), pos) && Passed(s, Model(1), rest)
    ensures PathTo(pos.spelling, pos.below) == "login.0.secret" && Split("login.0.secret") == ["login"] + rest
  {
    var s, below := LoginSchema(alias, Model(1)), InField(0, "secret", Here);
    pos, rest := InField(0, "login.0", below), ["0", "secret"];
    LoginKeys(alias, Model(1));
    SplitSecret();
    SecretIsNotFollowed(alias, Model(1));
    ModelIsPassed(s, 1, rest);
  }

  /** `Sequence[Login]`: elements, though the walk does not know it. */
  const SEQUENCE: Ann := Generic(Other(Generic(Recognised, [Model(1)])), [Model(1)])

  function WayDown(n: nat, i: nat): Position
    requires i <= n
    decreases n - i
  {
    InField(0, "inner", if i == n then Here else if i == 0 then Element(0, "0", WayDown(n, 1)) else WayDown(n, i + 1))
  }

  lemma {:induction false} SecretDown(n: nat, i: nat)
    requires 0 < i <= n
    ensures SecretAt(Nested(n), Model(i), WayDown(n, i))
    decreases n - i
  {
    assert IsField(Nested(n), i, 0);
    if i < n { SecretDown(n, i + 1); }
  }

  /** A secret eight models and more below a list. */
  lemma DeepModelIsMissed(n: nat)
    requires n > 7
    ensures var pos := WayDown(n, 0); Missed(Nested(n), pos, PathTo(pos.spelling, pos.below))
  {
    NestedListedIff(n);
    SecretDown(n, 1);
    assert IsField(Nested(n), 0, 0) && SecretAt(Nested(n), USERS, WayDown(n, 0).below);
  }

  /** An element of a sequence that is no list. */
  lemma SequenceIsMissed()
    ensures exists pos :: Missed(LoginSchema(NoAlias, SEQUENCE), pos, "login.0.secret")
  {
    var pos, rest := ElementSecret();
    LoginIsMissed(NoAlias, SEQUENCE, pos, "login.0.secret", rest);
  }

  lemma ElementSecret() returns (pos: Position, rest: seq<string>)
    ensures var s := LoginSchema(NoAlias, SEQUENCE);
            pos.InField? && SecretAt(s, Model(0), pos) && Passed(s, SEQUENCE, rest)
    ensures PathTo(pos.spelling, pos.below) == "login.0.secret" && Split("login.0.secret") == ["login"] + rest
  {
    var s, inner := LoginSchema(NoAlias, SEQUENCE), InField(0, "secret", Here);
    pos, rest := InField(0, "login", Through(Element(0, "0", inner))), ["0", "secret"];
    LoginKeys(NoAlias, SEQUENCE);
    SecretElement(s, inner);
    SplitSecret();
    ElementsArePassed();
  }

  lemma SecretElement(s: Schema, inner: Position)
    requires SecretAt(s, Model(1), inner)
    ensures SecretAt(s, SEQUENCE, Through(Element(0, "0", inner)))
  {
    assert SecretAt(s, SEQUENCE.origin.meaning, Element(0, "0", inner));
  }

  lemma ElementsArePassed()
    ensures Passed(LoginSchema(NoAlias, SEQUENCE), SEQUENCE, ["0", "secret"])
  {
    assert AllMembers([Model(1)]) == [Model(1)] by { assert [Model(1)][1..] == [] && Members(Model(1)) == [Model(1)]; }
    assert !Holds(LoginSchema(NoAlias, SEQUENCE), SEQUENCE, {0}, 0);
    SecretIsNotFollowed(NoAlias, SEQUENCE);
  }

  /** A model inside itself: its own password is listed, its child's is not. */
  lemma RepeatIsMissed()
    ensures exists pos :: Missed(LoginSchema(NoAlias, Model(0)), pos, "login.password")
  {
    var pos, rest := RepeatedPassword();
    LoginIsMissed(NoAlias, Model(0), pos, "login.password", rest);
  }

  lemma RepeatedPassword() returns (pos: Position, rest: seq<string>)
    ensures var s := LoginSchema(NoAlias, Model(0));
            pos.InField? && SecretAt(s, Model(0), pos) && Passed(s, Model(0), rest)
    ensures PathTo(pos.spelling, pos.below) == "login.password" && Split("login.password") == ["login"] + rest
  {
    var s, inner := LoginSchema(NoAlias, Model(0)), InField(1, "password", Here);
    pos, rest := InField(0, "login", inner), ["password"];
    LoginKeys(NoAlias, Model(0));
    assert SecretAt(s, Secret, Here) && SecretAt(s, Model(0), inner);
    SplitLogin();
    ModelIsPassed(s, 0, rest);
  }

  /** `Password = NewType("Password", SecretStr)` in a flat model: `login: Password`. */
  lemma AliasIsMissed()
    ensures exists pos :: Missed(LoginSchema(NoAlias, Generic(Other(Secret), [])), pos, "login")
  {
    var ann, pos := Generic(Other(Secret), []), InField(0, "login", Through(Here));
    var s := LoginSchema(NoAlias, ann);
    LoginKeys(NoAlias, ann);
    SplitDotFree("login");
    assert SecretAt(s, Secret, Here) && SecretAt(s, ann, pos.below);
    assert Members(ann) == [] && !Redacted(s, ann, {0}, {}) && ["login"] + [] == ["login"];
    LoginIsMissed(NoAlias, ann, pos, "login", []);
  }

  /** A root model that is its own content through a union: the walk does not return. */
  lemma RootOfItselfNeverReturns()
    ensures !Returns(Schema(map[0 := [Field("r", NoAlias, NoAlias, Root(5))]],
                            map[5 := Generic(Transparent, [Plain, Root(5)])]), 0, {})
  {
    var content := Generic(Transparent, [Plain, Root(5)]);
    var f := Field("r", NoAlias, NoAlias, Root(5));
    var s := Schema(map[0 := [f]], map[5 := content]);
    assert content.args[1..] == [Root(5)] && [Root(5)][1..] == [];
    assert Members(Plain) == [Plain] && Members(Root(5)) == [Root(5)] && Members(content) == [Plain, Root(5)];
    assert !Holds(s, content, {0}, 0) && !Holds(s, Root(5), {0}, 0);
    assert [Plain, Root(5)][1..] == [Root(5)];
    assert !MemberReturns(s, Root(5), {0}, {5});
    assert !MembersReturn(s, [Root(5)], {0}, {5}) && !MembersReturn(s, [Plain, Root(5)], {0}, {5});
    assert {} + {5} == {5} && !MemberReturns(s, Root(5), {0}, {});
    assert !MembersReturn(s, [Root(5)], {0}, {}) && !UnderReturns(s, Root(5), {0}, {});
    assert {} + {0} == {0} && f in s.models[0];
  }
}
