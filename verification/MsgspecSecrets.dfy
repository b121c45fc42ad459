/**
  The secret-path walk over `msgspec.Struct` declarations, cyclic ones included,
  and what it covers: which of the value positions that a declaration marks
  secret have their path, or an ancestor of it, in the list.
*/
module MsgspecSecrets {
  import opened DottedPaths
  import opened PathCover

  type StructId = nat

  /** What stands in front of the brackets.  The walk knows five containers, and
      asks nothing about any other origin but its arguments. */
  datatype Origin =
    | Union | AnnotatedAs          // the value stays where it is
    | Recognised                   // `list`, `set`, `frozenset`, `tuple`, `dict`
    | Other(meaning: Ann)          // anything else, and what a value of it is

  /** A type annotation: `Generic` is an origin with its arguments in order, or a
      name with none.  `Other` stands for `Sequence` or `Mapping` (a container), a
      struct with its parameters (that struct), a `NewType` or `type` alias (what it
      names, unrolled as deep as a value goes), a class derived from a container.  A `Meta` is an argument of
      `Annotated`; a dataclass or `TypedDict` is a name for its fields. */
  datatype Ann =
    | Plain
    | Struct(id: StructId)
    | Meta(secret: bool)
    | Dots
    | Generic(origin: Origin, args: seq<Ann>)

  /** A field under the one name a file writes it by. */
  datatype Field = Field(name: string, ann: Ann)

  /** The fields of every struct, and of every other type with fields. */
  type Table = map<StructId, seq<Field>>

  // ── The walk ────────────────────────────────────────────────────────────

  /** `_unwrap`: every leaf of an annotation, containers included. */
  function Unwrap(ann: Ann): seq<Ann>
    decreases ann, 1
  {
    if ann.Generic? then UnwrapAll(ann.args) else [ann]
  }

  function UnwrapAll(args: seq<Ann>): seq<Ann>
    decreases args, 0
  {
    if args == [] then [] else Unwrap(args[0]) + UnwrapAll(args[1..])
  }

  predicate IsSecret(ann: Ann) { Meta(true) in Unwrap(ann) }

  predicate UnderAContainer(ann: Ann) {
    ann.Generic? && (ann.origin.Recognised? || exists arg <- ann.args :: UnderAContainer(arg))
  }

  function StructsOf(leaves: seq<Ann>): seq<StructId> {
    if leaves == [] then []
    else (if leaves[0].Struct? then [leaves[0].id] else []) + StructsOf(leaves[1..])
  }

  ghost function Unseen(table: Table, seen: set<StructId>): nat { |table.Keys - seen| }

  /** Terminates on every table: each level sees one more of its structs. */
  function SecretPaths(table: Table, model: StructId, prefix: string, seen: set<StructId>): seq<string>
    decreases Unseen(table, seen), 0, 0
  {
    if model in seen || model !in table then []
    else
      UnseenFalls(table.Keys, seen, model);
      Deduplicated(FieldPaths(table, table[model], prefix, seen + {model}))
  }

  function FieldPaths(table: Table, fields: seq<Field>, prefix: string, seen: set<StructId>): seq<string>
    decreases Unseen(table, seen), 2, |fields|
  {
    if fields == [] then []
    else PathsOf(table, fields[0].ann, prefix + fields[0].name, seen) + FieldPaths(table, fields[1..], prefix, seen)
  }

  /** What one field contributes at `path`. */
  function PathsOf(table: Table, ann: Ann, path: string, seen: set<StructId>): seq<string>
    decreases Unseen(table, seen), 2, 0
  {
    var nested := StructsOf(Unwrap(ann));
    if IsSecret(ann) then [path]
    else if UnderAContainer(ann) then if NestedPaths(table, nested, "", seen) != [] then [path] else []
    else NestedPaths(table, nested, path + ".", seen)
  }

  function NestedPaths(table: Table, nested: seq<StructId>, prefix: string, seen: set<StructId>): seq<string>
    decreases Unseen(table, seen), 1, |nested|
  {
    if nested == [] then []
    else SecretPaths(table, nested[0], prefix, seen) + NestedPaths(table, nested[1..], prefix, seen)
  }

  /** `secret_paths`, with its loops. */
  method Walk(table: Table, model: StructId, prefix: string, seen: set<StructId>) returns (paths: seq<string>)
    ensures paths == SecretPaths(table, model, prefix, seen)
    decreases Unseen(table, seen), 0, 0
  {
    if model in seen || model !in table { return []; }
    UnseenFalls(table.Keys, seen, model);
    var fields := table[model];
    paths := [];
    for k := 0 to |fields|
      invariant paths + FieldPaths(table, fields[k..], prefix, seen + {model})
                == FieldPaths(table, fields, prefix, seen + {model})
    {
      var found := WalkField(table, fields[k].ann, prefix + fields[k].name, seen + {model});
      assert fields[k..][1..] == fields[k + 1..];
      paths := paths + found;
    }
    assert fields[|fields|..] == [] && paths + [] == paths;
    return Deduplicated(paths);
  }

  method WalkField(table: Table, ann: Ann, path: string, seen: set<StructId>) returns (paths: seq<string>)
    ensures paths == PathsOf(table, ann, path, seen)
    decreases Unseen(table, seen), 1
  {
    if IsSecret(ann) { return [path]; }
    var nested := StructsOf(Unwrap(ann));
    if UnderAContainer(ann) {
      var below := WalkNested(table, nested, "", seen);
      return if below != [] then [path] else [];
    }
    paths := WalkNested(table, nested, path + ".", seen);
  }

  /** The loop over a field's structs, under one prefix. */
  method WalkNested(table: Table, nested: seq<StructId>, prefix: string, seen: set<StructId>)
      returns (paths: seq<string>)
    ensures paths == NestedPaths(table, nested, prefix, seen)
    decreases Unseen(table, seen), 0, 1
  {
    paths := [];
    for n := 0 to |nested|
      invariant paths + NestedPaths(table, nested[n..], prefix, seen) == NestedPaths(table, nested, prefix, seen)
    {
      var more := Walk(table, nested[n], prefix, seen);
      NestedStep(table, nested, n, prefix, seen);
      paths := paths + more;
    }
  }

  lemma NestedStep(table: Table, nested: seq<StructId>, n: nat, prefix: string, seen: set<StructId>)
    requires n < |nested|
    ensures NestedPaths(table, nested[n..], prefix, seen)
         == SecretPaths(table, nested[n], prefix, seen) + NestedPaths(table, nested[n + 1..], prefix, seen)
  {
    assert nested[n..][1..] == nested[n + 1..];
  }

  // ── Positions a declaration marks secret ────────────────────────────────

  /** A way down from an annotation to a value: into an argument of a union or of
      `Annotated`, or into what some other annotation means (the value stays where
      it is), into an element under some key or index, or into a field.  Every
      value conforming to the annotation has its positions among these. */
  datatype Position =
    | Here
    | Inside(arg: nat, below: Position)
    | Through(below: Position)
    | Element(arg: nat, key: string, below: Position)
    | InField(field: nat, below: Position)

  predicate Transparent(ann: Ann) { ann.Generic? && (ann.origin.Union? || ann.origin.AnnotatedAs?) }

  /** The position exists and ends on a value declared secret. */
  ghost predicate SecretAt(table: Table, ann: Ann, pos: Position)
    decreases pos
  {
    match pos
    case Here => ann.Generic? && ann.origin.AnnotatedAs? && Meta(true) in ann.args
    case Inside(i, below) => Transparent(ann) && i < |ann.args| && SecretAt(table, ann.args[i], below)
    case Through(below) => ann.Generic? && ann.origin.Other? && SecretAt(table, ann.origin.meaning, below)
    case Element(i, _, below) =>
      ann.Generic? && ann.origin.Recognised? && i < |ann.args| && SecretAt(table, ann.args[i], below)
    case InField(i, below) => ann.Struct? && IsField(table, ann.id, i) && SecretAt(table, table[ann.id][i].ann, below)
  }

  ghost predicate IsField(table: Table, id: StructId, i: nat) { id in table && i < |table[id]| }

  /** The dotted path a diagnostic would give the position, `path` being the
      annotated value's own. */
  ghost function PathTo(table: Table, ann: Ann, path: string, pos: Position): string
    requires SecretAt(table, ann, pos)
    decreases pos
  {
    match pos
    case Here => path
    case Inside(i, below) => PathTo(table, ann.args[i], path, below)
    case Through(below) => PathTo(table, ann.origin.meaning, path, below)
    case Element(i, key, below) => PathTo(table, ann.args[i], path + "." + key, below)
    case InField(_, _) => PathInStruct(table, ann.id, path + ".", pos)
  }

  ghost function PathInStruct(table: Table, model: StructId, prefix: string, pos: Position): string
    requires pos.InField? && SecretAt(table, Struct(model), pos)
    decreases pos, 0
  {
    PathTo(table, table[model][pos.field].ann, prefix + table[model][pos.field].name, pos.below)
  }

  lemma {:induction false} PathsGoDown(table: Table, ann: Ann, path: string, pos: Position)
    requires SecretAt(table, ann, pos)
    ensures Covers(path, PathTo(table, ann, path, pos))
    decreases pos
  {
    match pos
    case Here =>
    case Inside(i, below) => PathsGoDown(table, ann.args[i], path, below);
    case Through(below) => PathsGoDown(table, ann.origin.meaning, path, below);
    case Element(i, key, below) => PathsGoDown(table, ann.args[i], path + "." + key, below);
    case InField(i, below) =>
      var f := table[ann.id][i];
      PathsGoDown(table, f.ann, path + "." + f.name, below);
  }

  function Size(pos: Position): nat { if pos.Here? then 0 else 1 + Size(pos.below) }

  /** Where a way stands once everything is peeled off that leaves the value where it is. */
  ghost function Landed(table: Table, ann: Ann, pos: Position): (r: (Ann, Position))
    requires SecretAt(table, ann, pos)
    ensures SecretAt(table, r.0, r.1) && !r.1.Inside? && !r.1.Through? && Size(r.1) <= Size(pos)
    ensures forall path :: PathTo(table, ann, path, pos) == PathTo(table, r.0, path, r.1)
    decreases pos
  {
    if pos.Inside? then Landed(table, ann.args[pos.arg], pos.below)
    else if pos.Through? then Landed(table, ann.origin.meaning, pos.below)
    else (ann, pos)
  }

  // ── Which positions the walk reaches ────────────────────────────────────

  /** Some secret is declared below the struct, origins disregarded, without
      entering a struct twice or one of `seen`. */
  ghost predicate Declares(table: Table, id: StructId, seen: set<StructId>)
    decreases Unseen(table, seen), 0
  {
    id in table && id !in seen &&
    (UnseenFalls(table.Keys, seen, id);
     exists f <- table[id] :: DeclaresUnder(table, f.ann, seen + {id}))
  }

  ghost predicate DeclaresUnder(table: Table, ann: Ann, seen: set<StructId>)
    decreases Unseen(table, seen), 1
  {
    IsSecret(ann) || exists id <- StructsOf(Unwrap(ann)) :: Declares(table, id, seen)
  }

  /** The field is redacted whole. */
  ghost predicate Redacted(table: Table, ann: Ann, seen: set<StructId>) {
    IsSecret(ann) || (UnderAContainer(ann) && DeclaresUnder(table, ann, seen))
  }

  /** Down to the first field redacted whole: no struct is entered twice, and
      every struct entered is one the walk descends into at that very path. */
  ghost predicate Reached(table: Table, model: StructId, pos: Position, seen: set<StructId>)
    requires pos.InField? && SecretAt(table, Struct(model), pos)
    decreases Size(pos)
  {
    model !in seen &&
    var ann := table[model][pos.field].ann;
    Redacted(table, ann, seen + {model}) ||
    (!UnderAContainer(ann) &&
     var (at, rest) := Landed(table, ann, pos.below);
     rest.InField? && at.id in StructsOf(Unwrap(ann)) && Reached(table, at.id, rest, seen + {model}))
  }

  lemma {:induction false} StructLeaf(leaves: seq<Ann>, id: StructId)
    ensures Struct(id) in leaves <==> id in StructsOf(leaves)
  {
    if leaves != [] {
      StructLeaf(leaves[1..], id);
      assert leaves == [leaves[0]] + leaves[1..];
    }
  }

  // ── What is listed ──────────────────────────────────────────────────────

  lemma {:induction false} NestedIff(table: Table, nested: seq<StructId>, prefix: string, seen: set<StructId>,
      p: string)
    ensures p in NestedPaths(table, nested, prefix, seen) <==>
            exists id <- nested :: p in SecretPaths(table, id, prefix, seen)
  {
    if nested != [] {
      NestedIff(table, nested[1..], prefix, seen, p);
      if id :| id in nested && p in SecretPaths(table, id, prefix, seen) {
        assert id == nested[0] || id in nested[1..];
      }
      assert nested[0] in nested && forall id <- nested[1..] :: id in nested;
    }
  }

  ghost predicate FieldLists(table: Table, f: Field, prefix: string, seen: set<StructId>, p: string) {
    p in PathsOf(table, f.ann, prefix + f.name, seen)
  }

  lemma {:induction false} FieldsIff(table: Table, fields: seq<Field>, prefix: string, seen: set<StructId>, p: string)
    ensures p in FieldPaths(table, fields, prefix, seen) <==>
            exists f <- fields :: FieldLists(table, f, prefix, seen, p)
  {
    if fields != [] {
      FieldsIff(table, fields[1..], prefix, seen, p);
      if f :| f in fields && FieldLists(table, f, prefix, seen, p) {
        assert f == fields[0] || f in fields[1..];
      }
      assert fields[0] in fields && forall f <- fields[1..] :: f in fields;
      assert p in PathsOf(table, fields[0].ann, prefix + fields[0].name, seen) <==>
             FieldLists(table, fields[0], prefix, seen, p);
    }
  }

  /** Something is listed exactly for what declares a secret. */
  lemma {:induction false} ListsIff(table: Table, id: StructId, prefix: string, seen: set<StructId>)
    ensures SecretPaths(table, id, prefix, seen) != [] <==> Declares(table, id, seen)
    decreases Unseen(table, seen), 0
  {
    if id in table && id !in seen {
      UnseenFalls(table.Keys, seen, id);
      var fields, inner := table[id], seen + {id};
      forall f | f in fields
        ensures PathsOf(table, f.ann, prefix + f.name, inner) != [] <==> DeclaresUnder(table, f.ann, inner)
      {
        FieldListsIff(table, f.ann, prefix + f.name, inner);
      }
      if SecretPaths(table, id, prefix, seen) != [] {
        var p := SecretPaths(table, id, prefix, seen)[0];
        assert p in SecretPaths(table, id, prefix, seen);
        FieldsIff(table, fields, prefix, inner, p);
      }
      if f :| f in fields && DeclaresUnder(table, f.ann, inner) {
        var p := PathsOf(table, f.ann, prefix + f.name, inner)[0];
        assert FieldLists(table, f, prefix, inner, p);
        FieldsIff(table, fields, prefix, inner, p);
        assert p in SecretPaths(table, id, prefix, seen);
      }
    }
  }

  lemma {:induction false} FieldListsIff(table: Table, ann: Ann, path: string, seen: set<StructId>)
    ensures PathsOf(table, ann, path, seen) != [] <==> DeclaresUnder(table, ann, seen)
    decreases Unseen(table, seen), 2
  {
    if !IsSecret(ann) { NestedListsIff(table, StructsOf(Unwrap(ann)), if UnderAContainer(ann)
        then "" else path + ".", seen); }
  }

  lemma {:induction false} NestedListsIff(table: Table, nested: seq<StructId>, prefix: string, seen: set<StructId>)
    ensures NestedPaths(table, nested, prefix, seen) != [] <==> exists id <- nested :: Declares(table, id, seen)
    decreases Unseen(table, seen), 1, |nested|
  {
    if nested != [] {
      ListsIff(table, nested[0], prefix, seen);
      NestedListsIff(table, nested[1..], prefix, seen);
      assert nested == [nested[0]] + nested[1..];
    }
  }

  lemma ContainerField(table: Table, ann: Ann, path: string, seen: set<StructId>)
    requires !IsSecret(ann) && UnderAContainer(ann)
    ensures PathsOf(table, ann, path, seen) == if Redacted(table, ann, seen) then [path] else []
  {
    FieldListsIff(table, ann, path, seen);
  }

  // ── Coverage, one way ───────────────────────────────────────────────────

  lemma {:induction false} ReachedIsCovered(
      table: Table, model: StructId, prefix: string, seen: set<StructId>, pos: Position)
    requires pos.InField? && SecretAt(table, Struct(model), pos) && Reached(table, model, pos, seen)
    ensures Covered(SecretPaths(table, model, prefix, seen), PathInStruct(table, model, prefix, pos))
    decreases Size(pos)
  {
    var f, inner := table[model][pos.field], seen + {model};
    var path := prefix + f.name;
    var p: string;
    if Redacted(table, f.ann, inner) {
      p := path;
      PathsGoDown(table, f.ann, path, pos.below);
      if !IsSecret(f.ann) { ContainerField(table, f.ann, path, inner); }
      assert Covers(p, PathTo(table, f.ann, path, pos.below));
    } else {
      var (at, rest) := Landed(table, f.ann, pos.below);
      ReachedIsCovered(table, at.id, path + ".", inner, rest);
      p :| p in SecretPaths(table, at.id, path + ".", inner) &&
          Covers(p, PathInStruct(table, at.id, path + ".", rest));
      NestedIff(table, StructsOf(Unwrap(f.ann)), path + ".", inner, p);
      assert Covers(p, PathTo(table, f.ann, path, pos.below));
    }
    assert FieldLists(table, f, prefix, inner, p);
    FieldsIff(table, table[model], prefix, inner, p);
    assert p in SecretPaths(table, model, prefix, seen);
  }

  // ── Covered, by the names on a path ─────────────────────────────────────

  /** Everything listed for a struct is at or below one of its fields. */
  lemma {:induction false} ListedField(table: Table, model: StructId, prefix: string, seen: set<StructId>, p: string)
    returns (i: nat)
    requires p in SecretPaths(table, model, prefix, seen)
    ensures model in table && model !in seen && i < |table[model]|
    ensures FieldLists(table, table[model][i], prefix, seen + {model}, p)
    ensures Covers(prefix + table[model][i].name, p)
    decreases Unseen(table, seen)
  {
    UnseenFalls(table.Keys, seen, model);
    FieldsIff(table, table[model], prefix, seen + {model}, p);
    var f :| f in table[model] && FieldLists(table, f, prefix, seen + {model}, p);
    i :| 0 <= i < |table[model]| && table[model][i] == f;
    var path := prefix + f.name;
    if p != path {
      var id := ListedNested(table, f.ann, path, seen + {model}, p);
      var k := ListedField(table, id, path + ".", seen + {model}, p);
      assert path + "." <= path + "." + table[id][k].name <= p;
    }
  }

  lemma ListedNested(table: Table, ann: Ann, path: string, seen: set<StructId>, p: string) returns (id: StructId)
    requires p in PathsOf(table, ann, path, seen) && p != path
    ensures !Redacted(table, ann, seen) && !UnderAContainer(ann)
    ensures id in StructsOf(Unwrap(ann)) && p in SecretPaths(table, id, path + ".", seen)
  {
    NestedIff(table, StructsOf(Unwrap(ann)), path + ".", seen, p);
    id :| id in StructsOf(Unwrap(ann)) && p in SecretPaths(table, id, path + ".", seen);
  }

  lemma NotItself(table: Table, id: StructId, path: string, seen: set<StructId>)
    ensures path !in SecretPaths(table, id, path + ".", seen)
  {
    if path in SecretPaths(table, id, path + ".", seen) {
      var k := ListedField(table, id, path + ".", seen, path);
      assert false;
    }
  }

  /** A field that is not redacted whole is not listed itself. */
  lemma FieldBelow(table: Table, ann: Ann, path: string, seen: set<StructId>)
    requires !Redacted(table, ann, seen)
    ensures path !in PathsOf(table, ann, path, seen)
  {
    if UnderAContainer(ann) {
      ContainerField(table, ann, path, seen);
    } else {
      NestedIff(table, StructsOf(Unwrap(ann)), path + ".", seen, path);
      forall id ensures path !in SecretPaths(table, id, path + ".", seen) { NotItself(table, id, path, seen); }
    }
  }

  /** Read from the struct, the segments run through fields the walk goes into, no
      struct twice, and reach one that is redacted whole. */
  ghost predicate Followed(table: Table, model: StructId, segments: seq<string>, seen: set<StructId>)
    decreases Unseen(table, seen), 0
  {
    model in table && model !in seen &&
    (UnseenFalls(table.Keys, seen, model);
     exists f <- table[model] :: FollowedInto(table, f, segments, seen + {model}))
  }

  ghost predicate FollowedInto(table: Table, f: Field, segments: seq<string>, seen: set<StructId>)
    decreases Unseen(table, seen), 1
  {
    var name := Split(f.name);
    name <= segments &&
    (Redacted(table, f.ann, seen) ||
     (!UnderAContainer(f.ann) &&
      exists id <- StructsOf(Unwrap(f.ann)) :: Followed(table, id, segments[|name|..], seen)))
  }

  lemma {:induction false} FollowedIsCovered(
      table: Table, model: StructId, prefix: string, base: seq<string>, segments: seq<string>, seen: set<StructId>,
      q: string)
    requires IsPrefix(prefix, base) && Split(q) == base + segments && Followed(table, model, segments, seen)
    ensures Covered(SecretPaths(table, model, prefix, seen), q)
    decreases Unseen(table, seen)
  {
    UnseenFalls(table.Keys, seen, model);
    var inner := seen + {model};
    var f :| f in table[model] && FollowedInto(table, f, segments, inner);
    var path, name := prefix + f.name, Split(f.name);
    OneStep(prefix, base, f.name, segments, q);
    var p := path;
    if Redacted(table, f.ann, inner) {
      if !IsSecret(f.ann) { ContainerField(table, f.ann, path, inner); }
    } else {
      var id :| id in StructsOf(Unwrap(f.ann)) && Followed(table, id, segments[|name|..], inner);
      FollowedIsCovered(table, id, path + ".", Split(path), segments[|name|..], inner, q);
      p :| p in SecretPaths(table, id, path + ".", inner) && Covers(p, q);
      NestedIff(table, StructsOf(Unwrap(f.ann)), path + ".", inner, p);
    }
    assert FieldLists(table, f, prefix, inner, p);
    FieldsIff(table, table[model], prefix, inner, p);
  }

  lemma {:induction false} CoveredIsFollowed(
      table: Table, model: StructId, prefix: string, base: seq<string>, segments: seq<string>, seen: set<StructId>,
      p: string, q: string)
    requires IsPrefix(prefix, base) && Split(q) == base + segments
    requires p in SecretPaths(table, model, prefix, seen) && Covers(p, q)
    ensures Followed(table, model, segments, seen)
    decreases Unseen(table, seen)
  {
    UnseenFalls(table.Keys, seen, model);
    var i := ListedField(table, model, prefix, seen, p);
    var f, inner := table[model][i], seen + {model};
    var path, name := prefix + f.name, Split(f.name);
    CoversTransitive(path, p, q);
    OneStep(prefix, base, f.name, segments, q);
    if !Redacted(table, f.ann, inner) {
      FieldBelow(table, f.ann, path, inner);
      var id := ListedNested(table, f.ann, path, inner, p);
      CoveredIsFollowed(table, id, path + ".", Split(path), segments[|name|..], inner, p, q);
    }
    assert FollowedInto(table, f, segments, inner);
  }

  /** Exactly which paths the listed ones cover, on every table. */
  lemma CoveredIff(table: Table, model: StructId, path: string)
    ensures Covered(SecretPaths(table, model, "", {}), path) <==> Followed(table, model, Split(path), {})
  {
    var none: set<StructId> := {};
    assert [] + Split(path) == Split(path);
    if Followed(table, model, Split(path), none) {
      FollowedIsCovered(table, model, "", [], Split(path), none, path);
    }
    if p :| p in SecretPaths(table, model, "", none) && Covers(p, path) {
      CoveredIsFollowed(table, model, "", [], Split(path), none, p, path);
    }
  }

  // ── Covered, by position ────────────────────────────────────────────────

  /** The segments of the path below the annotated value. */
  ghost function Segments(table: Table, ann: Ann, pos: Position): seq<string>
    requires SecretAt(table, ann, pos)
    decreases pos
  {
    match pos
    case Here => []
    case Inside(i, below) => Segments(table, ann.args[i], below)
    case Through(below) => Segments(table, ann.origin.meaning, below)
    case Element(i, key, below) => Split(key) + Segments(table, ann.args[i], below)
    case InField(i, below) => Split(table[ann.id][i].name) + Segments(table, table[ann.id][i].ann, below)
  }

  lemma {:induction false} SplitPath(table: Table, ann: Ann, path: string, pos: Position)
    requires SecretAt(table, ann, pos)
    ensures Split(PathTo(table, ann, path, pos)) == Split(path) + Segments(table, ann, pos)
    decreases pos
  {
    match pos
    case Here =>
    case Inside(i, below) => SplitPath(table, ann.args[i], path, below);
    case Through(below) => SplitPath(table, ann.origin.meaning, path, below);
    case Element(i, key, below) =>
      SplitPath(table, ann.args[i], path + "." + key, below);
      OneMore(path, key, Segments(table, ann.args[i], below));
    case InField(i, below) =>
      var f := table[ann.id][i];
      SplitPath(table, f.ann, path + "." + f.name, below);
      OneMore(path, f.name, Segments(table, f.ann, below));
  }

  lemma SplitInStruct(table: Table, model: StructId, prefix: string, base: seq<string>, pos: Position)
    requires IsPrefix(prefix, base) && pos.InField? && SecretAt(table, Struct(model), pos)
    ensures Split(PathInStruct(table, model, prefix, pos)) == base + Segments(table, Struct(model), pos)
  {
    var f := table[model][pos.field];
    SplitUnder(prefix, base, f.name);
    SplitPath(table, f.ann, prefix + f.name, pos.below);
    Regroup(base, Split(f.name), Segments(table, f.ann, pos.below));
  }

  lemma {:induction false} LandedSegments(table: Table, ann: Ann, pos: Position)
    requires SecretAt(table, ann, pos)
    ensures var (at, rest) := Landed(table, ann, pos); Segments(table, at, rest) == Segments(table, ann, pos)
    decreases pos
  {
    if pos.Inside? { LandedSegments(table, ann.args[pos.arg], pos.below); }
    if pos.Through? { LandedSegments(table, ann.origin.meaning, pos.below); }
  }

  /** No name leads the way by accident: of the fields the walk meets at each step,
      only the position's own begins the segments that are left. */
  ghost predicate Unmistaken(table: Table, model: StructId, pos: Position)
    requires pos.InField? && SecretAt(table, Struct(model), pos)
    decreases Size(pos)
  {
    var ann := table[model][pos.field].ann;
    var (at, rest) := Landed(table, ann, pos.below);
    && (forall j: nat | IsField(table, model, j) ::
          Split(table[model][j].name) <= Segments(table, Struct(model), pos) ==> j == pos.field)
    && (forall id, k: nat | id in StructsOf(Unwrap(ann)) && IsField(table, id, k) ::
          Split(table[id][k].name) <= Segments(table, at, rest) ==> rest.InField? && at.id == id && k == rest.field)
    && (rest.InField? && at.id in StructsOf(Unwrap(ann)) ==> Unmistaken(table, at.id, rest))
  }

  lemma {:induction false} FollowedIsReached(table: Table, model: StructId, pos: Position, seen: set<StructId>)
    requires pos.InField? && SecretAt(table, Struct(model), pos) && Unmistaken(table, model, pos)
    requires Followed(table, model, Segments(table, Struct(model), pos), seen)
    ensures Reached(table, model, pos, seen)
    decreases Size(pos)
  {
    var inner, segments := seen + {model}, Segments(table, Struct(model), pos);
    var f :| f in table[model] && FollowedInto(table, f, segments, inner);
    var j :| 0 <= j < |table[model]| && table[model][j] == f;
    assert IsField(table, model, j) && j == pos.field;
    if !Redacted(table, f.ann, inner) {
      var (at, rest) := Landed(table, f.ann, pos.below);
      LandedSegments(table, f.ann, pos.below);
      assert segments[|Split(f.name)|..] == Segments(table, at, rest);
      var id :| id in StructsOf(Unwrap(f.ann)) && Followed(table, id, Segments(table, at, rest), inner);
      var g :| g in table[id] && FollowedInto(table, g, Segments(table, at, rest), inner + {id});
      var k :| 0 <= k < |table[id]| && table[id][k] == g;
      assert IsField(table, id, k);
      FollowedIsReached(table, id, rest, inner);
    }
  }

  /** Position by position: covered if and only if reached, unless a name misleads. */
  lemma CoveredIffReached(table: Table, model: StructId, pos: Position)
    requires pos.InField? && SecretAt(table, Struct(model), pos) && Unmistaken(table, model, pos)
    ensures Covered(SecretPaths(table, model, "", {}), PathInStruct(table, model, "", pos)) <==>
            Reached(table, model, pos, {})
  {
    var path := PathInStruct(table, model, "", pos);
    if Reached(table, model, pos, {}) { ReachedIsCovered(table, model, "", {}, pos); }
    CoveredIff(table, model, path);
    SplitInStruct(table, model, "", [], pos);
    assert [] + Segments(table, Struct(model), pos) == Segments(table, Struct(model), pos);
    if Followed(table, model, Split(path), {}) { FollowedIsReached(table, model, pos, {}); }
  }

  // ── When no name misleads ───────────────────────────────────────────────

  /** Fields of `id` sit at the annotated value's own path. */
  ghost predicate Direct(ann: Ann, id: StructId)
    decreases ann
  {
    || ann == Struct(id)
    || (Transparent(ann) && exists i :: 0 <= i < |ann.args| && Direct(ann.args[i], id))
    || (ann.Generic? && ann.origin.Other? && Direct(ann.origin.meaning, id))
  }

  lemma {:induction false} LandedDirect(table: Table, ann: Ann, pos: Position)
    requires SecretAt(table, ann, pos) && Landed(table, ann, pos).1.InField?
    ensures Direct(ann, Landed(table, ann, pos).0.id)
    decreases pos
  {
    if pos.Inside? { LandedDirect(table, ann.args[pos.arg], pos.below); }
    if pos.Through? { LandedDirect(table, ann.origin.meaning, pos.below); }
  }

  /** A struct the walk takes from the annotation and another whose fields are
      really there share no name. */
  ghost predicate Apart(table: Table, ann: Ann) {
    forall a, b, i: nat, j: nat |
      a in StructsOf(Unwrap(ann)) && Direct(ann, b) && IsField(table, a, i) && IsField(table, b, j) ::
      table[a][i].name == table[b][j].name ==> a == b
  }

  /** Names without dots, distinct within a struct, and apart within one field. */
  ghost predicate Named(table: Table) {
    && (forall id, i: nat | IsField(table, id, i) :: '.' !in table[id][i].name && Apart(table, table[id][i].ann))
    && (forall id, i: nat, j: nat | IsField(table, id, i) && IsField(table, id, j) ::
          table[id][i].name == table[id][j].name ==> i == j)
  }

  /** Keys of elements the walk takes for fields are no names of those fields:
      indices are not, and a mapping's keys need not be. */
  ghost predicate Ordinary(table: Table, ann: Ann, pos: Position)
    requires SecretAt(table, ann, pos)
    decreases Size(pos)
  {
    var (at, rest) := Landed(table, ann, pos);
    && (rest.Element? ==> forall id, k: nat | id in StructsOf(Unwrap(ann)) && IsField(table, id, k) ::
          table[id][k].name != Split(rest.key)[0])
    && (rest.InField? ==> Ordinary(table, table[at.id][rest.field].ann, rest.below))
  }

  lemma NameFirst(name: string, segments: seq<string>)
    requires '.' !in name
    ensures Split(name) <= segments <==> segments != [] && segments[0] == name
  {
    SplitDotFree(name);
  }

  lemma {:induction false} NamedIsUnmistaken(table: Table, model: StructId, pos: Position)
    requires Named(table) && pos.InField? && SecretAt(table, Struct(model), pos)
    requires Ordinary(table, table[model][pos.field].ann, pos.below)
    ensures Unmistaken(table, model, pos)
    decreases Size(pos)
  {
    var ann := table[model][pos.field].ann;
    var (at, rest) := Landed(table, ann, pos.below);
    SplitDotFree(table[model][pos.field].name);
    forall j: nat | IsField(table, model, j) && Split(table[model][j].name) <= Segments(table, Struct(model), pos)
      ensures j == pos.field
    {
      NameFirst(table[model][j].name, Segments(table, Struct(model), pos));
    }
    forall id, k: nat | id in StructsOf(Unwrap(ann)) && IsField(table, id, k)
                        && Split(table[id][k].name) <= Segments(table, at, rest)
      ensures rest.InField? && at.id == id && k == rest.field
    {
      OwnName(table, ann, pos.below, id, k);
    }
    if rest.InField? { NamedIsUnmistaken(table, at.id, rest); }
  }

  lemma OwnName(table: Table, ann: Ann, pos: Position, id: StructId, k: nat)
    requires Named(table) && SecretAt(table, ann, pos) && Ordinary(table, ann, pos) && Apart(table, ann)
    requires id in StructsOf(Unwrap(ann)) && IsField(table, id, k)
    requires var (at, rest) := Landed(table, ann, pos); Split(table[id][k].name) <= Segments(table, at, rest)
    ensures var (at, rest) := Landed(table, ann, pos); rest.InField? && at.id == id && k == rest.field
  {
    var (at, rest) := Landed(table, ann, pos);
    NameFirst(table[id][k].name, Segments(table, at, rest));
    if rest.InField? {
      LandedDirect(table, ann, pos);
      SplitDotFree(table[at.id][rest.field].name);
    }
  }

  // ── Chains of structs ───────────────────────────────────────────────────

  /** Everything on the way is a union, a recognised container or a struct by its own name. */
  ghost predicate Walkable(table: Table, ann: Ann, pos: Position)
    requires SecretAt(table, ann, pos)
    decreases pos
  {
    match pos
    case Here => true
    case Inside(i, below) => Walkable(table, ann.args[i], below)
    case Through(_) => false
    case Element(i, _, below) => Walkable(table, ann.args[i], below)
    case InField(i, below) => Walkable(table, table[ann.id][i].ann, below)
  }

  /** The structs entered on the way down. */
  ghost function Chain(table: Table, ann: Ann, pos: Position): seq<StructId>
    requires SecretAt(table, ann, pos)
    decreases pos
  {
    match pos
    case Here => []
    case Inside(i, below) => Chain(table, ann.args[i], below)
    case Through(below) => Chain(table, ann.origin.meaning, below)
    case Element(i, _, below) => Chain(table, ann.args[i], below)
    case InField(i, below) => [ann.id] + Chain(table, table[ann.id][i].ann, below)
  }

  ghost predicate NoRepeat(chain: seq<StructId>, seen: set<StructId>) {
    (forall i, j :: 0 <= i < j < |chain| ==> chain[i] != chain[j]) && forall id <- chain :: id !in seen
  }

  lemma NoRepeatStep(id: StructId, rest: seq<StructId>, seen: set<StructId>)
    ensures NoRepeat([id] + rest, seen) <==> id !in seen && NoRepeat(rest, seen + {id})
  {
    var chain := [id] + rest;
    assert forall k :: 0 <= k < |rest| ==> chain[k + 1] == rest[k];
    assert forall k <- chain :: k == id || k in rest;
    if NoRepeat(chain, seen) {
      assert chain[0] in chain;
      forall k | k in rest ensures k !in seen + {id} {
        var i :| 0 <= i < |rest| && rest[i] == k;
        assert chain[i + 1] in chain;
      }
      forall i, j | 0 <= i < j < |rest| ensures rest[i] != rest[j] { assert chain[i + 1] != chain[j + 1]; }
    }
    if id !in seen && NoRepeat(rest, seen + {id}) {
      forall i, j | 0 <= i < j < |chain| ensures chain[i] != chain[j] {
        assert rest[j - 1] in rest;
        if i > 0 { assert rest[i - 1] != rest[j - 1]; }
      }
    }
  }

  lemma {:induction false} ArgLeaves(args: seq<Ann>, i: nat, leaf: Ann)
    requires i < |args| && leaf in Unwrap(args[i])
    ensures leaf in UnwrapAll(args)
  {
    if i > 0 { ArgLeaves(args[1..], i - 1, leaf); }
  }

  /** A walkable position of a field that is not itself secret lies inside one
      of the structs its annotation names. */
  lemma {:induction false} FirstStruct(table: Table, ann: Ann, pos: Position) returns (id: StructId, inner: Position)
    requires SecretAt(table, ann, pos) && Walkable(table, ann, pos) && !IsSecret(ann)
    ensures id in StructsOf(Unwrap(ann)) && inner.InField? && SecretAt(table, Struct(id), inner)
    ensures Walkable(table, Struct(id), inner) && Chain(table, ann, pos) == Chain(table, Struct(id), inner)
    ensures !UnderAContainer(ann) ==> Landed(table, ann, pos) == (Struct(id), inner)
    ensures Size(inner) <= Size(pos)
    decreases pos
  {
    match pos
    case Here =>
      var i :| 0 <= i < |ann.args| && ann.args[i] == Meta(true);
      ArgLeaves(ann.args, i, Meta(true));
      assert false;
    case InField(_, _) => id, inner := ann.id, pos;
    case Through(_) => assert false;
    case _ =>
      if IsSecret(ann.args[pos.arg]) { ArgLeaves(ann.args, pos.arg, Meta(true)); }
      id, inner := FirstStruct(table, ann.args[pos.arg], pos.below);
      StructLeaf(Unwrap(ann.args[pos.arg]), id);
      ArgLeaves(ann.args, pos.arg, Struct(id));
      StructLeaf(Unwrap(ann), id);
      assert ann.args[pos.arg] in ann.args;
  }

  lemma {:induction false} ReachedDeclares(table: Table, model: StructId, pos: Position, seen: set<StructId>)
    requires pos.InField? && SecretAt(table, Struct(model), pos) && Reached(table, model, pos, seen)
    ensures Declares(table, model, seen)
    decreases Size(pos)
  {
    var f := table[model][pos.field];
    UnseenFalls(table.Keys, seen, model);
    if !Redacted(table, f.ann, seen + {model}) {
      var (at, rest) := Landed(table, f.ann, pos.below);
      ReachedDeclares(table, at.id, rest, seen + {model});
    }
    assert f in table[model] && DeclaresUnder(table, f.ann, seen + {model});
  }

  /** For every table and every walkable position whose chain of structs repeats
      none: the walk lists the position's path or one of its ancestors. */
  lemma {:induction false} Coverage(table: Table, model: StructId, pos: Position, seen: set<StructId>)
    requires pos.InField? && SecretAt(table, Struct(model), pos) && Walkable(table, Struct(model), pos)
    requires NoRepeat(Chain(table, Struct(model), pos), seen)
    ensures Reached(table, model, pos, seen)
    ensures Covered(SecretPaths(table, model, "", seen), PathInStruct(table, model, "", pos))
    decreases Size(pos)
  {
    var f, inner := table[model][pos.field], seen + {model};
    NoRepeatStep(model, Chain(table, f.ann, pos.below), seen);
    if !IsSecret(f.ann) {
      var id, rest := FirstStruct(table, f.ann, pos.below);
      Coverage(table, id, rest, inner);
      ReachedDeclares(table, id, rest, inner);
    }
    ReachedIsCovered(table, model, "", seen, pos);
  }

  /** The chain down to the first field redacted whole. */
  ghost function CutChain(table: Table, model: StructId, pos: Position, seen: set<StructId>): seq<StructId>
    requires pos.InField? && SecretAt(table, Struct(model), pos)
    decreases Size(pos)
  {
    var ann, inner := table[model][pos.field].ann, seen + {model};
    var (at, rest) := Landed(table, ann, pos.below);
    [model] +
    if Redacted(table, ann, inner) then []
    else if UnderAContainer(ann) || !rest.InField? then Chain(table, ann, pos.below)
    else CutChain(table, at.id, rest, inner)
  }

  /** With recognised containers only, repeats decide: a position is reached if
      and only if the chain down to the cut repeats no struct. */
  lemma {:induction false} RepeatsDecide(table: Table, model: StructId, pos: Position, seen: set<StructId>)
    requires pos.InField? && SecretAt(table, Struct(model), pos) && Walkable(table, Struct(model), pos)
    ensures Reached(table, model, pos, seen) <==> NoRepeat(CutChain(table, model, pos, seen), seen)
    decreases Size(pos)
  {
    var f, inner := table[model][pos.field], seen + {model};
    var cut := CutChain(table, model, pos, seen);
    NoRepeatStep(model, cut[1..], seen);
    assert cut == [model] + cut[1..];
    if !Redacted(table, f.ann, inner) {
      var id, rest := FirstStruct(table, f.ann, pos.below);
      if !UnderAContainer(f.ann) {
        RepeatsDecide(table, id, rest, inner);
      } else if NoRepeat(cut[1..], inner) {
        Coverage(table, id, rest, inner);
        ReachedDeclares(table, id, rest, inner);
        assert false;
      }
    }
  }

  /** So, unless a name misleads: covered if and only if that chain repeats none. */
  lemma CoveredIffNoRepeat(table: Table, model: StructId, pos: Position)
    requires pos.InField? && SecretAt(table, Struct(model), pos) && Walkable(table, Struct(model), pos)
    requires Unmistaken(table, model, pos)
    ensures Covered(SecretPaths(table, model, "", {}), PathInStruct(table, model, "", pos)) <==>
            NoRepeat(CutChain(table, model, pos, {}), {})
  {
    CoveredIffReached(table, model, pos);
    RepeatsDecide(table, model, pos, {});
  }

  /** A ranking under which every field only mentions lower structs: the table
      has no cycle. */
  ghost predicate Ranked(table: Table, rank: map<StructId, nat>) {
    forall id, i: nat | IsField(table, id, i) ::
      forall below <- StructsOf(Unwrap(table[id][i].ann)) :: id in rank && below in rank && rank[below] < rank[id]
  }

  lemma {:induction false} RankedIsReached(
      table: Table, rank: map<StructId, nat>, model: StructId, pos: Position, seen: set<StructId>)
    requires Ranked(table, rank) && model in rank && forall id <- seen :: id in rank && rank[id] > rank[model]
    requires pos.InField? && SecretAt(table, Struct(model), pos) && Walkable(table, Struct(model), pos)
    ensures Reached(table, model, pos, seen)
    decreases Size(pos)
  {
    var f := table[model][pos.field];
    assert IsField(table, model, pos.field);
    if !IsSecret(f.ann) {
      var id, rest := FirstStruct(table, f.ann, pos.below);
      RankedIsReached(table, rank, id, rest, seen + {model});
      ReachedDeclares(table, id, rest, seen + {model});
    }
  }

  /** On a table without cycles no walkable position is left out. */
  lemma AcyclicIsCovered(table: Table, rank: map<StructId, nat>, model: StructId, pos: Position)
    requires Ranked(table, rank) && model in rank
    requires pos.InField? && SecretAt(table, Struct(model), pos) && Walkable(table, Struct(model), pos)
    ensures Covered(SecretPaths(table, model, "", {}), PathInStruct(table, model, "", pos))
  {
    RankedIsReached(table, rank, model, pos, {});
    ReachedIsCovered(table, model, "", {}, pos);
  }

  // ── What is left out ────────────────────────────────────────────────────

  // A node with an optional child of its own kind and a secret password.
  const PASSWORD: Ann := Generic(AnnotatedAs, [Plain, Meta(true)])
  const CHILD: Ann := Generic(Union, [Struct(0), Plain])
  const NODE: seq<Field> := [Field("child", CHILD), Field("password", PASSWORD)]

  /** A field of one name: what else the path holds decides. */
  lemma OneField(table: Table, model: StructId, segments: seq<string>, seen: set<StructId>)
    requires model in table && model !in seen
    requires forall f <- table[model] :: '.' !in f.name && (segments == [] || segments[0] != f.name)
    ensures !Followed(table, model, segments, seen)
  {
    forall f | f in table[model] ensures !FollowedInto(table, f, segments, seen + {model}) {
      NameFirst(f.name, segments);
    }
  }

  /** On a cyclic table a repeated struct can be left out: nothing listed covers
      the child's password. */
  lemma RepeatIsNotCovered()
    ensures var table: Table := map[0 := NODE];
            var pos := InField(0, Inside(0, InField(1, Here)));
            && SecretAt(table, Struct(0), pos) && Chain(table, Struct(0), pos) == [0, 0]
            && PathInStruct(table, 0, "", pos) == "child.password"
            && !Covered(SecretPaths(table, 0, "", {}), "child.password")
  {
    var table: Table := map[0 := NODE];
    ChildPassword(table, InField(1, Here));
    ChildIsNotFollowed();
    CoveredIff(table, 0, "child.password");
  }

  lemma ChildPassword(table: Table, inner: Position)
    requires table == map[0 := NODE] && inner == InField(1, Here)
    ensures var pos := InField(0, Inside(0, inner));
            && SecretAt(table, Struct(0), pos) && Chain(table, Struct(0), pos) == [0, 0]
            && PathInStruct(table, 0, "", pos) == "child.password"
  {
    var pos := InField(0, Inside(0, inner));
    assert SecretAt(table, PASSWORD, Here) && SecretAt(table, Struct(0), inner) && SecretAt(table, CHILD, pos.below);
    assert Chain(table, Struct(0), inner) == [0] == Chain(table, CHILD, pos.below);
    assert "" + "child" + "." + "password" == "child.password";
  }

  lemma ChildIsNotFollowed()
    ensures !Followed(map[0 := NODE], 0, Split("child.password"), {})
  {
    SplitTwo("child", "password");
    assert "child" + "." + "password" == "child.password" && |"password"| != |"child"|;
    NameFirst("password", ["child", "password"]);
    ChildIsNotEntered(map[0 := NODE], ["child", "password"]);
  }

  lemma ChildIsNotEntered(table: Table, segments: seq<string>)
    requires 0 in table && |table[0]| == 2 && table[0][0].ann == CHILD && !(Split(table[0][1].name) <= segments)
    ensures !Followed(table, 0, segments, {})
  {
    assert Unwrap(CHILD) == [Struct(0), Plain] && StructsOf(Unwrap(CHILD)) == [0];
    assert {} + {0} == {0};
    forall f | f in table[0] ensures !FollowedInto(table, f, segments, {0}) {
      assert f == table[0][0] || f == table[0][1];
    }
  }

  const LOGIN: seq<Field> := [Field("password", PASSWORD)]

  /** One field, `users`, and a struct with a password. */
  function LoginTable(users: Ann): Table { map[0 := [Field("users", users)], 1 := LOGIN] }

  /** `Sequence[Login]`: elements, though the walk does not know it. */
  const SEQUENCE: Ann := Generic(Other(Generic(Recognised, [Struct(1)])), [Struct(1)])

  ghost predicate Missed(table: Table, pos: Position, path: string) {
    && pos.InField? && SecretAt(table, Struct(0), pos) && PathInStruct(table, 0, "", pos) == path
    && !Covered(SecretPaths(table, 0, "", {}), path)
  }

  lemma LoginIsMissed(users: Ann, pos: Position, path: string, rest: seq<string>)
    requires !IsSecret(users) && !UnderAContainer(users)
    requires forall id <- StructsOf(Unwrap(users)) :: id == 1 && rest != [] && rest[0] != "password"
    requires Split(path) == ["users"] + rest
    requires pos.InField? && SecretAt(LoginTable(users), Struct(0), pos)
    requires PathInStruct(LoginTable(users), 0, "", pos) == path
    ensures Missed(LoginTable(users), pos, path)
  {
    var table := LoginTable(users);
    SplitDotFree("users");
    assert (["users"] + rest)[1..] == rest && {} + {0} == {0};
    if 1 in StructsOf(Unwrap(users)) { OneField(table, 1, rest, {0}); }
    assert !FollowedInto(table, table[0][0], ["users"] + rest, {0});
    CoveredIff(table, 0, path);
  }

  lemma SplitElement() returns (rest: seq<string>)
    ensures Split("users.0.password") == ["users"] + rest && rest != [] && rest[0] != "password"
  {
    rest := ["0", "password"];
    SplitThree("users", "0", "password");
    assert "users" + "." + "0" + "." + "password" == "users.0.password" && |"0"| != |"password"|;
  }

  /** An element of a sequence that is no list. */
  lemma SequenceIsMissed()
    ensures exists pos :: Missed(LoginTable(SEQUENCE), pos, "users.0.password")
  {
    var pos := ElementPassword();
    var rest := SplitElement();
    LoginIsMissed(SEQUENCE, pos, "users.0.password", rest);
  }

  lemma ElementPassword() returns (pos: Position)
    ensures pos.InField? && SecretAt(LoginTable(SEQUENCE), Struct(0), pos)
    ensures PathInStruct(LoginTable(SEQUENCE), 0, "", pos) == "users.0.password"
    ensures !IsSecret(SEQUENCE) && !UnderAContainer(SEQUENCE) && StructsOf(Unwrap(SEQUENCE)) == [1]
  {
    pos := InField(0, Through(Element(0, "0", InField(0, Here))));
    assert Unwrap(SEQUENCE) == [Struct(1)];
    var table := LoginTable(SEQUENCE);
    assert SecretAt(table, Struct(1), InField(0, Here)) && SecretAt(table, SEQUENCE.origin.meaning, pos.below.below);
    assert SecretAt(table, SEQUENCE, pos.below);
    assert "" + "users" + "." + "0" + "." + "password" == "users.0.password";
  }

  /** A field of a struct with its parameters, `users: Login[int]`. */
  lemma GenericStructIsMissed()
    ensures exists pos :: Missed(LoginTable(Generic(Other(Struct(1)), [Plain])), pos, "users.password")
  {
    var users, pos := Generic(Other(Struct(1)), [Plain]), InField(0, Through(InField(0, Here)));
    FieldPassword(users, pos);
    SplitPassword();
    LoginIsMissed(users, pos, "users.password", ["password"]);
  }

  lemma FieldPassword(users: Ann, pos: Position)
    requires users == Generic(Other(Struct(1)), [Plain]) && pos == InField(0, Through(InField(0, Here)))
    ensures SecretAt(LoginTable(users), Struct(0), pos)
    ensures PathInStruct(LoginTable(users), 0, "", pos) == "users.password"
    ensures !IsSecret(users) && !UnderAContainer(users) && StructsOf(Unwrap(users)) == []
  {
    assert Unwrap(users) == [Plain];
    var table := LoginTable(users);
    assert SecretAt(table, Struct(1), InField(0, Here)) && SecretAt(table, users, pos.below);
    assert "" + "users" + "." + "password" == "users.password";
  }

  lemma SplitPassword()
    ensures Split("users.password") == ["users"] + ["password"]
  {
    SplitTwo("users", "password");
    assert "users" + "." + "password" == "users.password";
  }

  /** `type Password = Annotated[str, Meta(...)]` in a flat struct: `users: Password`. */
  lemma AliasIsMissed()
    ensures exists pos :: Missed(LoginTable(Generic(Other(PASSWORD), [])), pos, "users")
  {
    var users := Generic(Other(PASSWORD), []);
    var table, pos := LoginTable(users), InField(0, Through(Here));
    assert SecretAt(table, PASSWORD, Here) && SecretAt(table, users, pos.below) && SecretAt(table, Struct(0), pos);
    SplitDotFree("users");
    assert Unwrap(users) == [] && ["users"] + [] == ["users"] && "" + "users" == "users";
    LoginIsMissed(users, pos, "users", []);
  }

  /** A repeat below the cut does no harm: the chain repeats, the path is covered. */
  lemma RepeatBelowTheCut()
    ensures exists table: Table, pos: Position ::
              && pos.InField? && SecretAt(table, Struct(0), pos) && !NoRepeat(Chain(table, Struct(0), pos), {})
              && Covered(SecretPaths(table, 0, "", {}), PathInStruct(table, 0, "", pos))
  {
    var b := Generic(AnnotatedAs, [Struct(1), Meta(true)]);
    var table: Table := map[0 := [Field("b", b)], 1 := [Field("a", Struct(0)), Field("pw", PASSWORD)]];
    var last := InField(0, Inside(0, InField(1, Here)));
    var pos := InField(0, Inside(0, InField(0, last)));
    assert SecretAt(table, Struct(1), InField(1, Here)) && SecretAt(table, b, last.below);
    assert SecretAt(table, Struct(1), InField(0, last)) && SecretAt(table, b, pos.below);
    assert Chain(table, Struct(0), pos)[0] == 0 == Chain(table, Struct(0), pos)[2];
    assert Unwrap(b) == [Struct(1), Meta(true)];
    ReachedIsCovered(table, 0, "", {}, pos);
  }

  // ── Nothing more than that is listed ────────────────────────────────────

  /** The way the walk takes to a path it lists: through a field into one of the
      structs its annotation names, down to a field redacted whole. */
  datatype Route = Stop(field: nat) | Via(field: nat, id: StructId, rest: Route)

  ghost predicate Taken(table: Table, model: StructId, route: Route, seen: set<StructId>)
    decreases route
  {
    model !in seen && IsField(table, model, route.field) &&
    var ann := table[model][route.field].ann;
    match route
    case Stop(_) => Redacted(table, ann, seen + {model})
    case Via(_, id, rest) =>
      !IsSecret(ann) && !UnderAContainer(ann) && id in StructsOf(Unwrap(ann)) && Taken(table, id, rest, seen + {model})
  }

  ghost function RoutePath(table: Table, model: StructId, prefix: string, route: Route, seen: set<StructId>): string
    requires Taken(table, model, route, seen)
    decreases route
  {
    var path := prefix + table[model][route.field].name;
    if route.Stop? then path else RoutePath(table, route.id, path + ".", route.rest, seen + {model})
  }

  lemma {:induction false} RouteGoesDown(table: Table, model: StructId, prefix: string, route: Route,
      seen: set<StructId>)
    requires Taken(table, model, route, seen)
    ensures Covers(prefix + table[model][route.field].name, RoutePath(table, model, prefix, route, seen))
    decreases route
  {
    var path := prefix + table[model][route.field].name;
    if route.Via? {
      RouteGoesDown(table, route.id, path + ".", route.rest, seen + {model});
      var next := path + "." + table[route.id][route.rest.field].name;
      assert Covers(path, next);
      CoversTransitive(path, next, RoutePath(table, model, prefix, route, seen));
    }
  }

  lemma {:induction false} RouteIsListed(table: Table, model: StructId, prefix: string, route: Route,
      seen: set<StructId>)
    requires Taken(table, model, route, seen)
    ensures RoutePath(table, model, prefix, route, seen) in SecretPaths(table, model, prefix, seen)
    decreases route
  {
    var f, inner := table[model][route.field], seen + {model};
    var path := prefix + f.name;
    var p := RoutePath(table, model, prefix, route, seen);
    if route.Stop? {
      if !IsSecret(f.ann) { ContainerField(table, f.ann, path, inner); }
    } else {
      RouteIsListed(table, route.id, path + ".", route.rest, inner);
      NestedIff(table, StructsOf(Unwrap(f.ann)), path + ".", inner, p);
    }
    assert FieldLists(table, f, prefix, inner, p);
    FieldsIff(table, table[model], prefix, inner, p);
  }

  lemma {:induction false} ListedHasRoute(table: Table, model: StructId, prefix: string, seen: set<StructId>, p: string)
    returns (route: Route)
    requires p in SecretPaths(table, model, prefix, seen)
    ensures Taken(table, model, route, seen) && p == RoutePath(table, model, prefix, route, seen)
    decreases Unseen(table, seen)
  {
    var i := ListedField(table, model, prefix, seen, p);
    UnseenFalls(table.Keys, seen, model);
    var f, inner := table[model][i], seen + {model};
    var path := prefix + f.name;
    if p == path {
      if !Redacted(table, f.ann, inner) { FieldBelow(table, f.ann, path, inner); }
      route := Stop(i);
    } else {
      var id := ListedNested(table, f.ann, path, inner, p);
      var rest := ListedHasRoute(table, id, path + ".", inner, p);
      route := Via(i, id, rest);
    }
  }

  /** The listed paths are exactly the paths of these ways. */
  lemma ListedIff(table: Table, model: StructId, prefix: string, seen: set<StructId>, p: string)
    ensures p in SecretPaths(table, model, prefix, seen) <==>
            exists route :: Taken(table, model, route, seen) && p == RoutePath(table, model, prefix, route, seen)
  {
    if p in SecretPaths(table, model, prefix, seen) {
      var route := ListedHasRoute(table, model, prefix, seen, p);
    }
    if route :| Taken(table, model, route, seen) && p == RoutePath(table, model, prefix, route, seen) {
      RouteIsListed(table, model, prefix, route, seen);
    }
  }

  /** The way is one a value has: it enters a struct only where its fields are,
      and its last field can hold a secret. */
  ghost predicate Honest(table: Table, model: StructId, route: Route, seen: set<StructId>)
    requires Taken(table, model, route, seen)
    decreases route
  {
    var ann := table[model][route.field].ann;
    if route.Stop? then exists below :: Declared(table, ann, below)
    else Direct(ann, route.id) && Honest(table, route.id, route.rest, seen + {model})
  }

  ghost predicate Declared(table: Table, ann: Ann, pos: Position) {
    SecretAt(table, ann, pos) && Ordinary(table, ann, pos)
  }

  ghost predicate HasSecretBelow(table: Table, model: StructId, prefix: string, p: string, pos: Position) {
    pos.InField? && Declared(table, Struct(model), pos) && Covers(p, PathInStruct(table, model, prefix, pos))
  }

  ghost predicate SomethingBelow(table: Table, model: StructId, prefix: string, p: string) {
    exists pos :: HasSecretBelow(table, model, prefix, p, pos)
  }

  lemma {:induction false} DirectWay(table: Table, ann: Ann, id: StructId, inner: Position) returns (pos: Position)
    requires Direct(ann, id) && inner.InField? && SecretAt(table, Struct(id), inner)
    ensures SecretAt(table, ann, pos) && Landed(table, ann, pos) == (Struct(id), inner)
    decreases ann
  {
    if ann == Struct(id) {
      pos := inner;
    } else if ann.origin.Other? {
      var below := DirectWay(table, ann.origin.meaning, id, inner);
      pos := Through(below);
    } else {
      var i :| 0 <= i < |ann.args| && Direct(ann.args[i], id);
      var below := DirectWay(table, ann.args[i], id, inner);
      pos := Inside(i, below);
    }
  }

  lemma {:induction false} HonestHasPosition(
      table: Table, model: StructId, prefix: string, route: Route, seen: set<StructId>) returns (pos: Position)
    requires Taken(table, model, route, seen) && Honest(table, model, route, seen)
    ensures HasSecretBelow(table, model, prefix, RoutePath(table, model, prefix, route, seen), pos)
    decreases route
  {
    var f := table[model][route.field];
    var path := prefix + f.name;
    var below: Position;
    if route.Stop? {
      below :| Declared(table, f.ann, below);
      PathsGoDown(table, f.ann, path, below);
    } else {
      var inner := HonestHasPosition(table, route.id, path + ".", route.rest, seen + {model});
      below := DirectWay(table, f.ann, route.id, inner);
      assert PathTo(table, f.ann, path, below) == PathTo(table, Struct(route.id), path, inner);
    }
    pos := InField(route.field, below);
  }

  ghost function RouteSegments(table: Table, model: StructId, route: Route, seen: set<StructId>): seq<string>
    requires Taken(table, model, route, seen)
    decreases route
  {
    Split(table[model][route.field].name) +
    if route.Stop? then [] else RouteSegments(table, route.id, route.rest, seen + {model})
  }

  lemma {:induction false} SplitRoute(
      table: Table, model: StructId, prefix: string, base: seq<string>, route: Route, seen: set<StructId>)
    requires IsPrefix(prefix, base) && Taken(table, model, route, seen)
    ensures Split(RoutePath(table, model, prefix, route, seen)) == base + RouteSegments(table, model, route, seen)
    decreases route
  {
    var path, name := prefix + table[model][route.field].name, Split(table[model][route.field].name);
    SplitUnder(prefix, base, table[model][route.field].name);
    if route.Stop? {
      assert name + [] == name;
    } else {
      SplitRoute(table, route.id, path + ".", Split(path), route.rest, seen + {model});
      Regroup(base, name, RouteSegments(table, route.id, route.rest, seen + {model}));
    }
  }

  lemma {:induction false} PositionIsHonest(
      table: Table, model: StructId, route: Route, seen: set<StructId>, pos: Position)
    requires Taken(table, model, route, seen) && pos.InField? && SecretAt(table, Struct(model), pos)
    requires Ordinary(table, table[model][pos.field].ann, pos.below) && Unmistaken(table, model, pos)
    requires RouteSegments(table, model, route, seen) <= Segments(table, Struct(model), pos)
    ensures Honest(table, model, route, seen)
    decreases route
  {
    var name := Split(table[model][route.field].name);
    assert IsField(table, model, route.field) && name <= RouteSegments(table, model, route, seen);
    var f := table[model][pos.field];
    if route.Stop? {
      assert Declared(table, f.ann, pos.below);
    } else {
      var (at, rest) := Landed(table, f.ann, pos.below);
      LandedSegments(table, f.ann, pos.below);
      var left := RouteSegments(table, route.id, route.rest, seen + {model});
      PrefixBelow(name, left, Segments(table, at, rest));
      assert IsField(table, route.id, route.rest.field);
      assert Split(table[route.id][route.rest.field].name) <= left <= Segments(table, at, rest);
      LandedDirect(table, f.ann, pos.below);
      PositionIsHonest(table, route.id, route.rest, seen + {model}, rest);
    }
  }

  /** A listed path has a secret position at or below it if and only if the walk
      entered structs only where a value has their fields. */
  lemma PrecisionIff(
      table: Table, model: StructId, prefix: string, base: seq<string>, route: Route, seen: set<StructId>)
    requires Named(table) && IsPrefix(prefix, base) && Taken(table, model, route, seen)
    ensures Honest(table, model, route, seen) <==>
            SomethingBelow(table, model, prefix, RoutePath(table, model, prefix, route, seen))
  {
    var p := RoutePath(table, model, prefix, route, seen);
    if Honest(table, model, route, seen) {
      var found := HonestHasPosition(table, model, prefix, route, seen);
      assert HasSecretBelow(table, model, prefix, p, found);
    }
    if pos :| HasSecretBelow(table, model, prefix, p, pos) {
      NamedIsUnmistaken(table, model, pos);
      SplitRoute(table, model, prefix, base, route, seen);
      SplitInStruct(table, model, prefix, base, pos);
      CoversIff(p, PathInStruct(table, model, prefix, pos));
      PrefixBelow(base, RouteSegments(table, model, route, seen), Segments(table, Struct(model), pos));
      PositionIsHonest(table, model, route, seen, pos);
    }
  }

  /** `users: Sequence[Login]` lists `users.password`, where no element is. */
  lemma SequenceIsMislisted()
    ensures "users.password" in SecretPaths(LoginTable(SEQUENCE), 0, "", {})
    ensures !SomethingBelow(LoginTable(SEQUENCE), 0, "", "users.password")
  {
    var route := Via(0, 1, Stop(0));
    SequenceRoute();
    SequenceIsNamed();
    RouteIsListed(LoginTable(SEQUENCE), 0, "", route, {});
    PrecisionIff(LoginTable(SEQUENCE), 0, "", [], route, {});
  }

  lemma SequenceRoute()
    ensures var table, route := LoginTable(SEQUENCE), Via(0, 1, Stop(0));
            && Taken(table, 0, route, {}) && !Honest(table, 0, route, {})
            && RoutePath(table, 0, "", route, {}) == "users.password"
  {
    var table := LoginTable(SEQUENCE);
    assert Unwrap(SEQUENCE) == [Struct(1)] && Unwrap(PASSWORD) == [Plain, Meta(true)];
    assert Taken(table, 1, Stop(0), {0}) && {} + {0} == {0};
    assert !Direct(SEQUENCE.origin.meaning, 1) && !Direct(SEQUENCE, 1);
    assert "" + "users" + "." + "password" == "users.password";
  }

  lemma SequenceIsNamed()
    ensures Named(LoginTable(SEQUENCE))
  {
    assert Unwrap(PASSWORD) == [Plain, Meta(true)] && StructsOf(Unwrap(PASSWORD)) == [];
    NothingDirect();
    assert Apart(LoginTable(SEQUENCE), SEQUENCE) && Apart(LoginTable(SEQUENCE), PASSWORD);
  }

  lemma NothingDirect()
    ensures forall b :: !Direct(SEQUENCE, b)
  {
    forall b ensures !Direct(SEQUENCE, b) { assert !Direct(SEQUENCE.origin.meaning, b); }
  }

  // ── Where every origin is recognised ────────────────────────────────────

  /** Recognised origins only, and a `Meta` only as an argument of `Annotated`. */
  ghost predicate WellFormed(ann: Ann)
    decreases ann
  {
    ann.Generic? ==>
      && !ann.origin.Other?
      && (Meta(true) in ann.args ==> ann.origin.AnnotatedAs?) && forall arg <- ann.args :: WellFormed(arg)
  }

  ghost predicate WellFormedTable(table: Table) {
    forall id, i: nat | IsField(table, id, i) :: WellFormed(table[id][i].ann) && table[id][i].ann != Meta(true)
  }

  lemma {:induction false} LeafArg(args: seq<Ann>, leaf: Ann) returns (i: nat)
    requires leaf in UnwrapAll(args)
    ensures i < |args| && leaf in Unwrap(args[i])
  {
    if leaf in Unwrap(args[0]) {
      i := 0;
    } else {
      i := LeafArg(args[1..], leaf);
      i := i + 1;
    }
  }

  /** No list, set, tuple or dict anywhere in the brackets. */
  ghost predicate ContainerFree(ann: Ann)
    decreases ann
  {
    ann.Generic? ==> !ann.origin.Recognised? && forall arg <- ann.args :: ContainerFree(arg)
  }

  lemma {:induction false} ContainerFreeIff(ann: Ann)
    ensures ContainerFree(ann) <==> !UnderAContainer(ann)
    decreases ann
  {
    if ann.Generic? {
      forall arg | arg in ann.args ensures ContainerFree(arg) <==> !UnderAContainer(arg) { ContainerFreeIff(arg); }
    }
  }

  /** Puts a position of argument `i` under its parent. */
  lemma ThroughArg(table: Table, ann: Ann, path: string, i: nat, below: Position) returns (pos: Position)
    requires ann.Generic? && i < |ann.args| && WellFormed(ann) && SecretAt(table, ann.args[i], below)
    ensures SecretAt(table, ann, pos) && Covers(path, PathTo(table, ann, path, pos))
    ensures !ann.origin.Recognised? ==> PathTo(table, ann, path, pos) == PathTo(table, ann.args[i], path, below)
  {
    pos := if ann.origin.Recognised? then Element(i, "0", below) else Inside(i, below);
    PathsGoDown(table, ann, path, pos);
  }

  lemma {:induction false} SecretLeaf(table: Table, ann: Ann, path: string) returns (pos: Position)
    requires WellFormed(ann) && ann.Generic? && IsSecret(ann)
    ensures SecretAt(table, ann, pos) && Covers(path, PathTo(table, ann, path, pos))
    ensures !UnderAContainer(ann) ==> PathTo(table, ann, path, pos) == path
    decreases ann
  {
    if Meta(true) in ann.args {
      pos := Here;
    } else {
      var i := LeafArg(ann.args, Meta(true));
      assert ann.args[i] in ann.args;
      pos := SecretLeaf(table, ann.args[i], path);
      pos := ThroughArg(table, ann, path, i, pos);
    }
  }

  /** A secret position of a struct an annotation names is one of the annotation. */
  lemma {:induction false} StructLeafPosition(table: Table, ann: Ann, path: string, id: StructId, inner: Position)
    returns (pos: Position)
    requires WellFormed(ann) && Struct(id) in Unwrap(ann) && inner.InField? && SecretAt(table, Struct(id), inner)
    ensures SecretAt(table, ann, pos) && Covers(path, PathTo(table, ann, path, pos))
    ensures !UnderAContainer(ann) ==> PathTo(table, ann, path, pos) == PathInStruct(table, id, path + ".", inner)
    decreases ann
  {
    if ann.Generic? {
      var i := LeafArg(ann.args, Struct(id));
      assert ann.args[i] in ann.args;
      pos := StructLeafPosition(table, ann.args[i], path, id, inner);
      pos := ThroughArg(table, ann, path, i, pos);
    } else {
      pos := inner;
      PathsGoDown(table, ann, path, pos);
    }
  }

  ghost predicate Bare(table: Table) { forall id, i: nat | IsField(table, id, i) :: ContainerFree(table[id][i].ann) }

  /** On a table of recognised origins every listed path has a secret position at
      or below it: no field is redacted that declares nothing secret.  And where
      there are no containers, it is the secret's own path: no field is redacted
      for what another holds. */
  lemma {:induction false} Precision(table: Table, model: StructId, prefix: string, seen: set<StructId>, p: string)
    returns (pos: Position)
    requires WellFormedTable(table) && p in SecretPaths(table, model, prefix, seen)
    ensures pos.InField? && SecretAt(table, Struct(model), pos)
    ensures Covers(p, PathInStruct(table, model, prefix, pos))
    ensures Bare(table) ==> p == PathInStruct(table, model, prefix, pos)
    decreases Unseen(table, seen), 0
  {
    var i := ListedField(table, model, prefix, seen, p);
    UnseenFalls(table.Keys, seen, model);
    var f := table[model][i];
    assert IsField(table, model, i);
    ContainerFreeIff(f.ann);
    var below := FieldPrecision(table, f.ann, prefix + f.name, seen + {model}, p);
    pos := InField(i, below);
  }

  lemma {:induction false} FieldPrecision(table: Table, ann: Ann, path: string, seen: set<StructId>, p: string)
    returns (pos: Position)
    requires WellFormedTable(table) && WellFormed(ann) && ann != Meta(true)
    requires p in PathsOf(table, ann, path, seen)
    ensures SecretAt(table, ann, pos) && Covers(p, PathTo(table, ann, path, pos))
    ensures Bare(table) && !UnderAContainer(ann) ==> p == PathTo(table, ann, path, pos)
    decreases Unseen(table, seen), 1
  {
    if IsSecret(ann) {
      pos := SecretLeaf(table, ann, path);
    } else {
      var container := UnderAContainer(ann);
      var prefix, nested := if container then "" else path + ".", StructsOf(Unwrap(ann));
      var listed := if container then NestedPaths(table, nested, prefix, seen)[0] else p;
      NestedIff(table, nested, prefix, seen, listed);
      var id :| id in nested && listed in SecretPaths(table, id, prefix, seen);
      StructLeaf(Unwrap(ann), id);
      var inner := Precision(table, id, prefix, seen, listed);
      pos := StructLeafPosition(table, ann, path, id, inner);
    }
  }
}
