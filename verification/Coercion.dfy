/**
  The structural validator for dataclasses: which declared types it is sound
  for, and on which it leaves a value that already fits exactly as it is.

  Classes that parse their own text (`UUID`, `Path`, `SecretStr`, dates), enum
  lookup and hashing are Python calls: they are fields of `Env`, bound only by
  `EnvOk`.  Messages are not modelled; `Raised` is an exception that is not a
  `ValidationError`.
*/
module Coercion {
  import opened Common

  type Id = nat

  datatype Value =
    | NoneV | BoolV(b: bool) | IntV(n: int) | FloatV(value: real) | StrV(s: string) | BytesV(bytes: seq<nat>)
    | ListV(items: seq<Value>) | TupleV(items: seq<Value>) | SetV(items: seq<Value>) | FrozenV(items: seq<Value>)
    | DictV(entries: seq<Entry>)
    | Member(enum: Id, name: string)
    | Record(class_: Id, fields: seq<Entry>)
    | Object(id: Id, content: int)
  datatype Entry = Entry(key: string, value: Value)

  datatype Ty =
    | AnyT | NoneT | BoolT | IntT | FloatT | StrT | BytesT
    | EnumT(id: Id)
    | ClassT(id: Id)                       // a dataclass
    | SelfT(id: Id)                        // any other class
    | OtherT                               // an unbound TypeVar: any value
    | NewTypeT(ty: Ty)                     // a `NewType` or alias: a name for `ty`, but no class
    | SequenceT(ty: Ty)                    // `Sequence[ty]` and other origins that are none of the five:
    | MappingT(key: Ty, ty: Ty)            //   `Mapping[key, ty]`,
    | GenericT(id: Id)                     //   a dataclass with its parameters
    | LiteralT(allowed: seq<Value>)
    | UnionT(members: seq<Ty>)
    | AnnotatedT(ty: Ty)
    | ListT(ty: Ty) | SetT(ty: Ty) | FrozenT(ty: Ty)
    | TupleT(types: seq<Ty>) | TupleOfT(ty: Ty)
    | DictT(key: Ty, ty: Ty)

  /** What `_one` and `_container` hand back as it came. */
  predicate Passed(ty: Ty) { ty.NewTypeT? || ty.SequenceT? || ty.MappingT? || ty.GenericT? }

  datatype Field = Field(name: string, ty: Ty, default: Option<Value>)

  datatype Env = Env(
    classes: map<Id, seq<Field>>,
    enumOf: (Id, Value) -> Option<string>,
    isInstance: (Id, Value) -> bool,
    construct: (Id, Value) -> Option<Value>,
    hashable: Value -> bool)

  /** A class's constructor returns an instance of it; an enum called with one of
      its members returns that member. */
  ghost predicate EnvOk(env: Env) {
    && (forall id, v :: env.construct(id, v).Some? ==> env.isInstance(id, env.construct(id, v).value))
    && (forall id, name :: env.enumOf(id, Member(id, name)) == Some(name))
  }

  datatype Outcome<T> = Fits(value: T) | Invalid | Raised

  // ── The validator ───────────────────────────────────────────────────────

  /** `_members`: a union's members, through nested unions and `Annotated`. */
  function Members(ty: Ty): (r: seq<Ty>)
    ensures forall m <- r :: !m.UnionT? && !m.AnnotatedT? && (m == ty || m < ty)
    decreases ty, 1
  {
    match ty
    case UnionT(members) => AllMembers(members)
    case AnnotatedT(inner) => Members(inner)
    case _ => [ty]
  }

  function AllMembers(tys: seq<Ty>): (r: seq<Ty>)
    ensures forall m <- r :: !m.UnionT? && !m.AnnotatedT? && exists i :: 0 <= i < |tys| && (m == tys[i] || m < tys[i])
    decreases tys, 0
  {
    if tys == [] then [] else
      var rest := AllMembers(tys[1..]);
      assert forall i :: 0 <= i < |tys[1..]| ==> tys[1..][i] == tys[i + 1];
      Members(tys[0]) + rest
  }

  function Concrete(candidates: seq<Ty>): (r: seq<Ty>)
    ensures forall c :: c in r <==> c in candidates && c != NoneT
  {
    if candidates == [] then []
    else (if candidates[0] == NoneT then [] else [candidates[0]]) + Concrete(candidates[1..])
  }

  function Coerce(env: Env, ty: Ty, v: Value): Outcome<Value>
    decreases v, 3, 0
  {
    var candidates := Members(ty);
    if v.NoneV? then if NoneT in candidates then Fits(v) else Invalid
    else if Concrete(candidates) == [] || AnyT in candidates then Fits(v)
    else FirstFit(env, Concrete(candidates), v)
  }

  function FirstFit(env: Env, candidates: seq<Ty>, v: Value): Outcome<Value>
    decreases v, 2, |candidates|
  {
    if candidates == [] then Invalid
    else
      var r := One(env, candidates[0], v);
      if r.Invalid? then FirstFit(env, candidates[1..], v) else r
  }

  /** `_coerce`, with its loop over the members. */
  method CoerceValue(env: Env, ty: Ty, v: Value) returns (r: Outcome<Value>)
    ensures r == Coerce(env, ty, v)
  {
    var candidates := Members(ty);
    if v.NoneV? {
      return if NoneT in candidates then Fits(v) else Invalid;
    }
    var concrete := Concrete(candidates);
    if concrete == [] || AnyT in concrete {
      return Fits(v);
    }
    for k := 0 to |concrete|
      invariant FirstFit(env, concrete[k..], v) == FirstFit(env, concrete, v)
    {
      r := One(env, concrete[k], v);
      if !r.Invalid? { return; }
    }
    return Invalid;
  }

  function Accept(fits: bool, v: Value): Outcome<Value> { if fits then Fits(v) else Invalid }

  /** `_one` and `_container`. */
  function One(env: Env, candidate: Ty, v: Value): Outcome<Value>
    decreases v, 1, 0
  {
    match candidate
    case ListT(ty) => if v.ListV? || v.TupleV? then InList(CoerceAll(env, ty, v.items)) else Invalid
    case SetT(ty) => if v.ListV? || v.TupleV? then Hashed(env, CoerceAll(env, ty, v.items), false) else Invalid
    case FrozenT(ty) => if v.ListV? || v.TupleV? then Hashed(env, CoerceAll(env, ty, v.items), true) else Invalid
    case TupleOfT(ty) => if v.ListV? || v.TupleV? then InTuple(CoerceAll(env, ty, v.items)) else Invalid
    case TupleT(types) =>
      if !(v.ListV? || v.TupleV?) then Invalid
      else if types != [] && |types| != |v.items| then Invalid
      else InTuple(CoerceEach(env, types, v.items))
    case DictT(_, ty) => if v.DictV? then InDict(CoerceEntries(env, ty, v.entries)) else Invalid
    case LiteralT(allowed) => Accept(v in allowed, v)
    case ClassT(id) => if v.DictV? then Build(env, id, v.entries) else Invalid
    case EnumT(id) =>
      var name := env.enumOf(id, v);
      if name.Some? then Fits(Member(id, name.value)) else Invalid
    case BoolT => Accept(v.BoolV?, v)
    case FloatT => if v.IntV? then Fits(FloatV(v.n as real)) else Accept(v.FloatV?, v)
    case IntT => Accept(v.IntV?, v)
    case StrT => Accept(v.StrV?, v)
    case BytesT => Accept(v.BytesV?, v)
    case SelfT(id) =>
      if env.isInstance(id, v) then Fits(v)
      else
        var built := env.construct(id, v);
        if built.Some? then Fits(built.value) else Invalid
    case _ => Fits(v)
  }

  function InList(r: Outcome<seq<Value>>): Outcome<Value> {
    match r case Fits(items) => Fits(ListV(items)) case Invalid => Invalid case Raised => Raised
  }

  function InTuple(r: Outcome<seq<Value>>): Outcome<Value> {
    match r case Fits(items) => Fits(TupleV(items)) case Invalid => Invalid case Raised => Raised
  }

  /** `set(items)` raises a `TypeError` on an item that does not hash. */
  function Hashed(env: Env, r: Outcome<seq<Value>>, frozen: bool): Outcome<Value> {
    match r
    case Fits(items) =>
      if exists item <- items :: !env.hashable(item) then Raised
      else Fits(if frozen then FrozenV(items) else SetV(items))
    case Invalid => Invalid
    case Raised => Raised
  }

  function InDict(r: Outcome<seq<Entry>>): Outcome<Value> {
    match r case Fits(entries) => Fits(DictV(entries)) case Invalid => Invalid case Raised => Raised
  }

  function Cons<T>(head: Outcome<T>, tail: Outcome<seq<T>>): Outcome<seq<T>> {
    match head
    case Invalid => Invalid
    case Raised => Raised
    case Fits(x) => match tail case Fits(xs) => Fits([x] + xs) case Invalid => Invalid case Raised => Raised
  }

  function CoerceAll(env: Env, ty: Ty, items: seq<Value>): Outcome<seq<Value>>
    decreases items, 4, 0
  {
    if items == [] then Fits([]) else Cons(Coerce(env, ty, items[0]), CoerceAll(env, ty, items[1..]))
  }

  /** `zip(arguments, value)`: stops at the shorter of the two. */
  function CoerceEach(env: Env, types: seq<Ty>, items: seq<Value>): Outcome<seq<Value>>
    decreases items, 4, 0
  {
    if items == [] || types == [] then Fits([])
    else Cons(Coerce(env, types[0], items[0]), CoerceEach(env, types[1..], items[1..]))
  }

  function Named(key: string, r: Outcome<Value>): Outcome<Entry> {
    match r case Fits(v) => Fits(Entry(key, v)) case Invalid => Invalid case Raised => Raised
  }

  function CoerceEntries(env: Env, ty: Ty, entries: seq<Entry>): Outcome<seq<Entry>>
    decreases entries, 4, 0
  {
    if entries == [] then Fits([])
    else Cons(Named(entries[0].key, Coerce(env, ty, entries[0].value)), CoerceEntries(env, ty, entries[1..]))
  }

  // ── Dataclasses ─────────────────────────────────────────────────────────

  function FieldsOf(env: Env, id: Id): seq<Field> { if id in env.classes then env.classes[id] else [] }

  predicate Declares(fields: seq<Field>, key: string) { exists f <- fields :: f.name == key }

  /** The position of `key`, or the length when nothing supplies it. */
  function IndexOf(entries: seq<Entry>, key: string): (i: nat)
    ensures i <= |entries| && (i < |entries| ==> entries[i].key == key)
  {
    if entries == [] || entries[0].key == key then 0 else 1 + IndexOf(entries[1..], key)
  }

  function Build(env: Env, id: Id, entries: seq<Entry>): Outcome<Value>
    decreases entries, 6, 0
  {
    var fields := FieldsOf(env, id);
    if exists e <- entries :: !Declares(fields, e.key) then Invalid
    else if exists f <- fields :: f.default.None? && IndexOf(entries, f.name) == |entries| then Invalid
    else
      match BuildFields(env, fields, entries)
      case Fits(built) => Fits(Record(id, built))
      case Invalid => Invalid
      case Raised => Raised
  }

  /** A field nothing supplies takes its default, as declared. */
  function BuildFields(env: Env, fields: seq<Field>, entries: seq<Entry>): Outcome<seq<Entry>>
    decreases entries, 5, |fields|
  {
    if fields == [] then Fits([])
    else Cons(BuildField(env, fields[0], entries), BuildFields(env, fields[1..], entries))
  }

  function BuildField(env: Env, f: Field, entries: seq<Entry>): Outcome<Entry>
    decreases entries, 4, 0
  {
    var i := IndexOf(entries, f.name);
    if i < |entries| then Named(f.name, Coerce(env, f.ty, entries[i].value))
    else if f.default.Some? then Fits(Entry(f.name, f.default.value))
    else Invalid
  }

  // ── What a declared type means ──────────────────────────────────────────

  /** A text key of type `k`: what `Inhabits` says of text. */
  ghost predicate KeyInhabits(env: Env, k: Ty, key: string)
    decreases k
  {
    match k
    case AnyT => true
    case OtherT => true
    case StrT => true
    case SelfT(id) => env.isInstance(id, StrV(key))
    case LiteralT(allowed) => StrV(key) in allowed
    case UnionT(members) => exists i :: 0 <= i < |members| && KeyInhabits(env, members[i], key)
    case AnnotatedT(inner) => KeyInhabits(env, inner, key)
    case NewTypeT(inner) => KeyInhabits(env, inner, key)
    case _ => false
  }

  /** An instance of the class, its fields of their types or left at their defaults. */
  ghost predicate InhabitsClass(env: Env, id: Id, v: Value)
    decreases v, 0
  {
    v.Record? && v.class_ == id && |v.fields| == |FieldsOf(env, id)| &&
    forall i :: 0 <= i < |v.fields| ==>
      && v.fields[i].key == FieldsOf(env, id)[i].name
      && (Inhabits(env, FieldsOf(env, id)[i].ty, v.fields[i].value)
          || FieldsOf(env, id)[i].default == Some(v.fields[i].value))
  }

  ghost predicate InhabitsDict(env: Env, k: Ty, t: Ty, v: Value)
    decreases v, 0
  {
    v.DictV? && forall i :: 0 <= i < |v.entries| ==>
      Inhabits(env, t, v.entries[i].value) && KeyInhabits(env, k, v.entries[i].key)
  }

  ghost predicate Inhabits(env: Env, ty: Ty, v: Value)
    decreases v, 1, ty
  {
    match ty
    case AnyT => true
    case OtherT => true
    case NoneT => v.NoneV?
    case BoolT => v.BoolV?
    case IntT => v.IntV?
    case FloatT => v.FloatV?
    case StrT => v.StrV?
    case BytesT => v.BytesV?
    case EnumT(id) => v.Member? && v.enum == id
    case SelfT(id) => env.isInstance(id, v)
    case LiteralT(allowed) => v in allowed
    case UnionT(members) => exists i :: 0 <= i < |members| && Inhabits(env, members[i], v)
    case AnnotatedT(inner) => Inhabits(env, inner, v)
    case ListT(t) => v.ListV? && forall i :: 0 <= i < |v.items| ==> Inhabits(env, t, v.items[i])
    case SetT(t) => v.SetV? && forall i :: 0 <= i < |v.items| ==> Inhabits(env, t, v.items[i])
    case FrozenT(t) => v.FrozenV? && forall i :: 0 <= i < |v.items| ==> Inhabits(env, t, v.items[i])
    case TupleOfT(t) => v.TupleV? && forall i :: 0 <= i < |v.items| ==> Inhabits(env, t, v.items[i])
    case TupleT(ts) =>
      v.TupleV? && |v.items| == |ts| && forall i :: 0 <= i < |ts| ==> Inhabits(env, ts[i], v.items[i])
    case DictT(k, t) => InhabitsDict(env, k, t, v)
    case ClassT(id) => InhabitsClass(env, id, v)
    case NewTypeT(inner) => Inhabits(env, inner, v)
    case SequenceT(t) =>
      (v.ListV? || v.TupleV?) && forall i :: 0 <= i < |v.items| ==> Inhabits(env, t, v.items[i])
    case MappingT(k, t) => InhabitsDict(env, k, t, v)
    case GenericT(id) => InhabitsClass(env, id, v)
  }

  /** Flattening a union does not change what it means. */
  lemma {:induction false} MembersMean(env: Env, ty: Ty, v: Value)
    ensures Inhabits(env, ty, v) <==> exists m <- Members(ty) :: Inhabits(env, m, v)
    decreases ty, 1
  {
    match ty
    case UnionT(members) => AllMembersMean(env, members, v);
    case AnnotatedT(inner) => MembersMean(env, inner, v);
    case _ => assert ty in Members(ty);
  }

  lemma {:induction false} AllMembersMean(env: Env, tys: seq<Ty>, v: Value)
    ensures (exists i :: 0 <= i < |tys| && Inhabits(env, tys[i], v)) <==>
        exists m <- AllMembers(tys) :: Inhabits(env, m, v)
    decreases tys, 0
  {
    if tys != [] {
      MembersMean(env, tys[0], v);
      AllMembersMean(env, tys[1..], v);
      if i :| 0 <= i < |tys| && Inhabits(env, tys[i], v) {
        if i > 0 { assert tys[1..][i - 1] == tys[i]; }
      }
      if i :| 0 <= i < |tys[1..]| && Inhabits(env, tys[1..][i], v) { assert tys[i + 1] == tys[1..][i]; }
    }
  }

  // ── What comes out of what goes in ──────────────────────────────────────

  /** Item by item, in order, nothing added and nothing dropped. */
  ghost predicate Itemwise(env: Env, ty: Ty, items: seq<Value>, r: seq<Value>) {
    |r| == |items| && forall i :: 0 <= i < |r| ==> Coerce(env, ty, items[i]) == Fits(r[i])
  }

  /** Under the same keys. */
  ghost predicate Entrywise(env: Env, ty: Ty, entries: seq<Entry>, r: seq<Entry>) {
    |r| == |entries| && forall i :: 0 <= i < |r| ==>
      r[i].key == entries[i].key && Coerce(env, ty, entries[i].value) == Fits(r[i].value)
  }

  /** The file's value for a field, or the default where the file has none. */
  ghost predicate Supplied(env: Env, f: Field, entries: seq<Entry>, v: Value) {
    if exists e <- entries :: e.key == f.name
    then forall e <- entries :: e.key == f.name ==> Coerce(env, f.ty, e.value) == Fits(v)
    else f.default == Some(v)
  }

  /** A table declares nothing else, and each field has its own value. */
  ghost predicate Built(env: Env, id: Id, entries: seq<Entry>, w: Value) {
    && (forall e <- entries :: exists f <- FieldsOf(env, id) :: f.name == e.key)
    && w.Record? && w.class_ == id && |w.fields| == |FieldsOf(env, id)|
    && forall i :: 0 <= i < |w.fields| ==>
         w.fields[i].key == FieldsOf(env, id)[i].name && Supplied(env, FieldsOf(env, id)[i], entries, w.fields[i].value)
  }

  /** A dict has no key twice. */
  ghost predicate DistinctKeys(entries: seq<Entry>) {
    forall i, j :: 0 <= i < j < |entries| ==> entries[i].key != entries[j].key
  }

  predicate IsSequence(v: Value) { v.ListV? || v.TupleV? }

  ghost predicate FromItems(env: Env, ty: Ty, v: Value, r: seq<Value>) {
    IsSequence(v) && Itemwise(env, ty, v.items, r)
  }

  /** As many items as the tuple has places, each of its place's type. */
  ghost predicate InEachPlace(env: Env, ts: seq<Ty>, v: Value, r: seq<Value>) {
    && IsSequence(v) && |r| == |ts| && (ts != [] ==> |v.items| == |ts|)
    && forall i :: 0 <= i < |ts| ==> Coerce(env, ts[i], v.items[i]) == Fits(r[i])
  }

  predicate AllHash(env: Env, items: seq<Value>) { forall item <- items :: env.hashable(item) }

  /** What a member of the declared type takes `v` for. */
  ghost predicate Means(env: Env, m: Ty, v: Value, w: Value) {
    match m
    case ListT(t) => w.ListV? && FromItems(env, t, v, w.items)
    case TupleOfT(t) => w.TupleV? && FromItems(env, t, v, w.items)
    case SetT(t) => w.SetV? && FromItems(env, t, v, w.items) && AllHash(env, w.items)
    case FrozenT(t) => w.FrozenV? && FromItems(env, t, v, w.items) && AllHash(env, w.items)
    case TupleT(ts) => w.TupleV? && InEachPlace(env, ts, v, w.items)
    case DictT(_, t) => v.DictV? && w.DictV? && Entrywise(env, t, v.entries, w.entries)
    case ClassT(id) => v.DictV? && Built(env, id, v.entries, w)
    case EnumT(id) => w.Member? && w.enum == id && env.enumOf(id, v) == Some(w.name)
    case FloatT => w.FloatV? && (w == v || (v.IntV? && w.value == v.n as real))
    case SelfT(id) => if env.isInstance(id, v) then w == v else env.construct(id, v) == Some(w)
    case _ => w == v && (Passed(m) || Inhabits(env, m, v))
  }

  lemma {:induction false} AllIff(env: Env, ty: Ty, items: seq<Value>, r: seq<Value>)
    ensures CoerceAll(env, ty, items) == Fits(r) <==> Itemwise(env, ty, items, r)
    decreases |items|
  {
    if items != [] && r != [] {
      AllIff(env, ty, items[1..], r[1..]);
      assert r == [r[0]] + r[1..] && items == [items[0]] + items[1..];
    }
  }

  lemma {:induction false} EachIff(env: Env, types: seq<Ty>, items: seq<Value>, r: seq<Value>)
    requires types == [] || |types| == |items|
    ensures CoerceEach(env, types, items) == Fits(r) <==>
            |r| == |types| && forall i :: 0 <= i < |types| ==> Coerce(env, types[i], items[i]) == Fits(r[i])
    decreases |items|
  {
    if items != [] && types != [] && r != [] {
      if |types| == 1 { assert types[1..] == [] && items[1..] == []; }
      EachIff(env, types[1..], items[1..], r[1..]);
      assert r == [r[0]] + r[1..] && items == [items[0]] + items[1..] && types == [types[0]] + types[1..];
    }
  }

  lemma {:induction false} EntriesIff(env: Env, ty: Ty, entries: seq<Entry>, r: seq<Entry>)
    ensures CoerceEntries(env, ty, entries) == Fits(r) <==> Entrywise(env, ty, entries, r)
    decreases |entries|
  {
    if entries != [] && r != [] {
      EntriesIff(env, ty, entries[1..], r[1..]);
      assert r == [r[0]] + r[1..] && entries == [entries[0]] + entries[1..];
    }
  }

  lemma {:induction false} FieldsIff(env: Env, fields: seq<Field>, entries: seq<Entry>, r: seq<Entry>)
    ensures BuildFields(env, fields, entries) == Fits(r) <==>
            |r| == |fields| && forall i :: 0 <= i < |fields| ==> BuildField(env, fields[i], entries) == Fits(r[i])
    decreases |fields|
  {
    if fields != [] && r != [] {
      FieldsIff(env, fields[1..], entries, r[1..]);
      assert r == [r[0]] + r[1..] && fields == [fields[0]] + fields[1..];
    }
  }

  lemma {:induction false} IndexOfIff(entries: seq<Entry>, key: string)
    ensures IndexOf(entries, key) < |entries| <==> exists e <- entries :: e.key == key
  {
    if entries != [] {
      IndexOfIff(entries[1..], key);
      assert entries == [entries[0]] + entries[1..] && entries[0] in entries;
    }
  }

  lemma OnlyEntry(entries: seq<Entry>, key: string)
    requires DistinctKeys(entries) && IndexOf(entries, key) < |entries|
    ensures forall e <- entries :: e.key == key ==> e == entries[IndexOf(entries, key)]
  {
    forall e | e in entries && e.key == key ensures e == entries[IndexOf(entries, key)] {
      var i :| 0 <= i < |entries| && entries[i] == e;
    }
  }

  lemma FieldIff(env: Env, f: Field, entries: seq<Entry>, r: Entry)
    requires DistinctKeys(entries)
    ensures BuildField(env, f, entries) == Fits(r) <==> r.key == f.name && Supplied(env, f, entries, r.value)
  {
    IndexOfIff(entries, f.name);
    if IndexOf(entries, f.name) < |entries| {
      OnlyEntry(entries, f.name);
      assert entries[IndexOf(entries, f.name)] in entries;
    }
  }

  lemma FieldsSuppliedIff(env: Env, fields: seq<Field>, entries: seq<Entry>, r: seq<Entry>)
    requires DistinctKeys(entries)
    ensures BuildFields(env, fields, entries) == Fits(r) <==>
            |r| == |fields| && forall i :: 0 <= i < |r| ==>
              r[i].key == fields[i].name && Supplied(env, fields[i], entries, r[i].value)
  {
    FieldsIff(env, fields, entries, r);
    forall i | 0 <= i < |fields| && i < |r|
      ensures BuildField(env, fields[i], entries) == Fits(r[i]) <==>
              r[i].key == fields[i].name && Supplied(env, fields[i], entries, r[i].value)
    {
      FieldIff(env, fields[i], entries, r[i]);
    }
  }

  /** A dataclass is built from exactly what the table holds: every key declared,
      every field its own value, and a default only where the table has none. */
  lemma BuildIff(env: Env, id: Id, entries: seq<Entry>, w: Value)
    requires DistinctKeys(entries)
    ensures Build(env, id, entries) == Fits(w) <==> Built(env, id, entries, w)
  {
    var fields := FieldsOf(env, id);
    if w.Record? { FieldsSuppliedIff(env, fields, entries, w.fields); }
    if f :| f in fields && f.default.None? && IndexOf(entries, f.name) == |entries| {
      IndexOfIff(entries, f.name);
      var i :| 0 <= i < |fields| && fields[i] == f;
      assert forall v :: !Supplied(env, f, entries, v);
    }
  }

  lemma {:induction false} FieldsFitIff(env: Env, fields: seq<Field>, entries: seq<Entry>)
    ensures BuildFields(env, fields, entries).Fits? <==> forall f <- fields :: BuildField(env, f, entries).Fits?
    decreases |fields|
  {
    if fields != [] {
      FieldsFitIff(env, fields[1..], entries);
      assert fields[0] in fields && forall f <- fields :: f == fields[0] || f in fields[1..];
      assert forall f <- fields[1..] :: f in fields;
      assert BuildFields(env, fields, entries).Fits? <==>
             BuildField(env, fields[0], entries).Fits? && BuildFields(env, fields[1..], entries).Fits?;
    }
  }

  /** And it is built if and only if every key is declared, every field without a
      default is there, and every value there fits its field. */
  lemma BuildFitsIff(env: Env, id: Id, entries: seq<Entry>)
    requires DistinctKeys(entries)
    ensures Build(env, id, entries).Fits? <==>
            && (forall e <- entries :: exists f <- FieldsOf(env, id) :: f.name == e.key)
            && (forall f <- FieldsOf(env, id) :: f.default.None? ==> exists e <- entries :: e.key == f.name)
            && (forall f <- FieldsOf(env, id), e <- entries :: e.key == f.name ==> Coerce(env, f.ty, e.value).Fits?)
  {
    FieldsFitIff(env, FieldsOf(env, id), entries);
    forall f | f in FieldsOf(env, id)
      ensures IndexOf(entries, f.name) < |entries| <==> exists e <- entries :: e.key == f.name
      ensures IndexOf(entries, f.name) < |entries| ==>
                forall e <- entries :: e.key == f.name ==> e == entries[IndexOf(entries, f.name)]
    {
      IndexOfIff(entries, f.name);
      if IndexOf(entries, f.name) < |entries| { OnlyEntry(entries, f.name); }
    }
  }

  /** Every member of a declared type, recursive ones included: what it takes `v`
      for is what `Means` says, and it takes nothing else. */
  lemma OneIff(env: Env, m: Ty, v: Value, w: Value)
    requires !m.UnionT? && !m.AnnotatedT? && !m.NoneT? && (v.DictV? ==> DistinctKeys(v.entries))
    ensures One(env, m, v) == Fits(w) <==> Means(env, m, v, w)
  {
    match m
    case ListT(t) => ListIff(env, t, v, w);
    case TupleOfT(t) => ListIff(env, t, v, w);
    case SetT(t) => SetIff(env, t, v, w);
    case FrozenT(t) => SetIff(env, t, v, w);
    case TupleT(ts) => TupleIff(env, ts, v, w);
    case DictT(k, t) => DictIff(env, k, t, v, w);
    case ClassT(id) => if v.DictV? { BuildIff(env, id, v.entries, w); }
    case _ => ScalarIff(env, m, v, w);
  }

  predicate IsContainer(m: Ty) { m.ListT? || m.TupleOfT? || m.SetT? || m.FrozenT? || m.TupleT? || m.DictT? }

  lemma ScalarIff(env: Env, m: Ty, v: Value, w: Value)
    requires !m.UnionT? && !m.AnnotatedT? && !m.NoneT? && !IsContainer(m) && !m.ClassT?
    ensures One(env, m, v) == Fits(w) <==> Means(env, m, v, w)
  {
  }

  lemma DictIff(env: Env, k: Ty, t: Ty, v: Value, w: Value)
    ensures One(env, DictT(k, t), v) == Fits(w) <==> v.DictV? && w.DictV? && Entrywise(env, t, v.entries, w.entries)
  {
    if v.DictV? && w.DictV? { EntriesIff(env, t, v.entries, w.entries); }
  }

  lemma ListIff(env: Env, t: Ty, v: Value, w: Value)
    ensures One(env, ListT(t), v) == Fits(w) <==> w.ListV? && FromItems(env, t, v, w.items)
    ensures One(env, TupleOfT(t), v) == Fits(w) <==> w.TupleV? && FromItems(env, t, v, w.items)
  {
    if IsSequence(v) && (w.ListV? || w.TupleV?) { AllIff(env, t, v.items, w.items); }
  }

  lemma SetIff(env: Env, t: Ty, v: Value, w: Value)
    ensures One(env, SetT(t), v) == Fits(w) <==> w.SetV? && FromItems(env, t, v, w.items) && AllHash(env, w.items)
    ensures One(env, FrozenT(t), v) == Fits(w) <==>
            w.FrozenV? && FromItems(env, t, v, w.items) && AllHash(env, w.items)
  {
    if IsSequence(v) {
      var r := CoerceAll(env, t, v.items);
      HashedIff(env, r, false, w);
      HashedIff(env, r, true, w);
      if w.SetV? || w.FrozenV? { AllIff(env, t, v.items, w.items); }
    }
  }

  lemma HashedIff(env: Env, r: Outcome<seq<Value>>, frozen: bool, w: Value)
    ensures Hashed(env, r, frozen) == Fits(w) <==>
            r.Fits? && AllHash(env, r.value) && w == if frozen then FrozenV(r.value) else SetV(r.value)
  {
  }

  lemma TupleIff(env: Env, ts: seq<Ty>, v: Value, w: Value)
    ensures One(env, TupleT(ts), v) == Fits(w) <==> w.TupleV? && InEachPlace(env, ts, v, w.items)
  {
    if IsSequence(v) && w.TupleV? && (ts == [] || |ts| == |v.items|) { EachIff(env, ts, v.items, w.items); }
  }

  /** The first member that does not refuse decides. */
  lemma {:induction false} FirstFitIff(env: Env, candidates: seq<Ty>, v: Value, w: Value)
    ensures FirstFit(env, candidates, v) == Fits(w) <==>
            exists k :: 0 <= k < |candidates| && Decides(env, candidates, k, v, w)
    decreases |candidates|
  {
    if candidates != [] {
      var rest := candidates[1..];
      FirstFitIff(env, rest, v, w);
      assert forall k :: 0 <= k < |rest| ==> rest[k] == candidates[k + 1];
      if k :| 0 <= k < |rest| && Decides(env, rest, k, v, w) {
        if One(env, candidates[0], v).Invalid? { assert Decides(env, candidates, k + 1, v, w); }
      }
      if k :| 0 <= k < |candidates| && Decides(env, candidates, k, v, w) {
        if k > 0 { assert Decides(env, rest, k - 1, v, w); }
      } else if One(env, candidates[0], v) == Fits(w) {
        assert Decides(env, candidates, 0, v, w);
      }
    }
  }

  ghost predicate Decides(env: Env, candidates: seq<Ty>, k: nat, v: Value, w: Value)
    requires k < |candidates|
  {
    One(env, candidates[k], v) == Fits(w) && forall j :: 0 <= j < k ==> One(env, candidates[j], v).Invalid?
  }

  /** The validator as a whole, members in the order they are declared. */
  lemma CoerceIff(env: Env, ty: Ty, v: Value, w: Value)
    ensures Coerce(env, ty, v) == Fits(w) <==>
            var members := Concrete(Members(ty));
            if v.NoneV? then NoneT in Members(ty) && w == v
            else if members == [] || AnyT in members then w == v
            else exists k :: 0 <= k < |members| && Decides(env, members, k, v, w)
  {
    FirstFitIff(env, Concrete(Members(ty)), v, w);
  }

  // ── What raises ─────────────────────────────────────────────────────────

  /** The first that does not fit raises. */
  ghost predicate FirstRaises<T(!new)>(rs: seq<Outcome<T>>) {
    exists k :: 0 <= k < |rs| && rs[k].Raised? && forall j :: 0 <= j < k ==> rs[j].Fits?
  }

  lemma HeadOrTail<T(!new)>(rs: seq<Outcome<T>>)
    requires rs != []
    ensures FirstRaises(rs) <==> rs[0].Raised? || (rs[0].Fits? && FirstRaises(rs[1..]))
  {
    if rs[0].Fits? && FirstRaises(rs[1..]) {
      var k :| 0 <= k < |rs[1..]| && rs[1..][k].Raised? && forall j :: 0 <= j < k ==> rs[1..][j].Fits?;
      assert rs[k + 1].Raised? && forall j :: 0 < j < k + 1 ==> rs[j] == rs[1..][j - 1];
    }
    if FirstRaises(rs) && !rs[0].Raised? {
      var k :| 0 <= k < |rs| && rs[k].Raised? && forall j :: 0 <= j < k ==> rs[j].Fits?;
      assert rs[1..][k - 1].Raised? && forall j :: 0 <= j < k - 1 ==> rs[1..][j] == rs[j + 1];
    }
  }

  ghost predicate ItemRaises(env: Env, ty: Ty, items: seq<Value>) {
    FirstRaises(seq(|items|, i requires 0 <= i < |items| => Coerce(env, ty, items[i])))
  }

  ghost predicate PlaceRaises(env: Env, ts: seq<Ty>, items: seq<Value>)
    requires ts == [] || |ts| == |items|
  {
    FirstRaises(seq(|ts|, i requires 0 <= i < |ts| => Coerce(env, ts[i], items[i])))
  }

  ghost predicate EntryRaises(env: Env, ty: Ty, entries: seq<Entry>) {
    FirstRaises(seq(|entries|, i requires 0 <= i < |entries| => Coerce(env, ty, entries[i].value)))
  }

  ghost predicate FieldRaises(env: Env, fields: seq<Field>, entries: seq<Entry>) {
    FirstRaises(seq(|fields|, i requires 0 <= i < |fields| => BuildField(env, fields[i], entries)))
  }

  /** Items that fit and do not all hash. */
  ghost predicate Unhashable(env: Env, ty: Ty, items: seq<Value>) {
    exists r :: Itemwise(env, ty, items, r) && !AllHash(env, r)
  }

  /** The exceptions that are no validation errors: an item that does not hash, and
      one raised inside, reached before anything is refused. */
  ghost predicate Raises(env: Env, m: Ty, v: Value) {
    match m
    case ListT(t) => IsSequence(v) && ItemRaises(env, t, v.items)
    case TupleOfT(t) => IsSequence(v) && ItemRaises(env, t, v.items)
    case SetT(t) => IsSequence(v) && (ItemRaises(env, t, v.items) || Unhashable(env, t, v.items))
    case FrozenT(t) => IsSequence(v) && (ItemRaises(env, t, v.items) || Unhashable(env, t, v.items))
    case TupleT(ts) => IsSequence(v) && (ts == [] || |ts| == |v.items|) && PlaceRaises(env, ts, v.items)
    case DictT(_, t) => v.DictV? && EntryRaises(env, t, v.entries)
    case ClassT(id) =>
      && v.DictV? && (forall e <- v.entries :: exists f <- FieldsOf(env, id) :: f.name == e.key)
      && (forall f <- FieldsOf(env, id) :: f.default.None? ==> exists e <- v.entries :: e.key == f.name)
      && FieldRaises(env, FieldsOf(env, id), v.entries)
    case _ => false
  }

  lemma {:induction false} AllRaisedIff(env: Env, ty: Ty, items: seq<Value>)
    ensures CoerceAll(env, ty, items).Raised? <==> ItemRaises(env, ty, items)
    decreases |items|
  {
    var rs := seq(|items|, i requires 0 <= i < |items| => Coerce(env, ty, items[i]));
    if items != [] {
      var rest := items[1..];
      AllRaisedIff(env, ty, rest);
      HeadOrTail(rs);
      assert rs[1..] == seq(|rest|, i requires 0 <= i < |rest| => Coerce(env, ty, rest[i]));
    }
  }

  lemma {:induction false} EachRaisedIff(env: Env, ts: seq<Ty>, items: seq<Value>)
    requires ts == [] || |ts| == |items|
    ensures CoerceEach(env, ts, items).Raised? <==> PlaceRaises(env, ts, items)
    decreases |items|
  {
    var rs := seq(|ts|, i requires 0 <= i < |ts| => Coerce(env, ts[i], items[i]));
    if ts != [] && items != [] {
      var types, rest := ts[1..], items[1..];
      EachRaisedIff(env, types, rest);
      HeadOrTail(rs);
      assert rs[1..] == seq(|types|, i requires 0 <= i < |types| => Coerce(env, types[i], rest[i]));
    }
  }

  lemma {:induction false} EntriesRaisedIff(env: Env, ty: Ty, entries: seq<Entry>)
    ensures CoerceEntries(env, ty, entries).Raised? <==> EntryRaises(env, ty, entries)
    decreases |entries|
  {
    var rs := seq(|entries|, i requires 0 <= i < |entries| => Coerce(env, ty, entries[i].value));
    if entries != [] {
      var rest := entries[1..];
      EntriesRaisedIff(env, ty, rest);
      HeadOrTail(rs);
      assert rs[1..] == seq(|rest|, i requires 0 <= i < |rest| => Coerce(env, ty, rest[i].value));
    }
  }

  lemma {:induction false} FieldsRaisedIff(env: Env, fields: seq<Field>, entries: seq<Entry>)
    ensures BuildFields(env, fields, entries).Raised? <==> FieldRaises(env, fields, entries)
    decreases |fields|
  {
    var rs := seq(|fields|, i requires 0 <= i < |fields| => BuildField(env, fields[i], entries));
    if fields != [] {
      var rest := fields[1..];
      FieldsRaisedIff(env, rest, entries);
      HeadOrTail(rs);
      assert rs[1..] == seq(|rest|, i requires 0 <= i < |rest| => BuildField(env, rest[i], entries));
    }
  }

  /** A field raises when the table's value for it does. */
  lemma FieldRaisedIff(env: Env, f: Field, entries: seq<Entry>)
    requires DistinctKeys(entries)
    ensures BuildField(env, f, entries).Raised? <==>
            exists e <- entries :: e.key == f.name && Coerce(env, f.ty, e.value).Raised?
  {
    IndexOfIff(entries, f.name);
    if IndexOf(entries, f.name) < |entries| {
      OnlyEntry(entries, f.name);
      assert entries[IndexOf(entries, f.name)] in entries;
    }
  }

  lemma SetRaisedIff(env: Env, t: Ty, v: Value)
    requires IsSequence(v)
    ensures One(env, SetT(t), v).Raised? <==> ItemRaises(env, t, v.items) || Unhashable(env, t, v.items)
    ensures One(env, FrozenT(t), v).Raised? <==> ItemRaises(env, t, v.items) || Unhashable(env, t, v.items)
  {
    var r := CoerceAll(env, t, v.items);
    AllRaisedIff(env, t, v.items);
    HashedRaisedIff(env, r, false);
    HashedRaisedIff(env, r, true);
    UnhashableIff(env, t, v.items);
  }

  lemma HashedRaisedIff(env: Env, r: Outcome<seq<Value>>, frozen: bool)
    ensures Hashed(env, r, frozen).Raised? <==> r.Raised? || (r.Fits? && !AllHash(env, r.value))
  {
  }

  lemma UnhashableIff(env: Env, t: Ty, items: seq<Value>)
    ensures Unhashable(env, t, items) <==>
            CoerceAll(env, t, items).Fits? && !AllHash(env, CoerceAll(env, t, items).value)
  {
    var all := CoerceAll(env, t, items);
    if all.Fits? { AllIff(env, t, items, all.value); }
    if r: seq<Value> :| Itemwise(env, t, items, r) && !AllHash(env, r) { AllIff(env, t, items, r); }
  }

  lemma ClassRaisedIff(env: Env, id: Id, v: Value)
    requires v.DictV?
    ensures One(env, ClassT(id), v).Raised? <==> Raises(env, ClassT(id), v)
  {
    FieldsRaisedIff(env, FieldsOf(env, id), v.entries);
    forall f | f in FieldsOf(env, id)
      ensures IndexOf(v.entries, f.name) < |v.entries| <==> exists e <- v.entries :: e.key == f.name
    {
      IndexOfIff(v.entries, f.name);
    }
  }

  /** Exactly these raise; with `OneIff`, everything else is refused. */
  lemma OneRaisedIff(env: Env, m: Ty, v: Value)
    ensures One(env, m, v).Raised? <==> Raises(env, m, v)
  {
    match m
    case ListT(t) => ListRaisedIff(env, t, v);
    case TupleOfT(t) => ListRaisedIff(env, t, v);
    case SetT(t) => if IsSequence(v) { SetRaisedIff(env, t, v); }
    case FrozenT(t) => if IsSequence(v) { SetRaisedIff(env, t, v); }
    case TupleT(ts) => TupleRaisedIff(env, ts, v);
    case DictT(_, t) => if v.DictV? { EntriesRaisedIff(env, t, v.entries); }
    case ClassT(id) => if v.DictV? { ClassRaisedIff(env, id, v); }
    case _ => ScalarsDoNotRaise(env, m, v);
  }

  lemma ScalarsDoNotRaise(env: Env, m: Ty, v: Value)
    requires !IsContainer(m) && !m.ClassT?
    ensures !One(env, m, v).Raised?
  {
  }

  lemma ListRaisedIff(env: Env, t: Ty, v: Value)
    ensures One(env, ListT(t), v).Raised? <==> IsSequence(v) && ItemRaises(env, t, v.items)
    ensures One(env, TupleOfT(t), v).Raised? <==> IsSequence(v) && ItemRaises(env, t, v.items)
  {
    if IsSequence(v) { AllRaisedIff(env, t, v.items); }
  }

  lemma TupleRaisedIff(env: Env, ts: seq<Ty>, v: Value)
    ensures One(env, TupleT(ts), v).Raised? <==>
            IsSequence(v) && (ts == [] || |ts| == |v.items|) && PlaceRaises(env, ts, v.items)
  {
    if IsSequence(v) && (ts == [] || |ts| == |v.items|) { EachRaisedIff(env, ts, v.items); }
  }

  // ── Soundness ───────────────────────────────────────────────────────────

  /** Every text is a key of type `k`. */
  ghost predicate AcceptsText(env: Env, k: Ty) { forall key: string :: KeyInhabits(env, k, key) }

  /** The types the validator really checks: some member other than `None` to
      check against at every place, no annotation it passes by, and dictionary
      keys declared to be text. */
  ghost predicate Checked(env: Env, ty: Ty)
    decreases ty, 1
  {
    Concrete(Members(ty)) != [] && forall m <- Members(ty) :: CheckedMember(env, m)
  }

  ghost predicate CheckedMember(env: Env, m: Ty)
    decreases m, 0
  {
    match m
    case ListT(t) => Checked(env, t)
    case SetT(t) => Checked(env, t)
    case FrozenT(t) => Checked(env, t)
    case TupleOfT(t) => Checked(env, t)
    case TupleT(ts) => forall i :: 0 <= i < |ts| ==> Checked(env, ts[i])
    case DictT(k, t) => AcceptsText(env, k) && Checked(env, t)
    case _ => !Passed(m)
  }

  ghost predicate CheckedClasses(env: Env) {
    EnvOk(env) && forall id <- env.classes, i :: 0 <= i < |env.classes[id]| ==> Checked(env, env.classes[id][i].ty)
  }

  ghost predicate CheckedFields(env: Env, fields: seq<Field>) {
    forall i :: 0 <= i < |fields| ==> Checked(env, fields[i].ty)
  }

  /** Whatever comes out inhabits the declared type, at every depth. */
  lemma {:induction false} Soundness(env: Env, ty: Ty, v: Value)
    requires CheckedClasses(env) && Checked(env, ty) && Coerce(env, ty, v).Fits?
    ensures Inhabits(env, ty, Coerce(env, ty, v).value)
    decreases v, 3, 0
  {
    var r := Coerce(env, ty, v).value;
    var m;
    if v.NoneV? {
      m := NoneT;
    } else if AnyT in Members(ty) {
      m := AnyT;
    } else {
      m := FirstFitSound(env, Concrete(Members(ty)), v);
    }
    assert m in Members(ty) && Inhabits(env, m, r);
    MembersMean(env, ty, r);
  }

  ghost predicate Candidate(env: Env, c: Ty) {
    !c.UnionT? && !c.AnnotatedT? && c != NoneT && CheckedMember(env, c)
  }

  lemma {:induction false} FirstFitSound(env: Env, candidates: seq<Ty>, v: Value) returns (c: Ty)
    requires CheckedClasses(env) && FirstFit(env, candidates, v).Fits?
    requires forall c <- candidates :: Candidate(env, c)
    ensures c in candidates && Inhabits(env, c, FirstFit(env, candidates, v).value)
    decreases v, 2, |candidates|
  {
    if One(env, candidates[0], v).Invalid? {
      c := FirstFitSound(env, candidates[1..], v);
    } else {
      c := candidates[0];
      OneSound(env, c, v);
    }
  }

  lemma {:induction false} OneSound(env: Env, c: Ty, v: Value)
    requires CheckedClasses(env) && Candidate(env, c) && One(env, c, v).Fits?
    ensures Inhabits(env, c, One(env, c, v).value)
    decreases v, 1, 0
  {
    match c
    case ListT(t) => AllSound(env, t, v.items);
    case SetT(t) => AllSound(env, t, v.items);
    case FrozenT(t) => AllSound(env, t, v.items);
    case TupleOfT(t) => AllSound(env, t, v.items);
    case TupleT(ts) => EachSound(env, ts, v.items);
    case DictT(k, t) => EntriesSound(env, t, v.entries);
    case ClassT(id) =>
      FieldsSound(env, FieldsOf(env, id), v.entries);
    case _ =>
  }

  lemma {:induction false} AllSound(env: Env, ty: Ty, items: seq<Value>)
    requires CheckedClasses(env) && Checked(env, ty) && CoerceAll(env, ty, items).Fits?
    ensures forall i :: 0 <= i < |CoerceAll(env, ty, items).value| ==>
        Inhabits(env, ty, CoerceAll(env, ty, items).value[i])
    decreases items, 4, 0
  {
    if items != [] {
      Soundness(env, ty, items[0]);
      AllSound(env, ty, items[1..]);
    }
  }

  lemma {:induction false} EachSound(env: Env, types: seq<Ty>, items: seq<Value>)
    requires CheckedClasses(env) && (types == [] || |types| == |items|) && CoerceEach(env, types, items).Fits?
    requires forall i :: 0 <= i < |types| ==> Checked(env, types[i])
    ensures var r := CoerceEach(env, types, items).value;
            |r| == |types| && forall i :: 0 <= i < |types| ==> Inhabits(env, types[i], r[i])
    decreases items, 4, 0
  {
    if items != [] && types != [] {
      Soundness(env, types[0], items[0]);
      EachSound(env, types[1..], items[1..]);
    }
  }

  lemma {:induction false} EntriesSound(env: Env, ty: Ty, entries: seq<Entry>)
    requires CheckedClasses(env) && Checked(env, ty) && CoerceEntries(env, ty, entries).Fits?
    ensures var r := CoerceEntries(env, ty, entries).value;
            forall i :: 0 <= i < |r| ==> Inhabits(env, ty, r[i].value)
    decreases entries, 4, 0
  {
    if entries != [] {
      Soundness(env, ty, entries[0].value);
      EntriesSound(env, ty, entries[1..]);
    }
  }

  lemma {:induction false} FieldsSound(env: Env, fields: seq<Field>, entries: seq<Entry>)
    requires CheckedClasses(env) && CheckedFields(env, fields) && BuildFields(env, fields, entries).Fits?
    ensures var r := BuildFields(env, fields, entries).value;
            |r| == |fields| && forall i :: 0 <= i < |r| ==>
              && r[i].key == fields[i].name
              && (Inhabits(env, fields[i].ty, r[i].value) || fields[i].default == Some(r[i].value))
    decreases entries, 5, |fields|
  {
    if fields != [] {
      FieldSound(env, fields[0], entries);
      FieldsSound(env, fields[1..], entries);
      var first, rest := BuildField(env, fields[0], entries).value, BuildFields(env, fields[1..], entries).value;
      assert BuildFields(env, fields, entries).value == [first] + rest;
    }
  }

  lemma {:induction false} FieldSound(env: Env, f: Field, entries: seq<Entry>)
    requires CheckedClasses(env) && Checked(env, f.ty) && BuildField(env, f, entries).Fits?
    ensures var r := BuildField(env, f, entries).value;
            r.key == f.name && (Inhabits(env, f.ty, r.value) || f.default == Some(r.value))
    decreases entries, 4, 1
  {
    var i := IndexOf(entries, f.name);
    if i < |entries| { Soundness(env, f.ty, entries[i].value); }
  }

  // ── Where the validator is not sound ────────────────────────────────────

  ghost predicate SoundOn(env: Env, ty: Ty) {
    forall v :: Coerce(env, ty, v).Fits? ==> Inhabits(env, ty, Coerce(env, ty, v).value)
  }

  ghost predicate TakesSome(env: Env, ty: Ty) { exists v :: Coerce(env, ty, v).Fits? }

  /** Keys are never looked at: a `dict[K, T]` is sound exactly when `T` is and
      every text is a `K`, unless there is no value to put under a key. */
  lemma DictKeysIff(env: Env, k: Ty, t: Ty)
    ensures SoundOn(env, DictT(k, t)) <==>
            SoundOn(env, t) && (AcceptsText(env, k) || !TakesSome(env, t))
  {
    var ty := DictT(k, t);
    if SoundOn(env, ty) {
      forall w | Coerce(env, t, w).Fits? ensures Inhabits(env, t, Coerce(env, t, w).value) {
        OneEntry(env, k, t, "", w);
      }
      if TakesSome(env, t) {
        var w :| Coerce(env, t, w).Fits?;
        forall key: string ensures KeyInhabits(env, k, key) { OneEntry(env, k, t, key, w); }
      }
    }
    if SoundOn(env, t) && (AcceptsText(env, k) || !TakesSome(env, t)) {
      forall v | Coerce(env, ty, v).Fits? ensures Inhabits(env, ty, Coerce(env, ty, v).value) {
        DictEntries(env, k, t, v);
        EntriesIff(env, t, v.entries, CoerceEntries(env, t, v.entries).value);
        assert v.entries != [] ==> Coerce(env, t, v.entries[0].value).Fits?;
      }
    }
  }

  lemma DictEntries(env: Env, k: Ty, t: Ty, v: Value)
    ensures Coerce(env, DictT(k, t), v) == if v.DictV? then InDict(CoerceEntries(env, t, v.entries)) else Invalid
  {
    var ty := DictT(k, t);
    assert Members(ty) == [ty] && Concrete([ty]) == [ty] && NoneT !in [ty] && AnyT !in [ty];
    assert FirstFit(env, [ty], v) == One(env, ty, v) by { assert [ty][1..] == []; }
  }

  lemma OneEntry(env: Env, k: Ty, t: Ty, key: string, w: Value)
    requires Coerce(env, t, w).Fits? && SoundOn(env, DictT(k, t))
    ensures Inhabits(env, t, Coerce(env, t, w).value) && KeyInhabits(env, k, key)
  {
    var v, e := DictV([Entry(key, w)]), Entry(key, Coerce(env, t, w).value);
    DictEntries(env, k, t, v);
    assert v.entries[1..] == [] && CoerceEntries(env, t, []) == Fits([]) && [e] + [] == [e];
    assert CoerceEntries(env, t, v.entries) == Fits([e]);
    assert InhabitsDict(env, k, t, DictV([e])) && DictV([e]).entries[0] == e;
  }

  /** An annotation passed by is checked soundly exactly when there was nothing to check. */
  lemma PassedSoundIff(env: Env, ty: Ty)
    requires Passed(ty)
    ensures SoundOn(env, ty) <==> forall v: Value :: !v.NoneV? ==> Inhabits(env, ty, v)
  {
    assert Members(ty) == [ty] && Concrete([ty]) == [ty];
    forall v: Value ensures Coerce(env, ty, v) == if v.NoneV? then Invalid else Fits(v) { PassedComesBack(env, ty, v); }
  }

  lemma PassedComesBack(env: Env, ty: Ty, v: Value)
    requires Passed(ty)
    ensures Coerce(env, ty, v) == if v.NoneV? then Invalid else Fits(v)
  {
    assert Members(ty) == [ty] && Concrete([ty]) == [ty] && NoneT !in [ty] && AnyT !in [ty];
    assert One(env, ty, v) == Fits(v);
  }

  /** So a number goes through as a `Sequence[int]`, a `Mapping` or a `Box[int]`. */
  lemma NumberPassesForSequence(env: Env, ty: Ty)
    requires ty.SequenceT? || ty.MappingT? || ty.GenericT?
    ensures Coerce(env, ty, IntV(0)) == Fits(IntV(0)) && !Inhabits(env, ty, IntV(0)) && !SoundOn(env, ty)
  {
    PassedComesBack(env, ty, IntV(0));
  }

  /** An annotation that allows nothing but `None` lets every other value through. */
  lemma NoneOnlyChecksNothing(env: Env, ty: Ty, v: Value)
    requires Concrete(Members(ty)) == [] && !v.NoneV?
    ensures Coerce(env, ty, v) == Fits(v) && !Inhabits(env, ty, v)
  {
    MembersMean(env, ty, v);
    forall m | m in Members(ty) ensures !Inhabits(env, m, v) { assert m == NoneT || m in Concrete(Members(ty)); }
  }

  // ── Validation is the identity where nothing has to be converted ────────

  /** Types with at most one member besides `None`, free of sets and dataclasses,
      in which no place declares that `None` fits without saying `None`. */
  ghost predicate Stable(env: Env, ty: Ty)
    decreases ty, 1
  {
    var concrete := Concrete(Members(ty));
    |concrete| <= 1 && forall m <- concrete ::
      if m == AnyT || m == OtherT then NoneT in Members(ty) else StableMember(env, m)
  }

  ghost predicate StableMember(env: Env, m: Ty)
    decreases m, 0
  {
    match m
    case ListT(t) => Stable(env, t)
    case TupleOfT(t) => Stable(env, t)
    case TupleT(ts) => forall i :: 0 <= i < |ts| ==> Stable(env, ts[i])
    case DictT(_, t) => Stable(env, t)
    case SelfT(id) => !env.isInstance(id, NoneV)
    case LiteralT(allowed) => NoneV !in allowed
    case NewTypeT(inner) => !Inhabits(env, inner, NoneV)
    case SetT(_) => false
    case FrozenT(_) => false
    case ClassT(_) => false
    case AnyT => false
    case OtherT => false
    case _ => true
  }

  lemma SoleMember(env: Env, ty: Ty, m: Ty, v: Value)
    requires Stable(env, ty) && m in Members(ty) && m != NoneT
    ensures Concrete(Members(ty)) == [m]
    ensures if m == AnyT || m == OtherT then NoneT in Members(ty) else StableMember(env, m) && AnyT !in Members(ty)
  {
    var concrete := Concrete(Members(ty));
    assert m in concrete && (AnyT in Members(ty) ==> AnyT in concrete);
    AtMostOne(concrete, m);
  }

  lemma AtMostOne(types: seq<Ty>, m: Ty)
    requires |types| <= 1 && m in types
    ensures types == [m]
  {
  }

  /** A value that already fits comes back unchanged, at every depth. */
  lemma {:induction false} Identity(env: Env, ty: Ty, v: Value)
    requires EnvOk(env) && Stable(env, ty) && Inhabits(env, ty, v)
    ensures Coerce(env, ty, v) == Fits(v)
    decreases v, 3, 0
  {
    var m := MemberInhabited(env, ty, v);
    if m != NoneT {
      SoleMember(env, ty, m, v);
      if m == AnyT || m == OtherT { AnythingFits(env, m, v); } else { OneIdentity(env, m, v); }
      OnlyMember(env, ty, m, v);
    }
  }

  lemma MemberInhabited(env: Env, ty: Ty, v: Value) returns (m: Ty)
    requires Inhabits(env, ty, v)
    ensures m in Members(ty) && Inhabits(env, m, v)
  {
    MembersMean(env, ty, v);
    m :| m in Members(ty) && Inhabits(env, m, v);
  }

  lemma AnythingFits(env: Env, m: Ty, v: Value)
    requires m == AnyT || m == OtherT
    ensures One(env, m, v) == Fits(v)
  {
  }

  lemma OnlyMember(env: Env, ty: Ty, m: Ty, v: Value)
    requires Concrete(Members(ty)) == [m] && One(env, m, v) == Fits(v) && (v.NoneV? ==> NoneT in Members(ty))
    ensures Coerce(env, ty, v) == Fits(v)
  {
    assert FirstFit(env, [m], v) == Fits(v);
  }

  lemma {:induction false} OneIdentity(env: Env, m: Ty, v: Value)
    requires EnvOk(env) && StableMember(env, m) && Inhabits(env, m, v)
    requires !m.UnionT? && !m.AnnotatedT? && m != NoneT
    ensures One(env, m, v) == Fits(v) && !v.NoneV?
    decreases v, 1, 0
  {
    match m
    case ListT(t) => AllIdentity(env, t, v.items);
    case TupleOfT(t) => AllIdentity(env, t, v.items);
    case TupleT(ts) => EachIdentity(env, ts, v.items);
    case DictT(_, t) => EntriesIdentity(env, t, v.entries);
    case _ =>
  }

  lemma {:induction false} AllIdentity(env: Env, ty: Ty, items: seq<Value>)
    requires EnvOk(env) && Stable(env, ty) && forall i :: 0 <= i < |items| ==> Inhabits(env, ty, items[i])
    ensures CoerceAll(env, ty, items) == Fits(items)
    decreases items, 4, 0
  {
    if items != [] {
      Identity(env, ty, items[0]);
      AllIdentity(env, ty, items[1..]);
      assert items == [items[0]] + items[1..];
    }
  }

  ghost predicate InhabitEach(env: Env, types: seq<Ty>, items: seq<Value>) {
    |types| == |items| && forall i :: 0 <= i < |types| ==> Inhabits(env, types[i], items[i])
  }

  lemma {:induction false} EachIdentity(env: Env, types: seq<Ty>, items: seq<Value>)
    requires EnvOk(env) && InhabitEach(env, types, items) && forall t <- types :: Stable(env, t)
    ensures CoerceEach(env, types, items) == Fits(items)
    decreases items, 4, 0
  {
    if items != [] {
      assert forall t <- types[1..] :: t in types;
      assert InhabitEach(env, types[1..], items[1..]);
      Identity(env, types[0], items[0]);
      EachIdentity(env, types[1..], items[1..]);
      assert items == [items[0]] + items[1..];
    }
  }

  lemma {:induction false} EntriesIdentity(env: Env, ty: Ty, entries: seq<Entry>)
    requires EnvOk(env) && Stable(env, ty) && forall i :: 0 <= i < |entries| ==> Inhabits(env, ty, entries[i].value)
    ensures CoerceEntries(env, ty, entries) == Fits(entries)
    decreases entries, 4, 0
  {
    if entries != [] {
      Identity(env, ty, entries[0].value);
      EntriesIdentity(env, ty, entries[1..]);
      assert entries == [entries[0]] + entries[1..];
    }
  }

  /** On that fragment validating twice is validating once. */
  lemma CoercingTwice(env: Env, ty: Ty, v: Value)
    requires CheckedClasses(env) && Checked(env, ty) && Stable(env, ty) && Coerce(env, ty, v).Fits?
    ensures Coerce(env, ty, Coerce(env, ty, v).value) == Coerce(env, ty, v)
  {
    Soundness(env, ty, v);
    Identity(env, ty, Coerce(env, ty, v).value);
  }

  lemma FloatOrInt()
    ensures Concrete(Members(UnionT([FloatT, IntT]))) == [FloatT, IntT]
  {
    var both := [FloatT, IntT];
    assert both[1..] == [IntT] && [IntT][1..] == [];
    assert Members(FloatT) == [FloatT] && Members(IntT) == [IntT];
    assert AllMembers([IntT]) == [IntT] && AllMembers(both) == both;
  }

  /** Outside it the order of a union decides: a fitting integer becomes a float. */
  lemma UnionOrderConverts(env: Env)
    ensures var ty := UnionT([FloatT, IntT]);
            Inhabits(env, ty, IntV(1)) && Coerce(env, ty, IntV(1)) == Fits(FloatV(1.0))
  {
    var ty := UnionT([FloatT, IntT]);
    IntIsFloatOrInt(env);
    FloatOrInt();
    assert One(env, FloatT, IntV(1)) == Fits(FloatV(1.0));
  }

  lemma IntIsFloatOrInt(env: Env)
    ensures Inhabits(env, UnionT([FloatT, IntT]), IntV(1))
  {
    assert [FloatT, IntT][1] == IntT && Inhabits(env, IntT, IntV(1));
  }

  /** And `Any` alone does not take `None`, which inhabits it. */
  lemma AnyRefusesNone(env: Env)
    ensures Inhabits(env, AnyT, NoneV) && Coerce(env, AnyT, NoneV) == Invalid
  {
    assert Members(AnyT) == [AnyT];
  }
}
