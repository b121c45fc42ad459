/**
  The resolved tree across the boundary: `to_py`, `from_py` (its plain-data
  arms) and the snapshot's `value_to_json`.  A float is its mathematical value;
  which double an integer outside the 64-bit ranges rounds to is a parameter.
*/
module Conversion {
  import opened Common

  const I64_MIN := -0x8000_0000_0000_0000
  const I64_MAX := 0x7fff_ffff_ffff_ffff
  const U64_MAX := 0xffff_ffff_ffff_ffff

  /** The integers a `serde_json::Number` holds: every `i64` and every `u64`. */
  type Integral = n: int | I64_MIN <= n <= U64_MAX

  datatype Number = Integer(n: Integral) | Float(value: real)

  /** Entries in the map's own order; `Distinct` says that no key repeats. */
  datatype Tree =
    | Null
    | Bool(b: bool)
    | Num(number: Number)
    | Text(text: string)
    | Array(items: seq<Tree>)
    | Object(entries: seq<Entry>)
  datatype Entry = Entry(key: string, value: Tree)

  /** Plain Python data.  `PyOther` is any object of another type. */
  datatype Py =
    | PyNone
    | PyBool(b: bool)
    | PyInt(n: int)
    | PyFloat(value: real)
    | PyNotFinite
    | PyStr(text: string)
    | PyList(items: seq<Py>)
    | PyTuple(items: seq<Py>)
    | PyDict(entries: seq<PyEntry>)
    | PyOther
  datatype PyEntry = PyEntry(key: string, value: Py) | OtherKeyed(value: Py)

  datatype Error = Overflow | NotANumber | KeyNotText | NotConfiguration

  const MARKER: string := "$__toml_private_datetime"

  /** A native TOML date: one entry under the marker, holding its text. */
  predicate IsDate(entries: seq<Entry>) { |entries| == 1 && entries[0].key == MARKER && entries[0].value.Text? }

  // ── Tree to Python ──────────────────────────────────────────────────────

  function AsI64(number: Number): Option<int> {
    if number.Integer? && number.n <= I64_MAX then Some(number.n) else None
  }

  function AsU64(number: Number): Option<int> {
    if number.Integer? && 0 <= number.n then Some(number.n) else None
  }

  function NumberToPy(number: Number): Py {
    if AsI64(number).Some? then PyInt(AsI64(number).value)
    else if AsU64(number).Some? then PyInt(AsU64(number).value)
    else match number case Float(value) => PyFloat(value) case Integer(_) => PyNotFinite
  }

  function ToPy(tree: Tree): Py
    decreases tree, 1
  {
    match tree
    case Null => PyNone
    case Bool(b) => PyBool(b)
    case Num(number) => NumberToPy(number)
    case Text(text) => PyStr(text)
    case Array(items) => PyList(ItemsToPy(items))
    case Object(entries) => if IsDate(entries) then PyStr(entries[0].value.text) else PyDict(EntriesToPy(entries))
  }

  function ItemsToPy(items: seq<Tree>): seq<Py>
    decreases items, 0
  {
    if items == [] then [] else [ToPy(items[0])] + ItemsToPy(items[1..])
  }

  function EntriesToPy(entries: seq<Entry>): seq<PyEntry>
    decreases entries, 0
  {
    if entries == [] then []
    else [PyEntry(entries[0].key, ToPy(entries[0].value))] + EntriesToPy(entries[1..])
  }

  /** `to_py`, filling its list and its dict one element at a time. */
  method TreeToPython(tree: Tree) returns (p: Py)
    ensures p == ToPy(tree)
    decreases tree
  {
    match tree
    case Array(items) =>
      var list: seq<Py> := [];
      for k := 0 to |items|
        invariant list + ItemsToPy(items[k..]) == ItemsToPy(items)
      {
        var item := TreeToPython(items[k]);
        list := list + [item];
      }
      return PyList(list);
    case Object(entries) =>
      if |entries| == 1 && entries[0].key == MARKER && entries[0].value.Text? {
        return PyStr(entries[0].value.text);
      }
      var dict: seq<PyEntry> := [];
      for k := 0 to |entries|
        invariant dict + EntriesToPy(entries[k..]) == EntriesToPy(entries)
      {
        var value := TreeToPython(entries[k].value);
        dict := dict + [PyEntry(entries[k].key, value)];
      }
      return PyDict(dict);
    case _ => return ToPy(tree);
  }

  // ── Python to tree ──────────────────────────────────────────────────────

  function FromPy(p: Py): Result<Tree, Error>
    decreases p, 1
  {
    match p
    case PyNone => Ok(Null)
    case PyBool(b) => Ok(Bool(b))
    case PyInt(n) => if I64_MIN <= n <= I64_MAX || 0 <= n <= U64_MAX then Ok(Num(Integer(n))) else Err(Overflow)
    case PyFloat(value) => Ok(Num(Float(value)))
    case PyNotFinite => Err(NotANumber)
    case PyStr(text) => Ok(Text(text))
    case PyDict(entries) =>
      (match EntriesFromPy(entries, []) case Ok(converted) => Ok(Object(converted)) case Err(e) => Err(e))
    case PyList(items) => (match ItemsFromPy(items) case Ok(converted) => Ok(Array(converted)) case Err(e) => Err(e))
    case PyTuple(items) => (match ItemsFromPy(items) case Ok(converted) => Ok(Array(converted)) case Err(e) => Err(e))
    case PyOther => Err(NotConfiguration)
  }

  function ItemsFromPy(items: seq<Py>): Result<seq<Tree>, Error>
    decreases items, 0
  {
    if items == [] then Ok([])
    else match FromPy(items[0])
         case Err(e) => Err(e)
         case Ok(first) =>
           match ItemsFromPy(items[1..])
           case Err(e) => Err(e)
           case Ok(rest) => Ok([first] + rest)
  }

  /** `Map::insert`: a key already there keeps its place and takes the new value. */
  function Inserted(entries: seq<Entry>, key: string, value: Tree): seq<Entry> {
    if entries == [] then [Entry(key, value)]
    else if entries[0].key == key then [Entry(key, value)] + entries[1..]
    else [entries[0]] + Inserted(entries[1..], key, value)
  }

  function EntriesFromPy(entries: seq<PyEntry>, done: seq<Entry>): Result<seq<Entry>, Error>
    decreases entries, 0
  {
    if entries == [] then Ok(done)
    else if entries[0].OtherKeyed? then Err(KeyNotText)
    else match FromPy(entries[0].value)
         case Err(e) => Err(e)
         case Ok(value) => EntriesFromPy(entries[1..], Inserted(done, entries[0].key, value))
  }

  function Behind(done: seq<Tree>, rest: Result<seq<Tree>, Error>): (r: Result<seq<Tree>, Error>)
    ensures done == [] ==> r == rest
    ensures rest.Ok? && rest.value == [] ==> r == Ok(done)
  {
    if rest.Err? then rest
    else
      assert done == [] ==> done + rest.value == rest.value;
      assert rest.value == [] ==> done + rest.value == done;
      Ok(done + rest.value)
  }

  lemma BehindOne(done: seq<Tree>, item: Tree, rest: Result<seq<Tree>, Error>)
    ensures Behind(done, Behind([item], rest)) == Behind(done + [item], rest)
  {
    if rest.Ok? { assert done + ([item] + rest.value) == done + [item] + rest.value; }
  }

  /** `from_py`, stopping at the first element that is refused. */
  method PythonToTree(p: Py) returns (r: Result<Tree, Error>)
    ensures r == FromPy(p)
    decreases p
  {
    match p
    case PyDict(entries) =>
      var map': seq<Entry> := [];
      for k := 0 to |entries|
        invariant EntriesFromPy(entries[k..], map') == EntriesFromPy(entries, [])
      {
        if entries[k].OtherKeyed? { return Err(KeyNotText); }
        var value := PythonToTree(entries[k].value);
        if value.Err? { return Err(value.error); }
        map' := Inserted(map', entries[k].key, value.value);
      }
      return Ok(Object(map'));
    case PyList(items) => r := SequenceToTree(p, items);
    case PyTuple(items) => r := SequenceToTree(p, items);
    case _ => return FromPy(p);
  }

  method SequenceToTree(p: Py, items: seq<Py>) returns (r: Result<Tree, Error>)
    requires p == PyList(items) || p == PyTuple(items)
    ensures r == FromPy(p)
    decreases p, 0
  {
    var done: seq<Tree> := [];
    assert items[0..] == items;
    for k := 0 to |items|
      invariant ItemsFromPy(items) == Behind(done, ItemsFromPy(items[k..]))
    {
      var item := PythonToTree(items[k]);
      assert items[k..][1..] == items[k + 1..];
      if item.Err? { return Err(item.error); }
      BehindOne(done, item.value, ItemsFromPy(items[k + 1..]));
      done := done + [item.value];
    }
    return Ok(Array(done));
  }

  // ── Round trip from the tree ────────────────────────────────────────────

  /** No key twice in one object, at any depth. */
  ghost predicate Distinct(tree: Tree)
    decreases tree, 1
  {
    match tree
    case Array(items) => DistinctItems(items)
    case Object(entries) => DistinctEntries(entries)
    case _ => true
  }

  ghost predicate DistinctItems(items: seq<Tree>)
    decreases items, 0
  {
    items != [] ==> Distinct(items[0]) && DistinctItems(items[1..])
  }

  ghost predicate DistinctEntries(entries: seq<Entry>)
    decreases entries, 0
  {
    entries != [] ==> Distinct(entries[0].value) && NoKey(entries[1..], entries[0].key) && DistinctEntries(entries[1..])
  }

  predicate NoKey(entries: seq<Entry>, key: string) { forall e <- entries :: e.key != key }

  predicate NoKeyShared(a: seq<Entry>, b: seq<Entry>) { forall x <- a :: NoKey(b, x.key) }

  /** Every date table replaced by its text. */
  function Collapsed(tree: Tree): Tree
    decreases tree, 1
  {
    match tree
    case Array(items) => Array(CollapsedItems(items))
    case Object(entries) => if IsDate(entries) then entries[0].value else Object(CollapsedEntries(entries))
    case _ => tree
  }

  function CollapsedItems(items: seq<Tree>): seq<Tree>
    decreases items, 0
  {
    if items == [] then [] else [Collapsed(items[0])] + CollapsedItems(items[1..])
  }

  function CollapsedEntries(entries: seq<Entry>): (r: seq<Entry>)
    ensures |r| == |entries| && forall i :: 0 <= i < |r| ==> r[i].key == entries[i].key
    decreases entries, 0
  {
    if entries == [] then []
    else [Entry(entries[0].key, Collapsed(entries[0].value))] + CollapsedEntries(entries[1..])
  }

  lemma {:induction false} InsertNew(entries: seq<Entry>, key: string, value: Tree)
    requires NoKey(entries, key)
    ensures Inserted(entries, key, value) == entries + [Entry(key, value)]
  {
    if entries != [] {
      assert forall e <- entries[1..] :: e in entries;
      InsertNew(entries[1..], key, value);
      assert entries == [entries[0]] + entries[1..];
    }
  }

  /** Across and back: the tree with its dates collapsed to text, nothing else
      changed; booleans stay booleans, every integer keeps its digits. */
  lemma {:induction false} RoundTrip(tree: Tree)
    requires Distinct(tree)
    ensures FromPy(ToPy(tree)) == Ok(Collapsed(tree))
    decreases tree, 1
  {
    match tree
    case Array(items) => ItemsRoundTrip(items);
    case Object(entries) =>
      if !IsDate(entries) {
        EntriesRoundTrip(entries, []);
        assert [] + CollapsedEntries(entries) == CollapsedEntries(entries);
      }
    case _ =>
  }

  lemma {:induction false} ItemsRoundTrip(items: seq<Tree>)
    requires DistinctItems(items)
    ensures ItemsFromPy(ItemsToPy(items)) == Ok(CollapsedItems(items))
    decreases items, 0
  {
    if items != [] {
      RoundTrip(items[0]);
      ItemsRoundTrip(items[1..]);
      assert ItemsToPy(items)[1..] == ItemsToPy(items[1..]);
    }
  }

  lemma MoveKey(entries: seq<Entry>, done: seq<Entry>, value: Tree)
    requires entries != [] && NoKey(entries[1..], entries[0].key) && NoKeyShared(done, entries)
    ensures NoKeyShared(done + [Entry(entries[0].key, value)], entries[1..]) && NoKey(done, entries[0].key)
  {
    assert entries[0] in entries && forall e <- entries[1..] :: e in entries;
  }

  /** One entry across and back. */
  lemma EntryConverted(e: Entry, rest: seq<PyEntry>, done: seq<Entry>, value: Tree)
    requires FromPy(ToPy(e.value)) == Ok(value) && NoKey(done, e.key)
    ensures EntriesFromPy([PyEntry(e.key, ToPy(e.value))] + rest, done) ==
        EntriesFromPy(rest, done + [Entry(e.key, value)])
  {
    InsertNew(done, e.key, value);
    assert ([PyEntry(e.key, ToPy(e.value))] + rest)[1..] == rest;
  }

  lemma {:induction false} EntriesRoundTrip(entries: seq<Entry>, done: seq<Entry>)
    requires DistinctEntries(entries) && NoKeyShared(done, entries)
    ensures EntriesFromPy(EntriesToPy(entries), done) == Ok(done + CollapsedEntries(entries))
    decreases entries, 0
  {
    if entries == [] {
      assert done + CollapsedEntries(entries) == done;
    } else {
      var e, rest := entries[0], entries[1..];
      var after := Entry(e.key, Collapsed(e.value));
      RoundTrip(e.value);
      MoveKey(entries, done, after.value);
      EntryConverted(e, EntriesToPy(rest), done, after.value);
      EntriesRoundTrip(rest, done + [after]);
      OneAfter(done, after, CollapsedEntries(rest));
    }
  }

  lemma OneAfter(done: seq<Entry>, e: Entry, rest: seq<Entry>)
    ensures done + ([e] + rest) == done + [e] + rest
  {
  }

  ghost predicate DateFree(tree: Tree)
    decreases tree, 1
  {
    match tree
    case Array(items) => forall item <- items :: DateFree(item)
    case Object(entries) => !IsDate(entries) && forall e <- entries :: DateFree(e.value)
    case _ => true
  }

  lemma {:induction false} CollapsedIsItselfIff(tree: Tree)
    ensures Collapsed(tree) == tree <==> DateFree(tree)
    decreases tree, 1
  {
    match tree
    case Array(items) => ItemsThemselvesIff(items);
    case Object(entries) => if !IsDate(entries) { EntriesThemselvesIff(entries); }
    case _ =>
  }

  lemma {:induction false} ItemsThemselvesIff(items: seq<Tree>)
    ensures CollapsedItems(items) == items <==> forall item <- items :: DateFree(item)
    decreases items, 0
  {
    if items != [] {
      CollapsedIsItselfIff(items[0]);
      ItemsThemselvesIff(items[1..]);
      assert items == [items[0]] + items[1..];
      assert CollapsedItems(items)[1..] == CollapsedItems(items[1..]);
    }
  }

  lemma {:induction false} EntriesThemselvesIff(entries: seq<Entry>)
    ensures CollapsedEntries(entries) == entries <==> forall e <- entries :: DateFree(e.value)
    decreases entries, 0
  {
    if entries != [] {
      CollapsedIsItselfIff(entries[0].value);
      EntriesThemselvesIff(entries[1..]);
      assert entries == [entries[0]] + entries[1..];
      assert CollapsedEntries(entries)[1..] == CollapsedEntries(entries[1..]);
    }
  }

  /** The round trip is the identity exactly on trees with no date in them. */
  lemma RoundTripIsIdentityIff(tree: Tree)
    requires Distinct(tree)
    ensures FromPy(ToPy(tree)) == Ok(tree) <==> DateFree(tree)
  {
    RoundTrip(tree);
    CollapsedIsItselfIff(tree);
  }

  // ── Round trip from Python ──────────────────────────────────────────────

  /** What a configuration value is: finite numbers within 64 bits, text keys. */
  ghost predicate Representable(p: Py)
    decreases p, 1
  {
    match p
    case PyInt(n) => I64_MIN <= n <= U64_MAX
    case PyList(items) => forall item <- items :: Representable(item)
    case PyTuple(items) => forall item <- items :: Representable(item)
    case PyDict(entries) => forall e <- entries :: e.PyEntry? && Representable(e.value)
    case PyNotFinite => false
    case PyOther => false
    case _ => true
  }

  lemma {:induction false} AcceptedIff(p: Py)
    ensures FromPy(p).Ok? <==> Representable(p)
    decreases p, 1
  {
    match p
    case PyList(items) => ItemsAcceptedIff(items);
    case PyTuple(items) => ItemsAcceptedIff(items);
    case PyDict(entries) => EntriesAcceptedIff(entries, []);
    case _ =>
  }

  lemma {:induction false} ItemsAcceptedIff(items: seq<Py>)
    ensures ItemsFromPy(items).Ok? <==> forall item <- items :: Representable(item)
    decreases items, 0
  {
    if items != [] {
      AcceptedIff(items[0]);
      ItemsAcceptedIff(items[1..]);
      assert items == [items[0]] + items[1..];
    }
  }

  lemma {:induction false} EntriesAcceptedIff(entries: seq<PyEntry>, done: seq<Entry>)
    ensures EntriesFromPy(entries, done).Ok? <==> forall e <- entries :: e.PyEntry? && Representable(e.value)
    decreases entries, 0
  {
    if entries != [] {
      var e := entries[0];
      assert entries == [e] + entries[1..];
      if entries[0].PyEntry? {
        AcceptedIff(entries[0].value);
        if FromPy(e.value).Ok? {
          EntriesAcceptedIff(entries[1..], Inserted(done, e.key, FromPy(e.value).value));
        }
      }
    }
  }

  /** A dict that reads as a native date once it is a tree. */
  predicate IsDateDict(entries: seq<PyEntry>) {
    |entries| == 1 && entries[0].PyEntry? && entries[0].key == MARKER && entries[0].value.PyStr?
  }

  /** Every tuple a list, every date dict its text. */
  function Listed(p: Py): Py
    decreases p, 1
  {
    match p
    case PyList(items) => PyList(ListedItems(items))
    case PyTuple(items) => PyList(ListedItems(items))
    case PyDict(entries) => if IsDateDict(entries) then entries[0].value else PyDict(ListedEntries(entries))
    case _ => p
  }

  function ListedItems(items: seq<Py>): seq<Py>
    decreases items, 0
  {
    if items == [] then [] else [Listed(items[0])] + ListedItems(items[1..])
  }

  function ListedEntries(entries: seq<PyEntry>): seq<PyEntry>
    decreases entries, 0
  {
    if entries == [] then []
    else [if entries[0].PyEntry? then PyEntry(entries[0].key, Listed(entries[0].value)) else entries[0]]
         + ListedEntries(entries[1..])
  }

  /** A dict has no key twice, at any depth. */
  ghost predicate DistinctPy(p: Py)
    decreases p, 1
  {
    match p
    case PyList(items) => forall item <- items :: DistinctPy(item)
    case PyTuple(items) => forall item <- items :: DistinctPy(item)
    case PyDict(entries) => DistinctPyEntries(entries)
    case _ => true
  }

  ghost predicate DistinctPyEntries(entries: seq<PyEntry>)
    decreases entries, 0
  {
    entries != [] ==>
      && DistinctPyEntries(entries[1..])
      && (entries[0].PyEntry? ==>
            DistinctPy(entries[0].value) && forall e <- entries[1..] :: e.PyEntry? ==> e.key != entries[0].key)
  }

  /** Into a tree and out again: what is accepted comes back with its tuples as
      lists, and with a dict that spells a date as its text. */
  lemma {:induction false} RoundTripFromPython(p: Py)
    requires Representable(p) && DistinctPy(p)
    ensures FromPy(p).Ok? && ToPy(FromPy(p).value) == Listed(p)
    decreases p, 1
  {
    match p
    case PyList(items) => ItemsBack(items);
    case PyTuple(items) => ItemsBack(items);
    case PyDict(entries) => DictBack(entries);
    case _ =>
  }

  lemma {:induction false} ItemsBack(items: seq<Py>)
    requires forall item <- items :: Representable(item) && DistinctPy(item)
    ensures ItemsFromPy(items).Ok? && ItemsToPy(ItemsFromPy(items).value) == ListedItems(items)
    decreases items, 0
  {
    if items != [] {
      RoundTripFromPython(items[0]);
      ItemsBack(items[1..]);
      var r := ItemsFromPy(items).value;
      assert r[0] == FromPy(items[0]).value && r[1..] == ItemsFromPy(items[1..]).value;
    }
  }

  lemma {:induction false} DictBack(entries: seq<PyEntry>)
    requires DistinctPyEntries(entries) && forall e <- entries :: e.PyEntry? && Representable(e.value)
    ensures EntriesFromPy(entries, []).Ok?
    ensures ToPy(Object(EntriesFromPy(entries, []).value))
         == if IsDateDict(entries) then entries[0].value else PyDict(ListedEntries(entries))
    decreases entries, 1
  {
    var r := EntriesBack(entries, []);
    assert [] + r == r;
    if |entries| == 1 {
      assert r[0].key == entries[0].key && FromPy(entries[0].value) == Ok(r[0].value);
    }
  }

  lemma OneEntryBack(e: PyEntry, rest: seq<PyEntry>, next: Entry, below: seq<Entry>)
    requires e.PyEntry? && next.key == e.key && ToPy(next.value) == Listed(e.value)
    requires EntriesToPy(below) == ListedEntries(rest)
    ensures EntriesToPy([next] + below) == ListedEntries([e] + rest)
  {
    assert ([next] + below)[1..] == below && ([e] + rest)[1..] == rest;
  }

  /** The entries a dict adds behind those already converted. */
  lemma {:induction false} EntriesBack(entries: seq<PyEntry>, done: seq<Entry>) returns (r: seq<Entry>)
    requires DistinctPyEntries(entries)
    requires forall e <- entries :: e.PyEntry? && Representable(e.value) && NoKey(done, e.key)
    ensures EntriesFromPy(entries, done) == Ok(done + r) && EntriesToPy(r) == ListedEntries(entries)
    ensures |r| == |entries|
    ensures forall i :: 0 <= i < |r| ==> r[i].key == entries[i].key && FromPy(entries[i].value) == Ok(r[i].value)
    decreases entries, 0
  {
    if entries == [] {
      r := [];
      assert done + r == done;
    } else {
      var e, rest := entries[0], entries[1..];
      assert e in entries && forall x <- rest :: x in entries;
      RoundTripFromPython(e.value);
      var next := Entry(e.key, FromPy(e.value).value);
      InsertNew(done, e.key, next.value);
      var below := EntriesBack(rest, done + [next]);
      r := [next] + below;
      OneAfter(done, next, below);
      OneEntryBack(e, rest, next, below);
      assert entries == [e] + rest;
    }
  }

  /** What is not a list or a dict is refused for being what it is. */
  lemma ScalarRefused(p: Py)
    requires FromPy(p).Err? && !p.PyList? && !p.PyTuple? && !p.PyDict?
    ensures FromPy(p).error == Overflow <==> p.PyInt?
    ensures FromPy(p).error == NotANumber <==> p.PyNotFinite?
    ensures FromPy(p).error == NotConfiguration <==> p.PyOther?
  {
  }

  /** A list is refused for its first element that is. */
  lemma {:induction false} FirstItemRefused(items: seq<Py>) returns (k: nat)
    requires ItemsFromPy(items).Err?
    ensures k < |items| && FromPy(items[k]) == Err(ItemsFromPy(items).error)
    ensures forall j :: 0 <= j < k ==> FromPy(items[j]).Ok?
    decreases |items|
  {
    if FromPy(items[0]).Err? {
      k := 0;
    } else {
      k := FirstItemRefused(items[1..]);
      k := k + 1;
    }
  }

  /** And a dict for its first entry that is, whose key may be no text. */
  lemma {:induction false} FirstEntryRefused(entries: seq<PyEntry>, done: seq<Entry>) returns (k: nat)
    requires EntriesFromPy(entries, done).Err?
    ensures k < |entries|
    ensures var error := EntriesFromPy(entries, done).error;
            if entries[k].OtherKeyed? then error == KeyNotText else FromPy(entries[k].value) == Err(error)
    ensures forall j :: 0 <= j < k ==> entries[j].PyEntry? && FromPy(entries[j].value).Ok?
    decreases |entries|
  {
    var e := entries[0];
    if e.OtherKeyed? || FromPy(e.value).Err? {
      k := 0;
    } else {
      k := FirstEntryRefused(entries[1..], Inserted(done, e.key, FromPy(e.value).value));
      k := k + 1;
    }
  }

  // ── The snapshot's own view ─────────────────────────────────────────────

  /** The engine's value, whose integers are wider than JSON's. */
  datatype Owned =
    | ONull
    | OBool(b: bool)
    | OInteger(n: int)
    | OFloat(value: real)
    | ONotFinite
    | OText(text: string)
    | OArray(items: seq<Owned>)
    | OTable(entries: seq<OEntry>)
  datatype OEntry = OEntry(key: string, value: Owned)

  function ValueToJson(v: Owned, asF64: int -> real): Tree
    decreases v, 1
  {
    match v
    case ONull => Null
    case OBool(b) => Bool(b)
    case OInteger(n) =>
      if I64_MIN <= n <= I64_MAX then Num(Integer(n))
      else if 0 <= n <= U64_MAX then Num(Integer(n))
      else Num(Float(asF64(n)))
    case OFloat(value) => Num(Float(value))
    case ONotFinite => Null
    case OText(text) => Text(text)
    case OArray(items) => Array(ItemsToJson(items, asF64))
    case OTable(entries) => Object(EntriesToJson(entries, asF64))
  }

  function ItemsToJson(items: seq<Owned>, asF64: int -> real): seq<Tree>
    decreases items, 0
  {
    if items == [] then [] else [ValueToJson(items[0], asF64)] + ItemsToJson(items[1..], asF64)
  }

  function EntriesToJson(entries: seq<OEntry>, asF64: int -> real): seq<Entry>
    decreases entries, 0
  {
    if entries == [] then []
    else [Entry(entries[0].key, ValueToJson(entries[0].value, asF64))] + EntriesToJson(entries[1..], asF64)
  }

  /** The digits survive exactly for the integers of the two 64-bit types. */
  lemma DigitsSurviveIff(n: int, asF64: int -> real)
    ensures ToPy(ValueToJson(OInteger(n), asF64)) == PyInt(n) <==> I64_MIN <= n <= U64_MAX
  {
  }

  /** The engine's value a view stands for, read back. */
  function OwnedOf(tree: Tree): Owned
    decreases tree, 1
  {
    match tree
    case Null => ONull
    case Bool(b) => OBool(b)
    case Num(Integer(n)) => OInteger(n)
    case Num(Float(value)) => OFloat(value)
    case Text(text) => OText(text)
    case Array(items) => OArray(OwnedItems(items))
    case Object(entries) => OTable(OwnedEntries(entries))
  }

  function OwnedItems(items: seq<Tree>): seq<Owned>
    decreases items, 0
  {
    if items == [] then [] else [OwnedOf(items[0])] + OwnedItems(items[1..])
  }

  function OwnedEntries(entries: seq<Entry>): seq<OEntry>
    decreases entries, 0
  {
    if entries == [] then [] else [OEntry(entries[0].key, OwnedOf(entries[0].value))] + OwnedEntries(entries[1..])
  }

  /** An integer out of range as the float it becomes, a number that is not finite as nothing. */
  function Rounded(v: Owned, asF64: int -> real): Owned
    decreases v, 1
  {
    match v
    case OInteger(n) => if I64_MIN <= n <= U64_MAX then v else OFloat(asF64(n))
    case ONotFinite => ONull
    case OArray(items) => OArray(RoundedItems(items, asF64))
    case OTable(entries) => OTable(RoundedEntries(entries, asF64))
    case _ => v
  }

  function RoundedItems(items: seq<Owned>, asF64: int -> real): seq<Owned>
    decreases items, 0
  {
    if items == [] then [] else [Rounded(items[0], asF64)] + RoundedItems(items[1..], asF64)
  }

  function RoundedEntries(entries: seq<OEntry>, asF64: int -> real): seq<OEntry>
    decreases entries, 0
  {
    if entries == [] then []
    else [OEntry(entries[0].key, Rounded(entries[0].value, asF64))] + RoundedEntries(entries[1..], asF64)
  }

  /** What a view says, at every depth: the engine's value with only those numbers changed. */
  lemma {:induction false} ViewIsRounded(v: Owned, asF64: int -> real)
    ensures OwnedOf(ValueToJson(v, asF64)) == Rounded(v, asF64)
    decreases v, 1
  {
    match v
    case OArray(items) => ItemsRounded(items, asF64);
    case OTable(entries) => EntriesRounded(entries, asF64);
    case _ =>
  }

  lemma {:induction false} ItemsRounded(items: seq<Owned>, asF64: int -> real)
    ensures OwnedItems(ItemsToJson(items, asF64)) == RoundedItems(items, asF64)
    decreases items, 0
  {
    if items != [] {
      ViewIsRounded(items[0], asF64);
      ItemsRounded(items[1..], asF64);
      assert ItemsToJson(items, asF64)[1..] == ItemsToJson(items[1..], asF64);
    }
  }

  lemma {:induction false} EntriesRounded(entries: seq<OEntry>, asF64: int -> real)
    ensures OwnedEntries(EntriesToJson(entries, asF64)) == RoundedEntries(entries, asF64)
    decreases entries, 0
  {
    if entries != [] {
      ViewIsRounded(entries[0].value, asF64);
      EntriesRounded(entries[1..], asF64);
      assert EntriesToJson(entries, asF64)[1..] == EntriesToJson(entries[1..], asF64);
    }
  }

  /** Integers of the two 64-bit types only, and finite numbers only, at every depth. */
  ghost predicate Exact(v: Owned)
    decreases v, 1
  {
    match v
    case OInteger(n) => I64_MIN <= n <= U64_MAX
    case ONotFinite => false
    case OArray(items) => forall item <- items :: Exact(item)
    case OTable(entries) => forall e <- entries :: Exact(e.value)
    case _ => true
  }

  /** Reading the view back gives the engine's value, at every depth, if and only if
      it is exact: an integer out of range has become a float, an infinity a null. */
  lemma {:induction false} LosslessIff(v: Owned, asF64: int -> real)
    ensures OwnedOf(ValueToJson(v, asF64)) == v <==> Exact(v)
    decreases v, 1
  {
    match v
    case OArray(items) => ItemsLosslessIff(items, asF64);
    case OTable(entries) => EntriesLosslessIff(entries, asF64);
    case _ =>
  }

  /** So a view tells exact values apart. */
  lemma ExactViewsDiffer(v: Owned, w: Owned, asF64: int -> real)
    requires Exact(v) && Exact(w) && v != w
    ensures ValueToJson(v, asF64) != ValueToJson(w, asF64)
  {
    LosslessIff(v, asF64);
    LosslessIff(w, asF64);
  }

  lemma {:induction false} ItemsLosslessIff(items: seq<Owned>, asF64: int -> real)
    ensures OwnedItems(ItemsToJson(items, asF64)) == items <==> forall item <- items :: Exact(item)
    decreases items, 0
  {
    if items != [] {
      LosslessIff(items[0], asF64);
      ItemsLosslessIff(items[1..], asF64);
      var view := ItemsToJson(items, asF64);
      assert view[0] == ValueToJson(items[0], asF64) && view[1..] == ItemsToJson(items[1..], asF64);
      SameHeadAndTail(OwnedOf(view[0]), OwnedItems(view[1..]), items);
      assert forall item <- items :: item == items[0] || item in items[1..];
    }
  }

  lemma {:induction false} EntriesLosslessIff(entries: seq<OEntry>, asF64: int -> real)
    ensures OwnedEntries(EntriesToJson(entries, asF64)) == entries <==> forall e <- entries :: Exact(e.value)
    decreases entries, 0
  {
    if entries != [] {
      LosslessIff(entries[0].value, asF64);
      EntriesLosslessIff(entries[1..], asF64);
      var view := EntriesToJson(entries, asF64);
      assert view[0] == Entry(entries[0].key, ValueToJson(entries[0].value, asF64));
      assert view[1..] == EntriesToJson(entries[1..], asF64);
      SameHeadAndTail(OEntry(view[0].key, OwnedOf(view[0].value)), OwnedEntries(view[1..]), entries);
      assert forall e <- entries :: e == entries[0] || e in entries[1..];
    }
  }

  lemma SameHeadAndTail<T>(head: T, tail: seq<T>, all: seq<T>)
    requires all != []
    ensures [head] + tail == all <==> head == all[0] && tail == all[1..]
  {
    assert all == [all[0]] + all[1..] && ([head] + tail)[1..] == tail;
  }
}
