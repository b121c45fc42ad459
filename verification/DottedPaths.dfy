/**
  `Values`: a resolved tree read by dotted path.  A table keeps its entries in
  document order; its keys are distinct, as a dict's are.
*/
module DottedPaths {
  import opened Common

  /** Anything that is not a table is a leaf; which scalar or list it is does not matter here. */
  datatype Value = Leaf(id: int) | Table(entries: seq<Entry>)
  datatype Entry = Entry(key: string, value: Value)

  // ── Splitting a path ────────────────────────────────────────────────────

  /** `path.split(".")`. */
  function Split(path: string): (segments: seq<string>)
    ensures segments != [] && forall segment <- segments :: '.' !in segment
  {
    if path == "" then [""]
    else
      var rest := Split(path[1..]);
      assert forall segment <- rest[1..] :: segment in rest;
      if path[0] == '.' then [""] + rest else [[path[0]] + rest[0]] + rest[1..]
  }

  function Join(segments: seq<string>): string
    requires segments != []
  {
    if |segments| == 1 then segments[0] else segments[0] + "." + Join(segments[1..])
  }

  /** One character in front of a path goes in front of its first segment. */
  function Prepend(c: char, segments: seq<string>): seq<string>
    requires segments != []
  {
    if c == '.' then [""] + segments else [[c] + segments[0]] + segments[1..]
  }

  lemma SplitCons(c: char, path: string)
    ensures Split([c] + path) == Prepend(c, Split(path))
  {
    assert ([c] + path)[1..] == path;
  }

  lemma {:induction false} SplitDot(p: string, q: string)
    ensures Split(p + "." + q) == Split(p) + Split(q)
  {
    if p == "" {
      SplitCons('.', q);
      assert p + "." + q == ['.'] + q;
    } else {
      SplitDot(p[1..], q);
      SplitCons(p[0], p[1..] + "." + q);
      SplitCons(p[0], p[1..]);
      assert p + "." + q == [p[0]] + (p[1..] + "." + q) && p == [p[0]] + p[1..];
      PrependAppend(p[0], Split(p[1..]), Split(q));
    }
  }

  lemma PrependAppend(c: char, a: seq<string>, b: seq<string>)
    requires a != []
    ensures Prepend(c, a + b) == Prepend(c, a) + b
  {
    assert (a + b)[0] == a[0] && (a + b)[1..] == a[1..] + b;
  }

  lemma {:induction false} SplitDotFree(segment: string)
    requires '.' !in segment
    ensures Split(segment) == [segment]
  {
    if segment != "" {
      assert segment[0] in segment;
      SplitDotFree(segment[1..]);
      assert [segment[0]] + segment[1..] == segment;
    }
  }

  lemma {:induction false} SplitJoin(segments: seq<string>)
    requires segments != [] && forall segment <- segments :: '.' !in segment
    ensures Split(Join(segments)) == segments
  {
    assert segments[0] in segments;
    SplitDotFree(segments[0]);
    if |segments| == 1 {
      assert segments == [segments[0]];
    } else {
      SplitJoin(segments[1..]);
      SplitDot(segments[0], Join(segments[1..]));
      assert segments == [segments[0]] + segments[1..];
    }
  }

  lemma PushHead(c: char, head: string, tail: string)
    ensures [c] + head + "." + tail == [c] + (head + "." + tail)
  {
  }

  lemma {:induction false} JoinSplit(path: string)
    ensures Join(Split(path)) == path
  {
    if path != "" {
      JoinSplit(path[1..]);
      var rest := Split(path[1..]);
      assert path == [path[0]] + path[1..];
      if path[0] == '.' {
        assert ([""] + rest)[1..] == rest;
        assert "" + "." + path[1..] == path;
      } else {
        var head := [path[0]] + rest[0];
        assert Split(path)[1..] == rest[1..] && Split(path)[0] == head;
        if |rest| > 1 { PushHead(path[0], rest[0], Join(rest[1..])); }
      }
    }
  }

  // ── Walking and subtrees ────────────────────────────────────────────────

  function Lookup(entries: seq<Entry>, key: string): (r: Option<Value>)
    ensures r.Some? ==> Entry(key, r.value) in entries
    ensures r.None? ==> forall e <- entries :: e.key != key
  {
    if entries == [] then None
    else if entries[0].key == key then Some(entries[0].value)
    else Lookup(entries[1..], key)
  }

  function Step(v: Value, segment: string): Option<Value> {
    if v.Table? then Lookup(v.entries, segment) else None
  }

  function Walked(v: Value, segments: seq<string>): Option<Value>
    decreases |segments|
  {
    if segments == [] then Some(v)
    else match Step(v, segments[0])
         case None => None
         case Some(below) => Walked(below, segments[1..])
  }

  function Get(data: seq<Entry>, path: string): Option<Value> { Walked(Table(data), Split(path)) }

  /** `_walk`. */
  method Walk(data: seq<Entry>, path: string) returns (found: Option<Value>)
    ensures found == Get(data, path)
  {
    var current := Table(data);
    var segments := Split(path);
    for k := 0 to |segments|
      invariant Walked(current, segments[k..]) == Get(data, path)
    {
      var below := Step(current, segments[k]);
      if below.None? { return None; }
      current := below.value;
    }
    return Some(current);
  }

  /** `sub`: empty when the path holds nothing, and when it holds no table. */
  function Sub(data: seq<Entry>, path: string): seq<Entry> {
    match Get(data, path)
    case Some(Table(entries)) => entries
    case _ => []
  }

  lemma {:induction false} WalkAppend(v: Value, a: seq<string>, b: seq<string>)
    ensures Walked(v, a + b) == (match Walked(v, a) case None => None case Some(w) => Walked(w, b))
    decreases |a|
  {
    if a == [] {
      assert a + b == b;
    } else {
      assert (a + b)[1..] == a[1..] + b;
      match Step(v, a[0])
      case None =>
      case Some(below) => WalkAppend(below, a[1..], b);
    }
  }

  /** Looking `q` up in the subtree at `p` is looking up `p.q`, for all strings
      `p` and `q`, whatever is or is not there. */
  lemma SubLookup(data: seq<Entry>, p: string, q: string)
    ensures Get(Sub(data, p), q) == Get(data, p + "." + q)
  {
    SplitDot(p, q);
    WalkAppend(Table(data), Split(p), Split(q));
  }

  /** And so subtrees nest. */
  lemma SubOfSub(data: seq<Entry>, p: string, q: string)
    ensures Sub(Sub(data, p), q) == Sub(data, p + "." + q)
  {
    SubLookup(data, p, q);
  }

  // ── Leaf paths ──────────────────────────────────────────────────────────

  function Leaves(v: Value, prefix: string): seq<string>
    decreases v, 1
  {
    if v.Table? && v.entries != [] then EntryLeaves(v.entries, prefix)
    else if prefix != "" then [prefix[..|prefix| - 1]]
    else []
  }

  function EntryLeaves(entries: seq<Entry>, prefix: string): seq<string>
    decreases entries, 0
  {
    if entries == [] then []
    else Leaves(entries[0].value, prefix + entries[0].key + ".") + EntryLeaves(entries[1..], prefix)
  }

  /** What `_leaves` yields a path for: a scalar, a list, or an empty table. */
  predicate Yields(r: Option<Value>) { r.Some? && (r.value.Leaf? || r.value.entries == []) }

  /** The path `_leaves` yields for the value `segments` below `prefix`. */
  function PathUnder(prefix: string, segments: seq<string>): string
    requires segments != [] || prefix != ""
  {
    if segments == [] then prefix[..|prefix| - 1] else prefix + Join(segments)
  }

  lemma PathUnderStep(prefix: string, key: string, segments: seq<string>)
    ensures PathUnder(prefix + key + ".", segments) == PathUnder(prefix, [key] + segments)
  {
    if segments != [] {
      assert ([key] + segments)[1..] == segments;
      assert prefix + key + "." + Join(segments) == prefix + (key + "." + Join(segments));
    } else {
      assert (prefix + key + ".")[..|prefix + key|] == prefix + key;
    }
  }

  /** Every value a walk can reach is listed. */
  lemma {:induction false} ReachedIsListed(v: Value, prefix: string, segments: seq<string>)
    requires Yields(Walked(v, segments)) && (segments != [] || prefix != "")
    ensures PathUnder(prefix, segments) in Leaves(v, prefix)
    decreases |segments|
  {
    if segments != [] {
      var e := Entry(segments[0], Lookup(v.entries, segments[0]).value);
      ReachedIsListed(e.value, prefix + e.key + ".", segments[1..]);
      PathUnderStep(prefix, e.key, segments[1..]);
      assert segments == [e.key] + segments[1..];
      EntryIsListed(v.entries, prefix, e, PathUnder(prefix, segments));
    }
  }

  lemma {:induction false} EntryIsListed(entries: seq<Entry>, prefix: string, e: Entry, path: string)
    requires e in entries && path in Leaves(e.value, prefix + e.key + ".")
    ensures path in EntryLeaves(entries, prefix)
  {
    if entries[0] != e { EntryIsListed(entries[1..], prefix, e, path); }
  }

  ghost predicate DotFree(v: Value)
    decreases v, 1
  {
    v.Table? ==> DotFreeEntries(v.entries)
  }

  ghost predicate DotFreeEntries(entries: seq<Entry>)
    decreases entries, 0
  {
    entries != [] ==>
      && '.' !in entries[0].key && (forall e <- entries[1..] :: e.key != entries[0].key)
      && DotFree(entries[0].value) && DotFreeEntries(entries[1..])
  }

  /** Every listed path is reached, through dot-free segments. */
  lemma {:induction false} ListedIsReached(v: Value, prefix: string, path: string) returns (segments: seq<string>)
    requires DotFree(v) && path in Leaves(v, prefix)
    ensures Yields(Walked(v, segments)) && (segments != [] || prefix != "") && path == PathUnder(prefix, segments)
    ensures forall segment <- segments :: '.' !in segment
    decreases v, 1
  {
    if v.Table? && v.entries != [] {
      var e, below := ListedEntry(v.entries, prefix, path);
      segments := [e.key] + below;
      assert segments[1..] == below;
      PathUnderStep(prefix, e.key, below);
    } else {
      segments := [];
    }
  }

  lemma {:induction false} ListedEntry(entries: seq<Entry>, prefix: string, path: string)
    returns (e: Entry, below: seq<string>)
    requires DotFreeEntries(entries) && path in EntryLeaves(entries, prefix)
    ensures e in entries && '.' !in e.key && Lookup(entries, e.key) == Some(e.value)
    ensures Yields(Walked(e.value, below)) && path == PathUnder(prefix + e.key + ".", below)
    ensures forall segment <- below :: '.' !in segment
    decreases entries, 0
  {
    if path in Leaves(entries[0].value, prefix + entries[0].key + ".") {
      e := entries[0];
      below := ListedIsReached(e.value, prefix + e.key + ".", path);
    } else {
      e, below := ListedEntry(entries[1..], prefix, path);
      assert e in entries[1..];
    }
  }

  // ── Sorting ─────────────────────────────────────────────────────────────

  /** Python's order on strings, by code point. */
  predicate LessEq(a: string, b: string) {
    a == "" || (b != "" && (a[0] < b[0] || (a[0] == b[0] && LessEq(a[1..], b[1..]))))
  }

  lemma {:induction false} LessEqTotal(a: string, b: string)
    ensures LessEq(a, b) || LessEq(b, a)
  {
    if a != "" && b != "" { LessEqTotal(a[1..], b[1..]); }
  }

  lemma {:induction false} LessEqTransitive(a: string, b: string, c: string)
    requires LessEq(a, b) && LessEq(b, c)
    ensures LessEq(a, c)
  {
    if a != "" && a[0] == b[0] == c[0] { LessEqTransitive(a[1..], b[1..], c[1..]); }
  }

  lemma {:induction false} LessEqAntisymmetric(a: string, b: string)
    requires LessEq(a, b) && LessEq(b, a)
    ensures a == b
  {
    if a != "" {
      LessEqAntisymmetric(a[1..], b[1..]);
      assert a == [a[0]] + a[1..] && b == [b[0]] + b[1..];
    }
  }

  predicate Ordered(xs: seq<string>) { forall i, j :: 0 <= i < j < |xs| ==> LessEq(xs[i], xs[j]) }

  function Insert(xs: seq<string>, x: string): (r: seq<string>)
    requires Ordered(xs)
    ensures Ordered(r) && multiset(r) == multiset(xs) + multiset{x}
  {
    if xs == [] then [x]
    else if LessEq(x, xs[0]) then
      assert forall j :: 0 <= j < |xs| ==> LessEq(x, xs[j]) by {
        forall j | 0 < j < |xs| ensures LessEq(x, xs[j]) { LessEqTransitive(x, xs[0], xs[j]); }
      }
      [x] + xs
    else
      LessEqTotal(x, xs[0]);
      assert xs == [xs[0]] + xs[1..];
      var rest := Insert(xs[1..], x);
      assert forall y <- rest :: LessEq(xs[0], y) by {
        forall y | y in rest ensures LessEq(xs[0], y) { assert y in multiset(rest); assert y == x || y in xs[1..]; }
      }
      [xs[0]] + rest
  }

  function Sorted(xs: seq<string>): (r: seq<string>)
    ensures Ordered(r) && multiset(r) == multiset(xs)
  {
    if xs == [] then []
    else
      assert xs == [xs[0]] + xs[1..];
      Insert(Sorted(xs[1..]), xs[0])
  }

  function LeafPaths(data: seq<Entry>): seq<string> { Sorted(Leaves(Table(data), "")) }

  // ── What `leaf_paths` lists ─────────────────────────────────────────────

  /** For a tree with dot-free keys the list is exactly the paths a lookup
      resolves to a scalar, a list or an empty table. */
  lemma LeafPathsExact(data: seq<Entry>, path: string)
    requires DotFree(Table(data))
    ensures path in LeafPaths(data) <==> Yields(Get(data, path))
  {
    var leaves := Leaves(Table(data), "");
    assert path in LeafPaths(data) <==> path in multiset(LeafPaths(data));
    assert path in leaves <==> path in multiset(leaves);
    if Yields(Get(data, path)) {
      JoinSplit(path);
      ReachedIsListed(Table(data), "", Split(path));
      assert path == PathUnder("", Split(path));
    }
    if path in leaves {
      var segments := ListedIsReached(Table(data), "", path);
      assert path == Join(segments);
      SplitJoin(segments);
    }
  }

  predicate Distinct(xs: seq<string>) { forall i, j :: 0 <= i < j < |xs| ==> xs[i] != xs[j] }

  /** Two entries of one table yield no path in common. */
  lemma EntriesDisjoint(entries: seq<Entry>, prefix: string, path: string)
    requires entries != [] && DotFreeEntries(entries)
    requires path in Leaves(entries[0].value, prefix + entries[0].key + ".")
    ensures path !in EntryLeaves(entries[1..], prefix)
  {
    if path in EntryLeaves(entries[1..], prefix) {
      var a := ListedIsReached(entries[0].value, prefix + entries[0].key + ".", path);
      var e, b := ListedEntry(entries[1..], prefix, path);
      PathUnderStep(prefix, entries[0].key, a);
      PathUnderStep(prefix, e.key, b);
      SamePathSameHead(prefix, [entries[0].key] + a, [e.key] + b);
    }
  }

  lemma SamePathSameHead(prefix: string, a: seq<string>, b: seq<string>)
    requires a != [] && b != [] && prefix + Join(a) == prefix + Join(b)
    requires (forall segment <- a :: '.' !in segment) && (forall segment <- b :: '.' !in segment)
    ensures a == b
  {
    assert Join(a) == (prefix + Join(a))[|prefix|..];
    assert Join(b) == (prefix + Join(b))[|prefix|..];
    SplitJoin(a);
    SplitJoin(b);
  }

  lemma DistinctAppend(a: seq<string>, b: seq<string>)
    requires Distinct(a) && Distinct(b) && forall path <- a :: path !in b
    ensures Distinct(a + b)
  {
    forall i, j | 0 <= i < j < |a + b| ensures (a + b)[i] != (a + b)[j] {
      if i < |a| <= j { assert a[i] in a && b[j - |a|] in b; }
    }
  }

  lemma {:induction false} LeavesDistinct(v: Value, prefix: string)
    requires DotFree(v)
    ensures Distinct(Leaves(v, prefix))
    decreases v, 1
  {
    if v.Table? && v.entries != [] { EntryLeavesDistinct(v.entries, prefix); }
  }

  lemma {:induction false} EntryLeavesDistinct(entries: seq<Entry>, prefix: string)
    requires DotFreeEntries(entries)
    ensures Distinct(EntryLeaves(entries, prefix))
    decreases entries, 0
  {
    if entries != [] {
      var first := Leaves(entries[0].value, prefix + entries[0].key + ".");
      var rest := EntryLeaves(entries[1..], prefix);
      LeavesDistinct(entries[0].value, prefix + entries[0].key + ".");
      EntryLeavesDistinct(entries[1..], prefix);
      forall path | path in first ensures path !in rest { EntriesDisjoint(entries, prefix, path); }
      DistinctAppend(first, rest);
    }
  }

  /** And it is strictly increasing: sorted, nothing twice. */
  lemma LeafPathsSorted(data: seq<Entry>, i: nat, j: nat)
    requires DotFree(Table(data)) && i < j < |LeafPaths(data)|
    ensures LessEq(LeafPaths(data)[i], LeafPaths(data)[j]) && LeafPaths(data)[i] != LeafPaths(data)[j]
  {
    var leaves, paths := Leaves(Table(data), ""), LeafPaths(data);
    LeavesDistinct(Table(data), "");
    if paths[i] == paths[j] {
      TwiceInMultiset(paths, i, j);
      OnceInMultiset(leaves, paths[i]);
    }
  }

  lemma TwiceInMultiset(xs: seq<string>, i: nat, j: nat)
    requires i < j < |xs| && xs[i] == xs[j]
    ensures multiset(xs)[xs[i]] >= 2
  {
    assert xs == xs[..i] + [xs[i]] + xs[i + 1..j] + [xs[j]] + xs[j + 1..];
  }

  lemma {:induction false} OnceInMultiset(xs: seq<string>, x: string)
    requires Distinct(xs)
    ensures multiset(xs)[x] <= 1
  {
    if xs != [] {
      assert xs == [xs[0]] + xs[1..];
      OnceInMultiset(xs[1..], x);
      if xs[0] == x { assert x !in xs[1..]; }
    }
  }

  /** Leaf by leaf, on any tree: the path listed for a chain of keys leads a lookup
      down that very chain if and only if no key of it holds a dot. */
  lemma ListedLeadsBackIff(data: seq<Entry>, segments: seq<string>)
    requires segments != [] && Yields(Walked(Table(data), segments))
    ensures Join(segments) in LeafPaths(data)
    ensures Split(Join(segments)) == segments <==> forall segment <- segments :: '.' !in segment
    ensures (forall segment <- segments :: '.' !in segment) ==>
              Get(data, Join(segments)) == Walked(Table(data), segments)
  {
    ReachedIsListed(Table(data), "", segments);
    var leaves := Leaves(Table(data), "");
    assert PathUnder("", segments) == Join(segments) && Join(segments) in multiset(leaves);
    assert Join(segments) in multiset(LeafPaths(data));
    if forall segment <- segments :: '.' !in segment { SplitJoin(segments); }
  }

  /** Without the dot-free condition a listed path need not resolve. */
  lemma DottedKeyIsListedNotReached()
    ensures var data := [Entry("a.b", Leaf(0))];
            "a.b" in LeafPaths(data) && Get(data, "a.b") == None
  {
    var data := [Entry("a.b", Leaf(0))];
    assert EntryLeaves(data[1..], "") == [];
    assert ("" + "a.b" + ".")[..3] == "a.b";
    assert Leaves(Leaf(0), "" + "a.b" + ".") == ["a.b"];
    assert "a.b" in multiset(LeafPaths(data));
    SplitDotFree("a");
    SplitDotFree("b");
    SplitDot("a", "b");
    assert "a" + "." + "b" == "a.b";
    assert Lookup(data, "a") == None;
  }
}
