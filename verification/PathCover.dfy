/** What it means for a list of redacted paths to cover a value's path. */
module PathCover {
  import opened DottedPaths

  /** `p` is `q` or one of its ancestors. */
  predicate Covers(p: string, q: string) { p == q || p + "." <= q }

  ghost predicate Covered(paths: seq<string>, path: string) { exists p <- paths :: Covers(p, path) }

  lemma CoversTransitive(p: string, q: string, r: string)
    requires Covers(p, q) && Covers(q, r)
    ensures Covers(p, r)
  {
    if p != q && q != r { assert r[..|p| + 1] == q[..|p| + 1] == p + "."; }
  }

  lemma {:induction false} JoinAppend(a: seq<string>, b: seq<string>)
    requires a != [] && b != []
    ensures Join(a + b) == Join(a) + "." + Join(b)
  {
    if |a| == 1 {
      assert (a + b)[1..] == b;
    } else {
      JoinAppend(a[1..], b);
      assert (a + b)[1..] == a[1..] + b;
      assert a[0] + "." + (Join(a[1..]) + "." + Join(b)) == a[0] + "." + Join(a[1..]) + "." + Join(b);
    }
  }

  /** Segment by segment, an ancestor is a prefix. */
  lemma CoversIff(p: string, q: string)
    ensures Covers(p, q) <==> Split(p) <= Split(q)
  {
    if Covers(p, q) && p != q {
      assert q == p + "." + q[|p| + 1..];
      SplitDot(p, q[|p| + 1..]);
    }
    if Split(p) <= Split(q) {
      var rest := Split(q)[|Split(p)|..];
      assert Split(q) == Split(p) + rest;
      JoinSplit(p);
      JoinSplit(q);
      if rest != [] { JoinAppend(Split(p), rest); } else { assert Split(q) == Split(p); }
    }
  }

  lemma PrefixBelow(base: seq<string>, a: seq<string>, b: seq<string>)
    ensures base + a <= base + b <==> a <= b
  {
    assert (base + b)[|base|..] == b && (base + a)[|base|..] == a;
    if base + a <= base + b {
      assert (base + b)[..|base + a|] == base + a;
      assert b[..|a|] == (base + b)[|base|..|base| + |a|] == a;
    }
    if a <= b { assert base + b == base + a + b[|a|..]; }
  }

  lemma Regroup(a: seq<string>, b: seq<string>, c: seq<string>)
    ensures a + (b + c) == (a + b) + c
  {
  }

  /** A prefix is empty or ends in a dot. */
  ghost predicate IsPrefix(prefix: string, base: seq<string>) {
    (prefix == "" && base == []) || exists path: string :: prefix == path + "." && base == Split(path)
  }

  lemma SplitUnder(prefix: string, base: seq<string>, name: string)
    requires IsPrefix(prefix, base)
    ensures Split(prefix + name) == base + Split(name)
  {
    if prefix == "" {
      assert prefix + name == name && base + Split(name) == Split(name);
    } else {
      var path: string :| prefix == path + "." && base == Split(path);
      SplitDot(path, name);
    }
  }

  lemma OneMore(path: string, name: string, below: seq<string>)
    ensures Split(path + "." + name) + below == Split(path) + (Split(name) + below)
  {
    SplitDot(path, name);
  }

  /** One name further down a path. */
  lemma OneStep(prefix: string, base: seq<string>, name: string, segments: seq<string>, q: string)
    requires IsPrefix(prefix, base) && Split(q) == base + segments
    ensures Covers(prefix + name, q) <==> Split(name) <= segments
    ensures IsPrefix(prefix + name + ".", Split(prefix + name))
    ensures Split(name) <= segments ==> Split(q) == Split(prefix + name) + segments[|Split(name)|..]
  {
    SplitUnder(prefix, base, name);
    PrefixBelow(base, Split(name), segments);
    CoversIff(prefix + name, q);
    if Split(name) <= segments {
      assert segments == Split(name) + segments[|Split(name)|..];
      Regroup(base, Split(name), segments[|Split(name)|..]);
    }
  }

  lemma SplitTwo(a: string, b: string)
    requires '.' !in a && '.' !in b
    ensures Split(a + "." + b) == [a, b] == [a] + [b]
  {
    SplitDot(a, b);
    SplitDotFree(a);
    SplitDotFree(b);
  }

  lemma SplitThree(a: string, b: string, c: string)
    requires '.' !in a && '.' !in b && '.' !in c
    ensures Split(a + "." + b + "." + c) == [a] + [b, c]
  {
    SplitDot(a, b + "." + c);
    assert a + "." + (b + "." + c) == a + "." + b + "." + c;
    SplitTwo(b, c);
    SplitDotFree(a);
  }

  // ── Lists and sets the walks keep ───────────────────────────────────────

  function AddNew(keys: seq<string>, names: seq<string>): (r: seq<string>)
    ensures forall key :: key in r <==> key in keys || key in names
    decreases |names|
  {
    if names == [] then keys
    else AddNew(if names[0] in keys then keys else keys + [names[0]], names[1..])
  }

  /** `list(dict.fromkeys(paths))`. */
  function Deduplicated(paths: seq<string>): (r: seq<string>)
    ensures forall path :: path in r <==> path in paths
  {
    AddNew([], paths)
  }

  predicate NoneTwice(xs: seq<string>) { forall i, j :: 0 <= i < j < |xs| ==> xs[i] != xs[j] }

  /** Each name is added once, behind those before it. */
  lemma {:induction false} AddedInOrder(keys: seq<string>, names: seq<string>, name: string)
    ensures var r := AddNew(keys, names); AddNew(keys, names + [name]) == if name in r then r else r + [name]
    ensures keys <= AddNew(keys, names) && (NoneTwice(keys) ==> NoneTwice(AddNew(keys, names)))
    decreases |names|
  {
    var all := names + [name];
    if names == [] {
      assert all[1..] == [];
    } else {
      assert all[1..] == names[1..] + [name];
      AddedInOrder(if names[0] in keys then keys else keys + [names[0]], names[1..], name);
    }
  }

  /** First occurrences only, in their order. */
  lemma DeduplicatedInOrder(paths: seq<string>, path: string)
    ensures var r := Deduplicated(paths); Deduplicated(paths + [path]) == if path in r then r else r + [path]
    ensures NoneTwice(Deduplicated(paths))
  {
    AddedInOrder([], paths, path);
  }

  lemma UnseenFalls(all: set<nat>, seen: set<nat>, next: nat)
    requires next in all && next !in seen
    ensures |all - (seen + {next})| < |all - seen|
  {
    assert all - (seen + {next}) == all - seen - {next};
  }
}
