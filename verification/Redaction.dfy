/**
  `Redactor::scrub`: every configured URL and every named secret replaced in a
  text.  `Replaced` is `str::replace`: leftmost matches, left to right, none
  overlapping.  Which credentials a redacted URL drops is decided by a library
  function that is not part of this model.
*/
module Redaction {

  const MASK: string := "***"

  // ── Text ────────────────────────────────────────────────────────────────

  predicate MatchesAt(text: string, s: string, i: nat) { i + |s| <= |text| && text[i..i + |s|] == s }

  ghost predicate Occurs(s: string, text: string) { exists i: nat :: MatchesAt(text, s, i) }

  function Replaced(text: string, s: string, mask: string): string
    requires s != ""
    decreases |text|
  {
    if |text| < |s| then text
    else if s <= text then mask + Replaced(text[|s|..], s, mask)
    else [text[0]] + Replaced(text[1..], s, mask)
  }

  // ── `scrub` ─────────────────────────────────────────────────────────────

  /** A configured URL that carries a credential, and its redacted form. */
  type Url = u: (string, string) | u.0 != "" witness ("a", "a")

  function UrlsScrubbed(text: string, urls: seq<Url>): string
    decreases |urls|
  {
    if urls == [] then text else UrlsScrubbed(Replaced(text, urls[0].0, urls[0].1), urls[1..])
  }

  function SecretsScrubbed(text: string, secrets: seq<string>): string
    decreases |secrets|
  {
    if secrets == [] then text
    else SecretsScrubbed(if secrets[0] == "" then text else Replaced(text, secrets[0], MASK), secrets[1..])
  }

  method Scrub(urls: seq<Url>, text: string, secrets: seq<string>) returns (scrubbed: string)
    ensures scrubbed == SecretsScrubbed(UrlsScrubbed(text, urls), secrets)
    ensures forall secret <- secrets :: Safe(secret) ==> !Occurs(secret, scrubbed)
    ensures forall url <- urls :: Unmakeable(url.0, urls) ==> !Occurs(url.0, scrubbed)
  {
    scrubbed := text;
    for k := 0 to |urls|
      invariant UrlsScrubbed(scrubbed, urls[k..]) == UrlsScrubbed(text, urls)
    {
      scrubbed := Replaced(scrubbed, urls[k].0, urls[k].1);
    }
    ghost var masked := scrubbed;
    for k := 0 to |secrets|
      invariant SecretsScrubbed(scrubbed, secrets[k..]) == SecretsScrubbed(masked, secrets)
    {
      if secrets[k] != "" {
        scrubbed := Replaced(scrubbed, secrets[k], MASK);
      }
    }
    forall secret | secret in secrets && Safe(secret) ensures !Occurs(secret, scrubbed) {
      SafeSecretIsGone(masked, secrets, secret);
    }
    forall url | url in urls && Unmakeable(url.0, urls) ensures !Occurs(url.0, scrubbed) {
      UrlIsGone(text, urls, url.0);
      SecretsKeepAbsent(masked, secrets, url.0);
    }
  }

  // ── What a replacement can put together ─────────────────────────────────

  lemma OccursInSuffix(s: string, text: string, k: nat)
    requires k <= |text| && Occurs(s, text[k..])
    ensures Occurs(s, text)
  {
    var i: nat :| MatchesAt(text[k..], s, i);
    assert MatchesAt(text, s, k + i);
  }

  /** With `mask` laid over `u` from `k` on, the two agree wherever they meet. */
  ghost predicate Agree(u: string, mask: string, k: int) {
    forall j :: 0 <= j < |u| && k <= j < k + |mask| ==> u[j] == mask[j - k]
  }

  /** No text can hold `u` across the place where a `mask` has been put: laid over
      `u` anywhere, the two disagree. */
  ghost predicate Apart(u: string, mask: string) {
    u != "" && forall k: int | -|mask| < k < |u| :: !Agree(u, mask, k)
  }

  /** The end of `u` found in front of the result was in front of the text. */
  lemma {:induction false} PrefixSurvives(text: string, s: string, mask: string, u: string, p: nat)
    requires s != "" && Apart(u, mask) && 0 < p <= |u| && u[p..] <= Replaced(text, s, mask)
    ensures u[p..] <= text
    decreases |text|
  {
    if p < |u| && |s| <= |text| {
      var r := Replaced(text, s, mask);
      if s <= text {
        InFrontAgrees(mask, r, u, p);
        assert false;
      } else {
        assert r[1..] == Replaced(text[1..], s, mask) && u[p..][1..] == u[p + 1..];
        PrefixSurvives(text[1..], s, mask, u, p + 1);
        assert u[p..] == [u[p]] + u[p + 1..] && text == [text[0]] + text[1..];
      }
    }
  }

  lemma InFrontAgrees(mask: string, r: string, u: string, p: nat)
    requires p < |u| && u[p..] <= r && mask <= r
    ensures Agree(u, mask, p)
  {
    assert forall j :: p <= j < |u| ==> u[j] == u[p..][j - p] == r[j - p];
  }

  lemma BehindAgrees(mask: string, r: string, u: string, i: nat)
    requires MatchesAt(r, u, i) && mask <= r
    ensures Agree(u, mask, 0 - i)
  {
    assert forall j :: 0 <= j < |u| ==> u[j] == r[i..i + |u|][j] == r[i + j];
  }

  /** A `mask` put in front takes part in no occurrence. */
  lemma NotInMask(mask: string, rest: string, u: string, i: nat)
    requires Apart(u, mask) && MatchesAt(mask + rest, u, i)
    ensures i >= |mask| && MatchesAt(rest, u, i - |mask|)
  {
    var text := mask + rest;
    if i < |mask| {
      BehindAgrees(mask, text, u, i);
      assert false;
    }
    assert text[i..i + |u|] == rest[i - |mask|..i - |mask| + |u|];
  }

  /** What is found after a replacement was there before it, and is not the string
      that was replaced. */
  lemma {:induction false} OccurrenceIsOld(text: string, s: string, mask: string, u: string, i: nat)
    requires s != "" && Apart(u, mask) && MatchesAt(Replaced(text, s, mask), u, i)
    ensures u != s && Occurs(u, text)
    decreases |text|
  {
    if |text| < |s| {
      assert MatchesAt(text, u, i);
    } else if s <= text {
      NotInMask(mask, Replaced(text[|s|..], s, mask), u, i);
      OccurrenceIsOld(text[|s|..], s, mask, u, i - |mask|);
      OccursInSuffix(u, text, |s|);
    } else {
      var rest := Replaced(text[1..], s, mask);
      assert ([text[0]] + rest)[1..] == rest;
      if i == 0 {
        assert u == ([text[0]] + rest)[..|u|] && u[1..] == rest[..|u| - 1];
        PrefixSurvives(text[1..], s, mask, u, 1);
        assert text == [text[0]] + text[1..] && u == [u[0]] + u[1..];
        assert MatchesAt(text, u, 0);
      } else {
        assert rest[i - 1..i - 1 + |u|] == ([text[0]] + rest)[i..i + |u|];
        OccurrenceIsOld(text[1..], s, mask, u, i - 1);
        OccursInSuffix(u, text, 1);
      }
    }
  }

  lemma ReplacementRemoves(text: string, s: string, mask: string)
    requires Apart(s, mask)
    ensures !Occurs(s, Replaced(text, s, mask))
  {
    if Occurs(s, Replaced(text, s, mask)) {
      var i: nat :| MatchesAt(Replaced(text, s, mask), s, i);
      OccurrenceIsOld(text, s, mask, s, i);
    }
  }

  lemma ReplacementKeepsAbsent(text: string, s: string, mask: string, u: string)
    requires s != "" && Apart(u, mask) && !Occurs(u, text)
    ensures !Occurs(u, Replaced(text, s, mask))
  {
    if Occurs(u, Replaced(text, s, mask)) {
      var i: nat :| MatchesAt(Replaced(text, s, mask), u, i);
      OccurrenceIsOld(text, s, mask, u, i);
    }
  }

  // ── No URL survives that no redacted form can rebuild ───────────────────

  ghost predicate ApartFromAll(u: string, urls: seq<Url>) { forall url <- urls :: Apart(u, url.1) }

  /** Neither a redacted form nor the mask can take part in it. */
  ghost predicate Unmakeable(u: string, urls: seq<Url>) { ApartFromAll(u, urls) && Apart(u, MASK) }

  lemma {:induction false} UrlStaysAbsent(text: string, urls: seq<Url>, u: string)
    requires ApartFromAll(u, urls) && !Occurs(u, text)
    ensures !Occurs(u, UrlsScrubbed(text, urls))
    decreases |urls|
  {
    if urls != [] {
      assert urls[0] in urls && forall url <- urls[1..] :: url in urls;
      ReplacementKeepsAbsent(text, urls[0].0, urls[0].1, u);
      UrlStaysAbsent(Replaced(text, urls[0].0, urls[0].1), urls[1..], u);
    }
  }

  /** For any text and any list of URLs, in any order: such a URL is gone. */
  lemma {:induction false} UrlIsGone(text: string, urls: seq<Url>, u: string)
    requires ApartFromAll(u, urls) && exists url <- urls :: url.0 == u
    ensures !Occurs(u, UrlsScrubbed(text, urls))
    decreases |urls|
  {
    var next := Replaced(text, urls[0].0, urls[0].1);
    assert urls[0] in urls && forall url <- urls[1..] :: url in urls;
    if urls[0].0 == u {
      ReplacementRemoves(text, u, urls[0].1);
      UrlStaysAbsent(next, urls[1..], u);
    } else {
      UrlIsGone(next, urls[1..], u);
    }
  }

  lemma {:induction false} SecretsKeepAbsent(text: string, secrets: seq<string>, u: string)
    requires Apart(u, MASK) && !Occurs(u, text)
    ensures !Occurs(u, SecretsScrubbed(text, secrets))
    decreases |secrets|
  {
    if secrets != [] {
      if secrets[0] == "" {
        SecretsKeepAbsent(text, secrets[1..], u);
      } else {
        ReplacementKeepsAbsent(text, secrets[0], MASK, u);
        SecretsKeepAbsent(Replaced(text, secrets[0], MASK), secrets[1..], u);
      }
    }
  }

  /** Text without a match comes back as it was. */
  lemma {:induction false} NoMatch(text: string, s: string, mask: string)
    requires s != "" && !Occurs(s, text)
    ensures Replaced(text, s, mask) == text
    decreases |text|
  {
    if |s| <= |text| {
      if s <= text { assert MatchesAt(text, s, 0); }
      if Occurs(s, text[1..]) { OccursInSuffix(s, text, 1); }
      NoMatch(text[1..], s, mask);
    }
  }

  /** What stands before the first match stays, the match becomes the mask, and
      the rest is searched on. */
  lemma {:induction false} FirstMatch(pre: string, s: string, mask: string, tail: string)
    requires s != "" && forall j :: 0 <= j < |pre| ==> !MatchesAt(pre + s + tail, s, j)
    ensures Replaced(pre + s + tail, s, mask) == pre + mask + Replaced(tail, s, mask)
    decreases |pre|
  {
    var text := pre + s + tail;
    if pre == "" {
      assert text[..|s|] == s && text[|s|..] == tail;
      assert pre + mask + Replaced(tail, s, mask) == mask + Replaced(tail, s, mask);
    } else {
      var rest := pre[1..] + s + tail;
      assert text == [pre[0]] + rest && text[1..] == rest;
      assert !MatchesAt(text, s, 0) && text[0..|s|] == text[..|s|];
      forall j | 0 <= j < |pre[1..]| ensures !MatchesAt(rest, s, j) { MatchInTail(text, s, j); }
      FirstMatch(pre[1..], s, mask, tail);
      PutInFront(pre, mask, Replaced(tail, s, mask));
    }
  }

  lemma PutInFront(pre: string, mask: string, after: string)
    requires pre != ""
    ensures [pre[0]] + (pre[1..] + mask + after) == pre + mask + after
  {
  }

  lemma MatchInTail(text: string, s: string, j: nat)
    requires text != ""
    ensures MatchesAt(text[1..], s, j) <==> MatchesAt(text, s, j + 1)
  {
    if j + |s| <= |text[1..]| { assert text[1..][j..j + |s|] == text[j + 1..j + 1 + |s|]; }
  }

  /** A URL found once in a text: the text before, its redacted form, the text after. */
  lemma OneUrl(pre: string, url: Url, tail: string)
    requires forall j :: 0 <= j < |pre| ==> !MatchesAt(pre + url.0 + tail, url.0, j)
    requires !Occurs(url.0, tail)
    ensures UrlsScrubbed(pre + url.0 + tail, [url]) == pre + url.1 + tail
  {
    FirstMatch(pre, url.0, url.1, tail);
    NoMatch(tail, url.0, url.1);
    assert [url][1..] == [];
  }

  /** URLs are replaced in the order they are configured. */
  lemma {:induction false} UrlsInOrder(text: string, urls: seq<Url>, url: Url)
    ensures UrlsScrubbed(text, urls + [url]) == Replaced(UrlsScrubbed(text, urls), url.0, url.1)
    decreases |urls|
  {
    if urls == [] {
      assert urls + [url] == [url] && [url][1..] == [];
    } else {
      assert (urls + [url])[1..] == urls[1..] + [url];
      UrlsInOrder(Replaced(text, urls[0].0, urls[0].1), urls[1..], url);
    }
  }

  // ── Nor does a safe secret ──────────────────────────────────────────────

  /** The secrets a mask can never rebuild: no star at either end, no mask inside. */
  ghost predicate Safe(s: string) {
    s != "" && s[0] != '*' && s[|s| - 1] != '*' && !Occurs(MASK, s)
  }

  lemma SafeIsApart(s: string)
    requires Safe(s)
    ensures Apart(s, MASK)
  {
    forall k: int | -|MASK| < k < |s| ensures !Agree(s, MASK, k) {
      if Agree(s, MASK, k) && k > 0 && k + |MASK| < |s| { assert MatchesAt(s, MASK, k); }
    }
  }

  /** For any text and any list of secrets, overlapping and nested ones included:
      each safe one is gone from the result, whatever the others are. */
  lemma {:induction false} SafeSecretIsGone(text: string, secrets: seq<string>, s: string)
    requires s in secrets && Safe(s)
    ensures !Occurs(s, SecretsScrubbed(text, secrets))
    decreases |secrets|
  {
    SafeIsApart(s);
    var next := if secrets[0] == "" then text else Replaced(text, secrets[0], MASK);
    if s == secrets[0] {
      ReplacementRemoves(text, s, MASK);
      SecretsKeepAbsent(next, secrets[1..], s);
    } else {
      SafeSecretIsGone(next, secrets[1..], s);
    }
  }

  lemma MaskHasStar(s: string)
    requires Occurs(MASK, s)
    ensures '*' in s
  {
    var i: nat :| MatchesAt(s, MASK, i);
    assert s[i] == s[i..i + 3][0];
  }

  /** A secret with no star in it is safe. */
  lemma StarlessIsSafe(s: string)
    requires s != "" && '*' !in s
    ensures Safe(s)
  {
    if Occurs(MASK, s) { MaskHasStar(s); }
  }

  // ── Exactly what can survive its own replacement ────────────────────────

  /** A mask laid over `s` at `k` agrees with it, and the text in front of the mask
      does not make an earlier match. */
  ghost predicate Rebuilds(s: string, mask: string, k: int) {
    && -|mask| < k < |s| && Agree(s, mask, k)
    && (k > 0 ==> forall j :: 0 <= j < k ==> !MatchesAt(s[..k] + s, s, j))
  }

  ghost predicate Rebuildable(s: string, mask: string) { exists k: int :: Rebuilds(s, mask, k) }

  ghost predicate AlwaysGone(s: string, mask: string)
    requires s != ""
  {
    forall text: string :: !Occurs(s, Replaced(text, s, mask))
  }

  lemma MatchInPrefix(x: string, y: string, s: string, j: nat)
    requires x <= y && j + |s| <= |x|
    ensures MatchesAt(x, s, j) <==> MatchesAt(y, s, j)
  {
    assert x[j..j + |s|] == y[j..j + |s|];
  }

  lemma WholeInFront(text: string, s: string, p: nat)
    requires p <= |s| && s[p..] <= text
    ensures MatchesAt(s[..p] + text, s, 0)
  {
    assert s == s[..p] + s[p..];
    assert (s[..p] + text)[0..|s|] == s;
  }

  /** The mask in front of the rest of `s`, or around it. */
  lemma RebuiltFromFront(s: string, mask: string, k: int) returns (text: string)
    requires s != "" && Rebuilds(s, mask, k) && k <= 0
    ensures Occurs(s, Replaced(text, s, mask))
  {
    var tail := if k + |mask| < |s| then s[k + |mask|..] else "";
    text := "" + s + tail;
    FirstMatch("", s, mask, tail);
    var r := "" + mask + tail;
    assert r == mask + tail && Replaced(tail, s, mask) == tail;
    assert r[0 - k..0 - k + |s|] == s;
    assert MatchesAt(r, s, 0 - k);
  }

  /** The start of `s`, the mask, and the rest of `s` if there is any. */
  lemma RebuiltBehind(s: string, mask: string, k: int) returns (text: string)
    requires Rebuilds(s, mask, k) && k > 0
    ensures Occurs(s, Replaced(text, s, mask))
  {
    var tail := if k + |mask| < |s| then s[k + |mask|..] else "";
    text := s[..k] + s + tail;
    forall j | 0 <= j < |s[..k]| ensures !MatchesAt(text, s, j) { MatchInPrefix(s[..k] + s, text, s, j); }
    FirstMatch(s[..k], s, mask, tail);
    var r := s[..k] + mask + tail;
    assert Replaced(tail, s, mask) == tail;
    assert r[0..|s|] == s;
    assert MatchesAt(r, s, 0);
  }

  lemma HereIsRebuilt(text: string, s: string, mask: string, p: nat)
    requires 0 < p < |s| && s <= text && s[p..] <= Replaced(text, s, mask)
    requires forall j :: 0 <= j < p ==> !MatchesAt(s[..p] + text, s, j)
    ensures Rebuilds(s, mask, p)
  {
    InFrontAgrees(mask, Replaced(text, s, mask), s, p);
    assert s[..p] + s <= s[..p] + text;
    forall j | 0 <= j < p ensures !MatchesAt(s[..p] + s, s, j) { MatchInPrefix(s[..p] + s, s[..p] + text, s, j); }
  }

  lemma TailInFront(u: string, c: char, rest: string)
    requires u != "" && u <= [c] + rest
    ensures u[0] == c && u[1..] <= rest
  {
    assert u[1..] == ([c] + rest)[1..|u|] == rest[..|u| - 1];
  }

  lemma SameText(text: string, s: string, p: nat)
    requires p < |s| <= |text| && s[p] == text[0] && !(s <= text)
    ensures s[..p + 1] + text[1..] == s[..p] + text && !MatchesAt(s[..p] + text, s, p)
  {
    assert (s[..p] + text)[p..p + |s|] == text[..|s|];
    assert s[..p + 1] == s[..p] + [text[0]] && text == [text[0]] + text[1..];
  }

  /** The rest of `s` in front of the result, its start in front of the text, and
      no match before the text begins. */
  lemma {:induction false} StartInText(text: string, s: string, mask: string, p: nat) returns (k: int)
    requires 0 < p <= |s| && s[p..] <= Replaced(text, s, mask)
    requires forall j :: 0 <= j < p ==> !MatchesAt(s[..p] + text, s, j)
    ensures Rebuilds(s, mask, k)
    decreases |text|
  {
    if p == |s| || |text| < |s| {
      WholeInFront(text, s, p);
      assert false;
    } else if s <= text {
      HereIsRebuilt(text, s, mask, p);
      k := p;
    } else {
      TailInFront(s[p..], text[0], Replaced(text[1..], s, mask));
      SameText(text, s, p);
      assert s[p..][1..] == s[p + 1..];
      k := StartInText(text[1..], s, mask, p + 1);
    }
  }

  /** Whatever is left of `s` was put together around a mask. */
  lemma {:induction false} LeftIsRebuilt(text: string, s: string, mask: string, i: nat) returns (k: int)
    requires s != "" && MatchesAt(Replaced(text, s, mask), s, i)
    ensures Rebuilds(s, mask, k)
    decreases |text|
  {
    var r := Replaced(text, s, mask);
    if s <= text {
      var rest := Replaced(text[|s|..], s, mask);
      if i < |mask| {
        BehindAgrees(mask, r, s, i);
        k := 0 - i;
      } else {
        assert r[i..i + |s|] == rest[i - |mask|..i - |mask| + |s|];
        k := LeftIsRebuilt(text[|s|..], s, mask, i - |mask|);
      }
    } else {
      var rest := Replaced(text[1..], s, mask);
      assert r == [text[0]] + rest && r[1..] == rest;
      if i == 0 {
        assert s == r[..|s|] && s[1..] == rest[..|s| - 1];
        assert s[..1] + text[1..] == text && text[0..|s|] == text[..|s|];
        k := StartInText(text[1..], s, mask, 1);
      } else {
        assert rest[i - 1..i - 1 + |s|] == r[i..i + |s|];
        k := LeftIsRebuilt(text[1..], s, mask, i - 1);
      }
    }
  }

  /** Replacing a string is complete, on every text, exactly if the mask cannot
      rebuild it. */
  lemma CompleteIffNotRebuildable(s: string, mask: string)
    requires s != ""
    ensures AlwaysGone(s, mask) <==> !Rebuildable(s, mask)
  {
    if k: int :| Rebuilds(s, mask, k) {
      var text;
      if k <= 0 { text := RebuiltFromFront(s, mask, k); } else { text := RebuiltBehind(s, mask, k); }
      assert Occurs(s, Replaced(text, s, mask));
    }
    if text: string :| Occurs(s, Replaced(text, s, mask)) {
      var i: nat :| MatchesAt(Replaced(text, s, mask), s, i);
      var k := LeftIsRebuilt(text, s, mask, i);
    }
  }

  ghost predicate UrlAlwaysGone(url: Url) { forall text: string :: !Occurs(url.0, UrlsScrubbed(text, [url])) }

  ghost predicate SecretAlwaysGone(s: string) { forall text: string :: !Occurs(s, SecretsScrubbed(text, [s])) }

  /** So for one configured URL: its credentials leave every text exactly if its
      redacted form cannot rebuild it. */
  lemma UrlCompleteIff(url: Url)
    ensures UrlAlwaysGone(url) <==> !Rebuildable(url.0, url.1)
  {
    CompleteIffNotRebuildable(url.0, url.1);
    forall text: string ensures UrlsScrubbed(text, [url]) == Replaced(text, url.0, url.1) { assert [url][1..] == []; }
    if AlwaysGone(url.0, url.1) {
      assert UrlAlwaysGone(url);
    } else {
      var text: string :| Occurs(url.0, Replaced(text, url.0, url.1));
      assert Occurs(url.0, UrlsScrubbed(text, [url]));
    }
  }

  /** A host that is the first letter of the scheme: the redacted form ends where
      the URL begins, and the password can be put together again. */
  lemma ShortHostSurvives()
    ensures !UrlAlwaysGone(("http://u:pw@h", "http://***@h"))
  {
    assert Agree("http://u:pw@h", "http://***@h", -11);
    assert Rebuilds("http://u:pw@h", "http://***@h", -11);
    UrlCompleteIff(("http://u:pw@h", "http://***@h"));
  }

  /** In `s[..a] + s`, a match before `a` puts the star at `a` in front. */
  lemma EarlierMatch(s: string, a: nat, j: nat)
    requires j < a < |s| && s[a] == '*' && MatchesAt(s[..a] + s, s, j)
    ensures s[0] == '*'
  {
    var text := s[..a] + s;
    assert text[j..j + |s|][0] == text[j] == s[j];
    assert text[j..j + |s|][a] == text[j + a] == s[j];
  }

  /** With the mask every star counts that is at an end or one of three. */
  lemma UnsafeIsRebuildable(s: string)
    requires s != "" && !Safe(s)
    ensures Rebuildable(s, MASK)
  {
    if s[0] == '*' {
      assert Rebuilds(s, MASK, -2);
    } else {
      var a: nat := |s| - 1;
      if s[a] != '*' {
        a :| MatchesAt(s, MASK, a);
        assert s[a] == s[a..a + 3][0] && s[a + 1] == s[a..a + 3][1] && s[a + 2] == s[a..a + 3][2];
      }
      forall j | 0 <= j < a ensures !MatchesAt(s[..a] + s, s, j) {
        if MatchesAt(s[..a] + s, s, j) { EarlierMatch(s, a, j); }
      }
      assert Rebuilds(s, MASK, a);
    }
  }

  /** Scrubbing one secret out of every text is complete exactly for the safe ones. */
  lemma CompleteIffSafe(s: string)
    requires s != ""
    ensures Safe(s) <==> SecretAlwaysGone(s)
  {
    forall text: string ensures SecretsScrubbed(text, [s]) == Replaced(text, s, MASK) { assert [s][1..] == []; }
    CompleteIffNotRebuildable(s, MASK);
    if Safe(s) {
      SafeIsApart(s);
      assert AlwaysGone(s, MASK);
    } else {
      UnsafeIsRebuildable(s);
      var text: string :| Occurs(s, Replaced(text, s, MASK));
      assert Occurs(s, SecretsScrubbed(text, [s]));
    }
  }
}
