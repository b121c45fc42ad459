/**
  Credentials spliced into a Redis URL: `encoded` (RFC 3986, sections 2.1 and
  2.3) and `authenticated` (section 3.2.1).  Text is its UTF-8 bytes.
*/
module RedisUrl {
  import opened Common

  type byte = b: int | 0 <= b < 256
  type Bytes = seq<byte>

  const PERCENT: byte := 37
  const COLON: byte := 58
  const AT: byte := 64
  const SCHEME_END: Bytes := [58, 47, 47]

  // ── Percent-encoding ────────────────────────────────────────────────────

  predicate Unreserved(b: byte) {
    65 <= b <= 90 || 97 <= b <= 122 || 48 <= b <= 57 || b in {45, 46, 95, 126}
  }

  function HexDigit(n: nat): byte
    requires n < 16
  {
    if n < 10 then 48 + n else 55 + n
  }

  function EncodedByte(b: byte): Bytes {
    if Unreserved(b) then [b] else [PERCENT, HexDigit(b / 16), HexDigit(b % 16)]
  }

  function EncodedBytes(component: Bytes): Bytes {
    if component == [] then [] else EncodedByte(component[0]) + EncodedBytes(component[1..])
  }

  method Encoded(component: Bytes) returns (encoded: Bytes)
    ensures encoded == EncodedBytes(component)
    ensures Decoded(encoded) == component
  {
    encoded := [];
    for k := 0 to |component|
      invariant encoded + EncodedBytes(component[k..]) == EncodedBytes(component)
    {
      ghost var before := encoded;
      var b := component[k];
      if Unreserved(b) {
        encoded := encoded + [b];
      } else {
        encoded := encoded + [PERCENT, HexDigit(b / 16), HexDigit(b % 16)];
      }
      NextByte(component, k, before, encoded);
    }
    DecodeEncoded(component);
  }

  lemma NextByte(component: Bytes, k: nat, before: Bytes, after: Bytes)
    requires k < |component| && after == before + EncodedByte(component[k])
    ensures after + EncodedBytes(component[k + 1..]) == before + EncodedBytes(component[k..])
  {
    assert component[k..][1..] == component[k + 1..];
  }

  /** Section 2.1 read backwards: either case of hex digit, anything malformed kept. */
  function HexValue(b: byte): Option<nat> {
    if 48 <= b <= 57 then Some(b - 48)
    else if 65 <= b <= 70 then Some(b - 55)
    else if 97 <= b <= 102 then Some(b - 87)
    else None
  }

  function Decoded(text: Bytes): Bytes
    decreases |text|
  {
    if text == [] then []
    else if |text| >= 3 && text[0] == PERCENT && HexValue(text[1]).Some? && HexValue(text[2]).Some?
    then [HexValue(text[1]).value * 16 + HexValue(text[2]).value] + Decoded(text[3..])
    else [text[0]] + Decoded(text[1..])
  }

  lemma DecodeOne(b: byte, rest: Bytes)
    ensures Decoded(EncodedByte(b) + rest) == [b] + Decoded(rest)
  {
    var text := EncodedByte(b) + rest;
    if Unreserved(b) {
      assert text[1..] == rest;
    } else {
      assert text[3..] == rest;
    }
  }

  /** Decoding gives back every byte string. */
  lemma {:induction false} DecodeEncoded(component: Bytes)
    ensures Decoded(EncodedBytes(component)) == component
  {
    if component != [] {
      DecodeEncoded(component[1..]);
      DecodeOne(component[0], EncodedBytes(component[1..]));
      assert [component[0]] + component[1..] == component;
    }
  }

  /** Letters, digits and four marks (section 2.3). */
  predicate UnreservedChar(c: char) {
    'A' <= c <= 'Z' || 'a' <= c <= 'z' || '0' <= c <= '9' || c == '-' || c == '.' || c == '_' || c == '~'
  }

  const HEX: string := "0123456789ABCDEF"

  /** Unreserved characters stay; every other byte is `%` and two upper-case hex digits. */
  lemma EncodedByteIs(b: byte)
    ensures if UnreservedChar(b as char) then EncodedByte(b) == [b]
            else EncodedByte(b) == ['%' as int, HEX[b / 16] as int, HEX[b % 16] as int]
  {
    HexDigitIs(b / 16);
    HexDigitIs(b % 16);
  }

  lemma HexDigitIs(n: nat)
    requires n < 16
    ensures HexDigit(n) == HEX[n] as int
  {
  }

  /** Only unreserved characters, `%` and upper-case hex digits are produced. */
  predicate Harmless(b: byte) { Unreserved(b) || b == PERCENT }

  lemma {:induction false} EncodedIsHarmless(component: Bytes)
    ensures forall b <- EncodedBytes(component) :: Harmless(b)
  {
    if component != [] { EncodedIsHarmless(component[1..]); }
  }

  // ── Splitting ───────────────────────────────────────────────────────────

  predicate StartsAt(s: Bytes, sep: Bytes, j: nat) { j <= |s| && sep <= s[j..] }

  /** `split_once`. */
  function SplitFirst(s: Bytes, sep: Bytes): (r: Option<(Bytes, Bytes)>)
    requires sep != []
    ensures r.Some? ==> s == r.value.0 + sep + r.value.1
    ensures r.Some? ==> forall j :: 0 <= j < |r.value.0| ==> !StartsAt(s, sep, j)
    ensures r.None? ==> forall j :: 0 <= j <= |s| ==> !StartsAt(s, sep, j)
  {
    if sep <= s then Some(([], s[|sep|..]))
    else if s == [] then None
    else
      var r := SplitFirst(s[1..], sep);
      assert forall j :: 0 < j <= |s| ==> StartsAt(s, sep, j) == StartsAt(s[1..], sep, j - 1) by {
        assert forall j :: 0 < j <= |s| ==> s[j..] == s[1..][j - 1..];
      }
      if r.None? then None else Some(([s[0]] + r.value.0, r.value.1))
  }

  /** `rsplit_once` on one byte. */
  function SplitLast(s: Bytes, b: byte): (r: Option<(Bytes, Bytes)>)
    ensures r.Some? ==> s == r.value.0 + [b] + r.value.1 && b !in r.value.1
    ensures r.None? ==> b !in s
  {
    if s == [] then None
    else if s[|s| - 1] == b then Some((s[..|s| - 1], []))
    else
      var r := SplitLast(s[..|s| - 1], b);
      if r.None? then None else Some((r.value.0, r.value.1 + [s[|s| - 1]]))
  }

  lemma {:induction false} SplitLastIs(a: Bytes, b: byte, t: Bytes)
    requires b !in t
    ensures SplitLast(a + [b] + t, b) == Some((a, t))
    decreases |t|
  {
    var s := a + [b] + t;
    if t == [] {
      assert s[..|s| - 1] == a;
    } else {
      var front := t[..|t| - 1];
      assert s[|s| - 1] == t[|t| - 1] && t[|t| - 1] in t;
      assert s[..|s| - 1] == a + [b] + front;
      SplitLastIs(a, b, front);
      assert t == front + [t[|t| - 1]];
    }
  }

  lemma {:induction false} SplitFirstIs(a: Bytes, sep: Bytes, t: Bytes)
    requires sep != [] && forall j :: 0 <= j < |a| ==> !StartsAt(a + sep + t, sep, j)
    ensures SplitFirst(a + sep + t, sep) == Some((a, t))
    decreases |a|
  {
    var s := a + sep + t;
    if a == [] {
      assert s == sep + t;
    } else {
      assert !StartsAt(s, sep, 0) && s[0..] == s;
      assert s[1..] == a[1..] + sep + t;
      forall j | 0 <= j < |a[1..]| ensures !StartsAt(a[1..] + sep + t, sep, j) {
        assert !StartsAt(s, sep, j + 1) && s[1..][j..] == s[j + 1..];
      }
      SplitFirstIs(a[1..], sep, t);
      assert [a[0]] + a[1..] == a && s[0] == a[0];
    }
  }

  // ── `authenticated` ─────────────────────────────────────────────────────

  function AfterLastAt(rest: Bytes): Bytes {
    match SplitLast(rest, AT)
    case None => rest
    case Some((_, tail)) => tail
  }

  function UserInfo(user: Bytes, password: Bytes): Bytes { EncodedBytes(user) + [COLON] + EncodedBytes(password) }

  function Authenticated(url: Bytes, user: Bytes, password: Bytes): Bytes {
    match SplitFirst(url, SCHEME_END)
    case None => url
    case Some((scheme, rest)) => scheme + SCHEME_END + UserInfo(user, password) + [AT] + AfterLastAt(rest)
  }

  lemma UserInfoIsHarmless(user: Bytes, password: Bytes)
    ensures forall b <- UserInfo(user, password) :: Harmless(b) || b == COLON
    ensures SplitFirst(UserInfo(user, password), [COLON]) == Some((EncodedBytes(user), EncodedBytes(password)))
  {
    EncodedIsHarmless(user);
    EncodedIsHarmless(password);
    var info := UserInfo(user, password);
    forall j | 0 <= j < |EncodedBytes(user)| ensures !StartsAt(info, [COLON], j) {
      assert info[j..][0] == EncodedBytes(user)[j] && EncodedBytes(user)[j] in EncodedBytes(user);
    }
    SplitFirstIs(EncodedBytes(user), [COLON], EncodedBytes(password));
  }

  /** Replacing what follows the first `://` leaves the scheme where it was. */
  lemma SchemeStays(url: Bytes, rest': Bytes)
    requires SplitFirst(url, SCHEME_END).Some?
    ensures var scheme := SplitFirst(url, SCHEME_END).value.0;
            SplitFirst(scheme + SCHEME_END + rest', SCHEME_END) == Some((scheme, rest'))
  {
    var (scheme, rest) := SplitFirst(url, SCHEME_END).value;
    var s := scheme + SCHEME_END + rest';
    forall j | 0 <= j < |scheme| ensures !StartsAt(s, SCHEME_END, j) {
      assert !StartsAt(url, SCHEME_END, j);
      assert s[j..j + 3] == s[..|scheme| + 3][j..j + 3] == url[..|scheme| + 3][j..j + 3] == url[j..j + 3];
      assert s[j..][..3] == s[j..j + 3] && url[j..][..3] == url[j..j + 3];
    }
    SplitFirstIs(scheme, SCHEME_END, rest');
  }

  lemma ResultShape(url: Bytes, user: Bytes, password: Bytes)
    requires SplitFirst(url, SCHEME_END).Some?
    ensures var (scheme, rest) := SplitFirst(url, SCHEME_END).value;
            var info := UserInfo(user, password);
            && SplitFirst(Authenticated(url, user, password), SCHEME_END)
               == Some((scheme, info + [AT] + AfterLastAt(rest)))
            && SplitLast(info + [AT] + AfterLastAt(rest), AT) == Some((info, AfterLastAt(rest)))
  {
    var (scheme, rest) := SplitFirst(url, SCHEME_END).value;
    var info := UserInfo(user, password);
    var rest' := info + [AT] + AfterLastAt(rest);
    SchemeStays(url, rest');
    assert Authenticated(url, user, password) == scheme + SCHEME_END + rest';
    SplitLastIs(info, AT, AfterLastAt(rest));
  }

  /** Without credentials nothing is dropped: they go in front of what followed `://`. */
  lemma SplicedWithoutAt(scheme: Bytes, rest: Bytes, user: Bytes, password: Bytes)
    requires SchemeEndsFirst(scheme, rest) && AT !in rest
    ensures Authenticated(scheme + SCHEME_END + rest, user, password)
         == scheme + SCHEME_END + EncodedBytes(user) + [COLON] + EncodedBytes(password) + [AT] + rest
  {
    SplitFirstIs(scheme, SCHEME_END, rest);
    OneAtATime(scheme + SCHEME_END, EncodedBytes(user), EncodedBytes(password), rest);
  }

  /** With them, they go in the place of everything up to the last `@`. */
  lemma SplicedAtLastAt(scheme: Bytes, before: Bytes, tail: Bytes, user: Bytes, password: Bytes)
    requires SchemeEndsFirst(scheme, before + [AT] + tail) && AT !in tail
    ensures Authenticated(scheme + SCHEME_END + (before + [AT] + tail), user, password)
         == scheme + SCHEME_END + EncodedBytes(user) + [COLON] + EncodedBytes(password) + [AT] + tail
  {
    SplitFirstIs(scheme, SCHEME_END, before + [AT] + tail);
    SplitLastIs(before, AT, tail);
    OneAtATime(scheme + SCHEME_END, EncodedBytes(user), EncodedBytes(password), tail);
  }

  ghost predicate SchemeEndsFirst(scheme: Bytes, rest: Bytes) {
    forall j :: 0 <= j < |scheme| ==> !StartsAt(scheme + SCHEME_END + rest, SCHEME_END, j)
  }

  lemma OneAtATime(front: Bytes, user: Bytes, password: Bytes, tail: Bytes)
    ensures front + (user + [COLON] + password) + [AT] + tail == front + user + [COLON] + password + [AT] + tail
  {
  }

  /** Splitting the result at its last `@`, its credentials at their first `:`
      and decoding gives back exactly what went in; the text after the last `@`
      is the one the URL had, and the scheme is untouched. */
  lemma CredentialsRoundTrip(url: Bytes, user: Bytes, password: Bytes)
    ensures match SplitFirst(url, SCHEME_END)
            case None => Authenticated(url, user, password) == url
            case Some((scheme, rest)) =>
              exists rest', info, u, p ::
                && SplitFirst(Authenticated(url, user, password), SCHEME_END) == Some((scheme, rest'))
                && SplitLast(rest', AT) == Some((info, AfterLastAt(rest)))
                && SplitFirst(info, [COLON]) == Some((u, p))
                && Decoded(u) == user && Decoded(p) == password
  {
    if SplitFirst(url, SCHEME_END).Some? {
      ResultShape(url, user, password);
      UserInfoIsHarmless(user, password);
      DecodeEncoded(user);
      DecodeEncoded(password);
    }
  }

  /** The last credentials spliced win, and leave no trace of the ones before. */
  lemma SplicingTwice(url: Bytes, u1: Bytes, p1: Bytes, u2: Bytes, p2: Bytes)
    ensures Authenticated(Authenticated(url, u1, p1), u2, p2) == Authenticated(url, u2, p2)
  {
    if SplitFirst(url, SCHEME_END).Some? { ResultShape(url, u1, p1); }
  }

  // ── What the splice does to the address ─────────────────────────────────

  /** `/`, `?` and `#` end an authority (section 3.2). */
  predicate EndsAuthority(b: byte) { b == 47 || b == 63 || b == 35 }

  predicate InAuthority(text: Bytes) { forall b <- text :: !EndsAuthority(b) }

  /** The text up to the end of the authority, and the path, query and fragment. */
  function SplitAuthority(rest: Bytes): (r: (Bytes, Bytes))
    ensures rest == r.0 + r.1 && InAuthority(r.0) && (r.1 != [] ==> EndsAuthority(r.1[0]))
  {
    if rest == [] || EndsAuthority(rest[0]) then ([], rest)
    else var r := SplitAuthority(rest[1..]); ([rest[0]] + r.0, r.1)
  }

  /** The host and port of an authority: what follows its user information (section 3.2). */
  function Host(authority: Bytes): Bytes { if AT in authority then Host(authority[1..]) else authority }

  /** Where a client connects and what it asks for there: the host and port,
      and everything after the authority. */
  function Address(rest: Bytes): (Bytes, Bytes) {
    var (authority, tail) := SplitAuthority(rest);
    (Host(authority), tail)
  }

  lemma {:induction false} HostIsAfterLastAt(authority: Bytes)
    ensures Host(authority) == AfterLastAt(authority)
  {
    if AT in authority {
      var (a, t) := SplitLast(authority, AT).value;
      if a == [] {
        assert authority[1..] == t;
      } else {
        assert authority[1..] == a[1..] + [AT] + t;
        SplitLastIs(a[1..], AT, t);
        HostIsAfterLastAt(authority[1..]);
      }
    }
  }

  lemma {:induction false} SplitAuthorityIs(authority: Bytes, tail: Bytes)
    requires InAuthority(authority) && (tail != [] ==> EndsAuthority(tail[0]))
    ensures SplitAuthority(authority + tail) == (authority, tail)
  {
    if authority == [] {
      assert authority + tail == tail;
    } else {
      assert authority[0] in authority && (authority + tail)[1..] == authority[1..] + tail;
      SplitAuthorityIs(authority[1..], tail);
      assert [authority[0]] + authority[1..] == authority;
    }
  }

  lemma JoinInAuthority(info: Bytes, host: Bytes)
    requires InAuthority(info) && InAuthority(host)
    ensures InAuthority(info + [AT] + host)
  {
    forall b | b in info + [AT] + host ensures !EndsAuthority(b) {
      assert b in info || b == AT || b in host;
    }
  }

  lemma AddressIs(authority: Bytes, tail: Bytes, host: Bytes)
    requires InAuthority(authority) && (tail != [] ==> EndsAuthority(tail[0])) && AfterLastAt(authority) == host
    ensures Address(authority + tail) == (host, tail)
  {
    HostIsAfterLastAt(authority);
    SplitAuthorityIs(authority, tail);
  }

  /** What a client reads out of a spliced URL. */
  lemma SplicedAddress(info: Bytes, host: Bytes, tail: Bytes)
    requires AT !in host && InAuthority(info) && InAuthority(host) && (tail != [] ==> EndsAuthority(tail[0]))
    ensures Address(info + [AT] + host + tail) == (host, tail)
  {
    JoinInAuthority(info, host);
    SplitLastIs(info, AT, host);
    AddressIs(info + [AT] + host, tail, host);
  }

  /** With no `@` past the authority, its own last `@` is the last one. */
  lemma LastAtInAuthority(authority: Bytes, tail: Bytes)
    requires AT !in tail
    ensures AfterLastAt(authority + tail) == AfterLastAt(authority) + tail
  {
    var split := SplitLast(authority, AT);
    if split.Some? {
      var (a, host) := split.value;
      assert authority + tail == a + [AT] + (host + tail);
      SplitLastIs(a, AT, host + tail);
    } else {
      assert SplitLast(authority + tail, AT).None? || AT in authority + tail;
    }
  }

  /** With one, the splice keeps only a part of what followed the authority. */
  lemma LastAtInTail(authority: Bytes, tail: Bytes)
    requires AT in tail
    ensures |AfterLastAt(authority + tail)| < |tail|
  {
    var (a, t) := SplitLast(tail, AT).value;
    assert authority + tail == (authority + a) + [AT] + t;
    SplitLastIs(authority + a, AT, t);
  }

  /** The spliced URL addresses the same host and the same resource exactly when
      no `@` follows the authority. */
  lemma AddressKeptIff(url: Bytes, user: Bytes, password: Bytes, rest: Bytes, rest': Bytes)
    requires SplitFirst(url, SCHEME_END).Some? && rest == SplitFirst(url, SCHEME_END).value.1
    requires SplitFirst(Authenticated(url, user, password), SCHEME_END).Some?
    requires rest' == SplitFirst(Authenticated(url, user, password), SCHEME_END).value.1
    ensures Address(rest') == Address(rest) <==> AT !in SplitAuthority(rest).1
  {
    ResultShape(url, user, password);
    SplicedRestIff(UserInfo(user, password), user, password, rest);
  }

  lemma SplicedRestIff(info: Bytes, user: Bytes, password: Bytes, rest: Bytes)
    requires info == UserInfo(user, password)
    ensures Address(info + [AT] + AfterLastAt(rest)) == Address(rest) <==> AT !in SplitAuthority(rest).1
  {
    assert InAuthority(info) by { UserInfoIsHarmless(user, password); }
    KeptAddressIff(info, rest, SplitAuthority(rest).0, SplitAuthority(rest).1);
  }

  lemma KeptAddressIff(info: Bytes, rest: Bytes, authority: Bytes, tail: Bytes)
    requires InAuthority(info) && InAuthority(authority) && (tail != [] ==>
        EndsAuthority(tail[0])) && rest == authority + tail
    ensures Address(info + [AT] + AfterLastAt(rest)) == Address(rest) <==> AT !in tail
  {
    var kept := AfterLastAt(rest);
    AddressIs(authority, tail, AfterLastAt(authority));
    if AT !in tail {
      var host := AfterLastAt(authority);
      LastAtInAuthority(authority, tail);
      HostIsLast(authority);
      SplicedAddress(info, host, tail);
      assert info + [AT] + host + tail == info + [AT] + kept;
    } else {
      LastAtInTail(authority, tail);
      ShorterTail(info, kept, tail);
    }
  }

  lemma HostIsLast(authority: Bytes)
    requires InAuthority(authority)
    ensures InAuthority(AfterLastAt(authority)) && AT !in AfterLastAt(authority)
  {
  }

  lemma ShorterTail(info: Bytes, kept: Bytes, tail: Bytes)
    requires InAuthority(info) && AT !in kept && |kept| < |tail|
    ensures Address(info + [AT] + kept).1 != tail
  {
    var (host, end) := SplitAuthority(kept);
    assert kept == host + end && AT !in host;
    SplicedAddress(info, host, end);
    assert info + [AT] + host + end == info + [AT] + kept;
  }
}
