/**
 White space at the ends of a stored URL. `redact_url` strips before it redacts and drops the fragment: what stood
 before the fragment may end in white space, and then the next call strips it.
 */
module UrlBlanks {
  import opened Options
  import opened Text
  import opened Settle
  import opened JsonRedaction
  import opened UrlRedaction

  // ----- The parameters of a URL -----

  function UrlParts(url: string): seq<string> {
    match SplitUrl(url).query
    case None => []
    case Some(query) => Split(query, '&')
  }

  /** The decoded value of a query parameter, if the text rules get to see it: not of one without a value or
      under a denied name. */
  function Value(r: UrlRules, part: string): Option<string> {
    var at := Until(part, {'='});
    if at == |part| || part[at + 1..] == [] || r.denied(r.tokens(part[..at])) then None
    else Some(r.unquote(part[at + 1..]))
  }

  lemma ValueOf(r: UrlRules, name: string, value: string)
    requires r.tokens(name) == name && FreeOf(name, {'='})
    ensures Value(r, name + ['='] + value)
         == if value == [] || r.denied(name) then None else Some(r.unquote(value))
  {
    var part := name + ['='] + value;
    UntilOf(name, ['='] + value, {'='});
    assert part == name + (['='] + value);
    assert part[..|name|] == name && part[|name| + 1..] == value;
  }

  lemma NoValue(r: UrlRules, name: string)
    requires FreeOf(name, {'='})
    ensures Value(r, name).None?
  {
    UntilOf(name, [], {'='});
    assert name + [] == name;
  }

  lemma CodingAt(r: UrlRules, x: string)
    requires LawfulUrl(r)
    ensures r.unquote(r.quote(x)) == x && (r.quote(x) == [] ==> x == [])
  {
  }

  /** The parameters of a redacted URL are the redacted parameters. */
  lemma PartsNext(r: UrlRules, url: string)
    requires LawfulUrl(r)
    ensures var parts, next := UrlParts(url), UrlParts(RedactUrlOnce(r, url));
            && |next| == |parts|
            && forall i :: 0 <= i < |parts| ==> next[i] == QueryPart(r, parts[i])
  {
    var p := SplitUrl(url);
    var q := RedactParts(r, p);
    JoinOfSplit(url);
    hide SplitUrl, JoinUrl, Split, RedactQuery, PathPass, RedactNetloc, LawfulUrl, WellFormedParts;
    RedactedPartsWellFormed(r, p);
    SplitOfJoin(q);
    if p.query.Some? {
      QueryPartsNext(r, p.query.value);
    }
  }

  lemma QueryPartsNext(r: UrlRules, query: string)
    requires LawfulUrl(r)
    ensures var parts, next := Split(query, '&'), Split(RedactQuery(r, query), '&');
            && |next| == |parts|
            && forall i :: 0 <= i < |parts| ==> next[i] == QueryPart(r, parts[i])
  {
    var parts := Split(query, '&');
    var f: Pass := part => QueryPart(r, part);
    if query == [] {
      EmptyPart(r);
      assert parts == [[]];
    } else {
      SplitPartsFree(query, '&');
      MapPassAt(parts, f);
      QueryOfPass(r, query, f);
      SplitSome(query, '&');
      hide Split, Join, MapPass, QueryPart, LawfulUrl, RedactQuery;
      forall i | 0 <= i < |parts|
        ensures '&' !in MapPass(parts, f)[i]
      {
        QueryPartKeepsFree(r, parts[i]);
      }
      SplitOfJoined(MapPass(parts, f), '&');
    }
  }

  lemma EmptyPart(r: UrlRules)
    requires LawfulUrl(r)
    ensures QueryPart(r, []) == []
  {
    assert r.tokens([]) == [];
    hide LawfulUrl;
  }

  // ----- What neither a token nor percent-encoding holds -----

  /** The characters of `p` separate tokens, and neither the token pass nor percent-encoding puts one in. */
  ghost predicate Apart(r: UrlRules, p: char -> bool) {
    && (forall x, c, y :: p(c) ==> r.tokens(x + [c] + y) == r.tokens(x) + [c] + r.tokens(y))
    && (forall x, c :: p(c) && c in r.tokens(x) ==> c in x)
    && (forall x, c :: p(c) ==> c !in r.quote(x))
  }

  predicate IsNul(c: char) {
    c == '\0'
  }

  /** No token holds white space or U+0000, and percent-encoding yields neither. */
  ghost predicate KeepsBlanks(r: UrlRules) {
    Apart(r, IsSpace) && Apart(r, IsNul)
  }

  lemma RunPassApart(p: char -> bool)
    requires forall c :: p(c) ==> !TokenChar(c) && c !in REDACTED
    ensures forall x, c, y :: p(c) ==> RunPass(x + [c] + y) == RunPass(x) + [c] + RunPass(y)
    ensures forall x, c :: p(c) && c in RunPass(x) ==> c in x
  {
    hide RunPass, TokenChar;
    forall x, c, y | p(c)
      ensures RunPass(x + [c] + y) == RunPass(x) + [c] + RunPass(y)
    {
      RunPassConcat(x + [c], y);
      RunPassConcat(x, [c]);
      OneCharacter(c);
    }
    forall x, c | p(c) && c in RunPass(x)
      ensures c in x
    {
      RunPassAddsNothing(x, c);
    }
  }

  lemma OneCharacter(c: char)
    requires !TokenChar(c)
    ensures RunPass([c]) == [c]
  {
    RunPassStep([c]);
    assert Piece([c]) == 1 && [c][..1] == [c] && [c][1..] == [];
    assert RunPass([]) == [];
  }

  /** With the run scanner as the token pass, that percent-encoding yields neither is all that is left to assume. */
  lemma RunPassKeepsBlanks(r: UrlRules)
    requires r.tokens == RunPass
    requires forall x, c :: IsSpace(c) || IsNul(c) ==> c !in r.quote(x)
    ensures KeepsBlanks(r)
  {
    hide RunPass;
    assert forall c :: IsSpace(c) || IsNul(c) ==> !TokenChar(c);
    assert forall i :: 0 <= i < |REDACTED| ==> !IsSpace(REDACTED[i]) && !IsNul(REDACTED[i]);
    hide TokenChar, IsSpace, IsNul;
    RunPassApart(IsSpace);
    RunPassApart(IsNul);
  }

  function Count(s: string, p: char -> bool): nat {
    if s == [] then 0 else (if p(s[0]) then 1 else 0) + Count(s[1..], p)
  }

  /** No character that redaction itself writes is one of `p`. */
  ghost predicate Inert(p: char -> bool) {
    Count(REDACTED, p) == 0 && forall c :: c in {'/', '?', '#', '&', '=', '@', ':'} ==> !p(c)
  }

  lemma SpaceIsInert()
    ensures Inert(IsSpace)
  {
    assert forall i :: 0 <= i < |REDACTED| ==> !IsSpace(REDACTED[i]);
    CountNone(REDACTED, IsSpace);
  }

  lemma NulIsInert()
    ensures Inert(IsNul)
  {
    assert forall i :: 0 <= i < |REDACTED| ==> !IsNul(REDACTED[i]);
    CountNone(REDACTED, IsNul);
  }

  lemma {:induction false} CountConcat(a: string, b: string, p: char -> bool)
    ensures Count(a + b, p) == Count(a, p) + Count(b, p)
  {
    if a == [] {
      assert a + b == b;
    } else {
      CountConcat(a[1..], b, p);
      assert (a + b)[1..] == a[1..] + b;
    }
  }

  lemma CountOne(c: char, p: char -> bool)
    ensures Count([c], p) == if p(c) then 1 else 0
  {
    assert [c][1..] == [] && Count([], p) == 0;
  }

  lemma {:induction false} CountNone(s: string, p: char -> bool)
    requires forall i :: 0 <= i < |s| ==> !p(s[i])
    ensures Count(s, p) == 0
  {
    if s != [] {
      CountNone(s[1..], p);
    }
  }

  lemma {:induction false} NoneCounted(s: string, p: char -> bool)
    requires Count(s, p) == 0
    ensures forall i :: 0 <= i < |s| ==> !p(s[i])
  {
    if s != [] {
      NoneCounted(s[1..], p);
      assert forall i :: 1 <= i < |s| ==> s[i] == s[1..][i - 1];
    }
  }

  lemma CountPrefix(s: string, k: nat, p: char -> bool)
    requires k <= |s|
    ensures Count(s[..k], p) <= Count(s, p)
  {
    CountConcat(s[..k], s[k..], p);
    assert s == s[..k] + s[k..];
  }

  // ----- Redaction adds none of them -----

  lemma {:induction false} CountTokens(r: UrlRules, p: char -> bool, x: string)
    requires Apart(r, p)
    ensures Count(r.tokens(x), p) <= Count(x, p)
    decreases |x|
  {
    if i :| 0 <= i < |x| && p(x[i]) {
      var a, b := x[..i], x[i + 1..];
      assert x == a + [x[i]] + b;
      CountTokens(r, p, a);
      CountTokens(r, p, b);
      hide Apart, Count;
      CountThree(a, x[i], b, p);
      CountThree(r.tokens(a), x[i], r.tokens(b), p);
    } else {
      assert forall i :: 0 <= i < |r.tokens(x)| ==> r.tokens(x)[i] in r.tokens(x);
      CountNone(r.tokens(x), p);
    }
  }

  lemma CountThree(a: string, c: char, b: string, p: char -> bool)
    ensures Count(a + [c] + b, p) == Count(a, p) + (if p(c) then 1 else 0) + Count(b, p)
  {
    CountConcat(a, [c], p);
    CountConcat(a + [c], b, p);
    CountOne(c, p);
  }

  lemma CountQuoted(r: UrlRules, p: char -> bool, x: string)
    requires Apart(r, p)
    ensures Count(r.quote(x), p) == 0
  {
    assert forall i :: 0 <= i < |r.quote(x)| ==> r.quote(x)[i] in r.quote(x);
    CountNone(r.quote(x), p);
  }

  /** A parameter without an equals sign is a name. */
  lemma NameOnly(r: UrlRules, part: string)
    requires Until(part, {'='}) == |part|
    ensures QueryPart(r, part) == r.tokens(part)
  {
    assert part[..|part|] == part;
    hide Until;
  }

  /** Any other is a name and a value, and so is what redaction makes of it. */
  lemma NameAndValue(r: UrlRules, part: string)
    requires Until(part, {'='}) < |part|
    ensures var at := Until(part, {'='});
            var name, value := part[..at], part[at + 1..];
            && part == name + ['='] + value
            && QueryPart(r, part) == r.tokens(name) + ['='] + ValuePass(r, r.tokens(name), value)
  {
    var at := Until(part, {'='});
    hide Until, ValuePass, QueryPart;
    QueryOfValue(r, part);
    SplitAt(part, at);
    assert part[at] == '=';
  }

  lemma QueryOfValue(r: UrlRules, part: string)
    requires Until(part, {'='}) < |part|
    ensures var at := Until(part, {'='});
            QueryPart(r, part) == r.tokens(part[..at]) + ['='] + ValuePass(r, r.tokens(part[..at]), part[at + 1..])
  {
    hide Until, ValuePass;
  }

  lemma SplitAt(s: string, at: nat)
    requires at < |s|
    ensures s == s[..at] + [s[at]] + s[at + 1..]
  {
  }

  lemma CountValue(r: UrlRules, p: char -> bool, name: string, value: string)
    requires Apart(r, p) && Inert(p)
    ensures Count(ValuePass(r, name, value), p) <= Count(value, p)
  {
    CountQuoted(r, p, r.textPass(r.unquote(value)));
    hide Apart;
  }

  lemma CountPart(r: UrlRules, p: char -> bool, part: string)
    requires Apart(r, p) && Inert(p)
    ensures Count(QueryPart(r, part), p) <= Count(part, p)
  {
    hide Until, QueryPart, ValuePass, Apart, Count;
    var at := Until(part, {'='});
    var name := part[..at];
    CountTokens(r, p, name);
    if at == |part| {
      NameOnly(r, part);
      assert name == part;
    } else {
      NameAndValue(r, part);
      var value := part[at + 1..];
      CountValue(r, p, r.tokens(name), value);
      CountThree(name, '=', value, p);
      CountThree(r.tokens(name), '=', ValuePass(r, r.tokens(name), value), p);
    }
  }

  function Counts(parts: seq<string>, p: char -> bool): nat {
    if parts == [] then 0 else Count(parts[0], p) + Counts(parts[1..], p)
  }

  lemma {:induction false} CountJoin(parts: seq<string>, sep: char, p: char -> bool)
    requires !p(sep)
    ensures Count(Join(parts, sep), p) == Counts(parts, p)
  {
    hide Count;
    if parts == [] {
      CountNone([], p);
    } else if |parts| == 1 {
      assert parts[1..] == [];
    } else {
      CountJoin(parts[1..], sep, p);
      CountThree(parts[0], sep, Join(parts[1..], sep), p);
    }
  }

  lemma {:induction false} CountsMapped(parts: seq<string>, f: Pass, p: char -> bool)
    requires forall x :: Count(f(x), p) <= Count(x, p)
    ensures Counts(MapPass(parts, f), p) <= Counts(parts, p)
  {
    hide Count;
    if parts != [] {
      CountsMapped(parts[1..], f, p);
    }
  }

  lemma CountMapped(s: string, sep: char, f: Pass, p: char -> bool)
    requires !p(sep) && forall x :: Count(f(x), p) <= Count(x, p)
    ensures Count(Join(MapPass(Split(s, sep), f), sep), p) <= Count(s, p)
  {
    hide Count, Counts, Join, Split, MapPass;
    JoinSplit(s, sep);
    CountJoin(Split(s, sep), sep, p);
    CountJoin(MapPass(Split(s, sep), f), sep, p);
    CountsMapped(Split(s, sep), f, p);
  }

  lemma CountNetloc(p: char -> bool, netloc: string)
    requires Inert(p)
    ensures Count(RedactNetloc(netloc), p) <= Count(netloc, p)
  {
    if '@' in netloc {
      var at := LastAt(netloc);
      var userinfo, host := netloc[..at], netloc[at + 1..];
      hide Count, LastAt;
      assert netloc == userinfo + ['@'] + host;
      CountThree(userinfo, '@', host, p);
      CountThree(REDACTED, '@', host, p);
      if ':' in userinfo {
        var user := userinfo[..IndexOf(userinfo, ':')];
        CountPrefix(userinfo, |user|, p);
        CountThree(user, ':', REDACTED, p);
        CountThree(user + [':'] + REDACTED, '@', host, p);
      }
    }
  }

  lemma CountUrlParts(p: char -> bool, u: Parts)
    requires Inert(p)
    ensures Count(JoinUrl(u), p)
         == (if u.scheme.Some? then Count(u.scheme.value, p) else 0)
            + (if u.netloc.Some? then Count(u.netloc.value, p) else 0)
            + Count(u.path, p) + (if u.query.Some? then Count(u.query.value, p) else 0)
  {
    hide Count;
    var s, n, q := SchemeText(u.scheme), NetlocText(u.netloc), QueryText(u.query);
    CountNone([], p);
    CountOne(':', p);
    CountOne('?', p);
    CountNone(['/', '/'], p);
    if u.scheme.Some? {
      CountConcat(u.scheme.value, [':'], p);
    }
    if u.netloc.Some? {
      CountConcat(['/', '/'], u.netloc.value, p);
    }
    if u.query.Some? {
      CountConcat(['?'], u.query.value, p);
    }
    CountConcat(u.path, q, p);
    CountConcat(n, u.path + q, p);
    CountConcat(s, n + (u.path + q), p);
  }

  lemma CountQuery(r: UrlRules, p: char -> bool, query: string)
    requires Apart(r, p) && Inert(p)
    ensures Count(RedactQuery(r, query), p) <= Count(query, p)
  {
    var f: Pass := part => QueryPart(r, part);
    hide Count, Apart, QueryPart, Split, Join, MapPass;
    forall part
      ensures Count(f(part), p) <= Count(part, p)
    {
      CountPart(r, p, part);
    }
    QueryOfPass(r, query, f);
    CountMapped(query, '&', f, p);
  }

  /** Redacting a URL makes no more of them. */
  lemma CountUrl(r: UrlRules, p: char -> bool, url: string)
    requires Apart(r, p) && Inert(p)
    ensures Count(RedactUrlOnce(r, url), p) <= Count(url, p)
  {
    hide Count, Apart, SplitUrl, JoinUrl, RedactQuery, RedactNetloc, Split, Join, MapPass;
    var u := SplitUrl(url);
    JoinOfSplit(url);
    CountPrefix(url, Until(url, {'#'}), p);
    CountUrlParts(p, u);
    CountUrlParts(p, RedactParts(r, u));
    forall x
      ensures Count(r.tokens(x), p) <= Count(x, p)
    {
      CountTokens(r, p, x);
    }
    CountMapped(u.path, '/', r.tokens, p);
    if u.netloc.Some? {
      CountNetloc(p, u.netloc.value);
    }
    if u.query.Some? {
      CountQuery(r, p, u.query.value);
    }
  }

  lemma {:induction false} CountLoop(r: UrlRules, p: char -> bool, url: string, n: nat)
    requires Apart(r, p) && Inert(p)
    ensures Count(Iterate(UrlStep(r), UrlCut(), url, n), p) <= Count(url, p)
    decreases n
  {
    hide Count, Apart, RedactUrlOnce;
    if n > 0 {
      var once := RedactUrlOnce(r, url);
      CountUrl(r, p, url);
      if |once| > URL_MAX {
        CountPrefix(once, URL_MAX, p);
      }
      CountLoop(r, p, Take(once, URL_MAX), n - 1);
    }
  }

  // ----- Stripping -----

  predicate Starts(s: string) {
    s != [] && IsSpace(s[0])
  }

  predicate Ends(s: string) {
    s != [] && IsSpace(s[|s| - 1])
  }

  lemma StripParts(s: string) returns (a: string, b: string)
    ensures s == a + Strip(s) + b && Blank(a) && Blank(b)
    ensures !Starts(Strip(s)) && !Ends(Strip(s))
  {
    hide TrimLeft, TrimRight, IsSpace, Blank;
    var t := TrimLeft(s, IsSpace);
    var u := TrimRight(t, IsSpace);
    TrimLeftKeeps(s, IsSpace);
    TrimRightKeeps(t, IsSpace);
    TrimLeftDropped(s, IsSpace);
    BlankBegin(s, |s| - |t|);
    BlankEnd(t, |u|);
    a, b := s[..|s| - |t|], t[|u|..];
    assert s == a + t;
    assert t == u + b;
    assert u != [] ==> u[0] == t[0];
  }

  lemma BlankBegin(s: string, n: nat)
    requires n <= |s| && forall i :: 0 <= i < n ==> IsSpace(s[i])
    ensures Blank(s[..n])
  {
    hide IsSpace;
  }

  lemma BlankEnd(s: string, n: nat)
    requires n <= |s| && forall i :: n <= i < |s| ==> IsSpace(s[i])
    ensures Blank(s[n..])
  {
    hide IsSpace;
  }

  lemma StripShape(s: string) returns (a: string, b: string)
    ensures s == a + Strip(s) + b && Blank(a) && Blank(b)
    ensures !Starts(Strip(s)) && !Ends(Strip(s))
    ensures !Starts(s) && !Ends(s) ==> Strip(s) == s
  {
    a, b := StripParts(s);
    BlankEdges(a, Strip(s), b);
    hide Strip, Starts, Ends;
    assert a == [] && b == [] ==> s == Strip(s);
  }

  lemma BlankEdges(a: string, s: string, b: string)
    requires Blank(a) && Blank(b)
    ensures (a != [] ==> Starts(a + s + b)) && (b != [] ==> Ends(a + s + b))
  {
    hide IsSpace;
  }

  lemma StripStaysIff(s: string)
    ensures Strip(s) == s <==> !Starts(s) && !Ends(s)
  {
    var a, b := StripShape(s);
    hide Strip;
  }

  /** Stripping takes white space away, if it takes anything. */
  lemma StripCount(s: string)
    ensures Strip(s) != s ==> Count(Strip(s), IsSpace) < Count(s, IsSpace)
  {
    var a, b := StripShape(s);
    hide Strip, Count;
    CountConcat(a, Strip(s), IsSpace);
    CountConcat(a + Strip(s), b, IsSpace);
    BlankCount(a);
    BlankCount(b);
    assert a == [] && b == [] ==> s == Strip(s);
  }

  lemma {:induction false} BlankCount(s: string)
    requires Blank(s)
    ensures Count(s, IsSpace) == |s|
  {
    hide IsSpace;
    if s != [] {
      BlankCount(s[1..]);
    }
  }

  lemma NulCount(s: string)
    ensures NulFree(s) <==> Count(s, IsNul) == 0
  {
    hide Count;
    if NulFree(s) {
      CountNone(s, IsNul);
    }
    if Count(s, IsNul) == 0 {
      NoneCounted(s, IsNul);
    }
  }

  /** Storing a stored URL again leaves it alone exactly when the loop does and there is nothing to strip: white
      space once stripped does not come back. */
  lemma StoredAgainIff(r: UrlRules, url: string)
    requires KeepsBlanks(r)
    ensures var stored := RedactUrl(r, url);
            RedactUrl(r, stored) == stored
            <==> Settled(UrlStep(r), UrlCut(), stored) == stored && Strip(stored) == stored
  {
    var text, stored := Strip(Clean(url)), RedactUrl(r, url);
    CleanIsNulFree(url);
    var a, b := StripShape(Clean(url));
    NulFreeMiddle(a, text, b);
    hide Clean, NulFree, Strip, Apart, Count, Inert, Iterate;
    SpaceIsInert();
    NulIsInert();
    NulCount(text);
    NulCount(stored);
    CountLoop(r, IsNul, text, ROUNDS);
    CleanIsNulFree(stored);
    StripCount(stored);
    CountLoop(r, IsSpace, Strip(stored), ROUNDS);
  }

  lemma NulFreeMiddle(a: string, s: string, b: string)
    requires NulFree(a + s + b)
    ensures NulFree(s)
  {
    assert forall i :: 0 <= i < |s| ==> s[i] == (a + s + b)[|a| + i];
  }

  // ----- Where the white space at the ends comes from -----

  lemma LastBlank(s: string) returns (i: nat)
    ensures i <= |s| && (i > 0 ==> IsSpace(s[i - 1])) && forall j :: i <= j < |s| ==> !IsSpace(s[j])
  {
    hide IsSpace;
    i := |s|;
    while i > 0 && !IsSpace(s[i - 1])
      invariant i <= |s| && forall j :: i <= j < |s| ==> !IsSpace(s[j])
    {
      i := i - 1;
    }
  }

  lemma FirstBlank(s: string) returns (i: nat)
    ensures i <= |s| && (i < |s| ==> IsSpace(s[i])) && forall j :: 0 <= j < i ==> !IsSpace(s[j])
  {
    hide IsSpace;
    i := 0;
    while i < |s| && !IsSpace(s[i])
      invariant i <= |s| && forall j :: 0 <= j < i ==> !IsSpace(s[j])
    {
      i := i + 1;
    }
  }

  lemma TokensApart(r: UrlRules, a: string, c: char, b: string)
    requires KeepsBlanks(r) && IsSpace(c)
    ensures r.tokens(a + [c] + b) == r.tokens(a) + [c] + r.tokens(b)
  {
  }

  /** A text without white space stays one, and is not emptied. */
  lemma TokensUnblanked(r: UrlRules, s: string)
    requires LawfulUrl(r) && KeepsBlanks(r) && forall i :: 0 <= i < |s| ==> !IsSpace(s[i])
    ensures !Starts(r.tokens(s)) && !Ends(r.tokens(s)) && (r.tokens(s) == [] <==> s == [])
  {
    var t := r.tokens(s);
    TokensAt(r, s);
    forall i | 0 <= i < |t|
      ensures !IsSpace(t[i])
    {
      assert t[i] in t;
    }
    hide LawfulUrl, KeepsBlanks, IsSpace;
  }

  /** The token pass keeps white space at the end, and adds none at either end. */
  lemma TokensEnd(r: UrlRules, s: string)
    requires LawfulUrl(r) && KeepsBlanks(r)
    ensures Ends(r.tokens(s)) <==> Ends(s)
  {
    hide LawfulUrl, KeepsBlanks, IsSpace;
    var i := LastBlank(s);
    TokensUnblanked(r, s[i..]);
    if i == 0 {
      assert s[0..] == s;
    } else {
      assert s == s[..i - 1] + [s[i - 1]] + s[i..];
      TokensApart(r, s[..i - 1], s[i - 1], s[i..]);
    }
  }

  lemma TokensStart(r: UrlRules, s: string)
    requires LawfulUrl(r) && KeepsBlanks(r)
    ensures Starts(r.tokens(s)) ==> Starts(s)
  {
    hide LawfulUrl, KeepsBlanks, IsSpace;
    var i := FirstBlank(s);
    TokensUnblanked(r, s[..i]);
    if i == |s| {
      assert s[..i] == s;
    } else if i > 0 {
      assert s == s[..i] + [s[i]] + s[i + 1..];
      TokensApart(r, s[..i], s[i], s[i + 1..]);
      var t := r.tokens(s[..i]);
      assert t != [] && (t + [s[i]] + r.tokens(s[i + 1..]))[0] == t[0];
    }
  }

  lemma EndsBehind(a: string, c: char, b: string)
    requires !IsSpace(c)
    ensures Ends(a + [c] + b) <==> Ends(b)
  {
  }

  lemma {:induction false} PathEnd(r: UrlRules, path: string)
    requires LawfulUrl(r) && KeepsBlanks(r)
    ensures Ends(PathPass(r, path)) <==> Ends(path)
    decreases |path|
  {
    hide LawfulUrl, KeepsBlanks, PathPass, Ends;
    PathPassStep(r, path);
    if '/' !in path {
      TokensEnd(r, path);
    } else {
      var i := IndexOf(path, '/');
      var first, rest := path[..i], path[i + 1..];
      PathEnd(r, rest);
      EndsBehind(r.tokens(first), '/', PathPass(r, rest));
      EndsBehind(first, '/', rest);
      assert path == first + ['/'] + rest;
    }
  }

  lemma PathStart(r: UrlRules, path: string)
    requires LawfulUrl(r) && KeepsBlanks(r) && Starts(PathPass(r, path))
    ensures Starts(path)
  {
    hide LawfulUrl, KeepsBlanks, PathPass;
    PathPassStep(r, path);
    if '/' !in path {
      TokensStart(r, path);
    } else {
      var first := path[..IndexOf(path, '/')];
      TokensAt(r, first);
      if first != [] {
        assert PathPass(r, path)[0] == r.tokens(first)[0];
        TokensStart(r, first);
      }
    }
  }

  lemma NetlocEnd(netloc: string)
    ensures Ends(RedactNetloc(netloc)) <==> Ends(netloc)
  {
    if '@' in netloc {
      var at := LastAt(netloc);
      var userinfo, host := netloc[..at], netloc[at + 1..];
      hide LastAt;
      assert netloc == userinfo + ['@'] + host;
      hide Ends;
      EndsBehind(userinfo, '@', host);
      EndsBehind(REDACTED, '@', host);
      if ':' in userinfo {
        EndsBehind(userinfo[..IndexOf(userinfo, ':')] + [':'] + REDACTED, '@', host);
      }
    }
  }

  /** The text rules leave what the parameter ends in alone: its name, or a value they see and do not change. */
  predicate LastKept(r: UrlRules, part: string) {
    || Until(part, {'='}) == |part|
    || (Value(r, part).Some? && r.textPass(Value(r, part).value) == Value(r, part).value)
  }

  lemma QuotedEnd(r: UrlRules, x: string)
    requires KeepsBlanks(r)
    ensures !Ends(r.quote(x))
  {
    assert r.quote(x) != [] ==> r.quote(x)[|r.quote(x)| - 1] in r.quote(x);
  }

  lemma PartEnd(r: UrlRules, part: string)
    requires LawfulUrl(r) && KeepsBlanks(r)
    ensures Ends(QueryPart(r, part)) <==> Ends(part) && LastKept(r, part)
  {
    hide Until, QueryPart, ValuePass, LawfulUrl, KeepsBlanks, Ends;
    var at := Until(part, {'='});
    var name := part[..at];
    if at == |part| {
      NameOnly(r, part);
      TokensEnd(r, part);
    } else {
      NameAndValue(r, part);
      var value := part[at + 1..];
      ValueEnd(r, r.tokens(name), value);
      EndsBehind(name, '=', value);
      EndsBehind(r.tokens(name), '=', ValuePass(r, r.tokens(name), value));
    }
  }

  lemma ValueEnd(r: UrlRules, name: string, value: string)
    requires KeepsBlanks(r)
    ensures Ends(ValuePass(r, name, value))
            <==> && Ends(value) && value != [] && !r.denied(name)
                 && r.textPass(r.unquote(value)) == r.unquote(value)
  {
    QuotedEnd(r, r.textPass(r.unquote(value)));
    assert !Ends(REDACTED);
    hide KeepsBlanks, IsSpace;
  }

  lemma PartStaysKept(r: UrlRules, part: string)
    requires LawfulUrl(r) && LastKept(r, part)
    ensures LastKept(r, QueryPart(r, part))
  {
    var at := Until(part, {'='});
    NameFree(r, part[..at]);
    var name := r.tokens(part[..at]);
    if at == |part| {
      UntilOf(name, [], {'='});
      assert name + [] == name;
    } else {
      var value := part[at + 1..];
      hide LawfulUrl;
      assert QueryPart(r, part) == name + ['='] + value;
      ValueOf(r, name, value);
    }
  }

  function Last(parts: seq<string>): string
    requires parts != []
  {
    parts[|parts| - 1]
  }

  /** The last part of a text is its end: behind the last separator, or all of it. */
  lemma {:induction false} LastOfJoin(parts: seq<string>, sep: char) returns (before: string)
    requires parts != []
    ensures |parts| == 1 ==> Join(parts, sep) == Last(parts)
    ensures |parts| > 1 ==> Join(parts, sep) == before + [sep] + Last(parts)
  {
    before := [];
    if |parts| > 1 {
      var rest := parts[1..];
      var between := LastOfJoin(rest, sep);
      assert Last(rest) == Last(parts);
      if |rest| == 1 {
        before := parts[0];
      } else {
        before := parts[0] + [sep] + between;
        hide Join;
        assert parts[0] + [sep] + (between + [sep] + Last(parts)) == before + [sep] + Last(parts);
      }
    }
  }

  lemma SplitEnd(s: string, sep: char)
    requires !IsSpace(sep)
    ensures Ends(s) <==> Ends(Last(Split(s, sep)))
  {
    hide Split, Join, IsSpace, Ends;
    JoinSplit(s, sep);
    var parts := Split(s, sep);
    var before := LastOfJoin(parts, sep);
    if |parts| > 1 {
      EndsBehind(before, sep, Last(parts));
    }
  }

  /** White space at the end of what stands before the fragment, unless it is in a query value that is replaced. */
  predicate EndsBlank(r: UrlRules, url: string) {
    && Ends(url[..Until(url, {'#'})])
    && (UrlParts(url) != [] ==> LastKept(r, Last(UrlParts(url))))
  }

  lemma QueryEnd(r: UrlRules, query: string)
    requires LawfulUrl(r) && KeepsBlanks(r)
    ensures Ends(RedactQuery(r, query)) <==> Ends(query) && LastKept(r, Last(Split(query, '&')))
  {
    hide LawfulUrl, KeepsBlanks, RedactQuery, Split, QueryPart, LastKept, Ends;
    QueryPartsNext(r, query);
    SplitEnd(query, '&');
    SplitEnd(RedactQuery(r, query), '&');
    PartEnd(r, Last(Split(query, '&')));
  }

  /** What the end of a URL is the end of. */
  lemma PartsEnd(u: Parts)
    ensures Ends(JoinUrl(u)) <==>
              match u.query
              case Some(query) => Ends(query)
              case None => if u.path != [] then Ends(u.path) else u.netloc.Some? && Ends(u.netloc.value)
  {
    var s, n := SchemeText(u.scheme), NetlocText(u.netloc);
    if u.query.Some? {
      var q := u.query.value;
      assert JoinUrl(u) == s + n + u.path + ['?'] + q;
      EndsBehind(s + n + u.path, '?', q);
    } else if u.path != [] {
      assert JoinUrl(u) == s + n + u.path;
    } else if u.netloc.Some? {
      assert JoinUrl(u) == s + ['/'] + ['/'] + u.netloc.value;
      EndsBehind(s + ['/'], '/', u.netloc.value);
    } else {
      assert JoinUrl(u) == s;
    }
  }

  lemma PartsStart(u: Parts)
    ensures Starts(JoinUrl(u)) && WellFormedParts(u) ==> u.scheme.None? && u.netloc.None? && Starts(u.path)
    ensures u.scheme.None? && u.netloc.None? && Starts(u.path) ==> Starts(JoinUrl(u))
  {
    var all := JoinUrl(u);
    if u.scheme.Some? && u.scheme.value != [] {
      assert all[0] == u.scheme.value[0];
    } else if u.scheme.None? && u.netloc.Some? {
      assert all[0] == '/';
    } else if u.scheme.None? && u.path != [] {
      assert all[0] == u.path[0];
    }
  }

  lemma PathEmpty(r: UrlRules, path: string)
    requires LawfulUrl(r) && FreeOf(path, {'?', '#'})
    ensures PathPass(r, path) == [] <==> path == []
  {
    PathPassShape(r, path);
  }

  /** A redacted URL ends in white space exactly when this one does where redaction keeps it. */
  lemma OnceEnd(r: UrlRules, url: string)
    requires LawfulUrl(r) && KeepsBlanks(r)
    ensures Ends(RedactUrlOnce(r, url)) <==> EndsBlank(r, url)
  {
    hide LawfulUrl, KeepsBlanks, SplitUrl, JoinUrl, RedactQuery, RedactNetloc, PathPass, Split, Ends, LastKept;
    var u := SplitUrl(url);
    JoinOfSplit(url);
    PartsEnd(u);
    PartsEnd(RedactParts(r, u));
    PathEnd(r, u.path);
    PathEmpty(r, u.path);
    if u.netloc.Some? {
      NetlocEnd(u.netloc.value);
    }
    if u.query.Some? {
      QueryEnd(r, u.query.value);
    }
  }

  lemma OnceStart(r: UrlRules, url: string)
    requires LawfulUrl(r) && KeepsBlanks(r) && Starts(RedactUrlOnce(r, url))
    ensures Starts(url)
  {
    hide LawfulUrl, KeepsBlanks, SplitUrl, JoinUrl, RedactQuery, RedactNetloc, PathPass, Starts, WellFormedParts;
    var u := SplitUrl(url);
    JoinOfSplit(url);
    RedactedPartsWellFormed(r, u);
    PartsStart(RedactParts(r, u));
    PathStart(r, u.path);
    PartsStart(u);
    StartOfPrefix(url, Until(url, {'#'}));
  }

  lemma StartOfPrefix(s: string, k: nat)
    requires k <= |s| && Starts(s[..k])
    ensures Starts(s)
  {
  }

  /** A redacted URL holds no fragment: what it is, is what stands before it. */
  lemma OnceUnfragmented(r: UrlRules, url: string)
    requires LawfulUrl(r)
    ensures var once := RedactUrlOnce(r, url); once[..Until(once, {'#'})] == once
  {
    var u := SplitUrl(url);
    JoinOfSplit(url);
    hide LawfulUrl, SplitUrl, JoinUrl, WellFormedParts, RedactQuery, RedactNetloc, PathPass;
    RedactedPartsWellFormed(r, u);
    SplitOfJoin(RedactParts(r, u));
    JoinOfSplit(RedactUrlOnce(r, url));
  }

  lemma EndsBlankNext(r: UrlRules, url: string)
    requires LawfulUrl(r) && KeepsBlanks(r)
    ensures EndsBlank(r, RedactUrlOnce(r, url)) <==> EndsBlank(r, url)
  {
    hide LawfulUrl, KeepsBlanks, RedactUrlOnce, UrlParts, LastKept, Ends, QueryPart;
    OnceEnd(r, url);
    OnceUnfragmented(r, url);
    PartsNext(r, url);
    if EndsBlank(r, url) && UrlParts(url) != [] {
      PartStaysKept(r, Last(UrlParts(url)));
    }
  }
}
