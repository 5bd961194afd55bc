/**
 URL redaction: the split of appendix B of RFC 3986, the credentials in the authority, the query values, the
 token-shaped path segments. Percent-coding, the text rules and the denied-name test are parameters; `LawfulUrl`
 states what is assumed of them.
 */
module UrlRedaction {
  import opened Options
  import opened Text
  import opened Settle
  import opened JsonRedaction

  const URL_MAX: nat := 2048

  datatype Parts = Parts(scheme: Option<string>, netloc: Option<string>, path: string, query: Option<string>)

  predicate SchemeStart(c: char) {
    'A' <= c <= 'Z' || 'a' <= c <= 'z'
  }

  predicate SchemeChar(c: char) {
    SchemeStart(c) || IsDigit(c) || c in {'+', '.', '-'}
  }

  /** The number of leading characters outside `stops`. */
  function Until(s: string, stops: set<char>): (n: nat)
    ensures n <= |s| && (forall i :: 0 <= i < n ==> s[i] !in stops) && (n < |s| ==> s[n] in stops)
  {
    if s == [] || s[0] in stops then 0 else 1 + Until(s[1..], stops)
  }

  function SchemeLength(s: string): (n: nat)
    ensures n <= |s| && (forall i :: 0 <= i < n ==> SchemeChar(s[i])) && (n < |s| ==> !SchemeChar(s[n]))
  {
    if s == [] || !SchemeChar(s[0]) then 0 else 1 + SchemeLength(s[1..])
  }

  /** A scheme: a letter, then scheme characters, up to a colon. */
  predicate HasScheme(s: string) {
    s != [] && SchemeStart(s[0]) && SchemeLength(s) < |s| && s[SchemeLength(s)] == ':'
  }

  predicate HasNetloc(s: string) {
    |s| >= 2 && s[0] == '/' && s[1] == '/'
  }

  function SplitScheme(url: string): (Option<string>, string) {
    if HasScheme(url) then (Some(url[..SchemeLength(url)]), url[SchemeLength(url) + 1..]) else (None, url)
  }

  function SplitNetloc(rest: string): (Option<string>, string) {
    if HasNetloc(rest) then
      var k := Until(rest[2..], {'/', '?', '#'});
      (Some(rest[2..][..k]), rest[2..][k..])
    else (None, rest)
  }

  function SplitQuery(tail: string): (string, Option<string>) {
    var p := Until(tail, {'?', '#'});
    var after := tail[p..];
    (tail[..p], if after != [] && after[0] == '?' then Some(after[1..][..Until(after[1..], {'#'})]) else None)
  }

  /** `(scheme, netloc, path, query)`; never fails, and the fragment is dropped. */
  function SplitUrl(url: string): Parts {
    var (scheme, rest) := SplitScheme(url);
    var (netloc, tail) := SplitNetloc(rest);
    var (path, query) := SplitQuery(tail);
    Parts(scheme, netloc, path, query)
  }

  function SchemeText(scheme: Option<string>): string {
    match scheme case None => [] case Some(s) => s + [':']
  }

  function NetlocText(netloc: Option<string>): string {
    match netloc case None => [] case Some(n) => ['/', '/'] + n
  }

  function QueryText(query: Option<string>): string {
    match query case None => [] case Some(q) => ['?'] + q
  }

  function JoinUrl(p: Parts): string {
    SchemeText(p.scheme) + (NetlocText(p.netloc) + (p.path + QueryText(p.query)))
  }

  lemma {:induction false} UntilOf(a: string, b: string, stops: set<char>)
    requires FreeOf(a, stops) && (b == [] || b[0] in stops)
    ensures Until(a + b, stops) == |a|
  {
    if a == [] {
      assert a + b == b;
    } else {
      UntilOf(a[1..], b, stops);
      assert (a + b)[1..] == a[1..] + b;
    }
  }

  lemma {:induction false} SchemeLengthOf(a: string, b: string)
    requires (forall i :: 0 <= i < |a| ==> SchemeChar(a[i])) && (b == [] || !SchemeChar(b[0]))
    ensures SchemeLength(a + b) == |a|
  {
    if a == [] {
      assert a + b == b;
    } else {
      SchemeLengthOf(a[1..], b);
      assert (a + b)[1..] == a[1..] + b;
    }
  }

  // ----- Splitting and joining -----

  predicate SchemeOk(scheme: string) {
    scheme != [] && SchemeStart(scheme[0]) && forall i :: 0 <= i < |scheme| ==> SchemeChar(scheme[i])
  }

  /** ASCII letters by their codes. */
  predicate Alphabetic(c: char) {
    0x41 <= c as int <= 0x5A || 0x61 <= c as int <= 0x7A
  }

  /** A scheme as section 3.1 of RFC 3986 spells it: a letter, then letters, digits, plus, hyphen and period. */
  predicate SchemeSpelled(s: string) {
    && s != [] && Alphabetic(s[0])
    && forall i :: 0 <= i < |s| ==> Alphabetic(s[i]) || 0x30 <= s[i] as int <= 0x39 || s[i] as int in {0x2B, 0x2D, 0x2E}
  }

  /** The scheme of a URL is what is so spelled before its colon. */
  lemma SchemeIff(url: string, s: string)
    ensures SplitUrl(url).scheme == Some(s) <==> SchemeSpelled(s) && s + ":" <= url
  {
    assert SchemeSpelled(s) <==> SchemeOk(s);
    hide SchemeChar, SchemeStart, SplitNetloc, SplitQuery, SchemeSpelled, SchemeLength;
    if SchemeOk(s) && s + ":" <= url {
      assert url == s + (":" + url[|s| + 1..]);
      ColonEndsScheme();
      SchemeLengthOf(s, ":" + url[|s| + 1..]);
    }
  }

  lemma ColonEndsScheme()
    ensures !SchemeChar(':')
  {
  }

  /** The parts a URL can have: exactly those that split back into themselves. */
  ghost predicate WellFormedParts(p: Parts) {
    && (p.scheme.Some? ==> SchemeOk(p.scheme.value))
    && (p.netloc.Some? ==> FreeOf(p.netloc.value, {'/', '?', '#'}) && (p.path == [] || p.path[0] == '/'))
    && FreeOf(p.path, {'?', '#'})
    && (p.query.Some? ==> FreeOf(p.query.value, {'#'}))
    && (p.netloc.None? ==> !HasNetloc(p.path))
    && (p.scheme.None? && p.netloc.None? ==> !HasScheme(p.path))
  }

  lemma SplitQueryOf(path: string, query: Option<string>)
    requires FreeOf(path, {'?', '#'}) && (query.Some? ==> FreeOf(query.value, {'#'}))
    ensures SplitQuery(path + QueryText(query)) == (path, query)
  {
    UntilOf(path, QueryText(query), {'?', '#'});
    if query.Some? {
      UntilOf(query.value, [], {'#'});
      assert query.value + [] == query.value;
      assert (['?'] + query.value)[1..] == query.value;
    }
  }

  lemma SplitNetlocOf(netloc: Option<string>, tail: string)
    requires netloc.Some? ==> FreeOf(netloc.value, {'/', '?', '#'}) && (tail == [] || tail[0] in {'/', '?', '#'})
    requires netloc.None? ==> !HasNetloc(tail)
    ensures SplitNetloc(NetlocText(netloc) + tail) == (netloc, tail)
  {
    match netloc {
      case None => assert [] + tail == tail;
      case Some(n) =>
        UntilOf(n, tail, {'/', '?', '#'});
        assert (['/', '/'] + n + tail)[2..] == n + tail;
    }
  }

  lemma SplitSchemeOf(scheme: Option<string>, rest: string)
    requires scheme.Some? ==> SchemeOk(scheme.value)
    requires scheme.None? ==> !HasScheme(rest)
    ensures SplitScheme(SchemeText(scheme) + rest) == (scheme, rest)
  {
    match scheme {
      case None => assert [] + rest == rest;
      case Some(s) =>
        SchemeLengthOf(s, [':'] + rest);
        assert s + [':'] + rest == s + ([':'] + rest);
    }
  }

  /** Well-formed parts, joined and split again, are the same parts. */
  lemma SplitOfJoin(p: Parts)
    requires WellFormedParts(p)
    ensures SplitUrl(JoinUrl(p)) == p
  {
    var tail := p.path + QueryText(p.query);
    SplitQueryOf(p.path, p.query);
    assert p.netloc.None? && HasNetloc(tail) ==> HasNetloc(p.path);
    SplitNetlocOf(p.netloc, tail);
    var rest := NetlocText(p.netloc) + tail;
    if p.scheme.None? && HasScheme(rest) {
      NoSchemeInRest(p);
    }
    SplitSchemeOf(p.scheme, rest);
  }

  /** A path without a scheme does not gain one from the query behind it. */
  lemma NoSchemeInRest(p: Parts)
    requires WellFormedParts(p) && p.scheme.None?
    ensures !HasScheme(NetlocText(p.netloc) + (p.path + QueryText(p.query)))
  {
    var rest := NetlocText(p.netloc) + (p.path + QueryText(p.query));
    if p.netloc.None? && HasScheme(rest) {
      assert rest == p.path + QueryText(p.query);
      SchemeWithin(p.path, QueryText(p.query));
    }
  }

  lemma SchemeWithin(path: string, more: string)
    requires HasScheme(path + more) && (more == [] || (!SchemeChar(more[0]) && more[0] != ':'))
    ensures HasScheme(path)
  {
    var s := path + more;
    var n := SchemeLength(s);
    assert more != [] ==> s[|path|] == more[0];
    assert n < |path|;
    assert path == s[..n] + path[n..];
    SchemeLengthOf(s[..n], path[n..]);
  }

  lemma SplitIsWellFormed(url: string)
    ensures WellFormedParts(SplitUrl(url))
  {
    var (scheme, rest) := SplitScheme(url);
    var (netloc, tail) := SplitNetloc(rest);
    var (path, query) := SplitQuery(tail);
    SplitSchemeParts(url);
    SplitNetlocParts(rest);
    SplitQueryParts(tail);
    hide SplitScheme, SplitNetloc, SplitQuery, HasScheme, SchemeText, NetlocText, QueryText, SchemeOk;
    SchemeBeyond(path, tail[|path|..]);
    assert tail == path + tail[|path|..];
  }

  /** Splitting a URL gives well-formed parts, and joining them gives the URL without its fragment. */
  lemma JoinOfSplit(url: string)
    ensures WellFormedParts(SplitUrl(url))
    ensures JoinUrl(SplitUrl(url)) == url[..Until(url, {'#'})]
  {
    var (scheme, rest) := SplitScheme(url);
    var (netloc, tail) := SplitNetloc(rest);
    var (path, query) := SplitQuery(tail);
    SplitIsWellFormed(url);
    SplitSchemeParts(url);
    SplitNetlocParts(rest);
    SplitQueryParts(tail);
    hide SplitScheme, SplitNetloc, SplitQuery, Until, HasScheme, SchemeText, NetlocText, QueryText, WellFormedParts;
    var kept := path + QueryText(query);
    Rejoined(url, SchemeText(scheme), rest, NetlocText(netloc), tail, kept);
  }

  lemma Rejoined(url: string, a: string, rest: string, b: string, tail: string, kept: string)
    requires url == a + rest && rest == b + tail && kept <= tail
    requires FreeOf(a, {'#'}) && FreeOf(b, {'#'}) && FreeOf(kept, {'#'}) && (kept == tail || tail[|kept|] == '#')
    ensures a + (b + kept) == url[..Until(url, {'#'})]
  {
    var fragment := tail[|kept|..];
    assert a + (b + kept) == a + b + kept;
    assert url == a + b + kept + fragment;
    FragmentOf(a + b, kept, fragment);
  }

  lemma SchemeBeyond(path: string, more: string)
    ensures HasScheme(path) ==> HasScheme(path + more)
  {
    if HasScheme(path) {
      var n := SchemeLength(path);
      assert path + more == path[..n] + (path[n..] + more);
      SchemeLengthOf(path[..n], path[n..] + more);
    }
  }

  lemma SplitSchemeParts(url: string)
    ensures var (scheme, rest) := SplitScheme(url);
            && url == SchemeText(scheme) + rest && (scheme.Some? ==> SchemeOk(scheme.value))
            && FreeOf(SchemeText(scheme), {'#'}) && (scheme.None? ==> rest == url && !HasScheme(url))
  {
  }

  lemma SplitNetlocParts(rest: string)
    ensures var (netloc, tail) := SplitNetloc(rest);
            && rest == NetlocText(netloc) + tail && FreeOf(NetlocText(netloc), {'#'})
            && (netloc.Some? ==> FreeOf(netloc.value, {'/', '?', '#'}) && (tail == [] || tail[0] in {'/', '?', '#'}))
            && (netloc.None? ==> tail == rest && !HasNetloc(rest))
  {
  }

  lemma SplitQueryParts(tail: string)
    ensures var (path, query) := SplitQuery(tail);
            var kept := path + QueryText(query);
            && kept <= tail && path <= tail && FreeOf(kept, {'#'}) && FreeOf(path, {'?', '#'})
            && (kept == tail || tail[|kept|] == '#')
            && (query.Some? ==> FreeOf(query.value, {'#'}))
            && (path != [] ==> path[0] == tail[0])
  {
  }

  lemma FragmentOf(before: string, kept: string, fragment: string)
    requires FreeOf(before, {'#'}) && FreeOf(kept, {'#'}) && (fragment == [] || fragment[0] == '#')
    ensures (before + kept + fragment)[..Until(before + kept + fragment, {'#'})] == before + kept
  {
    UntilOf(before + kept, fragment, {'#'});
  }

  // ----- The authority -----

  /** `rsplit("@", 1)`: the index of the last `@`. */
  function LastAt(s: string): (i: nat)
    requires '@' in s
    ensures i < |s| && s[i] == '@' && '@' !in s[i + 1..]
  {
    if '@' in s[1..] then
      var i := 1 + LastAt(s[1..]);
      assert s[i + 1..] == s[1..][i..];
      i
    else 0
  }

  function RedactNetloc(netloc: string): string {
    if '@' !in netloc then netloc
    else
      var at := LastAt(netloc);
      var userinfo, host := netloc[..at], netloc[at + 1..];
      if ':' in userinfo then userinfo[..IndexOf(userinfo, ':')] + [':'] + REDACTED + ['@'] + host
      else REDACTED + ['@'] + host
  }

  lemma {:induction false} LastAtOf(a: string, host: string)
    requires '@' !in host
    ensures LastAt(a + ['@'] + host) == |a|
  {
    var s := a + ['@'] + host;
    if a == [] {
      assert s[1..] == host;
    } else {
      assert s[1..] == a[1..] + ['@'] + host;
      LastAtOf(a[1..], host);
    }
  }

  lemma UserAndPassword(user: string, password: string, host: string)
    requires ':' !in user && '@' !in host
    ensures RedactNetloc(user + [':'] + password + ['@'] + host) == user + [':'] + REDACTED + ['@'] + host
  {
    var userinfo := user + [':'] + password;
    LastAtOf(userinfo, host);
    var netloc := userinfo + ['@'] + host;
    assert netloc[..|userinfo|] == userinfo && netloc[|userinfo| + 1..] == host;
    assert forall j :: 0 <= j < |user| ==> userinfo[j] == user[j] && user[j] in user;
    FirstIndex(userinfo, ':', |user|);
    assert userinfo[..|user|] == user;
  }

  lemma UserOnly(userinfo: string, host: string)
    requires ':' !in userinfo && '@' !in host
    ensures RedactNetloc(userinfo + ['@'] + host) == REDACTED + ['@'] + host
  {
    LastAtOf(userinfo, host);
    var netloc := userinfo + ['@'] + host;
    assert netloc[..|userinfo|] == userinfo && netloc[|userinfo| + 1..] == host;
  }

  /** What follows the first colon of the userinfo cannot be told from the result, nor can a userinfo without a
      colon: whatever they are, and however many `@` they hold, the authority comes out the same. */
  lemma NetlocHidesCredentials(user: string, password: string, other: string, host: string)
    requires ':' !in user && '@' !in host
    ensures RedactNetloc(user + [':'] + password + ['@'] + host) == RedactNetloc(user + [':'] + other + ['@'] + host)
    ensures ':' !in password && ':' !in other ==>
              RedactNetloc(password + ['@'] + host) == RedactNetloc(other + ['@'] + host)
  {
    UserAndPassword(user, password, host);
    UserAndPassword(user, other, host);
    if ':' !in password && ':' !in other {
      UserOnly(password, host);
      UserOnly(other, host);
    }
  }

  lemma NetlocIdempotent(netloc: string)
    ensures RedactNetloc(RedactNetloc(netloc)) == RedactNetloc(netloc)
  {
    if '@' in netloc {
      var at := LastAt(netloc);
      var userinfo, host := netloc[..at], netloc[at + 1..];
      if ':' in userinfo {
        UserAndPassword(userinfo[..IndexOf(userinfo, ':')], REDACTED, host);
      } else {
        assert ':' !in REDACTED;
        UserOnly(REDACTED, host);
      }
    }
  }

  lemma NetlocKeepsFree(netloc: string)
    requires FreeOf(netloc, {'/', '?', '#'})
    ensures FreeOf(RedactNetloc(netloc), {'/', '?', '#'})
  {
    var stops := {'/', '?', '#'};
    assert FreeOf(REDACTED, stops);
    if '@' in netloc {
      var at := LastAt(netloc);
      var userinfo, host := netloc[..at], netloc[at + 1..];
      assert FreeOf(userinfo, stops) && FreeOf(host, stops);
      if ':' in userinfo {
        var user := userinfo[..IndexOf(userinfo, ':')];
        assert RedactNetloc(netloc) == user + [':'] + REDACTED + ['@'] + host;
        hide LastAt, IndexOf, RedactNetloc;
        assert FreeOf(user + [':'] + REDACTED + ['@'], stops);
      } else {
        assert RedactNetloc(netloc) == REDACTED + ['@'] + host;
      }
    }
  }

  // ----- Query and path -----

  /** The parameters: the token shapes, the text rules, percent-decoding and -encoding, and the test of a
      (decoded, stripped, lower-cased) query name against the deny list. */
  datatype UrlRules = UrlRules(
    tokens: Pass, textPass: Pass, unquote: Pass, quote: Pass, denied: string -> bool)

  const DELIMITERS: set<char> := {'/', '?', '#', '&', '='}

  /** A second token pass changes nothing, a pass neither empties a text nor adds a delimiter nor makes a scheme
      appear; the text rules leave the empty text alone; decoding undoes encoding, which leaves no delimiter and
      empties no text. That the text rules are idempotent is not assumed: of some texts it is false. */
  ghost predicate LawfulUrl(r: UrlRules) {
    && (forall x :: r.tokens(r.tokens(x)) == r.tokens(x))
    && (forall x :: r.tokens(x) == [] <==> x == [])
    && (forall x, c :: c in DELIMITERS && c in r.tokens(x) ==> c in x)
    && (forall x :: HasScheme(r.tokens(x)) ==> HasScheme(x))
    && r.textPass([]) == []
    && (forall x :: r.unquote(r.quote(x)) == x)
    && (forall x :: r.quote(x) == [] ==> x == [])
    && (forall x, c :: c in {'#', '&'} ==> c !in r.quote(x))
  }

  function Join(parts: seq<string>, sep: char): string {
    if parts == [] then []
    else if |parts| == 1 then parts[0]
    else parts[0] + [sep] + Join(parts[1..], sep)
  }

  lemma {:induction false} SplitOfJoined(parts: seq<string>, sep: char)
    requires parts != [] && forall i :: 0 <= i < |parts| ==> sep !in parts[i]
    ensures Split(Join(parts, sep), sep) == parts
  {
    if |parts| == 1 {
      SplitOne(parts[0], sep);
    } else {
      SplitOfJoined(parts[1..], sep);
      SplitCons(parts[0], Join(parts[1..], sep), sep);
    }
  }

  function MapPass(parts: seq<string>, f: Pass): seq<string> {
    if parts == [] then [] else [f(parts[0])] + MapPass(parts[1..], f)
  }

  lemma {:induction false} MapPassAt(parts: seq<string>, f: Pass)
    ensures |MapPass(parts, f)| == |parts| && forall i :: 0 <= i < |parts| ==> MapPass(parts, f)[i] == f(parts[i])
  {
    if parts != [] {
      MapPassAt(parts[1..], f);
    }
  }

  lemma {:induction false} SplitPartsFree(s: string, sep: char)
    ensures forall i :: 0 <= i < |Split(s, sep)| ==> sep !in Split(s, sep)[i]
    ensures forall i, c :: 0 <= i < |Split(s, sep)| && c in Split(s, sep)[i] ==> c in s
  {
    if s != [] {
      SplitPartsFree(s[1..], sep);
      var parts, rest := Split(s, sep), Split(s[1..], sep);
      forall i | 0 <= i < |parts|
        ensures sep !in parts[i] && forall c :: c in parts[i] ==> c in s
      {
        assert forall c :: c in s[1..] ==> c in s;
        if s[0] == sep {
          assert parts[i] == if i == 0 then [] else rest[i - 1];
        } else {
          assert parts[i] == if i == 0 then [s[0]] + rest[0] else rest[i];
          assert forall c :: c in [s[0]] + rest[0] ==> c == s[0] || c in rest[0];
        }
      }
    }
  }

  /** A pass applied between separators, that adds no separator, is finished after once exactly when it is on
      every part. */
  lemma MappedAgainIff(s: string, sep: char, f: Pass)
    requires forall x :: sep in f(x) ==> sep in x
    ensures var once := Join(MapPass(Split(s, sep), f), sep);
            Join(MapPass(Split(once, sep), f), sep) == once
            <==> forall part :: part in Split(s, sep) ==> f(f(part)) == f(part)
  {
    var parts := Split(s, sep);
    var mapped := MapPass(parts, f);
    var twice := MapPass(mapped, f);
    SplitPartsFree(s, sep);
    MapPassAt(parts, f);
    MapPassAt(mapped, f);
    hide Split, Join, MapPass;
    SplitOfJoined(mapped, sep);
    SplitOfJoined(twice, sep);
    assert Join(twice, sep) == Join(mapped, sep) <==> twice == mapped;
    assert twice == mapped <==> forall i :: 0 <= i < |parts| ==> f(f(parts[i])) == f(parts[i]);
  }

  function PathPass(r: UrlRules, path: string): string {
    Join(MapPass(Split(path, '/'), r.tokens), '/')
  }

  /** What a value becomes under its name: the marker if the name is denied, else its decoded text after the text
      rules, encoded again if they changed it. */
  function ValuePass(r: UrlRules, name: string, value: string): string {
    if value == [] then []
    else if r.denied(name) then REDACTED
    else
      var decoded := r.unquote(value);
      var redacted := r.textPass(decoded);
      if redacted != decoded then r.quote(redacted) else value
  }

  function QueryPart(r: UrlRules, part: string): string {
    var at := Until(part, {'='});
    var name := r.tokens(part[..at]);
    if at == |part| then name else name + ['='] + ValuePass(r, name, part[at + 1..])
  }

  function RedactQuery(r: UrlRules, query: string): string {
    if query == [] then query else Join(MapPass(Split(query, '&'), part => QueryPart(r, part)), '&')
  }

  function RedactParts(r: UrlRules, p: Parts): Parts {
    Parts(p.scheme,
          match p.netloc case None => None case Some(n) => Some(RedactNetloc(n)),
          PathPass(r, p.path),
          match p.query case None => None case Some(q) => Some(RedactQuery(r, q)))
  }

  function RedactUrlOnce(r: UrlRules, url: string): string {
    JoinUrl(RedactParts(r, SplitUrl(url)))
  }

  function UrlStep(r: UrlRules): Pass {
    x => RedactUrlOnce(r, x)
  }

  function UrlCut(): Pass {
    x => Take(x, URL_MAX)
  }

  function RedactUrl(r: UrlRules, url: string): string {
    Settled(UrlStep(r), UrlCut(), Strip(Clean(url)))
  }

  // ----- A redacted URL is a fixpoint -----

  lemma SplitFirst(s: string, sep: char)
    requires sep in s
    ensures var i := IndexOf(s, sep); Split(s, sep) == [s[..i]] + Split(s[i + 1..], sep)
  {
    var i := IndexOf(s, sep);
    assert s == s[..i] + [sep] + s[i + 1..];
    SplitCons(s[..i], s[i + 1..], sep);
  }

  lemma PathPassStep(r: UrlRules, path: string)
    ensures '/' !in path ==> PathPass(r, path) == r.tokens(path)
    ensures '/' in path ==>
              var i := IndexOf(path, '/');
              PathPass(r, path) == r.tokens(path[..i]) + ['/'] + PathPass(r, path[i + 1..])
  {
    hide Split, MapPass, Join;
    if '/' !in path {
      SplitOne(path, '/');
      MapPassOne(path, r.tokens);
      JoinOne(r.tokens(path), '/');
    } else {
      var i := IndexOf(path, '/');
      SplitFirst(path, '/');
      var rest := Split(path[i + 1..], '/');
      SplitSome(path[i + 1..], '/');
      MapPassAt(rest, r.tokens);
      MapPassCons(path[..i], rest, r.tokens);
      JoinCons(r.tokens(path[..i]), MapPass(rest, r.tokens), '/');
    }
  }

  lemma SplitSome(s: string, sep: char)
    ensures Split(s, sep) != []
  {
  }

  lemma MapPassOne(part: string, f: Pass)
    ensures MapPass([part], f) == [f(part)]
  {
    assert [part][1..] == [];
    assert MapPass([], f) == [];
  }

  lemma MapPassCons(part: string, rest: seq<string>, f: Pass)
    ensures MapPass([part] + rest, f) == [f(part)] + MapPass(rest, f)
  {
    assert ([part] + rest)[1..] == rest;
  }

  lemma JoinOne(part: string, sep: char)
    ensures Join([part], sep) == part
  {
  }

  lemma JoinCons(part: string, rest: seq<string>, sep: char)
    requires rest != []
    ensures Join([part] + rest, sep) == part + [sep] + Join(rest, sep)
  {
    assert ([part] + rest)[1..] == rest;
  }

  lemma TokensAt(r: UrlRules, x: string)
    requires LawfulUrl(r)
    ensures (r.tokens(x) == [] <==> x == []) && (HasScheme(r.tokens(x)) ==> HasScheme(x))
    ensures r.tokens(r.tokens(x)) == r.tokens(x)
    ensures forall c :: c in DELIMITERS && c in r.tokens(x) ==> c in x
  {
  }

  /** The path keeps its delimiters: no new `?` or `#`, the same leading slash, and no scheme or authority that
      was not there. */
  lemma {:induction false} PathPassShape(r: UrlRules, path: string)
    requires LawfulUrl(r) && FreeOf(path, {'?', '#'})
    ensures var p := PathPass(r, path);
            && FreeOf(p, {'?', '#'}) && (p == [] <==> path == [])
            && (path != [] ==> (p[0] == '/' <==> path[0] == '/'))
            && (HasNetloc(p) ==> HasNetloc(path)) && (HasScheme(p) ==> HasScheme(path))
    decreases |path|
  {
    PathPassStep(r, path);
    hide LawfulUrl, PathPass;
    if '/' !in path {
      TokensAt(r, path);
      FreeFromTokens(r, path);
    } else {
      var i := IndexOf(path, '/');
      var first, rest := path[..i], path[i + 1..];
      TokensAt(r, first);
      FreeFromTokens(r, first);
      PathPassShape(r, rest);
      hide IndexOf;
      assert path == first + ['/'] + rest;
      SlashShape(r.tokens(first), PathPass(r, rest), first, rest);
    }
  }

  lemma FreeFromTokens(r: UrlRules, x: string)
    requires LawfulUrl(r) && FreeOf(x, {'?', '#'}) && '/' !in x
    ensures FreeOf(r.tokens(x), {'?', '#', '/'})
  {
    TokensAt(r, x);
    hide LawfulUrl;
    forall i | 0 <= i < |r.tokens(x)|
      ensures r.tokens(x)[i] !in {'?', '#', '/'}
    {
      assert r.tokens(x)[i] in r.tokens(x);
    }
  }

  lemma SlashShape(a: string, b: string, first: string, rest: string)
    requires FreeOf(a, {'?', '#', '/'}) && FreeOf(b, {'?', '#'}) && '/' !in first
    requires (a == [] <==> first == []) && (b == [] <==> rest == []) && (HasScheme(a) ==> HasScheme(first))
    requires rest != [] ==> (b[0] == '/' <==> rest[0] == '/')
    ensures var p, path := a + ['/'] + b, first + ['/'] + rest;
            && FreeOf(p, {'?', '#'}) && (p[0] == '/' <==> path[0] == '/')
            && (HasNetloc(p) ==> HasNetloc(path)) && (HasScheme(p) ==> HasScheme(path))
  {
    var p, path := a + ['/'] + b, first + ['/'] + rest;
    SchemeBeyond(first, ['/'] + rest);
    assert p == a + (['/'] + b) && path == first + (['/'] + rest);
    if HasScheme(p) {
      SchemeWithin(a, ['/'] + b);
    }
  }

  /** One pass over the decoded value of a query parameter is enough: there is no value, its name is denied, or
      the text rules change nothing of what they made. */
  predicate PartSettles(r: UrlRules, part: string) {
    var at := Until(part, {'='});
    || at == |part| || part[at + 1..] == [] || r.denied(r.tokens(part[..at]))
    || (var redacted := r.textPass(r.unquote(part[at + 1..])); r.textPass(redacted) == redacted)
  }

  lemma NameFree(r: UrlRules, name: string)
    requires LawfulUrl(r) && FreeOf(name, {'='})
    ensures r.tokens(r.tokens(name)) == r.tokens(name) && FreeOf(r.tokens(name), {'='})
  {
    TokensAt(r, name);
    hide LawfulUrl;
    var passed := r.tokens(name);
    forall i | 0 <= i < |passed|
      ensures passed[i] !in {'='}
    {
      assert passed[i] in passed;
      assert passed[i] == '=' ==> '=' in name;
    }
  }

  /** A parameter whose name the token pass leaves alone. */
  lemma QueryPartOf(r: UrlRules, name: string, value: string)
    requires r.tokens(name) == name && FreeOf(name, {'='})
    ensures QueryPart(r, name + ['='] + value)
         == name + ['='] + ValuePass(r, name, value)
  {
    var part := name + ['='] + value;
    UntilOf(name, ['='] + value, {'='});
    assert part == name + (['='] + value);
    assert part[..|name|] == name && part[|name| + 1..] == value;
  }

  lemma ValueAgainIff(r: UrlRules, name: string, value: string)
    requires LawfulUrl(r)
    ensures ValuePass(r, name, ValuePass(r, name, value)) == ValuePass(r, name, value)
            <==> || value == [] || r.denied(name)
                 || (var redacted := r.textPass(r.unquote(value)); r.textPass(redacted) == redacted)
  {
    var redacted := r.textPass(r.unquote(value));
    var again := r.textPass(redacted);
    assert r.unquote(r.quote(redacted)) == redacted && r.unquote(r.quote(again)) == again;
    assert r.quote(redacted) == [] ==> redacted == [] && again == [];
    hide LawfulUrl;
  }

  lemma ValueKeepsFree(r: UrlRules, name: string, value: string)
    requires LawfulUrl(r)
    ensures forall c :: c in {'#', '&'} && c in ValuePass(r, name, value) ==> c in value
  {
    assert '#' !in REDACTED && '&' !in REDACTED;
  }

  /** A second pass over one query parameter changes nothing exactly when the first one settled its value. */
  lemma QueryPartAgainIff(r: UrlRules, part: string)
    requires LawfulUrl(r)
    ensures QueryPart(r, QueryPart(r, part)) == QueryPart(r, part) <==> PartSettles(r, part)
  {
    var at := Until(part, {'='});
    NameFree(r, part[..at]);
    var name := r.tokens(part[..at]);
    if at == |part| {
      UntilOf(name, [], {'='});
      assert name + [] == name && name[..|name|] == name;
    } else {
      var value := part[at + 1..];
      hide LawfulUrl;
      assert QueryPart(r, part) == name + ['='] + ValuePass(r, name, value);
      QueryPartOf(r, name, ValuePass(r, name, value));
      ValueAgainIff(r, name, value);
      SameTail(name + ['='], ValuePass(r, name, ValuePass(r, name, value)), ValuePass(r, name, value));
      hide QueryPart, ValuePass, Until;
    }
  }

  lemma SameTail(head: string, a: string, b: string)
    ensures head + a == head + b <==> a == b
  {
    assert (head + a)[|head|..] == a && (head + b)[|head|..] == b;
  }

  /** The result has no `&` or `#` that was not there. */
  lemma QueryPartKeepsFree(r: UrlRules, part: string)
    requires LawfulUrl(r)
    ensures forall c :: c in {'#', '&'} && c in QueryPart(r, part) ==> c in part
  {
    var at := Until(part, {'='});
    TokensAt(r, part[..at]);
    if at < |part| {
      ValueKeepsFree(r, r.tokens(part[..at]), part[at + 1..]);
      assert QueryPart(r, part) == r.tokens(part[..at]) + ['='] + ValuePass(r, r.tokens(part[..at]), part[at + 1..]);
      assert forall c :: c in part[at + 1..] || c in part[..at] ==> c in part;
      hide ValuePass;
    }
    hide LawfulUrl, Until;
  }

  predicate QuerySettles(r: UrlRules, query: string) {
    query == [] || forall part :: part in Split(query, '&') ==> PartSettles(r, part)
  }

  lemma QueryKeepsFree(r: UrlRules, query: string)
    requires LawfulUrl(r) && FreeOf(query, {'#'})
    ensures FreeOf(RedactQuery(r, query), {'#'})
  {
    if query != [] {
      SplitPartsFree(query, '&');
      var f: Pass := part => QueryPart(r, part);
      var parts := Split(query, '&');
      MapPassAt(parts, f);
      hide Split, Join, MapPass, LawfulUrl, QueryPart;
      forall i | 0 <= i < |parts|
        ensures '#' !in MapPass(parts, f)[i]
      {
        QueryPartKeepsFree(r, parts[i]);
        assert '#' in parts[i] ==> '#' in query;
      }
      JoinFree(MapPass(parts, f), '&', '#');
    }
  }

  /** A second pass over a query changes nothing exactly when every parameter settled. */
  lemma QueryAgainIff(r: UrlRules, query: string)
    requires LawfulUrl(r)
    ensures RedactQuery(r, RedactQuery(r, query)) == RedactQuery(r, query) <==> QuerySettles(r, query)
  {
    if query != [] {
      var f: Pass := part => QueryPart(r, part);
      hide LawfulUrl, QueryPart, PartSettles;
      forall part
        ensures f(f(part)) == f(part) <==> PartSettles(r, part)
        ensures '&' in f(part) ==> '&' in part
      {
        QueryPartAgainIff(r, part);
        QueryPartKeepsFree(r, part);
      }
      MappedAgainIff(query, '&', f);
      EmptyQueryAgain(r, f);
      hide Split, Join, MapPass;
    }
  }

  /** Were the result of a query empty, passing over it part by part would leave it so. */
  lemma EmptyQueryAgain(r: UrlRules, f: Pass)
    requires LawfulUrl(r) && forall part :: f(part) == QueryPart(r, part)
    ensures Join(MapPass(Split([], '&'), f), '&') == []
  {
    assert r.tokens([]) == [];
    assert QueryPart(r, []) == [];
    var parts := Split([], '&');
    assert parts == [[]] && parts[1..] == [] && MapPass(parts[1..], f) == [];
    hide LawfulUrl;
  }

  lemma {:induction false} JoinFree(parts: seq<string>, sep: char, c: char)
    requires c != sep && forall i :: 0 <= i < |parts| ==> c !in parts[i]
    ensures FreeOf(Join(parts, sep), {c})
  {
    if |parts| > 1 {
      JoinFree(parts[1..], sep, c);
    }
  }

  lemma PathIdempotent(r: UrlRules, path: string)
    requires LawfulUrl(r)
    ensures PathPass(r, PathPass(r, path)) == PathPass(r, path)
  {
    assert forall x :: r.tokens(r.tokens(x)) == r.tokens(x);
    assert forall x :: '/' in r.tokens(x) ==> '/' in x;
    hide LawfulUrl;
    MappedAgainIff(path, '/', r.tokens);
  }

  predicate UrlSettles(r: UrlRules, url: string) {
    match SplitUrl(url).query
    case None => true
    case Some(query) => QuerySettles(r, query)
  }

  /** Redacting a redacted URL changes nothing exactly when every parameter of its query settled: scheme,
      authority and path never need a second pass, and the parts of the result are the redacted parts. */
  lemma RedactUrlAgainIff(r: UrlRules, url: string)
    requires LawfulUrl(r)
    ensures RedactUrlOnce(r, RedactUrlOnce(r, url)) == RedactUrlOnce(r, url) <==> UrlSettles(r, url)
  {
    var p := SplitUrl(url);
    var q := RedactParts(r, p);
    JoinOfSplit(url);
    hide SplitUrl, JoinUrl;
    RedactedPartsWellFormed(r, p);
    SplitOfJoin(q);
    RedactedPartsWellFormed(r, q);
    SplitOfJoin(RedactParts(r, q));
    PathIdempotent(r, p.path);
    if p.netloc.Some? {
      NetlocIdempotent(p.netloc.value);
    }
    if p.query.Some? {
      QueryAgainIff(r, p.query.value);
    }
    hide LawfulUrl, PathPass, RedactNetloc, RedactQuery, WellFormedParts, QuerySettles;
  }

  lemma RedactedPartsWellFormed(r: UrlRules, p: Parts)
    requires LawfulUrl(r) && WellFormedParts(p)
    ensures WellFormedParts(RedactParts(r, p))
  {
    PathPassShape(r, p.path);
    if p.netloc.Some? {
      NetlocKeepsFree(p.netloc.value);
    }
    if p.query.Some? {
      QueryKeepsFree(r, p.query.value);
    }
    hide LawfulUrl, PathPass, RedactNetloc, RedactQuery, HasScheme, HasNetloc;
  }

  // ----- Passwords -----

  /** A parameter with nothing to redact: its name as the token pass leaves it, and a value that is empty, or
      under no denied name and as the text rules leave it. */
  ghost predicate InnocentPart(r: UrlRules, part: string) {
    var at := Until(part, {'='});
    && r.tokens(part[..at]) == part[..at]
    && (at < |part| && part[at + 1..] != [] ==>
          !r.denied(part[..at]) && r.textPass(r.unquote(part[at + 1..])) == r.unquote(part[at + 1..]))
  }

  ghost predicate InnocentParts(r: UrlRules, p: Parts) {
    && (p.netloc.Some? ==> '@' !in p.netloc.value)
    && (forall segment :: segment in Split(p.path, '/') ==> r.tokens(segment) == segment)
    && (p.query.Some? ==> forall part :: part in Split(p.query.value, '&') ==> InnocentPart(r, part))
  }

  lemma InnocentPartKept(r: UrlRules, part: string)
    requires InnocentPart(r, part)
    ensures QueryPart(r, part) == part
  {
    var at := Until(part, {'='});
    if at < |part| {
      assert part[at] == '=' && part == part[..at] + ['='] + part[at + 1..];
    }
  }

  lemma {:induction false} MapPassStays(parts: seq<string>, f: Pass)
    requires forall part :: part in parts ==> f(part) == part
    ensures MapPass(parts, f) == parts
  {
    if parts != [] {
      assert parts[0] in parts && forall part :: part in parts[1..] ==> part in parts;
      MapPassStays(parts[1..], f);
    }
  }

  lemma {:induction false} JoinSplit(s: string, sep: char)
    ensures Join(Split(s, sep), sep) == s
    decreases |s|
  {
    if sep !in s {
      SplitOne(s, sep);
    } else {
      var i := IndexOf(s, sep);
      SplitFirst(s, sep);
      JoinSplit(s[i + 1..], sep);
      assert s == s[..i] + [sep] + s[i + 1..];
      assert ([s[..i]] + Split(s[i + 1..], sep))[1..] == Split(s[i + 1..], sep);
    }
  }

  /** A URL with nothing to redact loses its fragment and nothing else. */
  lemma InnocentUrlKept(r: UrlRules, url: string)
    requires InnocentParts(r, SplitUrl(url))
    ensures RedactUrlOnce(r, url) == url[..Until(url, {'#'})]
  {
    var p := SplitUrl(url);
    JoinOfSplit(url);
    hide SplitUrl, JoinUrl, Split, Join, MapPass;
    MapPassStays(Split(p.path, '/'), r.tokens);
    JoinSplit(p.path, '/');
    if p.query.Some? {
      var q := p.query.value;
      var redact := part => QueryPart(r, part);
      forall part | part in Split(q, '&') ensures redact(part) == part {
        InnocentPartKept(r, part);
      }
      MapPassStays(Split(q, '&'), redact);
      JoinSplit(q, '&');
      QueryOfPass(r, q, redact);
    }
  }

  lemma QueryOfPass(r: UrlRules, query: string, f: Pass)
    requires forall part :: f(part) == QueryPart(r, part)
    ensures RedactQuery(r, query) == if query == [] then query else Join(MapPass(Split(query, '&'), f), '&')
  {
    MapPassSame(Split(query, '&'), part => QueryPart(r, part), f);
  }

  lemma {:induction false} MapPassSame(parts: seq<string>, f: Pass, g: Pass)
    requires forall part :: f(part) == g(part)
    ensures MapPass(parts, f) == MapPass(parts, g)
  {
    if parts != [] {
      MapPassSame(parts[1..], f, g);
    }
  }

  /** A URL, or a network-path reference without a scheme, whose authority names a user and a password. */
  function WithPassword(scheme: Option<string>, user: string, password: string, host: string, rest: string): string {
    SchemeText(scheme) + (['/', '/'] + (user + [':'] + password + ['@'] + host) + rest)
  }

  /** The pieces are what they are called: no delimiter where it would end its piece. */
  ghost predicate Pieces(scheme: Option<string>, user: string, password: string, host: string, rest: string) {
    && (scheme.Some? ==> SchemeOk(scheme.value)) && ':' !in user && '@' !in host
    && FreeOf(user, {'/', '?', '#'}) && FreeOf(password, {'/', '?', '#'}) && FreeOf(host, {'/', '?', '#'})
    && (rest == [] || rest[0] in {'/', '?', '#'})
  }

  /** Whatever stands between the first colon of the userinfo and its `@`, the redacted URL is the same one. */
  lemma UrlHidesPassword(r: UrlRules, scheme: Option<string>, user: string, password: string, other: string,
                         host: string, rest: string)
    requires Pieces(scheme, user, password, host, rest) && Pieces(scheme, user, other, host, rest)
    ensures RedactUrlOnce(r, WithPassword(scheme, user, password, host, rest))
         == RedactUrlOnce(r, WithPassword(scheme, user, other, host, rest))
  {
    NetlocHidesCredentials(user, password, other, host);
    FreeAuthority(user, password, host);
    FreeAuthority(user, other, host);
    hide RedactUrlOnce, RedactNetloc, FreeOf;
    UrlWithNetloc(r, scheme, user + [':'] + password + ['@'] + host, rest);
    UrlWithNetloc(r, scheme, user + [':'] + other + ['@'] + host, rest);
  }

  lemma FreeAuthority(user: string, password: string, host: string)
    requires FreeOf(user, {'/', '?', '#'}) && FreeOf(password, {'/', '?', '#'}) && FreeOf(host, {'/', '?', '#'})
    ensures FreeOf(user + [':'] + password + ['@'] + host, {'/', '?', '#'})
  {
    var left := user + [':'] + password;
    assert FreeOf(left, {'/', '?', '#'});
    assert FreeOf(left + ['@'], {'/', '?', '#'});
  }

  lemma UrlWithNetloc(r: UrlRules, scheme: Option<string>, netloc: string, rest: string)
    requires scheme.Some? ==> SchemeOk(scheme.value)
    requires FreeOf(netloc, {'/', '?', '#'}) && (rest == [] || rest[0] in {'/', '?', '#'})
    ensures var (path, query) := SplitQuery(rest);
            RedactUrlOnce(r, SchemeText(scheme) + (['/', '/'] + netloc + rest))
            == JoinUrl(Parts(scheme, Some(RedactNetloc(netloc)), PathPass(r, path),
                             match query case None => None case Some(q) => Some(RedactQuery(r, q))))
  {
    var tail := ['/', '/'] + netloc + rest;
    assert tail[0] == '/' && !HasScheme(tail);
    SplitNetlocOf(Some(netloc), rest);
    SplitSchemeOf(scheme, tail);
    hide SplitQuery, RedactNetloc, PathPass, RedactQuery, JoinUrl, HasScheme, SchemeText;
  }

  // ----- The settled URL -----

  lemma SettledSame(step: Pass, cut: Pass, a: string, b: string)
    requires step(a) == step(b)
    ensures Settled(step, cut, a) == Settled(step, cut, b)
  {
    assert Round(step, cut, a) == Round(step, cut, b);
    assert Iterate(step, cut, a, ROUNDS) == Iterate(step, cut, Round(step, cut, a), ROUNDS - 1);
    assert Iterate(step, cut, b, ROUNDS) == Iterate(step, cut, Round(step, cut, b), ROUNDS - 1);
  }

  lemma StoredUrlFits(r: UrlRules, url: string)
    ensures |RedactUrl(r, url)| <= 2048
    ensures forall x :: UrlCut()(x) == if |x| <= 2048 then x else x[..2048]
  {
    hide RedactUrlOnce;
    SettledIsCut(UrlStep(r), UrlCut(), Strip(Clean(url)));
  }

  /** What is stored of a URL cannot tell one password from another, however long it is and however often it is
      passed over; and it never exceeds the cap. */
  lemma RedactUrlHidesPassword(r: UrlRules, scheme: Option<string>, user: string, password: string, other: string,
                               host: string, rest: string)
    requires Pieces(scheme, user, password, host, rest) && Pieces(scheme, user, other, host, rest)
    requires var url := WithPassword(scheme, user, password, host, rest); NulFree(url) && Strip(url) == url
    requires var twin := WithPassword(scheme, user, other, host, rest); NulFree(twin) && Strip(twin) == twin
    ensures RedactUrl(r, WithPassword(scheme, user, password, host, rest))
         == RedactUrl(r, WithPassword(scheme, user, other, host, rest))
    ensures |RedactUrl(r, WithPassword(scheme, user, password, host, rest))| <= URL_MAX
  {
    hide UrlStep, UrlCut, RedactUrl, RedactUrlOnce, WithPassword, Pieces, NulFree, Strip, Clean;
    var url, twin := WithPassword(scheme, user, password, host, rest), WithPassword(scheme, user, other, host, rest);
    RedactStripped(r, url);
    RedactStripped(r, twin);
    UrlHidesPassword(r, scheme, user, password, other, host, rest);
    StoredUrlFits(r, url);
    StepIsOnce(r, url);
    StepIsOnce(r, twin);
    SettledSame(UrlStep(r), UrlCut(), url, twin);
  }

  lemma RedactStripped(r: UrlRules, url: string)
    requires NulFree(url) && Strip(url) == url
    ensures RedactUrl(r, url) == Settled(UrlStep(r), UrlCut(), url)
  {
    CleanIsNulFree(url);
  }

  lemma StepIsOnce(r: UrlRules, url: string)
    ensures UrlStep(r)(url) == RedactUrlOnce(r, url)
  {
  }

  /** A URL whose redaction fits the cap is redacted once and then stays as it is, if its parameters settled; if
      they did not, the first redaction is not yet what a second pass leaves alone. */
  lemma ShortUrlSettles(r: UrlRules, text: string)
    requires LawfulUrl(r) && |RedactUrlOnce(r, text)| <= URL_MAX
    ensures var once := RedactUrlOnce(r, text);
            && (|once| < URL_MAX ==> (Fixpoint(UrlStep(r), UrlCut(), once) <==> UrlSettles(r, text)))
            && (UrlSettles(r, text) ==>
                  Settled(UrlStep(r), UrlCut(), text) == once && Settled(UrlStep(r), UrlCut(), once) == once)
  {
    hide RedactUrlOnce, LawfulUrl, UrlSettles;
    RedactUrlAgainIff(r, text);
    var once := RedactUrlOnce(r, text);
    assert Round(UrlStep(r), UrlCut(), text) == once;
    assert Round(UrlStep(r), UrlCut(), once) == Take(RedactUrlOnce(r, once), URL_MAX);
    if UrlSettles(r, text) {
      SettledAfterOne(UrlStep(r), UrlCut(), text);
    }
  }

  /** The stored URL of any length is one a further pass leaves alone exactly when one of the rounds reached such
      a URL; then storing it again gives the same. */
  lemma StoredUrlSettlesIff(r: UrlRules, url: string)
    ensures var text, stored := Strip(Clean(url)), RedactUrl(r, url);
            && (Fixpoint(UrlStep(r), UrlCut(), stored) <==> Reached(UrlStep(r), UrlCut(), text))
            && (Reached(UrlStep(r), UrlCut(), text) && Strip(Clean(stored)) == stored ==>
                  RedactUrl(r, stored) == stored)
  {
    hide RedactUrlOnce, Reached;
    SettledIffReached(UrlStep(r), UrlCut(), Strip(Clean(url)));
  }

  // ----- The run scanner meets the assumptions -----

  /** Up to its first marker the result is the text. */
  lemma {:induction false} RunPassAt(text: string, k: nat)
    requires k < |RunPass(text)| && forall i :: 0 <= i <= k ==> RunPass(text)[i] != '['
    ensures k < |text| && text[k] == RunPass(text)[k]
    decreases |text|
  {
    var n, head := PassStep(text);
    var r, rest := RunPass(text), RunPass(text[n..]);
    hide RunPass;
    assert r[0] == head[0] && REDACTED[0] == '[';
    if k >= n {
      assert forall i :: 0 <= i <= k - n ==> rest[i] == r[n + i];
      RunPassAt(text[n..], k - n);
    }
  }

  lemma SchemeEnd(s: string) returns (n: nat)
    requires HasScheme(s)
    ensures n < |s| && s[n] == ':' && SchemeStart(s[0]) && (forall i :: 0 <= i < n ==> SchemeChar(s[i]))
    ensures forall i :: 0 <= i <= n ==> s[i] != '['
  {
    n := SchemeLength(s);
  }

  lemma RunPassNoNewScheme(text: string)
    ensures HasScheme(RunPass(text)) ==> HasScheme(text)
  {
    var r := RunPass(text);
    if HasScheme(r) {
      var n := SchemeEnd(r);
      hide RunPass, HasScheme, SchemeLength, SchemeStart, SchemeChar;
      forall k: nat | k <= n
        ensures k < |text| && text[k] == r[k]
      {
        RunPassAt(text, k);
      }
      SchemeUpTo(text, n);
    }
  }

  lemma SchemeUpTo(text: string, n: nat)
    requires n < |text| && text[n] == ':' && SchemeStart(text[0]) && forall i :: 0 <= i < n ==> SchemeChar(text[i])
    ensures HasScheme(text)
  {
    assert text == text[..n] + text[n..];
    SchemeLengthOf(text[..n], text[n..]);
  }

  lemma RunPassTokens(x: string)
    ensures RunPass(RunPass(x)) == RunPass(x) && (RunPass(x) == [] <==> x == [])
    ensures HasScheme(RunPass(x)) ==> HasScheme(x)
  {
    RunPassIdempotent(x);
    RunPassNoNewScheme(x);
    if x != [] {
      var n, head := PassStep(x);
    }
  }

  lemma {:induction false} RunPassAddsNothing(text: string, c: char)
    requires c in RunPass(text) && c !in REDACTED
    ensures c in text
    decreases |text|
  {
    if text != [] {
      var n, head := PassStep(text);
      hide RunPass;
      assert forall x :: x in text[..n] || x in text[n..] ==> x in text;
      if c !in head {
        RunPassAddsNothing(text[n..], c);
      }
    }
  }

  /** With the run scanner as the token pass, what is assumed of percent-coding and the text rules is all that
      is left to assume. */
  lemma RunPassLawfulUrl(r: UrlRules)
    requires r.tokens == RunPass
    requires r.textPass([]) == []
    requires forall x :: r.unquote(r.quote(x)) == x && (r.quote(x) == [] ==> x == [])
    requires forall x, c :: c in {'#', '&'} ==> c !in r.quote(x)
    ensures LawfulUrl(r)
  {
    hide RunPass, HasScheme;
    forall x
      ensures RunPass(RunPass(x)) == RunPass(x) && (RunPass(x) == [] <==> x == [])
      ensures HasScheme(RunPass(x)) ==> HasScheme(x)
    {
      RunPassTokens(x);
    }
    forall x, c | c in DELIMITERS && c in RunPass(x)
      ensures c in x
    {
      assert c !in REDACTED;
      RunPassAddsNothing(x, c);
    }
  }
}
