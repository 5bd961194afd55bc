/**
 What a stored URL says of the query values under denied names: nothing but that there was one.
 */
module UrlSecrets {
  import opened Options
  import opened Text
  import opened Settle
  import opened JsonRedaction
  import opened UrlRedaction
  import opened UrlBlanks

  /** The value of a parameter: what stands behind its first equals sign. */
  function ValueText(part: string): string {
    var at := Until(part, {'='});
    if at == |part| then [] else part[at + 1..]
  }

  /** A parameter with a value under a denied name; the token pass reads the name first. */
  predicate HasSecret(r: UrlRules, part: string) {
    ValueText(part) != [] && r.denied(r.tokens(part[..Until(part, {'='})]))
  }

  /** The same parameter, or the same name with another secret. */
  ghost predicate SameButSecret(r: UrlRules, a: string, b: string) {
    || a == b
    || (HasSecret(r, a) && HasSecret(r, b) && a[..Until(a, {'='})] == b[..Until(b, {'='})])
  }

  /** Two URLs that differ in nothing but the values under denied names. */
  ghost predicate TwinUrls(r: UrlRules, a: string, b: string) {
    var p, q := SplitUrl(a), SplitUrl(b);
    && p.scheme == q.scheme && p.netloc == q.netloc && p.path == q.path && (p.query.None? <==> q.query.None?)
    && |UrlParts(a)| == |UrlParts(b)|
    && forall i :: 0 <= i < |UrlParts(a)| ==> SameButSecret(r, UrlParts(a)[i], UrlParts(b)[i])
  }

  /** Of a secret only its name and the marker are left. */
  lemma SecretPart(r: UrlRules, part: string)
    requires HasSecret(r, part)
    ensures QueryPart(r, part) == r.tokens(part[..Until(part, {'='})]) + "=" + REDACTED
  {
    hide Until;
  }

  lemma {:induction false} MapPassAlike(a: seq<string>, b: seq<string>, f: Pass)
    requires |a| == |b| && forall i :: 0 <= i < |a| ==> f(a[i]) == f(b[i])
    ensures MapPass(a, f) == MapPass(b, f)
  {
    if a != [] {
      MapPassAlike(a[1..], b[1..], f);
    }
  }

  lemma QueryHidesSecrets(r: UrlRules, a: string, b: string)
    requires |Split(a, '&')| == |Split(b, '&')|
    requires forall i :: 0 <= i < |Split(a, '&')| ==> SameButSecret(r, Split(a, '&')[i], Split(b, '&')[i])
    ensures RedactQuery(r, a) == RedactQuery(r, b)
  {
    var f: Pass := part => QueryPart(r, part);
    hide QueryPart, Join, MapPass, Until;
    var x, y := Split(a, '&'), Split(b, '&');
    forall i | 0 <= i < |x|
      ensures f(x[i]) == f(y[i])
    {
      if x[i] != y[i] {
        SecretPart(r, x[i]);
        SecretPart(r, y[i]);
      }
    }
    MapPassAlike(x, y, f);
    QueryOfPass(r, a, f);
    QueryOfPass(r, b, f);
    EmptyTwin(r, a, b);
    hide Split;
  }

  /** An empty query has one parameter without a value, so its twin is empty too. */
  lemma EmptyTwin(r: UrlRules, a: string, b: string)
    requires |Split(a, '&')| == |Split(b, '&')|
    requires SameButSecret(r, Split(a, '&')[0], Split(b, '&')[0])
    ensures a == [] <==> b == []
  {
    JoinSplit(a, '&');
    JoinSplit(b, '&');
    if a == [] || b == [] {
      assert !HasSecret(r, []);
    }
  }

  /** Whatever stands under the denied names, the redacted URL is the same one. */
  lemma UrlHidesSecrets(r: UrlRules, a: string, b: string)
    requires TwinUrls(r, a, b)
    ensures RedactUrlOnce(r, a) == RedactUrlOnce(r, b)
  {
    hide SplitUrl, JoinUrl, RedactQuery, RedactNetloc, PathPass, SameButSecret;
    var p, q := SplitUrl(a), SplitUrl(b);
    if p.query.Some? {
      assert UrlParts(a) == Split(p.query.value, '&') && UrlParts(b) == Split(q.query.value, '&');
      QueryHidesSecrets(r, p.query.value, q.query.value);
    }
  }

  /** So is the stored one, however long it is and however often it is passed over. */
  lemma StoredUrlHidesSecrets(r: UrlRules, a: string, b: string)
    requires TwinUrls(r, Strip(Clean(a)), Strip(Clean(b)))
    ensures RedactUrl(r, a) == RedactUrl(r, b)
  {
    hide RedactUrlOnce, TwinUrls;
    UrlHidesSecrets(r, Strip(Clean(a)), Strip(Clean(b)));
    SettledSame(UrlStep(r), UrlCut(), Strip(Clean(a)), Strip(Clean(b)));
  }

  // ----- Every secret is the marker -----

  /** The values under denied names are the marker. */
  ghost predicate SecretsMarked(r: UrlRules, url: string) {
    forall i :: 0 <= i < |UrlParts(url)| ==> HasSecret(r, UrlParts(url)[i]) ==> ValueText(UrlParts(url)[i]) == REDACTED
  }

  /** The same of a URL that was cut: the last one may be as much of the marker as there was room for. */
  ghost predicate SecretsCut(r: UrlRules, url: string) {
    forall i :: 0 <= i < |UrlParts(url)| ==> HasSecret(r, UrlParts(url)[i]) ==>
      ValueText(UrlParts(url)[i]) == REDACTED
      || (i == |UrlParts(url)| - 1 && ValueText(UrlParts(url)[i]) <= REDACTED)
  }

  lemma NamedValue(name: string, value: string)
    requires FreeOf(name, {'='})
    ensures var part := name + ['='] + value;
            Until(part, {'='}) == |name| && part[..|name|] == name && ValueText(part) == value
  {
    var part := name + ['='] + value;
    UntilOf(name, ['='] + value, {'='});
    assert part == name + (['='] + value);
    hide Until;
    assert part[..|name|] == name && part[|name| + 1..] == value;
  }

  lemma NameHasNoSecret(r: UrlRules, name: string)
    requires FreeOf(name, {'='})
    ensures ValueText(name) == []
  {
    UntilOf(name, [], {'='});
    assert name + [] == name;
  }

  lemma PartMarked(r: UrlRules, part: string)
    requires LawfulUrl(r)
    ensures HasSecret(r, QueryPart(r, part)) ==> ValueText(QueryPart(r, part)) == REDACTED
  {
    hide LawfulUrl, Until, QueryPart, ValueText;
    var at := Until(part, {'='});
    NameFree(r, part[..at]);
    var name := r.tokens(part[..at]);
    if at == |part| {
      NameOnly(r, part);
      assert part[..at] == part;
      NameHasNoSecret(r, name);
    } else {
      NameAndValue(r, part);
      NamedValue(name, ValuePass(r, name, part[at + 1..]));
    }
  }

  /** In a redacted URL every value under a denied name is the marker. */
  lemma UrlMarksSecrets(r: UrlRules, url: string)
    requires LawfulUrl(r)
    ensures SecretsMarked(r, RedactUrlOnce(r, url))
  {
    hide LawfulUrl, QueryPart, RedactUrlOnce, UrlParts, HasSecret, ValueText;
    PartsNext(r, url);
    var parts := UrlParts(url);
    forall i | 0 <= i < |parts|
      ensures HasSecret(r, QueryPart(r, parts[i])) ==> ValueText(QueryPart(r, parts[i])) == REDACTED
    {
      PartMarked(r, parts[i]);
    }
  }

  // ----- Cutting a URL -----

  /** The parts of a beginning: all but its last are those of the whole, and that one begins the part of its place. */
  predicate Begins(a: seq<string>, b: seq<string>) {
    0 < |a| <= |b| && (forall i :: 0 <= i < |a| - 1 ==> a[i] == b[i]) && a[|a| - 1] <= b[|a| - 1]
  }

  lemma BeginsNext(a: seq<string>, b: seq<string>, c: char)
    requires Begins(a, b)
    ensures Begins([[]] + a, [[]] + b)
    ensures Begins([[c] + a[0]] + a[1..], [[c] + b[0]] + b[1..])
  {
  }

  lemma {:induction false} SplitPrefix(s: string, m: nat, sep: char)
    requires m <= |s|
    ensures Begins(Split(s[..m], sep), Split(s, sep))
    decreases |s|
  {
    hide Begins, Split;
    if m > 0 {
      SplitPrefix(s[1..], m - 1, sep);
      SplitStep(s, sep);
      SplitStep(s[..m], sep);
      assert s[..m][1..] == s[1..][..m - 1] && s[..m][0] == s[0];
      BeginsNext(Split(s[..m][1..], sep), Split(s[1..], sep), s[0]);
    } else {
      SplitNothing(s, sep);
    }
  }

  lemma SplitNothing(s: string, sep: char)
    ensures Begins(Split(s[..0], sep), Split(s, sep))
  {
    assert s[..0] == [] && Split([], sep) == [[]];
  }

  lemma CutPart(r: UrlRules, p: string, part: string)
    requires p <= part && HasSecret(r, p)
    ensures HasSecret(r, part) && ValueText(p) <= ValueText(part)
  {
    var at := Until(p, {'='});
    assert part == part[..at] + part[at..] && FreeOf(part[..at], {'='});
    UntilOf(part[..at], part[at..], {'='});
    assert p[..at] == part[..at];
    hide Until;
  }

  lemma NoQuery(url: string)
    requires '?' !in url
    ensures UrlParts(url) == []
  {
    var (scheme, rest) := SplitScheme(url);
    var (netloc, tail) := SplitNetloc(rest);
    assert forall c :: c in rest ==> c in url;
    assert forall c :: c in tail ==> c in rest;
    var after := tail[Until(tail, {'?', '#'})..];
    assert after != [] ==> after[0] in tail;
  }

  /** Cutting a well-formed URL cuts its query, or leaves none. */
  lemma CutQuery(u: Parts, k: nat)
    requires WellFormedParts(u) && k <= |JoinUrl(u)|
    ensures var parts := UrlParts(JoinUrl(u)[..k]);
            || parts == []
            || exists m: nat :: u.query.Some? && m <= |u.query.value| && parts == Split(u.query.value[..m], '&')
  {
    var head := SchemeText(u.scheme) + (NetlocText(u.netloc) + u.path);
    BeforeQuery(u);
    hide WellFormedParts, SplitUrl;
    if k <= |head| {
      assert JoinUrl(u)[..k] == head[..k];
      NoQuery(head[..k]);
    } else {
      var m := k - |head| - 1;
      var v := u.(query := Some(u.query.value[..m]));
      CutParts(u, m);
      assert JoinUrl(v) == JoinUrl(u)[..k] by { JoinShape(u, head); JoinShape(v, head); }
      SplitOfJoin(v);
      hide JoinUrl;
      assert UrlParts(JoinUrl(u)[..k]) == Split(u.query.value[..m], '&');
    }
  }

  lemma CutParts(u: Parts, m: nat)
    requires WellFormedParts(u) && u.query.Some? && m <= |u.query.value|
    ensures WellFormedParts(u.(query := Some(u.query.value[..m])))
  {
  }

  lemma JoinShape(u: Parts, head: string)
    requires head == SchemeText(u.scheme) + (NetlocText(u.netloc) + u.path)
    ensures JoinUrl(u) == head + QueryText(u.query)
  {
  }

  lemma BeforeQuery(u: Parts)
    requires WellFormedParts(u)
    ensures var head := SchemeText(u.scheme) + (NetlocText(u.netloc) + u.path);
            '?' !in head && (u.query.None? ==> JoinUrl(u) == head) && head <= JoinUrl(u)
  {
    JoinShape(u, SchemeText(u.scheme) + (NetlocText(u.netloc) + u.path));
    if u.scheme.Some? {
      assert forall i :: 0 <= i < |u.scheme.value| ==> u.scheme.value[i] != '?';
    }
  }

  lemma CutMarks(r: UrlRules, url: string, k: nat)
    requires LawfulUrl(r) && k <= |RedactUrlOnce(r, url)|
    ensures SecretsCut(r, RedactUrlOnce(r, url)[..k])
  {
    hide LawfulUrl, SplitUrl, JoinUrl, WellFormedParts, Split, HasSecret, ValueText, RedactParts;
    var once := RedactUrlOnce(r, url);
    var u := RedactParts(r, SplitUrl(url));
    UrlMarksSecrets(r, url);
    JoinOfSplit(url);
    RedactedPartsWellFormed(r, SplitUrl(url));
    SplitOfJoin(u);
    CutQuery(u, k);
    var parts := UrlParts(once[..k]);
    if parts != [] {
      var m: nat :| u.query.Some? && m <= |u.query.value| && parts == Split(u.query.value[..m], '&');
      var whole := Split(u.query.value, '&');
      assert UrlParts(once) == whole;
      SplitPrefix(u.query.value, m, '&');
      CutSecrets(r, parts, whole);
    }
  }

  lemma CutSecrets(r: UrlRules, parts: seq<string>, whole: seq<string>)
    requires 0 < |parts| <= |whole| && forall i :: 0 <= i < |parts| - 1 ==> parts[i] == whole[i]
    requires parts[|parts| - 1] <= whole[|parts| - 1]
    requires forall i :: 0 <= i < |whole| ==> HasSecret(r, whole[i]) ==> ValueText(whole[i]) == REDACTED
    ensures forall i :: 0 <= i < |parts| ==> HasSecret(r, parts[i]) ==>
              ValueText(parts[i]) == REDACTED || (i == |parts| - 1 && ValueText(parts[i]) <= REDACTED)
  {
    hide HasSecret, ValueText;
    var n := |parts| - 1;
    if HasSecret(r, parts[n]) {
      CutPart(r, parts[n], whole[n]);
    }
  }

  /** In a stored URL every value under a denied name is the marker; at the cap the last one may be cut short. */
  lemma StoredUrlMarksSecrets(r: UrlRules, url: string)
    requires LawfulUrl(r)
    ensures SecretsCut(r, RedactUrl(r, url))
    ensures |RedactUrl(r, url)| < URL_MAX ==> SecretsMarked(r, RedactUrl(r, url))
  {
    hide LawfulUrl, RedactUrlOnce, UrlParts, HasSecret, ValueText, Iterate, SecretsMarked, SecretsCut;
    var step, cut, text := UrlStep(r), UrlCut(), Strip(Clean(url));
    var before := Iterate(step, cut, text, ROUNDS - 1);
    IterateSplit(step, cut, text, ROUNDS - 1, 1);
    LastRound(step, cut, before);
    var once := RedactUrlOnce(r, before);
    assert RedactUrl(r, url) == Take(once, URL_MAX);
    var k := if |once| <= URL_MAX then |once| else URL_MAX;
    assert Take(once, URL_MAX) == once[..k];
    CutMarks(r, before, k);
    UrlMarksSecrets(r, before);
  }

  lemma LastRound(step: Pass, cut: Pass, text: string)
    ensures Iterate(step, cut, text, 1) == cut(step(text))
  {
    assert Iterate(step, cut, Round(step, cut, text), 0) == Round(step, cut, text);
  }

  // ----- Part by part -----

  /** What redaction makes of one parameter: the token pass over its name; no value stays none, a secret becomes
      the marker, and any other value decodes to what the text rules make of it, as it stood if they change
      nothing. */
  ghost predicate PartRedacted(r: UrlRules, a: string, b: string) {
    && b[..Until(b, {'='})] == r.tokens(a[..Until(a, {'='})])
    && (Until(b, {'='}) == |b| <==> Until(a, {'='}) == |a|)
    && (ValueText(a) == [] ==> ValueText(b) == [])
    && (HasSecret(r, a) ==> ValueText(b) == REDACTED)
    && (ValueText(a) != [] && !HasSecret(r, a) ==>
          var d := r.unquote(ValueText(a));
          r.unquote(ValueText(b)) == r.textPass(d) && (r.textPass(d) == d ==> ValueText(b) == ValueText(a)))
  }

  lemma PartIsRedacted(r: UrlRules, part: string)
    requires LawfulUrl(r)
    ensures PartRedacted(r, part, QueryPart(r, part))
  {
    hide LawfulUrl, Until, QueryPart;
    var at := Until(part, {'='});
    NameFree(r, part[..at]);
    var name := r.tokens(part[..at]);
    if at == |part| {
      NameOnly(r, part);
      assert part[..at] == part;
      NameHasNoSecret(r, name);
      NameEnds(name);
    } else {
      NameAndValue(r, part);
      var value := part[at + 1..];
      NamedValue(name, ValuePass(r, name, value));
      CodingAt(r, r.textPass(r.unquote(value)));
    }
  }

  lemma NameEnds(name: string)
    requires FreeOf(name, {'='})
    ensures Until(name, {'='}) == |name| && name[..|name|] == name
  {
    UntilOf(name, [], {'='});
    assert name + [] == name;
  }

  /** The parts of a redacted URL: the scheme as it was, the authority without its credentials, the token pass over
      every segment of the path, and every parameter of the query redacted. */
  lemma UrlIsRedacted(r: UrlRules, url: string)
    requires LawfulUrl(r)
    ensures var p, q := SplitUrl(url), SplitUrl(RedactUrlOnce(r, url));
            && q.scheme == p.scheme && (q.netloc.Some? <==> p.netloc.Some?) && (q.query.Some? <==> p.query.Some?)
            && (p.netloc.Some? ==> q.netloc.value == RedactNetloc(p.netloc.value))
            && var a, b := Split(p.path, '/'), Split(q.path, '/');
               |a| == |b| && forall i :: 0 <= i < |a| ==> b[i] == r.tokens(a[i])
    ensures var a, b := UrlParts(url), UrlParts(RedactUrlOnce(r, url));
            |a| == |b| && forall i :: 0 <= i < |a| ==> PartRedacted(r, a[i], b[i])
  {
    hide LawfulUrl, SplitUrl, JoinUrl, WellFormedParts, RedactQuery, RedactNetloc, QueryPart, PartRedacted, Split;
    var p := SplitUrl(url);
    JoinOfSplit(url);
    RedactedPartsWellFormed(r, p);
    SplitOfJoin(RedactParts(r, p));
    PathParts(r, p.path);
    PartsNext(r, url);
    var a := UrlParts(url);
    forall i | 0 <= i < |a|
      ensures PartRedacted(r, a[i], QueryPart(r, a[i]))
    {
      PartIsRedacted(r, a[i]);
    }
    hide UrlParts;
  }

  lemma PathParts(r: UrlRules, path: string)
    requires LawfulUrl(r)
    ensures var a, b := Split(path, '/'), Split(PathPass(r, path), '/');
            |a| == |b| && forall i :: 0 <= i < |a| ==> b[i] == r.tokens(a[i])
  {
    var a := Split(path, '/');
    SplitPartsFree(path, '/');
    MapPassAt(a, r.tokens);
    forall i | 0 <= i < |a|
      ensures '/' !in MapPass(a, r.tokens)[i]
    {
      TokensAt(r, a[i]);
    }
    hide LawfulUrl, Split, MapPass;
    SplitOfJoined(MapPass(a, r.tokens), '/');
  }
}
