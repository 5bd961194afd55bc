/**
 Stored URLs where the text rules act on the query values as the password pattern does: which of them a further
 redaction leaves alone.
 */
module UrlRounds {
  import opened Options
  import opened Text
  import opened Settle
  import opened JsonRedaction
  import opened PasswordRule
  import opened PasswordRounds
  import opened PasswordSettle
  import opened UrlRedaction
  import opened UrlBlanks

  function NoCut(): Pass {
    x => x
  }

  /** The text rules do to the value, and to what they make of it, what the password pattern does. */
  ghost predicate PartAlike(r: UrlRules, part: string, rounds: nat) {
    Value(r, part).Some? ==> ActsAlike(r.textPass, NoCut(), Value(r, part).value, rounds)
  }

  /** The value owes at most `n` passes after the first. */
  predicate PartWithin(r: UrlRules, part: string, n: nat) {
    Value(r, part).Some? ==> Owed(Value(r, part).value, true) <= n
  }

  // ----- One parameter -----

  /** Redacting a parameter is a pass over its value, however it is encoded. */
  lemma ValueNext(r: UrlRules, part: string)
    requires LawfulUrl(r) && PartAlike(r, part, 0)
    ensures Value(r, QueryPart(r, part))
         == if Value(r, part).None? then None else Some(PasswordPass(Value(r, part).value))
  {
    var at := Until(part, {'='});
    NameFree(r, part[..at]);
    var name := r.tokens(part[..at]);
    hide PasswordPass, LawfulUrl, Until;
    if at == |part| {
      NoValue(r, name);
    } else {
      var value := part[at + 1..];
      assert QueryPart(r, part) == name + ['='] + ValuePass(r, name, value);
      ValueOf(r, name, ValuePass(r, name, value));
      if Value(r, part).Some? {
        var d := r.unquote(value);
        AlikeFirst(r.textPass, d, 0);
        CodingAt(r, PasswordPass(d));
        EmptyPass(d);
      }
    }
  }

  lemma AlikeFirst(step: Pass, text: string, rounds: nat)
    requires ActsAlike(step, NoCut(), text, rounds)
    ensures step(text) == PasswordPass(text)
  {
    hide PasswordPass;
    assert Iterate(PasswordPass, NoCut(), text, 0) == text;
  }

  lemma EmptyPass(s: string)
    ensures PasswordPass(s) == [] ==> s == []
  {
    if s != [] {
      FirstStays(s);
    }
    hide PasswordPass;
  }

  lemma AlikeNext(step: Pass, text: string, rounds: nat)
    requires ActsAlike(step, NoCut(), text, rounds + 1)
    ensures ActsAlike(step, NoCut(), PasswordPass(text), rounds)
  {
    hide PasswordPass;
    forall k: nat | k <= rounds
      ensures var t := Iterate(PasswordPass, NoCut(), PasswordPass(text), k); step(t) == PasswordPass(t)
    {
      assert Iterate(PasswordPass, NoCut(), PasswordPass(text), k) == Iterate(PasswordPass, NoCut(), text, k + 1);
    }
  }

  /** A pass over a raw text is one less to go. */
  lemma RawStep(text: string)
    ensures Owed(PasswordPass(text), true) == Less(Owed(text, true), 1)
  {
    hide PasswordPass, Owed, Passed;
    var once := PasswordPass(text);
    RawOwed(text);
    RawOwed(once);
    PassIsPassed(text);
    WholeIsPassed(once);
    OwedStep(once);
  }

  lemma PartStep(r: UrlRules, part: string, rounds: nat, n: nat)
    requires LawfulUrl(r) && PartAlike(r, part, rounds + 1)
    ensures PartAlike(r, QueryPart(r, part), rounds)
    ensures PartWithin(r, QueryPart(r, part), n) <==> PartWithin(r, part, n + 1)
  {
    hide PasswordPass, Owed, QueryPart, LawfulUrl, Value;
    ValueNext(r, part);
    if Value(r, part).Some? {
      AlikeNext(r.textPass, Value(r, part).value, rounds);
      RawStep(Value(r, part).value);
    }
  }

  lemma PartSettlesIff(r: UrlRules, part: string)
    requires PartAlike(r, part, 1)
    ensures PartSettles(r, part) <==> PartWithin(r, part, 0)
  {
    if Value(r, part).Some? {
      var d := Value(r, part).value;
      AlikeFirst(r.textPass, d, 1);
      AlikeNext(r.textPass, d, 0);
      AlikeFirst(r.textPass, PasswordPass(d), 0);
      PassAgainIff(d);
      ClosedIffOwed(d);
    }
    hide PasswordPass, Owed, Closed;
  }

  /** A second redaction of one parameter changes nothing exactly when every value in its decoded text is followed
      by white space, a comma or the end, or the text rules never see it. */
  lemma PasswordPartAgainIff(r: UrlRules, part: string)
    requires LawfulUrl(r) && PartAlike(r, part, 1)
    ensures QueryPart(r, QueryPart(r, part)) == QueryPart(r, part)
            <==> (Value(r, part).Some? ==> Closed(Value(r, part).value))
  {
    hide QueryPart, LawfulUrl, Value, Owed, Closed, PartSettles;
    QueryPartAgainIff(r, part);
    PartSettlesIff(r, part);
    if Value(r, part).Some? {
      ClosedIffOwed(Value(r, part).value);
    }
  }

  // ----- A whole URL -----

  ghost predicate UrlAlike(r: UrlRules, url: string, rounds: nat) {
    forall i :: 0 <= i < |UrlParts(url)| ==> PartAlike(r, UrlParts(url)[i], rounds)
  }

  /** Every query value the text rules see owes at most `n` passes after the first. */
  predicate UrlWithin(r: UrlRules, url: string, n: nat) {
    forall i :: 0 <= i < |UrlParts(url)| ==> PartWithin(r, UrlParts(url)[i], n)
  }

  lemma UrlNext(r: UrlRules, url: string, rounds: nat, n: nat)
    requires LawfulUrl(r) && UrlAlike(r, url, rounds + 1)
    ensures UrlAlike(r, RedactUrlOnce(r, url), rounds)
    ensures UrlWithin(r, RedactUrlOnce(r, url), n) <==> UrlWithin(r, url, n + 1)
  {
    hide LawfulUrl, UrlParts, PartAlike, PartWithin, RedactUrlOnce, QueryPart;
    PartsNext(r, url);
    var parts := UrlParts(url);
    forall i | 0 <= i < |parts|
      ensures PartAlike(r, QueryPart(r, parts[i]), rounds)
      ensures PartWithin(r, QueryPart(r, parts[i]), n) <==> PartWithin(r, parts[i], n + 1)
    {
      PartStep(r, parts[i], rounds, n);
    }
    var next := UrlParts(RedactUrlOnce(r, url));
    assert forall i :: 0 <= i < |parts| ==>
                         (PartWithin(r, next[i], n) <==> PartWithin(r, parts[i], n + 1));
  }

  lemma UrlSettlesIff(r: UrlRules, url: string)
    requires UrlAlike(r, url, 1)
    ensures UrlSettles(r, url) <==> UrlWithin(r, url, 0)
  {
    hide Split, PartAlike, PartSettles, PartWithin, SplitUrl;
    var parts := UrlParts(url);
    forall i | 0 <= i < |parts|
      ensures PartSettles(r, parts[i]) <==> PartWithin(r, parts[i], 0)
    {
      PartSettlesIff(r, parts[i]);
    }
    if SplitUrl(url).query == Some([]) {
      EmptySettles(r);
    } else {
      assert forall i :: 0 <= i < |parts| ==> parts[i] in parts;
    }
  }

  lemma EmptySettles(r: UrlRules)
    ensures Split([], '&') == [[]] && PartWithin(r, [], 0)
  {
    NoValue(r, []);
  }

  // ----- The rounds of a URL -----

  /** Without a cut: after `n + 1` redactions a URL stays exactly when every query value owed at most `n`. */
  lemma {:induction false} UrlRoundsNeeded(r: UrlRules, url: string, n: nat)
    requires LawfulUrl(r) && UrlAlike(r, url, n + 1)
    ensures Fixpoint(UrlStep(r), NoCut(), Iterate(UrlStep(r), NoCut(), url, n + 1)) <==> UrlWithin(r, url, n)
    decreases n
  {
    hide LawfulUrl, UrlAlike, UrlWithin, UrlSettles, RedactUrlOnce, Iterate;
    var next := RedactUrlOnce(r, url);
    assert Round(UrlStep(r), NoCut(), url) == next;
    IterateNext(UrlStep(r), NoCut(), url, n);
    if n == 0 {
      IterateNone(UrlStep(r), NoCut(), next);
      RedactUrlAgainIff(r, url);
      UrlSettlesIff(r, url);
    } else {
      UrlNext(r, url, n, n - 1);
      UrlRoundsNeeded(r, next, n - 1);
    }
  }

  lemma IterateNext(step: Pass, cut: Pass, text: string, n: nat)
    ensures Iterate(step, cut, text, n + 1) == Iterate(step, cut, Round(step, cut, text), n)
  {
  }

  lemma IterateNone(step: Pass, cut: Pass, text: string)
    ensures Iterate(step, cut, text, 0) == text
  {
  }

  /** Percent-encoding goes character by character: at least, lengths add up. */
  ghost predicate QuoteAdds(r: UrlRules) {
    Additive(x => |r.quote(x)|)
  }

  lemma QuotedNoLonger(r: UrlRules, text: string)
    requires QuoteAdds(r)
    ensures |r.quote(PasswordPass(PasswordPass(text)))| <= |r.quote(PasswordPass(text))|
  {
    var weight := (x: string) => |r.quote(x)|;
    var once := PasswordPass(text);
    PassIsPassed(text);
    hide PasswordPass, Passed, Additive;
    PassNoHeavier(once, weight, true);
    hide LastMarker;
    assert weight(PasswordPass(once)) <= weight(once);
  }

  /** A parameter redacted twice is no longer than redacted once. */
  lemma PartNoLonger(r: UrlRules, part: string)
    requires LawfulUrl(r) && QuoteAdds(r) && PartAlike(r, part, 1)
    ensures |QueryPart(r, QueryPart(r, part))| <= |QueryPart(r, part)|
  {
    var at := Until(part, {'='});
    NameFree(r, part[..at]);
    var name := r.tokens(part[..at]);
    hide PasswordPass, LawfulUrl, Until, QuoteAdds;
    if at == |part| {
      NameAgain(r, name);
    } else {
      var value := part[at + 1..];
      var once := ValuePass(r, name, value);
      assert QueryPart(r, part) == name + ['='] + once;
      QueryPartOf(r, name, once);
      assert QueryPart(r, name + ['='] + once) == name + ['='] + ValuePass(r, name, once);
      if Value(r, part).Some? {
        ValueNoLonger(r, name, value);
      }
    }
  }

  lemma NameAgain(r: UrlRules, name: string)
    requires r.tokens(name) == name && FreeOf(name, {'='})
    ensures QueryPart(r, name) == name
  {
    UntilOf(name, [], {'='});
    assert name + [] == name && name[..|name|] == name;
  }

  lemma ValueNoLonger(r: UrlRules, name: string, value: string)
    requires LawfulUrl(r) && QuoteAdds(r) && value != [] && !r.denied(name)
    requires ActsAlike(r.textPass, NoCut(), r.unquote(value), 1)
    ensures |ValuePass(r, name, ValuePass(r, name, value))| <= |ValuePass(r, name, value)|
  {
    var d := r.unquote(value);
    AlikeFirst(r.textPass, d, 1);
    AlikeNext(r.textPass, d, 0);
    AlikeFirst(r.textPass, PasswordPass(d), 0);
    CodingAt(r, PasswordPass(d));
    QuotedNoLonger(r, d);
    hide PasswordPass, LawfulUrl, QuoteAdds, ActsAlike;
  }

  function Lengths(parts: seq<string>): nat {
    if parts == [] then 0 else |parts[0]| + Lengths(parts[1..])
  }

  lemma {:induction false} JoinLength(parts: seq<string>, sep: char)
    requires parts != []
    ensures |Join(parts, sep)| == Lengths(parts) + |parts| - 1
  {
    if |parts| > 1 {
      JoinLength(parts[1..], sep);
    } else {
      assert parts[1..] == [];
    }
  }

  lemma {:induction false} LengthsAtMost(a: seq<string>, b: seq<string>)
    requires |a| == |b| && forall i :: 0 <= i < |a| ==> |a[i]| <= |b[i]|
    ensures Lengths(a) <= Lengths(b)
  {
    if a != [] {
      LengthsAtMost(a[1..], b[1..]);
    }
  }

  lemma QueryNoLonger(r: UrlRules, query: string)
    requires LawfulUrl(r) && QuoteAdds(r)
    requires forall i :: 0 <= i < |Split(query, '&')| ==> PartAlike(r, Split(query, '&')[i], 1)
    ensures |RedactQuery(r, RedactQuery(r, query))| <= |RedactQuery(r, query)|
  {
    hide LawfulUrl, QuoteAdds, Split, RedactQuery, QueryPart, PartAlike;
    var once := RedactQuery(r, query);
    var twice := RedactQuery(r, once);
    QueryPartsNext(r, query);
    QueryPartsNext(r, once);
    var a, b := Split(twice, '&'), Split(once, '&');
    forall i | 0 <= i < |a|
      ensures |a[i]| <= |b[i]|
    {
      PartNoLonger(r, Split(query, '&')[i]);
    }
    LengthsAtMost(a, b);
    JoinSplit(once, '&');
    JoinSplit(twice, '&');
    SplitSome(once, '&');
    JoinLength(a, '&');
    JoinLength(b, '&');
  }

  lemma UrlNoLonger(r: UrlRules, url: string)
    requires LawfulUrl(r) && QuoteAdds(r) && UrlAlike(r, url, 1)
    ensures |RedactUrlOnce(r, RedactUrlOnce(r, url))| <= |RedactUrlOnce(r, url)|
  {
    var p := SplitUrl(url);
    var q := RedactParts(r, p);
    JoinOfSplit(url);
    hide SplitUrl, Split, LawfulUrl, WellFormedParts, QuoteAdds, PathPass, RedactNetloc, RedactQuery, PartAlike;
    RedactedPartsWellFormed(r, p);
    SplitOfJoin(q);
    PathIdempotent(r, p.path);
    if p.netloc.Some? {
      NetlocIdempotent(p.netloc.value);
    }
    if p.query.Some? {
      assert UrlParts(url) == Split(p.query.value, '&');
      QueryNoLonger(r, p.query.value);
    }
    PartsNoLonger(RedactParts(r, q), q);
    hide JoinUrl;
  }

  lemma PartsNoLonger(a: Parts, b: Parts)
    requires a.scheme == b.scheme && a.netloc == b.netloc && a.path == b.path
    requires (a.query.None? && b.query.None?) || (a.query.Some? && b.query.Some? && |a.query.value| <= |b.query.value|)
    ensures |JoinUrl(a)| <= |JoinUrl(b)|
  {
  }

  /** If the first redaction fits the cap, no later one is cut. */
  lemma {:induction false} NeverCut(r: UrlRules, url: string, n: nat)
    requires LawfulUrl(r) && QuoteAdds(r) && UrlAlike(r, url, n) && |RedactUrlOnce(r, url)| <= URL_MAX
    ensures Iterate(UrlStep(r), UrlCut(), url, n) == Iterate(UrlStep(r), NoCut(), url, n)
    ensures |RedactUrlOnce(r, Iterate(UrlStep(r), NoCut(), url, n))| <= URL_MAX
    decreases n
  {
    hide LawfulUrl, QuoteAdds, UrlAlike, UrlWithin, RedactUrlOnce, Iterate;
    if n == 0 {
      IterateNone(UrlStep(r), UrlCut(), url);
      IterateNone(UrlStep(r), NoCut(), url);
    } else {
      var next := RedactUrlOnce(r, url);
      assert Round(UrlStep(r), NoCut(), url) == next == Round(UrlStep(r), UrlCut(), url);
      IterateNext(UrlStep(r), UrlCut(), url, n - 1);
      IterateNext(UrlStep(r), NoCut(), url, n - 1);
      AlikeLess(r, url, n, 1);
      UrlNoLonger(r, url);
      UrlNext(r, url, n - 1, 0);
      NeverCut(r, next, n - 1);
    }
  }

  lemma AlikeLess(r: UrlRules, url: string, rounds: nat, fewer: nat)
    requires UrlAlike(r, url, rounds) && fewer <= rounds
    ensures UrlAlike(r, url, fewer)
  {
    hide UrlParts, Value;
  }

  /** Each round is one less for every value. */
  lemma {:induction false} WithinAfter(r: UrlRules, url: string, rounds: nat, n: nat)
    requires LawfulUrl(r) && UrlAlike(r, url, rounds)
    ensures UrlWithin(r, Iterate(UrlStep(r), NoCut(), url, rounds), n) <==> UrlWithin(r, url, n + rounds)
    decreases rounds
  {
    hide LawfulUrl, UrlAlike, UrlWithin, RedactUrlOnce, Iterate;
    if rounds == 0 {
      IterateNone(UrlStep(r), NoCut(), url);
    } else {
      var next := RedactUrlOnce(r, url);
      assert Round(UrlStep(r), NoCut(), url) == next;
      IterateNext(UrlStep(r), NoCut(), url, rounds - 1);
      UrlNext(r, url, rounds - 1, n + rounds - 1);
      WithinAfter(r, next, rounds - 1, n);
    }
  }

  function Most(r: UrlRules, parts: seq<string>): nat {
    if parts == [] then 0
    else
      Larger(if Value(r, parts[0]).Some? then Owed(Value(r, parts[0]).value, true) else 0, Most(r, parts[1..]))
  }

  lemma {:induction false} WithinMost(r: UrlRules, parts: seq<string>, n: nat)
    requires Most(r, parts) <= n
    ensures forall i :: 0 <= i < |parts| ==> PartWithin(r, parts[i], n)
  {
    hide Value, Owed;
    if parts != [] {
      WithinMost(r, parts[1..], n);
      assert forall i :: 1 <= i < |parts| ==> parts[i] == parts[1..][i - 1];
    }
  }

  lemma WithinMore(r: UrlRules, url: string, n: nat, more: nat)
    requires UrlWithin(r, url, n) && n <= more
    ensures UrlWithin(r, url, more)
  {
    hide UrlParts, Value, Owed;
  }

  ghost predicate Cycles(r: UrlRules, url: string) {
    Iterate(UrlStep(r), NoCut(), url, 2 * ROUNDS) == Iterate(UrlStep(r), NoCut(), url, ROUNDS)
  }

  /** Were the loop, run again, to give the same URL, no value would owe more than one further round. */
  lemma {:induction false} CycleIsShort(r: UrlRules, url: string, n: nat)
    requires LawfulUrl(r) && UrlAlike(r, url, 2 * ROUNDS) && Cycles(r, url) && UrlWithin(r, url, n)
    ensures UrlWithin(r, url, ROUNDS)
    decreases n
  {
    hide LawfulUrl, UrlAlike, UrlWithin, Iterate;
    var over := Less(n, 2 * ROUNDS);
    WithinMore(r, url, n, over + 2 * ROUNDS);
    AlikeLess(r, url, 2 * ROUNDS, ROUNDS);
    WithinAfter(r, url, ROUNDS, over);
    WithinAfter(r, url, 2 * ROUNDS, over);
    if over > 0 {
      CycleIsShort(r, url, over + ROUNDS);
    }
  }

  lemma AllWithin(r: UrlRules, url: string)
    ensures UrlWithin(r, url, Most(r, UrlParts(url)))
  {
    WithinMost(r, UrlParts(url), Most(r, UrlParts(url)));
    hide PartWithin, Most;
  }

  /** What the loop stores of a URL that fits the cap is a fixpoint of a redaction, and of the whole loop, exactly
      when no query value owes more than five passes after the first. */
  lemma LoopSettlesIff(r: UrlRules, text: string)
    requires LawfulUrl(r) && QuoteAdds(r) && UrlAlike(r, text, 2 * ROUNDS) && |RedactUrlOnce(r, text)| <= URL_MAX
    ensures var settled := Settled(UrlStep(r), UrlCut(), text);
            && (Fixpoint(UrlStep(r), UrlCut(), settled) <==> UrlWithin(r, text, ROUNDS - 1))
            && (Settled(UrlStep(r), UrlCut(), settled) == settled <==> UrlWithin(r, text, ROUNDS - 1))
  {
    hide LawfulUrl, UrlAlike, UrlWithin, RedactUrlOnce, Iterate, QuoteAdds;
    var step, cut := UrlStep(r), UrlCut();
    var settled := Settled(step, cut, text);
    AlikeLess(r, text, 2 * ROUNDS, ROUNDS);
    NeverCut(r, text, ROUNDS);
    UrlRoundsNeeded(r, text, ROUNDS - 1);
    assert Round(step, cut, settled) == Round(step, NoCut(), settled);
    if Fixpoint(step, cut, settled) {
      FixpointStays(step, cut, settled, ROUNDS);
    } else if Settled(step, cut, settled) == settled {
      NeverCut(r, text, 2 * ROUNDS);
      IterateSplit(step, cut, text, ROUNDS, ROUNDS);
      AllWithin(r, text);
      CycleIsShort(r, text, Most(r, UrlParts(text)));
      LateFixpoint(r, text, settled);
      assert false;
    }
  }

  lemma LateFixpoint(r: UrlRules, text: string, settled: string)
    requires LawfulUrl(r) && UrlAlike(r, text, 2 * ROUNDS) && UrlWithin(r, text, ROUNDS)
    requires settled == Iterate(UrlStep(r), NoCut(), text, ROUNDS)
    requires settled == Iterate(UrlStep(r), NoCut(), text, 2 * ROUNDS)
    ensures Fixpoint(UrlStep(r), NoCut(), settled)
  {
    hide LawfulUrl, UrlAlike, UrlWithin, RedactUrlOnce, Iterate;
    var step := UrlStep(r);
    var later := Iterate(step, NoCut(), text, ROUNDS + 1);
    AlikeLess(r, text, 2 * ROUNDS, ROUNDS + 1);
    UrlRoundsNeeded(r, text, ROUNDS);
    FixpointStays(step, NoCut(), later, ROUNDS - 1);
    IterateSplit(step, NoCut(), text, ROUNDS + 1, ROUNDS - 1);
  }

  // ----- The ends of a stored URL -----

  lemma {:induction false} LoopStart(r: UrlRules, url: string, n: nat)
    requires LawfulUrl(r) && KeepsBlanks(r)
    ensures Starts(Iterate(UrlStep(r), UrlCut(), url, n)) ==> Starts(url)
    decreases n
  {
    hide LawfulUrl, KeepsBlanks, RedactUrlOnce, IsSpace;
    if n > 0 {
      var once := RedactUrlOnce(r, url);
      LoopStart(r, Take(once, URL_MAX), n - 1);
      if Starts(once) {
        OnceStart(r, url);
      }
    }
  }

  /** After any number of redactions a URL ends in white space exactly when it does where redaction keeps it. */
  lemma {:induction false} LoopEnd(r: UrlRules, url: string, n: nat)
    requires LawfulUrl(r) && KeepsBlanks(r)
    ensures Ends(Iterate(UrlStep(r), NoCut(), url, n + 1)) <==> EndsBlank(r, url)
    decreases n
  {
    hide LawfulUrl, KeepsBlanks, RedactUrlOnce, Iterate, Ends, EndsBlank;
    var next := RedactUrlOnce(r, url);
    assert Round(UrlStep(r), NoCut(), url) == next;
    IterateNext(UrlStep(r), NoCut(), url, n);
    if n == 0 {
      IterateNone(UrlStep(r), NoCut(), next);
      OnceEnd(r, url);
    } else {
      EndsBlankNext(r, url);
      LoopEnd(r, next, n - 1);
    }
  }

  lemma StoredStart(r: UrlRules, url: string)
    requires LawfulUrl(r) && KeepsBlanks(r)
    ensures !Starts(RedactUrl(r, url))
  {
    hide LawfulUrl, KeepsBlanks, Iterate, Strip, Starts;
    var a, b := StripShape(Clean(url));
    LoopStart(r, Strip(Clean(url)), ROUNDS);
  }

  /** A stored URL, redacted again as the server does, stays exactly when no query value owes more than five
      passes after the first, and what stood before the fragment did not end in white space that redaction keeps. */
  lemma PasswordUrlSettlesIff(r: UrlRules, url: string)
    requires LawfulUrl(r) && QuoteAdds(r) && KeepsBlanks(r)
    requires var text := Strip(Clean(url));
             UrlAlike(r, text, 2 * ROUNDS) && |RedactUrlOnce(r, text)| <= URL_MAX
    ensures var text := Strip(Clean(url));
            RedactUrl(r, RedactUrl(r, url)) == RedactUrl(r, url)
            <==> UrlWithin(r, text, ROUNDS - 1) && !EndsBlank(r, text)
  {
    hide LawfulUrl, UrlAlike, UrlWithin, RedactUrlOnce, Iterate, QuoteAdds, KeepsBlanks, Starts, Ends, EndsBlank;
    var text := Strip(Clean(url));
    LoopSettlesIff(r, text);
    StoredAgainIff(r, url);
    StripStaysIff(RedactUrl(r, url));
    StoredStart(r, url);
    AlikeLess(r, text, 2 * ROUNDS, ROUNDS);
    NeverCut(r, text, ROUNDS);
    LoopEnd(r, text, ROUNDS - 1);
  }

  /** Whatever the text rules: a URL that fits the cap and whose query settles in one pass stays, once stored,
      exactly when what stood before the fragment did not end in white space that redaction keeps. */
  lemma ShortUrlStaysIff(r: UrlRules, url: string)
    requires LawfulUrl(r) && KeepsBlanks(r)
    requires var text := Strip(Clean(url)); |RedactUrlOnce(r, text)| <= URL_MAX && UrlSettles(r, text)
    ensures RedactUrl(r, RedactUrl(r, url)) == RedactUrl(r, url) <==> !EndsBlank(r, Strip(Clean(url)))
  {
    hide LawfulUrl, UrlSettles, RedactUrlOnce, Iterate, KeepsBlanks, Starts, Ends, EndsBlank;
    var text := Strip(Clean(url));
    ShortUrlSettles(r, text);
    StoredAgainIff(r, url);
    StripStaysIff(RedactUrl(r, url));
    StoredStart(r, url);
    OnceEnd(r, text);
  }

  /** White space before the fragment: the first call keeps it, the second one strips it. */
  lemma SpaceBeforeFragment(r: UrlRules)
    requires LawfulUrl(r) && KeepsBlanks(r) && r.tokens("a") == "a"
    ensures RedactUrl(r, "/a #x") == "/a "
    ensures RedactUrl(r, "/a ") == "/a"
  {
    hide LawfulUrl, KeepsBlanks, RedactUrlOnce, SplitUrl, UrlSettles, Settled, Strip, Clean, UrlStep, UrlCut;
    SpacedPath(r);
    SpacedTexts();
    OnlyPath(r, "/a #x", "/a ");
    OnlyPath(r, "/a", "/a");
    Unchanged(r, "/a #x", "/a ");
    Unchanged(r, "/a", "/a");
  }

  /** What `"/a #x"` and `"/a "` are after cleaning and stripping. */
  lemma SpacedTexts()
    ensures Strip(Clean("/a #x")) == "/a #x" && Strip(Clean("/a ")) == "/a"
  {
    hide Clean, Strip, TrimLeft, TrimRight;
    CleanIsNulFree("/a #x");
    CleanIsNulFree("/a ");
    StripStaysIff("/a #x");
    StripStaysIff("/a");
    StripDropsTail("/a", " ");
    assert "/a" + " " == "/a ";
  }

  lemma SlashPath(r: UrlRules, segment: string)
    requires LawfulUrl(r) && '/' !in segment
    ensures PathPass(r, ['/'] + segment) == ['/'] + r.tokens(segment)
  {
    hide PathPass;
    TokensAt(r, []);
    var path := ['/'] + segment;
    PathPassStep(r, path);
    PathPassStep(r, segment);
    assert IndexOf(path, '/') == 0 && path[1..] == segment && path[..0] == [];
    hide LawfulUrl;
  }

  lemma SpacedPath(r: UrlRules)
    requires LawfulUrl(r) && KeepsBlanks(r) && r.tokens("a") == "a"
    ensures PathPass(r, "/a ") == "/a " && PathPass(r, "/a") == "/a"
  {
    hide LawfulUrl, KeepsBlanks, PathPass;
    TokensAt(r, "");
    TokensApart(r, "a", ' ', "");
    assert "a" + [' '] + "" == "a ";
    SlashPath(r, "a ");
    SlashPath(r, "a");
    assert ['/'] + "a " == "/a " && ['/'] + "a" == "/a";
  }

  lemma Unchanged(r: UrlRules, text: string, once: string)
    requires LawfulUrl(r) && RedactUrlOnce(r, text) == once && UrlSettles(r, text) && |once| <= URL_MAX
    ensures Settled(UrlStep(r), UrlCut(), text) == once
  {
    hide LawfulUrl, RedactUrlOnce, UrlSettles, Settled;
    ShortUrlSettles(r, text);
  }

  lemma OnlyPath(r: UrlRules, url: string, path: string)
    requires (url == "/a #x" && path == "/a ") || (url == "/a" && path == "/a")
    requires PathPass(r, path) == path
    ensures RedactUrlOnce(r, url) == path && UrlSettles(r, url)
  {
    assert url == path + url[|path|..];
    UntilOf(path, url[|path|..], {'?', '#'});
    assert SplitUrl(url) == Parts(None, None, path, None);
    hide PathPass, SplitUrl;
  }

  /** Below the cap too six redactions are not always enough: a value with seven quotes behind its password, under
      a harmless name, keeps one. */
  lemma SevenQuotesInUrl(r: UrlRules, text: string, i: nat)
    requires LawfulUrl(r) && QuoteAdds(r) && UrlAlike(r, text, 2 * ROUNDS) && |RedactUrlOnce(r, text)| <= URL_MAX
    requires i < |UrlParts(text)| && Value(r, UrlParts(text)[i]) == Some(Quoted(7))
    ensures var settled := Settled(UrlStep(r), UrlCut(), text);
            Settled(UrlStep(r), UrlCut(), settled) != settled
  {
    MarkerIsBare();
    QuotedOwes(REDACTED, 7);
    hide LawfulUrl, UrlAlike, RedactUrlOnce, Iterate, QuoteAdds, Settled, Owed, Value, PasswordPass, Quotes, UrlParts;
    LoopSettlesIff(r, text);
  }
}
