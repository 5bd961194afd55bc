/**
 One of the text patterns, concretely: `password`, a colon or an equals sign, an optional quote, at least four
 characters that are no white space, quote or comma, an optional quote. A second pass can change what the first
 one left; here it is proved of exactly which texts. Letters are compared as ASCII letters.
 */
module PasswordRule {
  import opened Options
  import opened Text
  import opened Settle

  const NAME: string := "password"
  const VALUE_MIN: nat := 4

  function Lower(c: char): char {
    if 'A' <= c <= 'Z' then (c as int + 32) as char else c
  }

  /** The text starts with the name, in any case. */
  predicate Named(s: string) {
    |s| >= |NAME| && forall i :: 0 <= i < |NAME| ==> Lower(s[i]) == NAME[i]
  }

  predicate Quotation(c: char) {
    c == '"' || c == '\''
  }

  predicate Stops(c: char) {
    IsSpace(c) || c == ','
  }

  predicate Bare(c: char) {
    !Stops(c) && !Quotation(c)
  }

  function SpaceLength(s: string): (n: nat)
    ensures n <= |s|
  {
    if s != "" && IsSpace(s[0]) then 1 + SpaceLength(s[1..]) else 0
  }

  function BareLength(s: string): (n: nat)
    ensures n <= |s|
  {
    if s != "" && Bare(s[0]) then 1 + BareLength(s[1..]) else 0
  }

  function QuoteLength(s: string): nat {
    if s != "" && Quotation(s[0]) then 1 else 0
  }

  /** A value that has begun takes all bare characters and one quote. */
  function Meal(s: string): (n: nat)
    ensures n <= |s|
  {
    BareLength(s) + QuoteLength(s[BareLength(s)..])
  }

  /** The first character behind the name that is no white space. */
  function SignAt(s: string): (n: nat)
    requires |s| >= |NAME|
    ensures |NAME| <= n <= |s|
  {
    |NAME| + SpaceLength(s[|NAME|..])
  }

  /** Name, sign and the white space around it: the part that is kept. */
  function HeadAt(s: string): (n: Option<nat>)
    ensures n.Some? ==> |NAME| < n.value <= |s|
  {
    if !Named(s) then None
    else
      var sign := SignAt(s);
      if sign >= |s| || s[sign] !in {':', '='} then None else Some(sign + 1 + SpaceLength(s[sign + 1..]))
  }

  /** Where the part that is kept ends, and where the match ends. */
  datatype Match = Match(head: nat, end: nat)

  function MatchAt(s: string): (m: Option<Match>)
    ensures m.Some? ==> |NAME| < m.value.head && m.value.head + VALUE_MIN <= m.value.end <= |s|
  {
    match HeadAt(s)
    case None => None
    case Some(head) =>
      var from := head + QuoteLength(s[head..]);
      var n := BareLength(s[from..]);
      if n < VALUE_MIN then None else Some(Match(head, from + Meal(s[from..])))
  }

  function PasswordPass(s: string): string
    decreases |s|
  {
    if s == "" then ""
    else
      match MatchAt(s)
      case None => [s[0]] + PasswordPass(s[1..])
      case Some(m) => s[..m.head] + REDACTED + PasswordPass(s[m.end..])
  }

  /** Every value is followed by white space, a comma or the end. */
  predicate Closed(s: string)
    decreases |s|
  {
    if s == "" then true
    else
      match MatchAt(s)
      case None => Closed(s[1..])
      case Some(m) => (m.end == |s| || Stops(s[m.end])) && Closed(s[m.end..])
  }

  lemma PassUnmatched(s: string)
    requires s != "" && MatchAt(s).None?
    ensures PasswordPass(s) == [s[0]] + PasswordPass(s[1..])
  {
    hide MatchAt;
  }

  lemma PassMatched(s: string, m: Match)
    requires s != "" && MatchAt(s) == Some(m)
    ensures PasswordPass(s) == s[..m.head] + REDACTED + PasswordPass(s[m.end..])
  {
    hide MatchAt;
  }

  // ----- Stretches -----

  lemma {:induction false} SpaceRun(s: string)
    ensures forall i :: 0 <= i < SpaceLength(s) ==> IsSpace(s[i])
    ensures SpaceLength(s) < |s| ==> !IsSpace(s[SpaceLength(s)])
  {
    hide IsSpace;
    if s != "" && IsSpace(s[0]) {
      SpaceRun(s[1..]);
      assert forall i :: 0 < i < |s| ==> s[i] == s[1..][i - 1];
    }
  }

  lemma {:induction false} BareRun(s: string)
    ensures forall i :: 0 <= i < BareLength(s) ==> Bare(s[i])
    ensures BareLength(s) < |s| ==> !Bare(s[BareLength(s)])
  {
    hide Bare;
    if s != "" && Bare(s[0]) {
      BareRun(s[1..]);
      assert forall i :: 0 < i < |s| ==> s[i] == s[1..][i - 1];
    }
  }

  lemma {:induction false} SpacesThen(a: string, b: string)
    requires forall i :: 0 <= i < |a| ==> IsSpace(a[i])
    ensures SpaceLength(a + b) == |a| + SpaceLength(b)
  {
    hide IsSpace;
    if a == "" {
      assert a + b == b;
    } else {
      SpacesThen(a[1..], b);
      assert (a + b)[1..] == a[1..] + b;
    }
  }

  lemma {:induction false} BareThen(a: string, b: string)
    requires forall i :: 0 <= i < |a| ==> Bare(a[i])
    ensures BareLength(a + b) == |a| + BareLength(b)
  {
    hide Bare;
    if a == "" {
      assert a + b == b;
    } else {
      BareThen(a[1..], b);
      assert (a + b)[1..] == a[1..] + b;
    }
  }

  lemma MealThen(a: string, b: string)
    requires forall i :: 0 <= i < |a| ==> Bare(a[i])
    ensures Meal(a + b) == |a| + Meal(b)
  {
    BareThen(a, b);
    assert (a + b)[|a| + BareLength(b)..] == b[BareLength(b)..];
  }

  /** A run that stops within `a` does not see what follows. */
  lemma SpacesWithin(a: string, b: string, at: nat)
    requires at < |a| && !IsSpace(a[at])
    ensures SpaceLength(a + b) == SpaceLength(a) <= at
  {
    SpaceRun(a);
    var n := SpaceLength(a);
    SpacesThen(a[..n], a[n..] + b);
    assert a[..n] + (a[n..] + b) == a + b;
    assert (a[n..] + b)[0] == a[n];
    hide IsSpace;
  }

  lemma BareWithin(a: string, b: string)
    ensures BareLength(a) < |a| ==> BareLength(a + b) == BareLength(a)
    ensures BareLength(a + b) >= BareLength(a)
  {
    BareRun(a);
    var n := BareLength(a);
    BareThen(a[..n], a[n..] + b);
    assert a[..n] + (a[n..] + b) == a + b;
    assert n < |a| ==> (a[n..] + b)[0] == a[n];
    hide Bare;
  }

  // ----- Heads -----

  /** A head and nothing else. */
  predicate IsHead(h: string) {
    && Named(h)
    && var sign := SignAt(h);
       sign < |h| && h[sign] in {':', '='} && forall i :: sign < i < |h| ==> IsSpace(h[i])
  }

  lemma NamedPrefix(q: string, z: string)
    requires |q| >= |NAME|
    ensures Named(q + z) <==> Named(q)
  {
    assert forall i :: 0 <= i < |q| ==> (q + z)[i] == q[i];
  }

  lemma SignWithin(h: string, y: string, at: nat)
    requires |NAME| <= at < |h| && !IsSpace(h[at])
    ensures SignAt(h + y) == SignAt(h) <= at
  {
    assert (h + y)[|NAME|..] == h[|NAME|..] + y && h[|NAME|..][at - |NAME|] == h[at];
    SpacesWithin(h[|NAME|..], y, at - |NAME|);
    hide SpaceLength, IsSpace;
  }

  lemma HeadFound(s: string)
    requires HeadAt(s).Some?
    ensures IsHead(s[..HeadAt(s).value])
    ensures HeadAt(s).value < |s| ==> !IsSpace(s[HeadAt(s).value])
  {
    var n, sign := HeadAt(s).value, SignAt(s);
    var h := s[..n];
    assert s == h + s[n..] && h[sign] == s[sign];
    NamedPrefix(h, s[n..]);
    assert !IsSpace(h[sign]);
    SignWithin(h, s[n..], sign);
    SpaceRun(s[sign + 1..]);
    hide SpaceLength, IsSpace, Named, SignAt;
    assert forall i :: sign < i < n ==> h[i] == s[sign + 1..][i - sign - 1];
    assert n < |s| ==> s[n] == s[sign + 1..][n - sign - 1];
  }

  lemma HeadOf(h: string, y: string)
    requires IsHead(h) && (y == "" || !IsSpace(y[0]))
    ensures HeadAt(h + y) == Some(|h|)
  {
    var s, sign := h + y, SignAt(h);
    NamedPrefix(h, y);
    assert !IsSpace(h[sign]);
    SignWithin(h, y, sign);
    assert SpaceLength(y) == 0;
    hide SpaceLength, IsSpace, Named, SignAt;
    var b := h[sign + 1..];
    assert s[sign + 1..] == b + y && s[sign] == h[sign];
    assert forall i :: 0 <= i < |b| ==> b[i] == h[sign + 1 + i];
    SpacesThen(b, y);
  }

  /** A text without the first letter of the name. */
  predicate Plain(s: string) {
    forall i :: 0 <= i < |s| ==> Lower(s[i]) != 'p'
  }

  predicate Letter(c: char) {
    'a' <= Lower(c) <= 'z'
  }

  lemma LetterIsBare(c: char)
    requires Letter(c)
    ensures Bare(c) && c !in {':', '='}
  {
  }

  lemma NameLetters(s: string)
    requires Named(s)
    ensures Lower(s[0]) == 'p'
    ensures forall i :: 0 <= i < |NAME| ==> Letter(s[i])
    ensures forall i :: 1 <= i < |NAME| ==> Lower(s[i]) != 'p'
  {
    assert NAME == ['p', 'a', 's', 's', 'w', 'o', 'r', 'd'];
  }

  lemma SpaceIsPlain(c: char)
    requires IsSpace(c) || c in {':', '='}
    ensures Lower(c) != 'p' && !Quotation(c) && c != ','
  {
  }

  lemma HeadShape(h: string)
    requires IsHead(h)
    ensures |h| > |NAME| && Plain(h[1..]) && Bare(h[0])
    ensures forall i :: 0 <= i < |h| ==> !Quotation(h[i]) && h[i] != ','
    ensures forall i :: 0 <= i < |NAME| ==> Bare(h[i])
  {
    var sign := SignAt(h);
    SpaceRun(h[|NAME|..]);
    NameLetters(h);
    assert forall i :: |NAME| <= i < sign ==> h[i] == h[|NAME|..][i - |NAME|];
    hide SpaceLength, Named, IsSpace, Lower, Letter, Bare, Stops, Quotation, SignAt;
    forall i | 0 <= i < |h|
      ensures i > 0 ==> Lower(h[i]) != 'p'
      ensures !Quotation(h[i]) && h[i] != ','
      ensures i < |NAME| ==> Bare(h[i])
    {
      if i < |NAME| {
        LetterIsBare(h[i]);
        BareIsNoQuote(h[i]);
      } else {
        SpaceIsPlain(h[i]);
      }
    }
  }

  lemma BareIsNoQuote(c: char)
    ensures Bare(c) ==> !Quotation(c) && !Stops(c) && c != ','
  {
  }

  /** Behind an optional quote there are enough bare characters for a value. */
  predicate Enough(y: string) {
    BareLength(y[QuoteLength(y)..]) >= VALUE_MIN
  }

  /** What a head makes of the text behind it. */
  lemma MatchOf(h: string, y: string)
    requires IsHead(h) && (y == "" || !IsSpace(y[0]))
    ensures MatchAt(h + y) == if !Enough(y) then None
                              else Some(Match(|h|, |h| + QuoteLength(y) + Meal(y[QuoteLength(y)..])))
  {
    hide HeadAt, IsHead, BareLength, Meal, IsSpace;
    HeadOf(h, y);
    assert (h + y)[|h|..] == y;
    assert (h + y)[|h| + QuoteLength(y)..] == y[QuoteLength(y)..];
  }

  /** The same of a text that starts with a value. */
  lemma MatchOfValue(h: string, y: string)
    requires IsHead(h) && (y == "" || Bare(y[0]))
    ensures MatchAt(h + y) == if BareLength(y) < VALUE_MIN then None else Some(Match(|h|, |h| + Meal(y)))
  {
    hide MatchAt, IsHead, BareLength, Meal, IsSpace, Bare, Quotation;
    if y != "" {
      BareIsNoQuote(y[0]);
      BareIsNoSpace(y[0]);
    }
    assert QuoteLength(y) == 0 && y[0..] == y;
    MatchOf(h, y);
  }

  lemma BareIsNoSpace(c: char)
    ensures Bare(c) ==> !IsSpace(c)
  {
  }

  lemma MatchHasHead(s: string, m: Match)
    requires MatchAt(s) == Some(m)
    ensures IsHead(s[..m.head]) && HeadAt(s) == Some(m.head)
  {
    HeadFound(s);
    hide HeadAt, IsHead, BareLength, Meal;
  }

  lemma EnoughMore(y: string, z: string)
    requires Enough(y)
    ensures y != "" && Enough(y + z)
  {
    var q := QuoteLength(y);
    assert y != "" && QuoteLength(y + z) == q;
    assert (y + z)[q..] == y[q..] + z;
    hide BareLength, QuoteLength;
    BareWithin(y[q..], z);
  }

  lemma MatchMore(h: string, y: string, z: string)
    requires IsHead(h) && y != "" && !IsSpace(y[0]) && MatchAt(h + y).Some?
    ensures MatchAt(h + (y + z)).Some? && MatchAt(h + (y + z)).value.head == |h|
  {
    hide IsHead, IsSpace, Enough, MatchAt, Meal, QuoteLength;
    MatchOf(h, y);
    EnoughMore(y, z);
    MatchOf(h, y + z);
  }

  /** A match of a beginning is a match of the whole, with the same head. */
  lemma PrefixMatch(p: string, s: string)
    requires p <= s && MatchAt(p).Some?
    ensures MatchAt(s).Some? && MatchAt(s).value.head == MatchAt(p).value.head
  {
    hide HeadAt, IsHead, IsSpace, MatchAt;
    var head := MatchAt(p).value.head;
    MatchHasHead(p, MatchAt(p).value);
    HeadFound(p);
    var h, y, z := p[..head], p[head..], s[|p|..];
    assert p == h + y && y[0] == p[head];
    MatchMore(h, y, z);
    assert s == h + (y + z);
  }

  lemma PlainUnmatched(s: string)
    requires s == "" || Lower(s[0]) != 'p'
    ensures MatchAt(s).None?
  {
  }

  lemma MarkerIsBare()
    ensures |REDACTED| == 10 && Plain(REDACTED) && forall i :: 0 <= i < |REDACTED| ==> Bare(REDACTED[i])
  {
  }

  lemma {:induction false} PassAfterPlain(a: string, s: string)
    requires Plain(a)
    ensures PasswordPass(a + s) == a + PasswordPass(s)
  {
    hide PasswordPass, MatchAt, Lower;
    if a == "" {
      assert a + s == s;
    } else {
      PlainUnmatched(a + s);
      PassUnmatched(a + s);
      assert (a + s)[1..] == a[1..] + s && a == [a[0]] + a[1..];
      PassAfterPlain(a[1..], s);
    }
  }

  lemma FirstStays(s: string)
    requires s != ""
    ensures PasswordPass(s) != "" && PasswordPass(s)[0] == s[0]
  {
    hide MatchAt;
  }

  // ----- A pass makes no new match -----

  /** A pass changes nothing up to the end of the name at `at`; or nowhere, if `at` is the end. */
  ghost predicate SameUpTo(s: string, at: nat) {
    if at >= |s| then at == |s| && PasswordPass(s) == s
    else
      && Named(s[at..]) && at + |NAME| <= |s| && at + |NAME| <= |PasswordPass(s)|
      && PasswordPass(s)[..at + |NAME|] == s[..at + |NAME|]
  }

  lemma ConsPrefix(c: char, a: string, b: string, n: nat)
    requires n <= |a| && n <= |b| && a[..n] == b[..n]
    ensures ([c] + a)[..n + 1] == ([c] + b)[..n + 1]
  {
    assert ([c] + a)[..n + 1] == [c] + a[..n];
    assert ([c] + b)[..n + 1] == [c] + b[..n];
  }

  lemma SameUpToNext(s: string, at: nat)
    requires s != "" && MatchAt(s).None? && SameUpTo(s[1..], at)
    ensures SameUpTo(s, at + 1)
  {
    PassUnmatched(s);
    hide PasswordPass, MatchAt, Named, IsSpace;
    var rest := s[1..];
    assert s == [s[0]] + rest;
    if at < |rest| {
      assert s[at + 1..] == rest[at..];
      ConsPrefix(s[0], PasswordPass(rest), rest, at + |NAME|);
    }
  }

  lemma SameUpToHead(s: string, m: Match)
    requires s != "" && MatchAt(s) == Some(m)
    ensures SameUpTo(s, 0)
  {
    PassMatched(s, m);
    MatchHasHead(s, m);
    assert s[0..] == s;
    assert Named(s);
    hide PasswordPass, MatchAt, Named, HeadAt, IsHead;
  }

  lemma {:induction false} FirstChange(s: string) returns (at: nat)
    ensures SameUpTo(s, at)
    decreases |s|
  {
    if s == "" {
      return 0;
    }
    hide SameUpTo;
    if MatchAt(s).Some? {
      SameUpToHead(s, MatchAt(s).value);
      return 0;
    }
    var rest := FirstChange(s[1..]);
    SameUpToNext(s, rest);
    at := rest + 1;
  }

  lemma NameShape(q: string, at: nat)
    requires at + |NAME| == |q| && Named(q[at..])
    ensures forall i :: at <= i < |q| ==> Bare(q[i]) && q[i] !in {':', '='}
    ensures Lower(q[at]) == 'p'
  {
    NameLetters(q[at..]);
    hide Named, Bare, Letter, Lower;
    forall i | at <= i < |q|
      ensures Bare(q[i]) && q[i] !in {':', '='}
    {
      assert q[i] == q[at..][i - at];
      LetterIsBare(q[i]);
    }
  }

  /** Two names do not overlap. */
  lemma NoNameWithin(q: string, at: nat)
    requires 1 <= at && |q| == at + |NAME| && Named(q) && Named(q[at..])
    ensures at >= |NAME|
  {
    NameLetters(q);
    NameLetters(q[at..]);
    hide Named, Letter, Lower;
  }

  /** A name further on stops every run within it, and fills a value by itself. */
  lemma HeadUpTo(q: string, at: nat, z: string)
    requires |NAME| <= at && |q| == at + |NAME| && Named(q[at..])
    ensures HeadAt(q + z) == HeadAt(q)
    ensures HeadAt(q).Some? ==> HeadAt(q).value <= at
  {
    hide SpaceLength, Named, IsSpace, Bare, SignAt, Lower;
    NamedPrefix(q, z);
    NameShape(q, at);
    BareIsNoSpace(q[at]);
    SignWithin(q, z, at);
    var sign := SignAt(q);
    assert (q + z)[sign] == q[sign];
    if sign < at {
      assert (q + z)[sign + 1..] == q[sign + 1..] + z && q[sign + 1..][at - sign - 1] == q[at];
      SpacesWithin(q[sign + 1..], z, at - sign - 1);
    }
  }

  lemma MatchUpTo(q: string, at: nat, z: string)
    requires 1 <= at && |q| == at + |NAME| && Named(q[at..])
    ensures MatchAt(q + z).Some? <==> MatchAt(q).Some?
  {
    hide HeadAt, BareLength, Meal, Named, QuoteLength;
    if Named(q) {
      NoNameWithin(q, at);
      HeadUpTo(q, at, z);
      if HeadAt(q).Some? {
        ValueUpTo(q, at, HeadAt(q).value, z);
      }
    } else {
      NamedPrefix(q, z);
      NotNamed(q);
      NotNamed(q + z);
    }
  }

  lemma NotNamed(s: string)
    requires !Named(s)
    ensures MatchAt(s).None?
  {
    hide Named;
  }

  /** Whether a value is long enough. */
  predicate Filled(s: string, head: nat)
    requires head <= |s|
  {
    BareLength(s[head + QuoteLength(s[head..])..]) >= VALUE_MIN
  }

  lemma ValueUpTo(q: string, at: nat, head: nat, z: string)
    requires head <= at && |q| == at + |NAME| && Named(q[at..])
    ensures Filled(q + z, head) <==> Filled(q, head)
  {
    NameShape(q, at);
    hide Named, BareLength, Bare;
    assert (q + z)[head] == q[head];
    var from := head + QuoteLength(q[head..]);
    assert from <= at by { BareIsNoQuote(q[at]); }
    assert (q + z)[from..] == q[from..] + z;
    BareWithin(q[from..], z);
    BareRun(q[from..]);
    assert forall i :: at <= i < |q| ==> q[from..][i - from] == q[i];
  }

  /** A position the text is not matched at is not matched after a pass over what follows it. */
  lemma NoNewMatch(s: string)
    requires s != "" && MatchAt(s).None?
    ensures MatchAt([s[0]] + PasswordPass(s[1..])).None?
  {
    hide MatchAt, PasswordPass, Named;
    var rest := s[1..];
    var at := FirstChange(rest);
    assert s == [s[0]] + rest;
    if at < |rest| {
      MatchAfter(s[0], rest, PasswordPass(rest), at);
    }
  }

  lemma MatchAfter(c: char, rest: string, passed: string, at: nat)
    requires at + |NAME| <= |rest| && at + |NAME| <= |passed| && Named(rest[at..])
    requires passed[..at + |NAME|] == rest[..at + |NAME|]
    ensures MatchAt([c] + passed).Some? <==> MatchAt([c] + rest).Some?
  {
    hide MatchAt, Named;
    var n := at + |NAME|;
    var q := [c] + rest[..n];
    var name := rest[at..][..|NAME|];
    assert q[at + 1..] == name && rest[at..] == name + rest[n..];
    NamedPrefix(name, rest[n..]);
    assert [c] + rest == q + rest[n..] && [c] + passed == q + passed[n..];
    MatchUpTo(q, at + 1, rest[n..]);
    MatchUpTo(q, at + 1, passed[n..]);
  }

  // ----- What a pass takes -----

  /** `password` in any case, a sign, white space around the sign. */
  predicate Spelled(name: string, before: string, sign: string, after: string) {
    && |name| == 8
    && (forall i :: 0 <= i < 8 ==> name[i] == "password"[i] || name[i] == "PASSWORD"[i])
    && sign in {":", "="} && Blank(before) && Blank(after)
  }

  /** No white space, no comma, no quote. */
  predicate Word(value: string) {
    forall i :: 0 <= i < |value| ==> value[i] !in {',', '"', '\''} && !IsSpace(value[i])
  }

  const QUOTES := {"", "\"", "'"}

  lemma SpelledIsHead(name: string, before: string, sign: string, after: string)
    requires Spelled(name, before, sign, after)
    ensures IsHead(name + before + sign + after)
  {
    var h := name + before + sign + after;
    assert forall i :: 0 <= i < 8 ==> h[i] == name[i];
    assert Named(h);
    assert h[8..] == before + (sign + after) && !IsSpace(sign[0]);
    SpacesThen(before, sign + after);
    assert SpaceLength(sign + after) == 0;
    hide SpaceLength, IsSpace, Named;
    assert SignAt(h) == 8 + |before| && h[8 + |before|] == sign[0];
    assert forall i :: 8 + |before| < i < |h| ==> h[i] == after[i - 9 - |before|];
  }

  lemma WordLength(value: string, close: string, rest: string)
    requires Word(value) && close in QUOTES
    requires rest == "" || rest[0] == ',' || IsSpace(rest[0])
    ensures BareLength(value + close + rest) == |value|
    ensures Meal(value + close + rest) == |value| + |close|
  {
    var tail := close + rest;
    TailLength(close, rest);
    hide BareLength, Quotation, IsSpace;
    assert value + close + rest == value + tail;
    assert forall i :: 0 <= i < |value| ==> Bare(value[i]);
    BareThen(value, tail);
    hide *;
    MealThen(value, tail);
  }

  lemma TailLength(close: string, rest: string)
    requires close in QUOTES && (rest == "" || rest[0] == ',' || IsSpace(rest[0]))
    ensures BareLength(close + rest) == 0 && Meal(close + rest) == |close|
  {
    var tail := close + rest;
    if close == "" {
      assert tail == rest;
      assert rest != "" ==> !Bare(rest[0]) && !Quotation(rest[0]);
    } else {
      assert tail[0] == close[0];
    }
    assert tail[0..] == tail;
  }

  lemma OpeningQuote(open: string, value: string, tail: string)
    requires Word(value) && open in QUOTES && value != ""
    ensures QuoteLength(open + (value + tail)) == |open|
    ensures (open + (value + tail))[|open|..] == value + tail
  {
    var y := open + (value + tail);
    if open != "" {
      assert y[0] == open[0];
    } else {
      assert y[0] == value[0];
    }
  }

  lemma StartsInk(open: string, value: string, tail: string)
    requires Word(value) && value != "" && open in QUOTES
    ensures var y := open + (value + tail); y != "" && !IsSpace(y[0])
  {
    assert (open + (value + tail))[0] == if open == "" then value[0] else open[0];
  }

  lemma MatchOfWord(h: string, open: string, value: string, close: string, rest: string)
    requires IsHead(h) && Word(value) && value != "" && open in QUOTES && close in QUOTES
    requires rest == "" || rest[0] == ',' || IsSpace(rest[0])
    ensures MatchAt(h + (open + (value + (close + rest))))
         == if |value| < 4 then None else Some(Match(|h|, |h| + |open| + |value| + |close|))
  {
    hide Word, IsHead, MatchAt, IsSpace, BareLength, QuoteLength, Meal, Quotation;
    var tail := close + rest;
    var y := open + (value + tail);
    StartsInk(open, value, tail);
    WordLength(value, close, rest);
    OpeningQuote(open, value, tail);
    assert value + close + rest == value + tail;
    MatchOf(h, y);
  }

  /** A value of four characters or more becomes the marker, with the quotes around it; a shorter one stays. */
  lemma ValueTaken(name: string, before: string, sign: string, after: string, open: string, value: string,
                   close: string, rest: string)
    requires Spelled(name, before, sign, after) && Word(value) && open in QUOTES && close in QUOTES
    requires rest == "" || rest[0] == ',' || IsSpace(rest[0])
    requires |value| >= 4
    ensures PasswordPass(name + before + sign + after + (open + (value + (close + rest))))
         == name + before + sign + after + "[REDACTED]" + PasswordPass(rest)
  {
    hide Spelled, Word, IsHead, MatchAt, PasswordPass, IsSpace;
    var h, y := name + before + sign + after, open + (value + (close + rest));
    SpelledIsHead(name, before, sign, after);
    MatchOfWord(h, open, value, close, rest);
    var end := |h| + |open| + |value| + |close|;
    assert (h + y)[..|h|] == h && (h + y)[end..] == rest;
    PassMatched(h + y, Match(|h|, end));
  }

  lemma {:induction false} TooShortForName(s: string)
    requires |s| < 8
    ensures PasswordPass(s) == s
  {
    if s != "" {
      assert MatchAt(s).None?;
      TooShortForName(s[1..]);
    }
  }

  lemma ValueTooShort(name: string, before: string, sign: string, after: string, open: string, value: string,
                      close: string)
    requires Spelled(name, before, sign, after) && Word(value) && open in QUOTES && close in QUOTES
    requires 0 < |value| < 4
    ensures var text := name + before + sign + after + (open + (value + close));
            PasswordPass(text) == text
  {
    hide Spelled, Word, IsHead, MatchAt, PasswordPass, IsSpace, Plain;
    var h, y := name + before + sign + after, open + (value + close);
    SpelledIsHead(name, before, sign, after);
    assert close + "" == close;
    MatchOfWord(h, open, value, close, "");
    HeadShape(h);
    PassUnmatched(h + y);
    assert h + y == [h[0]] + (h[1..] + y) && (h + y)[1..] == h[1..] + y;
    PassAfterPlain(h[1..], y);
    TooShortForName(y);
  }
}
