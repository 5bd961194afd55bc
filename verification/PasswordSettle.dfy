/**
 The loop with the password pattern as its step and a cut to a limit: which texts six rounds settle.
 */
module PasswordSettle {
  import opened Options
  import opened Text
  import opened Settle
  import opened PasswordRule
  import opened PasswordRounds

  // ----- Beginnings -----

  lemma {:induction false} PrefixPassed(p: string, s: string)
    requires p <= s && Passed(s, false)
    ensures Passed(p, false)
    decreases |s|
  {
    hide MatchAt, IsHead, Meal, PasswordPass, TailAt, HeadAt, Short, Marked;
    if p == "" {
    } else if MatchAt(s).None? {
      PassedNext(s);
      UnmatchedPrefix(p, s);
      PrefixPassed(p[1..], s[1..]);
    } else {
      var h, v := PassedMatch(s, MatchAt(s).value, false);
      MarkedPrefix(p, s, h, v);
      if |p| < |h| + VALUE_MIN {
        ShortCounts(p, 0, None);
      } else if !(p[|h|..] <= REDACTED) {
        PrefixPassed(p[|h|..][|REDACTED|..], v);
      }
    }
  }

  /** The tail of a beginning is a beginning of the tail. */
  lemma TailPrefix(p: string, s: string, h: string, v: string)
    requires p != "" && p <= s && IsHead(h) && Marked(s, h, v) && |p| >= |h| + VALUE_MIN
    ensures MatchAt(p).Some? && MatchAt(p).value.head == |h| && p[..|h|] == h
    ensures p[TailAt(p, MatchAt(p).value, false)..] <= v
  {
    hide MatchAt, IsHead, Marked, Short;
    MarkedPrefix(p, s, h, v);
  }

  /** A beginning owes no more than the whole. */
  lemma {:induction false} OwedPrefix(p: string, s: string)
    requires p <= s && Passed(s, false)
    ensures Owed(p, false) <= Owed(s, false)
    decreases |s|, 0
  {
    hide MatchAt, IsHead, Meal, PasswordPass, TailAt, HeadAt, Short, Marked, Owed, Taking, Passed;
    if p == "" {
      OwedEmpty(false);
    } else if MatchAt(s).None? {
      PassedNext(s);
      UnmatchedPrefix(p, s);
      OwedUnmatched(p, false);
      OwedUnmatched(s, false);
      OwedPrefix(p[1..], s[1..]);
    } else {
      var h, v := PassedMatch(s, MatchAt(s).value, false);
      if |p| < |h| + VALUE_MIN {
        MarkedPrefix(p, s, h, v);
        ShortCounts(p, 0, None);
      } else {
        TailPrefix(p, s, h, v);
        OwedMatched(p, MatchAt(p).value, false);
        OwedMatched(s, MatchAt(s).value, false);
        TakingPrefix(p[TailAt(p, MatchAt(p).value, false)..], v, 0, None);
      }
    }
  }

  lemma {:induction false} TakingPrefix(p: string, s: string, used: nat, life: Option<nat>)
    requires p <= s && Passed(s, false)
    ensures Taking(p, used, life, false) <= Taking(s, used, life, false)
    decreases |s|, 2
  {
    hide MatchAt, PasswordPass, Owed, Taking, TakingBare, Passed, Stops, Quotation, Bare;
    if p == "" {
      OwedEmpty(false);
      TakingStopped(p, used, life, false);
    } else if Stops(s[0]) || life == Some(used) {
      OwedPrefix(p, s);
      TakingStopped(p, used, life, false);
      TakingStopped(s, used, life, false);
    } else if Quotation(s[0]) {
      StopUnmatched(s);
      TakingQuote(p, used, life, false);
      TakingQuote(s, used, life, false);
      TakingPrefix(p[1..], s[1..], used + 1, life);
    } else {
      ElseBare(s[0]);
      TakingBareOf(p, used, life, false);
      TakingBareOf(s, used, life, false);
      BarePrefix(p, s, used, life);
    }
  }

  lemma {:induction false} BarePrefix(p: string, s: string, used: nat, life: Option<nat>)
    requires p <= s && Passed(s, false)
    ensures TakingBare(p, used, life, false) <= TakingBare(s, used, life, false)
    decreases |s|, 1
  {
    hide MatchAt, PasswordPass, Owed, Taking, TakingBare, Passed, Stops, Quotation, Bare, IsHead, TailAt, Short, Marked;
    if p == "" {
      OwedEmpty(false);
      BareStopped(p, used, life, false);
    } else if Stops(s[0]) {
      OwedPrefix(p, s);
      BareStopped(p, used, life, false);
      BareStopped(s, used, life, false);
    } else if Quotation(s[0]) {
      StopUnmatched(s);
      TakingQuote(p, used, life, false);
      TakingQuote(s, used, life, false);
      TakingPrefix(p[1..], s[1..], used + 1, life);
    } else if MatchAt(s).None? {
      ElseBare(s[0]);
      PassedNext(s);
      UnmatchedPrefix(p, s);
      BareUnmatched(p, used, life, false);
      BareUnmatched(s, used, life, false);
      BarePrefix(p[1..], s[1..], used, life);
    } else {
      var h, v := PassedMatch(s, MatchAt(s).value, false);
      BareMatched(s, MatchAt(s).value, used, life, false);
      if |p| < |h| + VALUE_MIN {
        MarkedPrefix(p, s, h, v);
        ShortCounts(p, used, life);
      } else {
        TailPrefix(p, s, h, v);
        BareMatched(p, MatchAt(p).value, used, life, false);
        TakingPrefix(p[TailAt(p, MatchAt(p).value, false)..], v, 0, Next(h, used, life));
      }
    }
  }

  lemma ConsBetween(c: char, a: string, b: string, d: string)
    requires a <= b <= d
    ensures [c] + a <= [c] + b <= [c] + d
  {
  }

  /** Of a passed text that owes nothing a pass at most completes the last marker. */
  lemma {:induction false} ZeroStays(w: string, z: string)
    requires w <= z && Passed(z, true) && Owed(w, false) == 0
    ensures w <= PasswordPass(w) <= z
    decreases |z|, 0
  {
    hide MatchAt, IsHead, PasswordPass, HeadAt, Short, Marked, Owed;
    if w == "" {
      PassEmpty();
    } else if MatchAt(z).None? {
      UnmatchedPrefix(w, z);
      PassUnmatched(w);
      OwedUnmatched(w, false);
      ZeroStays(w[1..], z[1..]);
      assert w == [w[0]] + w[1..] && z == [z[0]] + z[1..];
      ConsBetween(w[0], w[1..], PasswordPass(w[1..]), z[1..]);
    } else {
      var h, v := PassedMatch(z, MatchAt(z).value, true);
      MarkedPrefix(w, z, h, v);
      if |w| < |h| + VALUE_MIN {
        ShortCounts(w, 0, None);
      } else {
        ZeroMarked(w, h, v);
      }
    }
  }

  lemma ZeroMarked(w: string, h: string, v: string)
    requires IsHead(h) && h <= w && MatchAt(w).Some? && MatchAt(w).value.head == |h|
    requires var q := w[|h|..]; q <= REDACTED || (REDACTED <= q && q[|REDACTED|..] <= v)
    requires Passed(v, true) && Owed(w, false) == 0
    ensures w <= PasswordPass(w) <= h + REDACTED + v
    decreases |v|, 2
  {
    hide MatchAt, IsHead, PasswordPass, Owed, Passed;
    var q := w[|h|..];
    assert w == h + q && w[..|h|] == h;
    if q <= REDACTED {
      CutMatch(w, MatchAt(w).value);
    } else {
      SplitMarked(w, |h|);
      ZeroTail(w, h, q[|REDACTED|..], v);
    }
  }

  lemma ZeroTail(w: string, h: string, t: string, v: string)
    requires IsHead(h) && w == h + REDACTED + t && t <= v && Passed(v, true) && Owed(w, false) == 0
    ensures w <= PasswordPass(w) <= h + REDACTED + v
    decreases |v|, 1
  {
    hide MatchAt, IsHead, Meal, PasswordPass, Owed, Taking, Stops, Passed;
    MarkerPass(h, t);
    OwedMarked(h, t);
    TakingZero(t);
    NoMeal(t);
    ZeroStays(t, v);
  }

  lemma TakingZero(t: string)
    requires Taking(t, 0, None, false) == 0
    ensures t == "" || Stops(t[0])
    ensures Owed(t, false) == 0
  {
    hide Owed, Stops, Quotation;
    OwedEmpty(false);
  }

  /** A second pass of the password pattern changes nothing exactly when every value of the text is followed by
      white space, a comma or the end. */
  lemma PassAgainIff(s: string)
    ensures PasswordPass(PasswordPass(s)) == PasswordPass(s) <==> Closed(s)
  {
    hide PasswordPass, Closed, Owed, Passed;
    var once := PasswordPass(s);
    ClosedIffOwed(s);
    RawOwed(s);
    PassIsPassed(s);
    WholeIsPassed(once);
    OwedStep(once);
    if Owed(once, false) == 0 {
      ZeroStays(once, once);
    }
  }

  lemma {:induction false} WholeIsPassed(s: string)
    requires Passed(s, true)
    ensures Passed(s, false)
    decreases |s|
  {
    hide MatchAt;
    if s != "" {
      if MatchAt(s).None? {
        WholeIsPassed(s[1..]);
      } else {
        WholeIsPassed(s[MatchAt(s).value.head..][|REDACTED|..]);
      }
    }
  }

  // ----- Cutting the last marker short -----

  /** `p` is the text `z`, or lacks at most the last marker of it, whose head is at `i`. */
  predicate Near(z: string, p: string, i: nat) {
    || p == z
    || (p <= z && i < |z| && MatchAt(z[i..]).Some?
        && var at := i + MatchAt(z[i..]).value.head; at <= |p| && |z| <= at + |REDACTED|)
  }

  lemma NearNext(z: string, p: string, i: nat)
    requires z != "" && MatchAt(z).None? && p != z && Near(z, p, i)
    ensures i > 0 && p != "" && Near(z[1..], p[1..], i - 1)
  {
    hide MatchAt;
    assert z[0..] == z;
    assert z[i..] == z[1..][i - 1..];
  }

  lemma MatchedFirst(s: string)
    requires s != "" && MatchAt(s).Some?
    ensures Lower(s[0]) == 'p'
  {
    if Lower(s[0]) != 'p' {
      PlainUnmatched(s);
      assert false;
    }
  }

  lemma HeadIsPlain(z: string, h: string, v: string)
    requires IsHead(h) && Marked(z, h, v)
    ensures forall k :: 0 < k < |z| - |v| ==> Lower(z[k]) != 'p'
  {
    HeadShape(h);
    MarkerIsBare();
    hide IsHead, Lower, Bare;
    assert forall k :: 0 < k < |h| ==> z[k] == h[1..][k - 1];
    assert forall k :: |h| <= k < |z| - |v| ==> z[k] == REDACTED[k - |h|];
  }

  /** A match behind a head and its marker is a match of their tail. */
  lemma NextHead(z: string, h: string, v: string, i: nat)
    requires IsHead(h) && Marked(z, h, v) && 0 < i < |z| && MatchAt(z[i..]).Some?
    ensures z == h + REDACTED + v && i >= |h| + |REDACTED| && z[i..] == v[i - |h| - |REDACTED|..]
  {
    HeadIsPlain(z, h, v);
    MatchedFirst(z[i..]);
    hide IsHead, MatchAt, Lower;
    assert z[i..][0] == z[i];
  }

  lemma NearTail(z: string, p: string, i: nat, h: string, v: string) returns (j: nat)
    requires MatchAt(z).Some? && h == z[..MatchAt(z).value.head]
    requires IsHead(h) && Marked(z, h, v) && p != z && Near(z, p, i)
    ensures p != "" && p <= z
    ensures |p| < |h| + VALUE_MIN ==> v == ""
    ensures |p| >= |h| + VALUE_MIN ==>
              && MatchAt(p).Some? && MatchAt(p).value.head == |h| && p[..|h|] == h
              && Near(v, p[TailAt(p, MatchAt(p).value, false)..], j)
  {
    hide MatchAt, IsHead, Short;
    j := 0;
    if i == 0 {
      assert z[0..] == z;
      assert v == "";
      if |p| >= |h| + VALUE_MIN {
        TailPrefix(p, z, h, v);
      }
    } else {
      NextHead(z, h, v, i);
      TailPrefix(p, z, h, v);
      j := i - |h| - |REDACTED|;
    }
  }

  lemma {:induction false} OwedNear(z: string, p: string, i: nat)
    requires Passed(z, false) && Near(z, p, i)
    ensures Owed(p, false) == Owed(z, false)
    decreases |z|, 0
  {
    hide MatchAt, IsHead, PasswordPass, TailAt, HeadAt, Short, Marked, Owed, Taking, Passed, Near;
    if p == z {
      return;
    }
    NearNotEmpty(z, p, i);
    if MatchAt(z).None? {
      NearNext(z, p, i);
      PassedNext(z);
      NearPrefix(z, p, i);
      UnmatchedPrefix(p, z);
      OwedUnmatched(p, false);
      OwedUnmatched(z, false);
      OwedNear(z[1..], p[1..], i - 1);
    } else {
      var h, v := PassedMatch(z, MatchAt(z).value, false);
      var j := NearTail(z, p, i, h, v);
      OwedMatched(z, MatchAt(z).value, false);
      if |p| < |h| + VALUE_MIN {
        MarkedPrefix(p, z, h, v);
        ShortCounts(p, 0, None);
        OwedEmpty(false);
        TakingStopped(v, 0, None, false);
      } else {
        OwedMatched(p, MatchAt(p).value, false);
        TakingNear(v, p[TailAt(p, MatchAt(p).value, false)..], j, 0, None);
      }
    }
  }

  lemma NearNotEmpty(z: string, p: string, i: nat)
    requires Near(z, p, i) && p != z
    ensures z != "" && p != "" && p[0] == z[0]
  {
    hide MatchAt;
  }

  lemma NearPrefix(z: string, p: string, i: nat)
    requires Near(z, p, i)
    ensures p <= z
  {
    hide MatchAt;
  }

  lemma {:induction false} TakingNear(z: string, p: string, i: nat, used: nat, life: Option<nat>)
    requires Passed(z, false) && Near(z, p, i)
    ensures Taking(p, used, life, false) == Taking(z, used, life, false)
    decreases |z|, 2
  {
    hide MatchAt, PasswordPass, Owed, Taking, TakingBare, Passed, Stops, Quotation, Bare, Near;
    if p == z {
      return;
    }
    NearNotEmpty(z, p, i);
    ElseBare(z[0]);
    if Stops(z[0]) || life == Some(used) {
      OwedNear(z, p, i);
      TakingStopped(p, used, life, false);
      TakingStopped(z, used, life, false);
    } else if Quotation(z[0]) {
      StopUnmatched(z);
      NearNext(z, p, i);
      TakingQuote(p, used, life, false);
      TakingQuote(z, used, life, false);
      TakingNear(z[1..], p[1..], i - 1, used + 1, life);
    } else {
      TakingBareOf(p, used, life, false);
      TakingBareOf(z, used, life, false);
      BareNear(z, p, i, used, life);
    }
  }

  lemma {:induction false} BareNear(z: string, p: string, i: nat, used: nat, life: Option<nat>)
    requires Passed(z, false) && Near(z, p, i)
    ensures TakingBare(p, used, life, false) == TakingBare(z, used, life, false)
    decreases |z|, 1
  {
    hide MatchAt, PasswordPass, Owed, Taking, TakingBare, Passed, Stops, Quotation, Bare, Near, IsHead, TailAt;
    hide Short, Marked, HeadAt;
    if p == z {
      return;
    }
    NearNotEmpty(z, p, i);
    ElseBare(z[0]);
    if Stops(z[0]) {
      OwedNear(z, p, i);
      BareStopped(p, used, life, false);
      BareStopped(z, used, life, false);
    } else if Quotation(z[0]) {
      StopUnmatched(z);
      NearNext(z, p, i);
      TakingQuote(p, used, life, false);
      TakingQuote(z, used, life, false);
      TakingNear(z[1..], p[1..], i - 1, used + 1, life);
    } else if MatchAt(z).None? {
      NearNext(z, p, i);
      PassedNext(z);
      NearPrefix(z, p, i);
      UnmatchedPrefix(p, z);
      BareUnmatched(p, used, life, false);
      BareUnmatched(z, used, life, false);
      BareNear(z[1..], p[1..], i - 1, used, life);
    } else {
      var h, v := PassedMatch(z, MatchAt(z).value, false);
      var j := NearTail(z, p, i, h, v);
      BareMatched(z, MatchAt(z).value, used, life, false);
      if |p| < |h| + VALUE_MIN {
        MarkedPrefix(p, z, h, v);
        ShortCounts(p, used, life);
        OwedEmpty(false);
        TakingStopped(v, 0, Next(h, used, life), false);
      } else {
        BareMatched(p, MatchAt(p).value, used, life, false);
        TakingNear(v, p[TailAt(p, MatchAt(p).value, false)..], j, 0, Next(h, used, life));
      }
    }
  }

  // ----- A pass over a passed text makes it no heavier -----

  /** A measure of texts by their characters: their number, their bytes, their percent-encoded length. */
  ghost predicate Additive(weight: string -> nat) {
    forall a, b :: weight(a + b) == weight(a) + weight(b)
  }

  lemma {:induction false} PassedAfterPlain(a: string, s: string, whole: bool)
    requires Plain(a) && Passed(s, whole)
    ensures Passed(a + s, whole)
  {
    hide MatchAt, Lower;
    if a == "" {
      assert a + s == s;
    } else {
      PlainUnmatched(a + s);
      assert (a + s)[1..] == a[1..] + s && a == [a[0]] + a[1..];
      PassedAfterPlain(a[1..], s, whole);
    }
  }

  lemma PassedRest(s: string, whole: bool)
    requires s != "" && Passed(s, whole) && MatchAt(s).None?
    ensures Passed(s[1..], whole)
  {
    hide MatchAt;
  }

  lemma {:induction false} PassedEnd(s: string, k: nat, whole: bool)
    requires Passed(s, whole) && k <= |s|
    ensures Passed(s[k..], whole)
    decreases |s|
  {
    hide MatchAt, IsHead, PasswordPass, TailAt, HeadAt, Marked, Passed, Plain;
    if k == 0 {
      assert s[0..] == s;
    } else if MatchAt(s).None? {
      PassedRest(s, whole);
      PassedEnd(s[1..], k - 1, whole);
      assert s[k..] == s[1..][k - 1..];
    } else {
      var h, v := PassedMatch(s, MatchAt(s).value, whole);
      var n := |s| - |v|;
      if k >= n {
        PassedEnd(v, k - n, whole);
        MarkedTail(s, h, v, k);
      } else {
        var a := MarkedRest(s, h, v, k);
        PassedAfterPlain(a, v, whole);
      }
    }
  }

  lemma MarkedTail(s: string, h: string, v: string, k: nat)
    requires Marked(s, h, v) && |s| - |v| <= k <= |s|
    ensures s[k..] == v[k - (|s| - |v|)..]
  {
  }

  lemma MarkedRest(s: string, h: string, v: string, k: nat) returns (a: string)
    requires IsHead(h) && Marked(s, h, v) && 0 < k < |s| - |v|
    ensures s[k..] == a + v && Plain(a)
  {
    HeadIsPlain(s, h, v);
    hide IsHead, Lower;
    a := s[k..|s| - |v|];
    MarkedTail(s, h, v, |s| - |v|);
    assert v[0..] == v;
  }

  /** A pass over a text that has been passed makes it no heavier, or completes its last marker and is no heavier
      up to there. */
  ghost predicate NoHeavier(s: string, t: string, weight: string -> nat, whole: bool) {
    || weight(t) <= weight(s)
    || (!whole && exists at: nat, i: nat ::
          at <= |t| && weight(t[..at]) <= weight(s) && LastMarker(t, at, i))
  }

  predicate LastMarker(t: string, at: nat, i: nat) {
    && i < |t| && MatchAt(t[i..]).Some? && i + MatchAt(t[i..]).value.head == at <= |t|
    && |t| <= at + |REDACTED|
  }

  lemma LastMarkerAfter(a: string, t: string, at: nat, i: nat)
    requires LastMarker(t, at, i)
    ensures LastMarker(a + t, |a| + at, |a| + i)
    ensures (a + t)[..|a| + at] == a + t[..at]
  {
    hide MatchAt;
    assert (a + t)[|a| + i..] == t[i..];
  }

  lemma HeavierAfter(a: string, b: string, s: string, t: string, weight: string -> nat, whole: bool)
    requires Additive(weight) && NoHeavier(s, t, weight, whole) && weight(a) <= weight(b)
    ensures NoHeavier(b + s, a + t, weight, whole)
  {
    hide LastMarker;
    if weight(t) > weight(s) {
      var at: nat, i: nat :| at <= |t| && weight(t[..at]) <= weight(s) && LastMarker(t, at, i);
      LastMarkerAfter(a, t, at, i);
      assert weight((a + t)[..|a| + at]) <= weight(b + s);
    }
  }

  lemma {:induction false} PassNoHeavier(s: string, weight: string -> nat, whole: bool)
    requires Passed(s, whole) && Additive(weight)
    ensures NoHeavier(s, PasswordPass(s), weight, whole)
    decreases |s|
  {
    hide MatchAt, IsHead, PasswordPass, TailAt, HeadAt, Meal, NoHeavier, Additive, Passed;
    if s == "" {
      PassEmpty();
      SameWeight("", weight, whole);
    } else if MatchAt(s).None? {
      PassUnmatched(s);
      PassedEnd(s, 1, whole);
      PassNoHeavier(s[1..], weight, whole);
      HeavierAfter([s[0]], [s[0]], s[1..], PasswordPass(s[1..]), weight, whole);
      assert s == [s[0]] + s[1..];
    } else {
      var h, v := PassedMatch(s, MatchAt(s).value, whole);
      if s == h + REDACTED + v {
        var k := Meal(v);
        PassedEnd(v, k, whole);
        PassNoHeavier(v[k..], weight, whole);
        LessHeavy(h + REDACTED, v[..k], weight);
        HeavierAfter(h + REDACTED, h + REDACTED + v[..k], v[k..], PasswordPass(v[k..]), weight, whole);
        assert s == h + REDACTED + v[..k] + v[k..];
      } else {
        PassEmpty();
        assert v == "" && v[Meal(v)..] == "";
        assert h + REDACTED + "" == h + REDACTED;
        CompletedMarker(s, h, weight);
      }
    }
  }

  lemma SameWeight(s: string, weight: string -> nat, whole: bool)
    ensures NoHeavier(s, s, weight, whole)
  {
  }

  lemma LessHeavy(a: string, b: string, weight: string -> nat)
    requires Additive(weight)
    ensures weight(a) <= weight(a + b)
  {
  }

  lemma MarkerIsLast(h: string)
    requires IsHead(h)
    ensures LastMarker(h + REDACTED, |h|, 0)
  {
    MarkerMatch(h, "");
    hide MatchAt, IsHead, Meal;
    var t := h + REDACTED;
    assert t == h + REDACTED + "" && t[0..] == t;
  }

  lemma CompletedMarker(s: string, h: string, weight: string -> nat)
    requires IsHead(h) && h <= s && Additive(weight)
    ensures NoHeavier(s, h + REDACTED, weight, false)
  {
    hide LastMarker, IsHead, Additive, MatchAt;
    MarkerIsLast(h);
    LessHeavy(h, s[|h|..], weight);
    assert s == h + s[|h|..] && (h + REDACTED)[..|h|] == h;
    HeavyUpTo(s, h + REDACTED, |h|, 0, weight);
  }

  lemma HeavyUpTo(s: string, t: string, at: nat, i: nat, weight: string -> nat)
    requires at <= |t| && weight(t[..at]) <= weight(s) && LastMarker(t, at, i)
    ensures NoHeavier(s, t, weight, false)
  {
    hide LastMarker;
  }

  // ----- The loop -----

  /** The cut keeps the longest beginning within the limit. */
  ghost predicate LongestFit(cut: Pass, weight: string -> nat, limit: nat) {
    forall x :: && cut(x) <= x && weight(cut(x)) <= limit
                && forall p :: p <= x && weight(p) <= limit ==> |p| <= |cut(x)|
  }

  /** A text that has been through a round. */
  ghost predicate Kept(text: string, cut: Pass) {
    exists x :: Passed(x, true) && text == cut(x)
  }

  lemma RoundIsKept(cut: Pass, text: string)
    ensures Kept(Round(PasswordPass, cut, text), cut)
  {
    PassIsPassed(text);
    hide Passed, PasswordPass;
  }

  lemma CutOf(cut: Pass, weight: string -> nat, limit: nat, x: string, p: string)
    requires LongestFit(cut, weight, limit) && p <= x && weight(p) <= limit
    ensures p <= cut(x) <= x && weight(cut(x)) <= limit
  {
  }

  /** After a round the next one changes nothing exactly when nothing is owed. */
  lemma RoundStaysIff(cut: Pass, weight: string -> nat, limit: nat, text: string)
    requires LongestFit(cut, weight, limit) && Additive(weight) && Kept(text, cut)
    ensures Fixpoint(PasswordPass, cut, text) <==> Owed(text, false) == 0
  {
    hide Owed, Passed, PasswordPass, Additive, LongestFit;
    var x :| Passed(x, true) && text == cut(x);
    CutFits(cut, weight, limit, x);
    var t := PasswordPass(text);
    CutFits(cut, weight, limit, t);
    WholeIsPassed(x);
    PrefixPassed(text, x);
    if Owed(text, false) == 0 {
      ZeroStays(text, x);
      CutOf(cut, weight, limit, t, text);
      CutOf(cut, weight, limit, x, cut(t));
    } else if cut(t) == text {
      PassIsPassed(text);
      WholeIsPassed(t);
      OwedPrefix(text, t);
      OwedStep(text);
      assert false;
    }
  }

  lemma CutFits(cut: Pass, weight: string -> nat, limit: nat, x: string)
    requires LongestFit(cut, weight, limit)
    ensures cut(x) <= x && weight(cut(x)) <= limit
    ensures weight(x) <= limit ==> cut(x) == x
  {
  }

  /** A round is one less to go. */
  lemma RoundStep(cut: Pass, weight: string -> nat, limit: nat, text: string)
    requires LongestFit(cut, weight, limit) && Additive(weight) && Kept(text, cut)
    ensures Owed(Round(PasswordPass, cut, text), false) == Less(Owed(text, false), 1)
  {
    hide Owed, Passed, PasswordPass, Additive, LongestFit, NoHeavier;
    var x :| Passed(x, true) && text == cut(x);
    CutFits(cut, weight, limit, x);
    WholeIsPassed(x);
    PrefixPassed(text, x);
    OwedStep(text);
    PassNoHeavier(text, weight, false);
    PassIsPassed(text);
    WholeIsPassed(PasswordPass(text));
    CutNear(cut, weight, limit, text, PasswordPass(text));
  }

  lemma CutNear(cut: Pass, weight: string -> nat, limit: nat, s: string, t: string)
    requires LongestFit(cut, weight, limit) && weight(s) <= limit && Passed(t, false)
    requires NoHeavier(s, t, weight, false)
    ensures Owed(cut(t), false) == Owed(t, false)
  {
    hide Owed, Passed, LongestFit, MatchAt;
    CutFits(cut, weight, limit, t);
    if weight(t) > weight(s) {
      var at: nat, i: nat :| at <= |t| && weight(t[..at]) <= weight(s) && LastMarker(t, at, i);
      CutOf(cut, weight, limit, t, t[..at]);
      OwedNear(t, cut(t), i);
    }
  }

  lemma {:induction false} RoundsLeft(cut: Pass, weight: string -> nat, limit: nat, text: string, n: nat)
    requires LongestFit(cut, weight, limit) && Additive(weight) && Kept(text, cut)
    ensures Kept(Iterate(PasswordPass, cut, text, n), cut)
    ensures Owed(Iterate(PasswordPass, cut, text, n), false) == Less(Owed(text, false), n)
    decreases n
  {
    hide Owed, Kept, PasswordPass, Additive, LongestFit, Round;
    if n > 0 {
      RoundStep(cut, weight, limit, text);
      RoundIsKept(cut, text);
      RoundsLeft(cut, weight, limit, Round(PasswordPass, cut, text), n - 1);
    }
  }

  /** After `n + 1` rounds the text stays exactly when what the first one kept owes at most `n`. */
  lemma RoundsNeeded(cut: Pass, weight: string -> nat, limit: nat, text: string, n: nat)
    requires LongestFit(cut, weight, limit) && Additive(weight)
    ensures Fixpoint(PasswordPass, cut, Iterate(PasswordPass, cut, text, n + 1))
            <==> Owed(Round(PasswordPass, cut, text), false) <= n
  {
    hide Owed, Kept, PasswordPass, Additive, LongestFit, Round;
    var kept := Round(PasswordPass, cut, text);
    RoundIsKept(cut, text);
    RoundsLeft(cut, weight, limit, kept, n);
    RoundStaysIff(cut, weight, limit, Iterate(PasswordPass, cut, kept, n));
  }

  /** The step does to every text the loop comes to what the password pattern does. */
  ghost predicate ActsAlike(step: Pass, cut: Pass, text: string, rounds: nat) {
    forall k: nat :: k <= rounds ==>
      var t := Iterate(PasswordPass, cut, text, k); step(t) == PasswordPass(t)
  }

  lemma {:induction false} IterateAlike(step: Pass, cut: Pass, text: string, rounds: nat, n: nat)
    requires ActsAlike(step, cut, text, rounds) && n <= rounds + 1
    ensures Iterate(step, cut, text, n) == Iterate(PasswordPass, cut, text, n)
    decreases n
  {
    hide PasswordPass;
    if n > 0 {
      IterateAlike(step, cut, text, rounds, n - 1);
      IterateSplit(step, cut, text, n - 1, 1);
      IterateSplit(PasswordPass, cut, text, n - 1, 1);
      var t := Iterate(PasswordPass, cut, text, n - 1);
      assert step(t) == PasswordPass(t);
      OneRound(step, cut, t);
      OneRound(PasswordPass, cut, t);
      hide Iterate;
    }
  }

  lemma OneRound(step: Pass, cut: Pass, text: string)
    ensures Iterate(step, cut, text, 1) == Round(step, cut, text)
  {
    assert Iterate(step, cut, Round(step, cut, text), 0) == Round(step, cut, text);
  }

  /** Six rounds suffice exactly when what the first one kept owes at most five more; and they are not enough
      exactly when settling the result again changes it. */
  lemma SettledIffOwed(step: Pass, cut: Pass, weight: string -> nat, limit: nat, text: string)
    requires LongestFit(cut, weight, limit) && Additive(weight) && ActsAlike(step, cut, text, 2 * ROUNDS)
    ensures var enough := Owed(Round(PasswordPass, cut, text), false) < ROUNDS;
            && (Fixpoint(step, cut, Settled(step, cut, text)) <==> enough)
            && (Settled(step, cut, Settled(step, cut, text)) == Settled(step, cut, text) <==> enough)
  {
    hide Owed, PasswordPass, Additive, LongestFit, Round;
    var kept := Round(PasswordPass, cut, text);
    IterateAlike(step, cut, text, 2 * ROUNDS, ROUNDS);
    IterateAlike(step, cut, text, 2 * ROUNDS, ROUNDS + 1);
    IterateAlike(step, cut, text, 2 * ROUNDS, 2 * ROUNDS);
    var settled := Settled(step, cut, text);
    IterateSplit(step, cut, text, ROUNDS, 1);
    IterateSplit(PasswordPass, cut, text, ROUNDS, 1);
    OneRound(step, cut, settled);
    OneRound(PasswordPass, cut, settled);
    RoundsNeeded(cut, weight, limit, text, ROUNDS - 1);
    IterateSplit(step, cut, text, ROUNDS, ROUNDS);
    hide Iterate;
    TwiceIffOnce(cut, weight, limit, text);
  }

  lemma TwiceIffOnce(cut: Pass, weight: string -> nat, limit: nat, text: string)
    requires LongestFit(cut, weight, limit) && Additive(weight)
    ensures var settled := Iterate(PasswordPass, cut, text, ROUNDS);
            Iterate(PasswordPass, cut, text, 2 * ROUNDS) == settled <==> Fixpoint(PasswordPass, cut, settled)
  {
    hide Owed, PasswordPass, Additive, LongestFit, Kept, Round;
    var settled := Iterate(PasswordPass, cut, text, ROUNDS);
    var kept := Round(PasswordPass, cut, text);
    RoundIsKept(cut, text);
    RoundsLeft(cut, weight, limit, kept, ROUNDS - 1);
    RoundStaysIff(cut, weight, limit, settled);
    IterateSplit(PasswordPass, cut, text, ROUNDS, ROUNDS);
    if Fixpoint(PasswordPass, cut, settled) {
      FixpointStays(PasswordPass, cut, settled, ROUNDS);
    } else {
      RoundsLeft(cut, weight, limit, settled, ROUNDS);
    }
  }

  /** Where the cut leaves the first pass alone, what is owed can be read off the text itself. */
  lemma UncutOwed(cut: Pass, text: string)
    requires cut(PasswordPass(text)) == PasswordPass(text)
    ensures Owed(Round(PasswordPass, cut, text), false) == Owed(text, true)
  {
    RawOwed(text);
    hide Owed, PasswordPass;
  }

  const HEADER_VALUE_MAX: nat := 2048

  function HeaderCut(): Pass {
    x => Take(x, HEADER_VALUE_MAX)
  }

  /** For instance a header value, which is cut to a number of characters. */
  lemma HeaderValueSettlesIff(step: Pass, text: string)
    requires ActsAlike(step, HeaderCut(), text, 2 * ROUNDS)
    ensures var settled := Settled(step, HeaderCut(), text);
            Settled(step, HeaderCut(), settled) == settled
            <==> Owed(Round(PasswordPass, HeaderCut(), text), false) < ROUNDS
  {
    var length: string -> nat := x => |x|;
    assert LongestFit(HeaderCut(), length, HEADER_VALUE_MAX) && Additive(length);
    hide Owed, PasswordPass, Additive, LongestFit, Round, Settled, ActsAlike;
    SettledIffOwed(step, HeaderCut(), length, HEADER_VALUE_MAX, text);
  }

  // ----- One value and its quotes -----

  const ASSIGNED: string := "password: "

  function Quotes(n: nat): string {
    seq(n, i => '"')
  }

  lemma AssignedIsHead()
    ensures IsHead(ASSIGNED) && |ASSIGNED| == 10
  {
    assert ASSIGNED == ['p', 'a', 's', 's', 'w', 'o', 'r', 'd', ':', ' '];
    assert ASSIGNED[|NAME|..] == ":" + " " && SpaceLength(ASSIGNED[|NAME|..]) == 0;
  }

  /** A value with text behind its quote is not closed, unless white space or a comma comes first: two quotes, or
      a quote within the value, are enough. */
  lemma QuotedIsOpen(v: string, t: string)
    requires |v| >= VALUE_MIN && forall i :: 0 <= i < |v| ==> Bare(v[i])
    requires t != "" && !Stops(t[0])
    ensures !Closed(ASSIGNED + v + "\"" + t)
  {
    hide MatchAt, IsHead, Bare, Stops, ASSIGNED, Meal;
    var s := ASSIGNED + v + "\"" + t;
    AssignedMatch(v, "\"" + t);
    assert s == ASSIGNED + v + ("\"" + t);
    OneQuoteMeal(t);
    assert s[|ASSIGNED| + |v| + 1..] == t;
  }

  lemma OneQuoteMeal(t: string)
    ensures Meal("\"" + t) == 1
  {
    assert BareLength("\"" + t) == 0 && ("\"" + t)[0..] == "\"" + t;
  }

  lemma AssignedMatch(v: string, rest: string)
    requires |v| >= VALUE_MIN && forall i :: 0 <= i < |v| ==> Bare(v[i])
    ensures MatchAt(ASSIGNED + v + rest) == Some(Match(|ASSIGNED|, |ASSIGNED| + |v| + Meal(rest)))
  {
    AssignedIsHead();
    hide MatchAt, IsHead, Bare, Meal, BareLength;
    BareThen(v, rest);
    MealThen(v, rest);
    assert ASSIGNED + v + rest == ASSIGNED + (v + rest) && (v + rest)[0] == v[0];
    MatchOfValue(ASSIGNED, v + rest);
  }

  lemma {:induction false} QuotesOwed(n: nat, used: nat)
    ensures Taking(Quotes(n), used, None, true) == used + n
    decreases n
  {
    if n == 0 {
      OwedEmpty(true);
    } else {
      assert Quotes(n)[1..] == Quotes(n - 1);
      hide Owed;
      TakingQuote(Quotes(n), used, None, true);
      QuotesOwed(n - 1, used + 1);
    }
  }

  lemma QuoteMealOf(n: nat)
    ensures Meal(Quotes(n)) == if n == 0 then 0 else 1
  {
    assert n > 0 ==> Quotes(n)[0..] == Quotes(n);
  }

  /** Every quote behind a value but the first costs a pass of its own, and every pass takes one: so seven quotes
      are one too many for six rounds, whatever the cut does as long as it leaves such texts alone. */
  lemma QuotedOwes(v: string, n: nat)
    requires |v| >= VALUE_MIN && forall i :: 0 <= i < |v| ==> Bare(v[i])
    ensures Owed(ASSIGNED + v + Quotes(n), true) == Less(n, 1)
    ensures PasswordPass(ASSIGNED + v + Quotes(n)) == ASSIGNED + REDACTED + Quotes(Less(n, 1))
  {
    hide MatchAt, Bare, Owed, Taking, TailAt, Meal, PasswordPass;
    var s, rest := ASSIGNED + v + Quotes(n), Quotes(Less(n, 1));
    AssignedMatch(v, Quotes(n));
    QuoteMealOf(n);
    var m := MatchAt(s).value;
    OwedMatched(s, m, true);
    PassMatched(s, m);
    RawTail(s, m);
    assert s[m.end..] == rest && s[..|ASSIGNED|] == ASSIGNED;
    QuotesOwed(Less(n, 1), 0);
    QuotesAlone(Less(n, 1));
  }

  lemma RawTail(s: string, m: Match)
    requires MatchAt(s) == Some(m)
    ensures TailAt(s, m, true) == m.end
  {
  }

  lemma {:induction false} QuotesAlone(n: nat)
    ensures PasswordPass(Quotes(n)) == Quotes(n)
    decreases n
  {
    if n == 0 {
      PassEmpty();
    } else {
      assert Quotes(n)[1..] == Quotes(n - 1) && Quotes(n) == ['"'] + Quotes(n - 1);
      hide PasswordPass;
      StopUnmatched(Quotes(n));
      QuotesAlone(n - 1);
    }
  }

  /** The marker with quotes behind it. */
  function Quoted(n: nat): string {
    ASSIGNED + REDACTED + Quotes(n)
  }

  lemma QuotedRound(cut: Pass, n: nat)
    requires cut(Quoted(Less(n, 1))) == Quoted(Less(n, 1))
    ensures Round(PasswordPass, cut, Quoted(n)) == Quoted(Less(n, 1))
  {
    MarkerIsBare();
    QuotedOwes(REDACTED, n);
    hide PasswordPass, Quotes;
  }

  lemma {:induction false} QuotedRounds(cut: Pass, n: nat, rounds: nat)
    requires forall k: nat :: k <= n ==> cut(Quoted(k)) == Quoted(k)
    ensures Iterate(PasswordPass, cut, Quoted(n), rounds) == Quoted(Less(n, rounds))
    decreases rounds
  {
    hide PasswordPass, Quoted, Round;
    if rounds > 0 {
      QuotedRound(cut, n);
      QuotedRounds(cut, Less(n, 1), rounds - 1);
    }
  }

  /** Six rounds are not always enough: of seven quotes they leave one, which settling again takes away. */
  lemma SixRoundsLeaveOne(cut: Pass)
    requires forall k: nat :: k <= 7 ==> cut(Quoted(k)) == Quoted(k)
    ensures Settled(PasswordPass, cut, Quoted(7)) == Quoted(1) != Quoted(0)
    ensures Settled(PasswordPass, cut, Quoted(1)) == Quoted(0)
    ensures !Reached(PasswordPass, cut, Quoted(7))
  {
    assert |Quoted(1)| > |Quoted(0)|;
    hide PasswordPass, Quoted, Iterate;
    QuotedRounds(cut, 7, ROUNDS);
    QuotedRounds(cut, 1, ROUNDS);
    QuotedRounds(cut, 1, 1);
    OneRound(PasswordPass, cut, Quoted(1));
    SettledIffReached(PasswordPass, cut, Quoted(7));
  }
}
