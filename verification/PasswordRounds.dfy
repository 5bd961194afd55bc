/**
 How many passes of the password pattern a text needs. After the first pass every value is the marker, and each
 further pass lets a marker take the bare characters behind it and one quote, until white space, a comma or the
 end follows. Names among those characters are at work themselves until they are taken. One scan of the text
 counts the passes, and the six rounds of the loop suffice exactly when it counts at most five after the first.
 */
module PasswordRounds {
  import opened Options
  import opened Text
  import opened Settle
  import opened PasswordRule

  function Larger(a: nat, b: nat): nat {
    if a < b then b else a
  }

  function Less(a: nat, b: nat): nat {
    if a < b then 0 else a - b
  }

  /** Where the text behind a value begins: in a raw text where the match ends, which the first pass replaces; in
      a text that has been passed behind the marker, which may be cut short at the end. */
  function TailAt(s: string, m: Match, raw: bool): (n: nat)
    requires MatchAt(s) == Some(m)
    ensures 0 < n <= |s|
  {
    if raw then m.end else if m.head + |REDACTED| < |s| then m.head + |REDACTED| else |s|
  }

  predicate Spaceless(s: string) {
    forall i :: 0 <= i < |s| ==> !IsSpace(s[i])
  }

  /** The number of the last pass that still changes the text, not counting the first pass of a raw one. */
  function Owed(s: string, raw: bool): nat
    decreases |s|, 0
  {
    if s == "" then 0
    else
      match MatchAt(s)
      case None => Owed(s[1..], raw)
      case Some(m) => Taking(s[TailAt(s, m, raw)..], 0, None, raw)
  }

  /** The same for a text behind a value that has taken what stood before in `used` passes, and stops for good
      after `life` passes, when its own name is taken. */
  function Taking(s: string, used: nat, life: Option<nat>, raw: bool): (n: nat)
    ensures n >= used
    decreases |s|, 2
  {
    if s == "" then used
    else if life == Some(used) || Stops(s[0]) then Larger(used, Owed(s, raw))
    else if Quotation(s[0]) then Taking(s[1..], used + 1, life, raw)
    else TakingBare(s, used, life, raw)
  }

  /** The same in the middle of a pass. A name that is taken passes its work on, if it is taken whole; the white
      space in a head is never taken, so such a name stops with what it did up to then. */
  function TakingBare(s: string, used: nat, life: Option<nat>, raw: bool): (n: nat)
    ensures n > used
    decreases |s|, 1
  {
    if s == "" || Stops(s[0]) then Larger(used + 1, Owed(s, raw))
    else if Quotation(s[0]) then Taking(s[1..], used + 1, life, raw)
    else
      match MatchAt(s)
      case None => TakingBare(s[1..], used, life, raw)
      case Some(m) =>
        var next := if Spaceless(s[..m.head]) then life else Some(used);
        Larger(used + 1, Taking(s[TailAt(s, m, raw)..], 0, next, raw))
  }

  function Older(life: Option<nat>): Option<nat>
    requires life != Some(0)
  {
    if life.None? then None else Some(life.value - 1)
  }

  predicate Outlives(life: Option<nat>, used: nat) {
    life.None? || used <= life.value
  }

  // ----- Texts that have been passed -----

  /** Every value is the marker; unless the text is whole, the last one may be cut short. */
  predicate Passed(s: string, whole: bool)
    decreases |s|
  {
    if s == "" then true
    else
      match MatchAt(s)
      case None => Passed(s[1..], whole)
      case Some(m) =>
        var y := s[m.head..];
        || (!whole && y <= REDACTED)
        || (REDACTED <= y && Passed(y[|REDACTED|..], whole))
  }

  /** What a value that stands where `m` does makes of its tail. */
  lemma MarkerMatch(h: string, v: string)
    requires IsHead(h)
    ensures MatchAt(h + REDACTED + v) == Some(Match(|h|, |h| + |REDACTED| + Meal(v)))
  {
    MarkerIsBare();
    hide IsHead, MatchAt, Meal, Bare, IsSpace;
    MealThen(REDACTED, v);
    BareThen(REDACTED, v);
    assert h + REDACTED + v == h + (REDACTED + v);
    assert (REDACTED + v)[0] == REDACTED[0];
    MatchOfValue(h, REDACTED + v);
  }

  /** The first pass leaves a text that has been passed. */
  lemma {:induction false} PassIsPassed(s: string)
    ensures Passed(PasswordPass(s), true)
    decreases |s|
  {
    hide MatchAt, IsHead, HeadAt, Meal, PasswordPass;
    if s == "" {
      assert PasswordPass("") == "" by { PassEmpty(); }
    } else if MatchAt(s).None? {
      PassIsPassed(s[1..]);
      NoNewMatch(s);
      PassUnmatched(s);
      assert PasswordPass(s)[1..] == PasswordPass(s[1..]);
    } else {
      var m := MatchAt(s).value;
      PassIsPassed(s[m.end..]);
      PassMatched(s, m);
      MatchHasHead(s, m);
      MarkedIsPassed(s[..m.head], PasswordPass(s[m.end..]), true);
    }
  }

  lemma PassEmpty()
    ensures PasswordPass("") == ""
  {
  }

  lemma MarkedIsPassed(h: string, v: string, whole: bool)
    requires IsHead(h) && Passed(v, whole)
    ensures Passed(h + REDACTED + v, whole)
  {
    MarkerMatch(h, v);
    HeadShape(h);
    hide IsHead, MatchAt, Meal, Plain;
    var s := h + REDACTED + v;
    assert s[|h|..] == REDACTED + v && (REDACTED + v)[|REDACTED|..] == v;
  }

  /** A head, then the marker and a tail, or as much of the marker as there is. */
  predicate Marked(s: string, h: string, v: string) {
    h <= s && (s == h + REDACTED + v || (v == "" && s[|h|..] <= REDACTED))
  }

  lemma PassedCases(s: string, m: Match, whole: bool)
    requires s != "" && MatchAt(s) == Some(m) && Passed(s, whole)
    ensures var y := s[m.head..];
            || (!whole && y <= REDACTED)
            || (REDACTED <= y && Passed(y[|REDACTED|..], whole))
  {
    hide MatchAt;
  }

  /** The tail behind a marker, and what a pass makes of head, marker and tail. */
  lemma MarkerPass(h: string, v: string)
    requires IsHead(h)
    ensures var s := h + REDACTED + v;
            && s != "" && MatchAt(s) == Some(Match(|h|, |h| + |REDACTED| + Meal(v)))
            && s[TailAt(s, MatchAt(s).value, false)..] == v
            && PasswordPass(s) == h + REDACTED + PasswordPass(v[Meal(v)..])
  {
    MarkerMatch(h, v);
    hide MatchAt, IsHead, HeadAt, Meal, PasswordPass;
    var s := h + REDACTED + v;
    PassMatched(s, MatchAt(s).value);
    assert s[..|h|] == h && s[|h| + |REDACTED|..] == v;
    assert s[|h| + |REDACTED| + Meal(v)..] == v[Meal(v)..];
  }

  lemma SplitMarked(s: string, at: nat)
    requires at <= |s| && REDACTED <= s[at..]
    ensures s == s[..at] + REDACTED + s[at..][|REDACTED|..]
  {
    hide *;
    assert s[at..] == REDACTED + s[at..][|REDACTED|..];
    assert s == s[..at] + s[at..];
  }

  lemma FullMatch(s: string, m: Match)
    requires s != "" && MatchAt(s) == Some(m) && REDACTED <= s[m.head..]
    ensures var h, v := s[..m.head], s[TailAt(s, m, false)..];
            && s == h + REDACTED + v && s[m.head..][|REDACTED|..] == v
            && PasswordPass(s) == h + REDACTED + PasswordPass(v[Meal(v)..])
  {
    hide MatchAt, IsHead, HeadAt, Meal, PasswordPass, TailAt;
    MatchHasHead(s, m);
    SplitMarked(s, m.head);
    MarkerPass(s[..m.head], s[m.head..][|REDACTED|..]);
  }

  lemma CutTail(s: string, m: Match)
    requires MatchAt(s) == Some(m) && |s| <= m.head + |REDACTED|
    ensures TailAt(s, m, false) == |s| && s[TailAt(s, m, false)..] == ""
  {
    hide MatchAt;
  }

  lemma CutMatch(s: string, m: Match)
    requires s != "" && MatchAt(s) == Some(m) && s[m.head..] <= REDACTED
    ensures m.end == |s| && s[TailAt(s, m, false)..] == ""
    ensures PasswordPass(s) == s[..m.head] + REDACTED
  {
    hide MatchAt, IsHead, HeadAt, Meal, PasswordPass, TailAt;
    MatchHasHead(s, m);
    PassMatched(s, m);
    CutTail(s, m);
    var h, y := s[..m.head], s[m.head..];
    assert s == h + y;
    PartialMatch(h, y);
    PassEmpty();
    assert s[m.end..] == "";
  }

  /** A matched text that has been passed: its head, its tail, and what a pass makes of them. */
  lemma PassedMatch(s: string, m: Match, whole: bool) returns (h: string, v: string)
    requires s != "" && Passed(s, whole) && MatchAt(s) == Some(m)
    ensures h == s[..m.head] && v == s[TailAt(s, m, false)..] && |v| < |s|
    ensures IsHead(h) && Passed(v, whole)
    ensures Marked(s, h, v) && (whole ==> s == h + REDACTED + v)
    ensures PasswordPass(s) == h + REDACTED + PasswordPass(v[Meal(v)..])
  {
    PassedCases(s, m, whole);
    MatchHasHead(s, m);
    hide MatchAt, IsHead, HeadAt, PasswordPass, TailAt;
    h, v := s[..m.head], s[TailAt(s, m, false)..];
    if REDACTED <= s[m.head..] {
      FullMatch(s, m);
      hide Meal;
      assert s[m.head..] <= REDACTED ==> v == "";
    } else {
      CutMatch(s, m);
      assert v[Meal(v)..] == "";
      hide Meal;
      PassEmpty();
    }
  }

  /** A value that is the beginning of the marker reaches to the end. */
  lemma PartialMatch(h: string, y: string)
    requires IsHead(h) && y <= REDACTED
    ensures MatchAt(h + y) == if |y| < VALUE_MIN then None else Some(Match(|h|, |h| + |y|))
  {
    MarkerIsBare();
    hide IsHead, MatchAt, Bare, IsSpace;
    BareThen(y, "");
    MealThen(y, "");
    assert y + "" == y;
    assert y != "" ==> y[0] == REDACTED[0];
    MatchOfValue(h, y);
  }

  // ----- What the counts see of a text -----

  lemma OwedUnmatched(s: string, raw: bool)
    requires s != "" && MatchAt(s).None?
    ensures Owed(s, raw) == Owed(s[1..], raw)
  {
    hide MatchAt;
  }

  lemma {:induction false} OwedAfterPlain(a: string, s: string, raw: bool)
    requires Plain(a)
    ensures Owed(a + s, raw) == Owed(s, raw)
  {
    hide MatchAt, Lower, Owed;
    if a == "" {
      assert a + s == s;
    } else {
      PlainUnmatched(a + s);
      OwedUnmatched(a + s, raw);
      assert (a + s)[1..] == a[1..] + s && a == [a[0]] + a[1..];
      OwedAfterPlain(a[1..], s, raw);
    }
  }

  lemma OwedMarked(h: string, v: string)
    requires IsHead(h)
    ensures Owed(h + REDACTED + v, false) == Taking(v, 0, None, false)
  {
    MarkerPass(h, v);
    hide MatchAt, IsHead, Meal, PasswordPass, Taking;
  }

  lemma TakingStopped(s: string, used: nat, life: Option<nat>, raw: bool)
    requires s == "" || life == Some(used) || Stops(s[0])
    ensures Taking(s, used, life, raw) == Larger(used, Owed(s, raw))
  {
  }

  lemma TakingQuote(s: string, used: nat, life: Option<nat>, raw: bool)
    requires s != "" && Quotation(s[0])
    ensures life != Some(used) ==> Taking(s, used, life, raw) == Taking(s[1..], used + 1, life, raw)
    ensures TakingBare(s, used, life, raw) == Taking(s[1..], used + 1, life, raw)
  {
  }

  lemma TakingBareOf(s: string, used: nat, life: Option<nat>, raw: bool)
    requires s != "" && life != Some(used) && Bare(s[0])
    ensures Taking(s, used, life, raw) == TakingBare(s, used, life, raw)
  {
  }

  lemma BareStopped(s: string, used: nat, life: Option<nat>, raw: bool)
    requires s == "" || Stops(s[0])
    ensures TakingBare(s, used, life, raw) == Larger(used + 1, Owed(s, raw))
  {
  }

  lemma BareUnmatched(s: string, used: nat, life: Option<nat>, raw: bool)
    requires s != "" && Bare(s[0]) && MatchAt(s).None?
    ensures TakingBare(s, used, life, raw) == TakingBare(s[1..], used, life, raw)
  {
    hide MatchAt;
  }

  function Next(h: string, used: nat, life: Option<nat>): Option<nat> {
    if Spaceless(h) then life else Some(used)
  }

  lemma BareMatched(s: string, m: Match, used: nat, life: Option<nat>, raw: bool)
    requires s != "" && MatchAt(s) == Some(m)
    ensures TakingBare(s, used, life, raw)
         == Larger(used + 1, Taking(s[TailAt(s, m, raw)..], 0, Next(s[..m.head], used, life), raw))
  {
    MatchHasHead(s, m);
    HeadShape(s[..m.head]);
    BareIsNoQuote(s[0]);
    assert s[..m.head][0] == s[0];
    hide MatchAt, IsHead, Bare, Stops, Quotation, Plain, HeadAt, Taking, TailAt;
  }

  lemma BareMarked(h: string, v: string, used: nat, life: Option<nat>)
    requires IsHead(h)
    ensures TakingBare(h + REDACTED + v, used, life, false)
         == Larger(used + 1, Taking(v, 0, Next(h, used, life), false))
  {
    MarkerPass(h, v);
    hide MatchAt, IsHead, Meal, PasswordPass, Taking, TakingBare, Next, TailAt;
    var s := h + REDACTED + v;
    assert s[..|h|] == h;
    BareMatched(s, MatchAt(s).value, used, life, false);
  }

  // ----- One pass is one less -----

  lemma {:induction false} OwedStep(s: string)
    requires Passed(s, false)
    ensures Owed(PasswordPass(s), false) == Less(Owed(s, false), 1)
    decreases |s|, 0
  {
    hide MatchAt, IsHead, Meal, PasswordPass, Owed, Taking, TailAt, HeadAt;
    if s == "" {
      PassEmpty();
      OwedEmpty(false);
    } else if MatchAt(s).None? {
      PassUnmatched(s);
      NoNewMatch(s);
      OwedUnmatched(s, false);
      OwedUnmatched(PasswordPass(s), false);
      assert PasswordPass(s)[1..] == PasswordPass(s[1..]);
      OwedStep(s[1..]);
    } else {
      var m := MatchAt(s).value;
      var h, v := PassedMatch(s, m, false);
      OwedMatched(s, m, false);
      OwedMarked(h, PasswordPass(v[Meal(v)..]));
      MealStep(v, None);
    }
  }

  lemma OwedEmpty(raw: bool)
    ensures Owed("", raw) == 0
  {
  }

  lemma OwedMatched(s: string, m: Match, raw: bool)
    requires s != "" && MatchAt(s) == Some(m)
    ensures Owed(s, raw) == Taking(s[TailAt(s, m, raw)..], 0, None, raw)
  {
    hide MatchAt, Taking;
  }

  lemma PassedNext(s: string)
    requires s != "" && Passed(s, false) && MatchAt(s).None?
    ensures Passed(s[1..], false)
  {
    hide MatchAt;
  }

  lemma StopUnmatched(s: string)
    requires s != "" && (Stops(s[0]) || Quotation(s[0]))
    ensures MatchAt(s).None? && PasswordPass(s) == [s[0]] + PasswordPass(s[1..])
    ensures Passed(s, false) ==> Passed(s[1..], false)
  {
    assert Lower(s[0]) != 'p';
    PlainUnmatched(s);
    PassUnmatched(s);
    hide MatchAt, PasswordPass;
  }

  /** What stops a value also stops it after a pass. */
  lemma StoppedStep(s: string)
    requires Passed(s, false) && (s == "" || Stops(s[0]))
    ensures PasswordPass(s) == "" || Stops(PasswordPass(s)[0])
    ensures Owed(PasswordPass(s), false) == Less(Owed(s, false), 1)
    decreases |s|, 1
  {
    hide Owed, PasswordPass, Passed, Stops, MatchAt;
    OwedStep(s);
    if s == "" {
      PassEmpty();
    } else {
      FirstStays(s);
    }
  }

  lemma {:induction false} TakingStep(s: string, used: nat, life: Option<nat>)
    requires Passed(s, false) && used >= 1 && Outlives(life, used)
    ensures Taking(PasswordPass(s), used - 1, Older(life), false) == Taking(s, used, life, false) - 1
    decreases |s|, 3
  {
    hide MatchAt, PasswordPass, Owed, Taking, TakingBare, Passed, Stops, Quotation, Bare;
    var t := PasswordPass(s);
    if s == "" || Stops(s[0]) || life == Some(used) {
      OwedStep(s);
      if s == "" || Stops(s[0]) {
        StoppedStep(s);
      }
      TakingStopped(s, used, life, false);
      TakingStopped(t, used - 1, Older(life), false);
    } else if Quotation(s[0]) {
      StopUnmatched(s);
      assert t[1..] == PasswordPass(s[1..]);
      TakingQuote(s, used, life, false);
      TakingQuote(t, used - 1, Older(life), false);
      TakingStep(s[1..], used + 1, life);
    } else {
      ElseBare(s[0]);
      FirstStays(s);
      TakingBareOf(s, used, life, false);
      TakingBareOf(t, used - 1, Older(life), false);
      BareStep(s, used, life);
    }
  }

  lemma ElseBare(c: char)
    ensures Bare(c) <==> !Stops(c) && !Quotation(c)
  {
  }

  lemma {:induction false} BareStep(s: string, used: nat, life: Option<nat>)
    requires Passed(s, false) && used >= 1 && Outlives(life, used + 1)
    ensures TakingBare(PasswordPass(s), used - 1, Older(life), false) == TakingBare(s, used, life, false) - 1
    decreases |s|, 2
  {
    hide MatchAt, PasswordPass, Owed, Taking, TakingBare, Passed, Stops, Quotation, Bare, IsHead, Meal, TailAt;
    var t := PasswordPass(s);
    if s == "" || Stops(s[0]) {
      StoppedStep(s);
      BareStopped(s, used, life, false);
      BareStopped(t, used - 1, Older(life), false);
    } else if Quotation(s[0]) {
      StopUnmatched(s);
      assert t[1..] == PasswordPass(s[1..]);
      TakingQuote(s, used, life, false);
      TakingQuote(t, used - 1, Older(life), false);
      TakingStep(s[1..], used + 1, life);
    } else {
      ElseBare(s[0]);
      if MatchAt(s).None? {
        PassUnmatched(s);
        NoNewMatch(s);
        PassedNext(s);
        assert t[1..] == PasswordPass(s[1..]);
        BareUnmatched(s, used, life, false);
        BareUnmatched(t, used - 1, Older(life), false);
        BareStep(s[1..], used, life);
      } else {
        var h, v := PassedMatch(s, MatchAt(s).value, false);
        BareMatched(s, MatchAt(s).value, used, life, false);
        BareMarked(h, PasswordPass(v[Meal(v)..]), used - 1, Older(life));
        MealStep(v, Next(h, used, life));
      }
    }
  }

  /** A value takes its meal, and the rest makes the same pass. */
  lemma {:induction false} MealStep(s: string, life: Option<nat>)
    requires Passed(s, false) && life != Some(0)
    ensures Taking(PasswordPass(s[Meal(s)..]), 0, Older(life), false) == Less(Taking(s, 0, life, false), 1)
    decreases |s|, 3
  {
    hide MatchAt, PasswordPass, Owed, Taking, TakingBare, Passed, Stops, Quotation, Bare, Meal;
    if s == "" || Stops(s[0]) {
      NoMeal(s);
      StoppedStep(s);
      TakingStopped(s, 0, life, false);
      TakingStopped(PasswordPass(s), 0, Older(life), false);
    } else if Quotation(s[0]) {
      QuoteMeal(s);
      StopUnmatched(s);
      TakingQuote(s, 0, life, false);
      TakingStep(s[1..], 1, life);
    } else {
      ElseBare(s[0]);
      TakingBareOf(s, 0, life, false);
      BareMealStep(s, life);
    }
  }

  lemma NoMeal(s: string)
    requires s == "" || Stops(s[0])
    ensures Meal(s) == 0 && s[Meal(s)..] == s
  {
  }

  lemma QuoteMeal(s: string)
    requires s != "" && Quotation(s[0])
    ensures Meal(s) == 1
  {
  }

  lemma BareMeal(s: string)
    requires s != "" && Bare(s[0])
    ensures Meal(s) == 1 + Meal(s[1..]) && s[Meal(s)..] == s[1..][Meal(s[1..])..]
  {
    assert s == [s[0]] + s[1..];
    MealThen([s[0]], s[1..]);
  }

  lemma {:induction false} BareMealStep(s: string, life: Option<nat>)
    requires Passed(s, false) && life != Some(0)
    ensures Taking(PasswordPass(s[Meal(s)..]), 0, Older(life), false) == TakingBare(s, 0, life, false) - 1
    decreases |s|, 2
  {
    hide MatchAt, PasswordPass, Owed, Taking, TakingBare, Passed, Stops, Quotation, Bare, Meal, IsHead, TailAt;
    if s == "" || Stops(s[0]) {
      NoMeal(s);
      StoppedStep(s);
      BareStopped(s, 0, life, false);
      TakingStopped(PasswordPass(s), 0, Older(life), false);
    } else if Quotation(s[0]) {
      QuoteMeal(s);
      StopUnmatched(s);
      TakingQuote(s, 0, life, false);
      TakingStep(s[1..], 1, life);
    } else {
      ElseBare(s[0]);
      if MatchAt(s).None? {
        PassedNext(s);
        BareMeal(s);
        BareUnmatched(s, 0, life, false);
        BareMealStep(s[1..], life);
      } else {
        HeadMealStep(s, MatchAt(s).value, life);
      }
    }
  }

  lemma HeadMealStep(s: string, m: Match, life: Option<nat>)
    requires s != "" && MatchAt(s) == Some(m) && Passed(s, false) && life != Some(0)
    ensures Taking(PasswordPass(s[Meal(s)..]), 0, Older(life), false) == TakingBare(s, 0, life, false) - 1
    decreases |s|, 1
  {
    hide MatchAt, PasswordPass, Owed, Taking, TakingBare, Passed, Meal, IsHead, HeadAt, TailAt, Spaceless, Marked;
    hide Stops, Quotation, Bare, Plain, IsSpace;
    var h, v := PassedMatch(s, m, false);
    BareMatched(s, m, 0, life, false);
    MarkedMealStep(s, h, v, life);
  }

  lemma MarkedMealStep(s: string, h: string, v: string, life: Option<nat>)
    requires IsHead(h) && Marked(s, h, v) && Passed(v, false) && life != Some(0)
    ensures Taking(PasswordPass(s[Meal(s)..]), 0, Older(life), false)
         == Larger(1, Taking(v, 0, Next(h, 0, life), false)) - 1
    decreases |v|, 4
  {
    hide MatchAt, PasswordPass, Owed, Taking, TakingBare, Passed, Meal, IsHead, HeadAt, TailAt, Spaceless, Marked;
    hide Stops, Quotation, Bare, Plain, IsSpace;
    if Spaceless(h) {
      WholeHeadMeal(s, h, v);
      MealStep(v, life);
    } else {
      OwedStep(v);
      TakingStopped(v, 0, Some(0), false);
      BrokenHeadMeal(s, h, v, Older(life));
    }
  }

  /** A head without white space is taken with its marker, and the meal goes on behind it. */
  lemma WholeHeadMeal(s: string, h: string, v: string)
    requires IsHead(h) && Spaceless(h)
    requires Marked(s, h, v)
    ensures s[Meal(s)..] == v[Meal(v)..]
  {
    HeadShape(h);
    MarkerIsBare();
    hide Meal, IsHead;
    var y := if s == h + REDACTED + v then REDACTED else s[|h|..];
    var taken := h + y;
    assert s == taken + v;
    assert forall i :: 0 <= i < |taken| ==> Bare(taken[i]);
    hide Bare;
    MealThen(taken, v);
  }

  /** A head with white space is taken up to it; then it is no head, and the marker is text like any other. */
  lemma BrokenHeadMeal(s: string, h: string, v: string, life: Option<nat>)
    requires IsHead(h) && !Spaceless(h)
    requires Marked(s, h, v)
    ensures Taking(PasswordPass(s[Meal(s)..]), 0, life, false) == Owed(PasswordPass(v), false)
  {
    var a := BrokenHead(s, h, v);
    hide Meal, IsHead, PasswordPass, Taking, Owed, Plain, IsSpace;
    PassAfterPlain(a, v);
    TakingStopped(a + PasswordPass(v), 0, life, false);
    OwedAfterPlain(a, PasswordPass(v), false);
  }

  lemma BrokenHead(s: string, h: string, v: string) returns (a: string)
    requires IsHead(h) && !Spaceless(h)
    requires Marked(s, h, v)
    ensures s[Meal(s)..] == a + v && Plain(a) && a != "" && IsSpace(a[0])
  {
    hide Meal, IsHead, IsSpace, Spaceless;
    var at := SpaceLimit(h);
    var y := s[|h|..|s| - |v|];
    PlainTail(h, y, at);
    hide Plain;
    HeadMeal(h, at, y + v);
    a := h[at..] + y;
    assert s == h + (y + v);
  }

  lemma PlainTail(h: string, y: string, at: nat)
    requires IsHead(h) && 1 <= at <= |h| && y <= REDACTED
    ensures Plain(h[at..] + y)
  {
    HeadShape(h);
    MarkerIsBare();
    hide IsHead, Lower;
    assert forall i :: at <= i < |h| ==> h[i] == h[1..][i - 1];
  }

  /** The first white space of a head. */
  lemma SpaceLimit(h: string) returns (at: nat)
    requires IsHead(h) && !Spaceless(h)
    ensures |NAME| <= at < |h| && IsSpace(h[at]) && forall i :: 0 <= i < at ==> Bare(h[i])
  {
    HeadShape(h);
    hide IsHead;
    at := 0;
    while !IsSpace(h[at])
      invariant 0 <= at < |h|
      invariant forall i :: 0 <= i < at ==> !IsSpace(h[i])
      decreases |h| - at
    {
      at := at + 1;
    }
  }

  lemma HeadMeal(h: string, at: nat, rest: string)
    requires at < |h| && IsSpace(h[at]) && forall i :: 0 <= i < at ==> Bare(h[i])
    ensures Meal(h + rest) == at
  {
    hide IsSpace, Bare, Meal;
    var b := h[at..] + rest;
    assert h + rest == h[..at] + b && Stops(b[0]);
    NoMeal(b);
    MealThen(h[..at], b);
  }

  // ----- The count of a raw text is that of its first pass -----

  lemma {:induction false} RawOwed(s: string)
    ensures Owed(s, true) == Owed(PasswordPass(s), false)
    decreases |s|, 0
  {
    hide MatchAt, PasswordPass, Owed, Taking, IsHead, HeadAt;
    if s == "" {
      PassEmpty();
      OwedEmpty(true);
      OwedEmpty(false);
    } else if MatchAt(s).None? {
      PassUnmatched(s);
      NoNewMatch(s);
      OwedUnmatched(s, true);
      OwedUnmatched(PasswordPass(s), false);
      assert PasswordPass(s)[1..] == PasswordPass(s[1..]);
      RawOwed(s[1..]);
    } else {
      var m := MatchAt(s).value;
      PassMatched(s, m);
      MatchHasHead(s, m);
      OwedMatched(s, m, true);
      OwedMarked(s[..m.head], PasswordPass(s[m.end..]));
      RawTaking(s[m.end..], 0, None);
    }
  }

  lemma {:induction false} RawTaking(s: string, used: nat, life: Option<nat>)
    ensures Taking(s, used, life, true) == Taking(PasswordPass(s), used, life, false)
    decreases |s|, 2
  {
    hide MatchAt, PasswordPass, Owed, Taking, TakingBare, Stops, Quotation, Bare;
    var t := PasswordPass(s);
    if s == "" {
      PassEmpty();
      RawOwed(s);
      TakingStopped(s, used, life, true);
      TakingStopped(t, used, life, false);
    } else {
      FirstStays(s);
      ElseBare(s[0]);
      if Stops(s[0]) || life == Some(used) {
        RawOwed(s);
        TakingStopped(s, used, life, true);
        TakingStopped(t, used, life, false);
      } else if Quotation(s[0]) {
        StopUnmatched(s);
        assert t[1..] == PasswordPass(s[1..]);
        TakingQuote(s, used, life, true);
        TakingQuote(t, used, life, false);
        RawTaking(s[1..], used + 1, life);
      } else {
        TakingBareOf(s, used, life, true);
        TakingBareOf(t, used, life, false);
        RawBare(s, used, life);
      }
    }
  }

  lemma {:induction false} RawBare(s: string, used: nat, life: Option<nat>)
    ensures TakingBare(s, used, life, true) == TakingBare(PasswordPass(s), used, life, false)
    decreases |s|, 1
  {
    hide MatchAt, PasswordPass, Owed, Taking, TakingBare, Stops, Quotation, Bare, IsHead, HeadAt;
    var t := PasswordPass(s);
    if s == "" {
      PassEmpty();
      RawOwed(s);
      BareStopped(s, used, life, true);
      BareStopped(t, used, life, false);
    } else {
      FirstStays(s);
      ElseBare(s[0]);
      if Stops(s[0]) {
        RawOwed(s);
        BareStopped(s, used, life, true);
        BareStopped(t, used, life, false);
      } else if Quotation(s[0]) {
        StopUnmatched(s);
        assert t[1..] == PasswordPass(s[1..]);
        TakingQuote(s, used, life, true);
        TakingQuote(t, used, life, false);
        RawTaking(s[1..], used + 1, life);
      } else if MatchAt(s).None? {
        PassUnmatched(s);
        NoNewMatch(s);
        assert t[1..] == PasswordPass(s[1..]);
        BareUnmatched(s, used, life, true);
        BareUnmatched(t, used, life, false);
        RawBare(s[1..], used, life);
      } else {
        var m := MatchAt(s).value;
        PassMatched(s, m);
        MatchHasHead(s, m);
        BareMatched(s, m, used, life, true);
        BareMarked(s[..m.head], PasswordPass(s[m.end..]), used, life);
        RawTaking(s[m.end..], 0, Next(s[..m.head], used, life));
      }
    }
  }

  /** Nothing is owed exactly when every value is closed. */
  lemma {:induction false} ClosedIffOwed(s: string)
    ensures Closed(s) <==> Owed(s, true) == 0
    decreases |s|
  {
    hide MatchAt, Owed, Taking, TakingBare, Stops, Quotation, Bare;
    if s == "" {
      OwedEmpty(true);
    } else if MatchAt(s).None? {
      OwedUnmatched(s, true);
      ClosedIffOwed(s[1..]);
    } else {
      var m := MatchAt(s).value;
      var v := s[m.end..];
      OwedMatched(s, m, true);
      ClosedIffOwed(v);
      if v == "" || Stops(v[0]) {
        TakingStopped(v, 0, None, true);
      } else {
        ElseBare(v[0]);
        if Quotation(v[0]) {
          TakingQuote(v, 0, None, true);
        } else {
          TakingBareOf(v, 0, None, true);
        }
      }
    }
  }

  // ----- Beginnings of texts that have been passed -----

  predicate Unquoted(s: string) {
    forall i :: 0 <= i < |s| ==> !Quotation(s[i])
  }

  /** A text that starts no match but takes part in one has nothing to do. */
  lemma {:induction false} PlainCounts(a: string, used: nat, life: Option<nat>)
    requires Plain(a) && Unquoted(a)
    ensures Owed(a, false) == 0 && PasswordPass(a) == a && Passed(a, false)
    ensures TakingBare(a, used, life, false) == used + 1
  {
    hide MatchAt, PasswordPass, Owed, Taking, TakingBare, Stops, Quotation, Bare, Lower;
    if a == "" {
      PassEmpty();
      OwedEmpty(false);
      BareStopped(a, used, life, false);
    } else {
      PlainUnmatched(a);
      PassUnmatched(a);
      OwedUnmatched(a, false);
      assert a == [a[0]] + a[1..];
      PlainCounts(a[1..], used, life);
      ElseBare(a[0]);
      if Stops(a[0]) {
        BareStopped(a, used, life, false);
      } else {
        BareUnmatched(a, used, life, false);
      }
    }
  }

  /** A head with too little of its marker. */
  predicate Short(p: string) {
    && p != "" && MatchAt(p).None? && Bare(p[0]) && Plain(p[1..]) && Unquoted(p)
  }

  lemma ShortCounts(p: string, used: nat, life: Option<nat>)
    requires Short(p)
    ensures Owed(p, false) == 0 && PasswordPass(p) == p && Passed(p, false)
    ensures TakingBare(p, used, life, false) == used + 1
  {
    hide MatchAt, PasswordPass, Owed, Taking, TakingBare, Stops, Quotation, Bare, Plain;
    PassUnmatched(p);
    OwedUnmatched(p, false);
    BareUnmatched(p, used, life, false);
    assert p == [p[0]] + p[1..];
    assert Unquoted(p[1..]);
    PlainCounts(p[1..], used, life);
  }

  lemma UnmatchedPrefix(p: string, s: string)
    requires p != "" && p <= s && MatchAt(s).None?
    ensures MatchAt(p).None? && p[1..] <= s[1..] && p[0] == s[0]
  {
    hide MatchAt;
    if MatchAt(p).Some? {
      PrefixMatch(p, s);
    }
  }

  /** A beginning of a text that has been passed and is matched: too short for a match, or matched alike. */
  lemma MarkedPrefix(p: string, s: string, h: string, v: string)
    requires p != "" && p <= s && IsHead(h) && Marked(s, h, v)
    ensures |p| < |h| + VALUE_MIN ==> Short(p)
    ensures |p| >= |h| + VALUE_MIN ==>
              && MatchAt(p).Some? && MatchAt(p).value.head == |h| && h <= p
              && var q := p[|h|..];
                 q <= REDACTED || (REDACTED <= q && q[|REDACTED|..] <= v)
  {
    hide MatchAt, IsHead, Short, Marked;
    if |p| < |h| + VALUE_MIN {
      ShortPrefix(p, s, h, v);
    } else {
      LongPrefix(p, s, h, v);
      var q := p[|h|..];
      assert p == h + q;
      if q <= REDACTED {
        PartialMatch(h, q);
      } else {
        SplitMarked(p, |h|);
        MarkerMatch(h, q[|REDACTED|..]);
      }
    }
  }

  lemma LongPrefix(p: string, s: string, h: string, v: string)
    requires p <= s && Marked(s, h, v) && |p| >= |h|
    ensures h <= p
    ensures var q := p[|h|..]; q <= REDACTED || (REDACTED <= q && q[|REDACTED|..] <= v)
  {
    var y, q := s[|h|..], p[|h|..];
    assert q <= y;
    assert y <= REDACTED || y == REDACTED + v;
    if |q| > |REDACTED| {
      assert q[|REDACTED|..] <= y[|REDACTED|..] == v;
    }
  }

  lemma ShortPrefix(p: string, s: string, h: string, v: string)
    requires p != "" && p <= s && IsHead(h) && Marked(s, h, v) && |p| < |h| + VALUE_MIN
    ensures Short(p)
  {
    HeadShape(h);
    MarkerIsBare();
    hide IsHead, Bare, Lower, Quotation;
    assert forall i :: 0 <= i < |p| && i < |h| ==> p[i] == h[i];
    assert forall i :: |h| <= i < |p| ==> p[i] == REDACTED[i - |h|];
    assert forall i :: 1 <= i < |h| ==> h[i] == h[1..][i - 1];
    forall i | 0 <= i < |REDACTED| ensures !Quotation(REDACTED[i]) {
      BareIsNoQuote(REDACTED[i]);
    }
    NoShortMatch(p, s, h, v);
  }

  lemma NoShortMatch(p: string, s: string, h: string, v: string)
    requires p <= s && IsHead(h) && Marked(s, h, v) && |p| < |h| + VALUE_MIN
    ensures MatchAt(p).None?
  {
    hide MatchAt, IsHead;
    if MatchAt(p).Some? {
      PrefixMatch(p, s);
      if s == h + REDACTED + v {
        MarkerMatch(h, v);
      } else {
        assert s == h + s[|h|..];
        PartialMatch(h, s[|h|..]);
      }
      assert false;
    }
  }
}
