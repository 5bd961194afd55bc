/**
 The mask of passwords in environment values: in `://user:password@` the password becomes the marker. A user has
 no colon, slash, at sign or white space; a password is everything up to the next at sign, and has no white space.
 */
module UserinfoMask {
  import opened Text
  import opened Settle

  predicate UserChar(c: char) {
    c != ':' && c != '/' && c != '@' && !IsSpace(c)
  }

  /** Up to the next at sign there is no white space. */
  predicate Reaches(s: string) {
    s != "" && !IsSpace(s[0]) && (s[0] == '@' || Reaches(s[1..]))
  }

  /** The rest of a user, a colon, and a password that is not empty. */
  predicate UserThenPassword(s: string) {
    && s != "" && (s[0] == ':' || UserChar(s[0]))
    && if s[0] == ':' then Reaches(s[1..]) && s[1] != '@' else UserThenPassword(s[1..])
  }

  predicate MatchHere(s: string) {
    |s| > 3 && s[0] == ':' && s[1] == '/' && s[2] == '/' && UserChar(s[3]) && UserThenPassword(s[3..])
  }

  /** How far the user and its colon, or the password and its at sign, reach. */
  function UserLength(s: string): (n: nat)
    requires UserThenPassword(s)
    ensures 0 < n <= |s| && Reaches(s[n..]) && s[n] != '@' && '@' !in s[..n] && s[n - 1] == ':'
    ensures s[0] != ':' ==> n > 1
  {
    if s[0] == ':' then 1
    else
      var n := 1 + UserLength(s[1..]);
      assert s[..n] == [s[0]] + s[1..][..n - 1];
      n
  }

  function PasswordLength(s: string): (n: nat)
    requires Reaches(s)
    ensures 0 < n <= |s| && s[n - 1] == '@'
  {
    if s[0] == '@' then 1 else 1 + PasswordLength(s[1..])
  }

  /** Up to and with the colon before the password, and up to and with the at sign. */
  function Head(s: string): (n: nat)
    requires MatchHere(s)
    ensures 4 < n <= |s| && Reaches(s[n..]) && '@' !in s[..n] && s[n] != '@'
  {
    var n := 3 + UserLength(s[3..]);
    assert s[3..][n - 3..] == s[n..] && s[..n] == s[..3] + s[3..][..n - 3];
    n
  }

  function End(s: string): (n: nat)
    requires MatchHere(s)
    ensures Head(s) < n <= |s|
  {
    Head(s) + PasswordLength(s[Head(s)..])
  }

  function Mask(s: string): string
    decreases |s|
  {
    if s == "" then ""
    else if MatchHere(s) then s[..Head(s)] + REDACTED + "@" + Mask(s[End(s)..])
    else [s[0]] + Mask(s[1..])
  }

  // ----- Nothing new to mask in a masked text, however it is cut -----

  lemma {:induction false} ReachesHas(s: string)
    requires Reaches(s)
    ensures '@' in s
  {
    if s[0] != '@' {
      ReachesHas(s[1..]);
    }
  }

  lemma {:induction false} UserThenPasswordHas(s: string)
    requires UserThenPassword(s)
    ensures '@' in s
  {
    if s[0] == ':' {
      ReachesHas(s[1..]);
    } else {
      UserThenPasswordHas(s[1..]);
    }
  }

  lemma {:induction false} NoAtStays(s: string)
    requires '@' !in s
    ensures Mask(s) == s
  {
    if s != "" {
      if MatchHere(s) {
        UserThenPasswordHas(s[3..]);
        assert false;
      }
      NoAtStays(s[1..]);
    }
  }

  /** From a match on, the at sign is reached without white space: also from inside the user. */
  lemma {:induction false} UserReaches(s: string)
    requires UserThenPassword(s)
    ensures Reaches(s)
  {
    if s[0] != ':' {
      UserReaches(s[1..]);
    }
  }

  lemma MatchReaches(s: string)
    requires MatchHere(s)
    ensures Reaches(s) && Reaches(s[1..]) && s[1] != '@'
  {
    UserReaches(s[3..]);
    assert s[1..][1..] == s[2..] && s[2..][1..] == s[3..];
    assert Reaches(s[2..]);
  }

  /** What stands first in a prefix of the masked text stands first in the text; and if the text is not matched
      there, the rest is a prefix of the masked rest. */
  lemma FirstOf(z: string, q: string)
    requires q <= Mask(z) && q != ""
    ensures z != "" && q[0] == z[0]
    ensures !MatchHere(z) ==> q[1..] <= Mask(z[1..])
    ensures MatchHere(z) ==> z[0] == ':'
  {
    if MatchHere(z) {
      assert Mask(z)[0] == z[..Head(z)][0];
    }
    hide MatchHere;
  }

  lemma {:induction false} ReachesBack(z: string, q: string)
    requires q <= Mask(z) && Reaches(q)
    ensures Reaches(z) && (q[0] != '@' ==> z[0] != '@')
    decreases |z|
  {
    FirstOf(z, q);
    if MatchHere(z) {
      MatchReaches(z);
    } else if q[0] != '@' {
      ReachesBack(z[1..], q[1..]);
    }
    hide MatchHere, Mask;
  }

  lemma {:induction false} UserBack(z: string, q: string)
    requires q <= Mask(z) && UserThenPassword(q)
    ensures UserThenPassword(z)
    decreases |z|
  {
    FirstOf(z, q);
    if q[0] == ':' {
      if MatchHere(z) {
        MatchReaches(z);
      } else {
        ReachesBack(z[1..], q[1..]);
      }
    } else {
      UserBack(z[1..], q[1..]);
    }
    hide MatchHere, Mask;
  }

  /** A position the text is not matched at is not matched in the masked text either. */
  lemma NoNewMatch(x: string, q: string)
    requires x != "" && q <= Mask(x[1..]) && MatchHere([x[0]] + q)
    ensures MatchHere(x)
  {
    var s := [x[0]] + q;
    assert s[3..] == q[2..] && q[0] == '/' && q[1] == '/';
    FirstOf(x[1..], q);
    assert x[1..][1..] == x[2..] && x[2..][1..] == x[3..] && q[1..][1..] == q[2..];
    FirstOf(x[2..], q[1..]);
    FirstOf(x[3..], q[2..]);
    UserBack(x[3..], q[2..]);
    hide Mask, UserThenPassword;
  }

  /** A masked user and password are masked to themselves, whatever follows. */
  lemma BlockStays(h: string, rest: string)
    requires |h| > 4 && MatchHere(h + REDACTED + "@" + rest)
    requires Head(h + REDACTED + "@" + rest) == |h|
    ensures Mask(h + REDACTED + "@" + rest) == h + REDACTED + "@" + Mask(rest)
  {
    var s := h + REDACTED + "@" + rest;
    assert s[..|h|] == h && s[|h|..] == REDACTED + "@" + rest;
    MarkerLength(rest);
    assert s[End(s)..] == rest;
  }

  lemma MarkerLength(rest: string)
    ensures Reaches(REDACTED + "@" + rest) && PasswordLength(REDACTED + "@" + rest) == |REDACTED| + 1
  {
    var m := "[REDACTED]@" + rest;
    assert REDACTED + "@" + rest == m;
    ReachOf("[REDACTED]", rest);
  }

  lemma {:induction false} ReachOf(a: string, rest: string)
    requires '@' !in a && forall i :: 0 <= i < |a| ==> !IsSpace(a[i])
    ensures Reaches(a + "@" + rest) && PasswordLength(a + "@" + rest) == |a| + 1
  {
    var s := a + "@" + rest;
    if a == "" {
      assert s == "@" + rest;
    } else {
      ReachOf(a[1..], rest);
      assert s[1..] == a[1..] + "@" + rest && s[0] == a[0];
    }
  }

  lemma UserNext(s: string)
    requires s != "" && s[0] != ':'
    ensures UserThenPassword(s) <==> UserChar(s[0]) && UserThenPassword(s[1..])
    ensures UserThenPassword(s) ==> UserLength(s) == 1 + UserLength(s[1..])
  {
    hide UserChar, Reaches;
  }

  lemma NoUserLeft(s: string)
    requires UserThenPassword(s) && s[0] == ':'
    ensures UserLength(s) == 1
  {
  }

  lemma ColonMatches(tail: string)
    requires Reaches(tail) && tail[0] != '@'
    ensures UserThenPassword(":" + tail)
  {
    assert (":" + tail)[1..] == tail;
    hide Reaches;
  }

  /** A match stays one, with the same user, when its password is replaced. */
  lemma {:induction false} UserKept(s: string, tail: string)
    requires UserThenPassword(s) && Reaches(tail) && tail[0] != '@'
    ensures UserThenPassword(s[..UserLength(s)] + tail)
    ensures UserLength(s[..UserLength(s)] + tail) == UserLength(s)
  {
    hide Reaches, UserChar, IsSpace, UserThenPassword, UserLength;
    var n := UserLength(s);
    var t := s[..n] + tail;
    if s[0] == ':' {
      NoUserLeft(s);
      ColonMatches(tail);
      assert t == ":" + tail;
      NoUserLeft(t);
    } else {
      UserNext(s);
      UserKept(s[1..], tail);
      assert t[1..] == s[1..][..n - 1] + tail && t[0] == s[0];
      UserNext(t);
    }
  }

  lemma MatchKept(s: string, tail: string)
    requires MatchHere(s) && Reaches(tail) && tail[0] != '@'
    ensures MatchHere(s[..Head(s)] + tail) && Head(s[..Head(s)] + tail) == Head(s)
  {
    hide UserThenPassword, Reaches, UserLength, UserChar;
    UserKept(s[3..], tail);
    var t := s[..Head(s)] + tail;
    assert t[3..] == s[3..][..UserLength(s[3..])] + tail;
    assert t[..4] == s[..4];
  }

  /** A masked text, cut anywhere, has nothing left to mask. */
  lemma {:induction false} MaskedPrefixStays(x: string, p: string)
    requires p <= Mask(x)
    ensures Mask(p) == p
    decreases |x|
  {
    if p == "" {
    } else if MatchHere(x) {
      MatchedPrefixStays(x, p);
    } else {
      assert p[0] == x[0] && p[1..] <= Mask(x[1..]) && p == [x[0]] + p[1..];
      MaskedPrefixStays(x[1..], p[1..]);
      if MatchHere(p) {
        NoNewMatch(x, p[1..]);
        assert false;
      }
    }
  }

  lemma MaskMatched(x: string)
    requires MatchHere(x)
    ensures Mask(x) == x[..Head(x)] + REDACTED + "@" + Mask(x[End(x)..])
  {
    hide MatchHere, Head, End;
  }

  /** A prefix of a masked user and password, or one that reaches beyond them. */
  lemma BlockPrefix(h: string, rest: string, p: string)
    requires '@' !in h && p <= h + REDACTED + "@" + rest
    ensures |p| <= |h| + |REDACTED| ==> '@' !in p
    ensures |p| > |h| + |REDACTED| ==>
              var q := p[|h| + |REDACTED| + 1..]; q <= rest && p == h + REDACTED + "@" + q
  {
    var block := h + REDACTED;
    assert '@' !in block;
    if |p| > |block| {
      assert p[..|block|] == block && p[|block|] == '@';
    } else {
      assert p == block[..|p|];
    }
  }

  lemma {:induction false} MatchedPrefixStays(x: string, p: string)
    requires MatchHere(x) && p <= Mask(x)
    ensures Mask(p) == p
    decreases |x|, 0
  {
    hide Mask, MatchHere, Head, End, Reaches;
    var h, rest := x[..Head(x)], x[End(x)..];
    MaskMatched(x);
    BlockPrefix(h, Mask(rest), p);
    if |p| <= |h| + |REDACTED| {
      NoAtStays(p);
    } else {
      var q := p[|h| + |REDACTED| + 1..];
      MaskedPrefixStays(rest, q);
      MarkerLength(q);
      assert (REDACTED + "@" + q)[0] != '@';
      MatchKept(x, REDACTED + "@" + q);
      assert h + (REDACTED + "@" + q) == h + REDACTED + "@" + q;
      BlockStays(h, q);
    }
  }

  /** Masking adds nothing but the marker. */
  lemma {:induction false} MaskAdds(s: string, c: char)
    requires c in Mask(s) && c !in REDACTED && c != '@'
    ensures c in s
    decreases |s|
  {
    if s != "" {
      if MatchHere(s) {
        if c !in s[..Head(s)] {
          assert c in Mask(s[End(s)..]);
          MaskAdds(s[End(s)..], c);
        }
      } else if c != s[0] {
        MaskAdds(s[1..], c);
      }
      hide MatchHere, Mask, Head, End;
    }
  }

  /** The password becomes the marker, and nothing but the password does. */
  lemma MaskReplaces(user: string, p: string, rest: string)
    requires User(user) && Password(p)
    ensures Mask("://" + user + ":" + p + "@" + rest) == "://" + user + ":" + REDACTED + "@" + Mask(rest)
  {
    hide MatchHere, Mask, Head, End, Reaches, UserThenPassword, UserLength, PasswordLength, UserChar;
    var h := "://" + user + ":";
    var s := h + p + "@" + rest;
    UserinfoMatches(user, p, rest);
    MaskMatched(s);
    HeadOfUser(user, p, rest);
    EndOfPassword(s, h, p, rest);
    assert s[..|h|] == h;
  }

  lemma HeadOfUser(user: string, p: string, rest: string)
    requires User(user) && Password(p)
    ensures var s := "://" + user + ":" + p + "@" + rest;
            MatchHere(s) && Head(s) == |"://" + user + ":"|
  {
    UserChars(user);
    hide MatchHere, UserThenPassword, UserLength, UserChar, Reaches;
    var s := "://" + user + ":" + p + "@" + rest;
    UserinfoMatches(user, p, rest);
    assert s[3..] == user + ":" + p + "@" + rest;
    UserLengthOf(user, p, rest);
    MatchOfUser(s);
  }

  lemma {:induction false} UserLengthOf(u: string, p: string, rest: string)
    requires (forall i :: 0 <= i < |u| ==> UserChar(u[i])) && Password(p)
    ensures var s := u + ":" + p + "@" + rest; UserThenPassword(s) && UserLength(s) == |u| + 1
  {
    hide UserThenPassword, UserLength, Reaches, IsSpace, Password;
    var s := u + ":" + p + "@" + rest;
    UserMatches(u, p, rest);
    if u == "" {
      NoUserLeft(s);
    } else {
      assert s[1..] == u[1..] + ":" + p + "@" + rest && s[0] == u[0];
      UserLengthOf(u[1..], p, rest);
      UserNext(s);
    }
  }

  lemma EndOfPassword(s: string, h: string, p: string, rest: string)
    requires MatchHere(s) && Head(s) == |h| && s == h + p + "@" + rest && Password(p)
    ensures s[End(s)..] == rest
  {
    hide MatchHere, Head, Reaches, PasswordLength;
    assert s[|h|..] == p + "@" + rest;
    ReachOf(p, rest);
    assert End(s) == |h + p| + 1 && s == (h + p + "@") + rest;
  }

  // ----- One password cannot be told from another -----

  /** What a password can be: it does not end early. */
  predicate Password(p: string) {
    p != "" && forall i :: 0 <= i < |p| ==> p[i] != '@' && !IsSpace(p[i])
  }

  function Before(a: string, user: string): string {
    a + "://" + user + ":"
  }

  function WithUserinfo(a: string, user: string, password: string, rest: string): string {
    Before(a, user) + password + "@" + rest
  }

  predicate User(u: string) {
    u != "" && forall i :: 0 <= i < |u| ==> u[i] !in {':', '/', '@'} && !IsSpace(u[i])
  }

  lemma UserChars(u: string)
    ensures User(u) <==> u != "" && forall i :: 0 <= i < |u| ==> UserChar(u[i])
  {
  }

  lemma AtIn(x: string)
    requires x != ""
    ensures '@' in x <==> x[0] == '@' || '@' in x[1..]
  {
    assert x == [x[0]] + x[1..];
  }

  lemma ReachesNext(s: string)
    requires s != ""
    ensures Reaches(s) <==> !IsSpace(s[0]) && (s[0] == '@' || Reaches(s[1..]))
    ensures Reaches(s) ==> PasswordLength(s) == if s[0] == '@' then 1 else 1 + PasswordLength(s[1..])
  {
    hide IsSpace;
  }

  /** How far the next at sign is from a point before the password: at the same place whatever the password is,
      or right behind it. */
  lemma {:induction false} SameReach(x: string, p: string, q: string, rest: string)
    requires Password(p) && Password(q)
    ensures Reaches(x + p + "@" + rest) <==> Reaches(x + q + "@" + rest)
    ensures Reaches(x + p + "@" + rest) ==>
              if '@' in x
              then PasswordLength(x + p + "@" + rest) == PasswordLength(x + q + "@" + rest) <= |x|
              else
                && PasswordLength(x + p + "@" + rest) == |x + p| + 1
                && PasswordLength(x + q + "@" + rest) == |x + q| + 1
  {
    var s, t := x + p + "@" + rest, x + q + "@" + rest;
    if x == "" {
      ReachOf(p, rest);
      ReachOf(q, rest);
      hide Reaches, PasswordLength, IsSpace;
      assert "" + p == p && "" + q == q;
    } else {
      hide IsSpace, Password;
      assert s[0] == x[0] == t[0];
      assert s[1..] == x[1..] + p + "@" + rest && t[1..] == x[1..] + q + "@" + rest;
      SameReach(x[1..], p, q, rest);
      AtIn(x);
      ReachesNext(s);
      ReachesNext(t);
      hide Reaches, PasswordLength;
    }
  }

  lemma ColonNext(s: string)
    requires |s| > 1 && s[0] == ':'
    ensures UserThenPassword(s) <==> Reaches(s[1..]) && s[1] != '@'
    ensures UserThenPassword(s) ==> UserLength(s) == 1
  {
    hide Reaches;
  }

  lemma PasswordStarts(p: string)
    requires Password(p)
    ensures p != "" && p[0] != '@'
  {
  }

  /** So does a user whose colon comes before the password. */
  lemma {:induction false} SameUser(x: string, p: string, q: string, rest: string)
    requires x != "" && x[|x| - 1] == ':' && Password(p) && Password(q)
    ensures UserThenPassword(x + p + "@" + rest) <==> UserThenPassword(x + q + "@" + rest)
    ensures UserThenPassword(x + p + "@" + rest) ==>
              UserLength(x + p + "@" + rest) == UserLength(x + q + "@" + rest) <= |x|
  {
    hide Reaches, UserChar, IsSpace, UserThenPassword, UserLength, PasswordLength, Password;
    var s, t, y := x + p + "@" + rest, x + q + "@" + rest, x[1..];
    PasswordStarts(p);
    PasswordStarts(q);
    assert s[0] == x[0] == t[0];
    assert s[1..] == y + p + "@" + rest && t[1..] == y + q + "@" + rest;
    if x[0] == ':' {
      SameReach(y, p, q, rest);
      assert s[1] == (if |x| > 1 then x[1] else p[0]) && t[1] == (if |x| > 1 then x[1] else q[0]);
      ColonNext(s);
      ColonNext(t);
    } else {
      SameUser(y, p, q, rest);
      UserNext(s);
      UserNext(t);
    }
  }

  lemma MatchOfUser(s: string)
    requires |s| > 3
    ensures MatchHere(s) <==> s[..3] == "://" && UserChar(s[3]) && UserThenPassword(s[3..])
    ensures MatchHere(s) ==> Head(s) == 3 + UserLength(s[3..])
  {
    assert s[..3] == "://" <==> s[0] == ':' && s[1] == '/' && s[2] == '/';
    hide UserThenPassword, UserLength, UserChar, Reaches;
  }

  lemma SameMatch(x: string, p: string, q: string, rest: string)
    requires |x| > 3 && x[|x| - 1] == ':' && Password(p) && Password(q)
    ensures MatchHere(x + p + "@" + rest) <==> MatchHere(x + q + "@" + rest)
    ensures MatchHere(x + p + "@" + rest) ==> Head(x + p + "@" + rest) == Head(x + q + "@" + rest) <= |x|
  {
    hide UserThenPassword, UserLength, UserChar, Reaches, MatchHere, Head, Password, IsSpace;
    var s, t := x + p + "@" + rest, x + q + "@" + rest;
    assert s[3..] == x[3..] + p + "@" + rest && t[3..] == x[3..] + q + "@" + rest;
    assert s[..3] == x[..3] == t[..3] && s[3] == x[3] == t[3];
    MatchOfUser(s);
    MatchOfUser(t);
    SameUser(x[3..], p, q, rest);
  }

  /** The match ends before the password in both texts, or behind it in both. */
  lemma SameEnd(x: string, p: string, q: string, rest: string)
    requires |x| > 3 && x[|x| - 1] == ':' && Password(p) && Password(q)
    requires MatchHere(x + p + "@" + rest) && MatchHere(x + q + "@" + rest)
    requires Head(x + p + "@" + rest) == Head(x + q + "@" + rest) <= |x|
    ensures var s, t := x + p + "@" + rest, x + q + "@" + rest;
            if '@' in x[Head(s)..] then End(s) == End(t) <= |x|
            else s[End(s)..] == rest && t[End(t)..] == rest
  {
    var s, t := x + p + "@" + rest, x + q + "@" + rest;
    hide MatchHere, Head, Reaches, PasswordLength;
    var y := x[Head(s)..];
    assert s[Head(s)..] == y + p + "@" + rest && t[Head(s)..] == y + q + "@" + rest;
    SameReach(y, p, q, rest);
    if '@' !in y {
      assert |x + p| + 1 == End(s) && |x + q| + 1 == End(t);
      assert s == (x + p + "@") + rest && t == (x + q + "@") + rest;
    }
  }

  /** `://user:` is matched where it stands. */
  lemma {:induction false} UserMatches(u: string, p: string, rest: string)
    requires (forall i :: 0 <= i < |u| ==> UserChar(u[i])) && Password(p)
    ensures UserThenPassword(u + ":" + p + "@" + rest)
  {
    var s := u + ":" + p + "@" + rest;
    if u == "" {
      assert s[1..] == p + "@" + rest;
      ReachOf(p, rest);
    } else {
      UserMatches(u[1..], p, rest);
      assert s[1..] == u[1..] + ":" + p + "@" + rest;
    }
  }

  lemma UserinfoMatches(u: string, p: string, rest: string)
    requires User(u) && Password(p)
    ensures MatchHere("://" + u + ":" + p + "@" + rest)
  {
    UserChars(u);
    var s := "://" + u + ":" + p + "@" + rest;
    UserMatches(u, p, rest);
    hide UserThenPassword, UserChar, Reaches;
    assert s[3..] == u + ":" + p + "@" + rest && s[3] == u[0];
  }

  lemma MaskUnmatched(s: string)
    requires s != "" && !MatchHere(s)
    ensures Mask(s) == [s[0]] + Mask(s[1..])
  {
    hide MatchHere;
  }

  lemma EndIsAt(s: string)
    requires MatchHere(s)
    ensures s[End(s) - 1] == '@'
  {
    hide MatchHere, Head;
  }

  lemma {:induction false} AtBefore(a: string, u: string, end: nat)
    requires User(u) && 0 < end <= |Before(a, u)| && Before(a, u)[end - 1] == '@'
    ensures end <= |a|
  {
    hide IsSpace;
    var b := "://" + u + ":";
    assert forall i :: 0 <= i < |b| ==> b[i] != '@';
    assert Before(a, u) == a + b;
    assert forall i :: |a| <= i < |a + b| ==> (a + b)[i] == b[i - |a|];
  }

  lemma BeforeShape(a: string, u: string, k: nat)
    requires k <= |a|
    ensures |Before(a, u)| > 3 && Before(a, u)[|Before(a, u)| - 1] == ':' && |a| < |Before(a, u)|
    ensures Before(a, u)[k..] == Before(a[k..], u)
  {
  }

  /** The text behind a match that ends before the password. */
  lemma RestOf(a: string, u: string, p: string, rest: string, k: nat)
    requires k <= |a|
    ensures WithUserinfo(a, u, p, rest)[k..] == WithUserinfo(a[k..], u, p, rest)
  {
    BeforeShape(a, u, k);
    hide Before;
    assert (Before(a, u) + p + "@" + rest)[k..] == Before(a, u)[k..] + p + "@" + rest;
  }

  /** Whatever stands before and behind it, a password after `://user:` cannot be told from another in the masked
      text. Nothing is asked of what stands before: should it open a match of its own that reaches so far, the
      password is masked with it. */
  lemma {:induction false} MaskHidesPassword(a: string, user: string, p: string, q: string, rest: string)
    requires User(user) && Password(p) && Password(q)
    ensures Mask(WithUserinfo(a, user, p, rest)) == Mask(WithUserinfo(a, user, q, rest))
    decreases |a|, 1
  {
    hide MatchHere, Mask, Head, End, User, Password, Before;
    var s, t := WithUserinfo(a, user, p, rest), WithUserinfo(a, user, q, rest);
    BeforeShape(a, user, 0);
    SameMatch(Before(a, user), p, q, rest);
    if MatchHere(s) {
      MatchedHides(a, user, p, q, rest);
    } else {
      if a == "" {
        UserinfoMatches(user, p, rest);
        FirstPlace(user, p, rest);
        assert false;
      }
      assert s != "" && t != "" && s[0] == a[0] == t[0] by { FirstOfBefore(a, user); }
      MaskUnmatched(s);
      MaskUnmatched(t);
      RestOf(a, user, p, rest, 1);
      RestOf(a, user, q, rest, 1);
      MaskHidesPassword(a[1..], user, p, q, rest);
    }
  }

  lemma FirstOfBefore(a: string, u: string)
    requires a != ""
    ensures Before(a, u) != "" && Before(a, u)[0] == a[0]
  {
  }

  lemma FirstPlace(u: string, p: string, rest: string)
    ensures WithUserinfo("", u, p, rest) == "://" + u + ":" + p + "@" + rest
  {
    assert "" + "://" == "://";
  }

  lemma {:induction false} MatchedHides(a: string, user: string, p: string, q: string, rest: string)
    requires User(user) && Password(p) && Password(q)
    requires MatchHere(WithUserinfo(a, user, p, rest)) && MatchHere(WithUserinfo(a, user, q, rest))
    requires Head(WithUserinfo(a, user, p, rest)) == Head(WithUserinfo(a, user, q, rest)) <= |Before(a, user)|
    ensures Mask(WithUserinfo(a, user, p, rest)) == Mask(WithUserinfo(a, user, q, rest))
    decreases |a|, 0
  {
    hide MatchHere, Mask, Head, End, User, Password, Before;
    var x := Before(a, user);
    var s, t := WithUserinfo(a, user, p, rest), WithUserinfo(a, user, q, rest);
    BeforeShape(a, user, 0);
    SameEnd(x, p, q, rest);
    MaskMatched(s);
    MaskMatched(t);
    assert s[..Head(s)] == x[..Head(s)] == t[..Head(t)];
    if '@' in x[Head(s)..] {
      EndIsAt(s);
      assert x[End(s) - 1] == s[End(s) - 1];
      AtBefore(a, user, End(s));
      RestOf(a, user, p, rest, End(s));
      RestOf(a, user, q, rest, End(t));
      MaskHidesPassword(a[End(s)..], user, p, q, rest);
    }
  }
}
