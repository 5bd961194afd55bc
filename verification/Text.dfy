/**
 The string operations of Python the clients lean on: `str.strip`, `str.split`, decimal numbers. A Dafny
 `char` is a Unicode scalar value, so lone surrogates do not occur here.
 */
module Text {

  /** What `str.isspace` accepts, and so what `str.strip()` removes: note U+001C to U+001F. */
  predicate IsSpace(c: char) {
    var n := c as int;
    || 0x09 <= n <= 0x0D || 0x1C <= n <= 0x20 || n == 0x85 || n == 0xA0 || n == 0x1680
    || 0x2000 <= n <= 0x200A || n == 0x2028 || n == 0x2029 || n == 0x202F || n == 0x205F || n == 0x3000
  }

  lemma SpaceCodes(c: char)
    ensures IsSpace(c) <==> c as int in {
              0x09, 0x0A, 0x0B, 0x0C, 0x0D, 0x1C, 0x1D, 0x1E, 0x1F, 0x20, 0x85, 0xA0, 0x1680,
              0x2000, 0x2001, 0x2002, 0x2003, 0x2004, 0x2005, 0x2006, 0x2007, 0x2008, 0x2009, 0x200A,
              0x2028, 0x2029, 0x202F, 0x205F, 0x3000}
  {
  }

  predicate IsNewline(c: char) {
    c == '\n'
  }

  function TrimLeft(s: string, drop: char -> bool): string {
    if s != [] && drop(s[0]) then TrimLeft(s[1..], drop) else s
  }

  function TrimRight(s: string, drop: char -> bool): string {
    if s != [] && drop(s[|s| - 1]) then TrimRight(s[..|s| - 1], drop) else s
  }

  function Trim(s: string, drop: char -> bool): string {
    TrimRight(TrimLeft(s, drop), drop)
  }

  function Strip(s: string): string {
    Trim(s, IsSpace)
  }

  predicate FreeOf(s: string, bad: set<char>) {
    forall i :: 0 <= i < |s| ==> s[i] !in bad
  }

  predicate Blank(s: string) {
    forall i :: 0 <= i < |s| ==> IsSpace(s[i])
  }

  lemma {:induction false} TrimLeftKeeps(s: string, drop: char -> bool)
    ensures var t := TrimLeft(s, drop);
            && (t == [] <==> forall i :: 0 <= i < |s| ==> drop(s[i]))
            && (t != [] ==> !drop(t[0]))
            && |t| <= |s| && t == s[|s| - |t|..]
  {
    if s != [] && drop(s[0]) {
      TrimLeftKeeps(s[1..], drop);
      assert forall i :: 0 < i < |s| ==> s[i] == s[1..][i - 1];
    }
  }

  lemma {:induction false} TrimRightKeeps(s: string, drop: char -> bool)
    ensures var t := TrimRight(s, drop);
            && (t == [] <==> forall i :: 0 <= i < |s| ==> drop(s[i]))
            && (t != [] ==> !drop(t[|t| - 1]))
            && t <= s
            && forall i :: |t| <= i < |s| ==> drop(s[i])
  {
    if s != [] && drop(s[|s| - 1]) {
      TrimRightKeeps(s[..|s| - 1], drop);
    }
  }

  /** Trimming on the right does not reach past a kept character. */
  lemma {:induction false} TrimRightAppend(a: string, b: string, drop: char -> bool)
    requires exists i :: 0 <= i < |b| && !drop(b[i])
    ensures TrimRight(a + b, drop) == a + TrimRight(b, drop)
    decreases |b|
  {
    if drop(b[|b| - 1]) {
      assert (a + b)[..|a + b| - 1] == a + b[..|b| - 1];
      TrimRightAppend(a, b[..|b| - 1], drop);
    }
  }

  lemma {:induction false} TrimRightDrops(a: string, b: string, drop: char -> bool)
    requires forall i :: 0 <= i < |b| ==> drop(b[i])
    ensures TrimRight(a + b, drop) == TrimRight(a, drop)
    decreases |b|
  {
    if b == [] {
      assert a + b == a;
    } else {
      assert (a + b)[..|a + b| - 1] == a + b[..|b| - 1];
      TrimRightDrops(a, b[..|b| - 1], drop);
    }
  }

  lemma {:induction false} TrimLeftDrops(a: string, b: string, drop: char -> bool)
    requires forall i :: 0 <= i < |a| ==> drop(a[i])
    ensures TrimLeft(a + b, drop) == TrimLeft(b, drop)
    decreases |a|
  {
    if a == [] {
      assert a + b == b;
    } else {
      assert (a + b)[1..] == a[1..] + b;
      TrimLeftDrops(a[1..], b, drop);
    }
  }

  /** Removing newlines first changes nothing about what `strip()` leaves. */
  lemma StripAfterNewlines(s: string)
    ensures Strip(Trim(s, IsNewline)) == Strip(s)
  {
    var t := TrimLeft(s, IsNewline);
    var u := TrimRight(t, IsNewline);
    TrimLeftKeeps(s, IsNewline);
    TrimLeftDropped(s, IsNewline);
    TrimRightKeeps(t, IsNewline);
    hide TrimLeft, TrimRight;
    var a, b := s[..|s| - |t|], t[|u|..];
    assert s == a + t && t == u + b;
    assert Blank(a) && Blank(b);
    TrimLeftDrops(a, t, IsSpace);
    StripDropsTail(u, b);
  }

  lemma {:induction false} TrimLeftDropped(s: string, drop: char -> bool)
    ensures var t := TrimLeft(s, drop);
            |t| <= |s| && forall i :: 0 <= i < |s| - |t| ==> drop(s[i])
  {
    if s != [] && drop(s[0]) {
      TrimLeftDropped(s[1..], drop);
      assert forall i :: 0 < i < |s| ==> s[i] == s[1..][i - 1];
    }
  }

  lemma {:induction false} StripDropsTail(a: string, b: string)
    requires Blank(b)
    ensures Strip(a + b) == Strip(a)
  {
    TrimLeftKeeps(a, IsSpace);
    if Blank(a) {
      TrimLeftDrops(a, b, IsSpace);
      TrimLeftKeeps(b, IsSpace);
    } else {
      TrimLeftAppend(a, b, IsSpace);
      TrimRightDrops(TrimLeft(a, IsSpace), b, IsSpace);
    }
  }

  lemma {:induction false} TrimLeftAppend(a: string, b: string, drop: char -> bool)
    requires exists i :: 0 <= i < |a| && !drop(a[i])
    ensures TrimLeft(a + b, drop) == TrimLeft(a, drop) + b
    decreases |a|
  {
    if drop(a[0]) {
      assert (a + b)[1..] == a[1..] + b;
      var i :| 0 <= i < |a| && !drop(a[i]);
      assert !drop(a[1..][i - 1]);
      TrimLeftAppend(a[1..], b, drop);
    }
  }

  lemma StripBlank(s: string)
    ensures Strip(s) == [] <==> Blank(s)
  {
    TrimLeftKeeps(s, IsSpace);
    var t := TrimLeft(s, IsSpace);
    TrimRightKeeps(t, IsSpace);
  }

  lemma StripTrimRight(s: string)
    ensures Strip(TrimRight(s, IsSpace)) == Strip(s)
  {
    TrimRightKeeps(s, IsSpace);
    var t := TrimRight(s, IsSpace);
    assert s == t + s[|t|..];
    StripDropsTail(t, s[|t|..]);
  }

  /** Python's `s[:cap]`. */
  function Take<T>(s: seq<T>, cap: nat): seq<T> {
    if |s| <= cap then s else s[..cap]
  }

  // ----- split -----

  function Split(s: string, sep: char): (parts: seq<string>)
    ensures |parts| > 0
  {
    if s == [] then [[]]
    else
      var rest := Split(s[1..], sep);
      if s[0] == sep then [[]] + rest else [[s[0]] + rest[0]] + rest[1..]
  }

  lemma SplitStep(s: string, sep: char)
    requires s != []
    ensures var rest := Split(s[1..], sep);
            Split(s, sep) == if s[0] == sep then [[]] + rest else [[s[0]] + rest[0]] + rest[1..]
  {
  }

  lemma {:induction false} SplitOne(a: string, sep: char)
    requires sep !in a
    ensures Split(a, sep) == [a]
  {
    if a != [] {
      SplitOne(a[1..], sep);
      assert [a[0]] + a[1..] == a;
    }
  }

  lemma {:induction false} SplitCons(a: string, b: string, sep: char)
    requires sep !in a
    ensures Split(a + [sep] + b, sep) == [a] + Split(b, sep)
  {
    var s := a + [sep] + b;
    if a == [] {
      assert s[1..] == b;
    } else {
      SplitCons(a[1..], b, sep);
      assert s[1..] == a[1..] + [sep] + b;
      var rest := Split(s[1..], sep);
      assert rest[0] == a[1..] && rest[1..] == Split(b, sep);
      assert [a[0]] + a[1..] == a;
    }
  }

  /** Stripping on the right, then splitting: a separator with something visible behind it still separates. */
  lemma SplitTrimmed(a: string, b: string, sep: char)
    requires sep !in a && !Blank(b)
    ensures TrimRight(a + [sep] + b, IsSpace) == a + [sep] + TrimRight(b, IsSpace)
    ensures Split(TrimRight(a + [sep] + b, IsSpace), sep) == [a] + Split(TrimRight(b, IsSpace), sep)
  {
    TrimRightAppend(a + [sep], b, IsSpace);
    hide TrimRight;
    SplitCons(a, TrimRight(b, IsSpace), sep);
  }

  /** `str.split(sep, n)`: at most `n` cuts, the rest in the last part. */
  function SplitMax(s: string, sep: char, n: nat): seq<string>
    decreases n
  {
    if n == 0 || sep !in s then [s]
    else
      var i := IndexOf(s, sep);
      [s[..i]] + SplitMax(s[i + 1..], sep, n - 1)
  }

  function IndexOf(s: string, c: char): (i: nat)
    requires c in s
    ensures i < |s| && s[i] == c && c !in s[..i]
  {
    if s[0] == c then 0 else 1 + IndexOf(s[1..], c)
  }

  lemma {:induction false} FirstIndex(s: string, c: char, k: nat)
    requires k < |s| && s[k] == c && forall j :: 0 <= j < k ==> s[j] != c
    ensures IndexOf(s, c) == k
  {
    if k > 0 {
      FirstIndex(s[1..], c, k - 1);
    }
  }

  lemma SplitMaxCons(a: string, b: string, sep: char, n: nat)
    requires sep !in a && n > 0
    ensures SplitMax(a + [sep] + b, sep, n) == [a] + SplitMax(b, sep, n - 1)
  {
    var s := a + [sep] + b;
    assert s[|a|] == sep;
    var i := IndexOf(s, sep);
    assert forall j :: 0 <= j < |a| ==> s[j] == a[j] && a[j] in a;
    FirstIndex(s, sep, |a|);
    assert s[..i] == a && s[i + 1..] == b;
  }

  /** The stripped lines that are not blank. */
  function NonBlankLines(lines: seq<string>): seq<string> {
    if lines == [] then []
    else
      var line := Strip(lines[0]);
      (if line == [] then [] else [line]) + NonBlankLines(lines[1..])
  }

  lemma NonBlankLinesCons(first: string, rest: seq<string>)
    ensures NonBlankLines([first] + rest)
         == (if Strip(first) == [] then [] else [Strip(first)]) + NonBlankLines(rest)
  {
    hide Strip;
    assert ([first] + rest)[1..] == rest;
  }

  lemma {:induction false} NonBlankLinesAppend(a: seq<string>, b: seq<string>)
    ensures NonBlankLines(a + b) == NonBlankLines(a) + NonBlankLines(b)
  {
    hide Strip;
    if a == [] {
      assert a + b == b;
      assert [] + NonBlankLines(b) == NonBlankLines(b);
    } else {
      hide NonBlankLines;
      var rest := a[1..];
      assert a == [a[0]] + rest && a + b == [a[0]] + (rest + b);
      NonBlankLinesCons(a[0], rest);
      NonBlankLinesCons(a[0], rest + b);
      NonBlankLinesAppend(rest, b);
      Associates(if Strip(a[0]) == [] then [] else [Strip(a[0])], NonBlankLines(rest), NonBlankLines(b));
    }
  }

  lemma Associates(a: seq<string>, b: seq<string>, c: seq<string>)
    ensures a + (b + c) == a + b + c
  {
  }

  lemma {:induction false} SplitSnocSep(s: string, sep: char)
    ensures Split(s + [sep], sep) == Split(s, sep) + [[]]
  {
    if s == [] {
      assert s + [sep] == [sep] && [sep][1..] == [];
    } else {
      SplitSnocSep(s[1..], sep);
      SplitStep(s, sep);
      SplitStep(s + [sep], sep);
      hide Split;
      assert (s + [sep])[1..] == s[1..] + [sep];
      var rest := Split(s[1..], sep);
      assert (rest + [[]])[0] == rest[0] && (rest + [[]])[1..] == rest[1..] + [[]];
    }
  }

  /** `s` with `c` appended to its last part. */
  function Extend(parts: seq<string>, c: char): seq<string>
    requires |parts| > 0
  {
    parts[..|parts| - 1] + [parts[|parts| - 1] + [c]]
  }

  lemma {:induction false} SplitSnocOther(s: string, c: char, sep: char)
    requires c != sep
    ensures Split(s + [c], sep) == Extend(Split(s, sep), c)
  {
    if s == [] {
      assert s + [c] == [c] && [c][1..] == [] && [c] + [] == [c];
      assert Split([c], sep) == [[c]];
    } else {
      SplitSnocOther(s[1..], c, sep);
      assert (s + [c])[1..] == s[1..] + [c];
      ExtendCons(Split(s[1..], sep), c, s[0]);
      assert Extend([[]] + Split(s[1..], sep), c) == [[]] + Extend(Split(s[1..], sep), c);
    }
  }

  lemma ExtendCons(rest: seq<string>, c: char, first: char)
    requires |rest| > 0
    ensures var grown := Extend(rest, c);
            Extend([[first] + rest[0]] + rest[1..], c) == [[first] + grown[0]] + grown[1..]
  {
    if |rest| == 1 {
      assert [first] + (rest[0] + [c]) == [first] + rest[0] + [c];
    }
  }

  lemma NonBlankSnoc(lines: seq<string>, line: string)
    ensures NonBlankLines(lines + [line]) == NonBlankLines(lines) + (if Strip(line) == [] then [] else [Strip(line)])
  {
    NonBlankLinesAppend(lines, [line]);
    assert [line][1..] == [];
  }

  lemma NonBlankLinesSnoc(s: string, c: char)
    requires IsSpace(c)
    ensures NonBlankLines(Split(s + [c], '\n')) == NonBlankLines(Split(s, '\n'))
  {
    var parts := Split(s, '\n');
    var k := |parts| - 1;
    if c == '\n' {
      SplitSnocSep(s, c);
      hide Split;
      NonBlankSnoc(parts, []);
      StripBlank([]);
    } else {
      SplitSnocOther(s, c, '\n');
      hide Split, Strip, NonBlankLines;
      assert parts == parts[..k] + [parts[k]];
      NonBlankSnoc(parts[..k], parts[k]);
      NonBlankSnoc(parts[..k], parts[k] + [c]);
      StripDropsTail(parts[k], [c]);
    }
  }

  /** Trailing white space is invisible to a reader of stripped, non-blank lines. */
  lemma {:induction false} NonBlankLinesTrim(s: string)
    ensures NonBlankLines(Split(TrimRight(s, IsSpace), '\n')) == NonBlankLines(Split(s, '\n'))
    decreases |s|
  {
    if s != [] && IsSpace(s[|s| - 1]) {
      var n := |s| - 1;
      NonBlankLinesTrim(s[..n]);
      NonBlankLinesSnoc(s[..n], s[n]);
      assert s == s[..n] + [s[n]];
    }
  }

  lemma {:induction false} NonBlankLinesOfBlank(s: string)
    requires Blank(s)
    ensures NonBlankLines(Split(s, '\n')) == []
  {
    TrimRightKeeps(s, IsSpace);
    NonBlankLinesTrim(s);
    StripBlank([]);
  }

  // ----- decimal numbers -----

  predicate IsDigit(c: char) {
    '0' <= c <= '9'
  }

  predicate AllDigits(s: string) {
    forall i :: 0 <= i < |s| ==> IsDigit(s[i])
  }

  function Decimal(n: nat): string {
    if n < 10 then [('0' as int + n) as char] else Decimal(n / 10) + Decimal(n % 10)
  }

  function ParseDecimal(s: string): nat
    requires AllDigits(s)
  {
    if s == [] then 0
    else ParseDecimal(s[..|s| - 1]) * 10 + (s[|s| - 1] as int - '0' as int)
  }

  /** A decimal is made of digits, and reading it gives the number back. */
  lemma {:induction false} DecimalRoundTrip(n: nat)
    ensures Decimal(n) != [] && AllDigits(Decimal(n)) && ParseDecimal(Decimal(n)) == n
  {
    if n >= 10 {
      DecimalRoundTrip(n / 10);
      DecimalRoundTrip(n % 10);
      var a, b := Decimal(n / 10), Decimal(n % 10);
      assert |b| == 1 && (a + b)[..|a + b| - 1] == a;
    }
  }

  function Pow10(k: nat): nat {
    if k == 0 then 1 else 10 * Pow10(k - 1)
  }

  /** A decimal has at most `k` digits exactly when the number is below the k-th power of ten. */
  lemma {:induction false} DecimalLength(n: nat, k: nat)
    requires k > 0
    ensures |Decimal(n)| <= k <==> n < Pow10(k)
    decreases k
  {
    if k == 1 {
      assert Pow10(1) == 10;
      if n >= 10 {
        DecimalRoundTrip(n / 10);
        DecimalRoundTrip(n % 10);
      }
    } else if n >= 10 {
      DecimalLength(n / 10, k - 1);
      assert |Decimal(n % 10)| == 1;
    } else {
      assert Pow10(k) >= 10 by {
        Pow10Positive(k - 1);
      }
    }
  }

  lemma {:induction false} Pow10Positive(k: nat)
    ensures Pow10(k) >= 1
  {
    if k > 0 {
      Pow10Positive(k - 1);
    }
  }
}
