/**
 The fixpoint-seeking redaction loop, in general and for the one token shape modelled in full: the unbroken run
 of 40 or more token characters.
 */
module Settle {
  import opened Utf8

  const ROUNDS: nat := 6
  const REDACTED: string := "[REDACTED]"
  const RUN_MIN: nat := 40

  type Pass = string -> string

  function Round(step: Pass, cut: Pass, text: string): string {
    cut(step(text))
  }

  function Iterate(step: Pass, cut: Pass, text: string, n: nat): string
    decreases n
  {
    if n == 0 then text else Iterate(step, cut, Round(step, cut, text), n - 1)
  }

  predicate Fixpoint(step: Pass, cut: Pass, text: string) {
    Round(step, cut, text) == text
  }

  /** What `_settle` returns: its early exit never changes the result of all its rounds. */
  function Settled(step: Pass, cut: Pass, text: string): string {
    Iterate(step, cut, text, ROUNDS)
  }

  lemma {:induction false} FixpointStays(step: Pass, cut: Pass, text: string, n: nat)
    requires Fixpoint(step, cut, text)
    ensures Iterate(step, cut, text, n) == text
    decreases n
  {
    if n > 0 {
      FixpointStays(step, cut, text, n - 1);
    }
  }

  /** A first round that reaches a fixpoint is the result, and stays it. */
  lemma SettledAfterOne(step: Pass, cut: Pass, text: string)
    requires Fixpoint(step, cut, Round(step, cut, text))
    ensures var once := Round(step, cut, text);
            Settled(step, cut, text) == once && Settled(step, cut, once) == once
  {
    var once := Round(step, cut, text);
    FixpointStays(step, cut, once, ROUNDS - 1);
    FixpointStays(step, cut, once, ROUNDS);
    assert Settled(step, cut, text) == Iterate(step, cut, once, ROUNDS - 1);
  }

  method SettleText(text: string, step: Pass, cut: Pass) returns (r: string)
    ensures r == Settled(step, cut, text)
  {
    r := text;
    for i := 0 to ROUNDS
      invariant Iterate(step, cut, r, ROUNDS - i) == Settled(step, cut, text)
    {
      var next := cut(step(r));
      if next == r {
        FixpointStays(step, cut, r, ROUNDS - i);
        return next;
      }
      r := next;
    }
  }

  lemma {:induction false} IterateSplit(step: Pass, cut: Pass, text: string, m: nat, n: nat)
    ensures Iterate(step, cut, text, m + n) == Iterate(step, cut, Iterate(step, cut, text, m), n)
    decreases m
  {
    if m > 0 {
      IterateSplit(step, cut, Round(step, cut, text), m - 1, n);
    }
  }

  /** Some round of the loop reaches a text that a further round leaves alone. */
  ghost predicate Reached(step: Pass, cut: Pass, text: string) {
    exists k: nat :: k <= ROUNDS && Fixpoint(step, cut, Iterate(step, cut, text, k))
  }

  /** The loop returns a fixpoint exactly when one of its rounds reaches one; then it stays put for good. */
  lemma SettledIffReached(step: Pass, cut: Pass, text: string)
    ensures Fixpoint(step, cut, Settled(step, cut, text))
            <==> Reached(step, cut, text)
    ensures Reached(step, cut, text) ==> Settled(step, cut, Settled(step, cut, text)) == Settled(step, cut, text)
  {
    if k: nat :| k <= ROUNDS && Fixpoint(step, cut, Iterate(step, cut, text, k)) {
      IterateSplit(step, cut, text, k, ROUNDS - k);
      FixpointStays(step, cut, Iterate(step, cut, text, k), ROUNDS - k);
      FixpointStays(step, cut, Settled(step, cut, text), ROUNDS);
    } else {
      assert Settled(step, cut, text) == Iterate(step, cut, text, ROUNDS);
    }
  }

  /** Whatever the step does, the result has been cut. */
  lemma SettledIsCut(step: Pass, cut: Pass, text: string)
    ensures exists x :: Settled(step, cut, text) == cut(x)
  {
    var before := Iterate(step, cut, text, ROUNDS - 1);
    IterateSplit(step, cut, text, ROUNDS - 1, 1);
    assert Iterate(step, cut, before, 1) == Iterate(step, cut, Round(step, cut, before), 0);
    assert Settled(step, cut, text) == cut(step(before));
  }

  ghost predicate Cleans(step: Pass, clean: string -> bool) {
    && (forall x :: clean(step(x)))
    && (forall x :: clean(x) ==> step(x) == x)
  }

  ghost predicate PrefixClosed(clean: string -> bool) {
    forall x, p :: p <= x && clean(x) ==> clean(p)
  }

  ghost predicate PrefixCut(cut: Pass) {
    forall x :: cut(x) <= x && cut(cut(x)) == cut(x)
  }

  /** If the step makes any text clean, leaves clean text alone, and cutting keeps text clean, the first round
      already reaches the fixpoint and the second one sees it. */
  lemma SettledInOneRound(step: Pass, cut: Pass, clean: string -> bool, text: string)
    requires Cleans(step, clean) && PrefixClosed(clean) && PrefixCut(cut)
    ensures Settled(step, cut, text) == cut(step(text))
    ensures Fixpoint(step, cut, Settled(step, cut, text))
  {
    var once := Round(step, cut, text);
    assert once <= step(text) && clean(once);
    assert Fixpoint(step, cut, once);
    FixpointStays(step, cut, once, ROUNDS - 1);
    assert Iterate(step, cut, text, ROUNDS) == Iterate(step, cut, once, ROUNDS - 1);
  }

  // ----- The 40+ run -----

  predicate TokenChar(c: char) {
    || 'A' <= c <= 'Z' || 'a' <= c <= 'z' || '0' <= c <= '9'
    || c == '+' || c == '/' || c == '=' || c == '_' || c == '-'
  }

  function RunLength(text: string): (n: nat)
    ensures n <= |text| && (forall i :: 0 <= i < n ==> TokenChar(text[i]))
    ensures n < |text| ==> !TokenChar(text[n])
  {
    if text == [] || !TokenChar(text[0]) then 0 else 1 + RunLength(text[1..])
  }

  /** The scanner's next piece: a maximal run of token characters, or one character outside the class. */
  function Piece(text: string): (n: nat)
    requires text != []
    ensures 0 < n <= |text|
  {
    var n := RunLength(text);
    if n == 0 then 1 else n
  }

  function Replaced(piece: string): (r: string)
    requires piece != []
    ensures |piece| < RUN_MIN ==> r == piece
  {
    if |piece| >= RUN_MIN then REDACTED else piece
  }

  /** Every maximal run of at least RUN_MIN token characters becomes the marker; all else stays. */
  function RunPass(text: string): string
    decreases |text|
  {
    if text == [] then []
    else
      var n := Piece(text);
      Replaced(text[..n]) + RunPass(text[n..])
  }

  predicate RunAt(text: string, i: nat) {
    i + RUN_MIN <= |text| && forall j :: i <= j < i + RUN_MIN ==> TokenChar(text[j])
  }

  /** No RUN_MIN token characters in a row. */
  ghost predicate NoRun(text: string) {
    forall i: nat :: !RunAt(text, i)
  }

  lemma NoRunConcat(a: string, b: string)
    requires NoRun(a) && NoRun(b)
    requires a == [] || b == [] || !TokenChar(a[|a| - 1]) || !TokenChar(b[0])
    ensures NoRun(a + b)
  {
    var all := a + b;
    forall i: nat | i + RUN_MIN <= |all|
      ensures !RunAt(all, i)
    {
      if i + RUN_MIN <= |a| {
        assert !RunAt(a, i);
        var j :| i <= j < i + RUN_MIN && !TokenChar(a[j]);
        assert all[j] == a[j];
      } else if i >= |a| {
        assert !RunAt(b, i - |a|);
        var j :| i - |a| <= j < i - |a| + RUN_MIN && !TokenChar(b[j]);
        assert all[|a| + j] == b[j];
      } else {
        assert all[|a| - 1] == a[|a| - 1] && all[|a|] == b[0];
      }
    }
  }

  lemma {:induction false} RunPassCleans(text: string)
    ensures NoRun(RunPass(text))
    ensures var r := RunPass(text);
            (text == [] ==> r == []) && (text != [] && !TokenChar(text[0]) ==> r != [] && !TokenChar(r[0]))
    decreases |text|
  {
    if text != [] {
      var n := Piece(text);
      var head := Replaced(text[..n]);
      RunPassCleans(text[n..]);
      assert NoRun(head);
      assert n < |text| && TokenChar(head[|head| - 1]) ==> !TokenChar(text[n]);
      NoRunConcat(head, RunPass(text[n..]));
    }
  }

  /** Where there is no run, the scanner's first piece is too short to be replaced. */
  lemma ShortPiece(text: string)
    requires NoRun(text) && text != []
    ensures Replaced(text[..Piece(text)]) == text[..Piece(text)]
  {
    assert !RunAt(text, 0);
  }

  lemma {:induction false} RunPassKeepsClean(text: string)
    requires NoRun(text)
    ensures RunPass(text) == text
    decreases |text|
  {
    if text != [] {
      hide RunPass, NoRun;
      NoRunSuffix(text, Piece(text));
      RunPassKeepsClean(text[Piece(text)..]);
      RunPassKeepsPiece(text);
    }
  }

  lemma RunPassKeepsPiece(text: string)
    requires NoRun(text) && text != [] && RunPass(text[Piece(text)..]) == text[Piece(text)..]
    ensures RunPass(text) == text
  {
    hide RunPass, Piece, NoRun, TokenChar, Replaced;
    RunPassStep(text);
    ShortPiece(text);
    assert text == text[..Piece(text)] + text[Piece(text)..];
  }

  lemma NoRunSuffix(text: string, k: nat)
    requires NoRun(text) && k <= |text|
    ensures NoRun(text[k..])
  {
    var tail := text[k..];
    forall i: nat | i + RUN_MIN <= |tail|
      ensures !RunAt(tail, i)
    {
      assert !RunAt(text, i + k);
      var j :| i + k <= j < i + k + RUN_MIN && !TokenChar(text[j]);
      assert tail[j - k] == text[j];
    }
  }

  lemma NoRunPrefix(text: string, p: string)
    requires NoRun(text) && p <= text
    ensures NoRun(p)
  {
    forall i: nat | i + RUN_MIN <= |p|
      ensures !RunAt(p, i)
    {
      assert !RunAt(text, i);
      var j :| i <= j < i + RUN_MIN && !TokenChar(text[j]);
      assert p[j] == text[j];
    }
  }

  /** The run scanner is idempotent, and changes a text exactly when it holds a run. */
  lemma RunPassIdempotent(text: string)
    ensures RunPass(RunPass(text)) == RunPass(text)
    ensures RunPass(text) == text <==> NoRun(text)
  {
    RunPassCleans(text);
    RunPassKeepsClean(RunPass(text));
    if NoRun(text) {
      RunPassKeepsClean(text);
    }
  }

  lemma {:induction false} RunLengthStops(a: string, b: string)
    requires a == [] || b == [] || !TokenChar(a[|a| - 1]) || !TokenChar(b[0])
    ensures a != [] ==> RunLength(a + b) == RunLength(a)
  {
    if a != [] && TokenChar(a[0]) {
      assert (a + b)[1..] == a[1..] + b;
      if |a| > 1 {
        RunLengthStops(a[1..], b);
      }
    }
  }

  lemma PieceStops(a: string, b: string)
    requires a != [] && (b == [] || !TokenChar(a[|a| - 1]) || !TokenChar(b[0]))
    ensures Piece(a + b) == Piece(a) && (a + b)[..Piece(a)] == a[..Piece(a)] && (a + b)[Piece(a)..] == a[Piece(a)..] + b
  {
    RunLengthStops(a, b);
  }

  lemma RunPassStep(text: string)
    requires text != []
    ensures RunPass(text) == Replaced(text[..Piece(text)]) + RunPass(text[Piece(text)..])
  {
  }

  /** The scanner works piece by piece: texts that no run joins are scanned apart. */
  lemma {:induction false} RunPassConcat(a: string, b: string)
    requires a == [] || b == [] || !TokenChar(a[|a| - 1]) || !TokenChar(b[0])
    ensures RunPass(a + b) == RunPass(a) + RunPass(b)
    decreases |a|
  {
    if a == [] {
      assert a + b == b;
    } else {
      hide RunPass, Piece, TokenChar, Replaced;
      RunPassStep(a);
      RunPassStep(a + b);
      PieceStops(a, b);
      var n := Piece(a);
      var rest := a[n..];
      assert rest != [] ==> rest[|rest| - 1] == a[|a| - 1];
      RunPassConcat(rest, b);
      Regroup(Replaced(a[..n]), RunPass(rest), RunPass(b));
    }
  }

  lemma Regroup(a: string, b: string, c: string)
    ensures a + (b + c) == a + b + c
  {
  }

  lemma {:induction false} RunLengthFull(run: string)
    requires forall i :: 0 <= i < |run| ==> TokenChar(run[i])
    ensures RunLength(run) == |run|
  {
    if run != [] {
      RunLengthFull(run[1..]);
    }
  }

  /** A run of 40 or more is replaced by the marker, whatever it is, and everything around it is scanned as if it
      stood alone: nothing else is lost. */
  lemma RunReplaced(a: string, run: string, b: string)
    requires |run| >= 40 && forall i :: 0 <= i < |run| ==> TokenChar(run[i])
    requires (a == [] || !TokenChar(a[|a| - 1])) && (b == [] || !TokenChar(b[0]))
    ensures RunPass(a + run + b) == RunPass(a) + REDACTED + RunPass(b)
  {
    hide RunPass;
    assert (a + run)[|a + run| - 1] == run[|run| - 1];
    RunPassConcat(a + run, b);
    RunPassConcat(a, run);
    WholeRun(run);
  }

  /** A shorter one is not. */
  lemma ShortRunStays(run: string)
    requires |run| < 40
    ensures RunPass(run) == run
  {
    assert NoRun(run);
    RunPassKeepsClean(run);
  }

  /** A token character is a letter, a digit or one of `+`, `/`, `=`, `_` and `-`, by its ASCII code. */
  lemma TokenCharsAre(c: char)
    ensures TokenChar(c) <==>
              var n := c as int;
              || n in {0x2B, 0x2D, 0x3D, 0x5F} || 0x2F <= n <= 0x39 || 0x41 <= n <= 0x5A || 0x61 <= n <= 0x7A
  {
  }

  lemma WholeRun(run: string)
    requires |run| >= RUN_MIN && forall i :: 0 <= i < |run| ==> TokenChar(run[i])
    ensures RunPass(run) == REDACTED
  {
    RunLengthFull(run);
    assert run[..|run|] == run && run[|run|..] == [];
    RunPassStep(run);
    assert RunPass([]) == [];
    hide RunPass, TokenChar;
  }

  function ByteCut(limit: nat): Pass {
    text => CutBytes(text, limit)
  }

  /** The hypotheses above hold of the run scanner and the byte cut. */
  lemma RunPassMeetsHypotheses(limit: nat)
    ensures Cleans(RunPass, NoRun) && PrefixClosed(NoRun) && PrefixCut(ByteCut(limit))
  {
    forall x
      ensures NoRun(RunPass(x)) && (NoRun(x) ==> RunPass(x) == x)
    {
      RunPassCleans(x);
      RunPassIdempotent(x);
    }
    forall x, p | p <= x && NoRun(x)
      ensures NoRun(p)
    {
      NoRunPrefix(x, p);
    }
    forall x
      ensures ByteCut(limit)(x) <= x && ByteCut(limit)(ByteCut(limit)(x)) == ByteCut(limit)(x)
    {
      CutBytesLongestPrefix(x, limit);
      CutBytesTwice(x, limit);
    }
  }

  /** Settling runs under a byte limit: one round does it, the result fits, holds no run, and stays put. */
  lemma SettledRuns(text: string, limit: nat)
    ensures var r := Settled(RunPass, ByteCut(limit), text);
            && r == CutBytes(RunPass(text), limit)
            && Size(r) <= limit && NoRun(r)
            && Settled(RunPass, ByteCut(limit), r) == r
  {
    RunPassMeetsHypotheses(limit);
    SettledInOneRound(RunPass, ByteCut(limit), NoRun, text);
    RunPassCleans(text);
    CutBytesLongestPrefix(RunPass(text), limit);
    var r := CutBytes(RunPass(text), limit);
    NoRunPrefix(RunPass(text), r);
    FixpointStays(RunPass, ByteCut(limit), r, ROUNDS);
  }
}
