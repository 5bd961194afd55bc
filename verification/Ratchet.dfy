/**
 The mypy ratchet: the baseline file's text and how it is read back, the comparison CI makes, and what a history
 of updates can and cannot do to the counts.
 */
module Ratchet {
  import opened Options
  import Text

  /** Errors per file. */
  type Counts = map<string, nat>

  /** Why mypy's output is not trusted, or a baseline not read. */
  datatype Fault = Crashed | NoSummary | Incomplete | BadLine

  function Get(counts: Counts, file: string): nat {
    if file in counts then counts[file] else 0
  }

  function Positive(counts: Counts): Counts {
    map f | f in counts && counts[f] > 0 :: counts[f]
  }

  // ----- Counting mypy's error lines -----

  /** The two line patterns: the (normalised) path an error line names, and the number of a summary line. */
  datatype Patterns = Patterns(errorPath: string -> Option<string>, summary: string -> Option<nat>)

  function Matching(p: Patterns, lines: seq<string>, file: string): nat {
    if lines == [] then 0
    else
      var last := lines[|lines| - 1];
      Matching(p, lines[..|lines| - 1], file) + if p.errorPath(last) == Some(file) then 1 else 0
  }

  function ErrorLines(p: Patterns, lines: seq<string>): nat {
    if lines == [] then 0
    else
      var last := lines[|lines| - 1];
      ErrorLines(p, lines[..|lines| - 1]) + if p.errorPath(last).Some? then 1 else 0
  }

  function LastSummary(p: Patterns, lines: seq<string>): Option<nat> {
    if lines == [] then None
    else
      var last := lines[|lines| - 1];
      if p.summary(last).Some? then p.summary(last) else LastSummary(p, lines[..|lines| - 1])
  }

  /** The last line that is a summary counts, wherever it stands. */
  lemma {:induction false} LastSummaryIs(p: Patterns, lines: seq<string>)
    ensures LastSummary(p, lines).None? <==> NoneIn(p, lines)
    ensures LastSummary(p, lines).Some? ==>
              exists i: nat :: i < |lines| && p.summary(lines[i]) == LastSummary(p, lines) && NoneIn(p, lines[i + 1..])
  {
    if lines != [] {
      var n := |lines| - 1;
      assert lines == lines[..n] + [lines[n]] && lines[n + 1..] == [];
      if p.summary(lines[n]).None? {
        var init := lines[..n];
        LastSummaryIs(p, init);
        hide LastSummary;
        if !NoneIn(p, init) {
          var i: nat :| i < |init| && p.summary(init[i]) == LastSummary(p, init) && NoneIn(p, init[i + 1..]);
          assert lines[i] == init[i] && lines[i + 1..] == init[i + 1..] + [lines[n]];
        }
      }
    }
  }

  predicate NoneIn(p: Patterns, lines: seq<string>) {
    forall i :: 0 <= i < |lines| ==> p.summary(lines[i]).None?
  }

  /** `sum(counts.values())`, the values in the order the keys were first seen. */
  function SumOf(counts: Counts, keys: seq<string>): nat {
    if keys == [] then 0 else SumOf(counts, keys[..|keys| - 1]) + Get(counts, keys[|keys| - 1])
  }

  lemma {:induction false} SumUntouched(counts: Counts, keys: seq<string>, file: string, n: nat)
    requires file !in keys
    ensures SumOf(counts[file := n], keys) == SumOf(counts, keys)
  {
    if keys != [] {
      SumUntouched(counts, keys[..|keys| - 1], file, n);
    }
  }

  /** One more error in a known file is one more in the sum. */
  lemma {:induction false} SumGrows(counts: Counts, keys: seq<string>, file: string)
    requires file in keys && forall i, j :: 0 <= i < j < |keys| ==> keys[i] != keys[j]
    ensures SumOf(counts[file := Get(counts, file) + 1], keys) == SumOf(counts, keys) + 1
  {
    var n := |keys| - 1;
    if keys[n] == file {
      SumUntouched(counts, keys[..n], file, Get(counts, file) + 1);
    } else {
      SumGrows(counts, keys[..n], file);
    }
  }

  ghost predicate Counted(p: Patterns, lines: seq<string>, counts: Counts, keys: seq<string>) {
    && Lists(keys, counts.Keys)
    && (forall f :: Get(counts, f) == Matching(p, lines, f))
    && (forall f :: f in counts ==> counts[f] > 0)
    && SumOf(counts, keys) == ErrorLines(p, lines)
  }

  /** The counter and its keys after one more error in `file`. */
  function CountedOnce(counts: Counts, file: string): Counts {
    counts[file := Get(counts, file) + 1]
  }

  function Seen(counts: Counts, keys: seq<string>, file: string): seq<string> {
    if file in counts then keys else keys + [file]
  }

  lemma SumOfOneMore(counts: Counts, keys: seq<string>, file: string)
    requires Lists(keys, counts.Keys)
    ensures SumOf(CountedOnce(counts, file), Seen(counts, keys, file)) == SumOf(counts, keys) + 1
  {
    if file in counts {
      SumGrows(counts, keys, file);
    } else {
      SumUntouched(counts, keys, file, 1);
      assert (keys + [file])[..|keys|] == keys;
    }
  }

  lemma ListsOneMore(counts: Counts, keys: seq<string>, file: string)
    requires Lists(keys, counts.Keys)
    ensures Lists(Seen(counts, keys, file), CountedOnce(counts, file).Keys)
  {
  }

  lemma MatchingSnoc(p: Patterns, lines: seq<string>, line: string)
    ensures forall f :: Matching(p, lines + [line], f)
              == Matching(p, lines, f) + if p.errorPath(line) == Some(f) then 1 else 0
    ensures ErrorLines(p, lines + [line]) == ErrorLines(p, lines) + if p.errorPath(line).Some? then 1 else 0
  {
    assert (lines + [line])[..|lines|] == lines;
  }

  lemma CountOne(p: Patterns, lines: seq<string>, line: string, counts: Counts, keys: seq<string>)
    requires Counted(p, lines, counts, keys)
    ensures match p.errorPath(line)
            case None => Counted(p, lines + [line], counts, keys)
            case Some(f) => Counted(p, lines + [line], CountedOnce(counts, f), Seen(counts, keys, f))
  {
    hide Matching, ErrorLines, SumOf, Lists;
    MatchingSnoc(p, lines, line);
    if p.errorPath(line).Some? {
      SumOfOneMore(counts, keys, p.errorPath(line).value);
      ListsOneMore(counts, keys, p.errorPath(line).value);
      hide Seen;
    }
  }

  /** The counter over all readable error lines, and its keys in the order they were first seen. */
  method CountErrors(p: Patterns, lines: seq<string>) returns (counts: Counts, keys: seq<string>)
    ensures Counted(p, lines, counts, keys)
  {
    hide Matching, ErrorLines, SumOf, Lists;
    NothingCounted(p);
    counts, keys := map[], [];
    var i := 0;
    assert lines[..0] == [];
    while i < |lines|
      invariant 0 <= i <= |lines|
      invariant Counted(p, lines[..i], counts, keys)
    {
      CountOne(p, lines[..i], lines[i], counts, keys);
      assert lines[..i] + [lines[i]] == lines[..i + 1];
      var path := p.errorPath(lines[i]);
      if path.Some? {
        keys := Seen(counts, keys, path.value);
        counts := CountedOnce(counts, path.value);
      }
      i := i + 1;
    }
    assert lines[..i] == lines;
  }

  lemma NothingCounted(p: Patterns)
    ensures Counted(p, [], map[], [])
  {
  }

  /** Fails closed: counts come back only from a run that did not crash, printed a summary, and whose readable
      error lines are as many as the summary says; and then they are exact, file by file. */
  method ParseMypyOutput(p: Patterns, lines: seq<string>, exitCode: Option<int>) returns (r: Result<Counts, Fault>)
    ensures r.Ok? <==> && (exitCode.Some? ==> exitCode.value in {0, 1})
                       && LastSummary(p, lines) == Some(ErrorLines(p, lines))
    ensures r.Err? ==>
              r.error == if exitCode.Some? && exitCode.value !in {0, 1} then Crashed
                         else if LastSummary(p, lines).None? then NoSummary else Incomplete
    ensures r.Ok? ==> forall f :: Get(r.value, f) == Matching(p, lines, f)
    ensures r.Ok? ==> forall f :: f in r.value ==> r.value[f] > 0
  {
    if exitCode.Some? && exitCode.value !in {0, 1} {
      return Err(Crashed);
    }
    var reported := LastSummary(p, lines);
    if reported.None? {
      return Err(NoSummary);
    }
    var counts, keys := CountErrors(p, lines);
    var parsed := SumOf(counts, keys);
    if parsed != reported.value {
      return Err(Incomplete);
    }
    r := Ok(counts);
  }

  /** A run read as clean had no error line at all, and its own summary says none. */
  lemma {:induction false} CleanMeansClean(p: Patterns, lines: seq<string>)
    requires forall f :: Matching(p, lines, f) == 0
    ensures ErrorLines(p, lines) == 0 && forall line :: line in lines ==> p.errorPath(line).None?
  {
    if lines != [] {
      var init, last := lines[..|lines| - 1], lines[|lines| - 1];
      forall f ensures Matching(p, init, f) == 0 {
        assert Matching(p, lines, f) == 0;
      }
      CleanMeansClean(p, init);
      assert p.errorPath(last).Some? ==> Matching(p, lines, p.errorPath(last).value) >= 1;
      assert lines == init + [last];
    }
  }

  // ----- The text of the baseline -----

  const ORIGIN: string :=
    "# mypy error ratchet " + "(re-audit M24). " + "Generated by scripts/" + "mypy_ratchet.py --update."

  const FORMAT: string := "# <count> <path>. " + "Counts may only go " + "DOWN; see the script " + "docstring."

  const HEADER: seq<string> := [ORIGIN, FORMAT]

  function Unlines(lines: seq<string>): string {
    if lines == [] then "" else lines[0] + "\n" + Unlines(lines[1..])
  }

  function Entry(count: nat, file: string): string {
    Text.Decimal(count) + " " + file
  }

  function Entries(counts: Counts, order: seq<string>): seq<string>
    requires forall f :: f in order ==> f in counts
  {
    if order == [] then []
    else
      (if counts[order[0]] > 0 then [Entry(counts[order[0]], order[0])] else []) + Entries(counts, order[1..])
  }

  /** The files of `counts` in the order they are written. */
  function Render(counts: Counts, order: seq<string>): string
    requires forall f :: f in order ==> f in counts
  {
    Unlines(HEADER + Entries(counts, order))
  }

  /** The line boundaries of `str.splitlines`. A carriage return and line feed count as two here, the blank line
      between them being skipped anyway. */
  predicate IsBreak(c: char) {
    var n := c as int;
    0x0A <= n <= 0x0D || 0x1C <= n <= 0x1E || n == 0x85 || n == 0x2028 || n == 0x2029
  }

  /** A break between two texts of one line each gives those lines, and nothing else does. */
  lemma {:induction false} LinesBetween(a: string, c: char, b: string)
    requires OneLine(a)
    ensures Lines(a) == [a]
    ensures (c as int) in {0x0A, 0x0B, 0x0C, 0x0D, 0x1C, 0x1D, 0x1E, 0x85, 0x2028, 0x2029} ==>
              Lines(a + [c] + b) == [a] + Lines(b)
  {
    if a == "" {
      assert (a + [c] + b)[1..] == b;
    } else {
      LinesBetween(a[1..], c, b);
      assert a == [a[0]] + a[1..];
      assert (a + [c] + b)[1..] == a[1..] + [c] + b && (a + [c] + b)[0] == a[0];
    }
  }

  function Lines(text: string): (lines: seq<string>)
    ensures lines != []
  {
    if text == "" then [""]
    else
      var rest := Lines(text[1..]);
      if IsBreak(text[0]) then [""] + rest else [[text[0]] + rest[0]] + rest[1..]
  }

  /** The first field of a stripped line, up to the first white space. */
  function Field(line: string): string {
    if line == "" || Text.IsSpace(line[0]) then "" else [line[0]] + Field(line[1..])
  }

  function LoadLine(baseline: Counts, raw: string): Result<Counts, Fault> {
    var line := Text.Strip(raw);
    if line == "" || line[0] == '#' then Ok(baseline)
    else
      FieldFits(line);
      var count := Field(line);
      var file := Text.TrimLeft(line[|count|..], Text.IsSpace);
      if file == "" || !Text.AllDigits(count) then Err(BadLine) else Ok(baseline[file := Text.ParseDecimal(count)])
  }

  function LoadLines(baseline: Counts, lines: seq<string>): Result<Counts, Fault>
    decreases |lines|
  {
    if lines == [] then Ok(baseline)
    else
      match LoadLine(baseline, lines[0])
      case Err(e) => Err(e)
      case Ok(next) => LoadLines(next, lines[1..])
  }

  lemma {:induction false} FieldFits(line: string)
    ensures |Field(line)| <= |line| && Field(line) == line[..|Field(line)|]
    ensures |Field(line)| < |line| ==> Text.IsSpace(line[|Field(line)|])
  {
    if line != "" && !Text.IsSpace(line[0]) {
      FieldFits(line[1..]);
    }
  }

  /** A missing file is an empty baseline. */
  function Loaded(file: Option<string>): Result<Counts, Fault> {
    match file
    case None => Ok(map[])
    case Some(text) => LoadLines(map[], Lines(text))
  }

  method LoadBaseline(file: Option<string>) returns (r: Result<Counts, Fault>)
    ensures r == Loaded(file)
  {
    if file.None? {
      return Ok(map[]);
    }
    var lines := Lines(file.value);
    var baseline: Counts := map[];
    var i := 0;
    while i < |lines|
      invariant 0 <= i <= |lines|
      invariant LoadLines(baseline, lines[i..]) == LoadLines(map[], lines)
    {
      assert lines[i..][1..] == lines[i + 1..];
      var next := LoadLine(baseline, lines[i]);
      if next.Err? {
        return next;
      }
      baseline := next.value;
      i := i + 1;
    }
    r := Ok(baseline);
  }

  // ----- Reading back what was written -----

  predicate OneLine(s: string) {
    forall i :: 0 <= i < |s| ==> !IsBreak(s[i])
  }

  /** A path that can stand on a line of its own: not blank, nothing to strip, no line boundary. */
  predicate Writable(file: string) {
    file != "" && !Text.IsSpace(file[0]) && !Text.IsSpace(file[|file| - 1]) && OneLine(file)
  }

  lemma {:induction false} LinesCons(a: string, b: string)
    requires OneLine(a)
    ensures Lines(a + "\n" + b) == [a] + Lines(b)
  {
    if a == "" {
      assert a + "\n" + b == "\n" + b && ("\n" + b)[1..] == b;
    } else {
      LinesCons(a[1..], b);
      assert (a + "\n" + b)[1..] == a[1..] + "\n" + b;
      assert [a[0]] + a[1..] == a;
    }
  }

  lemma {:induction false} LinesOfUnlines(lines: seq<string>)
    requires forall line :: line in lines ==> OneLine(line)
    ensures Lines(Unlines(lines)) == lines + [""]
  {
    if lines != [] {
      assert lines[0] in lines && forall line :: line in lines[1..] ==> line in lines;
      LinesCons(lines[0], Unlines(lines[1..]));
      LinesOfUnlines(lines[1..]);
      hide Lines, OneLine;
    }
  }

  lemma {:induction false} FieldOf(digits: string, rest: string)
    requires Text.AllDigits(digits) && (rest == "" || Text.IsSpace(rest[0]))
    ensures Field(digits + rest) == digits
  {
    if digits == "" {
      assert digits + rest == rest;
    } else {
      FieldOf(digits[1..], rest);
      assert (digits + rest)[1..] == digits[1..] + rest;
    }
  }

  lemma DigitsAreInk(digits: string)
    requires Text.AllDigits(digits)
    ensures forall i :: 0 <= i < |digits| ==> !Text.IsSpace(digits[i]) && !IsBreak(digits[i]) && digits[i] != '#'
  {
  }

  lemma StripNothing(s: string)
    requires s != "" && !Text.IsSpace(s[0]) && !Text.IsSpace(s[|s| - 1])
    ensures Text.Strip(s) == s
  {
  }

  lemma EntryShape(count: nat, file: string)
    requires Writable(file)
    ensures var line := Entry(count, file);
            && OneLine(line) && line != "" && line[0] != '#' && Text.Strip(line) == line
            && Field(line) == Text.Decimal(count) && line[|Field(line)|..] == " " + file
  {
    var digits := Text.Decimal(count);
    Text.DecimalRoundTrip(count);
    DigitsAreInk(digits);
    assert digits + " " + file == digits + (" " + file);
    FieldOf(digits, " " + file);
    hide Text.Decimal, Text.AllDigits;
    var line := Entry(count, file);
    assert line[0] == digits[0] && line[|line| - 1] == file[|file| - 1];
    StripNothing(line);
  }

  /** A line of a count and a path, whatever white space stands around and between them, is that entry; a comment
      and a blank line are nothing. */
  lemma LineRead(baseline: Counts, before: string, digits: string, gap: string, file: string, after: string)
    requires Text.Blank(before) && Text.Blank(gap) && gap != "" && Text.Blank(after)
    requires digits != "" && Text.AllDigits(digits)
    requires file != "" && !Text.IsSpace(file[0]) && !Text.IsSpace(file[|file| - 1])
    ensures LoadLine(baseline, before + (digits + gap + file) + after)
         == Ok(baseline[file := Text.ParseDecimal(digits)])
  {
    hide Text.IsSpace, Text.AllDigits, Text.ParseDecimal, Text.Strip, Field, Text.TrimLeft;
    var line := digits + gap + file;
    DigitsAreInk(digits);
    assert line[0] == digits[0] && line[|line| - 1] == file[|file| - 1];
    StripAround(before, line, after);
    assert line == digits + (gap + file) && (gap + file)[0] == gap[0];
    FieldOf(digits, gap + file);
    assert line[|digits|..] == gap + file;
    Text.TrimLeftDrops(gap, file, Text.IsSpace);
    NothingToTrim(file);
    FieldFits(line);
  }

  lemma NothingToTrim(s: string)
    requires s != "" && !Text.IsSpace(s[0])
    ensures Text.TrimLeft(s, Text.IsSpace) == s
  {
  }

  lemma StripAround(before: string, line: string, after: string)
    requires Text.Blank(before) && Text.Blank(after)
    requires line != "" && !Text.IsSpace(line[0]) && !Text.IsSpace(line[|line| - 1])
    ensures Text.Strip(before + line + after) == line
  {
    hide Text.IsSpace, Text.TrimLeft, Text.TrimRight;
    assert before + line + after == before + (line + after);
    Text.TrimLeftDrops(before, line + after, Text.IsSpace);
    assert (line + after)[0] == line[0];
    NothingToTrim(line + after);
    Text.TrimRightDrops(line, after, Text.IsSpace);
    StripNothing(line);
    NothingToTrim(line);
  }

  lemma LineIgnored(baseline: Counts, raw: string)
    requires Text.Strip(raw) == "" || "#" <= Text.Strip(raw)
    ensures LoadLine(baseline, raw) == Ok(baseline)
  {
    hide Text.Strip;
  }

  /** Any other line is malformed: without a second field, or with a first one that is no number. */
  lemma LineRefusedIff(baseline: Counts, raw: string)
    ensures var line := Text.Strip(raw);
            LoadLine(baseline, raw) == Err(BadLine)
            <==> && line != "" && line[0] != '#'
                 && ((forall i :: 0 <= i < |line| ==> !Text.IsSpace(line[i])) || !Text.AllDigits(Field(line)))
    ensures LoadLine(baseline, raw).Err? ==> LoadLine(baseline, raw) == Err(BadLine)
  {
    hide Text.Strip, Text.AllDigits, Text.TrimLeft, Field, Text.IsSpace;
    var line := Text.Strip(raw);
    FieldFits(line);
    StripEnds(raw);
    SecondField(line);
  }

  /** Of a line stripped at its end there is something behind the first field exactly when it has white space. */
  lemma SecondField(line: string)
    requires line != "" ==> !Text.IsSpace(line[|line| - 1])
    ensures |Field(line)| <= |line|
    ensures Text.TrimLeft(line[|Field(line)|..], Text.IsSpace) == ""
            <==> forall i :: 0 <= i < |line| ==> !Text.IsSpace(line[i])
  {
    hide Text.TrimLeft, Field, Text.IsSpace;
    FieldFits(line);
    FieldIsInk(line);
    var rest := line[|Field(line)|..];
    Text.TrimLeftKeeps(rest, Text.IsSpace);
    if rest == "" {
      assert Field(line) == line;
    } else {
      assert rest[|rest| - 1] == line[|line| - 1];
    }
  }

  lemma {:induction false} FieldIsInk(line: string)
    ensures forall i :: 0 <= i < |Field(line)| ==> !Text.IsSpace(Field(line)[i])
  {
    hide Text.IsSpace;
    if line != "" && !Text.IsSpace(line[0]) {
      FieldIsInk(line[1..]);
    }
  }

  lemma StripEnds(raw: string)
    ensures Text.Strip(raw) != "" ==> !Text.IsSpace(Text.Strip(raw)[|Text.Strip(raw)| - 1])
  {
    Text.TrimRightKeeps(Text.TrimLeft(raw, Text.IsSpace), Text.IsSpace);
    hide Text.IsSpace, Text.TrimLeft, Text.TrimRight;
  }

  lemma LoadEntry(baseline: Counts, count: nat, file: string)
    requires Writable(file)
    ensures LoadLine(baseline, Entry(count, file)) == Ok(baseline[file := count])
  {
    EntryShape(count, file);
    Text.DecimalRoundTrip(count);
    assert (" " + file)[1..] == file;
    assert Text.TrimLeft(" " + file, Text.IsSpace) == file;
    hide Entry, Field, Text.Strip, Text.Decimal, Text.AllDigits, Text.ParseDecimal;
  }

  lemma {:induction false} LoadAppend(baseline: Counts, a: seq<string>, b: seq<string>)
    ensures LoadLines(baseline, a + b)
            == match LoadLines(baseline, a) case Err(e) => Err(e) case Ok(next) => LoadLines(next, b)
    decreases |a|
  {
    if a == [] {
      assert a + b == b;
    } else {
      assert (a + b)[1..] == a[1..] + b;
      var next := LoadLine(baseline, a[0]);
      if next.Ok? {
        LoadAppend(next.value, a[1..], b);
      }
      hide LoadLine;
    }
  }

  /** The counts above zero of the files in `order`, put over `baseline`. */
  function Over(baseline: Counts, counts: Counts, order: seq<string>): Counts
    requires forall f :: f in order ==> f in counts
  {
    baseline + map f | f in order && counts[f] > 0 :: counts[f]
  }

  lemma OverStep(baseline: Counts, counts: Counts, file: string, rest: seq<string>)
    requires forall f :: f in [file] + rest ==> f in counts
    ensures file in counts && forall f :: f in rest ==> f in counts
    ensures Over(if counts[file] > 0 then baseline[file := counts[file]] else baseline, counts, rest)
            == Over(baseline, counts, [file] + rest)
  {
    assert file in [file] + rest && forall f :: f in rest ==> f in [file] + rest;
  }

  lemma {:induction false} LoadEntries(baseline: Counts, counts: Counts, order: seq<string>)
    requires forall f :: f in order ==> f in counts && Writable(f)
    ensures LoadLines(baseline, Entries(counts, order)) == Ok(Over(baseline, counts, order))
    decreases |order|
  {
    hide LoadLine, Writable, Entry, Over;
    if order == [] {
      assert Over(baseline, counts, order) == baseline by {
        OverNothing(baseline, counts);
      }
    } else {
      var file, rest := order[0], order[1..];
      assert order == [file] + rest;
      OverStep(baseline, counts, file, rest);
      assert file in order && forall f :: f in rest ==> f in order;
      var next := if counts[file] > 0 then baseline[file := counts[file]] else baseline;
      LoadEntries(next, counts, rest);
      if counts[file] > 0 {
        LoadEntry(baseline, counts[file], file);
        var line := Entry(counts[file], file);
        assert ([line] + Entries(counts, rest))[1..] == Entries(counts, rest);
      } else {
        assert [] + Entries(counts, rest) == Entries(counts, rest);
      }
    }
  }

  lemma OverNothing(baseline: Counts, counts: Counts)
    ensures Over(baseline, counts, []) == baseline
  {
  }

  lemma {:induction false} EntriesOneLine(counts: Counts, order: seq<string>)
    requires forall f :: f in order ==> f in counts && Writable(f)
    ensures forall line :: line in Entries(counts, order) ==> OneLine(line)
  {
    if order != [] {
      assert order[0] in order && forall f :: f in order[1..] ==> f in order;
      EntriesOneLine(counts, order[1..]);
      EntryShape(counts[order[0]], order[0]);
      hide Entry, OneLine, Writable;
    }
  }

  lemma CommentSkipped(baseline: Counts, line: string)
    requires line != "" && line[0] == '#' && !Text.IsSpace(line[|line| - 1])
    ensures LoadLine(baseline, line) == Ok(baseline)
  {
    StripNothing(line);
    hide Text.Strip;
  }

  lemma OneLineConcat(a: string, b: string)
    requires OneLine(a) && OneLine(b)
    ensures OneLine(a + b)
  {
  }

  lemma OriginOneLine()
    ensures OneLine(ORIGIN) && ORIGIN != "" && ORIGIN[0] == '#' && ORIGIN[|ORIGIN| - 1] == '.'
  {
    var a, b, c, d := "# mypy error ratchet ", "(re-audit M24). ", "Generated by scripts/", "mypy_ratchet.py --update.";
    assert OneLine(a) && OneLine(b);
    assert OneLine(c) && OneLine(d);
    hide OneLine;
    OneLineConcat(a, b);
    OneLineConcat(a + b, c);
    OneLineConcat(a + b + c, d);
  }

  lemma FormatOneLine()
    ensures OneLine(FORMAT) && FORMAT != "" && FORMAT[0] == '#' && FORMAT[|FORMAT| - 1] == '.'
  {
    var a, b, c, d := "# <count> <path>. ", "Counts may only go ", "DOWN; see the script ", "docstring.";
    assert OneLine(a) && OneLine(b);
    assert OneLine(c) && OneLine(d);
    hide OneLine;
    OneLineConcat(a, b);
    OneLineConcat(a + b, c);
    OneLineConcat(a + b + c, d);
  }

  lemma HeaderSkipped()
    ensures LoadLines(map[], HEADER) == Ok(map[])
    ensures forall line :: line in HEADER ==> OneLine(line)
  {
    OriginOneLine();
    FormatOneLine();
    hide LoadLine, OneLine, ORIGIN, FORMAT;
    CommentSkipped(map[], ORIGIN);
    CommentSkipped(map[], FORMAT);
    assert HEADER[0] == ORIGIN && HEADER[1..] == [FORMAT] && [FORMAT][1..] == [];
    assert LoadLines(map[], []) == Ok(map[]);
    assert LoadLines(map[], [FORMAT]) == Ok(map[]);
  }

  /** Lists every file of the counts once. */
  ghost predicate Lists(order: seq<string>, files: set<string>) {
    && (forall f :: f in order <==> f in files)
    && forall i, j :: 0 <= i < j < |order| ==> order[i] != order[j]
  }

  lemma BlankSkipped(baseline: Counts)
    ensures LoadLines(baseline, [""]) == Ok(baseline)
  {
    assert LoadLine(baseline, "") == Ok(baseline);
    assert [""][1..] == [];
  }

  lemma AllOver(counts: Counts, order: seq<string>)
    requires Lists(order, counts.Keys)
    ensures Over(map[], counts, order) == Positive(counts)
  {
  }

  /** What is written reads back as the counts above zero, in whatever order the files are written. */
  lemma RenderThenLoad(counts: Counts, order: seq<string>)
    requires Lists(order, counts.Keys) && forall f :: f in counts ==> Writable(f)
    ensures Loaded(Some(Render(counts, order))) == Ok(Positive(counts))
  {
    hide LoadLine, LoadLines, Lines, Unlines, HEADER, Entries, OneLine, Writable, Over, Positive;
    var entries := Entries(counts, order);
    HeaderSkipped();
    EntriesOneLine(counts, order);
    LinesOfUnlines(HEADER + entries);
    LoadEntries(map[], counts, order);
    assert HEADER + entries + [""] == HEADER + (entries + [""]);
    LoadAppend(map[], HEADER, entries + [""]);
    LoadAppend(map[], entries, [""]);
    var all := Over(map[], counts, order);
    BlankSkipped(all);
    assert all == Positive(counts) by {
      AllOver(counts, order);
    }
  }

  // ----- Comparing -----

  predicate Raises(current: Counts, baseline: Counts, file: string) {
    Get(current, file) > Get(baseline, file)
  }

  predicate Lowers(current: Counts, baseline: Counts, file: string) {
    Get(current, file) < Get(baseline, file)
  }

  /** No file has more errors than before. */
  ghost predicate NotAbove(current: Counts, baseline: Counts) {
    forall f :: Get(current, f) <= Get(baseline, f)
  }

  ghost predicate Agree(current: Counts, baseline: Counts) {
    forall f :: Get(current, f) == Get(baseline, f)
  }

  method Compare(current: Counts, baseline: Counts, files: seq<string>)
    returns (regressions: seq<string>, improvements: seq<string>)
    requires Lists(files, current.Keys + baseline.Keys)
    ensures forall f :: f in regressions <==> Raises(current, baseline, f)
    ensures forall f :: f in improvements <==> Lowers(current, baseline, f)
    ensures |regressions| + |improvements| <= |files|
  {
    regressions, improvements := [], [];
    var i := 0;
    while i < |files|
      invariant 0 <= i <= |files|
      invariant forall f :: f in regressions <==> f in files[..i] && Raises(current, baseline, f)
      invariant forall f :: f in improvements <==> f in files[..i] && Lowers(current, baseline, f)
      invariant |regressions| + |improvements| <= i
    {
      assert files[..i + 1] == files[..i] + [files[i]];
      var now, allowed := Get(current, files[i]), Get(baseline, files[i]);
      if now > allowed {
        regressions := regressions + [files[i]];
      } else if now < allowed {
        improvements := improvements + [files[i]];
      }
      i := i + 1;
    }
    assert files[..i] == files;
    assert forall f :: f !in files ==> Get(current, f) == Get(baseline, f) == 0;
  }

  /** The exit code of a comparison: CI passes `checkStale`. */
  method Check(current: Counts, baseline: Counts, files: seq<string>, checkStale: bool) returns (exit: int)
    requires Lists(files, current.Keys + baseline.Keys)
    ensures exit == 0 || exit == 1
    ensures exit == 0 <==> if checkStale then Agree(current, baseline) else NotAbove(current, baseline)
  {
    var regressions, improvements := Compare(current, baseline, files);
    assert forall f :: !Raises(current, baseline, f) && !Lowers(current, baseline, f) ==>
                         Get(current, f) == Get(baseline, f);
    if regressions != [] {
      assert Raises(current, baseline, regressions[0]);
      return 1;
    }
    if improvements != [] && checkStale {
      assert Lowers(current, baseline, improvements[0]);
      return 1;
    }
    exit := 0;
  }

  // ----- Updating -----

  /** The baseline after an update asked for with these counts. */
  function Updated(baseline: Counts, current: Counts, allowIncrease: bool): Counts {
    if (exists f :: f in current && Raises(current, baseline, f)) && !allowIncrease && baseline != map[] then baseline
    else Positive(current)
  }

  class BaselineFile {
    var text: Option<string>

    constructor (text: Option<string>)
      ensures this.text == text
    {
      this.text := text;
    }

    method Update(current: Counts, baseline: Counts, order: seq<string>, allowIncrease: bool)
      returns (raised: seq<string>)
      requires Lists(order, current.Keys) && forall f :: f in current ==> Writable(f)
      requires Loaded(text) == Ok(baseline)
      modifies this
      ensures Loaded(text) == Ok(Updated(baseline, current, allowIncrease))
      ensures raised != [] ==> text == old(text) && !allowIncrease && baseline != map[]
      ensures raised != [] ==> forall f :: f in raised <==> f in current && Raises(current, baseline, f)
      ensures raised == [] ==> text == Some(Render(current, order))
    {
      hide Loaded, Render, Writable;
      raised := [];
      var i := 0;
      while i < |order|
        invariant 0 <= i <= |order|
        invariant forall f :: f in raised <==> f in order[..i] && Raises(current, baseline, f)
      {
        assert order[..i + 1] == order[..i] + [order[i]];
        if current[order[i]] > Get(baseline, order[i]) {
          raised := raised + [order[i]];
        }
        i := i + 1;
      }
      assert order[..i] == order;
      if raised != [] && !allowIncrease && baseline != map[] {
        assert raised[0] in current && Raises(current, baseline, raised[0]);
        return;
      }
      RenderThenLoad(current, order);
      text := Some(Render(current, order));
      assert raised == [] || allowIncrease || baseline == map[];
      raised := [];
    }
  }

  // ----- Histories -----

  lemma PositiveGet(counts: Counts, f: string)
    ensures Get(Positive(counts), f) == Get(counts, f)
  {
  }

  /** An update without `allowIncrease` raises some count exactly when there was no baseline entry at all and there
      is an error now: the one exemption. */
  lemma UpdateRaisesIff(baseline: Counts, current: Counts)
    ensures !NotAbove(Updated(baseline, current, false), baseline)
            <==> baseline == map[] && Positive(current) != map[]
  {
    var after := Updated(baseline, current, false);
    if baseline == map[] && Positive(current) != map[] {
      var f :| f in Positive(current);
      assert Get(after, f) > Get(baseline, f);
    } else if baseline == map[] {
      assert after == map[];
    } else {
      forall f ensures Get(after, f) <= Get(baseline, f) {
        PositiveGet(current, f);
        assert f in current && Raises(current, baseline, f) ==> after == baseline;
      }
    }
  }

  /** The baseline after a history of update requests, none of them with `allowIncrease`. */
  function After(baseline: Counts, history: seq<Counts>): Counts {
    if history == [] then baseline
    else Updated(After(baseline, history[..|history| - 1]), history[|history| - 1], false)
  }

  /** No baseline of the history was empty before its last update. */
  ghost predicate NeverEmpty(baseline: Counts, history: seq<Counts>) {
    forall k :: 0 <= k < |history| ==> After(baseline, history[..k]) != map[]
  }

  /** Until the baseline first becomes empty, its counts only go down, file by file, however many updates are
      tried with whatever counts. */
  lemma {:induction false} RatchetHolds(baseline: Counts, history: seq<Counts>)
    requires NeverEmpty(baseline, history)
    ensures NotAbove(After(baseline, history), baseline)
    decreases |history|
  {
    if history != [] {
      var n := |history| - 1;
      var before := After(baseline, history[..n]);
      forall k | 0 <= k < n ensures After(baseline, history[..n][..k]) != map[] {
        assert history[..n][..k] == history[..k];
      }
      RatchetHolds(baseline, history[..n]);
      UpdateRaisesIff(before, history[n]);
      forall f ensures Get(After(baseline, history), f) <= Get(baseline, f) {
        assert Get(After(baseline, history), f) <= Get(before, f);
      }
    }
    hide Updated;
  }

  /** And once it is empty the next update may write anything: one error fixed, then five allowed. */
  lemma EmptyBaselineForgets()
    ensures var one: Counts, five: Counts := map["a" := 1], map["a" := 5];
            && After(one, [map[], five]) == five
            && !NotAbove(After(one, [map[], five]), one)
  {
    var one: Counts, none: Counts, five: Counts := map["a" := 1], map[], map["a" := 5];
    var history := [none, five];
    assert history[..1] == [none] && [none][..0] == [];
    assert After(one, []) == one;
    assert Updated(one, map[], false) == map[];
    assert After(one, history[..1]) == map[];
    assert Updated(map[], five, false) == Positive(five) == five;
    assert Get(five, "a") > Get(one, "a");
  }

  /** Where CI checks for slack at every commit, the errors themselves only go down: if both commits pass and the
      later baseline was reached by updates from the earlier one, never through an empty one, no file has more
      errors at the later commit. */
  lemma PassingCommitsImprove(earlier: Counts, later: Counts, baseline: Counts, history: seq<Counts>)
    requires Agree(earlier, baseline) && Agree(later, After(baseline, history)) && NeverEmpty(baseline, history)
    ensures NotAbove(later, earlier)
  {
    RatchetHolds(baseline, history);
    forall f ensures Get(later, f) <= Get(earlier, f) {
      assert Get(later, f) == Get(After(baseline, history), f);
    }
    hide After;
  }
}
