/**
 `git log` as the collector asks for it, prints it and reads it back: a record separator (U+001E) before every
 commit, unit separators (U+001F) between its fields, one line per changed file.
 */
module GitLog {
  import opened Options
  import opened Text

  const SHA_CAP: nat := 64
  const AUTHOR_CAP: nat := 255
  const MESSAGE_CAP: nat := 2000
  const COMMITTED_AT_CAP: nat := 40
  const FILES_PER_COMMIT_CAP: nat := 500
  const FILE_PATH_CAP: nat := 512

  const RS: char := '\U{1E}'
  const US: char := '\U{1F}'

  /** A commit as git knows it. */
  datatype LogEntry = LogEntry(sha: string, author: string, date: string, subject: string, files: seq<string>)

  /** A commit as it is sent. */
  datatype Commit = Commit(
    sha: string, author: Option<string>, message: string, files: seq<string>, committedAt: Option<string>)

  // ----- What git prints -----

  function Header(e: LogEntry): string {
    e.sha + [US] + e.author + [US] + e.date + [US] + e.subject
  }

  function FileLines(files: seq<string>): string {
    if files == [] then [] else ['\n'] + files[0] + FileLines(files[1..])
  }

  /** The text of one commit after its record separator. Files end their own line. */
  function Body(e: LogEntry): string {
    Header(e) + FileLines(e.files) + (if e.files == [] then [] else ['\n'])
  }

  /** `--format=format:` puts a newline between commits, not after the last one. */
  function Print(log: seq<LogEntry>): string {
    if log == [] then []
    else if |log| == 1 then [RS] + Body(log[0])
    else [RS] + Body(log[0]) + ['\n'] + Print(log[1..])
  }

  /** What `_run_git` hands on: stdout without newlines, then without white space, at both ends. */
  function Stdout(raw: string): string {
    Strip(Trim(raw, IsNewline))
  }

  // ----- What the collector reads -----

  function Clip(value: string, cap: nat): Option<string> {
    var s := Strip(value);
    if s == [] then None else Some(Take(s, cap))
  }

  function TakeEach(files: seq<string>): seq<string> {
    seq(|files|, i requires 0 <= i < |files| => Take(files[i], FILE_PATH_CAP))
  }

  function CommitOf(sha: string, author: string, date: string, subject: string, files: seq<string>): Commit {
    Commit(
      Take(sha, SHA_CAP),
      Clip(author, AUTHOR_CAP),
      match Clip(subject, MESSAGE_CAP) case None => [] case Some(m) => m,
      TakeEach(Take(files, FILES_PER_COMMIT_CAP)),
      Clip(date, COMMITTED_AT_CAP))
  }

  function ParseRecord(record: string): Option<Commit> {
    if Strip(record) == [] then None
    else
      var lines := Split(record, '\n');
      var parts := SplitMax(lines[0], US, 3);
      if |parts| < 4 then None
      else
        var sha := Strip(parts[0]);
        if sha == [] then None
        else Some(CommitOf(sha, parts[1], parts[2], parts[3], NonBlankLines(lines[1..])))
  }

  function ParseRecords(records: seq<string>): seq<Commit> {
    if records == [] then []
    else
      (match ParseRecord(records[0]) case None => [] case Some(c) => [c]) + ParseRecords(records[1..])
  }

  lemma ParseRecordsStep(records: seq<string>, i: nat)
    requires i < |records|
    ensures ParseRecords(records[i..])
         == (match ParseRecord(records[i]) case None => [] case Some(c) => [c]) + ParseRecords(records[i + 1..])
  {
    hide ParseRecord;
    assert records[i..][1..] == records[i + 1..];
  }

  method ParseLog(out: string) returns (commits: seq<Commit>)
    ensures commits == ParseRecords(Split(out, RS))
  {
    hide ParseRecord, Split;
    assert ParseRecords([]) == [];
    hide ParseRecords;
    var records := Split(out, RS);
    commits := [];
    for i := 0 to |records|
      invariant commits + ParseRecords(records[i..]) == ParseRecords(records)
    {
      ParseRecordsStep(records, i);
      match ParseRecord(records[i]) {
        case None =>
        case Some(c) => commits := commits + [c];
      }
    }
  }

  // ----- The round trip -----

  /** A sha without white space; no separator, line feed or carriage return in the other fields (the subject
      may hold U+001F). */
  ghost predicate Printable(e: LogEntry) {
    && e.sha != [] && (forall i :: 0 <= i < |e.sha| ==> !IsSpace(e.sha[i]))
    && FreeOf(e.author, {RS, US, '\n', '\r'}) && FreeOf(e.date, {RS, US, '\n', '\r'})
    && FreeOf(e.subject, {RS, '\n', '\r'})
    && forall f :: f in e.files ==> FreeOf(f, {RS, '\n', '\r'})
  }

  /** The commit a faithful reading gives. */
  function Clipped(e: LogEntry): Commit {
    CommitOf(e.sha, e.author, e.date, e.subject, NonBlankLines(e.files))
  }

  /** `s` cut to at most `cap` characters. */
  ghost predicate IsCut(s: string, cap: nat, r: string) {
    r <= s && |r| <= cap && (|s| <= cap ==> r == s) && (|s| > cap ==> |r| == cap)
  }

  /** Field by field: each comes from its own field, stripped and cut; a blank author or date is none, a blank
      subject an empty message; of the files the first 500 that are not blank. */
  lemma ClippedFields(e: LogEntry)
    ensures var c := Clipped(e);
            && IsCut(e.sha, 64, c.sha)
            && (c.author.None? <==> Blank(e.author)) && (c.author.Some? ==> IsCut(Strip(e.author), 255, c.author.value))
            && (c.committedAt.None? <==> Blank(e.date))
            && (c.committedAt.Some? ==> IsCut(Strip(e.date), 40, c.committedAt.value))
            && IsCut(Strip(e.subject), 2000, c.message)
            && var files := NonBlankLines(e.files);
               && |c.files| == (if |files| <= 500 then |files| else 500)
               && forall i :: 0 <= i < |c.files| ==> IsCut(files[i], 512, c.files[i])
  {
    StripBlank(e.author);
    StripBlank(e.date);
    hide Strip, Blank;
  }

  function ClippedAll(log: seq<LogEntry>): seq<Commit> {
    if log == [] then [] else [Clipped(log[0])] + ClippedAll(log[1..])
  }

  /** The last record keeps all its fields when stdout is stripped: it has a subject or a file. */
  ghost predicate Survives(e: LogEntry) {
    !Blank(e.subject) || NonBlankLines(e.files) != []
  }

  lemma {:induction false} FileLinesFree(files: seq<string>, c: char)
    requires c != '\n' && forall f :: f in files ==> c !in f
    ensures c !in FileLines(files)
  {
    if files != [] {
      FileLinesFree(files[1..], c);
    }
  }

  lemma BodyFreeOfSeparator(e: LogEntry)
    requires Printable(e)
    ensures RS !in Body(e)
  {
    assert RS !in e.sha by {
      assert IsSpace(RS);
    }
    forall f | f in e.files
      ensures RS !in f
    {
    }
    FileLinesFree(e.files, RS);
  }

  lemma HeaderHasNoNewline(e: LogEntry)
    requires Printable(e)
    ensures '\n' !in Header(e)
  {
    assert IsSpace('\n');
    assert '\n' !in e.sha;
    assert '\n' !in e.author && '\n' !in e.date && '\n' !in e.subject;
  }

  lemma OneMorePart(field: string, rest: string, parts: seq<string>, n: nat)
    requires US !in field && SplitMax(rest, US, n) == parts
    ensures SplitMax(field + [US] + rest, US, n + 1) == [field] + parts
  {
    SplitMaxCons(field, rest, US, n + 1);
  }

  /** Reading a header: three cuts, whatever the subject holds. */
  lemma HeaderParts(sha: string, author: string, date: string, subject: string)
    requires US !in sha && US !in author && US !in date
    ensures SplitMax(sha + [US] + author + [US] + date + [US] + subject, US, 3)
         == [sha] + ([author] + ([date] + [subject]))
  {
    assert SplitMax(subject, US, 0) == [subject];
    hide SplitMax;
    var dated := date + [US] + subject;
    var authored := author + [US] + dated;
    OneMorePart(date, subject, [subject], 0);
    OneMorePart(author, dated, [date] + [subject], 1);
    OneMorePart(sha, authored, [author] + ([date] + [subject]), 2);
    HeaderNesting(sha, author, date, subject);
  }

  lemma HeaderNesting(sha: string, author: string, date: string, subject: string)
    ensures sha + [US] + author + [US] + date + [US] + subject
         == sha + [US] + (author + [US] + (date + [US] + subject))
  {
    var a, b := author + [US] + date + [US] + subject, author + [US] + (date + [US] + subject);
    assert a == b;
    assert sha + [US] + author + [US] + date + [US] + subject == sha + [US] + a;
  }

  lemma FieldsFreeOfUs(e: LogEntry)
    requires Printable(e)
    ensures US !in e.sha && US !in e.author && US !in e.date
    ensures Strip(e.sha) == e.sha
  {
    assert IsSpace(US);
    assert TrimLeft(e.sha, IsSpace) == e.sha;
  }

  /** The lines of a header, its files and some trailing newlines: the header first, then the files. */
  lemma {:induction false} FileLinesSplit(h: string, files: seq<string>, tail: string)
    requires '\n' !in h && (forall f :: f in files ==> '\n' !in f)
    requires Blank(tail) && (tail == [] || tail[0] == '\n')
    ensures var lines := Split(h + FileLines(files) + tail, '\n');
            lines[0] == h && NonBlankLines(lines[1..]) == NonBlankLines(files)
    decreases |files|
  {
    hide Split, Strip;
    var all := h + FileLines(files) + tail;
    if files == [] {
      HeaderAndTail(h, tail);
      assert all == h + tail;
    } else {
      var rest := files[0] + FileLines(files[1..]) + tail;
      FileLinesSplit(files[0], files[1..], tail);
      SplitCons(h, rest, '\n');
      assert all == h + ['\n'] + rest by {
        assert FileLines(files) == ['\n'] + files[0] + FileLines(files[1..]);
      }
      var lines := Split(rest, '\n');
      assert Split(all, '\n')[1..] == lines;
      assert NonBlankLines(lines)
             == (if Strip(files[0]) == [] then [] else [Strip(files[0])]) + NonBlankLines(lines[1..]);
    }
  }

  lemma HeaderAndTail(h: string, tail: string)
    requires '\n' !in h && Blank(tail) && (tail == [] || tail[0] == '\n')
    ensures Split(h + tail, '\n')[0] == h && NonBlankLines(Split(h + tail, '\n')[1..]) == []
  {
    if tail == [] {
      SplitOne(h, '\n');
      assert h + tail == h;
    } else {
      SplitCons(h, tail[1..], '\n');
      assert h + tail == h + ['\n'] + tail[1..];
      NonBlankLinesOfBlank(tail[1..]);
      hide Split;
      assert Split(h + tail, '\n')[1..] == Split(tail[1..], '\n');
    }
  }

  /** What a record gives once its lines are known. */
  lemma RecordFromLines(record: string, e: LogEntry, subject: string)
    requires Printable(e) && !Blank(record)
    requires Split(record, '\n')[0] == e.sha + [US] + e.author + [US] + e.date + [US] + subject
    requires NonBlankLines(Split(record, '\n')[1..]) == NonBlankLines(e.files)
    requires Strip(subject) == Strip(e.subject)
    ensures ParseRecord(record) == Some(Clipped(e))
  {
    StripBlank(record);
    FieldsFreeOfUs(e);
    HeaderParts(e.sha, e.author, e.date, subject);
    hide Split, SplitMax, Strip, NonBlankLines;
  }

  lemma StartsWithSha(e: LogEntry, rest: string)
    requires Printable(e)
    ensures !Blank(e.sha + rest)
  {
    assert !IsSpace((e.sha + rest)[0]);
  }

  /** A record that was not cut by stripping reads back as its commit. */
  lemma WholeRecord(e: LogEntry, tail: string)
    requires Printable(e) && Blank(tail) && (tail == [] || tail[0] == '\n')
    ensures ParseRecord(Header(e) + FileLines(e.files) + tail) == Some(Clipped(e))
  {
    hide Split, Strip, NonBlankLines, FileLines, ParseRecord;
    var record := Header(e) + FileLines(e.files) + tail;
    HeaderHasNoNewline(e);
    assert forall f :: f in e.files ==> '\n' !in f;
    FileLinesSplit(Header(e), e.files, tail);
    StartsWithSha(e, [US] + e.author + [US] + e.date + [US] + e.subject + FileLines(e.files) + tail);
    assert record == e.sha + ([US] + e.author + [US] + e.date + [US] + e.subject + FileLines(e.files) + tail);
    RecordFromLines(record, e, e.subject);
  }

  lemma {:induction false} BlankFileLines(files: seq<string>)
    ensures NonBlankLines(files) == [] <==> Blank(FileLines(files))
  {
    if files != [] {
      BlankFileLines(files[1..]);
      StripBlank(files[0]);
      var a, b := ['\n'] + files[0], FileLines(files[1..]);
      assert FileLines(files) == a + b;
      assert forall i :: 0 <= i < |files[0]| ==> files[0][i] == (a + b)[i + 1];
      assert forall i :: 0 <= i < |b| ==> b[i] == (a + b)[|a| + i];
      assert (a + b)[0] == '\n';
    }
  }

  /** The last record, stripped on the right: it reads back exactly when it survives, and is dropped when it
      has neither a subject nor a file. */
  lemma LastRecord(e: LogEntry, tail: string)
    requires Printable(e) && Blank(tail) && (tail == [] || tail[0] == '\n')
    ensures ParseRecord(TrimRight(Header(e) + FileLines(e.files) + tail, IsSpace))
         == if Survives(e) then Some(Clipped(e)) else None
  {
    if NonBlankLines(e.files) != [] {
      LastRecordWithFiles(e, tail);
    } else {
      BlankFileLines(e.files);
      LastRecordWithoutFiles(e, FileLines(e.files) + tail);
      assert Header(e) + FileLines(e.files) + tail == Header(e) + (FileLines(e.files) + tail);
    }
  }

  lemma FilesAfterNewline(files: seq<string>, tail: string) returns (rest: string)
    requires !Blank(FileLines(files))
    ensures FileLines(files) + tail == ['\n'] + rest && !Blank(rest)
  {
    var lines := FileLines(files);
    assert lines[0] == '\n';
    rest := lines[1..] + tail;
    var i :| 0 <= i < |lines| && !IsSpace(lines[i]);
    assert rest[i - 1] == lines[i];
  }

  lemma LastRecordWithFiles(e: LogEntry, tail: string)
    requires Printable(e) && Blank(tail) && (tail == [] || tail[0] == '\n')
    requires NonBlankLines(e.files) != []
    ensures ParseRecord(TrimRight(Header(e) + FileLines(e.files) + tail, IsSpace)) == Some(Clipped(e))
  {
    hide Split, NonBlankLines, ParseRecord, TrimRight, Header;
    BlankFileLines(e.files);
    HeaderHasNoNewline(e);
    var h, lines := Header(e), FileLines(e.files);
    var rest := FilesAfterNewline(e.files, tail);
    hide FileLines, Blank, Printable;
    assert h + lines + tail == h + ['\n'] + rest by {
      assert h + lines + tail == h + (lines + tail);
    }
    SplitTrimmed(h, rest, '\n');
    RestOfRecord(e, rest, tail);
    TrimmedRecord(e, rest);
  }

  lemma RestOfRecord(e: LogEntry, rest: string, tail: string)
    requires Printable(e) && Blank(tail) && (tail == [] || tail[0] == '\n') && e.files != []
    requires Header(e) + FileLines(e.files) + tail == Header(e) + ['\n'] + rest
    ensures NonBlankLines(Split(TrimRight(rest, IsSpace), '\n')) == NonBlankLines(e.files)
  {
    HeaderHasNoNewline(e);
    assert forall f :: f in e.files ==> '\n' !in f;
    FileLinesSplit(Header(e), e.files, tail);
    NonBlankLinesTrim(rest);
    hide Split, NonBlankLines, FileLines, TrimRight, Header;
    SplitCons(Header(e), rest, '\n');
    assert Split(Header(e) + ['\n'] + rest, '\n')[1..] == Split(rest, '\n');
  }

  lemma TrimmedRecord(e: LogEntry, rest: string)
    requires Printable(e) && NonBlankLines(Split(TrimRight(rest, IsSpace), '\n')) == NonBlankLines(e.files)
    requires Split(Header(e) + ['\n'] + TrimRight(rest, IsSpace), '\n')
          == [Header(e)] + Split(TrimRight(rest, IsSpace), '\n')
    ensures ParseRecord(Header(e) + ['\n'] + TrimRight(rest, IsSpace)) == Some(Clipped(e))
  {
    hide Split, Strip, NonBlankLines, ParseRecord, TrimRight;
    var after := [US] + e.author + [US] + e.date + [US] + e.subject + ['\n'] + TrimRight(rest, IsSpace);
    StartsWithSha(e, after);
    var record := Header(e) + ['\n'] + TrimRight(rest, IsSpace);
    assert record == e.sha + after;
    assert Split(record, '\n')[1..] == Split(TrimRight(rest, IsSpace), '\n');
    RecordFromLines(record, e, e.subject);
  }

  lemma LastRecordWithoutFiles(e: LogEntry, tail: string)
    requires Printable(e) && Blank(tail) && NonBlankLines(e.files) == []
    ensures ParseRecord(TrimRight(Header(e) + tail, IsSpace)) == if Survives(e) then Some(Clipped(e)) else None
  {
    TrimRightDrops(Header(e), tail, IsSpace);
    var fields := e.sha + [US] + e.author + [US] + e.date + [US];
    assert Header(e) == fields + e.subject;
    var record := TrimRight(Header(e), IsSpace);
    HeaderHasNoNewline(e);
    TrimRightKeeps(Header(e), IsSpace);
    SplitOne(record, '\n');
    if Blank(e.subject) {
      ShortRecord(e, record);
    } else {
      TrimRightAppend(fields, e.subject, IsSpace);
      StripTrimRight(e.subject);
      assert [record][1..] == [];
      assert NonBlankLines([]) == [];
      SubjectRecord(e, TrimRight(e.subject, IsSpace));
    }
  }

  lemma SubjectRecord(e: LogEntry, subject: string)
    requires Printable(e) && Strip(subject) == Strip(e.subject) && NonBlankLines(e.files) == []
    requires var record := e.sha + [US] + e.author + [US] + e.date + [US] + subject; Split(record, '\n') == [record]
    ensures ParseRecord(e.sha + [US] + e.author + [US] + e.date + [US] + subject) == Some(Clipped(e))
  {
    var record := e.sha + [US] + e.author + [US] + e.date + [US] + subject;
    assert NonBlankLines([]) == [] && [record][1..] == [];
    hide Split, Strip, NonBlankLines, ParseRecord;
    var after := [US] + e.author + [US] + e.date + [US] + subject;
    StartsWithSha(e, after);
    assert record == e.sha + after;
    RecordFromLines(record, e, subject);
  }

  /** Stripping took the last unit separator with it: fewer than four fields remain. */
  lemma ShortRecord(e: LogEntry, record: string)
    requires Printable(e) && Blank(e.subject) && record == TrimRight(Header(e), IsSpace)
    requires Split(record, '\n') == [record]
    ensures ParseRecord(record) == None
  {
    var shortened := e.sha + [US] + e.author + [US] + e.date;
    assert IsSpace(US);
    assert Header(e) == shortened + ([US] + e.subject);
    TrimRightDrops(shortened, [US] + e.subject, IsSpace);
    TrimRightKeeps(shortened, IsSpace);
    FieldsFreeOfUs(e);
    CutsBound(record, 3);
    assert record <= shortened;
    CountPrefix(record, shortened);
    CountTwo(e.sha, e.author, e.date);
  }

  function CountUs(s: string): nat {
    if s == [] then 0 else (if s[0] == US then 1 else 0) + CountUs(s[1..])
  }

  lemma {:induction false} CountAppend(a: string, b: string)
    ensures CountUs(a + b) == CountUs(a) + CountUs(b)
  {
    if a == [] {
      assert a + b == b;
    } else {
      CountAppend(a[1..], b);
      assert (a + b)[1..] == a[1..] + b;
    }
  }

  lemma {:induction false} CountNone(s: string)
    requires US !in s
    ensures CountUs(s) == 0
  {
    if s != [] {
      CountNone(s[1..]);
    }
  }

  lemma CountPrefix(a: string, b: string)
    requires a <= b
    ensures CountUs(a) <= CountUs(b)
  {
    CountAppend(a, b[|a|..]);
    assert b == a + b[|a|..];
  }

  lemma CountTwo(a: string, b: string, c: string)
    requires US !in a && US !in b && US !in c
    ensures CountUs(a + [US] + b + [US] + c) == 2
  {
    CountNone(a);
    CountNone(b);
    CountNone(c);
    CountAppend(a + [US] + b + [US], c);
    CountAppend(a + [US] + b, [US]);
    CountAppend(a + [US], b);
    CountAppend(a, [US]);
    assert CountUs([US]) == 1;
  }

  lemma CountAtUs(s: string, i: nat)
    requires i < |s| && s[i] == US
    ensures CountUs(s) >= 1 + CountUs(s[i + 1..])
  {
    CountAppend(s[..i], s[i..]);
    assert s == s[..i] + s[i..];
    assert s[i..][1..] == s[i + 1..];
  }

  lemma {:induction false} CutsBound(s: string, n: nat)
    ensures |SplitMax(s, US, n)| <= CountUs(s) + 1
    decreases n
  {
    if n > 0 && US in s {
      var i := IndexOf(s, US);
      CutsBound(s[i + 1..], n - 1);
      hide IndexOf;
      CountAtUs(s, i);
    }
  }

  // ----- The whole log -----

  /** The record of each printed commit, without its separator. */
  function Records(log: seq<LogEntry>): seq<string>
    requires log != []
  {
    if |log| == 1 then [TrimRight(Body(log[0]), IsSpace)]
    else [Body(log[0]) + ['\n']] + Records(log[1..])
  }

  lemma BodyStart(e: LogEntry)
    requires Printable(e)
    ensures Body(e) != [] && !IsSpace(Body(e)[0]) && RS !in Body(e)
  {
    BodyFreeOfSeparator(e);
    assert Body(e)[0] == e.sha[0];
  }

  lemma PrintStep(log: seq<LogEntry>)
    requires |log| > 1 && |Print(log[1..])| > 1 && Print(log[1..])[0] == RS
    requires Printable(log[0])
    ensures Print(log)[1..] == Body(log[0]) + ['\n'] + [RS] + Print(log[1..])[1..]
    ensures |Print(log)| > 1 && Print(log)[0] == RS && Print(log)[1] == Body(log[0])[0]
  {
    BodyStart(log[0]);
    var body, rest := Body(log[0]), Print(log[1..]);
    assert Print(log) == [RS] + body + ['\n'] + rest;
    hide Body, Print, Printable;
    Joined(body, rest);
  }

  lemma Joined(body: string, rest: string)
    requires |rest| > 1 && rest[0] == RS && body != []
    ensures var all := [RS] + body + ['\n'] + rest;
            all[1..] == body + ['\n'] + [RS] + rest[1..] && all[0] == RS && all[1] == body[0]
  {
    assert rest == [RS] + rest[1..];
    assert [RS] + body + ['\n'] + rest == [RS] + (body + ['\n'] + [RS] + rest[1..]);
  }

  lemma {:induction false} StdoutRecords(log: seq<LogEntry>)
    requires log != [] && forall e :: e in log ==> Printable(e)
    ensures |Print(log)| > 1 && Print(log)[0] == RS && !IsSpace(Print(log)[1])
    ensures Split(TrimRight(Print(log)[1..], IsSpace), RS) == Records(log)
  {
    BodyStart(log[0]);
    hide Body, Split, TrimRight;
    var body := Body(log[0]);
    if |log| == 1 {
      assert Print(log)[1..] == body;
      TrimRightKeeps(body, IsSpace);
      SplitOne(TrimRight(body, IsSpace), RS);
    } else {
      StdoutRecords(log[1..]);
      PrintStep(log);
      hide Print;
      var rest := Print(log[1..])[1..];
      assert !IsSpace(rest[0]);
      SplitTrimmed(body + ['\n'], rest, RS);
    }
  }

  lemma RecordOf(e: LogEntry)
    requires Printable(e)
    ensures ParseRecord(TrimRight(Body(e), IsSpace)) == if Survives(e) then Some(Clipped(e)) else None
    ensures ParseRecord(Body(e) + ['\n']) == Some(Clipped(e))
  {
    hide ParseRecord, TrimRight, Survives, Clipped, Header, FileLines;
    LastRecord(e, if e.files == [] then [] else ['\n']);
    assert Header(e) + FileLines(e.files) + (if e.files == [] then [] else ['\n']) == Body(e);
    var tail := if e.files == [] then ['\n'] else ['\n', '\n'];
    WholeRecord(e, tail);
    assert Body(e) + ['\n'] == Header(e) + FileLines(e.files) + tail;
  }

  lemma RecordsStep(log: seq<LogEntry>)
    requires |log| > 1 && Printable(log[0])
    ensures ParseRecords(Records(log)) == [Clipped(log[0])] + ParseRecords(Records(log[1..]))
  {
    RecordOf(log[0]);
    hide ParseRecord, Survives, Clipped, Body;
    assert Records(log)[1..] == Records(log[1..]);
  }

  lemma ClippedInit(log: seq<LogEntry>)
    requires |log| > 1
    ensures ClippedAll(log[..|log| - 1]) == [Clipped(log[0])] + ClippedAll(log[1..][..|log| - 2])
  {
    hide Clipped;
    assert log[..|log| - 1][1..] == log[1..][..|log| - 2];
  }

  lemma {:induction false} OneRecord(e: LogEntry)
    requires Printable(e)
    ensures ParseRecords(Records([e])) == if Survives(e) then [Clipped(e)] else []
  {
    RecordOf(e);
    var record := TrimRight(Body(e), IsSpace);
    hide Survives, Clipped, Body, TrimRight, ParseRecord, Printable;
    assert Records([e]) == [record] && [record][1..] == [];
    assert ParseRecords([]) == [];
  }

  lemma {:induction false} RecordsRead(log: seq<LogEntry>)
    requires log != [] && forall e :: e in log ==> Printable(e)
    ensures var n := |log| - 1;
            ParseRecords(Records(log))
            == if Survives(log[n]) then ClippedAll(log) else ClippedAll(log[..n])
  {
    hide ParseRecords, Records, Survives, Clipped;
    if |log| == 1 {
      OneRecord(log[0]);
      assert log == [log[0]] && log[1..] == [] && log[..0] == [];
      assert ClippedAll([]) == [];
    } else {
      RecordsRead(log[1..]);
      RecordsStep(log);
      ClippedInit(log);
    }
  }

  lemma StdoutOf(raw: string)
    requires |raw| > 1 && raw[0] == RS && !IsSpace(raw[1])
    ensures Stdout(raw) == TrimRight(raw[1..], IsSpace)
  {
    StripAfterNewlines(raw);
    hide TrimRight;
    assert raw == [RS] + raw[1..];
    TrimLeftDrops([RS], raw[1..], IsSpace);
    assert TrimLeft(raw[1..], IsSpace) == raw[1..];
  }

  lemma EmptyLog()
    ensures ParseRecords(Split(Stdout([]), RS)) == []
  {
    StripAfterNewlines([]);
    StripBlank([]);
    var records := Split([], RS);
    assert records == [[]] && records[1..] == [];
    assert ParseRecord([]) == None;
  }

  /** Printing a log and reading it back gives every commit, clipped, in order -- except that a last commit
      with neither a subject nor a file is lost, because stripping stdout removes its field separators. */
  lemma LogRoundTrip(log: seq<LogEntry>)
    requires forall e :: e in log ==> Printable(e)
    ensures ParseRecords(Split(Stdout(Print(log)), RS))
         == if log == [] || Survives(log[|log| - 1]) then ClippedAll(log) else ClippedAll(log[..|log| - 1])
  {
    if log == [] {
      EmptyLog();
    } else {
      StdoutRecords(log);
      StdoutOf(Print(log));
      RecordsRead(log);
    }
  }

  // ----- The newest commits, oldest first -----

  function Reverse<T>(s: seq<T>): seq<T> {
    if s == [] then [] else Reverse(s[1..]) + [s[0]]
  }

  lemma {:induction false} ReverseAt<T>(s: seq<T>, k: nat)
    requires k < |s|
    ensures |Reverse(s)| == |s| && Reverse(s)[k] == s[|s| - 1 - k]
  {
    if |s| > 1 {
      ReverseAt(s[1..], if k < |s| - 1 then k else 0);
    }
  }

  /** The collector's view of a `git log` answer: at most `limit` commits, and whether there were more. */
  datatype Listing = Listing(commits: seq<Commit>, truncated: bool)

  function ListingOf(out: string, limit: nat): Listing {
    var all := ParseRecords(Split(out, RS));
    Listing(Reverse(Take(all, limit)), |all| > limit)
  }

  method ReadListing(out: string, limit: nat) returns (listing: Listing)
    ensures listing == ListingOf(out, limit)
  {
    var commits := ParseLog(out);
    var truncated := |commits| > limit;
    commits := Take(commits, limit);
    commits := Reverse(commits);
    return Listing(commits, truncated);
  }

  lemma {:induction false} ClippedPrefix(log: seq<LogEntry>, n: nat)
    requires n <= |log|
    ensures |ClippedAll(log)| == |log| && ClippedAll(log[..n]) == ClippedAll(log)[..n]
  {
    hide Clipped;
    if n > 0 {
      ClippedPrefix(log[1..], n - 1);
      assert log[..n][1..] == log[1..][..n - 1];
    } else if log != [] {
      ClippedPrefix(log[1..], 0);
    }
  }

  lemma {:induction false} ReverseLength<T>(s: seq<T>)
    ensures |Reverse(s)| == |s|
  {
    if s != [] {
      ReverseAt(s, 0);
    }
  }

  /** What the collector asked git for: the newest `limit + 1` commits of the range. */
  function Window(history: seq<LogEntry>, limit: nat): seq<LogEntry> {
    Take(history, limit + 1)
  }

  /** When the oldest commit asked for does not survive, it is not seen. A range of at most `limit` commits
      loses it; a longer one keeps the right commits but is reported as complete. */
  lemma ListingLosesOldest(history: seq<LogEntry>, limit: nat)
    requires forall e :: e in history ==> Printable(e)
    requires var window := Window(history, limit); window != [] && !Survives(window[|window| - 1])
    ensures var window := Window(history, limit);
            ListingOf(Stdout(Print(window)), limit) == Listing(Reverse(ClippedAll(window[..|window| - 1])), false)
  {
    var window := Window(history, limit);
    LogRoundTrip(window);
    hide Print, Stdout, Split, ParseRecords, Survives, Clipped, Printable;
    ClippedPrefix(window, |window| - 1);
  }

  lemma ListingKeepsAll(history: seq<LogEntry>, limit: nat)
    requires forall e :: e in history ==> Printable(e)
    requires var window := Window(history, limit); window == [] || Survives(window[|window| - 1])
    ensures ListingOf(Stdout(Print(Window(history, limit))), limit)
         == Listing(Reverse(ClippedAll(Take(history, limit))), |history| > limit)
  {
    hide Print, Stdout, Split, ParseRecords, Survives, ClippedAll, Printable, Reverse;
    var window, newest := Window(history, limit), Take(history, limit);
    assert window[..|newest|] == newest;
    LogRoundTrip(window);
    ClippedPrefix(window, |newest|);
  }

  /** The listing is the newest `limit` commits, oldest first, truncated exactly when there were more --
      if and only if the oldest commit git was asked for has a subject or a file (or there is none). */
  lemma ListingExact(history: seq<LogEntry>, limit: nat)
    requires forall e :: e in history ==> Printable(e)
    ensures var window := Window(history, limit);
            var wanted := Listing(Reverse(ClippedAll(Take(history, limit))), |history| > limit);
            ListingOf(Stdout(Print(window)), limit) == wanted
            <==> window == [] || Survives(window[|window| - 1])
  {
    var window := Window(history, limit);
    hide ListingOf, Print, Stdout, Survives, Clipped, Printable;
    if window == [] || Survives(window[|window| - 1]) {
      ListingKeepsAll(history, limit);
    } else {
      ListingLosesOldest(history, limit);
      var newest := Take(history, limit);
      ClippedPrefix(newest, 0);
      ClippedPrefix(window[..|window| - 1], 0);
      ReverseLength(ClippedAll(newest));
      ReverseLength(ClippedAll(window[..|window| - 1]));
    }
  }
}
