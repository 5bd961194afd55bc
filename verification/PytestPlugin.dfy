/**
 The pytest plugin's outcome machine: which of the setup, call and teardown reports of a test become a record,
 with which status and timing, when the reports of many tests interleave.
 */
module PytestPlugin {
  import opened Options

  const SUFFIX: string := " (teardown)"

  datatype When = Setup | Call | Teardown | Other

  datatype Result = Passed | Failed | Skipped

  /** One phase report: its duration and, where pytest stamps it, when it started (milliseconds). */
  datatype Report = Report(nodeid: string, when: When, result: Result, ms: nat, start: Option<nat>)

  datatype Status = PASSED | FAILED | SKIPPED | BROKEN

  datatype Record = Record(
    nodeid: string, suffix: string, status: Status, durationMs: nat,
    startedAt: Option<nat>, setupMs: Option<nat>, callMs: Option<nat>, teardownMs: Option<nat>)

  datatype Phase = Phase(ms: nat, start: Option<nat>)

  /** What the plugin remembers: the keys already streamed, the open setups, and what it has streamed. */
  datatype Memory = Memory(recorded: set<string>, setup: map<string, Phase>, records: seq<Record>)

  const FRESH := Memory({}, map[], [])

  function KeyOf(rec: Record): string {
    rec.nodeid + rec.suffix
  }

  function Emit(m: Memory, rec: Record): Memory {
    if KeyOf(rec) in m.recorded then m
    else m.(recorded := m.recorded + {KeyOf(rec)}, records := m.records + [rec])
  }

  /** The record a report asks for, given the setup remembered for its test. */
  function Wanted(r: Report, setup: Option<Phase>): Option<Record> {
    match r.when
    case Setup =>
      if r.result.Passed? then None
      else
        var status := if r.result.Failed? then BROKEN else SKIPPED;
        Some(Record(r.nodeid, "", status, r.ms, r.start, Some(r.ms), None, None))
    case Call =>
      var status := if r.result.Failed? then FAILED else if r.result.Skipped? then SKIPPED else PASSED;
      var started := if setup.Some? && setup.value.start.Some? then setup.value.start else r.start;
      var setupMs := if setup.Some? then Some(setup.value.ms) else None;
      Some(Record(r.nodeid, "", status, r.ms, started, setupMs, Some(r.ms), None))
    case Teardown =>
      if r.result.Failed? then Some(Record(r.nodeid, SUFFIX, BROKEN, r.ms, r.start, None, None, Some(r.ms))) else None
    case Other => None
  }

  function SetupOf(m: Memory, id: string): Option<Phase> {
    if id in m.setup then Some(m.setup[id]) else None
  }

  function Remember(setup: map<string, Phase>, r: Report): map<string, Phase> {
    match r.when
    case Setup => setup[r.nodeid := Phase(r.ms, r.start)]
    case Teardown => setup - {r.nodeid}
    case _ => setup
  }

  function Step(m: Memory, r: Report): Memory {
    var remembered := m.(setup := Remember(m.setup, r));
    match Wanted(r, SetupOf(m, r.nodeid))
    case None => remembered
    case Some(rec) => Emit(remembered, rec)
  }

  function Run(stream: seq<Report>): Memory {
    if stream == [] then FRESH else Step(Run(stream[..|stream| - 1]), stream[|stream| - 1])
  }

  class Plugin {
    var recorded: set<string>
    var setup: map<string, Phase>
    var records: seq<Record>

    function View(): Memory
      reads this
    {
      Memory(recorded, setup, records)
    }

    constructor ()
      ensures View() == FRESH
    {
      recorded, setup, records := {}, map[], [];
    }

    method LogReport(r: Report)
      modifies this
      ensures View() == Step(old(View()), r)
    {
      if r.when == Other {
        return;
      }
      var rec;
      match r.when {
        case Setup =>
          setup := setup[r.nodeid := Phase(r.ms, r.start)];
          if r.result.Passed? {
            return;
          }
          var status := if r.result.Failed? then BROKEN else SKIPPED;
          rec := Record(r.nodeid, "", status, r.ms, r.start, Some(r.ms), None, None);
        case Call =>
          var known := r.nodeid in setup;
          var started := if known && setup[r.nodeid].start.Some? then setup[r.nodeid].start else r.start;
          var status := if r.result.Failed? then FAILED else if r.result.Skipped? then SKIPPED else PASSED;
          rec := Record(r.nodeid, "", status, r.ms, started, if known then Some(setup[r.nodeid].ms) else None,
                        Some(r.ms), None);
        case Teardown =>
          setup := setup - {r.nodeid};
          if !r.result.Failed? {
            return;
          }
          rec := Record(r.nodeid, SUFFIX, BROKEN, r.ms, r.start, None, None, Some(r.ms));
      }
      if KeyOf(rec) in recorded {
        return;
      }
      recorded := recorded + {KeyOf(rec)};
      records := records + [rec];
    }
  }

  // ----- Any stream at all -----

  /** No two records share a key, and the keys are exactly those of the records. */
  ghost predicate KeysMatch(m: Memory) {
    && (forall i, j :: 0 <= i < j < |m.records| ==> KeyOf(m.records[i]) != KeyOf(m.records[j]))
    && (forall rec :: rec in m.records ==> KeyOf(rec) in m.recorded)
    && (forall k :: k in m.recorded ==> exists rec :: rec in m.records && KeyOf(rec) == k)
  }

  lemma EmitKeepsKeys(m: Memory, rec: Record)
    requires KeysMatch(m)
    ensures KeysMatch(Emit(m, rec))
  {
    hide KeyOf;
    var after := Emit(m, rec);
    if after != m {
      assert rec in after.records;
      forall k | k in after.recorded
        ensures exists other :: other in after.records && KeyOf(other) == k
      {
        if k in m.recorded {
          var other :| other in m.records && KeyOf(other) == k;
          assert other in after.records;
        }
      }
    }
  }

  /** No stream makes the plugin send two records under one key, and its set of keys is exactly what it sent. */
  lemma {:induction false} OneRecordPerKey(stream: seq<Report>)
    ensures KeysMatch(Run(stream))
  {
    if stream != [] {
      var init, r := stream[..|stream| - 1], stream[|stream| - 1];
      OneRecordPerKey(init);
      var before := Run(init);
      var remembered := before.(setup := Remember(before.setup, r));
      assert KeysMatch(remembered);
      var wanted := Wanted(r, SetupOf(before, r.nodeid));
      if wanted.Some? {
        EmitKeepsKeys(remembered, wanted.value);
      }
      hide KeyOf, Wanted, KeysMatch;
    }
  }

  /** The key a report asks to record does not depend on what the plugin remembers. */
  function WantedKey(r: Report): Option<string> {
    match Wanted(r, None) case None => None case Some(rec) => Some(KeyOf(rec))
  }

  lemma WantedKeyStable(r: Report, setup: Option<Phase>)
    ensures match Wanted(r, setup)
            case None => WantedKey(r).None?
            case Some(rec) => WantedKey(r) == Some(KeyOf(rec))
  {
  }

  lemma {:induction false} KeysRecorded(stream: seq<Report>)
    ensures forall r :: r in stream && WantedKey(r).Some? ==> WantedKey(r).value in Run(stream).recorded
  {
    if stream != [] {
      var init, last := stream[..|stream| - 1], stream[|stream| - 1];
      KeysRecorded(init);
      WantedKeyStable(last, SetupOf(Run(init), last.nodeid));
      assert stream == init + [last];
      hide Wanted, WantedKey, KeyOf;
    }
  }

  /** Reports delivered again, in any order and any number, add no record. */
  lemma {:induction false} RepeatedReportsAddNothing(stream: seq<Report>, again: seq<Report>)
    requires forall r :: r in again ==> r in stream
    ensures Run(stream + again).records == Run(stream).records
    decreases |again|
  {
    if again == [] {
      assert stream + again == stream;
    } else {
      var n := |again| - 1;
      var all := stream + again;
      assert all[..|all| - 1] == stream + again[..n] && all[|all| - 1] == again[n];
      RepeatedReportsAddNothing(stream, again[..n]);
      KeysRecorded(stream + again[..n]);
      var m := Run(stream + again[..n]);
      WantedKeyStable(again[n], SetupOf(m, again[n].nodeid));
      assert again[n] in stream + again[..n];
      hide Wanted, WantedKey, KeyOf;
    }
  }

  /** The last setup or teardown report of the test in the stream is a setup. */
  predicate OpenSetup(stream: seq<Report>, id: string) {
    if stream == [] then false
    else
      var last := stream[|stream| - 1];
      if last.nodeid == id && (last.when.Setup? || last.when.Teardown?) then last.when.Setup?
      else OpenSetup(stream[..|stream| - 1], id)
  }

  /** A test's setup is remembered from its setup report to its teardown report, and no longer. */
  lemma {:induction false} SetupRememberedUntilTeardown(stream: seq<Report>, id: string)
    ensures id in Run(stream).setup <==> OpenSetup(stream, id)
  {
    if stream != [] {
      SetupRememberedUntilTeardown(stream[..|stream| - 1], id);
      hide Wanted, KeyOf;
    }
  }

  // ----- One test among many -----

  function Project(stream: seq<Report>, id: string): seq<Report> {
    if stream == [] then []
    else
      var last := stream[|stream| - 1];
      Project(stream[..|stream| - 1], id) + (if last.nodeid == id then [last] else [])
  }

  function RecordsOf(records: seq<Record>, id: string): seq<Record> {
    if records == [] then []
    else
      var last := records[|records| - 1];
      RecordsOf(records[..|records| - 1], id) + (if last.nodeid == id then [last] else [])
  }

  /** A report of another test, before one of this test's, asks for the very key this one asks for. */
  ghost predicate Clash(stream: seq<Report>, id: string) {
    exists i, j :: 0 <= i < j < |stream| && Taken(stream, id, i, j)
  }

  ghost predicate Taken(stream: seq<Report>, id: string, i: nat, j: nat)
    requires i < j < |stream|
  {
    && stream[j].nodeid == id && stream[i].nodeid != id
    && WantedKey(stream[i]).Some? && WantedKey(stream[i]) == WantedKey(stream[j])
  }

  /** A key is on record exactly if some report asked for it. */
  lemma {:induction false} RecordedIffWanted(stream: seq<Report>, key: string)
    ensures key in Run(stream).recorded <==> exists r :: r in stream && WantedKey(r) == Some(key)
  {
    if stream != [] {
      var init, last := stream[..|stream| - 1], stream[|stream| - 1];
      RecordedIffWanted(init, key);
      WantedKeyStable(last, SetupOf(Run(init), last.nodeid));
      assert stream == init + [last];
      assert forall r :: r in stream <==> r in init || r == last;
      hide Wanted, WantedKey, KeyOf;
    }
  }

  lemma {:induction false} ProjectIn(stream: seq<Report>, id: string)
    ensures forall r :: r in Project(stream, id) <==> r in stream && r.nodeid == id
  {
    if stream != [] {
      var init, last := stream[..|stream| - 1], stream[|stream| - 1];
      ProjectIn(init, id);
      assert stream == init + [last];
    }
  }

  lemma RecordsOfAppend(records: seq<Record>, rec: Record, id: string)
    ensures RecordsOf(records + [rec], id) == RecordsOf(records, id) + (if rec.nodeid == id then [rec] else [])
  {
    assert (records + [rec])[..|records|] == records;
  }

  lemma WantedOwn(r: Report, setup: Option<Phase>)
    ensures Wanted(r, setup).Some? ==> Wanted(r, setup).value.nodeid == r.nodeid
  {
  }

  /** What one report does to the records and the setup of a test. */
  lemma StepRecords(m: Memory, r: Report, id: string)
    ensures RecordsOf(Step(m, r).records, id)
         == match WantedKey(r)
            case None => RecordsOf(m.records, id)
            case Some(key) =>
              if key in m.recorded || r.nodeid != id then RecordsOf(m.records, id)
              else RecordsOf(m.records, id) + [Wanted(r, SetupOf(m, id)).value]
  {
    var wanted := Wanted(r, SetupOf(m, r.nodeid));
    WantedKeyStable(r, SetupOf(m, r.nodeid));
    WantedOwn(r, SetupOf(m, r.nodeid));
    if wanted.Some? {
      RecordsOfAppend(m.records, wanted.value, id);
    }
    hide Wanted, WantedKey, KeyOf, RecordsOf;
  }

  lemma StepSetup(m: Memory, r: Report, id: string)
    ensures SetupOf(Step(m, r), id) == SetupOf(m.(setup := Remember(m.setup, r)), id)
    ensures r.nodeid != id ==> SetupOf(Step(m, r), id) == SetupOf(m, id)
  {
    hide Wanted, KeyOf;
  }

  /** The setup remembered for a test depends on its own reports only. */
  lemma {:induction false} OwnSetup(stream: seq<Report>, id: string)
    ensures SetupOf(Run(stream), id) == SetupOf(Run(Project(stream, id)), id)
  {
    if stream != [] {
      var init, last := stream[..|stream| - 1], stream[|stream| - 1];
      OwnSetup(init, id);
      StepSetup(Run(init), last, id);
      var mine := Project(init, id);
      if last.nodeid == id {
        assert (mine + [last])[..|mine|] == mine;
        StepSetup(Run(mine), last, id);
        hide Step;
      } else {
        hide Step;
        assert mine + [] == mine;
      }
    }
  }

  /** Without a clash a key this test asks for is on record exactly if its own reports put it there. */
  lemma OwnKeys(init: seq<Report>, last: Report, id: string)
    requires last.nodeid == id && !Clash(init + [last], id) && WantedKey(last).Some?
    ensures WantedKey(last).value in Run(init).recorded <==> WantedKey(last).value in Run(Project(init, id)).recorded
  {
    var stream, key := init + [last], WantedKey(last).value;
    hide WantedKey, Run, Project;
    RecordedIffWanted(init, key);
    RecordedIffWanted(Project(init, id), key);
    ProjectIn(init, id);
    forall r | r in init && WantedKey(r) == Some(key)
      ensures r.nodeid == id
    {
      var i :| 0 <= i < |init| && init[i] == r;
      assert stream[i] == r && stream[|init|] == last;
      assert !Taken(stream, id, i, |init|);
    }
  }

  lemma ClashGrows(init: seq<Report>, last: Report, id: string)
    requires Clash(init, id)
    ensures Clash(init + [last], id)
  {
    var i, j :| 0 <= i < j < |init| && Taken(init, id, i, j);
    assert Taken(init + [last], id, i, j);
  }

  lemma OwnStep(init: seq<Report>, last: Report, id: string)
    requires last.nodeid == id && !Clash(init + [last], id)
    requires RecordsOf(Run(init).records, id) == RecordsOf(Run(Project(init, id)).records, id)
    ensures RecordsOf(Step(Run(init), last).records, id) == RecordsOf(Step(Run(Project(init, id)), last).records, id)
  {
    hide Step, WantedKey, Wanted, RecordsOf, Run, Project, Clash;
    var mine := Project(init, id);
    StepRecords(Run(init), last, id);
    StepRecords(Run(mine), last, id);
    OwnSetup(init, id);
    if WantedKey(last).Some? {
      OwnKeys(init, last, id);
    }
  }

  lemma OtherStep(m: Memory, last: Report, id: string)
    requires last.nodeid != id
    ensures RecordsOf(Step(m, last).records, id) == RecordsOf(m.records, id)
  {
    hide Step, WantedKey, Wanted, RecordsOf;
    StepRecords(m, last, id);
  }

  /** Without a clash, what is recorded for a test depends on its own reports only, however they interleave with
      those of others. */
  lemma {:induction false} TestsDoNotInterfere(stream: seq<Report>, id: string)
    requires !Clash(stream, id)
    ensures RecordsOf(Run(stream).records, id) == RecordsOf(Run(Project(stream, id)).records, id)
  {
    hide Step, WantedKey, Wanted, RecordsOf, Clash;
    if stream != [] {
      var init, last := stream[..|stream| - 1], stream[|stream| - 1];
      assert stream == init + [last];
      if Clash(init, id) {
        ClashGrows(init, last, id);
        assert false;
      }
      TestsDoNotInterfere(init, id);
      var mine := Project(init, id);
      if last.nodeid == id {
        assert (mine + [last])[..|mine|] == mine;
        OwnStep(init, last, id);
      } else {
        assert mine + [] == mine;
        OtherStep(Run(init), last, id);
      }
    }
  }

  // ----- A clash loses a record -----

  /** How many records the reports of a test ask for. */
  function Asked(stream: seq<Report>, id: string): nat {
    if stream == [] then 0
    else
      var last := stream[|stream| - 1];
      Asked(stream[..|stream| - 1], id) + if last.nodeid == id && WantedKey(last).Some? then 1 else 0
  }

  lemma {:induction false} AskedOfProject(stream: seq<Report>, id: string)
    ensures Asked(Project(stream, id), id) == Asked(stream, id)
  {
    if stream != [] {
      var init, last := stream[..|stream| - 1], stream[|stream| - 1];
      hide WantedKey, Asked;
      AskedOfProject(init, id);
      AskedSnoc(init, last, id);
      assert stream == init + [last];
      if last.nodeid == id {
        AskedSnoc(Project(init, id), last, id);
      } else {
        assert Project(init, id) + [] == Project(init, id);
      }
    }
  }

  lemma AskedSnoc(stream: seq<Report>, last: Report, id: string)
    ensures Asked(stream + [last], id)
         == Asked(stream, id) + if last.nodeid == id && WantedKey(last).Some? then 1 else 0
  {
    hide WantedKey;
    assert (stream + [last])[..|stream|] == stream;
  }

  /** No more records than asked for, and fewer where another test took a key first. */
  lemma {:induction false} ClashLosesOne(stream: seq<Report>, id: string)
    ensures |RecordsOf(Run(stream).records, id)| <= Asked(stream, id)
    ensures Clash(stream, id) ==> |RecordsOf(Run(stream).records, id)| < Asked(stream, id)
  {
    if stream != [] {
      var init, last := stream[..|stream| - 1], stream[|stream| - 1];
      assert stream == init + [last];
      ClashLosesOne(init, id);
      StepRecords(Run(init), last, id);
      if Clash(stream, id) && !Clash(init, id) {
        LastTaken(init, last, id);
        RecordedIffWanted(init, WantedKey(last).value);
      }
      hide Step, WantedKey, Wanted, RecordsOf, Clash;
    }
  }

  lemma LastTaken(init: seq<Report>, last: Report, id: string)
    requires Clash(init + [last], id) && !Clash(init, id)
    ensures last.nodeid == id && WantedKey(last).Some? && exists r :: r in init && WantedKey(r) == WantedKey(last)
  {
    var stream := init + [last];
    var i, j :| 0 <= i < j < |stream| && Taken(stream, id, i, j);
    hide WantedKey;
    assert j < |init| ==> Taken(init, id, i, j);
    assert init[i] == stream[i];
  }

  // ----- What should be on record -----

  /** The reports pytest sends for one test: a setup; a call exactly if the setup passed; a teardown. */
  ghost predicate TestReports(reports: seq<Report>, id: string) {
    && (|reports| == 2 || |reports| == 3)
    && (forall r :: r in reports ==> r.nodeid == id)
    && reports[0].when == Setup && reports[|reports| - 1].when == Teardown
    && (reports[0].result.Passed? <==> |reports| == 3)
    && (|reports| == 3 ==> reports[1].when == Call)
  }

  /** What should be on record for such a test: one primary record with the status of the phase that decided
      it, and a BROKEN teardown record exactly if the teardown failed. */
  function Expected(reports: seq<Report>): seq<Record>
    requires |reports| == 2 || |reports| == 3
  {
    var setup, teardown := reports[0], reports[|reports| - 1];
    var primary :=
      if |reports| == 2 then
        Record(setup.nodeid, "", if setup.result.Failed? then BROKEN else SKIPPED, setup.ms,
               setup.start, Some(setup.ms), None, None)
      else
        var call := reports[1];
        var status := match call.result case Passed => PASSED case Failed => FAILED case Skipped => SKIPPED;
        Record(call.nodeid, "", status, call.ms,
               if setup.start.Some? then setup.start else call.start, Some(setup.ms), Some(call.ms), None);
    [primary]
    + (if teardown.result.Failed?
       then [Record(teardown.nodeid, SUFFIX, BROKEN, teardown.ms, teardown.start, None, None, Some(teardown.ms))]
       else [])
  }

  lemma RunOf(reports: seq<Report>)
    ensures Run([]) == FRESH
    ensures |reports| >= 1 ==> Run(reports[..1]) == Step(FRESH, reports[0])
    ensures |reports| >= 2 ==> Run(reports[..2]) == Step(Step(FRESH, reports[0]), reports[1])
    ensures |reports| >= 3 ==> Run(reports[..3]) == Step(Step(Step(FRESH, reports[0]), reports[1]), reports[2])
  {
    hide Step;
    if |reports| >= 1 {
      assert reports[..1][..0] == [];
    }
    if |reports| >= 2 {
      assert reports[..2][..1] == reports[..1];
    }
    if |reports| >= 3 {
      assert reports[..3][..2] == reports[..2];
    }
  }

  lemma TestAlone(reports: seq<Report>, id: string)
    requires TestReports(reports, id)
    ensures Run(reports).records == Expected(reports) && Run(reports).setup == map[]
  {
    RunOf(reports);
    assert reports[..|reports|] == reports;
    hide Run, Step, Expected;
    if |reports| == 2 {
      SkippedAlone(reports, id);
    } else {
      CalledAlone(reports, id);
    }
  }

  /** A test whose setup did not pass. */
  lemma SkippedAlone(reports: seq<Report>, id: string)
    requires TestReports(reports, id) && |reports| == 2
    ensures var m := Step(Step(FRESH, reports[0]), reports[1]); m.records == Expected(reports) && m.setup == map[]
  {
    assert id + "" == id && |id + SUFFIX| != |id|;
    var m1 := Step(FRESH, reports[0]);
    assert m1.records == [Expected(reports)[0]] && m1.recorded == {id};
  }

  /** A test that was called. */
  lemma CalledAlone(reports: seq<Report>, id: string)
    requires TestReports(reports, id) && |reports| == 3
    ensures var m := Step(Step(Step(FRESH, reports[0]), reports[1]), reports[2]);
            m.records == Expected(reports) && m.setup == map[]
  {
    assert id + "" == id && |id + SUFFIX| != |id|;
    var m1 := Step(FRESH, reports[0]);
    assert m1.records == [] && m1.recorded == {} && m1.setup == map[id := Phase(reports[0].ms, reports[0].start)];
    var m2 := Step(m1, reports[1]);
    assert m2.records == [Expected(reports)[0]] && m2.recorded == {id};
  }

  lemma {:induction false} AllOf(records: seq<Record>, id: string)
    requires forall i :: 0 <= i < |records| ==> records[i].nodeid == id
    ensures RecordsOf(records, id) == records
  {
    if records != [] {
      AllOf(records[..|records| - 1], id);
    }
  }

  lemma AskedIsExpected(reports: seq<Report>, id: string)
    requires TestReports(reports, id)
    ensures Asked(reports, id) == |Expected(reports)|
  {
    var n := |reports|;
    assert forall i :: 0 <= i < n ==> reports[i].nodeid == id;
    assert Asked([], id) == 0;
    assert reports[..1][..0] == [] && reports[..2][..1] == reports[..1];
    assert n == 3 ==> reports[..n - 1] == reports[..2];
    assert n == 2 ==> reports[..n - 1] == reports[..1];
    assert Asked(reports[..1], id) == if WantedKey(reports[0]).Some? then 1 else 0;
    assert Asked(reports[..2], id) == Asked(reports[..1], id) + if WantedKey(reports[1]).Some? then 1 else 0;
    assert n == 2 ==> reports[..2] == reports;
  }

  /** In every interleaved stream a test whose reports are well formed gets exactly the records it should, in
      order, if and only if no other test asked for one of its keys first; and in any case nothing of it is
      remembered afterwards. */
  lemma EveryTestRecordedOnce(stream: seq<Report>, id: string)
    requires TestReports(Project(stream, id), id)
    ensures RecordsOf(Run(stream).records, id) == Expected(Project(stream, id)) <==> !Clash(stream, id)
    ensures id !in Run(stream).setup
  {
    hide Run, RecordsOf, Clash, Asked, Project;
    var mine := Project(stream, id);
    OwnSetup(stream, id);
    TestAlone(mine, id);
    ExpectedAreOwn(mine, id);
    AllOf(Expected(mine), id);
    AskedIsExpected(mine, id);
    AskedOfProject(stream, id);
    ClashLosesOne(stream, id);
    hide Expected;
    if !Clash(stream, id) {
      TestsDoNotInterfere(stream, id);
    }
  }

  lemma ExpectedAreOwn(reports: seq<Report>, id: string)
    requires TestReports(reports, id)
    ensures forall i :: 0 <= i < |Expected(reports)| ==> Expected(reports)[i].nodeid == id
  {
    assert forall i :: 0 <= i < |reports| ==> reports[i] in reports;
  }

  /** The reports of a test that passes, but for its teardown. */
  function TestRun(id: string, teardown: Result): seq<Report> {
    [Report(id, Setup, Passed, 1, None), Report(id, Call, Passed, 1, None), Report(id, Teardown, teardown, 1, None)]
  }

  lemma ProjectOf(stream: seq<Report>, last: Report, id: string)
    ensures Project(stream + [last], id) == Project(stream, id) + (if last.nodeid == id then [last] else [])
  {
    assert (stream + [last])[..|stream|] == stream;
  }

  lemma {:induction false} ProjectConcat(a: seq<Report>, b: seq<Report>, id: string)
    ensures Project(a + b, id) == Project(a, id) + Project(b, id)
    decreases |b|
  {
    if b == [] {
      assert a + b == a && Project(a, id) + [] == Project(a, id);
    } else {
      var n := |b| - 1;
      ProjectConcat(a, b[..n], id);
      assert a + b == a + b[..n] + [b[n]];
      ProjectOf(a + b[..n], b[n], id);
    }
  }

  lemma {:induction false} ProjectAll(reports: seq<Report>, name: string, id: string)
    requires forall r :: r in reports ==> r.nodeid == name
    ensures Project(reports, id) == if name == id then reports else []
  {
    if reports != [] {
      ProjectAll(reports[..|reports| - 1], name, id);
      assert reports == reports[..|reports| - 1] + [reports[|reports| - 1]];
    }
  }

  /** Whatever a test is called: if one called like its teardown record runs first, both well formed, its failed
      teardown goes unrecorded. */
  lemma ClashLosesTeardown(t: string)
    ensures var u := t + " (teardown)";
            var stream := TestRun(u, Passed) + TestRun(t, Failed);
            && Project(stream, t) == TestRun(t, Failed) && TestReports(Project(stream, t), t)
            && Project(stream, u) == TestRun(u, Passed) && TestReports(Project(stream, u), u)
            && RecordsOf(Run(stream).records, t) != Expected(Project(stream, t))
  {
    var u := t + SUFFIX;
    var first, second := TestRun(u, Passed), TestRun(t, Failed);
    var stream := first + second;
    assert |u| != |t|;
    TestRunWellFormed(u, Passed);
    TestRunWellFormed(t, Failed);
    hide TestRun, TestReports, Run, Project, RecordsOf, Expected, WantedKey, Taken, Clash;
    ProjectConcat(first, second, t);
    ProjectConcat(first, second, u);
    ProjectAll(first, u, t);
    ProjectAll(first, u, u);
    ProjectAll(second, t, t);
    ProjectAll(second, t, u);
    assert [] + second == second && first + [] == first;
    KeyTaken(t);
    EveryTestRecordedOnce(stream, t);
  }

  lemma TestRunWellFormed(id: string, teardown: Result)
    ensures TestReports(TestRun(id, teardown), id) && |TestRun(id, teardown)| == 3
    ensures forall r :: r in TestRun(id, teardown) ==> r.nodeid == id
  {
  }

  lemma KeyTaken(t: string)
    ensures Clash(TestRun(t + SUFFIX, Passed) + TestRun(t, Failed), t)
  {
    var u := t + SUFFIX;
    var first, second := TestRun(u, Passed), TestRun(t, Failed);
    assert |u| != |t| && u + "" == u;
    assert WantedKey(first[1]) == Some(u) && WantedKey(second[2]) == Some(u);
    hide WantedKey;
    var stream := first + second;
    assert stream[1] == first[1] && stream[5] == second[2];
    assert Taken(stream, t, 1, 5);
  }
}
