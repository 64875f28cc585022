/**
 * The parser object of ReportUnit/Parser/MsTest2010.cs and the `Report` it fills.
 *
 * `MsTest2010` holds the loaded document, the result file's path and its base
 * name, and the report under construction; `ProcessFile` (lines 61-117)
 * creates the report, counts outcomes, and calls `ProcessRunInfo` (lines
 * 123-165) and `ProcessFixtureBlocks` (lines 172-255), which fill the report's
 * run-information table and fixture list in place. A method returning `false`
 * or `None` stands for an exception escaping it.
 */
module Parser {

  import opened Wrappers
  import opened Text
  import opened TrxModel
  import opened FixtureNames
  import opened TestResults
  import opened Grouping
  import opened OutcomeCounts
  import opened RunInfo

  /** The report: the fields `MsTest2010` assigns, with the run information and the fixtures as sequences. */
  class Report {
    var fileName: string
    var assemblyName: string
    var testRunner: string
    var total: int
    var passed: int
    var failed: int
    var inconclusive: int
    var skipped: int
    var errors: int
    var duration: int
    var status: Status
    var info: seq<Entry>
    var testFixtures: seq<TestSuite>

    /** A new report: empty name fields, zero counters and duration, no run information, no fixtures. */
    constructor ()
      ensures fileName == "" && assemblyName == "" && testRunner == ""
      ensures total == 0 && passed == 0 && failed == 0 && inconclusive == 0 && skipped == 0 && errors == 0
      ensures duration == 0 && status == Passed
      ensures info == [] && testFixtures == []
    {
      fileName, assemblyName, testRunner := "", "", "";
      total, passed, failed, inconclusive, skipped, errors := 0, 0, 0, 0, 0, 0;
      duration := 0;
      status := Passed;
      info := [];
      testFixtures := [];
    }

    /** `RunInfo.Info.Add`: appends the entry, or throws (`ok` false) when the key is present. */
    method AddInfo(key: string, value: string) returns (ok: bool)
      modifies this`info
      ensures ok <==> !HasKey(old(info), key)
      ensures info == if ok then old(info) + [Entry(key, value)] else old(info)
    {
      ok := !HasKey(info, key);
      if ok {
        info := info + [Entry(key, value)];
      }
    }
  }

  /** The outcome attribute of every result, in document order. */
  function Outcomes(results: seq<UnitTestResult>): (r: seq<string>)
    ensures |r| == |results| && forall k :: 0 <= k < |results| ==> r[k] == results[k].outcome
  {
    seq(|results|, k requires 0 <= k < |results| => results[k].outcome)
  }

  /** Lines 89-94: the `Times` difference when the node and both attributes are present; otherwise 0 stays. */
  function RunDuration(times: Option<Times>, lib: Library): int {
    match times
    case None => 0
    case Some(t) =>
      if t.start.Some? && t.finish.Some? then lib.differenceInMilliseconds(t.start.value, t.finish.value) else 0
  }

  /** The first result's `computerName` (line 143); None when there is no result or no attribute. */
  function FirstComputerName(results: seq<UnitTestResult>): Option<string> {
    if |results| == 0 then None else results[0].computerName
  }

  /** Every result's `testId` has a `TestMethod` with a `className` (lines 234-236 do not throw). */
  predicate Resolved(results: seq<UnitTestResult>, classNames: map<string, string>) {
    forall k :: 0 <= k < |results| ==> results[k].testId in classNames
  }

  /** The number of leading results whose `testId` resolves: the loop throws at this index, if it is in range. */
  function FirstUnresolved(results: seq<UnitTestResult>, classNames: map<string, string>): (n: nat)
    ensures n <= |results| && Resolved(results[..n], classNames)
    ensures n < |results| ==> results[n].testId !in classNames
    decreases |results|
  {
    if |results| == 0 || results[0].testId !in classNames then 0
    else
      var n := 1 + FirstUnresolved(results[1..], classNames);
      assert forall k :: 1 <= k < n ==> results[..n][k] == results[1..][..n - 1][k - 1];
      n
  }

  /** Lines 182-236: the test built from one result and the fixture key of its class. */
  function Route(r: UnitTestResult, classNames: map<string, string>, fileBase: string, lib: Library): Routed
    requires r.testId in classNames
  {
    Routed(FixtureName(Some(classNames[r.testId]), fileBase), BuildTest(r, fileBase, lib))
  }

  function Routes(results: seq<UnitTestResult>, classNames: map<string, string>, fileBase: string, lib: Library)
    : (es: seq<Routed>)
    requires Resolved(results, classNames)
    ensures |es| == |results|
    ensures forall k :: 0 <= k < |results| ==> es[k] == Route(results[k], classNames, fileBase, lib)
  {
    seq(|results|, k requires 0 <= k < |results| && Resolved(results, classNames) =>
          Route(results[k], classNames, fileBase, lib))
  }

  /** The loop stops at index `i` exactly when the results before it resolve and `i` does not (or is the end). */
  lemma FirstUnresolvedAt(results: seq<UnitTestResult>, classNames: map<string, string>, i: nat)
    requires i <= |results| && Resolved(results[..i], classNames)
    requires i < |results| ==> results[i].testId !in classNames
    ensures FirstUnresolved(results, classNames) == i
  {
  }

  lemma RoutesSnoc(results: seq<UnitTestResult>, classNames: map<string, string>, fileBase: string, lib: Library, i: nat)
    requires i < |results| && Resolved(results[..i], classNames) && results[i].testId in classNames
    ensures Resolved(results[..i + 1], classNames)
    ensures Routes(results[..i + 1], classNames, fileBase, lib)
            == Routes(results[..i], classNames, fileBase, lib) + [Route(results[i], classNames, fileBase, lib)]
  {
    assert results[..i + 1] == results[..i] + [results[i]];
  }

  /** The conditions under which lines 79-114 run without an exception. */
  predicate Succeeds(doc: Document, testResultFile: string, lib: Library) {
    && doc.firstCodeBase.Some?
    && RunInfoEntries(testResultFile, lib.lastWriteTime(testResultFile), RunDuration(doc.times, lib),
                      doc.testRun, FirstComputerName(doc.results), RunnerName).Some?
    && Resolved(doc.results, doc.classNames)
  }

  /** The report as lines 79-114 leave it when they complete. */
  predicate Filled(r: Report, doc: Document, testResultFile: string, fileBase: string, lib: Library)
    reads r
  {
    && Resolved(doc.results, doc.classNames)
    && doc.firstCodeBase.Some?
    && r.assemblyName == doc.firstCodeBase.value
    && Counted(r, doc.results)
    && r.duration == RunDuration(doc.times, lib)
    && Some(r.info)
       == RunInfoEntries(testResultFile, lib.lastWriteTime(testResultFile), r.duration,
                         doc.testRun, FirstComputerName(doc.results), RunnerName)
    && r.testFixtures == Assemble([], Routes(doc.results, doc.classNames, fileBase, lib), lib)
    && r.status == lib.statusOfTests(Flatten(r.testFixtures))
  }

  /** The report's five outcome counters are those of the results' outcomes. */
  predicate Counted(r: Report, results: seq<UnitTestResult>)
    reads r`passed, r`failed, r`inconclusive, r`skipped, r`errors
  {
    var c := CountOutcomes(Outcomes(results));
    r.passed == c.passed && r.failed == c.failed && r.inconclusive == c.inconclusive
    && r.skipped == c.skipped && r.errors == c.errors
  }

  /**
   * A filled report holds one test per `UnitTestResult` across its fixtures, and its five
   * outcome counters add up to at most Total, to exactly Total when every outcome is recognised.
   */
  lemma FilledReportTotals(r: Report, doc: Document, testResultFile: string, fileBase: string, lib: Library)
    requires Filled(r, doc, testResultFile, fileBase, lib)
    ensures |Flatten(r.testFixtures)| == |doc.results|
    ensures r.passed + r.failed + r.inconclusive + r.skipped + r.errors <= |doc.results|
    ensures r.passed + r.failed + r.inconclusive + r.skipped + r.errors == |doc.results|
            <==> forall k :: 0 <= k < |doc.results| ==> doc.results[k].outcome in KnownOutcomes
  {
    TestCountIsTotal(Routes(doc.results, doc.classNames, fileBase, lib), lib);
    ResultCountsAddUp(doc.results);
  }

  /** `CountsAddUp` stated over the results rather than their outcome strings. */
  lemma ResultCountsAddUp(results: seq<UnitTestResult>)
    ensures var c := CountOutcomes(Outcomes(results));
            && c.passed + c.failed + c.inconclusive + c.skipped + c.errors <= |results|
            && (c.passed + c.failed + c.inconclusive + c.skipped + c.errors == |results|
                <==> forall k :: 0 <= k < |results| ==> results[k].outcome in KnownOutcomes)
  {
    var outcomes := Outcomes(results);
    CountsAddUp(outcomes);
    assert (forall i :: 0 <= i < |outcomes| ==> outcomes[i] in KnownOutcomes)
           <==> forall k :: 0 <= k < |results| ==> results[k].outcome in KnownOutcomes;
  }

  class MsTest2010 {
    var doc: Document
    var testResultFile: string
    var fileNameWithoutExtension: string
    var report: Report?

    /** Lines 47-59 with the XML already loaded: keeps the file name and the document. */
    constructor LoadFile(testResultFile: string, doc: Document)
      ensures this.testResultFile == testResultFile && this.doc == doc
      ensures fileNameWithoutExtension == "" && report == null
    {
      this.testResultFile := testResultFile;
      this.doc := doc;
      fileNameWithoutExtension := "";
      report := null;
    }

    /** Lines 123-165 on a fresh table: the entries of `RunInfoEntries`, or `false` when it throws. */
    method ProcessRunInfo(lib: Library) returns (ok: bool)
      requires report != null && report.info == []
      modifies report`info
      ensures var expected := RunInfoEntries(testResultFile, lib.lastWriteTime(testResultFile), report.duration,
                                             doc.testRun, FirstComputerName(doc.results), RunnerName);
              && (ok <==> expected.Some?)
              && (ok ==> report.info == expected.value)
    {
      var r := report;
      var added := r.AddInfo(FileKey, testResultFile);
      ghost var first := r.info;
      assert first == [Entry(FileKey, testResultFile)];
      var lastRun := lib.lastWriteTime(testResultFile);
      if lastRun.Some? {
        added := r.AddInfo(LastRunKey, lastRun.value);
      }
      assert r.info == if lastRun.Some? then Add(first, LastRunKey, lastRun.value).GetOr(first) else first;
      ghost var withRun := r.info;
      if r.duration > 0 {
        added := r.AddInfo(DurationKey, DurationText(r.duration));
        if !added {
          assert Add(withRun, DurationKey, DurationText(r.duration)).None?;
          return false;
        }
      }
      ghost var start := r.info;
      assert Leading(testResultFile, lastRun, r.duration) == Some(start);
      var threw := false;
      match doc.testRun {
        case None =>
          added := r.AddInfo(RunnerKey, RunnerName);
          threw := !added;
        case Some(tr) =>
          var computerName := FirstComputerName(doc.results);
          threw := EnvironmentBlock(r, tr, computerName);
      }
      assert (if threw then Threw(r.info) else Completed(r.info))
             == Environment(start, doc.testRun, FirstComputerName(doc.results), RunnerName);
      if threw {
        ok := r.AddInfo(RunnerKey, RunnerName);
      } else {
        ok := true;
      }
    }

    /** Lines 141-154: the block for a present `TestRun` node; `threw` when it throws. */
    method EnvironmentBlock(r: Report, tr: TestRun, computerName: Option<string>) returns (threw: bool)
      modifies r`info
      ensures (if threw then Threw(r.info) else Completed(r.info))
              == Environment(old(r.info), Some(tr), computerName, RunnerName)
    {
      if computerName.None? {
        return true;
      }
      var added := r.AddInfo(MachineKey, computerName.value);
      if !added {
        return true;
      }
      added := r.AddInfo(RunnerKey, RunnerName);
      if !added {
        return true;
      }
      if tr.xmlns.None? {
        return true;
      }
      added := r.AddInfo(VersionKey, tr.xmlns.value);
      if !added {
        return true;
      }
      if tr.runUser.None? {
        return true;
      }
      var userInfo := tr.runUser.value;
      if !IsWhiteSpaceOnly(userInfo) {
        added := r.AddInfo(UserKey, LastPiece(userInfo, '\\'));
        if !added {
          return true;
        }
        added := r.AddInfo(DomainKey, FirstPiece(userInfo, '\\'));
        if !added {
          return true;
        }
      }
      return false;
    }

    /**
     * Lines 172-255: every result is built into a test and added to its fixture. The loop
     * stops with `false` at the first result whose class cannot be found; the fixtures
     * then hold the results before it.
     */
    method ProcessFixtureBlocks(lib: Library) returns (ok: bool)
      requires report != null && DistinctNames(report.testFixtures)
      modifies report`testFixtures
      ensures var n := FirstUnresolved(doc.results, doc.classNames);
              && (ok <==> n == |doc.results|)
              && report.testFixtures
                 == Assemble(old(report.testFixtures),
                             Routes(doc.results[..n], doc.classNames, fileNameWithoutExtension, lib), lib)
    {
      var r := report;
      var results := doc.results;
      var fileBase := fileNameWithoutExtension;
      ghost var initial := r.testFixtures;
      var testCount := 0;
      assert results[..0] == [];
      for i := 0 to |results|
        invariant Resolved(results[..i], doc.classNames)
        invariant r.testFixtures == Assemble(initial, Routes(results[..i], doc.classNames, fileBase, lib), lib)
        invariant testCount == i
      {
        var testResult := results[i];
        var tc := BuildTestOf(testResult, fileBase, lib);
        if testResult.testId !in doc.classNames {
          FirstUnresolvedAt(results, doc.classNames, i);
          return false;
        }
        var className := FixtureName(Some(doc.classNames[testResult.testId]), fileBase);
        RoutesSnoc(results, doc.classNames, fileBase, lib, i);
        AddToFixture(r, className, tc, lib);
        testCount := testCount + 1;
      }
      assert results[..|results|] == results;
      FirstUnresolvedAt(results, doc.classNames, |results|);
      ok := true;
    }

    /** Lines 182-231: the test built from one result, its message composed by the nested loops. */
    method BuildTestOf(testResult: UnitTestResult, fileBase: string, lib: Library) returns (tc: Test)
      ensures tc == BuildTest(testResult, fileBase, lib)
    {
      tc := Test(TestName(testResult.testName, fileBase), lib.asStatus(testResult.outcome),
                 TestDuration(testResult, lib), "");
      if |testResult.children| > 0 {
        var msg := ComposeStatusMessage(testResult.children, lib.htmlEncode);
        tc := tc.(statusMessage := msg);
      }
    }

    /** Lines 239-251: find or create the fixture, then add the test's duration, roll up its status and append it. */
    static method AddToFixture(r: Report, className: string, tc: Test, lib: Library)
      requires DistinctNames(r.testFixtures)
      modifies r`testFixtures
      ensures r.testFixtures == AddTest(old(r.testFixtures), className, tc, lib)
    {
      DistinctNeverAmbiguous(r.testFixtures, className);
      var index: nat;
      match SingleOrDefault(r.testFixtures, className) {
        case NotFound =>
          r.testFixtures := r.testFixtures + [TestSuite(className, 0, lib.newSuiteStatus, [])];
          index := |r.testFixtures| - 1;
        case Found(i) =>
          index := i;
      }
      var f := r.testFixtures[index];
      r.testFixtures := r.testFixtures[index := f.(duration := f.duration + tc.duration,
                                                   status := lib.statusOfStatuses([f.status, tc.status]),
                                                   tests := f.tests + [tc])];
    }

    /**
     * Lines 61-117. With no result the report is returned at once with status Passed and
     * nothing else filled in; otherwise `FillReport` fills it. `None` stands for an exception
     * escaping the method.
     */
    method ProcessFile(lib: Library) returns (result: Option<Report>)
      modifies this
      ensures fileNameWithoutExtension == lib.fileNameWithoutExtension(testResultFile)
      ensures report != null && fresh(report)
      ensures report.fileName == testResultFile && report.testRunner == RunnerName
      ensures report.total == |doc.results|
      ensures |doc.results| == 0 ==>
                && result == Some(report) && report.status == Passed
                && report.info == [] && report.testFixtures == []
                && report.assemblyName == "" && report.duration == 0
                && report.passed == report.failed == report.inconclusive == report.skipped == report.errors == 0
      ensures |doc.results| > 0 ==> (result.Some? <==> Succeeds(doc, testResultFile, lib))
      ensures |doc.results| > 0 && result.Some? ==>
                result == Some(report) && Filled(report, doc, testResultFile, fileNameWithoutExtension, lib)
    {
      fileNameWithoutExtension := lib.fileNameWithoutExtension(testResultFile);
      var r := NewReport(testResultFile, |doc.results|);
      report := r;
      if r.total >= 1 {
        var ok := FillReport(lib);
        result := if ok then Some(r) else None;
      } else {
        r.status := Passed;
        result := Some(r);
      }
    }

    /** Lines 66-71: a new report with the file name, the runner and the number of results. */
    static method NewReport(fileName: string, total: nat) returns (r: Report)
      ensures fresh(r)
      ensures r.fileName == fileName && r.testRunner == RunnerName && r.total == total
      ensures r.passed == r.failed == r.inconclusive == r.skipped == r.errors == 0
      ensures r.assemblyName == "" && r.duration == 0 && r.info == [] && r.testFixtures == []
    {
      r := new Report();
      r.fileName := fileName;
      r.testRunner := RunnerName;
      r.total := total;
    }

    /** Lines 83-87: the five outcome counters of the report. */
    static method SetCounts(r: Report, results: seq<UnitTestResult>)
      modifies r`passed, r`failed, r`inconclusive, r`skipped, r`errors
      ensures Counted(r, results)
    {
      var counts := CountOutcomes(Outcomes(results));
      r.passed, r.failed, r.inconclusive := counts.passed, counts.failed, counts.inconclusive;
      r.skipped, r.errors := counts.skipped, counts.errors;
    }

    /**
     * Lines 79-114 on a new report with at least one result: the assembly name, the
     * counters, the duration, the run information, the fixtures and the rolled-up status.
     * `false` when an exception escapes.
     */
    method FillReport(lib: Library) returns (ok: bool)
      requires report != null && report.duration == 0 && report.info == [] && report.testFixtures == []
      modifies report`assemblyName, report`passed, report`failed, report`inconclusive, report`skipped
      modifies report`errors, report`duration, report`info, report`testFixtures, report`status
      ensures ok <==> Succeeds(doc, testResultFile, lib)
      ensures ok ==> Filled(report, doc, testResultFile, fileNameWithoutExtension, lib)
    {
      var r := report;
      if doc.firstCodeBase.None? {
        return false;
      }
      r.assemblyName := doc.firstCodeBase.value;
      SetCounts(r, doc.results);
      SetDuration(r, doc.times, lib);
      ok := ProcessRunInfo(lib);
      if !ok {
        return false;
      }
      ghost var info := r.info;
      ok := ProcessFixtureBlocks(lib);
      if !ok {
        assert !Resolved(doc.results, doc.classNames);
        return false;
      }
      assert doc.results[..|doc.results|] == doc.results;
      assert Resolved(doc.results, doc.classNames);
      r.status := lib.statusOfTests(Flatten(r.testFixtures));
      assert r.info == info;
    }

    /** Lines 89-94: the `Times` difference, when the node and both attributes are present. */
    static method SetDuration(r: Report, times: Option<Times>, lib: Library)
      requires r.duration == 0
      modifies r`duration
      ensures r.duration == RunDuration(times, lib)
    {
      if times.Some? {
        var t := times.value;
        if t.start.Some? && t.finish.Some? {
          r.duration := lib.differenceInMilliseconds(t.start.value, t.finish.value);
        }
      }
    }
  }
}
