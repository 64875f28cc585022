/**
 * Fixture grouping in `ProcessFixtureBlocks` (lines 238-251 of
 * ReportUnit/Parser/MsTest2010.cs): each test is routed to the fixture whose
 * name equals its fixture key ignoring case, a new fixture being appended when
 * there is none; the fixture then accumulates the test's duration, rolls up
 * its status and appends the test.
 *
 * The fixtures are values in a sequence; `AddTest` is one iteration of the
 * loop and `Assemble` the whole loop. The lemmas compare the result with
 * reference definitions over the routed tests alone: first-seen order of the
 * keys, the tests matching each name, their durations and the status rollup.
 */
module Grouping {

  import opened Text
  import opened TrxModel

  /** A built test together with the fixture key computed for it. */
  datatype Routed = Routed(fixture: string, test: Test)

  /** The outcome of `SingleOrDefault`: no match, one match at `index`, or more than one (an exception). */
  datatype Lookup = NotFound | Found(index: nat) | Ambiguous

  /** Line 239: a fixture matches a key when their names are equal ignoring case. */
  predicate Matches(s: TestSuite, key: string) {
    EqualsIgnoreCase(s.name, key)
  }

  /** `SingleOrDefault` over the fixtures with the predicate of line 239. */
  function SingleOrDefault(fs: seq<TestSuite>, key: string): (r: Lookup)
    ensures r.NotFound? <==> forall k :: 0 <= k < |fs| ==> !Matches(fs[k], key)
    ensures r.Found? ==> r.index < |fs| && Matches(fs[r.index], key)
                         && forall k :: 0 <= k < |fs| && k != r.index ==> !Matches(fs[k], key)
    ensures r.Ambiguous? ==> exists j, k :: 0 <= j < k < |fs| && Matches(fs[j], key) && Matches(fs[k], key)
    decreases |fs|
  {
    if |fs| == 0 then NotFound
    else
      var rest := SingleOrDefault(fs[..|fs| - 1], key);
      if !Matches(fs[|fs| - 1], key) then rest
      else if rest.NotFound? then Found(|fs| - 1)
      else Ambiguous
  }

  /** No two fixtures have names that are equal ignoring case. */
  predicate DistinctNames(fs: seq<TestSuite>) {
    forall j, k :: 0 <= j < k < |fs| ==> !EqualsIgnoreCase(fs[j].name, fs[k].name)
  }

  /** With distinct names the lookup of line 239 never throws. */
  lemma DistinctNeverAmbiguous(fs: seq<TestSuite>, key: string)
    requires DistinctNames(fs)
    ensures !SingleOrDefault(fs, key).Ambiguous?
  {
  }

  /** Lines 239-251: one test joins its fixture, which is created first when no fixture matches. */
  function AddTest(fs: seq<TestSuite>, key: string, t: Test, lib: Library): (r: seq<TestSuite>)
    requires DistinctNames(fs)
    ensures |r| == |fs| + 1 <==> forall k :: 0 <= k < |fs| ==> !Matches(fs[k], key)
    ensures |r| == |fs| || |r| == |fs| + 1
    ensures |r| == |fs| + 1 ==>
              r[|fs|] == TestSuite(key, 0 + t.duration, lib.statusOfStatuses([lib.newSuiteStatus, t.status]), [t])
    ensures forall k :: 0 <= k < |fs| && !Matches(fs[k], key) ==> r[k] == fs[k]
    ensures forall k :: 0 <= k < |fs| && Matches(fs[k], key) ==>
              r[k] == fs[k].(duration := fs[k].duration + t.duration,
                             status := lib.statusOfStatuses([fs[k].status, t.status]),
                             tests := fs[k].tests + [t])
    ensures DistinctNames(r)
  {
    DistinctNeverAmbiguous(fs, key);
    match SingleOrDefault(fs, key)
    case NotFound =>
      var created := TestSuite(key, 0, lib.newSuiteStatus, []);
      var r := fs + [created.(duration := created.duration + t.duration,
                              status := lib.statusOfStatuses([created.status, t.status]),
                              tests := created.tests + [t])];
      assert forall j :: 0 <= j < |fs| ==> !EqualsIgnoreCase(r[j].name, r[|fs|].name);
      r
    case Found(i) =>
      fs[i := fs[i].(duration := fs[i].duration + t.duration,
                     status := lib.statusOfStatuses([fs[i].status, t.status]),
                     tests := fs[i].tests + [t])]
  }

  /** The grouping loop: every routed test in order, starting from `fs`. */
  function Assemble(fs: seq<TestSuite>, es: seq<Routed>, lib: Library): (r: seq<TestSuite>)
    requires DistinctNames(fs)
    ensures DistinctNames(r)
    ensures |fs| <= |r|
    ensures forall k :: 0 <= k < |fs| ==> r[k].name == fs[k].name
    decreases |es|
  {
    if |es| == 0 then fs
    else
      var e := es[|es| - 1];
      AddTest(Assemble(fs, es[..|es| - 1], lib), e.fixture, e.test, lib)
  }

  // ---------------------------------------------------------------------
  // Reference definitions over the routed tests

  function Names(fs: seq<TestSuite>): (r: seq<string>)
    ensures |r| == |fs| && forall k :: 0 <= k < |fs| ==> r[k] == fs[k].name
  {
    seq(|fs|, k requires 0 <= k < |fs| => fs[k].name)
  }

  /** Entry `p` is the first whose key equals its own ignoring case. */
  predicate FirstSeen(es: seq<Routed>, p: nat)
    requires p < |es|
  {
    forall q :: 0 <= q < p ==> !EqualsIgnoreCase(es[q].fixture, es[p].fixture)
  }

  /** The keys of the first-seen entries, in entry order. */
  function FirstSeenKeys(es: seq<Routed>): seq<string>
    decreases |es|
  {
    if |es| == 0 then []
    else if FirstSeen(es, |es| - 1) then FirstSeenKeys(es[..|es| - 1]) + [es[|es| - 1].fixture]
    else FirstSeenKeys(es[..|es| - 1])
  }

  /** The tests whose key equals `name` ignoring case, in entry order. */
  function Matching(es: seq<Routed>, name: string): (r: seq<Test>)
    ensures |r| <= |es|
    decreases |es|
  {
    if |es| == 0 then []
    else if EqualsIgnoreCase(es[|es| - 1].fixture, name) then Matching(es[..|es| - 1], name) + [es[|es| - 1].test]
    else Matching(es[..|es| - 1], name)
  }

  function SumDurations(ts: seq<Test>): int
    decreases |ts|
  {
    if |ts| == 0 then 0 else SumDurations(ts[..|ts| - 1]) + ts[|ts| - 1].duration
  }

  /** The status a fixture holds after its tests were rolled up one by one from a fresh suite's status. */
  function Rollup(ts: seq<Test>, lib: Library): Status
    decreases |ts|
  {
    if |ts| == 0 then lib.newSuiteStatus
    else lib.statusOfStatuses([Rollup(ts[..|ts| - 1], lib), ts[|ts| - 1].status])
  }

  /** Every test of every fixture, fixture by fixture (the `SelectMany` of line 99). */
  function Flatten(fs: seq<TestSuite>): seq<Test>
    decreases |fs|
  {
    if |fs| == 0 then [] else Flatten(fs[..|fs| - 1]) + fs[|fs| - 1].tests
  }

  // ---------------------------------------------------------------------
  // Properties of the grouping loop

  /** Every fixture's name is the key of some routed entry: the witness `q`. */
  lemma {:induction false} FixtureFromEntry(es: seq<Routed>, lib: Library, k: nat) returns (q: nat)
    requires k < |Assemble([], es, lib)|
    ensures q < |es| && es[q].fixture == Assemble([], es, lib)[k].name
    decreases |es|
  {
    var init := es[..|es| - 1];
    var e := es[|es| - 1];
    var fs := Assemble([], init, lib);
    assert Assemble([], es, lib) == AddTest(fs, e.fixture, e.test, lib);
    if k == |fs| {
      q := |es| - 1;
    } else {
      q := FixtureFromEntry(init, lib, k);
      assert es[q] == init[q];
    }
  }

  /** Every routed entry's key matches some fixture: the witness `k`. */
  lemma {:induction false} EntryHasFixture(es: seq<Routed>, lib: Library, q: nat) returns (k: nat)
    requires q < |es|
    ensures k < |Assemble([], es, lib)| && Matches(Assemble([], es, lib)[k], es[q].fixture)
    decreases |es|
  {
    var init := es[..|es| - 1];
    if q < |init| {
      k := EntryHasFixture(init, lib, q);
      AssembleStepKeepsName(es, lib, k);
      assert es[q] == init[q];
    } else {
      k := LastEntryHasFixture(es, lib);
    }
  }

  /** A step of the loop keeps the name of every fixture already there. */
  lemma AssembleStepKeepsName(es: seq<Routed>, lib: Library, k: nat)
    requires |es| > 0 && k < |Assemble([], es[..|es| - 1], lib)|
    ensures k < |Assemble([], es, lib)|
    ensures Assemble([], es, lib)[k].name == Assemble([], es[..|es| - 1], lib)[k].name
  {
    var fs := Assemble([], es[..|es| - 1], lib);
    var e := es[|es| - 1];
    assert Assemble([], es, lib) == AddTest(fs, e.fixture, e.test, lib);
  }

  /** The key of the entry just added matches some fixture. */
  lemma LastEntryHasFixture(es: seq<Routed>, lib: Library) returns (k: nat)
    requires |es| > 0
    ensures k < |Assemble([], es, lib)| && Matches(Assemble([], es, lib)[k], es[|es| - 1].fixture)
  {
    var fs := Assemble([], es[..|es| - 1], lib);
    var e := es[|es| - 1];
    var r := Assemble([], es, lib);
    assert r == AddTest(fs, e.fixture, e.test, lib);
    if |r| == |fs| + 1 {
      k := |fs|;
    } else {
      k :| 0 <= k < |fs| && Matches(fs[k], e.fixture);
    }
  }

  /** A key matches some assembled fixture exactly when it matches some routed entry. */
  lemma AssembleCovers(es: seq<Routed>, lib: Library, key: string)
    ensures var r := Assemble([], es, lib);
            (exists k :: 0 <= k < |r| && Matches(r[k], key)) <==>
            (exists q :: 0 <= q < |es| && EqualsIgnoreCase(es[q].fixture, key))
  {
    var r := Assemble([], es, lib);
    if k :| 0 <= k < |r| && Matches(r[k], key) {
      var q := FixtureFromEntry(es, lib, k);
    }
    if q :| 0 <= q < |es| && EqualsIgnoreCase(es[q].fixture, key) {
      var k := EntryHasFixture(es, lib, q);
      assert Matches(r[k], key);
    }
  }

  /** Fixtures appear in the order their keys are first seen. */
  lemma {:induction false} FixturesInFirstSeenOrder(es: seq<Routed>, lib: Library)
    ensures Names(Assemble([], es, lib)) == FirstSeenKeys(es)
    decreases |es|
  {
    if |es| > 0 {
      var init := es[..|es| - 1];
      var e := es[|es| - 1];
      var fs := Assemble([], init, lib);
      var r := Assemble([], es, lib);
      assert r == AddTest(fs, e.fixture, e.test, lib);
      FixturesInFirstSeenOrder(init, lib);
      CreatesIffFirstSeen(es, lib);
      if |r| == |fs| + 1 {
        assert Names(r) == Names(fs) + [e.fixture];
      } else {
        assert Names(r) == Names(fs);
      }
    }
  }

  /** The last routed test creates a fixture exactly when its key is seen for the first time. */
  lemma CreatesIffFirstSeen(es: seq<Routed>, lib: Library)
    requires |es| > 0
    ensures |Assemble([], es, lib)| == |Assemble([], es[..|es| - 1], lib)| + 1 <==> FirstSeen(es, |es| - 1)
  {
    var init := es[..|es| - 1];
    var e := es[|es| - 1];
    var fs := Assemble([], init, lib);
    var r := Assemble([], es, lib);
    assert r == AddTest(fs, e.fixture, e.test, lib);
    if !FirstSeen(es, |es| - 1) {
      var q :| 0 <= q < |es| - 1 && EqualsIgnoreCase(es[q].fixture, e.fixture);
      assert init[q] == es[q];
      var k := EntryHasFixture(init, lib, q);
      assert Matches(fs[k], e.fixture);
    } else if |r| == |fs| {
      var k :| 0 <= k < |fs| && Matches(fs[k], e.fixture);
      var q := FixtureFromEntry(init, lib, k);
    }
  }

  /** Each fixture holds exactly the tests routed to its name, in order. */
  lemma {:induction false} FixtureHoldsMatching(es: seq<Routed>, lib: Library, k: nat)
    requires k < |Assemble([], es, lib)|
    ensures var r := Assemble([], es, lib);
            r[k].tests == Matching(es, r[k].name)
    decreases |es|
  {
    var init := es[..|es| - 1];
    var e := es[|es| - 1];
    var fs := Assemble([], init, lib);
    var r := Assemble([], es, lib);
    assert r == AddTest(fs, e.fixture, e.test, lib);
    if k == |fs| {
      AssembleCovers(init, lib, e.fixture);
      MatchingEmpty(init, e.fixture);
      assert Matching(es, e.fixture) == Matching(init, e.fixture) + [e.test];
    } else {
      FixtureHoldsMatching(init, lib, k);
      if Matches(fs[k], e.fixture) {
        assert Matching(es, fs[k].name) == Matching(init, fs[k].name) + [e.test];
      } else {
        assert Matching(es, fs[k].name) == Matching(init, fs[k].name);
      }
    }
  }

  lemma {:induction false} MatchingEmpty(es: seq<Routed>, name: string)
    requires forall q :: 0 <= q < |es| ==> !EqualsIgnoreCase(es[q].fixture, name)
    ensures Matching(es, name) == []
    decreases |es|
  {
    if |es| > 0 {
      MatchingEmpty(es[..|es| - 1], name);
    }
  }

  /** A fixture's duration is the sum of its tests' durations and its status their rollup. */
  predicate Consistent(s: TestSuite, lib: Library) {
    s.duration == SumDurations(s.tests) && s.status == Rollup(s.tests, lib)
  }

  lemma {:induction false} AssembleConsistent(es: seq<Routed>, lib: Library, k: nat)
    requires k < |Assemble([], es, lib)|
    ensures Consistent(Assemble([], es, lib)[k], lib)
    decreases |es|
  {
    var init := es[..|es| - 1];
    var e := es[|es| - 1];
    var fs := Assemble([], init, lib);
    var r := Assemble([], es, lib);
    assert r == AddTest(fs, e.fixture, e.test, lib);
    if k == |fs| {
      assert [e.test][..0] == [];
    } else {
      AssembleConsistent(init, lib, k);
      if Matches(fs[k], e.fixture) {
        assert (fs[k].tests + [e.test])[..|fs[k].tests|] == fs[k].tests;
      }
    }
  }

  lemma {:induction false} FlattenUpdate(fs: seq<TestSuite>, i: nat, s: TestSuite)
    requires i < |fs|
    ensures multiset(Flatten(fs[i := s])) == multiset(Flatten(fs)) - multiset(fs[i].tests) + multiset(s.tests)
    decreases |fs|
  {
    var n := |fs| - 1;
    var g := fs[i := s];
    assert g[..n] == if i == n then fs[..n] else fs[..n][i := s];
    if i < n {
      FlattenUpdate(fs[..n], i, s);
      assert multiset(Flatten(fs[..n])) >= multiset(fs[i].tests) by {
        FlattenContains(fs[..n], i);
      }
    }
  }

  lemma {:induction false} FlattenContains(fs: seq<TestSuite>, i: nat)
    requires i < |fs|
    ensures multiset(Flatten(fs)) >= multiset(fs[i].tests)
    decreases |fs|
  {
    if i < |fs| - 1 {
      FlattenContains(fs[..|fs| - 1], i);
    }
  }

  /** Every routed test lands in exactly one fixture: the fixtures' tests are the routed tests, as a multiset. */
  lemma {:induction false} AssemblePreservesTests(es: seq<Routed>, lib: Library)
    ensures multiset(Flatten(Assemble([], es, lib))) == multiset(TestsOf(es))
    decreases |es|
  {
    if |es| > 0 {
      var init := es[..|es| - 1];
      AssemblePreservesTests(init, lib);
      AssembleStepTests(es, lib);
      TestsOfSnoc(es);
    }
  }

  lemma AssembleStepTests(es: seq<Routed>, lib: Library)
    requires |es| > 0
    ensures multiset(Flatten(Assemble([], es, lib)))
            == multiset(Flatten(Assemble([], es[..|es| - 1], lib))) + multiset{es[|es| - 1].test}
  {
    var e := es[|es| - 1];
    AddTestFlatten(Assemble([], es[..|es| - 1], lib), e.fixture, e.test, lib);
  }

  /** One step of the loop adds its test to the multiset of all fixtures' tests. */
  lemma AddTestFlatten(fs: seq<TestSuite>, key: string, t: Test, lib: Library)
    requires DistinctNames(fs)
    ensures multiset(Flatten(AddTest(fs, key, t, lib))) == multiset(Flatten(fs)) + multiset{t}
  {
    if k :| 0 <= k < |fs| && Matches(fs[k], key) {
      AddTestFlattenFound(fs, key, t, lib, k);
    } else {
      var r := AddTest(fs, key, t, lib);
      assert r[..|fs|] == fs;
    }
  }

  /** The step that joins an existing fixture: only that fixture's tests grow. */
  lemma AddTestFlattenFound(fs: seq<TestSuite>, key: string, t: Test, lib: Library, k: nat)
    requires DistinctNames(fs) && k < |fs| && Matches(fs[k], key)
    ensures multiset(Flatten(AddTest(fs, key, t, lib))) == multiset(Flatten(fs)) + multiset{t}
  {
    var r := AddTest(fs, key, t, lib);
    AddTestFoundShape(fs, key, t, lib, k);
    FlattenUpdate(fs, k, r[k]);
    FlattenContains(fs, k);
  }

  /** Joining an existing fixture replaces that one fixture and nothing else. */
  lemma AddTestFoundShape(fs: seq<TestSuite>, key: string, t: Test, lib: Library, k: nat)
    requires DistinctNames(fs) && k < |fs| && Matches(fs[k], key)
    ensures |AddTest(fs, key, t, lib)| == |fs|
    ensures AddTest(fs, key, t, lib) == fs[k := AddTest(fs, key, t, lib)[k]]
    ensures AddTest(fs, key, t, lib)[k].tests == fs[k].tests + [t]
  {
    var r := AddTest(fs, key, t, lib);
    assert r == fs[k := r[k]];
  }

  lemma TestsOfSnoc(es: seq<Routed>)
    requires |es| > 0
    ensures multiset(TestsOf(es)) == multiset(TestsOf(es[..|es| - 1])) + multiset{es[|es| - 1].test}
  {
    assert TestsOf(es) == TestsOf(es[..|es| - 1]) + [es[|es| - 1].test];
  }

  function TestsOf(es: seq<Routed>): (r: seq<Test>)
    ensures |r| == |es| && forall q :: 0 <= q < |es| ==> r[q] == es[q].test
  {
    seq(|es|, q requires 0 <= q < |es| => es[q].test)
  }

  /** The number of tests in all fixtures equals the number of routed tests (the report's Total). */
  lemma TestCountIsTotal(es: seq<Routed>, lib: Library)
    ensures |Flatten(Assemble([], es, lib))| == |es|
  {
    AssemblePreservesTests(es, lib);
    assert |multiset(Flatten(Assemble([], es, lib)))| == |multiset(TestsOf(es))|;
  }
}
