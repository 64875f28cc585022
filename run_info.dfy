/**
 * The run-information table built by `ProcessRunInfo` (lines 123-165 of
 * ReportUnit/Parser/MsTest2010.cs).
 *
 * `RunInfo.Info` is a dictionary: `Add` throws when the key is already
 * present, which the model writes as `None`. Entries are kept in insertion
 * order. The environment block (lines 136-159) is an `Attempt` that either
 * completes or throws part-way, keeping the entries it added so far; a throw
 * is caught and "TestRunner" added once more, which itself throws when the
 * block had already added that key.
 */
module RunInfo {

  import opened Wrappers
  import opened Text
  import opened TrxModel

  datatype Entry = Entry(key: string, value: string)

  const FileKey: string := "TestResult File"
  const LastRunKey: string := "Last Run"
  const DurationKey: string := "Duration"
  const MachineKey: string := "Machine Name"
  const RunnerKey: string := "TestRunner"
  const VersionKey: string := "TestRunner Version"
  const UserKey: string := "User"
  const DomainKey: string := "User Domain"

  predicate HasKey(info: seq<Entry>, key: string) {
    exists k :: 0 <= k < |info| && info[k].key == key
  }

  predicate DistinctKeys(info: seq<Entry>) {
    forall j, k :: 0 <= j < k < |info| ==> info[j].key != info[k].key
  }

  /** `Dictionary.Add`: appends the entry, or throws (None) when the key is already present. */
  function Add(info: seq<Entry>, key: string, value: string): (r: Option<seq<Entry>>)
    ensures r.None? <==> HasKey(info, key)
    ensures r.Some? ==> r.value == info + [Entry(key, value)]
    ensures r.Some? && DistinctKeys(info) ==> DistinctKeys(r.value)
  {
    if HasKey(info, key) then None else Some(info + [Entry(key, value)])
  }

  /** A block of `Add` calls inside `try`: finished, or thrown with the entries added before the throw. */
  datatype Attempt = Completed(info: seq<Entry>) | Threw(info: seq<Entry>)

  /** One `Add` inside the block; nothing more happens once the block has thrown. */
  function Try(a: Attempt, key: string, value: string): (r: Attempt)
    ensures a.Threw? ==> r == a
    ensures a.Completed? ==> (r.Completed? <==> !HasKey(a.info, key))
    ensures r.Completed? ==> r.info == a.info + [Entry(key, value)]
    ensures r.Threw? ==> r.info == a.info
  {
    match a
    case Threw(_) => a
    case Completed(info) =>
      match Add(info, key, value)
      case None => Threw(info)
      case Some(next) => Completed(next)
  }

  /** A null attribute dereferenced inside the block: it throws with the entries added so far. */
  function Throw(a: Attempt): Attempt {
    Threw(a.info)
  }

  /** Line 134: `string.Format("{0} ms", duration)` for whole milliseconds. */
  function DurationText(duration: int): string {
    IntToString(duration) + " ms"
  }

  /**
   * Lines 136-159: the environment block. `testRun` is the `TestRun` node, `computerName`
   * the first result's `computerName` attribute.
   */
  function Environment(info: seq<Entry>, testRun: Option<TestRun>, computerName: Option<string>,
                       runner: string): Attempt
  {
    var a := Completed(info);
    match testRun
    case None => Try(a, RunnerKey, runner)
    case Some(tr) =>
      var a := if computerName.None? then Throw(a) else Try(a, MachineKey, computerName.value);
      var a := Try(a, RunnerKey, runner);
      var a := if tr.xmlns.None? then Throw(a) else Try(a, VersionKey, tr.xmlns.value);
      if tr.runUser.None? then Throw(a)
      else if IsWhiteSpaceOnly(tr.runUser.value) then a
      else
        var user := tr.runUser.value;
        Try(Try(a, UserKey, LastPiece(user, '\\')), DomainKey, FirstPiece(user, '\\'))
  }

  /**
   * Lines 125-134 on an empty table: the result file, the last-write time (a throw there is
   * swallowed) and the duration when positive; None when an `Add` throws.
   */
  function Leading(file: string, lastRun: Option<string>, duration: int): Option<seq<Entry>> {
    var info := [Entry(FileKey, file)];
    var info := if lastRun.Some? then Add(info, LastRunKey, lastRun.value).GetOr(info) else info;
    if duration > 0 then Add(info, DurationKey, DurationText(duration)) else Some(info)
  }

  /**
   * Lines 125-164: the entries `ProcessRunInfo` leaves, or None when it throws. `lastRun`
   * is the formatted last-write time, None when reading it threw.
   */
  function RunInfoEntries(file: string, lastRun: Option<string>, duration: int,
                          testRun: Option<TestRun>, computerName: Option<string>, runner: string)
    : Option<seq<Entry>>
  {
    match Leading(file, lastRun, duration)
    case None => None
    case Some(info) => Caught(Environment(info, testRun, computerName, runner), runner)
  }

  /** Lines 160-163: a throw in the block is caught and "TestRunner" added, which throws again when present. */
  function Caught(a: Attempt, runner: string): Option<seq<Entry>> {
    match a
    case Completed(info) => Some(info)
    case Threw(info) => Add(info, RunnerKey, runner)
  }

  // ---------------------------------------------------------------------
  // The table written out case by case

  /** The entries added before the environment block: the result file, then the optional ones. */
  function LeadingEntries(file: string, lastRun: Option<string>, duration: int): seq<Entry> {
    var withRun := if lastRun.Some? then [Entry(FileKey, file)] + [Entry(LastRunKey, lastRun.value)]
                   else [Entry(FileKey, file)];
    if duration > 0 then withRun + [Entry(DurationKey, DurationText(duration))] else withRun
  }

  /**
   * What the environment block and its catch leave after the leading entries: "TestRunner"
   * alone when there is no `TestRun` node or no `computerName` (the catch adds it), a throw
   * when `xmlns` or `runUser` is missing after "TestRunner" was added, and otherwise the
   * machine, runner and version entries followed by the user entries for a non-blank user.
   */
  function EnvironmentEntries(testRun: Option<TestRun>, computerName: Option<string>, runner: string)
    : Option<seq<Entry>>
  {
    if testRun.None? || computerName.None? then Some([Entry(RunnerKey, runner)])
    else
      var tr := testRun.value;
      if tr.xmlns.None? || tr.runUser.None? then None
      else
        var env := [Entry(MachineKey, computerName.value), Entry(RunnerKey, runner), Entry(VersionKey, tr.xmlns.value)];
        var user := tr.runUser.value;
        if IsWhiteSpaceOnly(user) then Some(env)
        else Some(env + [Entry(UserKey, LastPiece(user, '\\')), Entry(DomainKey, FirstPiece(user, '\\'))])
  }

  function ClosedForm(file: string, lastRun: Option<string>, duration: int,
                      testRun: Option<TestRun>, computerName: Option<string>, runner: string)
    : Option<seq<Entry>>
  {
    match EnvironmentEntries(testRun, computerName, runner)
    case None => None
    case Some(tail) => Some(LeadingEntries(file, lastRun, duration) + tail)
  }

  // ---------------------------------------------------------------------
  // Key order

  /** The position of each key in the order `ProcessRunInfo` adds them. */
  function Rank(key: string): nat {
    if key == FileKey then 0
    else if key == LastRunKey then 1
    else if key == DurationKey then 2
    else if key == MachineKey then 3
    else if key == RunnerKey then 4
    else if key == VersionKey then 5
    else if key == UserKey then 6
    else if key == DomainKey then 7
    else 8
  }

  /** The keys are known ones and appear in the fixed order, each at most once. */
  predicate InKeyOrder(info: seq<Entry>) {
    && (forall k :: 0 <= k < |info| ==> Rank(info[k].key) < 8)
    && (forall j, k :: 0 <= j < k < |info| ==> Rank(info[j].key) < Rank(info[k].key))
  }

  /** The eight keys are different strings. */
  lemma KeysDiffer()
    ensures Rank(FileKey) == 0 && Rank(LastRunKey) == 1 && Rank(DurationKey) == 2 && Rank(MachineKey) == 3
    ensures Rank(RunnerKey) == 4 && Rank(VersionKey) == 5 && Rank(UserKey) == 6 && Rank(DomainKey) == 7
  {
    assert LastRunKey[0] != DurationKey[0];
  }

  /** Every key in `info` ranks below `bound`. */
  predicate RanksBelow(info: seq<Entry>, bound: nat) {
    forall k :: 0 <= k < |info| ==> Rank(info[k].key) < bound
  }

  /** Every key in `info` ranks at least `bound`. */
  predicate RanksFrom(info: seq<Entry>, bound: nat) {
    forall k :: 0 <= k < |info| ==> Rank(info[k].key) >= bound
  }

  lemma HasKeyConcat(a: seq<Entry>, b: seq<Entry>, key: string)
    ensures HasKey(a + b, key) <==> HasKey(a, key) || HasKey(b, key)
  {
    if HasKey(a, key) {
      var k :| 0 <= k < |a| && a[k].key == key;
      assert (a + b)[k] == a[k];
    }
    if HasKey(b, key) {
      var k :| 0 <= k < |b| && b[k].key == key;
      assert (a + b)[|a| + k] == b[k];
    }
    if HasKey(a + b, key) {
      var k :| 0 <= k < |a + b| && (a + b)[k].key == key;
      if k < |a| {
        assert a[k] == (a + b)[k];
      } else {
        assert b[k - |a|] == (a + b)[k];
      }
    }
  }

  lemma RanksBelowNotHas(info: seq<Entry>, key: string)
    requires RanksBelow(info, Rank(key))
    ensures !HasKey(info, key)
  {
  }

  lemma ConcatInOrder(a: seq<Entry>, b: seq<Entry>, bound: nat)
    requires InKeyOrder(a) && InKeyOrder(b) && RanksBelow(a, bound) && RanksFrom(b, bound)
    ensures InKeyOrder(a + b)
  {
    forall j, k | 0 <= j < k < |a + b|
      ensures Rank((a + b)[j].key) < Rank((a + b)[k].key)
    {
      if k < |a| {
        assert (a + b)[j] == a[j] && (a + b)[k] == a[k];
      } else if j < |a| {
        assert (a + b)[j] == a[j] && (a + b)[k] == b[k - |a|];
      } else {
        assert (a + b)[j] == b[j - |a|] && (a + b)[k] == b[k - |a|];
      }
    }
  }

  lemma LeadingInOrder(file: string, lastRun: Option<string>, duration: int)
    ensures var lead := LeadingEntries(file, lastRun, duration);
            && |lead| > 0 && lead[0] == Entry(FileKey, file)
            && InKeyOrder(lead) && RanksBelow(lead, 3)
            && (HasKey(lead, LastRunKey) <==> lastRun.Some?)
            && (HasKey(lead, DurationKey) <==> duration > 0)
            && (Entry(DurationKey, DurationText(duration)) in lead <==> duration > 0)
  {
    KeysDiffer();
    var lead := LeadingEntries(file, lastRun, duration);
    if lastRun.Some? {
      assert lead[1].key == LastRunKey;
    }
    if duration > 0 {
      assert lead[|lead| - 1].key == DurationKey;
    }
  }

  lemma EnvironmentInOrder(testRun: Option<TestRun>, computerName: Option<string>, runner: string)
    ensures var t := EnvironmentEntries(testRun, computerName, runner);
            t.Some? ==> InKeyOrder(t.value) && RanksFrom(t.value, 3) && Entry(RunnerKey, runner) in t.value
  {
    KeysDiffer();
  }

  // ---------------------------------------------------------------------
  // Properties of the table

  /** The leading `Add` calls never meet a present key. */
  lemma LeadingAdded(file: string, lastRun: Option<string>, duration: int)
    ensures Leading(file, lastRun, duration) == Some(LeadingEntries(file, lastRun, duration))
  {
    KeysDiffer();
    var first := [Entry(FileKey, file)];
    assert !HasKey(first, LastRunKey);
    if lastRun.Some? {
      HasKeyConcat(first, [Entry(LastRunKey, lastRun.value)], DurationKey);
    }
  }

  /** Without a `TestRun` node the block adds "TestRunner"; without `computerName` it throws before adding anything. */
  lemma EnvironmentShort(info: seq<Entry>, testRun: Option<TestRun>, computerName: Option<string>, runner: string)
    requires RanksBelow(info, 3)
    requires testRun.None? || computerName.None?
    ensures testRun.None? ==> Environment(info, testRun, computerName, runner) == Completed(info + [Entry(RunnerKey, runner)])
    ensures testRun.Some? ==> Environment(info, testRun, computerName, runner) == Threw(info)
  {
    KeysDiffer();
    RanksBelowNotHas(info, RunnerKey);
  }

  /**
   * With a `TestRun` node and a `computerName` the block adds the machine and the runner, then throws
   * at a missing attribute or adds the version and, for a non-blank user, the user entries.
   */
  lemma EnvironmentFull(info: seq<Entry>, tr: TestRun, computerName: string, runner: string)
    requires RanksBelow(info, 3)
    ensures var a := Environment(info, Some(tr), Some(computerName), runner);
            var mr := info + [Entry(MachineKey, computerName)] + [Entry(RunnerKey, runner)];
            var mrv := mr + [Entry(VersionKey, tr.xmlns.GetOr(""))];
            && (tr.xmlns.None? ==> a == Threw(mr))
            && (tr.xmlns.Some? && tr.runUser.None? ==> a == Threw(mrv))
            && (tr.xmlns.Some? && tr.runUser.Some? && IsWhiteSpaceOnly(tr.runUser.value) ==> a == Completed(mrv))
            && (tr.xmlns.Some? && tr.runUser.Some? && !IsWhiteSpaceOnly(tr.runUser.value) ==>
                  a == Completed(mrv + [Entry(UserKey, LastPiece(tr.runUser.value, '\\'))]
                                     + [Entry(DomainKey, FirstPiece(tr.runUser.value, '\\'))]))
  {
    KeysDiffer();
    RanksBelowNotHas(info, MachineKey);
    var m := info + [Entry(MachineKey, computerName)];
    assert RanksBelow(m, 4);
    RanksBelowNotHas(m, RunnerKey);
    var mr := m + [Entry(RunnerKey, runner)];
    assert RanksBelow(mr, 5);
    RanksBelowNotHas(mr, VersionKey);
    if tr.xmlns.Some? && tr.runUser.Some? {
      var mrv := mr + [Entry(VersionKey, tr.xmlns.value)];
      assert RanksBelow(mrv, 6);
      RanksBelowNotHas(mrv, UserKey);
      var u := mrv + [Entry(UserKey, LastPiece(tr.runUser.value, '\\'))];
      assert RanksBelow(u, 7);
      RanksBelowNotHas(u, DomainKey);
    }
  }

  /** The dictionary semantics agree with the case-by-case table: no `Add` but the catch's can meet a present key. */
  lemma RunInfoClosedForm(file: string, lastRun: Option<string>, duration: int,
                          testRun: Option<TestRun>, computerName: Option<string>, runner: string)
    ensures RunInfoEntries(file, lastRun, duration, testRun, computerName, runner)
            == ClosedForm(file, lastRun, duration, testRun, computerName, runner)
  {
    var lead := LeadingEntries(file, lastRun, duration);
    LeadingAdded(file, lastRun, duration);
    LeadingInOrder(file, lastRun, duration);
    if testRun.None? || computerName.None? {
      EnvironmentShort(lead, testRun, computerName, runner);
      KeysDiffer();
      RanksBelowNotHas(lead, RunnerKey);
    } else {
      FullRunClosedForm(lead, testRun.value, computerName.value, runner);
    }
  }

  /** `RunInfoClosedForm` when the `TestRun` node and `computerName` are present. */
  lemma FullRunClosedForm(lead: seq<Entry>, tr: TestRun, computerName: string, runner: string)
    requires RanksBelow(lead, 3)
    ensures var t := EnvironmentEntries(Some(tr), Some(computerName), runner);
            Caught(Environment(lead, Some(tr), Some(computerName), runner), runner)
            == if t.None? then None else Some(lead + t.value)
  {
    EnvironmentFull(lead, tr, computerName, runner);
    var mr := lead + [Entry(MachineKey, computerName)] + [Entry(RunnerKey, runner)];
    assert mr[|mr| - 1].key == RunnerKey;
    if tr.xmlns.Some? {
      var mrv := mr + [Entry(VersionKey, tr.xmlns.value)];
      var env := [Entry(MachineKey, computerName), Entry(RunnerKey, runner), Entry(VersionKey, tr.xmlns.value)];
      assert mrv == lead + env;
      assert tr.xmlns.GetOr("") == tr.xmlns.value;
      assert mrv[|mr| - 1].key == RunnerKey;
      if tr.runUser.Some? && !IsWhiteSpaceOnly(tr.runUser.value) {
        var u := [Entry(UserKey, LastPiece(tr.runUser.value, '\\')), Entry(DomainKey, FirstPiece(tr.runUser.value, '\\'))];
        assert mrv + [u[0]] + [u[1]] == lead + (env + u);
      }
    }
  }

  /**
   * `ProcessRunInfo` throws exactly when the `TestRun` node and the first result's
   * `computerName` are present but `xmlns` or `runUser` is missing: the block has then
   * added "TestRunner" and the catch adds it a second time.
   */
  lemma RunInfoFailsIff(file: string, lastRun: Option<string>, duration: int,
                        testRun: Option<TestRun>, computerName: Option<string>, runner: string)
    ensures RunInfoEntries(file, lastRun, duration, testRun, computerName, runner).None?
            <==> testRun.Some? && computerName.Some? && (testRun.value.xmlns.None? || testRun.value.runUser.None?)
  {
    RunInfoClosedForm(file, lastRun, duration, testRun, computerName, runner);
  }

  /** On success the table starts with the result file, names the runner, and holds its keys once each in the fixed order. */
  lemma RunInfoShape(file: string, lastRun: Option<string>, duration: int,
                     testRun: Option<TestRun>, computerName: Option<string>, runner: string)
    ensures var r := RunInfoEntries(file, lastRun, duration, testRun, computerName, runner);
            r.Some? ==> && |r.value| > 0 && r.value[0] == Entry(FileKey, file) && InKeyOrder(r.value)
                        && Entry(RunnerKey, runner) in r.value
  {
    RunInfoClosedForm(file, lastRun, duration, testRun, computerName, runner);
    LeadingInOrder(file, lastRun, duration);
    EnvironmentInOrder(testRun, computerName, runner);
    var t := EnvironmentEntries(testRun, computerName, runner);
    if t.Some? {
      ConcatInOrder(LeadingEntries(file, lastRun, duration), t.value, 3);
    }
  }

  /** "Duration" is present exactly when the run's duration is positive, and "Last Run" exactly when it was read. */
  lemma OptionalEntries(file: string, lastRun: Option<string>, duration: int,
                        testRun: Option<TestRun>, computerName: Option<string>, runner: string)
    ensures var r := RunInfoEntries(file, lastRun, duration, testRun, computerName, runner);
            r.Some? ==>
              && (Entry(DurationKey, DurationText(duration)) in r.value <==> duration > 0)
              && (HasKey(r.value, DurationKey) <==> duration > 0)
              && (HasKey(r.value, LastRunKey) <==> lastRun.Some?)
  {
    RunInfoClosedForm(file, lastRun, duration, testRun, computerName, runner);
    LeadingInOrder(file, lastRun, duration);
    EnvironmentInOrder(testRun, computerName, runner);
    var lead := LeadingEntries(file, lastRun, duration);
    var t := EnvironmentEntries(testRun, computerName, runner);
    if t.Some? {
      KeysDiffer();
      HasKeyConcat(lead, t.value, DurationKey);
      HasKeyConcat(lead, t.value, LastRunKey);
      assert Entry(DurationKey, DurationText(duration)) !in t.value;
    }
  }

  /**
   * With a complete `TestRun` node the user entries are present exactly when `runUser` is
   * not blank; "User" is the part after the last backslash, "User Domain" the part before the first.
   */
  lemma UserEntries(file: string, lastRun: Option<string>, duration: int,
                    xmlns: string, user: string, computerName: string, runner: string)
    ensures var r := RunInfoEntries(file, lastRun, duration, Some(TestRun(Some(xmlns), Some(user))),
                                    Some(computerName), runner);
            && r.Some?
            && Entry(MachineKey, computerName) in r.value
            && Entry(VersionKey, xmlns) in r.value
            && (HasKey(r.value, UserKey) <==> !IsWhiteSpaceOnly(user))
            && (!IsWhiteSpaceOnly(user) ==> Entry(UserKey, LastPiece(user, '\\')) in r.value
                                            && Entry(DomainKey, FirstPiece(user, '\\')) in r.value)
  {
    var testRun := Some(TestRun(Some(xmlns), Some(user)));
    RunInfoClosedForm(file, lastRun, duration, testRun, Some(computerName), runner);
    LeadingInOrder(file, lastRun, duration);
    var lead := LeadingEntries(file, lastRun, duration);
    var t := EnvironmentEntries(testRun, Some(computerName), runner).value;
    KeysDiffer();
    HasKeyConcat(lead, t, UserKey);
    RanksBelowNotHas(lead, UserKey);
    if IsWhiteSpaceOnly(user) {
      assert RanksBelow(t, 6);
      RanksBelowNotHas(t, UserKey);
    } else {
      assert t[3].key == UserKey;
    }
  }

  /** "DOMAIN\name" splits back into its domain and its name. */
  lemma DomainUserSplit(domain: string, name: string)
    requires '\\' !in domain && '\\' !in name
    ensures FirstPiece(domain + "\\" + name, '\\') == domain
    ensures LastPiece(domain + "\\" + name, '\\') == name
  {
    assert domain + "\\" + name == domain + ['\\'] + name;
    SplitAround(domain, '\\', name);
    FirstPieceIsPrefix(domain, '\\');
    LastPieceIsSuffix(name, '\\');
  }
}
