# MsTest2010 parser of ReportUnit, modelled in Dafny

ReportUnit turns test-runner result files into HTML reports. Its `MsTest2010`
parser reads a Visual Studio 2010 TRX file and fills a `Report`:

- the report level: the result file, the runner, the number of
  `UnitTestResult` records (Total), five outcome counters, the assembly name
  and the run duration;
- the run-information table: file, last run, duration, machine, runner,
  runner version, user and user domain;
- one fixture per test class, each with its tests, its summed duration and
  its rolled-up status.

Each test carries a name without the file's base-name prefix, a status, a
duration and a status message. The message is composed from the record's
`Output` children: description, then error, then trace.

The model follows the source file closely. Each module in `*.dfy` covers one
part of it:

| file | module | what it models |
|---|---|---|
| `wrappers.dfy` | `Wrappers` | `Option`, which stands for an absent attribute or node, or for an exception |
| `text.dfy` | `Text` | the .NET string operations the parser uses: `Split`, `String.Join`, `Split(string[], 2).Last()`, `Replace(x, "")`, `Trim`, `IsNullOrWhiteSpace`, case-insensitive `Equals`, integer formatting |
| `trx_model.dfy` | `TrxModel` | the parts of the TRX document the parser reads, its result records `Test` and `TestSuite`, and the collaborators outside this file, as the fields of a `Library` |
| `fixture_names.dfy` | `FixtureNames` | `FixtureName` (lines 262-292) |
| `test_results.dfy` | `TestResults` | one `UnitTestResult` turned into a `Test` (lines 182-231); the two nested message loops are a method proved against `StatusMessage` |
| `grouping.dfy` | `Grouping` | the fixture lookup and update of lines 239-251, and the whole grouping loop as `Assemble` |
| `outcome_counts.dfy` | `OutcomeCounts` | the six counters of lines 71 and 83-87 |
| `run_info.dfy` | `RunInfo` | `ProcessRunInfo` (lines 123-165) as a function over the dictionary's entries, with its exceptions |
| `parser.dfy` | `Parser` | the classes `Report` and `MsTest2010`; `ProcessFile`, `ProcessRunInfo` and `ProcessFixtureBlocks` are methods that update the report in place |

An exception that escapes a method is modelled as a `false` or `None` result.
It escapes `ProcessFile` in three situations:

- there is no `UnitTest` element, or the first one has no `TestMethod` child with a `codeBase` attribute (line 81);
- `ProcessRunInfo` adds "TestRunner" twice: the `TestRun` node and the first
  result's `computerName` are present but `xmlns` or `runUser` is missing, so
  the catch block adds the key again;
- a result's `testId` has no `UnitTest`/`TestMethod` with a `className`.

The fixture loop stops at the first result of the third kind. It leaves the
fixtures built from the results before it.

Three behaviours of the code are easy to misread; the model keeps them as
written:

- Line 290 cuts everything up to the FIRST ".prefix." (`Split(…, 2).Last()`),
  so a later occurrence stays in the name.
- A class name "MyAssembly.Tests.Foo.BarTests, MyAssembly, …" read with the
  file base "MyAssembly" gives the fixture "Tests.Foo.BarTests": only the
  leading "MyAssembly." is removed, and the namespace parts after it stay.
  `FixtureNames.QualifiedExample` proves this on a shorter name of the same
  shape.
- The outcome strings of lines 85-87 are compared case-sensitively and as
  written: "notRunnable", "passedButRunAborted", "disconnected", "warning",
  "pending", "timeout" are in lower camel case.

The error block of lines 212-215 is modelled as written. It opens "<pre>" only
when a `Message` child is present. A stack trace without a message therefore
gives "…</pre>", and an `ErrorInfo` with neither child gives "</pre>", not "".
`TestResults.ErrorBlockShape` states exactly when the block is empty.

## Model

| member | source | states |
|---|---|---|
| Text.Split | ReportUnit/Parser/MsTest2010.cs:270 | `Split(',')` gives at least one piece, and no piece contains the separator |
| Text.Join | ReportUnit/Parser/MsTest2010.cs:275-279 | `String.Join`; definition, whose properties are `Text.JoinSplit`, `Text.JoinPrefix` and `FixtureNames.SplitJoin` |
| Text.JoinSplit | ReportUnit/Parser/MsTest2010.cs:270-279 | joining the pieces of `Split(sep)` with `sep` gives the original string back, so re-joining the type name loses nothing |
| Text.JoinPrefix | ReportUnit/Parser/MsTest2010.cs:275 | joining a leading run of the pieces gives a prefix of joining all of them |
| Text.SplitAround | ReportUnit/Parser/MsTest2010.cs:151-152 | splitting `x + sep + y` gives the pieces of `x` followed by the pieces of `y` |
| Text.SplitSingleIff | ReportUnit/Parser/MsTest2010.cs:270-272 | `Split` gives a single piece exactly when the separator does not occur |
| Text.FirstPieceIsPrefix | ReportUnit/Parser/MsTest2010.cs:152 | `Split('\\').First()` is the prefix up to the first backslash, or the whole string when there is none |
| Text.LastPieceIsSuffix | ReportUnit/Parser/MsTest2010.cs:151 | `Split('\\').Last()` is the suffix after the last backslash, or the whole string when there is none |
| Text.FirstPiece | ReportUnit/Parser/MsTest2010.cs:152 | the user domain contains no backslash |
| Text.LastPiece | ReportUnit/Parser/MsTest2010.cs:151 | the user name contains no backslash |
| Text.FindFrom | ReportUnit/Parser/MsTest2010.cs:290 | finds the first occurrence at or after `from`; `None` exactly when there is no occurrence from there on |
| Text.StartsWith | ReportUnit/Parser/MsTest2010.cs:288 | `StartsWith(p)` compared ordinally; definition, whose properties in use are `FixtureNames.StripPrefixCases` |
| Text.AfterFirst | ReportUnit/Parser/MsTest2010.cs:290 | `Split(new[] { sep }, 2).Last()` is a suffix of the input; `FixtureNames.StripPrefixCases` gives its value case by case |
| Text.RemoveAllUnchangedIff | ReportUnit/Parser/MsTest2010.cs:183 | `Replace(p, "")` leaves the text unchanged exactly when `p` does not occur in it |
| Text.RemoveAllChar | ReportUnit/Parser/MsTest2010.cs:213 | `Replace("\r", "")` removes every carriage return and keeps every other character |
| Text.RemoveAll | ReportUnit/Parser/MsTest2010.cs:183 | removing occurrences never lengthens the text; `RemoveAllLeftmost` states which occurrences go |
| Text.RemoveAllFirst | ReportUnit/Parser/MsTest2010.cs:183 | `Replace(p, "")` keeps the text before the first occurrence of `p`, drops that occurrence and goes on after it |
| Text.RemoveAllLeftmost | ReportUnit/Parser/MsTest2010.cs:183 | the same with the first occurrence found by `FindFrom`; without an occurrence the text is unchanged |
| Text.RemoveAllCharConcat | ReportUnit/Parser/MsTest2010.cs:213 | removing one character works piece by piece: the result for `a + b` is the result for `a` followed by the result for `b` |
| Text.RemoveAllCharSingle | ReportUnit/Parser/MsTest2010.cs:213 | a single character is dropped exactly when it is the removed one; with `RemoveAllCharConcat` this makes the removal a filter that keeps the order and number of the other characters |
| Text.TrimStart | ReportUnit/Parser/MsTest2010.cs:274 | drops exactly the leading white space: it gives a suffix, every dropped character is white space, and the first kept one is not |
| Text.TrimEnd | ReportUnit/Parser/MsTest2010.cs:274 | drops exactly the trailing white space: it gives a prefix, every dropped character is white space, and the last kept one is not |
| Text.IsWhiteSpaceOnly | ReportUnit/Parser/MsTest2010.cs:149 | `string.IsNullOrWhiteSpace` on a present string; definition, whose properties in use are `RunInfo.UserEntries` |
| Text.Trim | ReportUnit/Parser/MsTest2010.cs:274 | the trimmed assembly name is the contiguous middle of the input (`TrimmedAt`): only white space before and after it, and it neither starts nor ends with white space |
| Text.Fold | ReportUnit/Parser/MsTest2010.cs:206 | the case-folded name keeps its length |
| Text.EqualsIgnoreCase | ReportUnit/Parser/MsTest2010.cs:206-239 | `Equals(…, CurrentCultureIgnoreCase)` as equality after folding; definition, whose properties are `Text.IgnoreCaseEquivalence`, `Grouping.SingleOrDefault` and `Grouping.DistinctNeverAmbiguous` |
| Text.IgnoreCaseEquivalence | ReportUnit/Parser/MsTest2010.cs:239 | comparing names ignoring case is reflexive, symmetric and transitive, and names that compare equal have equal length and agree character by character once lowered |
| Text.NatToString | ReportUnit/Parser/MsTest2010.cs:134 | the duration is written as at least one decimal digit and nothing else |
| TrxModel.ChildElement | ReportUnit/Parser/MsTest2010.cs:212-213 | `node["Message"]` is the FIRST child element with that name (`FirstNamedAt`), and `None` means the node has no such child |
| TrxModel.FindNamed | ReportUnit/Parser/MsTest2010.cs:212-213 | the index of the first element with that name at or after `from`; `None` exactly when there is none |
| FixtureNames.DropMetadata | ReportUnit/Parser/MsTest2010.cs:270 | `Reverse().SkipWhile(x => x.Contains('='))` keeps a prefix of the pieces: every dropped piece contains '=' and the last kept piece does not |
| FixtureNames.SplitAssembly | ReportUnit/Parser/MsTest2010.cs:270-280 | the type name is a prefix of the class name; the assembly name contains no ',', '=' or '>' and is trimmed; `AssemblyQualifiedName`, `PropertiesDropped`, `OnlyProperties` and `GenericNameKeptWhole` give its value in each branch |
| FixtureNames.StripPrefix | ReportUnit/Parser/MsTest2010.cs:284-290 | each shortened candidate is a suffix of the type name |
| FixtureNames.StripPrefixCases | ReportUnit/Parser/MsTest2010.cs:286-290 | the four cases of one candidate: an empty prefix keeps the name; a leading "p." is cut; otherwise the text through the first ".p." is cut, or nothing when ".p." does not occur |
| FixtureNames.FixtureName | ReportUnit/Parser/MsTest2010.cs:262-291 | a null class name gives ""; otherwise the fixture name is a suffix of the type name and no longer than the class name |
| FixtureNames.FixtureNameIsShortestCandidate | ReportUnit/Parser/MsTest2010.cs:283-291 | the fixture name is the shorter of the file-name and assembly-name candidates; the stable `OrderBy` gives a tie to the file-name candidate |
| FixtureNames.GenericNameKeptWhole | ReportUnit/Parser/MsTest2010.cs:271-280 | a name without `key=value` pieces whose last comma piece holds '>' (e.g. `Ns.Foo<A,B>`) is kept whole, with no assembly name |
| FixtureNames.PropertiesDropped | ReportUnit/Parser/MsTest2010.cs:270-280 | "T, k1=v1, …" whose T has no ',' or whose last comma piece holds '>' loses its `key=value` pieces and keeps T whole with no assembly name ("Ns.Foo<A,B>, Version=1" gives "Ns.Foo<A,B>", "Foo, Culture=neutral" gives "Foo") |
| FixtureNames.OnlyProperties | ReportUnit/Parser/MsTest2010.cs:270-280 | a class name made only of `key=value` pieces, such as "Version=1", gives an empty type name and no assembly name |
| FixtureNames.PiecesComeFrom | ReportUnit/Parser/MsTest2010.cs:270 | every character of a piece is a character of the split string |
| FixtureNames.SplitJoin | ReportUnit/Parser/MsTest2010.cs:275 | splitting a join gives the parts back when no part holds the separator |
| FixtureNames.DropTrailingProperties | ReportUnit/Parser/MsTest2010.cs:269-270 | only the trailing `key=value` pieces are dropped, down to the first piece without '=' |
| FixtureNames.AssemblyQualifiedName | ReportUnit/Parser/MsTest2010.cs:269-276 | "T, A, k1=v1, …" splits into the type name T (commas in T included) and the trimmed assembly name A |
| FixtureNames.QualifiedExample | ReportUnit/Parser/MsTest2010.cs:262-291 | "Lib.Tests.Case, Lib, Version=1" with the file base "Lib" gives the fixture "Tests.Case" |
| TestResults.TestName | ReportUnit/Parser/MsTest2010.cs:183 | the test name with every "fileBase." removed is no longer than the original; `TestNameStripsPrefix` and `TestNameUnchangedIff` give its value |
| TestResults.TestNameStripsPrefix | ReportUnit/Parser/MsTest2010.cs:183 | a name "fileBase.m" becomes `m` when `m` holds no further "fileBase." |
| TestResults.TestNameUnchangedIff | ReportUnit/Parser/MsTest2010.cs:183 | the test name is kept exactly when "fileBase." does not occur in it |
| TestResults.DurationSource | ReportUnit/Parser/MsTest2010.cs:186-198 | a `duration` attribute alone decides the duration, even when it does not parse (giving 0); without it, a missing `startTime` or `endTime` gives 0 |
| TestResults.TestDuration | ReportUnit/Parser/MsTest2010.cs:186-198 | definition; its properties are `TestResults.DurationSource` |
| TestResults.BuildTest | ReportUnit/Parser/MsTest2010.cs:182-231 | definition of the built test: `TestName`, `AsStatus` of the outcome, `TestDuration`, and `StatusMessage` of its child nodes ("" without any); its properties are those of its parts |
| TestResults.StatusMessage | ReportUnit/Parser/MsTest2010.cs:201-230 | definition; its properties are `DescriptionEmptyIff`, `LastErrorInfoWins`, `TraceEmptyIff`, `ErrorOnlyMessage`, and `ComposeStatusMessage` computes it |
| TestResults.Step | ReportUnit/Parser/MsTest2010.cs:210-226 | definition of one child's effect; its properties are `ErrorStep`, `DescriptionVisit` and `TraceStep` |
| TestResults.Visit | ReportUnit/Parser/MsTest2010.cs:208-227 | definition of the visit in document order; its properties are `VisitAppend` and the `…EmptyIff` lemmas |
| TestResults.StripNewlines | ReportUnit/Parser/MsTest2010.cs:213 | the stack trace loses every '\r' and '\n' and keeps every other character |
| TestResults.StripNewlinesConcat | ReportUnit/Parser/MsTest2010.cs:213 | stripping line breaks works piece by piece over a concatenation |
| TestResults.StripNewlinesSingle | ReportUnit/Parser/MsTest2010.cs:213 | one character is dropped exactly when it is '\r' or '\n'; with `StripNewlinesConcat` the other characters keep their order and number |
| TestResults.ComposeStatusMessage | ReportUnit/Parser/MsTest2010.cs:201-231 | the two nested loops produce `StatusMessage`: description, error and trace blocks after visiting every child of every `Output` child in document order |
| TestResults.VisitMessageNodes | ReportUnit/Parser/MsTest2010.cs:208-227 | the inner loop extends the visit by the children of one `Output` node |
| TestResults.VisitMessageNode | ReportUnit/Parser/MsTest2010.cs:210-226 | one child updates the blocks as `Step` says: an `ErrorInfo` with children replaces the error block, a `StdOut` appends to the description, a `DebugTrace` appends to the trace |
| TestResults.VisitAppend | ReportUnit/Parser/MsTest2010.cs:208 | visiting one more node is one more `Step` |
| TestResults.OutputChildren | ReportUnit/Parser/MsTest2010.cs:206 | the message nodes one record child contributes: its children when it is an `Output` element with children, none otherwise; definition, whose properties are `TestResults.MessageNodesAppend` |
| TestResults.MessageNodes | ReportUnit/Parser/MsTest2010.cs:204-208 | the children of every `Output` child in document order; definition, whose properties are `TestResults.MessageNodesAppend` and `TestResults.VisitMessageNodes` |
| TestResults.MessageNodesAppend | ReportUnit/Parser/MsTest2010.cs:204-206 | one more child contributes its `Output` children, and only when it is an `Output` node with children |
| TestResults.ErrorBlockShape | ReportUnit/Parser/MsTest2010.cs:212-215 | the error block is empty exactly when the message and stack trace are both empty, or when there is no message and the trace is "<pre>"; a line break in it comes from the message; a non-empty block ends with "</pre>" and starts with "<pre>" when a message is present |
| TestResults.PreBlockEmptyIff | ReportUnit/Parser/MsTest2010.cs:212-215 | the exact emptiness condition of the block text |
| TestResults.PreBlockChars | ReportUnit/Parser/MsTest2010.cs:212-214 | a character that is in neither the markup nor the trace can only come from the message |
| TestResults.PreBlockDelimited | ReportUnit/Parser/MsTest2010.cs:212-214 | a non-empty block ends with "</pre>", and it starts with "<pre>" when a message is present |
| TestResults.DescriptionEmptyIff | ReportUnit/Parser/MsTest2010.cs:217-222 | the description block is empty exactly when every visited `StdOut` had empty text; otherwise it starts with the description paragraph and ends with "</p>" |
| TestResults.DescriptionEmptyIffCount | ReportUnit/Parser/MsTest2010.cs:217-222 | the description block is empty exactly when no `StdOut` with text was visited |
| TestResults.NoStdOutTextIff | ReportUnit/Parser/MsTest2010.cs:217 | no `StdOut` with text was visited exactly when every visited `StdOut` has empty text |
| TestResults.DescriptionStep | ReportUnit/Parser/MsTest2010.cs:219-221 | one `StdOut` leaves the block empty only when it was empty and the text is empty |
| TestResults.DescriptionVisit | ReportUnit/Parser/MsTest2010.cs:217-222 | only a `StdOut` changes the description block |
| TestResults.TraceEmptyIff | ReportUnit/Parser/MsTest2010.cs:223-226 | the trace block is empty exactly when no `DebugTrace` was visited, since even an empty trace adds "<pre></pre>" |
| TestResults.TraceEmptyIffCount | ReportUnit/Parser/MsTest2010.cs:223-226 | the trace block is empty exactly when the count of `DebugTrace` nodes is zero |
| TestResults.NoDebugTraceIff | ReportUnit/Parser/MsTest2010.cs:223 | the count of `DebugTrace` nodes is zero exactly when none was visited |
| TestResults.TraceLength | ReportUnit/Parser/MsTest2010.cs:225 | each `DebugTrace` adds at least 11 characters to the trace block |
| TestResults.TraceStep | ReportUnit/Parser/MsTest2010.cs:223-226 | only a `DebugTrace` changes the trace block, by appending one "<pre>…</pre>" entry |
| TestResults.ErrorStep | ReportUnit/Parser/MsTest2010.cs:210-215 | only an `ErrorInfo` with children changes the error block, and it replaces it |
| TestResults.ErrorBlock | ReportUnit/Parser/MsTest2010.cs:212-215 | the error block of one `ErrorInfo` node; definition, whose properties are `TestResults.ErrorBlockShape` |
| TestResults.PreBlock | ReportUnit/Parser/MsTest2010.cs:212-215 | the `<pre>` block from an optional message and a stack trace, "" when it would be `<pre></pre>`; definition, whose properties are `TestResults.PreBlockEmptyIff`, `TestResults.PreBlockChars` and `TestResults.PreBlockDelimited` |
| TestResults.LastErrorInfoWins | ReportUnit/Parser/MsTest2010.cs:210-215 | without an `ErrorInfo` the error block is ""; otherwise it is the block of the last `ErrorInfo` |
| TestResults.ErrorOnlyMessage | ReportUnit/Parser/MsTest2010.cs:230 | when every `StdOut` is empty and there is no `DebugTrace`, the status message is just the error block |
| Grouping.SingleOrDefault | ReportUnit/Parser/MsTest2010.cs:239 | `NotFound` exactly when no fixture matches ignoring case; `Found(i)` gives the only matching fixture; `Ambiguous` (the exception) only when two fixtures match |
| Grouping.DistinctNeverAmbiguous | ReportUnit/Parser/MsTest2010.cs:239 | when no two fixture names are equal ignoring case, the lookup never throws |
| Grouping.AddTest | ReportUnit/Parser/MsTest2010.cs:239-251 | a fixture is created exactly when none matches, with the key as its name and the new test's duration, status and test; a matching fixture adds the duration, rolls up the status and appends the test; other fixtures are unchanged; names stay distinct ignoring case |
| Grouping.Assemble | ReportUnit/Parser/MsTest2010.cs:180-254 | the loop keeps fixture names distinct, never removes a fixture and never renames one |
| Grouping.FixtureFromEntry | ReportUnit/Parser/MsTest2010.cs:240-245 | every fixture is named after the key of some routed test |
| Grouping.EntryHasFixture | ReportUnit/Parser/MsTest2010.cs:239-251 | every routed test's key matches some fixture |
| Grouping.AssembleStepKeepsName | ReportUnit/Parser/MsTest2010.cs:248-251 | one step keeps the name of every fixture already present |
| Grouping.LastEntryHasFixture | ReportUnit/Parser/MsTest2010.cs:239-246 | after a step, the key just routed matches some fixture |
| Grouping.AssembleCovers | ReportUnit/Parser/MsTest2010.cs:239-251 | a key matches some fixture exactly when it matches some routed test |
| Grouping.FixturesInFirstSeenOrder | ReportUnit/Parser/MsTest2010.cs:240-246 | the fixture names, in list order, are the keys in the order they are first seen, ignoring case |
| Grouping.CreatesIffFirstSeen | ReportUnit/Parser/MsTest2010.cs:240-246 | a step creates a fixture exactly when its key is seen for the first time |
| Grouping.FixtureHoldsMatching | ReportUnit/Parser/MsTest2010.cs:251 | each fixture holds exactly the tests whose key matches its name, in document order |
| Grouping.Matching | ReportUnit/Parser/MsTest2010.cs:239-251 | definition of the tests for one key ignoring case, in entry order; its properties are `Grouping.FixtureHoldsMatching` and `Grouping.MatchingEmpty` |
| Grouping.MatchingEmpty | ReportUnit/Parser/MsTest2010.cs:239 | a name no key matches has no tests |
| Grouping.SumDurations | ReportUnit/Parser/MsTest2010.cs:249 | the sum of the tests' durations; definition, whose properties are `Grouping.AssembleConsistent` |
| Grouping.Rollup | ReportUnit/Parser/MsTest2010.cs:250 | the status folded test by test from a new suite's status; definition, whose properties are `Grouping.AssembleConsistent` |
| Grouping.AssembleConsistent | ReportUnit/Parser/MsTest2010.cs:249-250 | each fixture's duration is the sum of its tests' durations, and its status is their roll-up from a new suite's status |
| Grouping.AssemblePreservesTests | ReportUnit/Parser/MsTest2010.cs:180-254 | every routed test lands in exactly one fixture: as multisets, the fixtures' tests are the routed tests |
| Grouping.AssembleStepTests | ReportUnit/Parser/MsTest2010.cs:251 | one step adds its test to the multiset of all tests |
| Grouping.AddTestFlatten | ReportUnit/Parser/MsTest2010.cs:245-251 | one update adds exactly its test to the multiset of all the fixtures' tests |
| Grouping.AddTestFlattenFound | ReportUnit/Parser/MsTest2010.cs:249-251 | joining an existing fixture adds exactly its test to the multiset of all tests |
| Grouping.AddTestFoundShape | ReportUnit/Parser/MsTest2010.cs:249-251 | joining an existing fixture replaces that fixture alone and appends the test to it |
| Grouping.FlattenUpdate | ReportUnit/Parser/MsTest2010.cs:99 | replacing one fixture swaps its tests in the flattened multiset |
| Grouping.FlattenContains | ReportUnit/Parser/MsTest2010.cs:99 | the flattened tests include every fixture's tests |
| Grouping.Flatten | ReportUnit/Parser/MsTest2010.cs:99 | the `SelectMany` over the fixtures' tests; definition, whose properties are `Grouping.FlattenUpdate`, `Grouping.FlattenContains`, `Grouping.AssemblePreservesTests` and `Grouping.TestCountIsTotal` |
| Grouping.TestsOfSnoc | ReportUnit/Parser/MsTest2010.cs:180 | one more result adds one test |
| Grouping.TestCountIsTotal | ReportUnit/Parser/MsTest2010.cs:71 | the fixtures hold as many tests as there were routed results |
| OutcomeCounts.CountIn | ReportUnit/Parser/MsTest2010.cs:83-87 | an XPath outcome filter counts at most every result |
| OutcomeCounts.Tally | ReportUnit/Parser/MsTest2010.cs:83-87 | definition of one result's contribution; its properties are `OutcomeCounts.CountOutcomesFilters` |
| OutcomeCounts.CountOutcomes | ReportUnit/Parser/MsTest2010.cs:71-87 | definition; its properties are `OutcomeCounts.CountOutcomesFilters` and `OutcomeCounts.CountsAddUp` |
| OutcomeCounts.CountOutcomesFilters | ReportUnit/Parser/MsTest2010.cs:71-87 | tallying results one by one gives Total and, for each counter, the number of outcomes in its vocabulary |
| OutcomeCounts.CountsAddUp | ReportUnit/Parser/MsTest2010.cs:71-87 | no result is counted twice: the five counters add up to at most Total, and to exactly Total when every outcome is recognised |
| OutcomeCounts.CountDisjointUnion | ReportUnit/Parser/MsTest2010.cs:83-87 | counts over disjoint vocabularies add up to the count over their union |
| OutcomeCounts.CountAllIff | ReportUnit/Parser/MsTest2010.cs:83-87 | every outcome is counted exactly when every outcome is in the vocabulary |
| OutcomeCounts.VocabulariesDisjoint | ReportUnit/Parser/MsTest2010.cs:83-87 | the five outcome vocabularies are pairwise disjoint |
| OutcomeCounts.CountsPartition | ReportUnit/Parser/MsTest2010.cs:83-87 | the five counters add up to the count over all known outcomes |
| RunInfo.Add | ReportUnit/Parser/MsTest2010.cs:125 | `Dictionary.Add` throws exactly when the key is present, appends the entry otherwise, and keeps the keys distinct |
| RunInfo.Leading | ReportUnit/Parser/MsTest2010.cs:125-134 | definition; its properties are `RunInfo.LeadingAdded` and `RunInfo.LeadingInOrder` |
| RunInfo.Environment | ReportUnit/Parser/MsTest2010.cs:136-158 | definition; its properties are `RunInfo.EnvironmentShort` and `RunInfo.EnvironmentFull` |
| RunInfo.RunInfoEntries | ReportUnit/Parser/MsTest2010.cs:123-164 | definition; its properties are `RunInfoClosedForm`, `RunInfoFailsIff`, `RunInfoShape`, `OptionalEntries` and `UserEntries` |
| RunInfo.Try | ReportUnit/Parser/MsTest2010.cs:143-152 | an `Add` in the try block does nothing once the block has thrown; otherwise it throws exactly when the key is present and appends the entry when it does not |
| RunInfo.DurationText | ReportUnit/Parser/MsTest2010.cs:134 | `"{0} ms"` of a whole number of milliseconds; definition, whose properties in use are `RunInfo.OptionalEntries` |
| RunInfo.Caught | ReportUnit/Parser/MsTest2010.cs:160-163 | a throw in the environment block is caught and "TestRunner" added again, which throws when the key is present; definition, whose properties are `RunInfo.RunInfoFailsIff` and `RunInfo.RunInfoClosedForm` |
| RunInfo.KeysDiffer | ReportUnit/Parser/MsTest2010.cs:125-162 | the eight keys are different strings |
| RunInfo.HasKeyConcat | ReportUnit/Parser/MsTest2010.cs:125-162 | a key is in two concatenated tables exactly when it is in one of them |
| RunInfo.RanksBelowNotHas | ReportUnit/Parser/MsTest2010.cs:125-162 | a table whose keys rank below a key's rank does not hold that key |
| RunInfo.ConcatInOrder | ReportUnit/Parser/MsTest2010.cs:125-162 | two tables in key order whose ranks are separated concatenate to a table in key order |
| RunInfo.LeadingInOrder | ReportUnit/Parser/MsTest2010.cs:125-134 | the first three optional entries are in key order and rank below "Machine Name" |
| RunInfo.EnvironmentInOrder | ReportUnit/Parser/MsTest2010.cs:141-158 | the environment entries are in key order and rank from "Machine Name" up |
| RunInfo.LeadingAdded | ReportUnit/Parser/MsTest2010.cs:125-134 | the first `Add` calls never meet a key that is already present |
| RunInfo.EnvironmentShort | ReportUnit/Parser/MsTest2010.cs:141-158 | without a `TestRun` node the block adds "TestRunner"; without `computerName` it throws before adding anything |
| RunInfo.EnvironmentFull | ReportUnit/Parser/MsTest2010.cs:141-154 | with both present, the block adds machine and runner, then throws at the first missing attribute or finishes with version and user entries |
| RunInfo.RunInfoClosedForm | ReportUnit/Parser/MsTest2010.cs:123-165 | the dictionary-by-dictionary semantics equal a case-by-case closed form |
| RunInfo.FullRunClosedForm | ReportUnit/Parser/MsTest2010.cs:141-164 | the closed form when the `TestRun` node and `computerName` are present |
| RunInfo.RunInfoFailsIff | ReportUnit/Parser/MsTest2010.cs:141-164 | `ProcessRunInfo` throws exactly when `TestRun` and `computerName` are present but `xmlns` or `runUser` is missing |
| RunInfo.RunInfoShape | ReportUnit/Parser/MsTest2010.cs:123-165 | on success the table starts with the result file, contains the runner entry, and holds its keys once each in the fixed order |
| RunInfo.OptionalEntries | ReportUnit/Parser/MsTest2010.cs:127-134 | "Duration" is present exactly when the duration is positive, and "Last Run" exactly when the file time was read |
| RunInfo.UserEntries | ReportUnit/Parser/MsTest2010.cs:141-153 | with a complete `TestRun` the table has the machine and version; the user entries are present exactly when `runUser` is not blank, with "User" after the last backslash and "User Domain" before the first |
| RunInfo.DomainUserSplit | ReportUnit/Parser/MsTest2010.cs:151-152 | "DOMAIN\name" splits back into its domain and its name |
| Parser.Report.constructor | ReportUnit/Parser/MsTest2010.cs:66 | a new report has empty names, zero counters and duration, no run information and no fixtures: every field except `status`, which both paths of `ProcessFile` overwrite |
| Parser.Report.AddInfo | ReportUnit/Parser/MsTest2010.cs:125 | `RunInfo.Info.Add`: succeeds exactly when the key is absent, and appends the entry then; the table is unchanged otherwise |
| Parser.FirstUnresolved | ReportUnit/Parser/MsTest2010.cs:234-236 | the results before this index resolve to a `className`; the one at it, if any, does not |
| Parser.FirstUnresolvedAt | ReportUnit/Parser/MsTest2010.cs:180-236 | the stop index is unique: any `i` whose earlier results resolve and which is the end or does not resolve itself is `FirstUnresolved` |
| Parser.Outcomes | ReportUnit/Parser/MsTest2010.cs:83-87 | the `outcome` attribute of every result in document order: one per result, at the same index |
| Parser.RunDuration | ReportUnit/Parser/MsTest2010.cs:89-94 | the `Times` difference when the node and both attributes are present, 0 otherwise; definition, whose properties are `Parser.MsTest2010.SetDuration` |
| Parser.FirstComputerName | ReportUnit/Parser/MsTest2010.cs:143 | the first result's `computerName`, `None` without a result or the attribute; definition, whose properties in use are `RunInfo.RunInfoFailsIff` and `RunInfo.EnvironmentShort` |
| Parser.Route | ReportUnit/Parser/MsTest2010.cs:182-236 | the test built from one result with the fixture key of its class; definition, whose properties are `Parser.RoutesSnoc` and `Parser.MsTest2010.ProcessFixtureBlocks` |
| Parser.Routes | ReportUnit/Parser/MsTest2010.cs:177-236 | one route per resolved result, at the same index; `Parser.RoutesSnoc`, `Grouping.TestCountIsTotal` and `Parser.MsTest2010.ProcessFixtureBlocks` use it |
| Parser.RoutesSnoc | ReportUnit/Parser/MsTest2010.cs:180-236 | routing one more resolved result appends its route |
| Parser.FilledReportTotals | ReportUnit/Parser/MsTest2010.cs:71-99 | a filled report holds one test per result across its fixtures; its five counters add up to at most Total, and to exactly Total when every outcome is recognised |
| Parser.ResultCountsAddUp | ReportUnit/Parser/MsTest2010.cs:83-87 | the counters of the results' outcomes add up to at most the number of results, and to exactly that number if and only if every result's outcome is one of the recognised strings |
| Parser.MsTest2010.LoadFile | ReportUnit/Parser/MsTest2010.cs:47-59 | keeps the result file's path and the loaded document; no base name and no report yet |
| Parser.MsTest2010.ProcessFile | ReportUnit/Parser/MsTest2010.cs:61-117 | creates a new report with the file, runner and Total. With no result it returns that report with status Passed, no assembly name, zero counters and duration, no run information and no fixtures. Otherwise it succeeds exactly when `Succeeds` holds, and then the report is `Filled` |
| Parser.MsTest2010.NewReport | ReportUnit/Parser/MsTest2010.cs:66-71 | a new report with the file name, the runner "MSTest2010" and Total, and every field except `status` at its default (both paths of `ProcessFile` overwrite `status`) |
| Parser.MsTest2010.FillReport | ReportUnit/Parser/MsTest2010.cs:79-99 | succeeds exactly when the first `UnitTest` has a `codeBase`, `ProcessRunInfo` does not throw and every result resolves. The report then holds the assembly name, the counters, the duration, the run information, the fixtures and the status rolled up over all tests |
| Parser.MsTest2010.SetCounts | ReportUnit/Parser/MsTest2010.cs:83-87 | the five counters are those of the results' outcomes |
| Parser.MsTest2010.SetDuration | ReportUnit/Parser/MsTest2010.cs:89-94 | the duration is the `Times` difference when the node and both attributes exist, and stays 0 otherwise |
| Parser.MsTest2010.ProcessRunInfo | ReportUnit/Parser/MsTest2010.cs:123-165 | on an empty table, succeeds exactly when `RunInfoEntries` does, and then the table holds those entries |
| Parser.MsTest2010.EnvironmentBlock | ReportUnit/Parser/MsTest2010.cs:141-154 | the `Add` calls of the try block, with the same outcome as `Environment` |
| Parser.MsTest2010.ProcessFixtureBlocks | ReportUnit/Parser/MsTest2010.cs:172-255 | succeeds exactly when every result resolves; the fixtures are then `Assemble` over the routed results, and otherwise `Assemble` over the results before the first that does not resolve |
| Parser.MsTest2010.BuildTestOf | ReportUnit/Parser/MsTest2010.cs:182-231 | the test built from one result is `BuildTest` |
| Parser.MsTest2010.AddToFixture | ReportUnit/Parser/MsTest2010.cs:239-251 | the fixtures after one update are `AddTest` of the old ones |

## Left out

- Loading and parsing XML (lines 47-56), the namespace manager and XPath evaluation are not modelled. The `Document` datatype holds what the queries return, in document order:
  - the `UnitTestResult` records;
  - the `className` of each `UnitTest` id;
  - the `codeBase` of the first `UnitTest`'s `TestMethod`, `None` when the element or the attribute is missing (line 81 then throws);
  - the `Times` node and the `TestRun` node.
- Duplicate `UnitTest` ids are not modelled: the map keeps one `className` per id. `SelectSingleNode` would take the first.
- A missing `testName`, `outcome` or `testId` attribute is not modelled; the source would throw on it. These attributes are plain strings here.
- Logging and console output (the logger field at line 45 and the calls at lines 73, 78, 111, 163, 174 and 253) are left out. The `testCount` counter is kept only as a loop variable.
- The catch block of lines 107-113 cannot be entered: an enum assignment and a return do not throw. It is not modelled.
- These collaborators are uninterpreted function fields of `Library`. Their code is not part of this model:
  - `AsStatus`;
  - both `ReportHelper.GetFixtureStatus` overloads;
  - `TimeSpan.TryParse` with `TotalMilliseconds`;
  - `DateTimeHelper.DifferenceInMilliseconds`;
  - `HttpUtility.HtmlEncode`;
  - `Path.GetFileNameWithoutExtension`;
  - `File.GetLastWriteTime` with its "d MMM yyyy HH:mm" format, as an `Option` whose `None` is the caught exception;
  - the status of a new `TestSuite`.
- `Report.cs`, `TestSuite.cs` and `Test.cs` are not part of this model. The defaults of their constructors (empty strings, zeros, the empty table and list) are assumed. The report's initial status is overwritten on both paths.
- `Parser.MsTest2010.ProcessFile`: does not describe the partly filled report left behind by an exception. Only the success path is stated field by field.
- `Parser.MsTest2010.FillReport`: like `ProcessFile`, states no field values when it returns `false`.
- `TestResults.TestDuration`: durations are whole milliseconds (`int`). The source uses `double`, so fractional milliseconds and floating-point addition in line 249 are not modelled.
- `DifferenceInMilliseconds` is assumed not to throw. A throw at line 92 would be caught; one at line 197 would escape; neither is modelled.
- Case-insensitive comparison with `CurrentCultureIgnoreCase` (lines 206-239) is approximated by ASCII case folding. The culture-sensitive `StartsWith` of line 288 is compared ordinally.
- `RunInfo.Info` is assumed to be a `Dictionary<string, string>` whose `Add` throws on a present key and which lists its entries in the order they were added. Its declaring file is not part of this model. `RunInfo.RunInfoFailsIff`, `RunInfo.RunInfoShape` and the other table lemmas rest on this.
- `IsWhiteSpace` covers the Unicode white-space characters listed in `Text`. Culture tables and surrogate pairs are not modelled.
- `TestSuite` objects are values in the report's sequence of fixtures. Updating one through the reference returned by `SingleOrDefault` is modelled as replacing that element, so aliasing is not modelled.
- Counters and Total are unbounded integers. The source's `int` cannot overflow for any file that fits in memory.
- The `IParser` interface and the report's later rendering are outside the parser and are not modelled.
