/**
 * The outcome counters of `ProcessFile` (lines 71 and 83-87 of
 * ReportUnit/Parser/MsTest2010.cs): Total counts every `UnitTestResult`, and
 * each of the five others counts the results whose `outcome` attribute is one
 * of a fixed, case-sensitive set of strings.
 */
module OutcomeCounts {

  /** Line 83. */
  const PassedOutcomes: set<string> := {"Passed"}
  /** Line 84. */
  const FailedOutcomes: set<string> := {"Failed"}
  /** Line 85. */
  const InconclusiveOutcomes: set<string> :=
    {"Inconclusive", "notRunnable", "passedButRunAborted", "disconnected", "warning", "pending"}
  /** Line 86. */
  const SkippedOutcomes: set<string> := {"NotExecuted"}
  /** Line 87. */
  const ErrorOutcomes: set<string> := {"Error", "Aborted", "timeout"}

  /** Every outcome string one of the five counters recognises. */
  const KnownOutcomes: set<string> :=
    PassedOutcomes + FailedOutcomes + InconclusiveOutcomes + SkippedOutcomes + ErrorOutcomes

  /** The number of outcomes that belong to `vocabulary` (an XPath filter's `Count`). */
  function CountIn(outcomes: seq<string>, vocabulary: set<string>): (r: nat)
    ensures r <= |outcomes|
    decreases |outcomes|
  {
    if |outcomes| == 0 then 0
    else CountIn(outcomes[..|outcomes| - 1], vocabulary) + (if outcomes[|outcomes| - 1] in vocabulary then 1 else 0)
  }

  /** The five counters of a report. */
  datatype Counts = Counts(total: nat, passed: nat, failed: nat, inconclusive: nat, skipped: nat, errors: nat)

  /** One result's contribution: Total always, and the counter whose vocabulary holds its outcome. */
  function Tally(c: Counts, outcome: string): Counts {
    Counts(c.total + 1,
           c.passed + (if outcome in PassedOutcomes then 1 else 0),
           c.failed + (if outcome in FailedOutcomes then 1 else 0),
           c.inconclusive + (if outcome in InconclusiveOutcomes then 1 else 0),
           c.skipped + (if outcome in SkippedOutcomes then 1 else 0),
           c.errors + (if outcome in ErrorOutcomes then 1 else 0))
  }

  /** Lines 71 and 83-87 over the outcome attributes of the results, tallied in document order. */
  function CountOutcomes(outcomes: seq<string>): Counts
    decreases |outcomes|
  {
    if |outcomes| == 0 then Counts(0, 0, 0, 0, 0, 0)
    else Tally(CountOutcomes(outcomes[..|outcomes| - 1]), outcomes[|outcomes| - 1])
  }

  /** Each counter is the number of outcomes in its vocabulary: the XPath filters of lines 83-87. */
  lemma {:induction false} CountOutcomesFilters(outcomes: seq<string>)
    ensures CountOutcomes(outcomes)
            == Counts(|outcomes|,
                      CountIn(outcomes, PassedOutcomes),
                      CountIn(outcomes, FailedOutcomes),
                      CountIn(outcomes, InconclusiveOutcomes),
                      CountIn(outcomes, SkippedOutcomes),
                      CountIn(outcomes, ErrorOutcomes))
    decreases |outcomes|
  {
    if |outcomes| > 0 {
      CountOutcomesFilters(outcomes[..|outcomes| - 1]);
    }
  }

  /**
   * No result is counted twice, so the five counters add up to at most Total, and to
   * exactly Total when every outcome string is in the recognised vocabulary.
   */
  lemma CountsAddUp(outcomes: seq<string>)
    ensures var c := CountOutcomes(outcomes);
            && c.total == |outcomes|
            && c.passed + c.failed + c.inconclusive + c.skipped + c.errors <= c.total
            && (c.passed + c.failed + c.inconclusive + c.skipped + c.errors == c.total
                <==> forall i :: 0 <= i < |outcomes| ==> outcomes[i] in KnownOutcomes)
  {
    CountOutcomesFilters(outcomes);
    CountsPartition(outcomes);
  }

  /** Counting over two disjoint vocabularies adds up to counting over their union. */
  lemma {:induction false} CountDisjointUnion(outcomes: seq<string>, a: set<string>, b: set<string>)
    requires a !! b
    ensures CountIn(outcomes, a) + CountIn(outcomes, b) == CountIn(outcomes, a + b)
    decreases |outcomes|
  {
    if |outcomes| > 0 {
      CountDisjointUnion(outcomes[..|outcomes| - 1], a, b);
    }
  }

  /** Every outcome is counted exactly when every outcome belongs to the vocabulary. */
  lemma {:induction false} CountAllIff(outcomes: seq<string>, vocabulary: set<string>)
    ensures CountIn(outcomes, vocabulary) == |outcomes| <==> forall i :: 0 <= i < |outcomes| ==> outcomes[i] in vocabulary
    decreases |outcomes|
  {
    if |outcomes| > 0 {
      var init := outcomes[..|outcomes| - 1];
      CountAllIff(init, vocabulary);
      assert forall i :: 0 <= i < |init| ==> init[i] == outcomes[i];
    }
  }

  /** The five vocabularies are pairwise disjoint, so no result is counted twice. */
  lemma VocabulariesDisjoint()
    ensures PassedOutcomes !! FailedOutcomes && PassedOutcomes !! InconclusiveOutcomes
    ensures PassedOutcomes !! SkippedOutcomes && PassedOutcomes !! ErrorOutcomes
    ensures FailedOutcomes !! InconclusiveOutcomes && FailedOutcomes !! SkippedOutcomes
    ensures FailedOutcomes !! ErrorOutcomes && InconclusiveOutcomes !! SkippedOutcomes
    ensures InconclusiveOutcomes !! ErrorOutcomes && SkippedOutcomes !! ErrorOutcomes
  {
  }

  /** The five counters add up to the count over the known outcomes. */
  lemma CountsPartition(outcomes: seq<string>)
    ensures CountIn(outcomes, PassedOutcomes) + CountIn(outcomes, FailedOutcomes)
            + CountIn(outcomes, InconclusiveOutcomes) + CountIn(outcomes, SkippedOutcomes)
            + CountIn(outcomes, ErrorOutcomes) == CountIn(outcomes, KnownOutcomes)
    ensures CountIn(outcomes, KnownOutcomes) == |outcomes|
            <==> forall i :: 0 <= i < |outcomes| ==> outcomes[i] in KnownOutcomes
  {
    VocabulariesDisjoint();
    var pf := PassedOutcomes + FailedOutcomes;
    var pfi := pf + InconclusiveOutcomes;
    var pfis := pfi + SkippedOutcomes;
    CountDisjointUnion(outcomes, PassedOutcomes, FailedOutcomes);
    CountDisjointUnion(outcomes, pf, InconclusiveOutcomes);
    CountDisjointUnion(outcomes, pfi, SkippedOutcomes);
    CountDisjointUnion(outcomes, pfis, ErrorOutcomes);
    CountAllIff(outcomes, KnownOutcomes);
  }
}
