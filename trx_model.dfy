/**
 * The data the MSTest 2010 parser reads and builds.
 *
 * The TRX document (XML in the namespace
 * http://microsoft.com/schemas/VisualStudio/TeamTest/2010) is replaced by the
 * values the parser's XPath queries return: the `UnitTestResult` records in
 * document order, the `UnitTest/@id -> TestMethod/@className` lookup, and the
 * optional `Times` and `TestRun` nodes. The report side is the `Test` and
 * `TestSuite` values the parser appends; the `Report` object itself is a class
 * in module Parser.
 */
module TrxModel {

  import opened Wrappers
  import opened Text

  /** Normalised result of a test, a fixture or a whole report. */
  datatype Status = Passed | Failed | Inconclusive | Skipped | Error

  /** One XML node below a `UnitTestResult`: a text node or an element with its child nodes. */
  datatype XNode = TextNode(text: string) | Element(name: string, children: seq<XNode>)

  /** `XmlNode.Name`: text nodes are called "#text". */
  function NodeName(n: XNode): string {
    match n
    case TextNode(_) => "#text"
    case Element(name, _) => name
  }

  /** `XmlNode.HasChildNodes`. */
  predicate HasChildNodes(n: XNode) {
    n.Element? && |n.children| > 0
  }

  /** `XmlNode.InnerText`: the concatenated text of every text node below `n`. */
  function InnerText(n: XNode): string
    decreases n, 1
  {
    match n
    case TextNode(t) => t
    case Element(_, children) => InnerTexts(children)
  }

  function InnerTexts(ns: seq<XNode>): string
    decreases ns, 0
  {
    if |ns| == 0 then "" else InnerText(ns[0]) + InnerTexts(ns[1..])
  }

  /** `n` is an element called exactly `name` (the indexer compares names ordinally). */
  predicate IsNamedElement(n: XNode, name: string) {
    n.Element? && n.name == name
  }

  /** `ns[i]` is the first element of `ns` called `name`. */
  predicate FirstNamedAt(ns: seq<XNode>, name: string, i: int) {
    && 0 <= i < |ns| && IsNamedElement(ns[i], name)
    && forall j :: 0 <= j < i ==> !IsNamedElement(ns[j], name)
  }

  /** `n[name]`: the first child element with exactly this name, if any. */
  function ChildElement(n: XNode, name: string): (r: Option<XNode>)
    ensures r.Some? ==> n.Element? && exists i :: FirstNamedAt(n.children, name, i) && r.value == n.children[i]
    ensures r.None? && n.Element? ==> forall c :: c in n.children ==> !IsNamedElement(c, name)
  {
    match n
    case TextNode(_) => None
    case Element(_, children) =>
      match FindNamed(children, name, 0)
      case Some(i) => Some(children[i])
      case None => None
  }

  /** The index of the first element called `name` at or after `from`. */
  function FindNamed(ns: seq<XNode>, name: string, from: nat): (r: Option<nat>)
    ensures r.Some? ==> from <= r.value < |ns| && IsNamedElement(ns[r.value], name)
    ensures r.Some? ==> forall j :: from <= j < r.value ==> !IsNamedElement(ns[j], name)
    ensures r.None? ==> forall j :: from <= j < |ns| ==> !IsNamedElement(ns[j], name)
    decreases |ns| - from
  {
    if from >= |ns| then None
    else if IsNamedElement(ns[from], name) then Some(from)
    else FindNamed(ns, name, from + 1)
  }

  /** One `UnitTestResult` element: its attributes (absent ones are None) and its child nodes. */
  datatype UnitTestResult = UnitTestResult(
    testName: string,
    outcome: string,
    testId: string,
    computerName: Option<string>,
    duration: Option<string>,
    startTime: Option<string>,
    endTime: Option<string>,
    children: seq<XNode>)

  /** The `Times` node with its `start` and `finish` attributes. */
  datatype Times = Times(start: Option<string>, finish: Option<string>)

  /** The `TestRun` node with its `xmlns` and `runUser` attributes. */
  datatype TestRun = TestRun(xmlns: Option<string>, runUser: Option<string>)

  /** What the parser reads from the loaded TRX document. */
  datatype Document = Document(
    results: seq<UnitTestResult>,          // descendant::t:UnitTestResult, in document order
    classNames: map<string, string>,       // UnitTest/@id -> its TestMethod's @className
    firstCodeBase: Option<string>,         // the first UnitTest's TestMethod/@codeBase
    times: Option<Times>,                  // descendant::t:Times
    testRun: Option<TestRun>)              // descendant::t:TestRun

  /** One test as appended to its fixture. Durations are whole milliseconds. */
  datatype Test = Test(name: string, status: Status, duration: int, statusMessage: string)

  /** One fixture: the grouping key, the accumulated duration and status, and its tests in order. */
  datatype TestSuite = TestSuite(name: string, duration: int, status: Status, tests: seq<Test>)

  /**
   * Collaborators whose code is not part of this model, as uninterpreted functions:
   * `StringExtensions.AsStatus`, the two overloads of `ReportHelper.GetFixtureStatus`,
   * `TimeSpan.TryParse` followed by `TotalMilliseconds`,
   * `DateTimeHelper.DifferenceInMilliseconds`, `HttpUtility.HtmlEncode`,
   * `Path.GetFileNameWithoutExtension`, `File.GetLastWriteTime` formatted as
   * "d MMM yyyy HH:mm" (None when it throws), and the status a freshly
   * constructed `TestSuite` holds.
   */
  datatype Library = Library(
    asStatus: string -> Status,
    statusOfStatuses: seq<Status> -> Status,
    statusOfTests: seq<Test> -> Status,
    tryParseDuration: string -> Option<int>,
    differenceInMilliseconds: (string, string) -> int,
    htmlEncode: string -> string,
    fileNameWithoutExtension: string -> string,
    lastWriteTime: string -> Option<string>,
    newSuiteStatus: Status)

  /** `TestRunner.MSTest2010.ToString()`. */
  const RunnerName: string := "MSTest2010"
}
