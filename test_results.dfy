/**
 * How `ProcessFixtureBlocks` turns one `UnitTestResult` record into a `Test`
 * (MsTest2010.cs lines 182-231): the name without the file's base-name
 * prefix, the status, the duration, and the status message composed from the
 * `Output` children.
 */
module TestResults {

  import opened Wrappers
  import opened Text
  import opened TrxModel

  // ---------------------------------------------------------------------
  // Name and duration

  /** Line 183: every occurrence of "fileBase." is removed from the test name. */
  function TestName(testName: string, fileBase: string): (r: string)
    ensures |r| <= |testName|
  {
    RemoveAll(testName, fileBase + ".")
  }

  lemma TestNameUnchangedIff(testName: string, fileBase: string)
    ensures TestName(testName, fileBase) == testName
            <==> forall i :: !Occurs(testName, fileBase + ".", i)
  {
    RemoveAllUnchangedIff(testName, fileBase + ".");
  }

  /** A name "fileBase.m" loses its leading "fileBase." when the rest holds no other occurrence. */
  lemma TestNameStripsPrefix(fileBase: string, m: string)
    requires forall i :: !Occurs(m, fileBase + ".", i)
    ensures TestName(fileBase + "." + m, fileBase) == m
  {
    var pat := fileBase + ".";
    var s := fileBase + "." + m;
    assert s[..|pat|] == pat && s[|pat|..] == m;
    RemoveAllUnchangedIff(m, pat);
  }

  /**
   * Lines 186-198: a `duration` attribute alone decides (its parsed value, or
   * the default 0 when it does not parse); only without it are `startTime`
   * and `endTime` consulted, and only when both are present.
   */
  function TestDuration(r: UnitTestResult, lib: Library): int {
    match r.duration
    case Some(d) => lib.tryParseDuration(d).GetOr(0)
    case None =>
      if r.startTime.Some? && r.endTime.Some? then
        lib.differenceInMilliseconds(r.startTime.value, r.endTime.value)
      else 0
  }

  lemma DurationSource(r: UnitTestResult, lib: Library)
    ensures r.duration.Some? ==>
              forall s, e :: TestDuration(r.(startTime := s, endTime := e), lib) == TestDuration(r, lib)
    ensures r.duration.Some? && lib.tryParseDuration(r.duration.value).None? ==> TestDuration(r, lib) == 0
    ensures r.duration.None? && (r.startTime.None? || r.endTime.None?) ==> TestDuration(r, lib) == 0
  {
  }

  // ---------------------------------------------------------------------
  // Status message

  const DescriptionOpen: string := "<p class='description'>Description: "
  const EmptyDescription: string := "<p class='description'>Description: </p>"

  /** The three blocks accumulated while the `Output` children are visited. */
  datatype Blocks = Blocks(desc: string, error: string, trace: string)

  /** The node's name equals `lowered` ignoring case; `lowered` is written in lower case. */
  predicate IsNamed(n: XNode, lowered: string) {
    Fold(NodeName(n)) == lowered
  }

  predicate IsErrorInfo(n: XNode) {
    IsNamed(n, "errorinfo") && HasChildNodes(n)
  }

  predicate IsStdOut(n: XNode) {
    !IsErrorInfo(n) && IsNamed(n, "stdout")
  }

  predicate IsDebugTrace(n: XNode) {
    !IsErrorInfo(n) && !IsNamed(n, "stdout") && IsNamed(n, "debugtrace")
  }

  /** Line 213: `Replace("\r", "").Replace("\n", "")`. */
  function StripNewlines(s: string): (r: string)
    ensures '\r' !in r && '\n' !in r
    ensures forall c :: c != '\r' && c != '\n' ==> (c in r <==> c in s)
  {
    RemoveAllChar(s, '\r');
    RemoveAllChar(RemoveAll(s, "\r"), '\n');
    RemoveAll(RemoveAll(s, "\r"), "\n")
  }

  /** Stripping line breaks works piece by piece ... */
  lemma StripNewlinesConcat(a: string, b: string)
    ensures StripNewlines(a + b) == StripNewlines(a) + StripNewlines(b)
  {
    RemoveAllCharConcat(a, b, '\r');
    RemoveAllCharConcat(RemoveAll(a, "\r"), RemoveAll(b, "\r"), '\n');
  }

  /** ... and drops a character exactly when it is '\r' or '\n', so it keeps the others in order. */
  lemma StripNewlinesSingle(d: char)
    ensures StripNewlines([d]) == if d == '\r' || d == '\n' then [] else [d]
  {
    RemoveAllCharSingle(d, '\r');
    RemoveAllCharSingle(d, '\n');
    assert RemoveAll([], "\n") == [];
  }

  /** The message text of an `ErrorInfo` node, if it has a `Message` child. */
  function MessageText(info: XNode): Option<string> {
    match ChildElement(info, "Message")
    case Some(m) => Some(InnerText(m))
    case None => None
  }

  /** The stack trace of an `ErrorInfo` node without line breaks, or "" without a `StackTrace` child. */
  function StackTraceText(info: XNode): string {
    match ChildElement(info, "StackTrace")
    case Some(t) => StripNewlines(InnerText(t))
    case None => ""
  }

  /** Lines 212-215: the error block of one `ErrorInfo` node. */
  function ErrorBlock(info: XNode): string {
    PreBlock(MessageText(info), StackTraceText(info))
  }

  /** The block built from an optional message and a stack trace, "" when it would be "<pre></pre>". */
  function PreBlock(message: Option<string>, trace: string): string {
    var head := if message.Some? then "<pre>" + message.value else "";
    var block := head + trace + "</pre>";
    if block == "<pre></pre>" then "" else block
  }

  /** One visit of the inner loop (lines 210-226). */
  function Step(b: Blocks, n: XNode, encode: string -> string): Blocks {
    if IsErrorInfo(n) then b.(error := ErrorBlock(n))
    else if IsNamed(n, "stdout") then
      var d := b.desc + DescriptionOpen + InnerText(n) + "</p>";
      b.(desc := if d == EmptyDescription then "" else d)
    else if IsNamed(n, "debugtrace") then
      b.(trace := b.trace + "<pre>" + encode(InnerText(n)) + "</pre>")
    else b
  }

  /** The blocks after visiting `ns` in order, starting from three empty blocks. */
  function Visit(ns: seq<XNode>, encode: string -> string): Blocks
    decreases |ns|
  {
    if |ns| == 0 then Blocks("", "", "")
    else Step(Visit(ns[..|ns| - 1], encode), ns[|ns| - 1], encode)
  }

  /** The children of a node named `Output` that has children (line 206), or nothing. */
  function OutputChildren(n: XNode): seq<XNode> {
    if IsNamed(n, "output") && HasChildNodes(n) then n.children else []
  }

  /** The message nodes of a record: the children of its `Output` children, in document order. */
  function MessageNodes(children: seq<XNode>): seq<XNode>
    decreases |children|
  {
    if |children| == 0 then []
    else MessageNodes(children[..|children| - 1]) + OutputChildren(children[|children| - 1])
  }

  /** Line 230: the description block, then the error block, then the trace block. */
  function StatusMessage(children: seq<XNode>, encode: string -> string): string {
    var b := Visit(MessageNodes(children), encode);
    b.desc + b.error + b.trace
  }

  /** The two nested `foreach` loops of lines 203-230. */
  method ComposeStatusMessage(children: seq<XNode>, encode: string -> string) returns (msg: string)
    ensures msg == StatusMessage(children, encode)
  {
    var errorMsg, descMsg, traceMsg := "", "", "";
    for i := 0 to |children|
      invariant Blocks(descMsg, errorMsg, traceMsg) == Visit(MessageNodes(children[..i]), encode)
    {
      var node := children[i];
      ghost var before := MessageNodes(children[..i]);
      if IsNamed(node, "output") && HasChildNodes(node) {
        descMsg, errorMsg, traceMsg := VisitMessageNodes(node.children, before, encode, descMsg, errorMsg, traceMsg);
      } else {
        assert before + OutputChildren(node) == before;
      }
      MessageNodesAppend(children, i);
    }
    assert children[..|children|] == children;
    msg := descMsg + errorMsg + traceMsg;
  }

  /** The inner loop (lines 208-227) over the children of one `Output` node, after visiting `before`. */
  method VisitMessageNodes(nodes: seq<XNode>, ghost before: seq<XNode>, encode: string -> string,
                           desc: string, error: string, trace: string)
    returns (descMsg: string, errorMsg: string, traceMsg: string)
    requires Blocks(desc, error, trace) == Visit(before, encode)
    ensures Blocks(descMsg, errorMsg, traceMsg) == Visit(before + nodes, encode)
  {
    descMsg, errorMsg, traceMsg := desc, error, trace;
    assert before + nodes[..0] == before;
    for j := 0 to |nodes|
      invariant Blocks(descMsg, errorMsg, traceMsg) == Visit(before + nodes[..j], encode)
    {
      descMsg, errorMsg, traceMsg := VisitMessageNode(nodes[j], encode, descMsg, errorMsg, traceMsg);
      VisitNext(before, nodes, j, encode);
    }
    assert nodes[..|nodes|] == nodes;
  }

  /** The body of the inner loop (lines 210-226): one child of an `Output` node updates one block. */
  method VisitMessageNode(msgNode: XNode, encode: string -> string, desc: string, error: string, trace: string)
    returns (descMsg: string, errorMsg: string, traceMsg: string)
    ensures Blocks(descMsg, errorMsg, traceMsg) == Step(Blocks(desc, error, trace), msgNode, encode)
  {
    descMsg, errorMsg, traceMsg := desc, error, trace;
    if IsNamed(msgNode, "errorinfo") && HasChildNodes(msgNode) {
      var message := ChildElement(msgNode, "Message");
      var stackTrace := ChildElement(msgNode, "StackTrace");
      errorMsg := if message.Some? then "<pre>" + InnerText(message.value) else "";
      errorMsg := errorMsg + if stackTrace.Some? then StripNewlines(InnerText(stackTrace.value)) else "";
      errorMsg := errorMsg + "</pre>";
      errorMsg := if errorMsg == "<pre></pre>" then "" else errorMsg;
    } else if IsNamed(msgNode, "stdout") {
      descMsg := descMsg + DescriptionOpen + InnerText(msgNode);
      descMsg := descMsg + "</p>";
      descMsg := if descMsg == EmptyDescription then "" else descMsg;
    } else if IsNamed(msgNode, "debugtrace") {
      traceMsg := traceMsg + "<pre>" + encode(InnerText(msgNode)) + "</pre>";
    }
  }

  lemma VisitNext(before: seq<XNode>, nodes: seq<XNode>, j: nat, encode: string -> string)
    requires j < |nodes|
    ensures Visit(before + nodes[..j + 1], encode) == Step(Visit(before + nodes[..j], encode), nodes[j], encode)
  {
    VisitAppend(before + nodes[..j], nodes[j], encode);
    assert before + nodes[..j + 1] == before + nodes[..j] + [nodes[j]];
  }

  lemma VisitAppend(ns: seq<XNode>, n: XNode, encode: string -> string)
    ensures Visit(ns + [n], encode) == Step(Visit(ns, encode), n, encode)
  {
    assert (ns + [n])[..|ns|] == ns;
  }

  lemma MessageNodesAppend(children: seq<XNode>, i: nat)
    requires i < |children|
    ensures MessageNodes(children[..i + 1]) == MessageNodes(children[..i]) + OutputChildren(children[i])
  {
    assert children[..i + 1][..i] == children[..i];
  }

  /** Lines 182-231: the `Test` built from one record. */
  function BuildTest(r: UnitTestResult, fileBase: string, lib: Library): Test {
    Test(
      TestName(r.testName, fileBase),
      lib.asStatus(r.outcome),
      TestDuration(r, lib),
      if |r.children| > 0 then StatusMessage(r.children, lib.htmlEncode) else "")
  }

  // ---------------------------------------------------------------------
  // Properties of the message blocks

  /**
   * The error block is empty exactly when the text it assembles is "<pre></pre>":
   * an empty message and an empty stack trace, or no message and a stack trace
   * that reads "<pre>". Line breaks in it can only come from the message.
   * Without a `Message` child it carries no opening "<pre>".
   */
  lemma ErrorBlockShape(info: XNode)
    ensures ErrorBlock(info) == "" <==>
              (MessageText(info).Some? && MessageText(info).value + StackTraceText(info) == "")
              || (MessageText(info).None? && StackTraceText(info) == "<pre>")
    ensures '\r' in ErrorBlock(info) ==> MessageText(info).Some? && '\r' in MessageText(info).value
    ensures '\n' in ErrorBlock(info) ==> MessageText(info).Some? && '\n' in MessageText(info).value
    ensures ErrorBlock(info) != "" ==> IsSuffix("</pre>", ErrorBlock(info))
    ensures ErrorBlock(info) != "" ==> (IsPrefix("<pre>", ErrorBlock(info)) <== MessageText(info).Some?)
  {
    var m, st := MessageText(info), StackTraceText(info);
    PreBlockEmptyIff(m, st);
    PreBlockDelimited(m, st);
    PreBlockChars(m, st, '\r');
    PreBlockChars(m, st, '\n');
  }

  lemma PreBlockEmptyIff(message: Option<string>, trace: string)
    ensures PreBlock(message, trace) == "" <==>
              (message.Some? && message.value + trace == "") || (message.None? && trace == "<pre>")
  {
    match message
    case Some(m) =>
      var block := "<pre>" + m + trace + "</pre>";
      if block == "<pre></pre>" {
        assert |m + trace| == 0;
      }
      if m + trace == "" {
        assert block == "<pre>" + "</pre>";
      }
    case None =>
      var block := trace + "</pre>";
      if block == "<pre></pre>" {
        assert trace == block[..5];
      }
  }

  lemma PreBlockDelimited(message: Option<string>, trace: string)
    ensures PreBlock(message, trace) != "" ==> IsSuffix("</pre>", PreBlock(message, trace))
    ensures PreBlock(message, trace) != "" && message.Some? ==> IsPrefix("<pre>", PreBlock(message, trace))
  {
    if message.Some? {
      var block := "<pre>" + message.value + trace + "</pre>";
      assert block[..5] == "<pre>";
    }
  }

  /** A character of the block comes from the markup, the message or the trace. */
  lemma PreBlockChars(message: Option<string>, trace: string, c: char)
    requires c !in "<pre>" && c !in "</pre>" && c !in trace
    ensures c in PreBlock(message, trace) ==> message.Some? && c in message.value
  {
    if message.Some? {
      var block := "<pre>" + message.value + trace + "</pre>";
      assert c in block ==> c in "<pre>" || c in message.value || c in trace || c in "</pre>";
    } else {
      var block := trace + "</pre>";
      assert c in block ==> c in trace || c in "</pre>";
    }
  }

  /** The description block is empty exactly when every `StdOut` visited had empty text. */
  lemma DescriptionEmptyIff(ns: seq<XNode>, encode: string -> string)
    ensures Visit(ns, encode).desc == "" <==>
              forall k :: 0 <= k < |ns| && IsStdOut(ns[k]) ==> InnerText(ns[k]) == ""
    ensures Visit(ns, encode).desc != "" ==>
              IsPrefix(DescriptionOpen, Visit(ns, encode).desc) && IsSuffix("</p>", Visit(ns, encode).desc)
  {
    DescriptionEmptyIffCount(ns, encode);
    NoStdOutTextIff(ns);
  }

  /** The number of `StdOut` nodes with non-empty text. */
  function CountStdOutText(ns: seq<XNode>): nat
    decreases |ns|
  {
    if |ns| == 0 then 0
    else CountStdOutText(ns[..|ns| - 1]) + if IsStdOut(ns[|ns| - 1]) && InnerText(ns[|ns| - 1]) != "" then 1 else 0
  }

  lemma {:induction false} DescriptionEmptyIffCount(ns: seq<XNode>, encode: string -> string)
    ensures Visit(ns, encode).desc == "" <==> CountStdOutText(ns) == 0
    ensures Visit(ns, encode).desc != "" ==>
              IsPrefix(DescriptionOpen, Visit(ns, encode).desc) && IsSuffix("</p>", Visit(ns, encode).desc)
    decreases |ns|
  {
    if |ns| > 0 {
      var init := ns[..|ns| - 1];
      var n := ns[|ns| - 1];
      DescriptionEmptyIffCount(init, encode);
      DescriptionVisit(Visit(init, encode), n, encode);
      if IsStdOut(n) {
        DescriptionStep(Visit(init, encode).desc, InnerText(n));
      }
    }
  }

  lemma {:induction false} NoStdOutTextIff(ns: seq<XNode>)
    ensures CountStdOutText(ns) == 0 <==> forall k :: 0 <= k < |ns| && IsStdOut(ns[k]) ==> InnerText(ns[k]) == ""
    decreases |ns|
  {
    if |ns| > 0 {
      var init := ns[..|ns| - 1];
      NoStdOutTextIff(init);
      assert forall k :: 0 <= k < |init| ==> init[k] == ns[k];
    }
  }

  /** One `StdOut` visit: the block stays or becomes "" only when it was "" and the text is "". */
  lemma DescriptionStep(b: string, text: string)
    requires b != "" ==> IsPrefix(DescriptionOpen, b)
    ensures var d := b + DescriptionOpen + text + "</p>";
            var r := if d == EmptyDescription then "" else d;
            && (r == "" <==> b == "" && text == "")
            && (r != "" ==> IsPrefix(DescriptionOpen, r) && IsSuffix("</p>", r))
  {
    var d := b + DescriptionOpen + text + "</p>";
    assert d[|d| - 4..] == "</p>";
    if b != "" {
      assert d[..|DescriptionOpen|] == b[..|DescriptionOpen|];
      assert |d| > |EmptyDescription|;
    } else if text != "" {
      assert |d| > |EmptyDescription|;
      assert d == DescriptionOpen + text + "</p>";
      assert d[..|DescriptionOpen|] == DescriptionOpen;
    } else {
      assert d == EmptyDescription;
    }
  }

  /** The trace block is empty exactly when no `DebugTrace` was visited: each one adds "<pre>…</pre>", even for empty text. */
  lemma {:induction false} TraceEmptyIff(ns: seq<XNode>, encode: string -> string)
    ensures Visit(ns, encode).trace == "" <==> forall k :: 0 <= k < |ns| ==> !IsDebugTrace(ns[k])
  {
    TraceEmptyIffCount(ns, encode);
    NoDebugTraceIff(ns);
  }

  lemma {:induction false} TraceEmptyIffCount(ns: seq<XNode>, encode: string -> string)
    ensures Visit(ns, encode).trace == "" <==> CountDebugTraces(ns) == 0
    decreases |ns|
  {
    if |ns| > 0 {
      TraceEmptyIffCount(ns[..|ns| - 1], encode);
      TraceStep(Visit(ns[..|ns| - 1], encode), ns[|ns| - 1], encode);
    }
  }

  lemma {:induction false} NoDebugTraceIff(ns: seq<XNode>)
    ensures CountDebugTraces(ns) == 0 <==> forall k :: 0 <= k < |ns| ==> !IsDebugTrace(ns[k])
    decreases |ns|
  {
    if |ns| > 0 {
      var init := ns[..|ns| - 1];
      NoDebugTraceIff(init);
      assert forall k :: 0 <= k < |init| ==> init[k] == ns[k];
    }
  }

  /** Every `DebugTrace` visited adds at least the eleven characters of "<pre></pre>" to the trace block. */
  lemma {:induction false} TraceLength(ns: seq<XNode>, encode: string -> string)
    ensures |Visit(ns, encode).trace| >= 11 * CountDebugTraces(ns)
    decreases |ns|
  {
    if |ns| > 0 {
      TraceLength(ns[..|ns| - 1], encode);
      TraceStep(Visit(ns[..|ns| - 1], encode), ns[|ns| - 1], encode);
    }
  }

  function CountDebugTraces(ns: seq<XNode>): nat
    decreases |ns|
  {
    if |ns| == 0 then 0
    else CountDebugTraces(ns[..|ns| - 1]) + if IsDebugTrace(ns[|ns| - 1]) then 1 else 0
  }

  /** A visit changes the error block only for an `ErrorInfo`, which replaces it. */
  lemma ErrorStep(b: Blocks, n: XNode, encode: string -> string)
    ensures Step(b, n, encode).error == if IsErrorInfo(n) then ErrorBlock(n) else b.error
  {
  }

  /** A visit changes the description block only for a `StdOut`, which appends a paragraph to it. */
  lemma DescriptionVisit(b: Blocks, n: XNode, encode: string -> string)
    ensures var d := b.desc + DescriptionOpen + InnerText(n) + "</p>";
            Step(b, n, encode).desc == if IsStdOut(n) then (if d == EmptyDescription then "" else d) else b.desc
  {
  }

  /** A visit changes the trace block only for a `DebugTrace`, by appending one "<pre>…</pre>" entry. */
  lemma TraceStep(b: Blocks, n: XNode, encode: string -> string)
    ensures Step(b, n, encode).trace
            == if IsDebugTrace(n) then b.trace + "<pre>" + encode(InnerText(n)) + "</pre>" else b.trace
  {
  }

  /** A later `ErrorInfo` replaces an earlier one: the error block is that of the last one, or "" without any. */
  lemma {:induction false} LastErrorInfoWins(ns: seq<XNode>, encode: string -> string)
    ensures (forall k :: 0 <= k < |ns| ==> !IsErrorInfo(ns[k])) ==> Visit(ns, encode).error == ""
    ensures forall k :: 0 <= k < |ns| && IsErrorInfo(ns[k]) && (forall j :: k < j < |ns| ==> !IsErrorInfo(ns[j]))
                ==> Visit(ns, encode).error == ErrorBlock(ns[k])
    decreases |ns|
  {
    if |ns| > 0 {
      var init := ns[..|ns| - 1];
      var n := ns[|ns| - 1];
      assert ns == init + [n];
      LastErrorInfoWins(init, encode);
      ErrorStep(Visit(init, encode), n, encode);
      var e := Visit(init, encode).error;
      assert Visit(ns, encode).error == if IsErrorInfo(n) then ErrorBlock(n) else e;
      forall k | 0 <= k < |ns| && IsErrorInfo(ns[k]) && (forall j :: k < j < |ns| ==> !IsErrorInfo(ns[j]))
        ensures Visit(ns, encode).error == ErrorBlock(ns[k])
      {
        if k < |init| {
          assert !IsErrorInfo(n);
          assert init[k] == ns[k];
          assert forall j :: k < j < |init| ==> !IsErrorInfo(init[j]) by {
            forall j | k < j < |init| ensures !IsErrorInfo(init[j]) {
              assert init[j] == ns[j];
            }
          }
        }
      }
      if forall k :: 0 <= k < |ns| ==> !IsErrorInfo(ns[k]) {
        assert !IsErrorInfo(n);
        assert forall k :: 0 <= k < |init| ==> !IsErrorInfo(init[k]) by {
          forall k | 0 <= k < |init| ensures !IsErrorInfo(init[k]) {
            assert init[k] == ns[k];
          }
        }
      }
    }
  }

  /** A record whose only message content is an error: the status message is just the error block. */
  lemma ErrorOnlyMessage(children: seq<XNode>, encode: string -> string)
    requires var ns := MessageNodes(children);
             && (forall k :: 0 <= k < |ns| && IsStdOut(ns[k]) ==> InnerText(ns[k]) == "")
             && (forall k :: 0 <= k < |ns| ==> !IsDebugTrace(ns[k]))
    ensures StatusMessage(children, encode) == Visit(MessageNodes(children), encode).error
  {
    DescriptionEmptyIff(MessageNodes(children), encode);
    TraceEmptyIff(MessageNodes(children), encode);
  }
}
