/**
 * `MsTest2010.FixtureName`: derives the short grouping key of a fixture from
 * the `className` attribute of a test's `TestMethod`, which is a bare type
 * name, an assembly-qualified name ("Ns.Type, Assembly, Version=..., ...") or
 * a generic name such as "Ns.Type<A,B>".
 */
module FixtureNames {

  import opened Wrappers
  import opened Text

  /**
   * `className.Split(',').Reverse().SkipWhile(x => x.Contains('='))`, kept in
   * the original order: the comma pieces without the trailing run of
   * `key=value` pieces.
   */
  function DropMetadata(pieces: seq<string>): (kept: seq<string>)
    ensures |kept| <= |pieces| && kept == pieces[..|kept|]
    ensures forall k :: |kept| <= k < |pieces| ==> '=' in pieces[k]
    ensures |kept| == 0 || '=' !in kept[|kept| - 1]
    decreases |pieces|
  {
    if |pieces| > 0 && '=' in pieces[|pieces| - 1] then DropMetadata(pieces[..|pieces| - 1])
    else pieces
  }

  /** The type name and the (possibly empty) assembly name read off a class name. */
  datatype QualifiedName = QualifiedName(typeName: string, assemblyName: string)

  /**
   * Lines 270-279: when at least two pieces remain and the last has no '>',
   * that piece (trimmed) is the assembly name and the others, re-joined with
   * ',', are the type name; otherwise every remaining piece is the type name.
   */
  function SplitAssembly(className: string): (q: QualifiedName)
    ensures IsPrefix(q.typeName, className)
    ensures ',' !in q.assemblyName && '=' !in q.assemblyName && '>' !in q.assemblyName
    ensures q.assemblyName == [] || (!IsWhiteSpace(q.assemblyName[0]) && !IsWhiteSpace(q.assemblyName[|q.assemblyName| - 1]))
  {
    var pieces := Split(className, ',');
    var kept := DropMetadata(pieces);
    JoinSplit(className, ',');
    if |kept| > 1 && '>' !in kept[|kept| - 1] then
      JoinPrefix(pieces, |kept| - 1, ',');
      assert kept[..|kept| - 1] == pieces[..|kept| - 1];
      QualifiedName(Join(kept[..|kept| - 1], ','), Trim(kept[|kept| - 1]))
    else
      JoinPrefix(pieces, |kept|, ',');
      QualifiedName(Join(kept, ','), "")
  }

  /**
   * Lines 286-290, for one candidate prefix: an empty prefix changes nothing,
   * a leading "prefix." is cut off, and otherwise everything up to and
   * including the first ".prefix." is cut off.
   */
  function StripPrefix(typeName: string, prefix: string): (r: string)
    ensures IsSuffix(r, typeName)
  {
    if |prefix| == 0 then typeName
    else if StartsWith(typeName, prefix + ".") then typeName[|prefix| + 1..]
    else AfterFirst(typeName, "." + prefix + ".")
  }

  /** `FixtureName(className)`, with `_fileNameWithoutExtension` passed as `fileBase`. */
  function FixtureName(className: Option<string>, fileBase: string): (r: string)
    ensures className.None? ==> r == ""
    ensures className.Some? ==> IsSuffix(r, SplitAssembly(className.value).typeName)
    ensures className.Some? ==> |r| <= |className.value|
  {
    match className
    case None => ""
    case Some(c) =>
      var q := SplitAssembly(c);
      var byFile := StripPrefix(q.typeName, fileBase);
      var byAssembly := StripPrefix(q.typeName, q.assemblyName);
      // OrderBy(x => x.Length).First() is stable: a tie keeps the first candidate
      if |byAssembly| < |byFile| then byAssembly else byFile
  }

  // ---------------------------------------------------------------------
  // Properties

  /** The result is the shorter of the two stripped candidates; a tie goes to the file-name candidate. */
  lemma FixtureNameIsShortestCandidate(className: string, fileBase: string)
    ensures var q := SplitAssembly(className);
            var byFile := StripPrefix(q.typeName, fileBase);
            var byAssembly := StripPrefix(q.typeName, q.assemblyName);
            var r := FixtureName(Some(className), fileBase);
            && (r == byFile || r == byAssembly)
            && |r| <= |byFile| && |r| <= |byAssembly|
            && (|byFile| <= |byAssembly| ==> r == byFile)
  {
  }

  /** The four cases of stripping one prefix. */
  lemma StripPrefixCases(typeName: string, prefix: string)
    ensures |prefix| == 0 ==> StripPrefix(typeName, prefix) == typeName
    ensures |prefix| > 0 && StartsWith(typeName, prefix + ".") ==>
              StripPrefix(typeName, prefix) == typeName[|prefix| + 1..]
    ensures |prefix| > 0 && !StartsWith(typeName, prefix + ".") ==>
              forall i :: Occurs(typeName, "." + prefix + ".", i)
                       && (forall j :: 0 <= j < i ==> !Occurs(typeName, "." + prefix + ".", j))
                       ==> StripPrefix(typeName, prefix) == typeName[i + |prefix| + 2..]
    ensures |prefix| > 0 && !StartsWith(typeName, prefix + ".")
            && (forall i :: !Occurs(typeName, "." + prefix + ".", i)) ==>
              StripPrefix(typeName, prefix) == typeName
  {
    if |prefix| > 0 && !StartsWith(typeName, prefix + ".") {
      var sep := "." + prefix + ".";
      match FindFrom(typeName, sep, 0)
      case Some(k) =>
        forall i | Occurs(typeName, sep, i) && (forall j :: 0 <= j < i ==> !Occurs(typeName, sep, j))
          ensures StripPrefix(typeName, prefix) == typeName[i + |prefix| + 2..]
        {
          assert !(k < i) && !(i < k);
        }
      case None =>
    }
  }

  /** A name without `key=value` pieces whose last comma piece holds '>' (a generic type) is kept whole. */
  lemma {:induction false} GenericNameKeptWhole(className: string)
    requires '=' !in className
    requires ',' !in className || '>' in LastPiece(className, ',')
    ensures SplitAssembly(className) == QualifiedName(className, "")
  {
    var pieces := Split(className, ',');
    PiecesComeFrom(className, ',');
    var kept := DropMetadata(pieces);
    assert '=' !in pieces[|pieces| - 1];
    assert kept == pieces;
    SplitSingleIff(className, ',');
    JoinSplit(className, ',');
  }

  /**
   * "T, k1=v1, ..." whose type name T has no ',' outside a generic argument list (its last
   * comma piece holds '>') loses its `key=value` pieces and keeps T whole, with no assembly name:
   * "Ns.Foo<A,B>, Version=1" gives "Ns.Foo<A,B>", and "Foo, Culture=neutral" gives "Foo".
   */
  lemma {:induction false} PropertiesDropped(typeName: string, properties: seq<string>)
    requires |properties| >= 1
    requires forall k :: 0 <= k < |properties| ==> ',' !in properties[k] && '=' in properties[k]
    requires '=' !in LastPiece(typeName, ',')
    requires ',' !in typeName || '>' in LastPiece(typeName, ',')
    ensures SplitAssembly(typeName + "," + Join(properties, ',')) == QualifiedName(typeName, "")
  {
    var className := typeName + "," + Join(properties, ',');
    var head := Split(typeName, ',');
    SplitWithProperties(typeName, properties);
    KeepHead(head, properties);
    SplitSingleIff(typeName, ',');
    NoAssemblyBranch(className, head);
    JoinSplit(typeName, ',');
  }

  /** The `else` branch of lines 277-280: the kept pieces, re-joined, are the type name. */
  lemma NoAssemblyBranch(className: string, kept: seq<string>)
    requires kept == DropMetadata(Split(className, ','))
    requires |kept| <= 1 || '>' in kept[|kept| - 1]
    ensures SplitAssembly(className) == QualifiedName(Join(kept, ','), "")
  {
  }

  /** The comma pieces of "T,p1,...,pn" are those of T followed by the pi. */
  lemma SplitWithProperties(typeName: string, properties: seq<string>)
    requires |properties| >= 1
    requires forall k :: 0 <= k < |properties| ==> ',' !in properties[k]
    ensures Split(typeName + "," + Join(properties, ','), ',') == Split(typeName, ',') + properties
  {
    assert typeName + "," + Join(properties, ',') == typeName + [','] + Join(properties, ',');
    SplitJoin(properties, ',');
    SplitAround(typeName, ',', Join(properties, ','));
  }

  /** Trailing `key=value` pieces after a last piece without '=' are all dropped. */
  lemma {:induction false} KeepHead(head: seq<string>, properties: seq<string>)
    requires |head| >= 1 && '=' !in head[|head| - 1]
    requires forall k :: 0 <= k < |properties| ==> '=' in properties[k]
    ensures DropMetadata(head + properties) == head
    decreases |properties|
  {
    var s := head + properties;
    if |properties| == 0 {
      assert s == head;
    } else {
      var m := |properties| - 1;
      assert s[|s| - 1] == properties[m];
      assert s[..|s| - 1] == head + properties[..m];
      KeepHead(head, properties[..m]);
    }
  }

  /** A class name made only of `key=value` pieces (such as "Version=1") leaves nothing. */
  lemma OnlyProperties(properties: seq<string>)
    requires |properties| >= 1
    requires forall k :: 0 <= k < |properties| ==> ',' !in properties[k] && '=' in properties[k]
    ensures SplitAssembly(Join(properties, ',')) == QualifiedName("", "")
  {
    SplitJoin(properties, ',');
    assert DropMetadata(properties) == [];
  }

  /** Every character of a piece of `s.Split(sep)` is a character of `s`. */
  lemma {:induction false} PiecesComeFrom(s: string, sep: char)
    ensures forall k, c :: 0 <= k < |Split(s, sep)| && c in Split(s, sep)[k] ==> c in s
    decreases |s|
  {
    if |s| > 0 {
      PiecesComeFrom(s[1..], sep);
      var rest := Split(s[1..], sep);
      assert forall c :: c in s[1..] ==> c in s;
      if s[0] != sep {
        assert forall c :: c in [s[0]] + rest[0] ==> c == s[0] || c in rest[0];
      }
    }
  }

  /** `String.Join(sep, parts).Split(sep)` gives `parts` back when no part holds `sep`. */
  lemma {:induction false} SplitJoin(parts: seq<string>, sep: char)
    requires |parts| >= 1
    requires forall k :: 0 <= k < |parts| ==> sep !in parts[k]
    ensures Split(Join(parts, sep), sep) == parts
    decreases |parts|
  {
    SplitSingleIff(parts[0], sep);
    JoinSplit(parts[0], sep);
    if |parts| >= 2 {
      SplitJoin(parts[1..], sep);
      SplitAround(parts[0], sep, Join(parts[1..], sep));
    }
  }

  /**
   * An assembly-qualified name "T, A, k1=v1, ..." splits into the type name T
   * (which may itself hold commas, as in "Ns.Foo<A,B>") and the trimmed assembly name A.
   */
  lemma {:induction false} AssemblyQualifiedName(typeName: string, assembly: string, properties: seq<string>)
    requires ',' !in assembly && '=' !in assembly && '>' !in assembly
    requires forall k :: 0 <= k < |properties| ==> ',' !in properties[k] && '=' in properties[k]
    ensures SplitAssembly(typeName + "," + Join([assembly] + properties, ','))
            == QualifiedName(typeName, Trim(assembly))
  {
    var tail := [assembly] + properties;
    var className := typeName + [','] + Join(tail, ',');
    assert typeName + "," + Join(tail, ',') == className;
    SplitJoin(tail, ',');
    SplitAround(typeName, ',', Join(tail, ','));
    var head := Split(typeName, ',');
    DropTrailingProperties(head, tail);
    var kept := head + [assembly];
    assert DropMetadata(Split(className, ',')) == kept;
    assert kept[..|kept| - 1] == head;
    JoinSplit(typeName, ',');
  }

  /** Only the trailing `key=value` pieces are dropped, down to the first piece without '='. */
  lemma {:induction false} DropTrailingProperties(head: seq<string>, tail: seq<string>)
    requires |tail| >= 1 && '=' !in tail[0]
    requires forall k :: 1 <= k < |tail| ==> '=' in tail[k]
    ensures DropMetadata(head + tail) == head + [tail[0]]
    decreases |tail|
  {
    if |tail| == 1 {
    } else {
      assert (head + tail)[..|head + tail| - 1] == head + tail[..|tail| - 1];
      DropTrailingProperties(head, tail[..|tail| - 1]);
    }
  }

  /** The assembly-qualified class name of one test class, with a file named after its assembly. */
  const ExampleClassName: string := "Lib.Tests.Case" + ", Lib" + ", Version=1"

  /** The example: the assembly name and its property go, and so does the leading "Lib.". */
  lemma QualifiedExample(className: string)
    requires className == ExampleClassName
    ensures FixtureName(Some(className), "Lib") == "Tests.Case"
  {
    ExampleSplit(className);
    ExampleStrip(SplitAssembly(className));
  }

  lemma ExampleStrip(q: QualifiedName)
    requires q == QualifiedName("Lib.Tests.Case", "Lib")
    ensures StripPrefix(q.typeName, "Lib") == "Tests.Case"
    ensures StripPrefix(q.typeName, q.assemblyName) == "Tests.Case"
  {
    assert StartsWith(q.typeName, "Lib" + ".");
  }

  lemma ExampleSplit(className: string)
    requires className == ExampleClassName
    ensures SplitAssembly(className) == QualifiedName("Lib.Tests.Case", "Lib")
  {
    ExampleTrim();
    ExamplePieces(className, "Lib.Tests.Case", " Lib", [" Version=1"]);
  }

  lemma ExamplePieces(className: string, t: string, a: string, props: seq<string>)
    requires t == "Lib.Tests.Case" && a == " Lib" && props == [" Version=1"]
    requires className == ExampleClassName
    ensures SplitAssembly(className) == QualifiedName(t, Trim(a))
  {
    ExampleJoin(className, t, a, props);
    assert ',' !in a && '=' !in a && '>' !in a;
    assert '=' in props[0] && ',' !in props[0];
    AssemblyQualifiedName(t, a, props);
  }

  lemma ExampleJoin(className: string, t: string, a: string, props: seq<string>)
    requires t == "Lib.Tests.Case" && a == " Lib" && props == [" Version=1"]
    requires className == ExampleClassName
    ensures t + "," + Join([a] + props, ',') == className
  {
    var tail := [a] + props;
    assert tail[1..] == props;
    assert Join(props, ',') == props[0];
    assert Join(tail, ',') == a + [','] + Join(props, ',');
    assert ", Lib" == [','] + a;
    assert ", Version=1" == [','] + props[0];
  }

  lemma ExampleTrim()
    ensures Trim(" Lib") == "Lib"
  {
    var a := " Lib";
    var m := a[1..];
    assert m == "Lib";
    assert IsWhiteSpace(a[0]) && !IsWhiteSpace(m[0]) && !IsWhiteSpace(m[|m| - 1]);
    assert TrimStart(m) == m;
    assert TrimStart(a) == m;
    assert TrimEnd(m) == m;
  }
}
