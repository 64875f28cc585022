/**
 * The parts of .NET's string library that the MSTest 2010 parser relies on,
 * written out with ordinal (character-by-character) semantics:
 * `String.Split(char)`, `String.Join`, `String.StartsWith`, the two-way
 * `String.Split(string[], 2, None)`, `String.Replace(x, "")`, `String.Trim`,
 * `String.IsNullOrWhiteSpace` and a case-insensitive comparison.
 */
module Text {

  import opened Wrappers

  predicate IsPrefix(p: string, s: string) {
    |p| <= |s| && s[..|p|] == p
  }

  predicate IsSuffix(t: string, s: string) {
    |t| <= |s| && s[|s| - |t|..] == t
  }

  /** `pat` occurs in `s` starting at index `i`. */
  predicate Occurs(s: string, pat: string, i: int) {
    0 <= i && i + |pat| <= |s| && s[i..i + |pat|] == pat
  }

  lemma OccursShift(s: string, pat: string, i: int)
    requires 1 <= |s| && 0 <= i
    ensures Occurs(s[1..], pat, i) <==> Occurs(s, pat, i + 1)
  {
    if 0 <= i && i + |pat| <= |s| - 1 {
      assert s[1..][i..i + |pat|] == s[i + 1..i + 1 + |pat|];
    }
  }

  // ---------------------------------------------------------------------
  // Splitting on one character and joining back

  /** `s.Split(sep)`: the pieces between separators, always at least one. */
  function Split(s: string, sep: char): (parts: seq<string>)
    ensures |parts| >= 1
    ensures forall k :: 0 <= k < |parts| ==> sep !in parts[k]
    decreases |s|
  {
    if |s| == 0 then [""]
    else
      var rest := Split(s[1..], sep);
      if s[0] == sep then [""] + rest
      else [[s[0]] + rest[0]] + rest[1..]
  }

  /** `String.Join(sep, parts)`. */
  function Join(parts: seq<string>, sep: char): string
    decreases |parts|
  {
    if |parts| == 0 then ""
    else if |parts| == 1 then parts[0]
    else parts[0] + [sep] + Join(parts[1..], sep)
  }

  lemma {:induction false} JoinSplit(s: string, sep: char)
    ensures Join(Split(s, sep), sep) == s
    decreases |s|
  {
    if |s| > 0 {
      var rest := Split(s[1..], sep);
      JoinSplit(s[1..], sep);
      if s[0] == sep {
        assert Split(s, sep) == [""] + rest;
      } else {
        var parts := Split(s, sep);
        assert parts == [[s[0]] + rest[0]] + rest[1..];
        if |rest| == 1 {
          assert Join(rest, sep) == rest[0];
        } else {
          assert parts[1..] == rest[1..];
          assert Join(rest, sep) == rest[0] + [sep] + Join(rest[1..], sep);
        }
      }
    }
  }

  /** Joining a leading slice of the pieces gives a prefix of the whole join. */
  lemma {:induction false} JoinPrefix(parts: seq<string>, k: nat, sep: char)
    requires k <= |parts|
    ensures IsPrefix(Join(parts[..k], sep), Join(parts, sep))
    decreases |parts|
  {
    if k == |parts| {
      assert parts[..k] == parts;
    } else if k == 0 {
    } else if |parts| >= 2 {
      var whole := Join(parts, sep);
      assert whole == parts[0] + [sep] + Join(parts[1..], sep);
      JoinPrefix(parts[1..], k - 1, sep);
      assert parts[1..][..k - 1] == parts[1..k];
      if k == 1 {
        assert parts[..k] == [parts[0]];
      } else {
        assert parts[..k][1..] == parts[1..k];
        assert Join(parts[..k], sep) == parts[0] + [sep] + Join(parts[1..k], sep);
      }
    }
  }

  /** Splitting `x + sep + y` splits `x` and `y` separately. */
  lemma {:induction false} SplitAround(x: string, sep: char, y: string)
    ensures Split(x + [sep] + y, sep) == Split(x, sep) + Split(y, sep)
    decreases |x|
  {
    var s := x + [sep] + y;
    if |x| == 0 {
      assert s[1..] == y;
    } else {
      assert s[1..] == x[1..] + [sep] + y;
      SplitAround(x[1..], sep, y);
    }
  }

  /** The last piece of `s.Split(sep)`, i.e. `s.Split(sep).Last()`. */
  function LastPiece(s: string, sep: char): (r: string)
    ensures sep !in r
  {
    var parts := Split(s, sep); parts[|parts| - 1]
  }

  /** The first piece of `s.Split(sep)`, i.e. `s.Split(sep).First()`. */
  function FirstPiece(s: string, sep: char): (r: string)
    ensures sep !in r
  {
    Split(s, sep)[0]
  }

  lemma {:induction false} FirstPieceIsPrefix(s: string, sep: char)
    ensures IsPrefix(FirstPiece(s, sep), s)
    ensures sep in s ==> |FirstPiece(s, sep)| < |s| && s[|FirstPiece(s, sep)|] == sep
    ensures sep !in s ==> FirstPiece(s, sep) == s
    decreases |s|
  {
    if |s| > 0 {
      FirstPieceIsPrefix(s[1..], sep);
      if s[0] != sep {
        assert sep in s ==> sep in s[1..];
        assert sep !in s ==> sep !in s[1..];
      }
    }
  }

  lemma {:induction false} LastPieceIsSuffix(s: string, sep: char)
    ensures IsSuffix(LastPiece(s, sep), s)
    ensures sep in s ==> |LastPiece(s, sep)| < |s| && s[|s| - |LastPiece(s, sep)| - 1] == sep
    ensures sep !in s ==> LastPiece(s, sep) == s
    decreases |s|
  {
    if |s| > 0 {
      var tail := s[1..];
      LastPieceIsSuffix(tail, sep);
      SplitSingleIff(tail, sep);
      var rest := Split(tail, sep);
      var last := LastPiece(tail, sep);
      assert last == rest[|rest| - 1];
      assert sep in s <==> s[0] == sep || sep in tail;
      if s[0] == sep {
        assert Split(s, sep) == [""] + rest;
        assert LastPiece(s, sep) == last;
        if sep !in tail {
          assert last == tail;
        }
      } else if |rest| == 1 {
        assert sep !in tail && last == tail;
        assert LastPiece(s, sep) == [s[0]] + rest[0];
        assert LastPiece(s, sep) == s;
      } else {
        assert sep in tail;
        assert Split(s, sep)[|Split(s, sep)| - 1] == rest[|rest| - 1];
        assert LastPiece(s, sep) == last;
      }
    }
  }

  /** `s.Split(sep)` has a single piece exactly when `sep` does not occur in `s`. */
  lemma {:induction false} SplitSingleIff(s: string, sep: char)
    ensures |Split(s, sep)| == 1 <==> sep !in s
    decreases |s|
  {
    if |s| > 0 {
      SplitSingleIff(s[1..], sep);
      assert sep in s <==> s[0] == sep || sep in s[1..];
    }
  }

  // ---------------------------------------------------------------------
  // Searching and replacing

  /** `s.StartsWith(p)`, compared ordinally. */
  predicate StartsWith(s: string, p: string) {
    IsPrefix(p, s)
  }

  /** The first index at or after `from` where `pat` occurs in `s`. */
  function FindFrom(s: string, pat: string, from: nat): (r: Option<nat>)
    ensures r.Some? ==> from <= r.value && Occurs(s, pat, r.value)
    ensures r.Some? ==> forall j :: from <= j < r.value ==> !Occurs(s, pat, j)
    ensures r.None? ==> forall j :: from <= j ==> !Occurs(s, pat, j)
    decreases |s| - from
  {
    if from + |pat| > |s| then None
    else if s[from..from + |pat|] == pat then Some(from)
    else FindFrom(s, pat, from + 1)
  }

  /**
   * `s.Split(new[] { sep }, 2, StringSplitOptions.None).Last()`: everything
   * after the FIRST occurrence of `sep`, or `s` itself when `sep` does not occur.
   */
  function AfterFirst(s: string, sep: string): (r: string)
    ensures IsSuffix(r, s)
  {
    match FindFrom(s, sep, 0)
    case Some(i) => s[i + |sep|..]
    case None => s
  }

  /** `s.Replace(pat, "")`: removes the occurrences of `pat` found scanning left to right. */
  function RemoveAll(s: string, pat: string): (r: string)
    requires |pat| > 0
    ensures |r| <= |s|
    decreases |s|
  {
    if |s| < |pat| then s
    else if s[..|pat|] == pat then RemoveAll(s[|pat|..], pat)
    else [s[0]] + RemoveAll(s[1..], pat)
  }

  /** `Replace` leaves the text alone exactly when the pattern does not occur in it. */
  lemma {:induction false} RemoveAllUnchangedIff(s: string, pat: string)
    requires |pat| > 0
    ensures RemoveAll(s, pat) == s <==> forall i :: !Occurs(s, pat, i)
    decreases |s|
  {
    if |s| >= |pat| {
      if s[..|pat|] == pat {
        assert Occurs(s, pat, 0);
        assert |RemoveAll(s[|pat|..], pat)| <= |s| - |pat|;
      } else {
        assert !Occurs(s, pat, 0);
        RemoveAllUnchangedIff(s[1..], pat);
        forall i | 0 <= i ensures Occurs(s[1..], pat, i) <==> Occurs(s, pat, i + 1) {
          OccursShift(s, pat, i);
        }
        if forall i :: !Occurs(s, pat, i) {
          assert forall i :: !Occurs(s[1..], pat, i);
        } else {
          var i :| Occurs(s, pat, i);
          assert i >= 1 && Occurs(s[1..], pat, i - 1);
        }
      }
    }
  }

  /**
   * `Replace` cuts out the leftmost occurrence and carries on after it: the text before
   * the first occurrence is kept as it is.
   */
  lemma RemoveAllFirst(s: string, pat: string, i: nat)
    requires |pat| > 0 && Occurs(s, pat, i)
    requires forall j :: 0 <= j < i ==> !Occurs(s, pat, j)
    ensures RemoveAll(s, pat) == s[..i] + RemoveAll(s[i + |pat|..], pat)
  {
    assert s == s[..i] + pat + s[i + |pat|..];
    RemoveAllAfter(s[..i], pat, s[i + |pat|..]);
  }

  /** `a + pat + b`, with no occurrence of `pat` starting inside `a`, loses exactly that `pat`. */
  lemma {:induction false} RemoveAllAfter(a: string, pat: string, b: string)
    requires |pat| > 0
    requires forall j :: 0 <= j < |a| ==> !Occurs(a + pat + b, pat, j)
    ensures RemoveAll(a + pat + b, pat) == a + RemoveAll(b, pat)
    decreases |a|
  {
    var s := a + pat + b;
    if |a| == 0 {
      assert s[..|pat|] == pat && s[|pat|..] == b;
    } else {
      var t := a[1..] + pat + b;
      assert s[1..] == t;
      RemoveAllKeepsHead(s, pat);
      forall j | 0 <= j < |a| - 1 ensures !Occurs(t, pat, j) {
        OccursShift(s, pat, j);
      }
      RemoveAllAfter(a[1..], pat, b);
      assert [s[0]] + a[1..] == a;
    }
  }

  /** Without an occurrence at the start, `Replace` keeps the first character. */
  lemma RemoveAllKeepsHead(s: string, pat: string)
    requires |pat| > 0 && |s| >= |pat| && !Occurs(s, pat, 0)
    ensures RemoveAll(s, pat) == [s[0]] + RemoveAll(s[1..], pat)
  {
    assert s[0..|pat|] == s[..|pat|];
  }

  /** `Replace` with the first occurrence found by `FindFrom`, and without any. */
  lemma RemoveAllLeftmost(s: string, pat: string)
    requires |pat| > 0
    ensures match FindFrom(s, pat, 0)
            case Some(i) => RemoveAll(s, pat) == s[..i] + RemoveAll(s[i + |pat|..], pat)
            case None => RemoveAll(s, pat) == s
  {
    match FindFrom(s, pat, 0)
    case Some(i) => RemoveAllFirst(s, pat, i);
    case None => RemoveAllUnchangedIff(s, pat);
  }

  /** Removing a single character is a filter: it works piece by piece ... */
  lemma {:induction false} RemoveAllCharConcat(a: string, b: string, c: char)
    ensures RemoveAll(a + b, [c]) == RemoveAll(a, [c]) + RemoveAll(b, [c])
    decreases |a|
  {
    if |a| > 0 {
      assert (a + b)[1..] == a[1..] + b;
      assert (a + b)[..1] == a[..1];
      RemoveAllCharConcat(a[1..], b, c);
    } else {
      assert a + b == b;
    }
  }

  /** ... and drops a character exactly when it is `c`. */
  lemma RemoveAllCharSingle(d: char, c: char)
    ensures RemoveAll([d], [c]) == if d == c then [] else [d]
  {
    assert [d][1..] == [];
  }

  /** Replacing a one-character pattern removes that character and keeps every other one. */
  lemma {:induction false} RemoveAllChar(s: string, c: char)
    ensures c !in RemoveAll(s, [c])
    ensures forall d :: d != c ==> (d in RemoveAll(s, [c]) <==> d in s)
    decreases |s|
  {
    if |s| >= 1 {
      RemoveAllChar(s[1..], c);
      assert s == [s[0]] + s[1..];
    }
  }

  // ---------------------------------------------------------------------
  // White space and trimming

  /** `char.IsWhiteSpace`: Unicode separators plus U+0009..U+000D and U+0085. */
  predicate IsWhiteSpace(c: char) {
    c == ' ' || ('\t' <= c <= '\r') || c == '\U{85}' || c == '\U{A0}' || c == '\U{1680}'
    || ('\U{2000}' <= c <= '\U{200A}') || c == '\U{2028}' || c == '\U{2029}'
    || c == '\U{202F}' || c == '\U{205F}' || c == '\U{3000}'
  }

  /** `string.IsNullOrWhiteSpace` for a present string. */
  predicate IsWhiteSpaceOnly(s: string) {
    forall k :: 0 <= k < |s| ==> IsWhiteSpace(s[k])
  }

  function TrimStart(s: string): (r: string)
    ensures IsSuffix(r, s)
    ensures |r| == 0 || !IsWhiteSpace(r[0])
    ensures forall k :: 0 <= k < |s| - |r| ==> IsWhiteSpace(s[k])
    decreases |s|
  {
    if |s| > 0 && IsWhiteSpace(s[0]) then TrimStart(s[1..]) else s
  }

  function TrimEnd(s: string): (r: string)
    ensures IsPrefix(r, s)
    ensures |r| == 0 || !IsWhiteSpace(r[|r| - 1])
    ensures forall k :: |r| <= k < |s| ==> IsWhiteSpace(s[k])
    decreases |s|
  {
    if |s| > 0 && IsWhiteSpace(s[|s| - 1]) then TrimEnd(s[..|s| - 1]) else s
  }

  /** `s.Trim()`: `s` without its leading and trailing white space. */
  function Trim(s: string): (r: string)
    ensures |r| <= |s|
    ensures |r| == 0 || (!IsWhiteSpace(r[0]) && !IsWhiteSpace(r[|r| - 1]))
    ensures forall c :: c in r ==> c in s
    ensures exists i :: TrimmedAt(s, r, i)
  {
    var t := TrimStart(s);
    var r := TrimEnd(t);
    MiddleOf(s, t, r);
    r
  }

  /** A white-space-led suffix `t` of `s` and a prefix `r` of `t` followed by white space place `r` in `s`. */
  lemma MiddleOf(s: string, t: string, r: string)
    requires IsSuffix(t, s) && forall k :: 0 <= k < |s| - |t| ==> IsWhiteSpace(s[k])
    requires IsPrefix(r, t) && forall k :: |r| <= k < |t| ==> IsWhiteSpace(t[k])
    ensures TrimmedAt(s, r, |s| - |t|)
  {
    var i := |s| - |t|;
    assert t == s[i..];
    assert r == s[i..i + |r|];
    forall k | i + |r| <= k < |s|
      ensures IsWhiteSpace(s[k])
    {
      assert s[k] == t[k - i];
    }
  }

  /** `r` is the stretch of `s` from `i`, with only white space before and after it. */
  predicate TrimmedAt(s: string, r: string, i: int) {
    && 0 <= i && i + |r| <= |s| && r == s[i..i + |r|]
    && (forall k :: 0 <= k < i ==> IsWhiteSpace(s[k]))
    && (forall k :: i + |r| <= k < |s| ==> IsWhiteSpace(s[k]))
  }

  // ---------------------------------------------------------------------
  // Case-insensitive comparison

  /** ASCII lower-casing of one character. */
  function Lower(c: char): char {
    if 'A' <= c <= 'Z' then (c as int - 'A' as int + 'a' as int) as char else c
  }

  function Fold(s: string): (r: string)
    ensures |r| == |s|
  {
    seq(|s|, k requires 0 <= k < |s| => Lower(s[k]))
  }

  /** `a.Equals(b, StringComparison.CurrentCultureIgnoreCase)`, approximated by ASCII case folding. */
  predicate EqualsIgnoreCase(a: string, b: string) {
    Fold(a) == Fold(b)
  }

  /**
   * Comparing names ignoring case is an equivalence; names that compare equal have the same
   * length and agree character by character once lowered.
   */
  lemma IgnoreCaseEquivalence(a: string, b: string, c: string)
    ensures EqualsIgnoreCase(a, a)
    ensures EqualsIgnoreCase(a, b) ==> EqualsIgnoreCase(b, a) && |a| == |b|
    ensures EqualsIgnoreCase(a, b) && EqualsIgnoreCase(b, c) ==> EqualsIgnoreCase(a, c)
    ensures EqualsIgnoreCase(a, b) ==> forall k :: 0 <= k < |a| ==> Lower(a[k]) == Lower(b[k])
  {
    if EqualsIgnoreCase(a, b) {
      forall k | 0 <= k < |a|
        ensures Lower(a[k]) == Lower(b[k])
      {
        assert Fold(a)[k] == Fold(b)[k];
      }
    }
  }

  // ---------------------------------------------------------------------
  // Decimal formatting

  function DigitChar(d: nat): char
    requires d < 10
  {
    "0123456789"[d]
  }

  /** The decimal digits of `n`, as `string.Format("{0}", n)` writes them. */
  function NatToString(n: nat): (r: string)
    ensures |r| >= 1
    ensures forall k :: 0 <= k < |r| ==> '0' <= r[k] <= '9'
  {
    if n < 10 then [DigitChar(n)] else NatToString(n / 10) + [DigitChar(n % 10)]
  }

  /** `string.Format("{0}", n)` for a whole number. */
  function IntToString(n: int): string {
    if n < 0 then "-" + NatToString(-n) else NatToString(n)
  }

}
