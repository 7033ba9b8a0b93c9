/** The .NET string operations the core relies on, written out over
    `seq<char>`: `Split` on one character, `Replace` of a character and of a
    substring, `Trim`/`TrimEnd`, and the ordinal case folding used by a
    case-insensitive dictionary. */
module Strings {

  /** A string is the concatenation of its three slices at `i` and `j`. */
  lemma Slices(s: string, i: nat, j: nat)
    requires i <= j <= |s|
    ensures s == s[..i] + s[i..j] + s[j..]
  {
  }

  /* ---------------------------------------------------------------- */
  /* Occurrences of a substring                                        */
  /* ---------------------------------------------------------------- */

  /** `pat` occurs in `s` starting at index `i`. */
  predicate OccursAt(s: string, pat: string, i: nat) {
    i + |pat| <= |s| && s[i..i + |pat|] == pat
  }

  /** `pat` occurs somewhere in `s` (String.Contains). */
  predicate Contains(s: string, pat: string) {
    exists i: nat {:trigger OccursAt(s, pat, i)} :: i <= |s| && OccursAt(s, pat, i)
  }

  /** An occurrence in a non-empty string is either at its head or in its tail. */
  lemma ContainsStep(s: string, pat: string)
    requires |s| > 0
    ensures Contains(s, pat) <==> OccursAt(s, pat, 0) || Contains(s[1..], pat)
  {
    forall i: nat | i <= |s[1..]| && OccursAt(s[1..], pat, i)
      ensures OccursAt(s, pat, i + 1)
    {
      assert s[1..][i..i + |pat|] == s[i + 1..i + 1 + |pat|];
    }
    forall i: nat | 1 <= i <= |s| && OccursAt(s, pat, i)
      ensures OccursAt(s[1..], pat, i - 1)
    {
      assert s[1..][i - 1..i - 1 + |pat|] == s[i..i + |pat|];
    }
  }

  /** A pattern holding a character that `s` lacks does not occur in `s`. */
  lemma NotContainsMissingChar(s: string, pat: string, c: char)
    requires c in pat && c !in s
    ensures !Contains(s, pat)
  {
    var k :| 0 <= k < |pat| && pat[k] == c;
    forall i: nat | i <= |s| ensures !OccursAt(s, pat, i) {
      if i + |pat| <= |s| {
        assert s[i..i + |pat|][k] == s[i + k];
      }
    }
  }

  /** Gluing two strings with a character the pattern lacks cannot create
      an occurrence of the pattern. */
  lemma NotContainsAcross(a: string, c: char, b: string, pat: string)
    requires c !in pat
    requires !Contains(a, pat) && !Contains(b, pat)
    ensures !Contains(a + [c] + b, pat)
  {
    var s := a + [c] + b;
    forall i: nat | i <= |s| ensures !OccursAt(s, pat, i) {
      if i + |pat| <= |s| {
        if i + |pat| <= |a| {
          assert a[i..i + |pat|] == s[i..i + |pat|];
          assert !OccursAt(a, pat, i);
        } else if i > |a| {
          var j := i - |a| - 1;
          assert b[j..j + |pat|] == s[i..i + |pat|];
          assert !OccursAt(b, pat, j);
        } else {
          assert s[i..i + |pat|][|a| - i] == s[|a|] == c;
        }
      }
    }
  }

  /* ---------------------------------------------------------------- */
  /* String.Replace(pat, "")                                           */
  /* ---------------------------------------------------------------- */

  /** `s.Replace(pat, "")`: one left-to-right pass that drops every
      non-overlapping occurrence of `pat`. Occurrences that the removal
      itself brings together are not removed again. */
  function RemoveAll(s: string, pat: string): (r: string)
    requires |pat| > 0
    ensures |r| <= |s|
    decreases |s|
  {
    if |s| < |pat| then
      s
    else if s[..|pat|] == pat then
      RemoveAll(s[|pat|..], pat)
    else
      [s[0]] + RemoveAll(s[1..], pat)
  }

  /** The removal changes the string exactly when the pattern occurs in
      it, and then shortens it. */
  lemma {:induction false} RemoveAllChanges(s: string, pat: string)
    requires |pat| > 0
    ensures !Contains(s, pat) ==> RemoveAll(s, pat) == s
    ensures Contains(s, pat) ==> |RemoveAll(s, pat)| < |s|
    decreases |s|
  {
    if |s| < |pat| {
      ShortNotContains(s, pat);
    } else if s[..|pat|] == pat {
      assert OccursAt(s, pat, 0);
    } else {
      ContainsStep(s, pat);
      RemoveAllChanges(s[1..], pat);
      assert s == [s[0]] + s[1..];
    }
  }

  /** Removal is not limited to a leading occurrence: text before an
      occurrence that cannot start one is kept and the occurrence dropped. */
  lemma {:induction false} RemoveAllInner(a: string, pat: string, b: string)
    requires |pat| > 0 && pat[0] !in a
    ensures RemoveAll(a + pat + b, pat) == a + RemoveAll(b, pat)
    decreases |a|
  {
    if |a| == 0 {
      RemoveAllDrop(pat, b);
      assert a + pat + b == pat + b && a + RemoveAll(b, pat) == RemoveAll(b, pat);
    } else {
      RemoveAllInner(a[1..], pat, b);
      RemoveAllKeepPrefix(a, pat, b);
    }
  }

  /** One step of `RemoveAllInner`: the first character of `a` is kept. */
  lemma RemoveAllKeepPrefix(a: string, pat: string, b: string)
    requires |pat| > 0 && |a| > 0 && a[0] != pat[0]
    requires RemoveAll(a[1..] + pat + b, pat) == a[1..] + RemoveAll(b, pat)
    ensures RemoveAll(a + pat + b, pat) == a + RemoveAll(b, pat)
  {
    var s, t, x := a + pat + b, a[1..], RemoveAll(b, pat);
    assert s[0] == a[0] && |s| >= |pat|;
    assert s[1..] == t + pat + b;
    RemoveAllKeep(s, pat);
    assert [a[0]] + (t + x) == a + x by {
      assert a == [a[0]] + t;
    }
  }

  /** A leading occurrence is dropped. */
  lemma RemoveAllDrop(pat: string, b: string)
    requires |pat| > 0
    ensures RemoveAll(pat + b, pat) == RemoveAll(b, pat)
  {
    var s := pat + b;
    assert s[..|pat|] == pat && s[|pat|..] == b;
  }

  /** A first character that cannot start the pattern is kept. */
  lemma RemoveAllKeep(s: string, pat: string)
    requires |pat| > 0 && |s| >= |pat| && s[0] != pat[0]
    ensures RemoveAll(s, pat) == [s[0]] + RemoveAll(s[1..], pat)
  {
    assert s[..|pat|][0] != pat[0];
  }

  /** A string shorter than the pattern cannot contain it. */
  lemma ShortNotContains(s: string, pat: string)
    requires |s| < |pat|
    ensures !Contains(s, pat)
  {
  }

  /** A leading occurrence is removed and, when the rest holds none, the
      rest is all that is left. */
  lemma RemoveLeading(pat: string, rest: string)
    requires |pat| > 0 && !Contains(rest, pat)
    ensures RemoveAll(pat + rest, pat) == rest
  {
    RemoveAllDrop(pat, rest);
    RemoveAllChanges(rest, pat);
  }

  /* ---------------------------------------------------------------- */
  /* Trim and TrimEnd                                                  */
  /* ---------------------------------------------------------------- */

  /** Char.IsWhiteSpace: the ASCII controls TAB..CR, SPACE, and the
      Unicode space separators, line and paragraph separators. */
  predicate IsWhiteSpace(c: char) {
    || c == ' ' || ('\t' <= c <= '\r')
    || c == '\U{85}' || c == '\U{A0}' || c == '\U{1680}'
    || ('\U{2000}' <= c <= '\U{200A}')
    || c == '\U{2028}' || c == '\U{2029}' || c == '\U{202F}'
    || c == '\U{205F}' || c == '\U{3000}'
  }

  /** Drops the longest prefix whose characters satisfy `drop`. */
  function TrimStartWhere(s: string, drop: char -> bool): (r: string)
    ensures |r| <= |s| && r == s[|s| - |r|..]
    ensures forall i :: 0 <= i < |s| - |r| ==> drop(s[i])
    ensures |r| == 0 || !drop(r[0])
    decreases |s|
  {
    if |s| == 0 || !drop(s[0]) then s else TrimStartWhere(s[1..], drop)
  }

  /** Drops the longest suffix whose characters satisfy `drop`. */
  function TrimEndWhere(s: string, drop: char -> bool): (r: string)
    ensures |r| <= |s| && r == s[..|r|]
    ensures forall i :: |r| <= i < |s| ==> drop(s[i])
    ensures |r| == 0 || !drop(r[|r| - 1])
    decreases |s|
  {
    if |s| == 0 || !drop(s[|s| - 1]) then s else TrimEndWhere(s[..|s| - 1], drop)
  }

  /** String.Trim(): whitespace removed from both ends. */
  function Trim(s: string): (r: string)
    ensures |r| <= |s|
    ensures |r| == 0 || (!IsWhiteSpace(r[0]) && !IsWhiteSpace(r[|r| - 1]))
  {
    TrimEndWhere(TrimStartWhere(s, IsWhiteSpace), IsWhiteSpace)
  }

  /** Trim leaves a string alone that neither starts nor ends in whitespace. */
  lemma TrimUnchanged(s: string)
    requires |s| > 0 && !IsWhiteSpace(s[0]) && !IsWhiteSpace(s[|s| - 1])
    ensures Trim(s) == s
  {
  }

  /* ---------------------------------------------------------------- */
  /* String.Replace(char, char)                                        */
  /* ---------------------------------------------------------------- */

  /** `s.Replace(a, b)` for characters. */
  function Replace(s: string, a: char, b: char): (r: string)
    ensures |r| == |s|
    ensures a != b ==> a !in r
  {
    seq(|s|, i requires 0 <= i < |s| => if s[i] == a then b else s[i])
  }

  /* ---------------------------------------------------------------- */
  /* String.Split(char) and its inverse, String.Join                   */
  /* ---------------------------------------------------------------- */

  /** `String.Join(sep, parts)`. */
  function Join(parts: seq<string>, sep: char): string
    requires |parts| > 0
    decreases |parts|
  {
    if |parts| == 1 then parts[0] else parts[0] + [sep] + Join(parts[1..], sep)
  }

  /** `s.Split(sep, StringSplitOptions.None)`: the pieces between the
      separators, empty pieces included; never an empty array. */
  function Split(s: string, sep: char): (parts: seq<string>)
    ensures |parts| > 0
    ensures Join(parts, sep) == s
    ensures forall i :: 0 <= i < |parts| ==> sep !in parts[i]
    decreases |s|
  {
    if |s| == 0 then [""]
    else
      var rest := Split(s[1..], sep);
      assert s == [s[0]] + s[1..];
      if s[0] == sep then
        assert ([""] + rest)[1..] == rest;
        [""] + rest
      else
        var parts := [[s[0]] + rest[0]] + rest[1..];
        assert parts[1..] == rest[1..];
        parts
  }

  /** A piece without separators splits into itself. */
  lemma SplitSeparatorFree(a: string, sep: char)
    requires sep !in a
    ensures Split(a, sep) == [a]
  {
    if |a| > 0 {
      SplitSeparatorFree(a[1..], sep);
      assert a == [a[0]] + a[1..];
    }
  }

  /** Splitting stops at the first separator. */
  lemma {:induction false} SplitFirst(a: string, sep: char, b: string)
    requires sep !in a
    ensures Split(a + [sep] + b, sep) == [a] + Split(b, sep)
    decreases |a|
  {
    var s := a + [sep] + b;
    if |a| == 0 {
      assert s == [sep] + b;
      assert s[1..] == b;
    } else {
      assert s[1..] == a[1..] + [sep] + b;
      SplitFirst(a[1..], sep, b);
      assert a == [a[0]] + a[1..];
    }
  }

  /** Split is the inverse of Join on separator-free pieces. */
  lemma {:induction false} SplitJoin(parts: seq<string>, sep: char)
    requires |parts| > 0
    requires forall i :: 0 <= i < |parts| ==> sep !in parts[i]
    ensures Split(Join(parts, sep), sep) == parts
    decreases |parts|
  {
    if |parts| == 1 {
      SplitSeparatorFree(parts[0], sep);
    } else {
      SplitFirst(parts[0], sep, Join(parts[1..], sep));
      SplitJoin(parts[1..], sep);
      assert parts == [parts[0]] + parts[1..];
    }
  }

  /** A split has several pieces exactly when the separator occurs. */
  lemma SplitSeveral(s: string, sep: char)
    ensures |Split(s, sep)| > 1 <==> sep in s
  {
    var parts := Split(s, sep);
    if |parts| == 1 {
      assert s == parts[0];
    } else {
      assert s == parts[0] + [sep] + Join(parts[1..], sep);
      assert s[|parts[0]|] == sep;
    }
  }

  /** Where the first two pieces of a split with at least two pieces lie
      in the string: the second ends at the end or at a separator. */
  lemma SplitSecond(s: string, sep: char)
    requires |Split(s, sep)| >= 2
    ensures sep !in Split(s, sep)[0] && sep !in Split(s, sep)[1]
    ensures var parts := Split(s, sep);
      var n, m := |parts[0]|, |parts[1]|;
      && n + 1 + m <= |s|
      && s[..n] == parts[0] && s[n] == sep
      && s[n + 1..n + 1 + m] == parts[1]
      && (n + 1 + m == |s| || s[n + 1 + m] == sep)
  {
    var parts := Split(s, sep);
    var j1 := Join(parts[1..], sep);
    assert s == parts[0] + [sep] + j1;
    assert parts[1..][0] == parts[1];
    if |parts| == 2 {
      assert j1 == parts[1] + [];
      PiecesAt(s, parts[0], sep, parts[1], []);
    } else {
      assert parts[1..][1..] == parts[2..];
      var c := [sep] + Join(parts[2..], sep);
      assert j1 == parts[1] + c;
      PiecesAt(s, parts[0], sep, parts[1], c);
    }
  }

  lemma PiecesAt(s: string, a: string, sep: char, b: string, c: string)
    requires s == a + [sep] + (b + c)
    ensures |a| + 1 + |b| <= |s|
    ensures s[..|a|] == a && s[|a|] == sep && s[|a| + 1..|a| + 1 + |b|] == b
    ensures |c| > 0 ==> s[|a| + 1 + |b|] == c[0]
  {
    assert s[|a| + 1..] == b + c;
  }

  /* ---------------------------------------------------------------- */
  /* Counting a character                                              */
  /* ---------------------------------------------------------------- */

  /** Number of occurrences of `c` in `s`. */
  function Count(s: string, c: char): nat {
    multiset(s)[c]
  }

  lemma CountConcat(a: string, b: string, c: char)
    ensures Count(a + b, c) == Count(a, c) + Count(b, c)
  {
    assert multiset(a + b) == multiset(a) + multiset(b);
  }

  lemma CountZero(s: string, c: char)
    ensures Count(s, c) == 0 <==> c !in s
  {
    assert c in s <==> c in multiset(s);
  }

  /* ---------------------------------------------------------------- */
  /* String.Length: UTF-16 code units                                  */
  /* ---------------------------------------------------------------- */

  /** A .NET string is a sequence of UTF-16 code units: a character of the
      Basic Multilingual Plane takes one, any character above it two. */
  function CodeUnits(c: char): nat {
    if c as int < 0x1_0000 then 1 else 2
  }

  /** `s.Length` of the .NET string holding the characters of `s`. */
  function Utf16Length(s: string): (n: nat)
    ensures |s| <= n <= 2 * |s|
    decreases |s|
  {
    if |s| == 0 then 0 else CodeUnits(s[0]) + Utf16Length(s[1..])
  }

  /** Every character lies in the Basic Multilingual Plane. */
  predicate InBmp(s: string) {
    forall i :: 0 <= i < |s| ==> CodeUnits(s[i]) == 1
  }

  lemma {:induction false} Utf16LengthConcat(a: string, b: string)
    ensures Utf16Length(a + b) == Utf16Length(a) + Utf16Length(b)
    decreases |a|
  {
    if |a| == 0 {
      assert a + b == b;
    } else {
      assert (a + b)[0] == a[0] && (a + b)[1..] == a[1..] + b;
      Utf16LengthConcat(a[1..], b);
    }
  }

  /** Without characters beyond the Basic Multilingual Plane, the two
      lengths agree. */
  lemma {:induction false} Utf16LengthBmp(s: string)
    requires InBmp(s)
    ensures Utf16Length(s) == |s|
    decreases |s|
  {
    if |s| > 0 {
      assert CodeUnits(s[0]) == 1;
      assert InBmp(s[1..]) by {
        forall i | 0 <= i < |s[1..]| ensures CodeUnits(s[1..][i]) == 1 {
          assert s[1..][i] == s[i + 1];
        }
      }
      Utf16LengthBmp(s[1..]);
    }
  }

  /** Replacing a character by one of the same width keeps the length. */
  lemma {:induction false} Utf16LengthReplace(s: string, a: char, b: char)
    requires CodeUnits(a) == CodeUnits(b)
    ensures Utf16Length(Replace(s, a, b)) == Utf16Length(s)
    decreases |s|
  {
    if |s| > 0 {
      assert Replace(s, a, b)[1..] == Replace(s[1..], a, b);
      Utf16LengthReplace(s[1..], a, b);
    }
  }

  /* ---------------------------------------------------------------- */
  /* Ordinal case-insensitive comparison                               */
  /* ---------------------------------------------------------------- */

  function UpperAscii(c: char): char {
    if 'a' <= c <= 'z' then (c as int - 32) as char else c
  }

  /** The key under which StringComparer.OrdinalIgnoreCase files `s`:
      two keys are the same key when their folds are equal. */
  function FoldCase(s: string): (r: string)
    ensures |r| == |s|
  {
    seq(|s|, i requires 0 <= i < |s| => UpperAscii(s[i]))
  }
}
