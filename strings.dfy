/** The few Python `str` operations the core relies on: `endswith`,
    `split` and `join` on a one-character separator, and `isupper`. */
module Strings {

  /** `s.endswith(suffix)`. */
  predicate EndsWith(s: string, suffix: string)
    ensures EndsWith(s, suffix) <==> exists p :: s == p + suffix
  {
    && |suffix| <= |s|
    && (assert s == s[..|s| - |suffix|] + s[|s| - |suffix|..]; s[|s| - |suffix|..] == suffix)
  }

  /** `chr(sep).join(parts)`: the parts with one separator between neighbours. */
  function Join(parts: seq<string>, sep: char): (joined: string)
    ensures |parts| >= 1 ==> parts[0] <= joined
    ensures |parts| >= 2 ==> sep in joined
  {
    if |parts| == 0 then ""
    else if |parts| == 1 then parts[0]
    else parts[0] + [sep] + Join(parts[1..], sep)
  }

  /** The parts of `s` around each occurrence of `sep`, built from the
      front one character at a time. */
  function Splitting(s: string, sep: char): (parts: seq<string>)
    ensures |parts| >= 1
  {
    if s == [] then [""]
    else
      var rest := Splitting(s[1..], sep);
      if s[0] == sep then [""] + rest else [[s[0]] + rest[0]] + rest[1..]
  }

  /** No part holds the separator. */
  lemma {:induction false} SplittingParts(s: string, sep: char)
    ensures forall i :: 0 <= i < |Splitting(s, sep)| ==> sep !in Splitting(s, sep)[i]
  {
    if s != [] {
      SplittingParts(s[1..], sep);
      var rest := Splitting(s[1..], sep);
      if s[0] != sep {
        var parts := Splitting(s, sep);
        forall i | 0 <= i < |parts| ensures sep !in parts[i] {
          if i == 0 {
            assert parts[0] == [s[0]] + rest[0];
          } else {
            assert parts[i] == rest[i];
          }
        }
      }
    }
  }

  /** Joining the parts gives the string back. */
  lemma {:induction false} SplittingJoin(s: string, sep: char)
    ensures Join(Splitting(s, sep), sep) == s
  {
    if s != [] {
      SplittingJoin(s[1..], sep);
      var rest := Splitting(s[1..], sep);
      var parts := Splitting(s, sep);
      assert s == [s[0]] + s[1..];
      if s[0] == sep {
        assert parts[1..] == rest;
      } else {
        assert parts[1..] == rest[1..];
        if |rest| > 1 {
          assert Join(rest, sep) == rest[0] + [sep] + Join(rest[1..], sep);
        }
      }
    }
  }

  /** There is one part exactly when the separator does not occur. */
  lemma {:induction false} SplittingSingle(s: string, sep: char)
    ensures |Splitting(s, sep)| == 1 <==> sep !in s
  {
    if s != [] {
      SplittingSingle(s[1..], sep);
      assert sep in s <==> s[0] == sep || sep in s[1..] by {
        assert s == [s[0]] + s[1..];
      }
    }
  }

  /** `s.split(sep)`: never empty, no part holds the separator, and joining
      the parts back gives `s`; there is one part exactly when `s` has no
      separator at all. */
  function Split(s: string, sep: char): (parts: seq<string>)
    ensures |parts| >= 1
    ensures forall i :: 0 <= i < |parts| ==> sep !in parts[i]
    ensures Join(parts, sep) == s
    ensures |parts| == 1 <==> sep !in s
  {
    SplittingParts(s, sep);
    SplittingJoin(s, sep);
    SplittingSingle(s, sep);
    Splitting(s, sep)
  }

  /** A string without the separator splits into itself. */
  lemma SplitNoSeparator(s: string, sep: char)
    requires sep !in s
    ensures Split(s, sep) == [s]
  {
    var parts := Split(s, sep);
    assert |parts| == 1;
  }

  /** The index of the first `sep`, or the length when there is none. */
  function FirstIndex(s: string, sep: char): (i: nat)
    ensures i <= |s|
  {
    if s == [] || s[0] == sep then 0 else 1 + FirstIndex(s[1..], sep)
  }

  /** A run without `sep`, followed by nothing or by `sep`, ends at the first `sep`. */
  lemma {:induction false} FirstIndexAfter(x: string, r: string, sep: char)
    requires sep !in x
    requires r == [] || r[0] == sep
    ensures FirstIndex(x + r, sep) == |x|
  {
    if x != [] {
      assert (x + r)[1..] == x[1..] + r;
      FirstIndexAfter(x[1..], r, sep);
    } else {
      assert x + r == r;
    }
  }

  /** Two strings that each run up to `sep` or the end agree on that run
      and on what follows it. */
  lemma SameFirstPart(x: string, r1: string, y: string, r2: string, sep: char)
    requires sep !in x && sep !in y
    requires r1 == [] || r1[0] == sep
    requires r2 == [] || r2[0] == sep
    requires x + r1 == y + r2
    ensures x == y && r1 == r2
  {
    FirstIndexAfter(x, r1, sep);
    FirstIndexAfter(y, r2, sep);
    assert x == (x + r1)[..|x|] && y == (y + r2)[..|y|];
    assert r1 == (x + r1)[|x|..] && r2 == (y + r2)[|y|..];
  }

  /** What follows the first part in a join: nothing, or `sep` and the rest. */
  function JoinRest(parts: seq<string>, sep: char): string
    requires |parts| >= 1
  {
    if |parts| == 1 then "" else [sep] + Join(parts[1..], sep)
  }

  /** Joining parts that hold no separator loses nothing: two such lists
      with the same join are equal. */
  lemma {:induction false} JoinInjective(p1: seq<string>, p2: seq<string>, sep: char)
    requires |p1| >= 1 && |p2| >= 1
    requires forall i :: 0 <= i < |p1| ==> sep !in p1[i]
    requires forall i :: 0 <= i < |p2| ==> sep !in p2[i]
    requires Join(p1, sep) == Join(p2, sep)
    ensures p1 == p2
  {
    var r1, r2 := JoinRest(p1, sep), JoinRest(p2, sep);
    assert Join(p1, sep) == p1[0] + r1;
    assert Join(p2, sep) == p2[0] + r2;
    SameFirstPart(p1[0], r1, p2[0], r2, sep);
    if |p1| > 1 && |p2| > 1 {
      assert Join(p1[1..], sep) == r1[1..] && Join(p2[1..], sep) == r2[1..];
      JoinInjective(p1[1..], p2[1..], sep);
      assert p1 == [p1[0]] + p1[1..] && p2 == [p2[0]] + p2[1..];
    }
  }

  /** Joining parts that hold no separator and splitting again gives the parts back. */
  lemma SplitJoin(parts: seq<string>, sep: char)
    requires |parts| >= 1
    requires forall i :: 0 <= i < |parts| ==> sep !in parts[i]
    ensures Split(Join(parts, sep), sep) == parts
  {
    JoinInjective(Split(Join(parts, sep), sep), parts, sep);
  }

  /** Joining one more part appends the separator and that part. */
  lemma {:induction false} JoinSnoc(parts: seq<string>, x: string, sep: char)
    requires |parts| >= 1
    ensures Join(parts + [x], sep) == Join(parts, sep) + [sep] + x
  {
    if |parts| > 1 {
      assert (parts + [x])[1..] == parts[1..] + [x];
      JoinSnoc(parts[1..], x, sep);
    }
  }

  /** Appending the separator and a part free of it adds that part to the
      end of the split. */
  lemma SplitSnoc(s: string, x: string, sep: char)
    requires sep !in x
    ensures Split(s + [sep] + x, sep) == Split(s, sep) + [x]
  {
    var parts := Split(s, sep);
    JoinSnoc(parts, x, sep);
    SplitJoin(parts + [x], sep);
  }

  /** `s.rfind(c)`: the index of the last occurrence of `c`, or -1. */
  function LastIndexOf(s: string, c: char): (i: int)
    ensures -1 <= i < |s|
    ensures i >= 0 ==> s[i] == c
    ensures forall j :: i < j < |s| ==> s[j] != c
  {
    if s == [] then -1
    else if s[|s| - 1] == c then |s| - 1
    else LastIndexOf(s[..|s| - 1], c)
  }

  /** Python's cased characters, restricted to ASCII letters. */
  predicate IsLowerChar(c: char) { 'a' <= c <= 'z' }

  predicate IsUpperChar(c: char) { 'A' <= c <= 'Z' }

  /** `s.isupper()`: at least one cased character, and no lower-case one. */
  predicate IsUpper(s: string)
    ensures IsUpper(s) ==> s != []
  {
    && (exists i :: 0 <= i < |s| && IsUpperChar(s[i]))
    && (forall i :: 0 <= i < |s| ==> !IsLowerChar(s[i]))
  }
}
