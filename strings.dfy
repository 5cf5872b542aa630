/**
 * The string operations of Python's str type that the converters use:
 * sep.join(parts), the substring test p in s, and s.replace(pat, rep), which
 * rewrites every non-overlapping occurrence of pat, scanning left to right.
 * Split (s.split(sep)) and Count (s.count(pat)) are reference definitions:
 * they state what join produces and what replace rewrites.
 */
module Strings {

  /** sep.join(parts): every part is written out whole, so none is longer than the result. */
  function Join(sep: string, parts: seq<string>): (r: string)
    ensures forall i :: 0 <= i < |parts| ==> |parts[i]| <= |r|
    decreases |parts|
  {
    if |parts| == 0 then ""
    else if |parts| == 1 then parts[0]
    else parts[0] + sep + Join(sep, parts[1..])
  }

  /** s.split(sep) for a non-empty sep: the pieces between occurrences of sep, left to right; always at least one. */
  function Split(s: string, sep: string): (parts: seq<string>)
    requires |sep| > 0
    ensures |parts| >= 1
    decreases |s|
  {
    if |s| < |sep| then [s]
    else if s[..|sep|] == sep then [""] + Split(s[|sep|..], sep)
    else
      var rest := Split(s[1..], sep);
      [[s[0]] + rest[0]] + rest[1..]
  }

  /** p in s: p occurs in s as a contiguous substring, so it is no longer than s. */
  predicate Contains(s: string, p: string)
    ensures Contains(s, p) ==> |p| <= |s|
    decreases |s|
  {
    if |p| <= |s| && s[..|p|] == p then true
    else if |s| == 0 then false
    else Contains(s[1..], p)
  }

  /**
   * s.replace(pat, rep) for a non-empty pat.  A replacement at least as long
   * as the pattern never shortens the string, and one no longer never
   * lengthens it.
   */
  function ReplaceAll(s: string, pat: string, rep: string): (r: string)
    requires |pat| > 0
    ensures |pat| <= |rep| ==> |s| <= |r|
    ensures |rep| <= |pat| ==> |r| <= |s|
    decreases |s|
  {
    if |s| < |pat| then s
    else if s[..|pat|] == pat then rep + ReplaceAll(s[|pat|..], pat, rep)
    else [s[0]] + ReplaceAll(s[1..], pat, rep)
  }

  /**
   * s.count(pat) for a non-empty pat: the occurrences ReplaceAll rewrites.
   * They do not overlap, so together they fit in s.
   */
  function Count(s: string, pat: string): (c: nat)
    requires |pat| > 0
    ensures c * |pat| <= |s|
    decreases |s|
  {
    if |s| < |pat| then 0
    else if s[..|pat|] == pat then
      var rest := Count(s[|pat|..], pat);
      ShareOut(rest, |pat|);
      1 + rest
    else Count(s[1..], pat)
  }

  // ---------------------------------------------------------------------------
  // The substring test

  /** p occurs in s at position i. */
  predicate OccursAt(s: string, p: string, i: int)
  {
    0 <= i && i + |p| <= |s| && s[i..i + |p|] == p
  }

  /** Contains agrees with its meaning: p occurs in s at some position. */
  lemma {:induction false} ContainsIffOccurs(s: string, p: string)
    ensures Contains(s, p) <==> exists i :: OccursAt(s, p, i)
    decreases |s|
  {
    if |p| <= |s| && s[..|p|] == p {
      assert OccursAt(s, p, 0);
    } else if |s| == 0 {
    } else {
      ContainsIffOccurs(s[1..], p);
      if exists i :: OccursAt(s, p, i) {
        var i :| OccursAt(s, p, i);
        OccursLater(s, p, i);
      }
      if exists j :: OccursAt(s[1..], p, j) {
        var j :| OccursAt(s[1..], p, j);
        OccursShifted(s, p, j);
      }
    }
  }

  /** An occurrence that is not at the front is an occurrence in the tail. */
  lemma OccursLater(s: string, p: string, i: int)
    requires OccursAt(s, p, i) && !(|p| <= |s| && s[..|p|] == p)
    ensures i > 0 && OccursAt(s[1..], p, i - 1)
  {
    assert s[0..|p|] == s[..|p|];
    assert s[1..][i - 1..i - 1 + |p|] == s[i..i + |p|];
  }

  /** An occurrence in the tail is an occurrence one place further on. */
  lemma OccursShifted(s: string, p: string, j: int)
    requires |s| > 0 && OccursAt(s[1..], p, j)
    ensures OccursAt(s, p, j + 1)
  {
    assert s[j + 1..j + 1 + |p|] == s[1..][j..j + |p|];
  }

  /** A string that starts with p contains p. */
  lemma {:induction false} ContainsPrefix(p: string, rest: string)
    ensures Contains(p + rest, p)
  {
    assert (p + rest)[..|p|] == p;
  }

  /** Text put in front keeps an occurrence. */
  lemma {:induction false} ContainsAfter(a: string, b: string, p: string)
    requires Contains(b, p)
    ensures Contains(a + b, p)
    decreases |a|
  {
    if |a| == 0 {
      assert a + b == b;
    } else {
      ContainsAfter(a[1..], b, p);
      assert (a + b)[1..] == a[1..] + b;
    }
  }

  /** Text put behind keeps an occurrence. */
  lemma {:induction false} ContainsBefore(a: string, b: string, p: string)
    requires Contains(a, p)
    ensures Contains(a + b, p)
    decreases |a|
  {
    if |p| <= |a| && a[..|p|] == p {
      assert (a + b)[..|p|] == p;
    } else {
      ContainsBefore(a[1..], b, p);
      assert (a + b)[1..] == a[1..] + b;
    }
  }

  /** An occurrence of p + q is also one of p. */
  lemma {:induction false} ContainsStart(s: string, p: string, q: string)
    requires Contains(s, p + q)
    ensures Contains(s, p)
    decreases |s|
  {
    if |p + q| <= |s| && s[..|p + q|] == p + q {
      assert s[..|p|] == (p + q)[..|p|] == p;
    } else {
      ContainsStart(s[1..], p, q);
    }
  }

  // ---------------------------------------------------------------------------
  // Join and Split

  /** Text in front of the first part stays in front of the joined string. */
  lemma JoinConsFirst(sep: string, x: string, parts: seq<string>)
    requires |parts| >= 1
    ensures Join(sep, [x + parts[0]] + parts[1..]) == x + Join(sep, parts)
  {
    var glued := [x + parts[0]] + parts[1..];
    assert glued[0] == x + parts[0] && glued[1..] == parts[1..];
    if |parts| > 1 {
      assert x + parts[0] + sep + Join(sep, parts[1..]) == x + (parts[0] + sep + Join(sep, parts[1..]));
    }
  }

  /** Joining pieces of one length w with a one-character separator gives n * w + n - 1 characters. */
  lemma {:induction false} JoinLength(sep: string, parts: seq<string>, w: nat)
    requires |sep| == 1 && |parts| >= 1
    requires forall k :: 0 <= k < |parts| ==> |parts[k]| == w
    ensures |Join(sep, parts)| == |parts| * w + |parts| - 1
    decreases |parts|
  {
    if |parts| > 1 {
      JoinLength(sep, parts[1..], w);
    }
  }

  /** A piece free of the one-character separator is glued to the first piece of what follows it. */
  lemma {:induction false} SplitGlue(line: string, t: string, sep: string)
    requires |sep| == 1 && sep[0] !in line
    ensures Split(line + t, sep) == [line + Split(t, sep)[0]] + Split(t, sep)[1..]
    decreases |line|
  {
    var tail := Split(t, sep);
    if |line| == 0 {
      assert line + t == t;
      assert line + tail[0] == tail[0];
      assert [tail[0]] + tail[1..] == tail;
    } else {
      assert (line + t)[0] == line[0];
      assert (line + t)[..1] == [line[0]] != sep;
      assert (line + t)[1..] == line[1..] + t;
      SplitGlue(line[1..], t, sep);
      assert [line[0]] + (line[1..] + tail[0]) == line + tail[0];
    }
  }

  /** Splitting joined pieces on a one-character separator gives the pieces back, when none holds that character. */
  lemma {:induction false} SplitJoin(sep: string, parts: seq<string>)
    requires |sep| == 1 && |parts| >= 1
    requires forall k :: 0 <= k < |parts| ==> sep[0] !in parts[k]
    ensures Split(Join(sep, parts), sep) == parts
    decreases |parts|
  {
    if |parts| == 1 {
      SplitGlue(parts[0], "", sep);
      assert parts[0] + "" == parts[0];
    } else {
      var t := sep + Join(sep, parts[1..]);
      assert Join(sep, parts) == parts[0] + t;
      SplitGlue(parts[0], t, sep);
      SplitJoin(sep, parts[1..]);
      assert t[..1] == sep && t[1..] == Join(sep, parts[1..]);
      assert Split(t, sep) == [""] + parts[1..];
      assert parts[0] + "" == parts[0];
      assert [parts[0]] + parts[1..] == parts;
    }
  }

  // ---------------------------------------------------------------------------
  // Replace

  /** str.replace is the pieces between occurrences of pat, joined by rep. */
  lemma {:induction false} ReplaceIsSplitJoin(s: string, pat: string, rep: string)
    requires |pat| > 0
    ensures ReplaceAll(s, pat, rep) == Join(rep, Split(s, pat))
    decreases |s|
  {
    if |s| < |pat| {
    } else if s[..|pat|] == pat {
      ReplaceIsSplitJoin(s[|pat|..], pat, rep);
      var rest := Split(s[|pat|..], pat);
      assert ([""] + rest)[0] == "" && ([""] + rest)[1..] == rest;
      assert "" + rep + Join(rep, rest) == rep + Join(rep, rest);
    } else {
      ReplaceIsSplitJoin(s[1..], pat, rep);
      JoinConsFirst(rep, [s[0]], Split(s[1..], pat));
    }
  }

  /** Replacing pat by itself changes nothing. */
  lemma {:induction false} ReplaceBySelf(s: string, pat: string)
    requires |pat| > 0
    ensures ReplaceAll(s, pat, pat) == s
    decreases |s|
  {
    if |s| < |pat| {
    } else if s[..|pat|] == pat {
      ReplaceBySelf(s[|pat|..], pat);
      assert s[..|pat|] + s[|pat|..] == s;
    } else {
      ReplaceBySelf(s[1..], pat);
      assert [s[0]] + s[1..] == s;
    }
  }

  /**
   * No piece of a split holds the separator.  For a separator that cannot
   * overlap itself, such as " " or "www.csmonitor.com/", every occurrence is
   * therefore a joint; for one that can, SplitTakesFirst says which of two
   * overlapping occurrences becomes the joint.
   */
  lemma {:induction false} SplitPiecesFree(s: string, sep: string)
    requires |sep| > 0
    ensures forall i :: 0 <= i < |Split(s, sep)| ==> !Contains(Split(s, sep)[i], sep)
    decreases |s|
  {
    var parts := Split(s, sep);
    if |s| < |sep| {
      NotContainsShort(s, sep);
    } else if s[..|sep|] == sep {
      var rest := Split(s[|sep|..], sep);
      SplitPiecesFree(s[|sep|..], sep);
      NotContainsShort("", sep);
      forall i | 0 <= i < |parts|
        ensures !Contains(parts[i], sep)
      {
        if i > 0 {
          assert parts[i] == rest[i - 1];
        }
      }
    } else {
      var rest := Split(s[1..], sep);
      SplitPiecesFree(s[1..], sep);
      SplitPrefix(s[1..], sep);
      FirstPieceFree(s, rest[0], sep);
      forall i | 0 <= i < |parts|
        ensures !Contains(parts[i], sep)
      {
        if i > 0 {
          assert parts[i] == rest[i];
        }
      }
    }
  }

  /**
   * Split takes the leftmost occurrence first: when s is a + sep + t and sep
   * starts nowhere inside a, the first piece is a and the others are the
   * split of t.  With JoinSplit and SplitPiecesFree for a string without sep,
   * this pins Split down completely, overlapping separators included.
   */
  lemma {:induction false} SplitTakesFirst(a: string, sep: string, t: string)
    requires |sep| > 0
    requires forall j :: 0 <= j < |a| ==> !OccursAt(a + sep + t, sep, j)
    ensures Split(a + sep + t, sep) == [a] + Split(t, sep)
    decreases |a|
  {
    var s := a + sep + t;
    if |a| == 0 {
      assert s[..|sep|] == sep;
      assert s[|sep|..] == t;
    } else {
      assert s[0..|sep|] == s[..|sep|];
      assert !OccursAt(s, sep, 0);
      assert s[1..] == a[1..] + sep + t;
      forall j | 0 <= j < |a[1..]|
        ensures !OccursAt(a[1..] + sep + t, sep, j)
      {
        if OccursAt(s[1..], sep, j) {
          OccursShifted(s, sep, j);
        }
      }
      SplitTakesFirst(a[1..], sep, t);
      assert [a[0]] + a[1..] == a;
    }
  }

  /** No occurrence of sep starts inside the first piece of a split. */
  lemma {:induction false} NoOccurrenceInFirst(s: string, sep: string)
    requires |sep| > 0
    ensures forall j :: 0 <= j < |Split(s, sep)[0]| ==> !OccursAt(s, sep, j)
    decreases |s|
  {
    if |s| < |sep| {
    } else if s[..|sep|] == sep {
    } else {
      var rest := Split(s[1..], sep);
      NoOccurrenceInFirst(s[1..], sep);
      assert Split(s, sep)[0] == [s[0]] + rest[0];
      forall j | 0 <= j < |rest[0]| + 1
        ensures !OccursAt(s, sep, j)
      {
        if OccursAt(s, sep, j) {
          OccursLater(s, sep, j);
          assert false;
        }
      }
    }
  }

  /** An overlapping separator: "aaa".split("aa") is ["", "a"] and "aaa".replace("aa", "b") is "ba". */
  lemma OverlappingSeparator()
    ensures Split("aaa", "aa") == ["", "a"]
    ensures ReplaceAll("aaa", "aa", "b") == "ba"
  {
    assert "aaa"[..2] == "aa";
    assert "aaa"[2..] == "a";
  }

  /** The first piece of a split is a prefix of the string. */
  lemma {:induction false} SplitPrefix(s: string, sep: string)
    requires |sep| > 0
    ensures Split(s, sep)[0] <= s
    decreases |s|
  {
    if |s| < |sep| {
    } else if s[..|sep|] == sep {
    } else {
      SplitPrefix(s[1..], sep);
      var rest := Split(s[1..], sep);
      assert Split(s, sep)[0] == [s[0]] + rest[0];
      assert s == [s[0]] + s[1..];
    }
  }

  /**
   * A character of s that does not start sep, followed by a prefix of the rest
   * of s that holds no sep, gives a piece that holds no sep.
   */
  lemma FirstPieceFree(s: string, r: string, sep: string)
    requires |sep| > 0 && |s| >= |sep| && s[..|sep|] != sep
    requires r <= s[1..] && !Contains(r, sep)
    ensures !Contains([s[0]] + r, sep)
  {
    var x := [s[0]] + r;
    assert x[1..] == r;
    if |sep| <= |x| {
      assert forall k :: 0 <= k < |sep| ==> x[k] == s[k];
      assert x[..|sep|] == s[..|sep|];
    }
  }

  /**
   * The pieces between occurrences of pat rebuild s when joined by pat; so
   * ReplaceAll keeps the pieces, in their order, and only swaps the joints.
   */
  lemma JoinSplit(s: string, sep: string)
    requires |sep| > 0
    ensures Join(sep, Split(s, sep)) == s
  {
    ReplaceIsSplitJoin(s, sep, sep);
    ReplaceBySelf(s, sep);
  }

  /** Each occurrence rewritten changes the length by |rep| - |pat|. */
  lemma {:induction false} ReplaceLength(s: string, pat: string, rep: string)
    requires |pat| > 0
    ensures |ReplaceAll(s, pat, rep)| == |s| + Count(s, pat) * (|rep| - |pat|)
    decreases |s|
  {
    if |s| < |pat| {
    } else if s[..|pat|] == pat {
      var rest := s[|pat|..];
      ReplaceLength(rest, pat, rep);
      assert ReplaceAll(s, pat, rep) == rep + ReplaceAll(rest, pat, rep);
      assert Count(s, pat) == 1 + Count(rest, pat);
      ShareOut(Count(rest, pat), |rep| - |pat|);
    } else {
      ReplaceLength(s[1..], pat, rep);
      assert ReplaceAll(s, pat, rep) == [s[0]] + ReplaceAll(s[1..], pat, rep);
      assert Count(s, pat) == Count(s[1..], pat);
    }
  }

  /** The two halves of a concatenation. */
  lemma Halves(a: string, b: string)
    ensures (a + b)[..|a|] == a && (a + b)[|a|..] == b
  {
  }

  lemma ShareOut(c: int, d: int)
    ensures (1 + c) * d == d + c * d
  {
  }

  /** There is something to replace exactly when pat occurs in s. */
  lemma {:induction false} CountPositiveIffContains(s: string, pat: string)
    requires |pat| > 0
    ensures Count(s, pat) > 0 <==> Contains(s, pat)
    decreases |s|
  {
    if |s| < |pat| {
      NotContainsShort(s, pat);
    } else if s[..|pat|] != pat {
      CountPositiveIffContains(s[1..], pat);
    }
  }

  lemma {:induction false} NotContainsShort(s: string, p: string)
    requires |s| < |p|
    ensures !Contains(s, p)
    decreases |s|
  {
    if |s| > 0 {
      NotContainsShort(s[1..], p);
    }
  }

  /** Without an occurrence of pat, s is returned unchanged. */
  lemma {:induction false} ReplaceAbsent(s: string, pat: string, rep: string)
    requires |pat| > 0 && !Contains(s, pat)
    ensures ReplaceAll(s, pat, rep) == s
    decreases |s|
  {
    if |s| >= |pat| {
      assert s[..|pat|] != pat;
      ReplaceAbsent(s[1..], pat, rep);
      assert [s[0]] + s[1..] == s;
    }
  }

  /** When pat occurs in s, the result holds rep. */
  lemma {:induction false} ReplacePresent(s: string, pat: string, rep: string)
    requires |pat| > 0 && Contains(s, pat)
    ensures Contains(ReplaceAll(s, pat, rep), rep)
    decreases |s|
  {
    if |s| < |pat| {
      NotContainsShort(s, pat);
    } else if s[..|pat|] == pat {
      ContainsPrefix(rep, ReplaceAll(s[|pat|..], pat, rep));
    } else {
      ReplacePresent(s[1..], pat, rep);
      ContainsAfter([s[0]], ReplaceAll(s[1..], pat, rep), rep);
    }
  }
}
