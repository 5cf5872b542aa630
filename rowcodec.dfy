/**
 * The run-length encoding of one row of a one-bit image.
 *
 * A row is a sequence of bits (true for ink, written '1'; false for
 * background, written '0').  Each maximal run of equal bits becomes letters:
 * one 'Z' (ink) or 'z' (background) for every full 26 pixels, then one letter
 * for the remaining 1 to 25 pixels, 'A'..'Y' or 'a'..'y'.  A background run
 * that reaches the end of the row is dropped, so a reader needs the row width
 * to restore it.
 */
module RowCodec {
  import opened Wrappers

  /** n copies of x. */
  function Repeat<T>(x: T, n: nat): (s: seq<T>)
    ensures |s| == n && forall i :: 0 <= i < n ==> s[i] == x
  {
    seq(n, _ => x)
  }

  /** A row written as text, '1' for ink and anything else for background. */
  function Bits(s: string): (row: seq<bool>)
    ensures |row| == |s|
  {
    seq(|s|, i requires 0 <= i < |s| => s[i] == '1')
  }

  /** The letter for a chunk of v pixels, 1 <= v <= 26: upper case for ink, lower case for background. */
  function Letter(ink: bool, v: nat): (c: char)
    requires 1 <= v <= 26
    ensures ink ==> 'A' <= c <= 'Z' && c as int - 'A' as int == v - 1
    ensures !ink ==> 'a' <= c <= 'z' && c as int - 'a' as int == v - 1
  {
    ((if ink then 'A' as int else 'a' as int) + v - 1) as char
  }

  /** The letters for a run of k pixels of one colour: a 'Z' or 'z' for each full 26, then one letter for the rest. */
  function RunLetters(ink: bool, k: nat): (r: string)
    ensures |r| <= k
    ensures k > 0 ==> |r| > 0
    decreases k
  {
    if k == 0 then ""
    else if k <= 26 then [Letter(ink, k)]
    else [Letter(ink, 26)] + RunLetters(ink, k - 26)
  }

  // ---------------------------------------------------------------------------
  // The encoder, as a left-to-right scan

  /**
   * Scanning the rest of the row while a run of count pixels of colour cur is
   * pending and acc has been written so far.  A run is written when the colour
   * changes; at the end of the row the pending run is written only if it is ink.
   */
  function Scan(row: seq<bool>, cur: bool, count: nat, acc: string): (r: string)
    ensures |acc| <= |r| <= |acc| + count + |row|
    ensures r[..|acc|] == acc
    decreases |row|
  {
    if |row| == 0 then (if cur then acc + RunLetters(true, count) else acc)
    else if row[0] == cur then Scan(row[1..], cur, count + 1, acc)
    else Scan(row[1..], row[0], 1, acc + RunLetters(cur, count))
  }

  /** compress_pixel_row: never more letters than pixels. */
  function CompressPixelRow(row: seq<bool>): (r: string)
    ensures |r| <= |row|
  {
    if |row| == 0 then "" else Scan(row[1..], row[0], 1, "")
  }

  // ---------------------------------------------------------------------------
  // The reference: maximal runs

  /** A run of length pixels of one colour. */
  datatype Run = Run(ink: bool, length: nat)

  /** The length of the maximal run at the start of a non-empty row. */
  function LeadLength(row: seq<bool>): (k: nat)
    requires |row| > 0
    ensures 1 <= k <= |row|
    ensures forall i :: 0 <= i < k ==> row[i] == row[0]
    ensures k < |row| ==> row[k] != row[0]
  {
    if |row| == 1 || row[1] != row[0] then 1 else 1 + LeadLength(row[1..])
  }

  /** The maximal runs of a row, left to right. */
  function Runs(row: seq<bool>): seq<Run>
    decreases |row|
  {
    if |row| == 0 then []
    else
      var k := LeadLength(row);
      [Run(row[0], k)] + Runs(row[k..])
  }

  /** The pixels of a list of runs. */
  function Expand(runs: seq<Run>): seq<bool>
  {
    if |runs| == 0 then [] else Repeat(runs[0].ink, runs[0].length) + Expand(runs[1..])
  }

  /** Every run is non-empty and neighbouring runs have different colours. */
  predicate Maximal(runs: seq<Run>)
  {
    (forall i :: 0 <= i < |runs| ==> runs[i].length >= 1) &&
    (forall i :: 0 <= i < |runs| - 1 ==> runs[i].ink != runs[i + 1].ink)
  }

  /** The letters of each run in order, except a final background run. */
  function EncodeRuns(runs: seq<Run>): string
  {
    if |runs| == 0 then ""
    else if |runs| == 1 && !runs[0].ink then ""
    else RunLetters(runs[0].ink, runs[0].length) + EncodeRuns(runs[1..])
  }

  lemma {:induction false} ExpandAppend(a: seq<Run>, b: seq<Run>)
    ensures Expand(a + b) == Expand(a) + Expand(b)
    decreases |a|
  {
    if |a| == 0 {
      assert a + b == b;
    } else {
      assert (a + b)[0] == a[0];
      assert (a + b)[1..] == a[1..] + b;
      ExpandAppend(a[1..], b);
    }
  }

  /** The runs of a row spell the row out again. */
  lemma {:induction false} RunsExpand(row: seq<bool>)
    ensures Expand(Runs(row)) == row
    decreases |row|
  {
    if |row| > 0 {
      var k := LeadLength(row);
      var rest := row[k..];
      var runs := [Run(row[0], k)] + Runs(rest);
      assert runs[0] == Run(row[0], k) && runs[1..] == Runs(rest);
      calc {
        Expand(Runs(row));
        Expand(runs);
        Repeat(row[0], k) + Expand(Runs(rest));
        { RunsExpand(rest); LeadIsRepeat(row); }
        row[..k] + rest;
        { assert row[..k] + row[k..] == row; }
        row;
      }
    }
  }

  /** The maximal run at the start of a row is its first LeadLength pixels. */
  lemma LeadIsRepeat(row: seq<bool>)
    requires |row| > 0
    ensures Repeat(row[0], LeadLength(row)) == row[..LeadLength(row)]
  {
    var k := LeadLength(row);
    forall i | 0 <= i < k
      ensures row[..k][i] == row[0]
    {
    }
  }

  /** The first run of a row has the colour of its first pixel, the last run that of its last pixel. */
  lemma {:induction false} RunsEnds(row: seq<bool>)
    requires |row| > 0
    ensures |Runs(row)| > 0 && Runs(row)[0].ink == row[0]
    ensures Runs(row)[|Runs(row)| - 1].ink == row[|row| - 1]
    decreases |row|
  {
    var k := LeadLength(row);
    var rest := row[k..];
    var runs := [Run(row[0], k)] + Runs(rest);
    assert Runs(row) == runs;
    if |rest| == 0 {
      assert Runs(rest) == [];
      assert row[|row| - 1] == row[0];
    } else {
      RunsEnds(rest);
      assert runs[|runs| - 1] == Runs(rest)[|Runs(rest)| - 1];
      assert rest[|rest| - 1] == row[|row| - 1];
    }
  }

  /** The runs of a row are maximal: none is empty and neighbours differ in colour. */
  lemma {:induction false} RunsMaximal(row: seq<bool>)
    ensures Maximal(Runs(row))
    decreases |row|
  {
    if |row| > 0 {
      var k := LeadLength(row);
      var rest := row[k..];
      RunsMaximal(rest);
      var tail := Runs(rest);
      var runs := [Run(row[0], k)] + tail;
      assert Runs(row) == runs;
      if |rest| > 0 {
        RunsEnds(rest);
        assert tail[0].ink == rest[0] != row[0];
      }
      forall i | 0 <= i < |runs| - 1
        ensures runs[i].ink != runs[i + 1].ink
      {
        if i > 0 {
          assert runs[i] == tail[i - 1] && runs[i + 1] == tail[i];
        }
      }
      forall i | 0 <= i < |runs|
        ensures runs[i].length >= 1
      {
        if i > 0 {
          assert runs[i] == tail[i - 1];
        }
      }
    }
  }

  /** A run of n pixels of colour b followed by pixels of the other colour starts the run list. */
  lemma {:induction false} RunsAfterRepeat(b: bool, n: nat, rest: seq<bool>)
    requires n >= 1 && (|rest| == 0 || rest[0] != b)
    ensures Runs(Repeat(b, n) + rest) == [Run(b, n)] + Runs(rest)
  {
    var row := Repeat(b, n) + rest;
    assert forall i :: 0 <= i < n ==> row[i] == b;
    assert n < |row| ==> row[n] != b;
    assert LeadLength(row) == n;
    assert row[n..] == rest;
  }

  lemma Associative(a: string, b: string, c: string)
    ensures (a + b) + c == a + (b + c)
  {
  }

  /** A pixel of the pending colour lengthens the pending run. */
  lemma RepeatGrow(b: bool, n: nat, rest: seq<bool>)
    requires |rest| > 0 && rest[0] == b
    ensures Repeat(b, n) + rest == Repeat(b, n + 1) + rest[1..]
  {
  }

  /** A run of count pixels before a pixel of the other colour is written as its own letters. */
  lemma EncodeAfterRun(cur: bool, count: nat, row: seq<bool>)
    requires count >= 1 && |row| > 0 && row[0] != cur
    ensures EncodeRuns(Runs(Repeat(cur, count) + row)) == RunLetters(cur, count) + EncodeRuns(Runs(row))
  {
    RunsAfterRepeat(cur, count, row);
    RunsEnds(row);
    var rs := [Run(cur, count)] + Runs(row);
    assert rs[0] == Run(cur, count) && rs[1..] == Runs(row) && |rs| >= 2;
  }

  /** The scan writes, after acc, the letters of the runs of the pending run followed by the rest of the row. */
  lemma {:induction false} ScanEncodesRuns(row: seq<bool>, cur: bool, count: nat, acc: string)
    requires count >= 1
    ensures Scan(row, cur, count, acc) == acc + EncodeRuns(Runs(Repeat(cur, count) + row))
    decreases |row|
  {
    if |row| == 0 {
      RunsAfterRepeat(cur, count, row);
      assert Repeat(cur, count) + row == Repeat(cur, count);
      assert Runs([]) == [];
    } else if row[0] == cur {
      ScanEncodesRuns(row[1..], cur, count + 1, acc);
      RepeatGrow(cur, count, row);
    } else {
      var letters := RunLetters(cur, count);
      ScanEncodesRuns(row[1..], row[0], 1, acc + letters);
      assert Repeat(row[0], 1) + row[1..] == row;
      EncodeAfterRun(cur, count, row);
      Associative(acc, letters, EncodeRuns(Runs(row)));
    }
  }

  /**
   * The encoder writes one letter group per maximal run, left to right, the
   * case giving the colour, and leaves out a background run at the end.
   */
  lemma CompressIsRunEncoding(row: seq<bool>)
    ensures CompressPixelRow(row) == EncodeRuns(Runs(row))
  {
    if |row| > 0 {
      ScanEncodesRuns(row[1..], row[0], 1, "");
      assert Repeat(row[0], 1) + row[1..] == row;
    }
  }

  // ---------------------------------------------------------------------------
  // Properties of the letters of one run

  /**
   * A run of k pixels is written as one 'Z' or 'z' per full 26 pixels and one
   * more letter for a non-zero remainder, so an exact multiple of 26 has no
   * remainder letter.
   */
  lemma {:induction false} RunLettersShape(ink: bool, k: nat)
    ensures RunLetters(ink, k) ==
      Repeat(Letter(ink, 26), k / 26) + (if k % 26 == 0 then "" else [Letter(ink, k % 26)])
    decreases k
  {
    if k > 26 {
      RunLettersShape(ink, k - 26);
      assert (k - 26) / 26 == k / 26 - 1 && (k - 26) % 26 == k % 26;
      assert [Letter(ink, 26)] + Repeat(Letter(ink, 26), k / 26 - 1) == Repeat(Letter(ink, 26), k / 26);
    } else if k == 26 {
      assert Repeat(Letter(ink, 26), 1) == [Letter(ink, 26)];
    } else {
      assert k / 26 == 0;
    }
  }

  /** A run of 1 to 26 ink pixels is the single letter 'A' + k - 1. */
  lemma SingleInkRun(k: nat)
    requires 1 <= k <= 26
    ensures CompressPixelRow(Repeat(true, k)) == [(('A' as int) + k - 1) as char]
  {
    CompressIsRunEncoding(Repeat(true, k));
    RunsAfterRepeat(true, k, []);
    assert Repeat(true, k) + [] == Repeat(true, k);
    assert Runs([]) == [];
  }

  /** Every character the encoder writes is an ASCII letter. */
  predicate IsLetter(c: char)
  {
    'A' <= c <= 'Z' || 'a' <= c <= 'z'
  }

  lemma {:induction false} RunLettersAreLetters(ink: bool, k: nat)
    ensures forall i :: 0 <= i < |RunLetters(ink, k)| ==>
      IsLetter(RunLetters(ink, k)[i]) && ('A' <= RunLetters(ink, k)[i] <= 'Z' <==> ink)
    decreases k
  {
    if k > 26 {
      RunLettersAreLetters(ink, k - 26);
    }
  }

  lemma {:induction false} EncodeRunsLetters(runs: seq<Run>)
    ensures forall i :: 0 <= i < |EncodeRuns(runs)| ==> IsLetter(EncodeRuns(runs)[i])
    decreases |runs|
  {
    if |runs| > 0 && !(|runs| == 1 && !runs[0].ink) {
      RunLettersAreLetters(runs[0].ink, runs[0].length);
      EncodeRunsLetters(runs[1..]);
    }
  }

  /** The encoded row is a string over A-Z and a-z only. */
  lemma CompressAlphabet(row: seq<bool>)
    ensures forall i :: 0 <= i < |CompressPixelRow(row)| ==> IsLetter(CompressPixelRow(row)[i])
  {
    CompressIsRunEncoding(row);
    EncodeRunsLetters(Runs(row));
  }

  // ---------------------------------------------------------------------------
  // Trailing background

  lemma {:induction false} ScanIgnoresTrailingBackground(row: seq<bool>, cur: bool, count: nat, acc: string)
    ensures Scan(row + [false], cur, count, acc) == Scan(row, cur, count, acc)
    decreases |row|
  {
    if |row| > 0 {
      assert (row + [false])[0] == row[0];
      assert (row + [false])[1..] == row[1..] + [false];
      ScanIgnoresTrailingBackground(row[1..], row[0], 1, acc + RunLetters(cur, count));
      ScanIgnoresTrailingBackground(row[1..], cur, count + 1, acc);
    } else {
      assert [false][1..] == [];
    }
  }

  /** Appending a background pixel never changes the encoding: trailing background is dropped. */
  lemma TrailingBackgroundDropped(row: seq<bool>)
    ensures CompressPixelRow(row + [false]) == CompressPixelRow(row)
  {
    if |row| > 0 {
      assert (row + [false])[1..] == row[1..] + [false];
      ScanIgnoresTrailingBackground(row[1..], row[0], 1, "");
    }
  }

  /** Any number of background pixels at the end of the row is dropped. */
  lemma {:induction false} TrailingRunDropped(row: seq<bool>, n: nat)
    ensures CompressPixelRow(row + Repeat(false, n)) == CompressPixelRow(row)
  {
    if n > 0 {
      TrailingRunDropped(row, n - 1);
      assert row + Repeat(false, n) == (row + Repeat(false, n - 1)) + [false];
      TrailingBackgroundDropped(row + Repeat(false, n - 1));
    } else {
      assert row + Repeat(false, 0) == row;
    }
  }

  /** A row of background only, of any length, encodes to the empty string. */
  lemma {:induction false} AllBackground(n: nat)
    ensures CompressPixelRow(Repeat(false, n)) == ""
    decreases n
  {
    if n > 0 {
      AllBackground(n - 1);
      assert Repeat(false, n) == Repeat(false, n - 1) + [false];
      TrailingBackgroundDropped(Repeat(false, n - 1));
    }
  }

  // ---------------------------------------------------------------------------
  // The decoder, which needs the row width

  /** The run a single letter stands for, or None for any other character. */
  function LetterRun(c: char): Option<Run>
  {
    if 'A' <= c <= 'Z' then Some(Run(true, c as int - 'A' as int + 1))
    else if 'a' <= c <= 'z' then Some(Run(false, c as int - 'a' as int + 1))
    else None
  }

  /** The pixels a string of letters stands for, or None if it holds anything but letters. */
  function DecodeLetters(s: string): Option<seq<bool>>
    decreases |s|
  {
    if |s| == 0 then Some([])
    else
      var r, rest := LetterRun(s[0]), DecodeLetters(s[1..]);
      if r.Some? && rest.Some? then Some(Repeat(r.value.ink, r.value.length) + rest.value) else None
  }

  /** An encoded row of a row width pixels wide: the letters, padded with background to the width. */
  function DecodePixelRow(s: string, width: nat): (r: Option<seq<bool>>)
    ensures r.Some? <==> DecodeLetters(s).Some? && |DecodeLetters(s).value| <= width
    ensures r.Some? ==> var bits := DecodeLetters(s).value;
      |r.value| == width && r.value[..|bits|] == bits && forall i :: |bits| <= i < width ==> !r.value[i]
  {
    match DecodeLetters(s)
    case Some(bits) => if |bits| <= width then Some(bits + Repeat(false, width - |bits|)) else None
    case None => None
  }

  lemma {:induction false} DecodeAppend(s: string, t: string)
    requires DecodeLetters(s).Some? && DecodeLetters(t).Some?
    ensures DecodeLetters(s + t) == Some(DecodeLetters(s).value + DecodeLetters(t).value)
    decreases |s|
  {
    if |s| == 0 {
      assert s + t == t;
      assert DecodeLetters(s).value == [];
      assert [] + DecodeLetters(t).value == DecodeLetters(t).value;
    } else {
      var r := LetterRun(s[0]).value;
      var head := Repeat(r.ink, r.length);
      var a := DecodeLetters(s[1..]).value;
      var b := DecodeLetters(t).value;
      assert (s + t)[0] == s[0];
      assert (s + t)[1..] == s[1..] + t;
      calc {
        DecodeLetters(s + t);
        { DecodeAppend(s[1..], t); }
        Some(head + (a + b));
        { assert head + (a + b) == (head + a) + b; }
        Some((head + a) + b);
        Some(DecodeLetters(s).value + b);
      }
    }
  }

  lemma {:induction false} DecodeRunLetters(ink: bool, k: nat)
    ensures DecodeLetters(RunLetters(ink, k)) == Some(Repeat(ink, k))
    decreases k
  {
    if k == 0 {
    } else if k <= 26 {
      var s := RunLetters(ink, k);
      var c := Letter(ink, k);
      assert s == [c] && s[1..] == "";
      assert c as int == (if ink then 'A' as int else 'a' as int) + k - 1;
      assert LetterRun(c) == Some(Run(ink, k));
      assert Repeat(ink, k) + [] == Repeat(ink, k);
    } else {
      DecodeRunLetters(ink, 26);
      DecodeRunLetters(ink, k - 26);
      DecodeAppend(RunLetters(ink, 26), RunLetters(ink, k - 26));
      assert Repeat(ink, 26) + Repeat(ink, k - 26) == Repeat(ink, k);
    }
  }

  /** Decoding the letters of a list of runs gives its pixels, less a final background run. */
  lemma {:induction false} DecodeEncodeRuns(runs: seq<Run>)
    requires |runs| > 0
    ensures !runs[|runs| - 1].ink ==>
      DecodeLetters(EncodeRuns(runs)) == Some(Expand(runs[..|runs| - 1]))
    ensures runs[|runs| - 1].ink ==>
      DecodeLetters(EncodeRuns(runs)) == Some(Expand(runs))
    decreases |runs|
  {
    var head := RunLetters(runs[0].ink, runs[0].length);
    DecodeRunLetters(runs[0].ink, runs[0].length);
    if |runs| == 1 {
      assert runs[..0] == [];
      DecodeAppend(head, "");
      assert head + "" == head;
    } else {
      var tail := runs[1..];
      DecodeEncodeRuns(tail);
      DecodeAppend(head, EncodeRuns(tail));
      assert runs[..|runs| - 1][1..] == tail[..|tail| - 1];
    }
  }

  /**
   * Given the row width, decoding the encoded row gives the row back.  So the
   * encoding loses nothing but the length of the trailing background run.
   */
  lemma RoundTrip(row: seq<bool>)
    ensures DecodePixelRow(CompressPixelRow(row), |row|) == Some(row)
  {
    CompressIsRunEncoding(row);
    RunsExpand(row);
    if |row| == 0 {
      assert DecodeLetters(CompressPixelRow(row)) == Some([]);
      assert row == [] + Repeat(false, 0);
    } else {
      RunsEnds(row);
      DecodeRuns(Runs(row));
    }
  }

  /** Decoding the letters of a non-empty run list, padded to the width of its pixels, gives its pixels. */
  lemma DecodeRuns(runs: seq<Run>)
    requires |runs| > 0
    ensures DecodePixelRow(EncodeRuns(runs), |Expand(runs)|) == Some(Expand(runs))
  {
    DecodeEncodeRuns(runs);
    var n := |runs| - 1;
    assert runs == runs[..n] + [runs[n]];
    ExpandAppend(runs[..n], [runs[n]]);
    assert Expand([runs[n]]) == Repeat(runs[n].ink, runs[n].length) + [];
    if !runs[n].ink {
      assert Expand(runs) == Expand(runs[..n]) + Repeat(false, runs[n].length);
    } else {
      assert Expand(runs) + Repeat(false, 0) == Expand(runs);
    }
  }

  /** The encoding is empty exactly when the row has no ink pixel. */
  lemma EmptyIffNoInk(row: seq<bool>)
    ensures CompressPixelRow(row) == "" <==> true !in row
  {
    if true !in row {
      assert forall i :: 0 <= i < |row| ==> row[i] == false;
      assert row == Repeat(false, |row|);
      AllBackground(|row|);
    }
    if CompressPixelRow(row) == "" {
      RoundTrip(row);
      assert DecodeLetters("") == Some([]);
      assert row == Repeat(false, |row|);
    }
  }

  /** With the width known, two rows of that width with the same encoding are the same row. */
  lemma Injective(row1: seq<bool>, row2: seq<bool>)
    requires |row1| == |row2| && CompressPixelRow(row1) == CompressPixelRow(row2)
    ensures row1 == row2
  {
    RoundTrip(row1);
    RoundTrip(row2);
  }
  // ---------------------------------------------------------------------------
  // Rows built from runs, and the encoder's documented examples

  /** A list of maximal runs is recovered from its pixels. */
  lemma {:induction false} RunsOfExpand(runs: seq<Run>)
    requires Maximal(runs)
    ensures Runs(Expand(runs)) == runs
    decreases |runs|
  {
    if |runs| > 0 {
      var tail := runs[1..];
      assert Maximal(tail) by {
        forall i | 0 <= i < |tail| - 1
          ensures tail[i].ink != tail[i + 1].ink
        {
          assert tail[i] == runs[i + 1] && tail[i + 1] == runs[i + 2];
        }
      }
      RunsOfExpand(tail);
      if |tail| > 0 {
        assert Expand(tail)[0] == tail[0].ink;
        assert tail[0].ink != runs[0].ink;
      }
      RunsAfterRepeat(runs[0].ink, runs[0].length, Expand(tail));
      assert [Run(runs[0].ink, runs[0].length)] + tail == runs;
    }
  }

  /** The encoding of a row given by its maximal runs. */
  lemma CompressOfRuns(runs: seq<Run>)
    requires Maximal(runs)
    ensures CompressPixelRow(Expand(runs)) == EncodeRuns(runs)
  {
    CompressIsRunEncoding(Expand(runs));
    RunsOfExpand(runs);
  }

  /** A run of one ink pixel up to four: one letter each, 'A' to 'D'. */
  lemma ShortInkRuns()
    ensures CompressPixelRow(Bits("1")) == "A"
    ensures CompressPixelRow(Bits("11")) == "B"
    ensures CompressPixelRow(Bits("111")) == "C"
    ensures CompressPixelRow(Bits("1111")) == "D"
  {
  }
  /** A row of background only encodes to nothing. */
  lemma BackgroundOnlyExamples()
    ensures CompressPixelRow(Bits("0")) == ""
    ensures CompressPixelRow(Bits("00")) == ""
    ensures CompressPixelRow(Bits("000")) == ""
    ensures CompressPixelRow(Bits("0000")) == ""
  {
  }

  /** Background at the end of the row is dropped. */
  lemma TrailingBackgroundExamples()
    ensures CompressPixelRow(Bits("1000")) == "A"
    ensures CompressPixelRow(Bits("110")) == "B"
    ensures CompressPixelRow(Bits("11110000")) == "D"
  {
    assert Bits("1000") == Repeat(true, 1) + Repeat(false, 3);
    TrailingRunDropped(Repeat(true, 1), 3);
    SingleInkRun(1);
    assert Bits("110") == Repeat(true, 2) + Repeat(false, 1);
    TrailingRunDropped(Repeat(true, 2), 1);
    SingleInkRun(2);
    assert Bits("11110000") == Repeat(true, 4) + Repeat(false, 4);
    TrailingRunDropped(Repeat(true, 4), 4);
    SingleInkRun(4);
  }

  /** Background between ink is written in lower case. */
  lemma InnerBackgroundExample()
    ensures CompressPixelRow(Bits("101")) == "AaA"
  {
    assert Bits("101") == [true, false, true];
  }

  /** Background at the start of the row is written too. */
  lemma LeadingBackgroundExample()
    ensures CompressPixelRow(Bits("011")) == "aB"
  {
    assert Bits("011") == [false, true, true];
  }

  /** Two ink pixels and two trailing background pixels. */
  lemma TrailingPairExample()
    ensures CompressPixelRow(Bits("1100")) == "B"
  {
    assert Bits("1100") == [true, true, false, false];
  }

  /** Two ink, two background, two ink. */
  lemma PairsExample()
    ensures CompressPixelRow(Bits("110011")) == "BbB"
  {
    assert Bits("110011") == [true, true, false, false, true, true];
  }

  /** Three ink, three background, two ink and five background pixels. */
  lemma ComplexExample()
    ensures CompressPixelRow(Bits("1110001100000")) == "CcB"
  {
    var row := [true, true, true, false, false, false, true, true];
    assert Bits("1110001100000") == row + Repeat(false, 5);
    TrailingRunDropped(row, 5);
  }

  /** Alternating single pixels, ending with ink. */
  lemma AlternatingExample()
    ensures CompressPixelRow(Bits("1010101")) == "AaAaAaA"
  {
    assert Bits("1010101") == [true, false, true, false, true, false, true];
  }

  /** A run of exactly 26 pixels takes a single 'Z'. */
  lemma FullRunExample()
    ensures CompressPixelRow(Bits(Repeat('1', 26))) == "Z"
  {
    var ink26 := [Run(true, 26)];
    assert Bits(Repeat('1', 26)) == Expand(ink26);
    CompressOfRuns(ink26);
  }

  /** Runs longer than 26 pixels take one 'Z' or 'z' per full 26. */
  lemma LongRunExamples()
    ensures CompressPixelRow(Bits(Repeat('1', 27))) == "ZA"
  {
    var ink27 := [Run(true, 27)];
    assert Bits(Repeat('1', 27)) == Expand(ink27);
    CompressOfRuns(ink27);
  }

  /** Two full letters for 52 pixels. */
  lemma TwoFullRunsExample()
    ensures CompressPixelRow(Bits(Repeat('1', 52))) == "ZZ"
  {
    var ink52 := [Run(true, 52)];
    assert Bits(Repeat('1', 52)) == Expand(ink52);
    CompressOfRuns(ink52);
  }

  /** A background run of 30 before one ink pixel: 'z' for 26, 'd' for 4, then 'A'. */
  lemma LongGapExample()
    ensures CompressPixelRow(Bits(Repeat('0', 30) + "1")) == "zdA"
  {
    var gap := [Run(false, 30), Run(true, 1)];
    assert Bits(Repeat('0', 30) + "1") == Expand(gap);
    CompressOfRuns(gap);
  }
}
