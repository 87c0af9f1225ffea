/** Run-length encoding of one grid line: the clue numbers of a nonogram.
    Both clue generators (src/generator/creator.ts:248-311 and
    dist/nonogramGenerator.js:206-252) are proved against `RunLengths`. */
module Runs {

  /** Sum of a sequence, accumulated left to right. */
  function Sum(s: seq<int>): int
  {
    if s == [] then 0 else Sum(s[..|s| - 1]) + s[|s| - 1]
  }

  /** Number of `true` entries. */
  function CountTrue(s: seq<bool>): nat
  {
    if s == [] then 0 else CountTrue(s[..|s| - 1]) + (if s[|s| - 1] then 1 else 0)
  }

  /** The lengths of the maximal runs of `true`, left to right: a `true` after
      a `true` lengthens the current run, any other `true` opens a run of 1. */
  function RunLengths(s: seq<bool>): (r: seq<nat>)
    ensures s != [] && s[|s| - 1] ==> |r| > 0
  {
    if s == [] then []
    else
      var r := RunLengths(s[..|s| - 1]);
      if !s[|s| - 1] then r
      else if |s| >= 2 && s[|s| - 2] then r[..|r| - 1] + [r[|r| - 1] + 1]
      else r + [1]
  }

  lemma {:induction false} PrefixOfAppend<T>(s: seq<T>, x: T)
    ensures (s + [x])[..|s|] == s
  {
  }

  /** A non-empty sequence is its front followed by its last element. */
  lemma {:induction false} SplitLast<T>(s: seq<T>)
    requires s != []
    ensures s == s[..|s| - 1] + [s[|s| - 1]]
  {
  }

  /** Every clue number is positive. */
  lemma {:induction false} RunsPositive(s: seq<bool>)
    ensures forall i :: 0 <= i < |RunLengths(s)| ==> RunLengths(s)[i] > 0
  {
    if s != [] {
      RunsPositive(s[..|s| - 1]);
    }
  }

  /** The clue numbers add up to the number of filled cells. */
  lemma {:induction false} RunsSum(s: seq<bool>)
    ensures Sum(RunLengths(s)) == CountTrue(s)
  {
    if s != [] {
      var p := s[..|s| - 1];
      RunsSum(p);
      var r := RunLengths(p);
      if s[|s| - 1] && |s| >= 2 && s[|s| - 2] {
        assert p[|p| - 1];
        SplitLast(r);
        SumAppend(r[..|r| - 1], r[|r| - 1]);
        SumAppend(r[..|r| - 1], r[|r| - 1] + 1);
      } else if s[|s| - 1] {
        SumAppend(r, 1);
      }
    }
  }

  lemma {:induction false} SumAppend(s: seq<int>, x: int)
    ensures Sum(s + [x]) == Sum(s) + x
  {
    PrefixOfAppend(s, x);
  }

  /** A line with no filled cell has no clue numbers, and only such a line. */
  lemma {:induction false} NoRunsIffBlank(s: seq<bool>)
    ensures RunLengths(s) == [] <==> CountTrue(s) == 0
  {
    RunsSum(s);
    RunsPositive(s);
    var r := RunLengths(s);
    if r != [] {
      SumPositive(r);
    }
  }

  lemma {:induction false} SumPositive(s: seq<nat>)
    requires s != [] && forall i :: 0 <= i < |s| ==> s[i] > 0
    ensures Sum(s) > 0
  {
    if |s| > 1 {
      SumPositive(s[..|s| - 1]);
    }
  }

  lemma {:induction false} SumNonNegative(s: seq<nat>)
    ensures Sum(s) >= 0
  {
    if s != [] {
      SumNonNegative(s[..|s| - 1]);
    }
  }

  /** The runs, packed with one empty cell between neighbours, fit in the
      line: `Sum + count - 1 <= length`, and one cell tighter when the line
      does not end filled. */
  lemma {:induction false} RunsFit(s: seq<bool>)
    ensures Sum(RunLengths(s)) + |RunLengths(s)| <= |s| + 1
    ensures (s == [] || !s[|s| - 1]) ==> Sum(RunLengths(s)) + |RunLengths(s)| <= |s|
  {
    if s != [] {
      var p := s[..|s| - 1];
      RunsFit(p);
      var r := RunLengths(p);
      if s[|s| - 1] && |s| >= 2 && s[|s| - 2] {
        assert p[|p| - 1];
        SplitLast(r);
        SumAppend(r[..|r| - 1], r[|r| - 1]);
        SumAppend(r[..|r| - 1], r[|r| - 1] + 1);
      } else if s[|s| - 1] {
        assert p == [] || !p[|p| - 1];
        SumAppend(r, 1);
      }
    }
  }

  // ---- painting a line from its clues (the inverse direction) ----

  /** `n` empty cells. */
  function Blank(n: nat): (r: seq<bool>)
    ensures |r| == n
  {
    seq(n, _ => false)
  }

  /** `n` filled cells. */
  function Solid(n: nat): (r: seq<bool>)
    ensures |r| == n
  {
    seq(n, _ => true)
  }

  /** A line painted from clue numbers: run `j` is preceded by `gaps[j]` empty
      cells. */
  function Paint(lens: seq<nat>, gaps: seq<nat>): seq<bool>
    requires |gaps| == |lens|
  {
    if lens == [] then []
    else Paint(lens[..|lens| - 1], gaps[..|gaps| - 1]) + Blank(gaps[|gaps| - 1]) + Solid(lens[|lens| - 1])
  }

  /** Runs are non-empty and, after the first, separated by at least one empty cell. */
  predicate Separated(lens: seq<nat>, gaps: seq<nat>)
    requires |gaps| == |lens|
  {
    forall j :: 0 <= j < |lens| ==> lens[j] >= 1 && (j > 0 ==> gaps[j] >= 1)
  }

  lemma {:induction false} RunsAppendFalse(t: seq<bool>)
    ensures RunLengths(t + [false]) == RunLengths(t)
  {
    PrefixOfAppend(t, false);
  }

  lemma {:induction false} RunsAppendTrue(t: seq<bool>)
    ensures t == [] || !t[|t| - 1] ==> RunLengths(t + [true]) == RunLengths(t) + [1]
    ensures t != [] && t[|t| - 1] ==>
              var r := RunLengths(t);
              RunLengths(t + [true]) == r[..|r| - 1] + [r[|r| - 1] + 1]
  {
    PrefixOfAppend(t, true);
    var u := t + [true];
    assert |u| >= 2 ==> u[|u| - 2] == t[|t| - 1];
  }

  lemma {:induction false} BlankTailKeepsRuns(s: seq<bool>, n: nat)
    ensures RunLengths(s + Blank(n)) == RunLengths(s)
  {
    if n > 0 {
      BlankTailKeepsRuns(s, n - 1);
      var t := s + Blank(n - 1);
      assert Blank(n) == Blank(n - 1) + [false];
      assert s + Blank(n) == t + [false];
      RunsAppendFalse(t);
    } else {
      assert s + Blank(0) == s;
    }
  }

  /** One more filled cell after `s + Solid(n - 1)`. */
  lemma {:induction false} SolidStep(s: seq<bool>, n: nat)
    requires n >= 2
    ensures var t := s + Solid(n - 1);
            s + Solid(n) == t + [true] && t != [] && t[|t| - 1]
  {
    assert Solid(n) == Solid(n - 1) + [true];
  }

  lemma {:induction false} SolidOne(s: seq<bool>)
    ensures s + Solid(1) == s + [true]
  {
    assert Solid(1) == [true];
  }

  /** A filled cell after an open run of length `m` lengthens that run. */
  lemma {:induction false} ExtendRun(t: seq<bool>, x: seq<nat>, m: nat)
    requires t != [] && t[|t| - 1]
    requires RunLengths(t) == x + [m]
    ensures RunLengths(t + [true]) == x + [m + 1]
  {
    RunsAppendTrue(t);
    var r := x + [m];
    assert r[..|r| - 1] == x;
  }

  lemma {:induction false} SolidTailAddsRun(s: seq<bool>, n: nat)
    requires n >= 1
    requires s == [] || !s[|s| - 1]
    ensures RunLengths(s + Solid(n)) == RunLengths(s) + [n]
  {
    if n == 1 {
      SolidOne(s);
      RunsAppendTrue(s);
    } else {
      var t := s + Solid(n - 1);
      SolidTailAddsRun(s, n - 1);
      SolidStep(s, n);
      ExtendRun(t, RunLengths(s), n - 1);
    }
  }

  /** Encoding a painted line gives back the clue numbers it was painted from. */
  lemma {:induction false} PaintRoundTrip(lens: seq<nat>, gaps: seq<nat>, tail: nat)
    requires |gaps| == |lens| && Separated(lens, gaps)
    ensures RunLengths(Paint(lens, gaps) + Blank(tail)) == lens
  {
    BlankTailKeepsRuns(Paint(lens, gaps), tail);
    PaintRuns(lens, gaps);
  }

  lemma {:induction false} SeparatedPrefix(lens: seq<nat>, gaps: seq<nat>, n: nat)
    requires |gaps| == |lens| && Separated(lens, gaps) && n <= |lens|
    ensures Separated(lens[..n], gaps[..n])
  {
    forall j | 0 <= j < n ensures lens[..n][j] >= 1 && (j > 0 ==> gaps[..n][j] >= 1) {
      assert lens[..n][j] == lens[j] && gaps[..n][j] == gaps[j];
    }
  }

  /** A blank stretch after a painted prefix leaves the line not ending filled. */
  lemma {:induction false} EndsBlank(pre: seq<bool>, gap: nat)
    requires pre == [] || gap >= 1
    ensures var mid := pre + Blank(gap); mid == [] || !mid[|mid| - 1]
  {
    if gap == 0 {
      assert pre + Blank(0) == [];
    }
  }

  lemma {:induction false} PaintRuns(lens: seq<nat>, gaps: seq<nat>)
    requires |gaps| == |lens| && Separated(lens, gaps)
    ensures RunLengths(Paint(lens, gaps)) == lens
  {
    if lens != [] {
      var n := |lens| - 1;
      var pl, pg := lens[..n], gaps[..n];
      SeparatedPrefix(lens, gaps, n);
      PaintRuns(pl, pg);
      var pre := Paint(pl, pg);
      BlankTailKeepsRuns(pre, gaps[n]);
      assert pl == [] ==> pre == [];
      EndsBlank(pre, gaps[n]);
      var mid := pre + Blank(gaps[n]);
      SolidTailAddsRun(mid, lens[n]);
      assert Paint(lens, gaps) == mid + Solid(lens[n]);
      SplitLast(lens);
    }
  }

  // ---- the raw encoder of src/generator/creator.ts ----

  /** One step of the scan `_populatePuzzleFromGrid` runs over a line of
      numbers, reading `cur` after `last` (0 before the first entry): 1 after 0
      pushes 1, 0 after 1 pushes 0, 1 after 1 increments the last entry (a
      no-op on an empty list, where the source writes the non-index property
      `-1`); anything else does nothing. */
  function RawStep(raw: seq<int>, cur: int, last: int): seq<int>
  {
    if cur == 1 && last == 0 then raw + [1]
    else if cur == 0 && last == 1 then raw + [0]
    else if cur == 1 && last == 1 && raw != [] then raw[..|raw| - 1] + [raw[|raw| - 1] + 1]
    else raw
  }

  /** The list the scan builds before cleaning. */
  function RawHints(line: seq<int>): seq<int>
  {
    if line == [] then []
    else RawStep(RawHints(line[..|line| - 1]), line[|line| - 1], if |line| > 1 then line[|line| - 2] else 0)
  }

  /** The scan over the first `n + 1` entries is one step after the scan over
      the first `n`. */
  lemma {:induction false} RawHintsStep(line: seq<int>, n: nat)
    requires n < |line|
    ensures RawHints(line[..n + 1]) == RawStep(RawHints(line[..n]), line[n], if n > 0 then line[n - 1] else 0)
  {
    assert line[..n + 1][..n] == line[..n];
  }

  /** The positive entries, in order (the clean-up loop). */
  function Positives(s: seq<int>): (r: seq<nat>)
  {
    if s == [] then []
    else Positives(s[..|s| - 1]) + (if s[|s| - 1] > 0 then [s[|s| - 1]] else [])
  }

  lemma {:induction false} PositivesAppend(s: seq<int>, x: int)
    ensures Positives(s + [x]) == Positives(s) + (if x > 0 then [x] else [])
  {
    PrefixOfAppend(s, x);
  }

  predicate IsBitLine(line: seq<int>)
  {
    forall i :: 0 <= i < |line| ==> line[i] == 0 || line[i] == 1
  }

  function Bits(line: seq<int>): (b: seq<bool>)
    ensures |b| == |line|
  {
    seq(|line|, i requires 0 <= i < |line| => line[i] == 1)
  }

  /** The prefix of a 0/1 line is a 0/1 line, and reading it as booleans
      commutes with taking the prefix. */
  lemma {:induction false} BitsPrefix(line: seq<int>, n: nat)
    requires IsBitLine(line) && n <= |line|
    ensures IsBitLine(line[..n]) && Bits(line)[..n] == Bits(line[..n])
  {
    var p := line[..n];
    forall i | 0 <= i < |p| ensures p[i] == 0 || p[i] == 1 {
      assert p[i] == line[i];
    }
  }

  /** Incrementing a positive last raw entry increments the last clue. */
  lemma {:induction false} IncrementLast(raw: seq<int>)
    requires raw != [] && raw[|raw| - 1] > 0
    ensures var m := |raw| - 1;
            var runs := Positives(raw);
            runs != [] &&
            Positives(raw[..m] + [raw[m] + 1]) == runs[..|runs| - 1] + [runs[|runs| - 1] + 1]
  {
    var m := |raw| - 1;
    SplitLast(raw);
    PositivesAppend(raw[..m], raw[m]);
    PositivesAppend(raw[..m], raw[m] + 1);
    var runs := Positives(raw);
    assert runs == Positives(raw[..m]) + [raw[m]];
    assert runs[..|runs| - 1] == Positives(raw[..m]);
  }

  /** The runs after one more cell, given the runs before it, whether the cell
      is filled and whether a run was in progress. */
  function RunsStep(runs: seq<nat>, cur: bool, open: bool): seq<nat>
  {
    if !cur then runs
    else if open && runs != [] then runs[..|runs| - 1] + [runs[|runs| - 1] + 1]
    else runs + [1]
  }

  /** The 0/1 number for a cell. */
  function Bit(b: bool): int
  {
    if b then 1 else 0
  }

  /** One raw step on a 0/1 entry extends the cleaned list exactly as one more
      cell extends the runs, where `open` says whether a run is in progress. */
  lemma {:induction false} RawStepTracksRuns(raw: seq<int>, cur: bool, open: bool)
    requires open ==> raw != [] && raw[|raw| - 1] > 0
    ensures var r := RawStep(raw, Bit(cur), Bit(open));
            (cur ==> r != [] && r[|r| - 1] > 0) &&
            Positives(r) == RunsStep(Positives(raw), cur, open)
  {
    if cur && !open {
      PositivesAppend(raw, 1);
    } else if !cur && open {
      PositivesAppend(raw, 0);
    } else if cur && open {
      IncrementLast(raw);
    }
  }

  /** The runs of a line are one `RunsStep` after the runs of its prefix. */
  lemma {:induction false} RunsLast(b: seq<bool>)
    requires b != []
    ensures RunLengths(b) == RunsStep(RunLengths(b[..|b| - 1]), b[|b| - 1], |b| >= 2 && b[|b| - 2])
  {
    var p := b[..|b| - 1];
    if |b| >= 2 && b[|b| - 2] {
      assert p[|p| - 1] == b[|b| - 2];
    }
  }

  /** One more 0/1 entry extends the runs of the line read as booleans. */
  lemma {:induction false} BitsRunsStep(line: seq<int>)
    requires IsBitLine(line) && line != []
    ensures var n := |line| - 1;
            RunLengths(Bits(line)) ==
              RunsStep(RunLengths(Bits(line[..n])), line[n] == 1, n >= 1 && line[n - 1] == 1)
  {
    var n := |line| - 1;
    var b := Bits(line);
    BitsPrefix(line, n);
    RunsLast(b);
    assert b[..|b| - 1] == Bits(line[..n]);
    assert b[|b| - 1] == (line[n] == 1);
    assert (|b| >= 2 && b[|b| - 2]) == (n >= 1 && line[n - 1] == 1);
  }

  /** The raw scan over a line is one raw step after the scan over its prefix. */
  lemma {:induction false} RawHintsLast(line: seq<int>)
    requires IsBitLine(line) && line != []
    ensures var n := |line| - 1;
            RawHints(line) == RawStep(RawHints(line[..n]), Bit(line[n] == 1), Bit(n >= 1 && line[n - 1] == 1))
  {
    var n := |line| - 1;
    assert line[n] == 0 || line[n] == 1;
    assert n > 0 ==> line[n - 1] == 0 || line[n - 1] == 1;
  }

  /** On a line of 0s and 1s the raw encoder, cleaned of its zeros, is the
      run-length encoding; while a run is open its length is the last raw
      entry. */
  lemma {:induction false} RawHintsAreRuns(line: seq<int>)
    requires IsBitLine(line)
    ensures Positives(RawHints(line)) == RunLengths(Bits(line))
    ensures line != [] && line[|line| - 1] == 1 ==>
              RawHints(line) != [] && RawHints(line)[|RawHints(line)| - 1] > 0
  {
    if line != [] {
      var n := |line| - 1;
      var p := line[..n];
      BitsPrefix(line, n);
      RawHintsAreRuns(p);
      var cur := line[n] == 1;
      var open := n >= 1 && line[n - 1] == 1;
      assert n > 0 ==> p[n - 1] == line[n - 1];
      RawHintsLast(line);
      RawStepTracksRuns(RawHints(p), cur, open);
      BitsRunsStep(line);
    }
  }

  /** The creator's clue list for a line: the raw list without its zeros. */
  function CleanHints(line: seq<int>): seq<nat>
  {
    Positives(RawHints(line))
  }

  /** On 0/1 lines the creator's clues are the run lengths: positive, summing to
      the number of 1s, empty exactly for an all-zero line. */
  lemma {:induction false} CleanHintsSpec(line: seq<int>)
    requires IsBitLine(line)
    ensures CleanHints(line) == RunLengths(Bits(line))
    ensures forall i :: 0 <= i < |CleanHints(line)| ==> CleanHints(line)[i] > 0
    ensures Sum(CleanHints(line)) == CountTrue(Bits(line))
    ensures CleanHints(line) == [] <==> CountTrue(Bits(line)) == 0
  {
    RawHintsAreRuns(line);
    RunsPositive(Bits(line));
    RunsSum(Bits(line));
    NoRunsIffBlank(Bits(line));
  }
}
