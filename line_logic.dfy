/** What each deduction rule of src/generator/solver.ts does to one line,
    stated on the line's view: the `aiSolution` of its cells in line order.
    The methods of `Solving.Solver` are proved to have exactly these effects. */
module LineLogic {
  import opened Wrappers
  import opened PuzzleCells
  import opened PuzzleLines

  // ---- views of the cell list ----

  /** The deduced values of the cells at positions `idx`, in order. */
  function View(cells: seq<Cell>, idx: seq<nat>): (v: seq<Tri>)
    ensures |v| == |idx|
    ensures forall p :: 0 <= p < |idx| && idx[p] < |cells| ==> v[p] == cells[idx[p]].aiSolution
  {
    seq(|idx|, p requires 0 <= p < |idx| => if idx[p] < |cells| then cells[idx[p]].aiSolution else Unknown)
  }

  /** The view after `_setCellSolution` on position `p`: an undecided entry
      takes `value`, a decided one keeps its value. */
  function Decide(a: seq<Tri>, p: nat, value: Tri): (r: seq<Tri>)
    requires p < |a|
    ensures Extends(a, r)
  {
    a[p := if a[p] == Unknown then value else a[p]]
  }

  /** Every undecided entry whose mask bit is set takes `value`. */
  function Masked(a: seq<Tri>, mask: seq<bool>, value: Tri): (r: seq<Tri>)
    requires |mask| == |a|
    ensures Extends(a, r)
  {
    seq(|a|, p requires 0 <= p < |a| => if mask[p] && a[p] == Unknown then value else a[p])
  }

  /** `Masked` restricted to the positions before `n`. */
  function MaskedUpTo(a: seq<Tri>, mask: seq<bool>, value: Tri, n: nat): (r: seq<Tri>)
    requires |mask| == |a|
    ensures |r| == |a|
  {
    seq(|a|, p requires 0 <= p < |a| => if p < n && mask[p] && a[p] == Unknown then value else a[p])
  }

  lemma MaskedStep(a: seq<Tri>, mask: seq<bool>, value: Tri, n: nat, before: seq<Tri>, after: seq<Tri>)
    requires |mask| == |a| && n < |a| && before == MaskedUpTo(a, mask, value, n)
    requires if mask[n] && before[n] == Unknown then after == Decide(before, n, value) else after == before
    ensures after == MaskedUpTo(a, mask, value, n + 1)
  {
  }

  lemma MaskedAll(a: seq<Tri>, mask: seq<bool>, value: Tri)
    requires |mask| == |a|
    ensures MaskedUpTo(a, mask, value, |a|) == Masked(a, mask, value)
    ensures MaskedUpTo(a, mask, value, 0) == a
  {
  }

  /** Every entry is 0 or 1. */
  predicate AllDecided(a: seq<Tri>)
  {
    forall p :: 0 <= p < |a| ==> a[p] != Unknown
  }

  /** `b` keeps every decided entry of `a` (deductions are written once). */
  predicate Extends(a: seq<Tri>, b: seq<Tri>)
  {
    |a| == |b| && forall p :: 0 <= p < |a| && a[p] != Unknown ==> b[p] == a[p]
  }

  /** Number of filled entries. */
  function CountFilled(a: seq<Tri>): nat
  {
    if a == [] then 0 else CountFilled(a[..|a| - 1]) + (if a[|a| - 1] == Filled then 1 else 0)
  }

  // ---- sums over the sections of a line ----

  /** Total length of the clues. */
  function SumLengths(sections: seq<Section>): nat
  {
    if sections == [] then 0
    else SumLengths(sections[..|sections| - 1]) + sections[|sections| - 1].length
  }

  /** Space the clues take with one gap after each: `sum of (length + 1)`. */
  function Span(sections: seq<Section>): nat
  {
    if sections == [] then 0
    else Span(sections[..|sections| - 1]) + sections[|sections| - 1].length + 1
  }

  /** `minimumSectionLength` as `_reset` accumulates it: all clue lengths plus
      one gap between neighbours (-1 for a line without clues). */
  function MinimumLength(sections: seq<Section>): int
  {
    Span(sections) - 1
  }

  /** How far the window of section `k` is shifted by the sections before it. */
  function Offset(sections: seq<Section>, k: nat): nat
    requires k <= |sections|
  {
    Span(sections[..k])
  }

  /** The offset of the next section adds this one's length and a gap. */
  lemma OffsetNext(sections: seq<Section>, k: nat)
    requires k < |sections|
    ensures Offset(sections, k + 1) == Offset(sections, k) + sections[k].length + 1
  {
    assert sections[..k + 1][..k] == sections[..k];
  }

  lemma {:induction false} SpanPrefix(sections: seq<Section>, k: nat)
    requires k < |sections|
    ensures Offset(sections, k) + sections[k].length + 1 <= Span(sections)
  {
    var n := |sections| - 1;
    if k == n {
      assert sections[..n + 1] == sections;
      assert Span(sections) == Span(sections[..n]) + sections[n].length + 1;
    } else {
      SpanPrefix(sections[..n], k);
      assert sections[..n][..k] == sections[..k];
      assert sections[..n][k] == sections[k];
    }
  }

  // ---- eliminateImpossibleFits ----

  /** Number of known-empty cells at the start of the line. */
  function LeadingEmpty(a: seq<Tri>): (n: nat)
    ensures n <= |a|
    ensures forall i :: 0 <= i < n ==> a[i] == Empty
    ensures n < |a| ==> a[n] != Empty
  {
    if a == [] || a[0] != Empty then 0 else 1 + LeadingEmpty(a[1..])
  }

  /** Number of known-empty cells at the end of the line. */
  function TrailingEmpty(a: seq<Tri>): (n: nat)
    ensures n <= |a|
    ensures forall i :: |a| - n <= i < |a| ==> a[i] == Empty
    ensures n < |a| ==> a[|a| - 1 - n] != Empty
  {
    if a == [] || a[|a| - 1] != Empty then 0 else 1 + TrailingEmpty(a[..|a| - 1])
  }

  /** A run of `len` may start at `s`: inside the window `[lo, hi]`, not
      followed by a known-filled cell, and over no known-empty cell. */
  predicate Fits(a: seq<Tri>, s: nat, len: nat, lo: int, hi: int)
  {
    lo <= s <= hi &&
    !(s + len < |a| && a[s + len] == Filled) &&
    forall i :: s <= i < s + len && i < |a| ==> a[i] != Empty
  }

  /** The starts of `ps` that still fit, in their order. */
  function Survivors(ps: seq<nat>, a: seq<Tri>, len: nat, lo: int, hi: int): (r: seq<nat>)
    ensures |r| <= |ps|
    ensures forall i :: 0 <= i < |r| ==> r[i] in ps && Fits(a, r[i], len, lo, hi)
  {
    if ps == [] then []
    else
      var r := Survivors(ps[..|ps| - 1], a, len, lo, hi);
      var s := ps[|ps| - 1];
      if Fits(a, s, len, lo, hi) then r + [s] else r
  }

  /** Lowest start the window of section `k` allows. */
  function WindowLow(a: seq<Tri>, sections: seq<Section>, k: nat): int
    requires k <= |sections|
  {
    LeadingEmpty(a) + Offset(sections, k)
  }

  /** Highest start the window of section `k` allows. */
  function WindowHigh(a: seq<Tri>, minimumSectionLength: int, sections: seq<Section>, k: nat): int
    requires k <= |sections|
  {
    |a| - minimumSectionLength - TrailingEmpty(a) + Offset(sections, k)
  }

  /** Section `k` after elimination. */
  function EliminateIn(a: seq<Tri>, minimumSectionLength: int, sections: seq<Section>, k: nat): Section
    requires k < |sections|
  {
    var sec := sections[k];
    sec.(possibleStartIndexes := Survivors(sec.possibleStartIndexes, a, sec.length,
      WindowLow(a, sections, k), WindowHigh(a, minimumSectionLength, sections, k)))
  }

  /** Every section of a line after elimination. */
  function Eliminated(a: seq<Tri>, minimumSectionLength: int, sections: seq<Section>): (r: seq<Section>)
    ensures |r| == |sections|
    ensures forall k :: 0 <= k < |r| ==> r[k] == EliminateIn(a, minimumSectionLength, sections, k)
  {
    seq(|sections|, k requires 0 <= k < |sections| => EliminateIn(a, minimumSectionLength, sections, k))
  }

  /** The sections before `n` eliminated, the others as they were. */
  function EliminatedBefore(a: seq<Tri>, minimumSectionLength: int, sections: seq<Section>, n: nat): (r: seq<Section>)
    ensures |r| == |sections|
    ensures n == 0 ==> r == sections
    ensures n >= |sections| ==> r == Eliminated(a, minimumSectionLength, sections)
  {
    seq(|sections|, k requires 0 <= k < |sections| =>
      if k < n then EliminateIn(a, minimumSectionLength, sections, k) else sections[k])
  }

  lemma EliminatedNext(a: seq<Tri>, minimumSectionLength: int, sections: seq<Section>, n: nat)
    requires n < |sections|
    ensures EliminatedBefore(a, minimumSectionLength, sections, n)[n := EliminateIn(a, minimumSectionLength, sections, n)] ==
            EliminatedBefore(a, minimumSectionLength, sections, n + 1)
  {
  }

  /** The survivors of a prefix grow one start at a time. */
  lemma SurvivorsNext(ps: seq<nat>, t: nat, a: seq<Tri>, len: nat, lo: int, hi: int)
    requires t < |ps|
    ensures Survivors(ps[..t + 1], a, len, lo, hi) ==
            Survivors(ps[..t], a, len, lo, hi) + (if Fits(a, ps[t], len, lo, hi) then [ps[t]] else [])
  {
    assert ps[..t + 1][..t] == ps[..t];
  }

  /** `Span` depends on the clue lengths only. */
  lemma {:induction false} SpanOfLengths(s: seq<Section>, t: seq<Section>)
    requires |s| == |t| && forall k :: 0 <= k < |s| ==> s[k].length == t[k].length
    ensures Span(s) == Span(t)
  {
    if s != [] {
      SpanOfLengths(s[..|s| - 1], t[..|t| - 1]);
    }
  }

  /** No two entries are equal. */
  predicate NoDuplicates(s: seq<nat>)
  {
    forall i, j :: 0 <= i < j < |s| ==> s[i] != s[j]
  }

  /** The survivors of a list without duplicates are an ordered sub-list of it:
      still without duplicates, and each of them drawn from it. */
  lemma {:induction false} SurvivorsSubList(ps: seq<nat>, a: seq<Tri>, len: nat, lo: int, hi: int)
    requires NoDuplicates(ps)
    ensures NoDuplicates(Survivors(ps, a, len, lo, hi))
    ensures forall s :: s in ps && Fits(a, s, len, lo, hi) ==> s in Survivors(ps, a, len, lo, hi)
  {
    if ps != [] {
      var p := ps[..|ps| - 1];
      assert NoDuplicates(p);
      SurvivorsSubList(p, a, len, lo, hi);
      var x := ps[|ps| - 1];
      assert x !in p;
      assert ps == p + [x];
    }
  }

  /** Every surviving start leaves room for its run inside the line when
      `minimumSectionLength` is as `_reset` computes it. */
  lemma SurvivorFitsInLine(a: seq<Tri>, sections: seq<Section>, k: nat, s: nat)
    requires k < |sections|
    requires s in EliminateIn(a, MinimumLength(sections), sections, k).possibleStartIndexes
    ensures WindowLow(a, sections, k) <= s
    ensures s + sections[k].length <= |a|
  {
    SpanPrefix(sections, k);
  }

  // ---- findKnownPositivesAndNegatives ----

  /** Number of starts in `ps` whose run of `len` covers cell `p`. */
  function CoverCount(ps: seq<nat>, len: nat, p: int): (n: nat)
    ensures n <= |ps|
  {
    if ps == [] then 0
    else
      var s := ps[|ps| - 1];
      CoverCount(ps[..|ps| - 1], len, p) + (if s <= p < s + len then 1 else 0)
  }

  /** `CoverCount` reaches `|ps|` exactly when every start covers `p`, and is 0
      exactly when none does. */
  lemma {:induction false} CoverCountMeaning(ps: seq<nat>, len: nat, p: int)
    ensures CoverCount(ps, len, p) == |ps| <==> forall i :: 0 <= i < |ps| ==> ps[i] <= p < ps[i] + len
    ensures CoverCount(ps, len, p) == 0 <==> forall i :: 0 <= i < |ps| ==> !(ps[i] <= p < ps[i] + len)
  {
    if ps != [] {
      var q := ps[..|ps| - 1];
      CoverCountMeaning(q, len, p);
      assert forall i :: 0 <= i < |q| ==> q[i] == ps[i];
    }
  }

  /** Some section has every remaining start covering `p` (true for every
      cell when a section has no start left). */
  predicate AnyFullyCovers(sections: seq<Section>, p: int)
  {
    exists j :: 0 <= j < |sections| &&
      CoverCount(sections[j].possibleStartIndexes, sections[j].length, p) == |sections[j].possibleStartIndexes|
  }

  /** Number of (section, start) pairs covering `p`. */
  function TotalCover(sections: seq<Section>, p: int): nat
  {
    if sections == [] then 0
    else
      var sec := sections[|sections| - 1];
      TotalCover(sections[..|sections| - 1], p) + CoverCount(sec.possibleStartIndexes, sec.length, p)
  }

  lemma {:induction false} TotalCoverZero(sections: seq<Section>, p: int)
    ensures TotalCover(sections, p) == 0 <==>
              forall j :: 0 <= j < |sections| ==>
                CoverCount(sections[j].possibleStartIndexes, sections[j].length, p) == 0
  {
    if sections != [] {
      var q := sections[..|sections| - 1];
      TotalCoverZero(q, p);
      assert forall j :: 0 <= j < |q| ==> q[j] == sections[j];
    }
  }

  /** The line after `findKnownPositivesAndNegatives`. */
  function KnownCells(a: seq<Tri>, sections: seq<Section>): (r: seq<Tri>)
    ensures Extends(a, r)
  {
    seq(|a|, p requires 0 <= p < |a| =>
      if a[p] != Unknown then a[p]
      else if AnyFullyCovers(sections, p) then Filled
      else if TotalCover(sections, p) == 0 then Empty
      else Unknown)
  }

  /** The rule in words: an undecided cell that every start of some section
      covers becomes filled; one that no start of any section covers becomes
      empty; nothing else changes. */
  lemma KnownCellsMeaning(a: seq<Tri>, sections: seq<Section>, p: nat)
    requires p < |a| && a[p] == Unknown
    ensures (exists j :: 0 <= j < |sections| &&
               forall i :: 0 <= i < |sections[j].possibleStartIndexes| ==>
                 sections[j].possibleStartIndexes[i] <= p < sections[j].possibleStartIndexes[i] + sections[j].length)
            ==> KnownCells(a, sections)[p] == Filled
    ensures KnownCells(a, sections)[p] == Empty <==>
              (forall j :: 0 <= j < |sections| ==> |sections[j].possibleStartIndexes| > 0) &&
              forall j, i :: 0 <= j < |sections| && 0 <= i < |sections[j].possibleStartIndexes| ==>
                !(sections[j].possibleStartIndexes[i] <= p < sections[j].possibleStartIndexes[i] + sections[j].length)
  {
    var r := KnownCells(a, sections);
    assert r[p] == if AnyFullyCovers(sections, p) then Filled else if TotalCover(sections, p) == 0 then Empty else Unknown;
    forall j | 0 <= j < |sections| {
      CoverCountMeaning(sections[j].possibleStartIndexes, sections[j].length, p);
    }
    TotalCoverZero(sections, p);
    if AnyFullyCovers(sections, p) {
      var j :| 0 <= j < |sections| &&
        CoverCount(sections[j].possibleStartIndexes, sections[j].length, p) == |sections[j].possibleStartIndexes|;
      if |sections[j].possibleStartIndexes| > 0 {
        assert TotalCover(sections, p) != 0;
      }
    } else {
      forall j | 0 <= j < |sections| ensures |sections[j].possibleStartIndexes| > 0 {
      }
    }
  }

  /** The cells every start of `sec` covers, as a mask over a line of `n` cells. */
  function FullMask(sec: Section, n: nat): (m: seq<bool>)
    ensures |m| == n
  {
    seq(n, p => CoverCount(sec.possibleStartIndexes, sec.length, p) == |sec.possibleStartIndexes|)
  }

  /** The cells no start of any section covers. */
  function ZeroMask(sections: seq<Section>, n: nat): (m: seq<bool>)
    ensures |m| == n
  {
    seq(n, p => TotalCover(sections, p) == 0)
  }

  /** The line after the filling phases of the first `j` sections. */
  function FillPhases(a: seq<Tri>, sections: seq<Section>, j: nat): (r: seq<Tri>)
    requires j <= |sections|
    ensures |r| == |a|
  {
    if j == 0 then a else Masked(FillPhases(a, sections, j - 1), FullMask(sections[j - 1], |a|), Filled)
  }

  /** After the filling phases of the first `j` sections, an undecided cell
      is filled exactly when one of those sections covers it fully. */
  lemma {:induction false} FillPhasesAt(a: seq<Tri>, sections: seq<Section>, j: nat, p: nat)
    requires j <= |sections| && p < |a|
    ensures FillPhases(a, sections, j)[p] ==
            if a[p] != Unknown then a[p]
            else if AnyFullyCovers(sections[..j], p) then Filled
            else Unknown
  {
    if j > 0 {
      FillPhasesAt(a, sections, j - 1, p);
      assert sections[..j][..j - 1] == sections[..j - 1];
      assert sections[..j][j - 1] == sections[j - 1];
      if AnyFullyCovers(sections[..j - 1], p) {
        var i :| 0 <= i < j - 1 && CoverCount(sections[..j - 1][i].possibleStartIndexes, sections[..j - 1][i].length, p)
                                      == |sections[..j - 1][i].possibleStartIndexes|;
        assert sections[..j][i] == sections[..j - 1][i];
      }
    }
  }

  /** The phases of `findKnownPositivesAndNegatives` in the source's order
      (each section's filling phase, then the emptying phase) give
      `KnownCells`. */
  lemma KnownByPhases(a: seq<Tri>, sections: seq<Section>)
    ensures Masked(FillPhases(a, sections, |sections|), ZeroMask(sections, |a|), Empty) == KnownCells(a, sections)
  {
    assert sections[..|sections|] == sections;
    forall p | 0 <= p < |a|
      ensures Masked(FillPhases(a, sections, |sections|), ZeroMask(sections, |a|), Empty)[p] == KnownCells(a, sections)[p]
    {
      FillPhasesAt(a, sections, |sections|, p);
    }
  }

  // ---- closing a run with empty cells ----

  /** The view after `if (line.cells[p]) _setCellSolution(line.cells[p], value)`:
      only a position on the line is decided. */
  function DecideIfOn(a: seq<Tri>, p: int, value: Tri): (r: seq<Tri>)
    ensures Extends(a, r)
    ensures forall q :: 0 <= q < |a| && q != p ==> r[q] == a[q]
    ensures 0 <= p < |a| && a[p] == Unknown ==> r[p] == value
  {
    if 0 <= p < |a| then Decide(a, p, value) else a
  }

  /** Deciding the two positions `x` and `y` as empty, one after the other,
      adds them to the mask of positions decided as empty. */
  lemma CapStep(a: seq<Tri>, mask: seq<bool>, mask2: seq<bool>, x: int, y: int)
    requires |mask| == |a| && |mask2| == |a|
    requires forall p :: 0 <= p < |a| ==> (mask2[p] <==> mask[p] || p == x || p == y)
    ensures Masked(a, mask2, Empty) == DecideIfOn(DecideIfOn(Masked(a, mask, Empty), x, Empty), y, Empty)
  {
  }

  // ---- findSectionDefiningChains ----

  /** A maximal run of filled cells. */
  datatype Chain = Chain(start: nat, length: nat)

  /** The chains the left-to-right scan collects: a filled cell after a
      filled cell lengthens the current chain, any other filled cell opens a
      chain of length 1. */
  function ChainsOf(a: seq<Tri>): (cs: seq<Chain>)
    ensures a != [] && a[|a| - 1] == Filled ==> |cs| > 0
  {
    if a == [] then []
    else
      var cs := ChainsOf(a[..|a| - 1]);
      if a[|a| - 1] != Filled then cs
      else if |a| >= 2 && a[|a| - 2] == Filled then
        cs[..|cs| - 1] + [cs[|cs| - 1].(length := cs[|cs| - 1].length + 1)]
      else cs + [Chain(|a| - 1, 1)]
  }

  /** `start, length` is a maximal run of filled cells of `a`. */
  predicate IsRun(a: seq<Tri>, start: nat, length: nat)
  {
    length >= 1 && start + length <= |a| &&
    (forall i :: start <= i < start + length ==> a[i] == Filled) &&
    (start == 0 || a[start - 1] != Filled) &&
    (start + length == |a| || a[start + length] != Filled)
  }

  /** The chains are maximal runs in increasing order, and the last one
      reaches the end of the line exactly when the line ends filled. */
  predicate ChainsWellFormed(a: seq<Tri>, cs: seq<Chain>)
  {
    (forall j :: 0 <= j < |cs| ==> IsRun(a, cs[j].start, cs[j].length)) &&
    (forall j :: 0 <= j < |cs| - 1 ==> cs[j].start + cs[j].length < cs[|cs| - 1].start) &&
    (a != [] && a[|a| - 1] == Filled ==> |cs| > 0 && cs[|cs| - 1].start + cs[|cs| - 1].length == |a|)
  }

  /** A run that ends before the last cell of `q` is still a run of `q + [x]`. */
  lemma {:induction false} RunExtends(q: seq<Tri>, x: Tri, c: Chain)
    requires IsRun(q, c.start, c.length)
    requires c.start + c.length < |q| || x != Filled
    ensures IsRun(q + [x], c.start, c.length)
  {
  }

  lemma {:induction false} ChainsStepNotFilled(q: seq<Tri>, x: Tri)
    requires x != Filled && ChainsWellFormed(q, ChainsOf(q))
    ensures ChainsWellFormed(q + [x], ChainsOf(q + [x]))
  {
    var a := q + [x];
    assert a[..|a| - 1] == q;
    var cs := ChainsOf(q);
    forall j | 0 <= j < |cs| ensures IsRun(a, cs[j].start, cs[j].length) {
      RunExtends(q, x, cs[j]);
    }
  }

  lemma {:induction false} ChainsStepLengthen(q: seq<Tri>)
    requires q != [] && q[|q| - 1] == Filled && ChainsWellFormed(q, ChainsOf(q))
    ensures ChainsWellFormed(q + [Filled], ChainsOf(q + [Filled]))
  {
    var a := q + [Filled];
    assert a[..|a| - 1] == q;
    var cs := ChainsOf(q);
    var last := cs[|cs| - 1];
    var ds := ChainsOf(a);
    assert ds == cs[..|cs| - 1] + [last.(length := last.length + 1)];
    forall j | 0 <= j < |ds| ensures IsRun(a, ds[j].start, ds[j].length) {
      if j < |cs| - 1 {
        assert ds[j] == cs[j];
        RunExtends(q, Filled, cs[j]);
      }
    }
    forall j | 0 <= j < |ds| - 1 ensures ds[j].start + ds[j].length < ds[|ds| - 1].start {
      assert ds[j] == cs[j];
    }
  }

  lemma {:induction false} ChainsStepOpen(q: seq<Tri>)
    requires (q == [] || q[|q| - 1] != Filled) && ChainsWellFormed(q, ChainsOf(q))
    ensures ChainsWellFormed(q + [Filled], ChainsOf(q + [Filled]))
  {
    var a := q + [Filled];
    assert a[..|a| - 1] == q;
    var cs := ChainsOf(q);
    var ds := ChainsOf(a);
    assert ds == cs + [Chain(|q|, 1)];
    forall j | 0 <= j < |cs| ensures cs[j].start + cs[j].length < |q| {
      assert IsRun(q, cs[j].start, cs[j].length);
      assert q[cs[j].start + cs[j].length - 1] == Filled;
    }
    forall j | 0 <= j < |ds| ensures IsRun(a, ds[j].start, ds[j].length) {
      if j < |cs| {
        assert ds[j] == cs[j];
        RunExtends(q, Filled, cs[j]);
      }
    }
    forall j | 0 <= j < |ds| - 1 ensures ds[j].start + ds[j].length < ds[|ds| - 1].start {
      assert ds[j] == cs[j];
    }
  }

  /** The chains of any line are its maximal filled runs, in order. */
  lemma {:induction false} ChainsAreRuns(a: seq<Tri>)
    ensures ChainsWellFormed(a, ChainsOf(a))
  {
    if a != [] {
      var q := a[..|a| - 1];
      var x := a[|a| - 1];
      assert a == q + [x];
      ChainsAreRuns(q);
      if x != Filled {
        ChainsStepNotFilled(q, x);
      } else if |a| >= 2 && a[|a| - 2] == Filled {
        ChainsStepLengthen(q);
      } else {
        ChainsStepOpen(q);
      }
    }
  }

  /** A run that ends before the last cell is a run of the line without it. */
  lemma {:induction false} RunBeforeLast(a: seq<Tri>, start: nat, length: nat)
    requires IsRun(a, start, length) && start + length < |a|
    ensures IsRun(a[..|a| - 1], start, length)
  {
    var q := a[..|a| - 1];
    assert forall i :: 0 <= i < |q| ==> a[i] == q[i];
  }

  /** A run that reaches the last cell, shortened by one, reaches the end of
      the line without that cell. */
  lemma {:induction false} RunWithoutLast(a: seq<Tri>, start: nat, length: nat)
    requires IsRun(a, start, length) && start + length == |a| && length >= 2
    ensures IsRun(a[..|a| - 1], start, length - 1)
  {
    var q := a[..|a| - 1];
    assert forall i :: 0 <= i < |q| ==> a[i] == q[i];
  }

  lemma {:induction false} OnlyLastChainReachesEnd(q: seq<Tri>, j: nat)
    requires q != [] && q[|q| - 1] == Filled
    requires j < |ChainsOf(q)| && ChainsOf(q)[j].start + ChainsOf(q)[j].length == |q|
    ensures j == |ChainsOf(q)| - 1
  {
    ChainsAreRuns(q);
    var cs := ChainsOf(q);
    var last := cs[|cs| - 1];
    assert IsRun(q, last.start, last.length);
  }

  /** A chain reaching the end of `a` without its last cell grows by one when
      that cell is filled. */
  lemma {:induction false} ChainGrows(a: seq<Tri>, start: nat, length: nat)
    requires |a| >= 2 && a[|a| - 1] == Filled && a[|a| - 2] == Filled && length >= 1
    requires Chain(start, length) in ChainsOf(a[..|a| - 1]) && start + length == |a| - 1
    ensures Chain(start, length + 1) in ChainsOf(a)
  {
    var q := a[..|a| - 1];
    var cs := ChainsOf(q);
    var j :| 0 <= j < |cs| && cs[j] == Chain(start, length);
    OnlyLastChainReachesEnd(q, j);
    var ds := ChainsOf(a);
    assert ds == cs[..|cs| - 1] + [cs[|cs| - 1].(length := cs[|cs| - 1].length + 1)];
    assert ds[j] == Chain(start, length + 1);
  }

  /** A chain of `a` without its last cell stays a chain of `a` unless it
      reached that end and the last cell is filled. */
  lemma {:induction false} ChainKept(a: seq<Tri>, c: Chain)
    requires a != [] && c in ChainsOf(a[..|a| - 1])
    requires c.start + c.length < |a| - 1 || a[|a| - 1] != Filled
    ensures c in ChainsOf(a)
  {
    var q := a[..|a| - 1];
    var cs := ChainsOf(q);
    var j :| 0 <= j < |cs| && cs[j] == c;
    if a[|a| - 1] == Filled && |a| >= 2 && a[|a| - 2] == Filled {
      ChainsAreRuns(q);
      assert j != |cs| - 1;
      assert ChainsOf(a)[j] == cs[j];
    } else if a[|a| - 1] == Filled {
      assert ChainsOf(a)[j] == cs[j];
    }
  }

  /** A filled last cell after a non-filled one opens a chain of length 1. */
  lemma {:induction false} ChainOpens(a: seq<Tri>)
    requires a != [] && a[|a| - 1] == Filled && (|a| == 1 || a[|a| - 2] != Filled)
    ensures Chain(|a| - 1, 1) in ChainsOf(a)
  {
    var cs := ChainsOf(a[..|a| - 1]);
    assert ChainsOf(a) == cs + [Chain(|a| - 1, 1)];
    assert ChainsOf(a)[|cs|] == Chain(|a| - 1, 1);
  }

  /** Conversely, every maximal filled run of a line is one of its chains. */
  lemma {:induction false} RunsAreChains(a: seq<Tri>, start: nat, length: nat)
    requires IsRun(a, start, length)
    ensures Chain(start, length) in ChainsOf(a)
  {
    if start + length < |a| {
      RunBeforeLast(a, start, length);
      RunsAreChains(a[..|a| - 1], start, length);
      ChainKept(a, Chain(start, length));
    } else if length == 1 {
      ChainOpens(a);
    } else {
      RunWithoutLast(a, start, length);
      RunsAreChains(a[..|a| - 1], start, length - 1);
      ChainGrows(a, start, length - 1);
    }
  }

  /** Index of the first section of greatest length: the head of the
      sections sorted longest first when ties keep their clue order. */
  function LongestSection(sections: seq<Section>): (r: nat)
    requires |sections| > 0
    ensures r < |sections|
    ensures forall j :: 0 <= j < |sections| ==> sections[j].length <= sections[r].length
    ensures forall j :: 0 <= j < r ==> sections[j].length < sections[r].length
  {
    if |sections| == 1 then 0
    else
      var r := LongestSection(sections[..|sections| - 1]);
      assert forall j :: 0 <= j < |sections| - 1 ==> sections[..|sections| - 1][j] == sections[j];
      if sections[|sections| - 1].length > sections[r].length then |sections| - 1 else r
  }

  /** Cell `p` is just before or just after a chain of length `m`. */
  predicate IsChainCap(chains: seq<Chain>, m: nat, p: int)
  {
    exists j :: 0 <= j < |chains| && chains[j].length == m &&
      (p + 1 == chains[j].start || p == chains[j].start + m)
  }

  /** Some chain has length `m`. */
  predicate HasChainOfLength(chains: seq<Chain>, m: nat)
  {
    exists j :: 0 <= j < |chains| && chains[j].length == m
  }

  /** The line after `findSectionDefiningChains` with longest clue `m`. */
  function CapChains(a: seq<Tri>, m: nat): (r: seq<Tri>)
    ensures Extends(a, r)
  {
    var chains := ChainsOf(a);
    seq(|a|, p requires 0 <= p < |a| => if a[p] == Unknown && IsChainCap(chains, m, p) then Empty else a[p])
  }

  /** The rule in words: it only ever writes "empty", and only next to a
      maximal filled run whose length is `m`. */
  lemma CapChainsMeaning(a: seq<Tri>, m: nat, p: nat)
    requires p < |a| && CapChains(a, m)[p] != a[p]
    ensures a[p] == Unknown && CapChains(a, m)[p] == Empty
    ensures (IsRun(a, p + 1, m) || (p >= m && IsRun(a, p - m, m)))
  {
    var chains := ChainsOf(a);
    var j :| 0 <= j < |chains| && chains[j].length == m &&
      (p + 1 == chains[j].start || p == chains[j].start + m);
    ChainIsRun(a, j);
    NextToRun(a, chains[j], p);
  }

  /** Each chain of a line is a maximal filled run of it. */
  lemma ChainIsRun(a: seq<Tri>, j: nat)
    requires j < |ChainsOf(a)|
    ensures IsRun(a, ChainsOf(a)[j].start, ChainsOf(a)[j].length)
  {
    ChainsAreRuns(a);
  }

  /** A cell just before or just after a run of length `m` borders a run of
      length `m` on that side. */
  lemma NextToRun(a: seq<Tri>, c: Chain, p: int)
    requires IsRun(a, c.start, c.length) && (p + 1 == c.start || p == c.start + c.length)
    ensures p >= 0 ==> IsRun(a, p + 1, c.length) || (p >= c.length && IsRun(a, p - c.length, c.length))
  {
    if p + 1 != c.start {
      assert p - c.length == c.start;
    }
  }

  /** Length of the first longest section; 0 for a line without clues. */
  function LongestLength(sections: seq<Section>): (m: nat)
    ensures forall j :: 0 <= j < |sections| ==> sections[j].length <= m
  {
    if |sections| > 0 then sections[LongestSection(sections)].length else 0
  }

  /** The sections with the first longest one marked solved when `found`. */
  function MarkLongestIf(sections: seq<Section>, found: bool): (r: seq<Section>)
    ensures |r| == |sections|
  {
    if |sections| > 0 && found then
      var l := LongestSection(sections);
      sections[l := sections[l].(solved := true)]
    else sections
  }

  /** The sections after `findSectionDefiningChains` on view `a`: the
      longest section is marked solved when some chain has its length. */
  function ChainSections(a: seq<Tri>, sections: seq<Section>): (r: seq<Section>)
    ensures |r| == |sections|
  {
    MarkLongestIf(sections, HasChainOfLength(ChainsOf(a), LongestLength(sections)))
  }

  /** The line after `findSectionDefiningChains`: the cells next to every
      chain as long as the longest section are decided empty. */
  function DefiningChains(a: seq<Tri>, sections: seq<Section>): (r: seq<Tri>)
    ensures Extends(a, r)
  {
    if |sections| > 0 then CapChains(a, LongestLength(sections)) else a
  }

  /** The positions next to a chain of length `m` among the first `j` chains. */
  function ChainCapMask(chains: seq<Chain>, m: nat, j: nat, n: nat): (mask: seq<bool>)
    requires j <= |chains|
    ensures |mask| == n
  {
    seq(n, p => IsChainCap(chains[..j], m, p))
  }

  /** One more chain adds its two neighbours when it has length `m`. */
  lemma ChainCapMaskStep(chains: seq<Chain>, m: nat, j: nat, n: nat)
    requires j < |chains|
    ensures chains[j].length == m ==>
              forall p: int :: 0 <= p < n ==>
                (ChainCapMask(chains, m, j + 1, n)[p] <==>
                 ChainCapMask(chains, m, j, n)[p] || p + 1 == chains[j].start || p == chains[j].start + m)
    ensures chains[j].length != m ==> ChainCapMask(chains, m, j + 1, n) == ChainCapMask(chains, m, j, n)
    ensures HasChainOfLength(chains[..j + 1], m) <==> HasChainOfLength(chains[..j], m) || chains[j].length == m
  {
    var c := chains[..j + 1];
    assert forall i :: 0 <= i < j ==> c[i] == chains[..j][i];
    assert c[j] == chains[j];
    var before, after := ChainCapMask(chains, m, j, n), ChainCapMask(chains, m, j + 1, n);
    forall p: int | 0 <= p < n
      ensures after[p] <==> before[p] || (chains[j].length == m && (p + 1 == chains[j].start || p == chains[j].start + m))
    {
      assert after[p] == IsChainCap(c, m, p);
      assert before[p] == IsChainCap(chains[..j], m, p);
      if IsChainCap(c, m, p) {
        var i :| 0 <= i < |c| && c[i].length == m && (p + 1 == c[i].start || p == c[i].start + m);
        if i < j {
          assert chains[..j][i] == c[i];
        }
      }
      if IsChainCap(chains[..j], m, p) {
        var i :| 0 <= i < j && chains[..j][i].length == m &&
                 (p + 1 == chains[..j][i].start || p == chains[..j][i].start + m);
        assert c[i] == chains[..j][i];
      }
    }
    if HasChainOfLength(c, m) && chains[j].length != m {
      var i :| 0 <= i < |c| && c[i].length == m;
      assert chains[..j][i] == c[i];
    }
    if HasChainOfLength(chains[..j], m) {
      var i :| 0 <= i < j && chains[..j][i].length == m;
      assert c[i] == chains[..j][i];
    }
  }

  /** One turn of the chain loop on the view: a chain of length `m` has its
      two neighbours decided empty, any other chain changes nothing. */
  lemma ChainCapViewStep(a: seq<Tri>, chains: seq<Chain>, m: nat, j: nat)
    requires j < |chains|
    ensures chains[j].length == m ==>
              Masked(a, ChainCapMask(chains, m, j + 1, |a|), Empty) ==
              DecideIfOn(DecideIfOn(Masked(a, ChainCapMask(chains, m, j, |a|), Empty), chains[j].start as int - 1, Empty),
                         chains[j].start + m, Empty)
    ensures chains[j].length != m ==>
              Masked(a, ChainCapMask(chains, m, j + 1, |a|), Empty) == Masked(a, ChainCapMask(chains, m, j, |a|), Empty)
    ensures HasChainOfLength(chains[..j + 1], m) <==> HasChainOfLength(chains[..j], m) || chains[j].length == m
  {
    ChainCapMaskStep(chains, m, j, |a|);
    if chains[j].length == m {
      CapStep(a, ChainCapMask(chains, m, j, |a|), ChainCapMask(chains, m, j + 1, |a|), chains[j].start as int - 1, chains[j].start + m);
    }
  }

  /** The view after the first `j` turns of the chain loop: every chain of
      length `m` among them has its two neighbours decided empty, in order. */
  function CappedChainsUpTo(a: seq<Tri>, chains: seq<Chain>, m: nat, j: nat): (r: seq<Tri>)
    requires j <= |chains|
    ensures Extends(a, r)
  {
    if j == 0 then a
    else
      var prev := CappedChainsUpTo(a, chains, m, j - 1);
      if chains[j - 1].length == m then
        DecideIfOn(DecideIfOn(prev, chains[j - 1].start as int - 1, Empty), chains[j - 1].start + m, Empty)
      else prev
  }

  /** One more turn of the chain loop. */
  lemma CappedChainsNext(a: seq<Tri>, chains: seq<Chain>, m: nat, j: nat)
    requires j < |chains|
    ensures CappedChainsUpTo(a, chains, m, j + 1) ==
            if chains[j].length == m then
              DecideIfOn(DecideIfOn(CappedChainsUpTo(a, chains, m, j), chains[j].start as int - 1, Empty), chains[j].start + m, Empty)
            else CappedChainsUpTo(a, chains, m, j)
  {
  }

  /** Some chain among the first `j` has length `m`. */
  function FoundUpTo(chains: seq<Chain>, m: nat, j: nat): bool
    requires j <= |chains|
  {
    j > 0 && (FoundUpTo(chains, m, j - 1) || chains[j - 1].length == m)
  }

  /** The turn-by-turn view is the masked view of the chain rule, and the
      turn-by-turn search is `HasChainOfLength`. */
  lemma {:induction false} CappedChainsUpToMasked(a: seq<Tri>, chains: seq<Chain>, m: nat, j: nat)
    requires j <= |chains|
    ensures CappedChainsUpTo(a, chains, m, j) == Masked(a, ChainCapMask(chains, m, j, |a|), Empty)
    ensures FoundUpTo(chains, m, j) == HasChainOfLength(chains[..j], m)
  {
    if j == 0 {
      assert Masked(a, ChainCapMask(chains, m, 0, |a|), Empty) == a;
    } else {
      CappedChainsUpToMasked(a, chains, m, j - 1);
      ChainCapViewStep(a, chains, m, j - 1);
    }
  }

  /** After every chain of `a`, the loop has computed `CapChains` and the
      search has found whether a chain of length `m` exists. */
  lemma ChainLoopDone(a: seq<Tri>, m: nat)
    ensures CappedChainsUpTo(a, ChainsOf(a), m, |ChainsOf(a)|) == CapChains(a, m)
    ensures FoundUpTo(ChainsOf(a), m, |ChainsOf(a)|) == HasChainOfLength(ChainsOf(a), m)
  {
    CappedChainsUpToMasked(a, ChainsOf(a), m, |ChainsOf(a)|);
    assert ChainsOf(a)[..|ChainsOf(a)|] == ChainsOf(a);
  }

  /** Marking the longest section once more changes nothing. */
  lemma MarkLongestAgain(sections: seq<Section>, found: bool)
    requires |sections| > 0
    ensures var l := LongestSection(sections);
            var marked := MarkLongestIf(sections, found);
            marked[l := marked[l].(solved := true)] == MarkLongestIf(sections, true)
  {
  }

  // ---- findAnchoredSections ----

  /** Undecided cells in `lo..hi` become filled and an undecided cell at
      `cap` becomes empty. */
  function FillAnchor(a: seq<Tri>, lo: int, hi: int, cap: int): (r: seq<Tri>)
    ensures Extends(a, r)
  {
    seq(|a|, p requires 0 <= p < |a| =>
      if a[p] == Unknown && lo <= p <= hi then Filled
      else if a[p] == Unknown && p == cap then Empty
      else a[p])
  }

  /** The fill range the scan from the start finds for a first section of
      length `len`: from the first cell that is not known empty, when that
      cell is filled. */
  function StartAnchorRange(a: seq<Tri>, len: nat): (r: Option<(int, int)>)
    ensures r.Some? <==> LeadingEmpty(a) < |a| && a[LeadingEmpty(a)] == Filled
    ensures r.Some? ==> r.value == (LeadingEmpty(a), LeadingEmpty(a) + len - 1)
  {
    var f := LeadingEmpty(a);
    if f < |a| && a[f] == Filled then Some((f, f + len - 1)) else None
  }

  /** The fill range the scan from the end finds for a last section of
      length `len`: up to the last cell that is not known empty, when that
      cell is filled. */
  function EndAnchorRange(a: seq<Tri>, len: nat): (r: Option<(int, int)>)
    ensures var g := |a| - 1 - TrailingEmpty(a);
            (r.Some? <==> 0 <= g && a[g] == Filled) &&
            (r.Some? ==> r.value == (g - len + 1, g))
  {
    var g := |a| - 1 - TrailingEmpty(a);
    if 0 <= g && a[g] == Filled then Some((g - len + 1, g)) else None
  }

  /** The line after anchoring the first section (length `len`): when the
      first cell that is not known empty is filled, the `len` cells from there
      become filled and the cell after them empty. */
  function AnchorStart(a: seq<Tri>, len: nat): (r: seq<Tri>)
    ensures Extends(a, r)
  {
    var range := StartAnchorRange(a, len);
    if range.Some? then FillAnchor(a, range.value.0, range.value.1, range.value.1 + 1) else a
  }

  /** The mirror rule for the last section, from the end of the line: the
      `len` cells up to the last filled one become filled and the cell before
      them empty. */
  function AnchorEnd(a: seq<Tri>, len: nat): (r: seq<Tri>)
    ensures Extends(a, r)
  {
    var range := EndAnchorRange(a, len);
    if range.Some? then FillAnchor(a, range.value.0, range.value.1, range.value.0 - 1) else a
  }

  /** The line after `findAnchoredSections`. */
  function Anchored(a: seq<Tri>, sections: seq<Section>): (r: seq<Tri>)
    ensures Extends(a, r)
  {
    if |sections| > 0 then
      AnchorEnd(AnchorStart(a, sections[0].length), sections[|sections| - 1].length)
    else a
  }

  /** When every cell before the first filled one is known empty, the first
      section's cells from there are filled and the next cell is empty (when it
      was undecided and exists); a line whose first undecided cell comes before
      any filled one is left as it is. */
  lemma AnchorStartMeaning(a: seq<Tri>, len: nat, f: nat)
    requires f < |a| && a[f] == Filled
    requires forall i :: 0 <= i < f ==> a[i] == Empty
    ensures forall p :: f <= p < f + len && p < |a| ==> AnchorStart(a, len)[p] == Filled || a[p] == Empty
    ensures f + len < |a| && a[f + len] == Unknown ==> AnchorStart(a, len)[f + len] == Empty
  {
    assert LeadingEmpty(a) == f;
  }

  /** The positions `lo..hi` (inclusive) of a line of `n` cells. */
  function RangeMask(n: nat, lo: int, hi: int): (m: seq<bool>)
    ensures |m| == n && forall p :: 0 <= p < n ==> (m[p] <==> lo <= p <= hi)
  {
    seq(n, p => lo <= p <= hi)
  }

  /** Nothing is decided before the first set mask bit. */
  lemma MaskedUpToLow(a: seq<Tri>, mask: seq<bool>, value: Tri, n: nat)
    requires |mask| == |a| && n <= |a| && forall p :: 0 <= p < n ==> !mask[p]
    ensures MaskedUpTo(a, mask, value, n) == a
  {
  }

  /** Nothing is left to decide after the last set mask bit. */
  lemma MaskedUpToHigh(a: seq<Tri>, mask: seq<bool>, value: Tri, n: nat)
    requires |mask| == |a| && n <= |a| && forall p :: n <= p < |a| ==> !mask[p]
    ensures MaskedUpTo(a, mask, value, n) == Masked(a, mask, value)
  {
  }

  /** An anchor as the source performs it: fill the range, then decide the
      cap just outside it as empty when the cap lies on the line. */
  lemma FillAnchorSteps(a: seq<Tri>, lo: int, hi: int, cap: int)
    requires cap < lo || hi < cap
    ensures FillAnchor(a, lo, hi, cap) ==
            var m := Masked(a, RangeMask(|a|, lo, hi), Filled);
            if 0 <= cap < |a| then Decide(m, cap, Empty) else m
  {
  }

  lemma AnchorStartBlocked(a: seq<Tri>, len: nat, u: nat)
    requires u < |a| && a[u] == Unknown
    requires forall i :: 0 <= i < u ==> a[i] == Empty
    ensures AnchorStart(a, len) == a
  {
    assert LeadingEmpty(a) == u;
  }

  // ---- findCompletedSections ----

  /** A section not yet solved with exactly one start left. */
  predicate Pinned(sec: Section)
  {
    !sec.solved && |sec.possibleStartIndexes| == 1
  }

  /** Cell `p` is just before or just after the single placement of a pinned section. */
  predicate IsPinnedCap(sections: seq<Section>, p: int)
  {
    exists j :: 0 <= j < |sections| && Pinned(sections[j]) &&
      (p + 1 == sections[j].possibleStartIndexes[0] ||
       p == sections[j].possibleStartIndexes[0] + sections[j].length)
  }

  /** The line after `findCompletedSections`. */
  function CapPinned(a: seq<Tri>, sections: seq<Section>): (r: seq<Tri>)
    ensures Extends(a, r)
    ensures forall p :: 0 <= p < |a| && r[p] != a[p] ==> a[p] == Unknown && r[p] == Empty && IsPinnedCap(sections, p)
  {
    seq(|a|, p requires 0 <= p < |a| => if a[p] == Unknown && IsPinnedCap(sections, p) then Empty else a[p])
  }

  /** The sections after `findCompletedSections`: every section with one
      start left is marked solved. */
  function MarkPinned(sections: seq<Section>): (r: seq<Section>)
    ensures |r| == |sections|
    ensures forall j :: 0 <= j < |r| ==>
              r[j] == sections[j].(solved := sections[j].solved || |sections[j].possibleStartIndexes| == 1)
  {
    seq(|sections|, j requires 0 <= j < |sections| =>
      if Pinned(sections[j]) then sections[j].(solved := true) else sections[j])
  }

  /** `MarkPinned` applied to the sections before `j` only. */
  function MarkPinnedBefore(sections: seq<Section>, j: nat): (r: seq<Section>)
    ensures |r| == |sections|
  {
    seq(|sections|, i requires 0 <= i < |sections| =>
      if i < j && Pinned(sections[i]) then sections[i].(solved := true) else sections[i])
  }

  /** The positions next to a pinned section among the first `j`. */
  function PinnedCapMask(sections: seq<Section>, j: nat, n: nat): (mask: seq<bool>)
    requires j <= |sections|
    ensures |mask| == n
  {
    seq(n, p => IsPinnedCap(sections[..j], p))
  }

  /** One more section adds its two neighbours when it is pinned. */
  lemma PinnedStep(sections: seq<Section>, j: nat, n: nat)
    requires j < |sections|
    ensures Pinned(sections[j]) ==>
              forall p: int :: 0 <= p < n ==>
                (PinnedCapMask(sections, j + 1, n)[p] <==>
                 PinnedCapMask(sections, j, n)[p] ||
                 p + 1 == sections[j].possibleStartIndexes[0] ||
                 p == sections[j].possibleStartIndexes[0] + sections[j].length)
    ensures !Pinned(sections[j]) ==> PinnedCapMask(sections, j + 1, n) == PinnedCapMask(sections, j, n)
  {
    var c := sections[..j + 1];
    assert forall i :: 0 <= i < j ==> c[i] == sections[..j][i];
    assert c[j] == sections[j];
    forall p: int | 0 <= p < n
      ensures IsPinnedCap(c, p) <==>
                IsPinnedCap(sections[..j], p) ||
                (Pinned(sections[j]) &&
                 (p + 1 == sections[j].possibleStartIndexes[0] ||
                  p == sections[j].possibleStartIndexes[0] + sections[j].length))
    {
      if IsPinnedCap(c, p) {
        var i :| 0 <= i < |c| && Pinned(c[i]) &&
                 (p + 1 == c[i].possibleStartIndexes[0] || p == c[i].possibleStartIndexes[0] + c[i].length);
        if i < j {
          assert sections[..j][i] == c[i];
        }
      }
      if IsPinnedCap(sections[..j], p) {
        var i :| 0 <= i < j && Pinned(sections[..j][i]) &&
                 (p + 1 == sections[..j][i].possibleStartIndexes[0] ||
                  p == sections[..j][i].possibleStartIndexes[0] + sections[..j][i].length);
        assert c[i] == sections[..j][i];
      }
    }
  }

  /** One more section is marked when it is pinned. */
  lemma PinnedMarkStep(sections: seq<Section>, j: nat)
    requires j < |sections|
    ensures MarkPinnedBefore(sections, j)[j] == sections[j]
    ensures MarkPinnedBefore(sections, j + 1) ==
              if Pinned(sections[j]) then MarkPinnedBefore(sections, j)[j := sections[j].(solved := true)]
              else MarkPinnedBefore(sections, j)
  {
  }

  /** One turn of the section loop on the view: a pinned section has its two
      neighbours decided empty, any other section changes nothing. */
  lemma PinnedViewStep(a: seq<Tri>, sections: seq<Section>, j: nat)
    requires j < |sections|
    ensures Pinned(sections[j]) ==>
              Masked(a, PinnedCapMask(sections, j + 1, |a|), Empty) ==
              DecideIfOn(DecideIfOn(Masked(a, PinnedCapMask(sections, j, |a|), Empty),
                                    sections[j].possibleStartIndexes[0] as int - 1, Empty),
                         sections[j].possibleStartIndexes[0] + sections[j].length, Empty)
    ensures !Pinned(sections[j]) ==>
              Masked(a, PinnedCapMask(sections, j + 1, |a|), Empty) == Masked(a, PinnedCapMask(sections, j, |a|), Empty)
  {
    PinnedStep(sections, j, |a|);
    if Pinned(sections[j]) {
      CapStep(a, PinnedCapMask(sections, j, |a|), PinnedCapMask(sections, j + 1, |a|),
              sections[j].possibleStartIndexes[0] as int - 1, sections[j].possibleStartIndexes[0] + sections[j].length);
    }
  }

  /** After every section, the mask and the marks are those of the whole rule. */
  lemma PinnedAll(a: seq<Tri>, sections: seq<Section>)
    ensures Masked(a, PinnedCapMask(sections, 0, |a|), Empty) == a
    ensures Masked(a, PinnedCapMask(sections, |sections|, |a|), Empty) == CapPinned(a, sections)
    ensures MarkPinnedBefore(sections, |sections|) == MarkPinned(sections)
    ensures MarkPinnedBefore(sections, 0) == sections
  {
    assert sections[..|sections|] == sections;
  }

  // ---- findCompletedLines ----

  /** The line after `findCompletedLines`: once the filled cells add up to the
      clue total, every undecided cell becomes empty. */
  function CompleteLine(a: seq<Tri>, sections: seq<Section>): (r: seq<Tri>)
    ensures Extends(a, r)
    ensures SumLengths(sections) == CountFilled(a) ==> AllDecided(r)
    ensures SumLengths(sections) != CountFilled(a) ==> r == a
  {
    if SumLengths(sections) == CountFilled(a) then
      seq(|a|, p requires 0 <= p < |a| => if a[p] == Unknown then Empty else a[p])
    else a
  }

  /** A line with every undecided cell set empty. */
  function AllUnknownEmpty(a: seq<Tri>): (r: seq<Tri>)
    ensures Extends(a, r) && AllDecided(r)
    ensures forall p :: 0 <= p < |a| && a[p] == Unknown ==> r[p] == Empty
  {
    seq(|a|, p requires 0 <= p < |a| => if a[p] == Unknown then Empty else a[p])
  }

  /** A mask with every bit set. */
  function Everywhere(n: nat): (m: seq<bool>)
    ensures |m| == n && forall p :: 0 <= p < n ==> m[p]
  {
    seq(n, _ => true)
  }

  lemma MaskedEverywhere(a: seq<Tri>)
    ensures Masked(a, Everywhere(|a|), Empty) == AllUnknownEmpty(a)
  {
  }
}
