/** The balanced line breaker: a dynamic programme over break points that
    minimises the sum of squared slack, falling back to first-fit breaking when
    no breaking fits. */
module BalancedBreaking {
  import opened KaraokeTypes
  import opened LineBreaking

  /** The width of the syllables `lo` (inclusive) to `hi` (exclusive). */
  function SpanWidth(ls: seq<SyllableLayout>, lo: nat, hi: nat): real
    requires lo <= hi <= |ls|
  {
    TotalWidth(ls[lo..hi])
  }

  /** The squared slack of a row of width `w`. */
  function Badness(availableWidth: real, w: real): (b: real)
    ensures b >= 0.0
  {
    (availableWidth - w) * (availableWidth - w)
  }

  /** The state of the inner loop for one end index: the best cost so far
      (`None` standing for positive infinity), the break that reaches it and
      whether the loop has stopped because the row got too wide. */
  datatype Scan = Scan(cost: Option<real>, brk: nat, stopped: bool)

  /** `costs[i]` once the programme has filled it: the least total badness of
      breaking the first `i` syllables into rows that fit, `None` when the
      scan found none. */
  function DpCost(ls: seq<SyllableLayout>, availableWidth: real, i: nat): Option<real>
    requires i <= |ls|
    decreases i, i + 1
  {
    if i == 0 then Some(0.0) else InnerScan(ls, availableWidth, i, 1).cost
  }

  /** The inner loop for end index `i` after it has visited the start
      candidates `i` down to `j` (with `j == i + 1` meaning none yet). */
  function InnerScan(ls: seq<SyllableLayout>, availableWidth: real, i: nat, j: nat): (s: Scan)
    requires 1 <= j <= i + 1 && i <= |ls|
    ensures i >= 1 ==> s.brk < i
    decreases i, i + 1 - j
  {
    if j == i + 1 then Scan(None, 0, false)
    else
      var prev := InnerScan(ls, availableWidth, i, j + 1);
      if prev.stopped then prev
      else
        var w := SpanWidth(ls, j - 1, i);
        if w > availableWidth then prev.(stopped := true)
        else
          var c := DpCost(ls, availableWidth, j - 1);
          var badness := Badness(availableWidth, w);
          if c.Some? && (prev.cost.None? || c.value + badness < prev.cost.value)
          then Scan(Some(c.value + badness), j - 1, false)
          else prev
  }

  /** `breaks[i]`: where the last row of the best breaking of the first `i`
      syllables starts. */
  function DpBreak(ls: seq<SyllableLayout>, availableWidth: real, i: nat): (b: nat)
    requires 1 <= i <= |ls|
    ensures b < i
  {
    InnerScan(ls, availableWidth, i, 1).brk
  }

  /** A sequence of break points: it starts at 0, strictly increases and stays
      within `n`. */
  ghost predicate Ascending(cuts: seq<nat>, n: nat) {
    && |cuts| >= 1
    && cuts[0] == 0
    && (forall k :: 0 <= k < |cuts| ==> cuts[k] <= n)
    && (forall k :: 0 <= k < |cuts| - 1 ==> cuts[k] < cuts[k + 1])
  }

  /** The break points the reconstruction loop follows back from `i`. */
  function DpCuts(ls: seq<SyllableLayout>, availableWidth: real, i: nat): (cuts: seq<nat>)
    requires i <= |ls|
    ensures Ascending(cuts, i) && cuts[|cuts| - 1] == i
    decreases i
  {
    if i == 0 then [0]
    else
      var b := DpBreak(ls, availableWidth, i);
      var prev := DpCuts(ls, availableWidth, b);
      assert forall k :: 0 <= k < |prev| ==> (prev + [i])[k] == prev[k];
      prev + [i]
  }

  /** Every row of the breaking `cuts` fits. */
  ghost predicate Feasible(ls: seq<SyllableLayout>, availableWidth: real, cuts: seq<nat>)
    requires Ascending(cuts, |ls|)
  {
    forall k :: 0 <= k < |cuts| - 1 ==> SpanWidth(ls, cuts[k], cuts[k + 1]) <= availableWidth
  }

  /** The total badness of the breaking `cuts`. */
  function CutsCost(ls: seq<SyllableLayout>, availableWidth: real, cuts: seq<nat>): real
    requires Ascending(cuts, |ls|)
    decreases |cuts|
  {
    if |cuts| == 1 then 0.0
    else
      var n := |cuts|;
      CutsCost(ls, availableWidth, cuts[..n - 1]) + Badness(availableWidth, SpanWidth(ls, cuts[n - 2], cuts[n - 1]))
  }

  /** The rows of a breaking, each trimmed (none is dropped). */
  function LinesOfCuts(ls: seq<SyllableLayout>, cuts: seq<nat>, measure: Measurer): (lines: seq<WrappedLine>)
    requires |cuts| >= 1
    requires forall k :: 0 <= k < |cuts| ==> cuts[k] <= |ls|
    requires forall k :: 0 <= k < |cuts| - 1 ==> cuts[k] < cuts[k + 1]
    ensures |lines| == |cuts| - 1
  {
    seq(|cuts| - 1, k requires 0 <= k < |cuts| - 1 => TrimmedLine(ls[cuts[k]..cuts[k + 1]], measure))
  }

  /** The rows of the least-badness breaking, or the greedy rows when no breaking fits. */
  function BalancedLines(ls: seq<SyllableLayout>, availableWidth: real, measure: Measurer): seq<WrappedLine> {
    if ls == [] then []
    else if DpCost(ls, availableWidth, |ls|).None? then GreedyLines(ls, availableWidth, measure)
    else LinesOfCuts(ls, DpCuts(ls, availableWidth, |ls|), measure)
  }

  // ---------------------------------------------------------------------
  // Properties of the programme

  lemma SpanWidthCons(ls: seq<SyllableLayout>, lo: nat, hi: nat)
    requires lo < hi <= |ls|
    ensures SpanWidth(ls, lo, hi) == ls[lo].width + SpanWidth(ls, lo + 1, hi)
  {
    assert ls[lo..hi] == [ls[lo]] + ls[lo + 1..hi];
    TotalWidthAppend([ls[lo]], ls[lo + 1..hi]);
    assert TotalWidth([ls[lo]]) == TotalWidth([]) + ls[lo].width;
  }

  /** Once the inner loop has stopped it changes nothing more. */
  lemma {:induction false} StoppedScanIsFinal(ls: seq<SyllableLayout>, availableWidth: real, i: nat, j: nat, j': nat)
    requires 1 <= j' <= j <= i + 1 && i <= |ls|
    requires InnerScan(ls, availableWidth, i, j).stopped
    ensures InnerScan(ls, availableWidth, i, j') == InnerScan(ls, availableWidth, i, j)
    decreases j - j'
  {
    if j' < j {
      StoppedScanIsFinal(ls, availableWidth, i, j, j' + 1);
    }
  }

  /** A cost the inner loop records is reached by its break: the row from the
      break to `i` fits, and the cost is the break's cost plus that row's
      badness. */
  lemma {:induction false} InnerScanSound(ls: seq<SyllableLayout>, availableWidth: real, i: nat, j: nat)
    requires 1 <= j <= i + 1 && i <= |ls|
    ensures var s := InnerScan(ls, availableWidth, i, j);
            s.cost.Some? ==>
              && j - 1 <= s.brk < i
              && SpanWidth(ls, s.brk, i) <= availableWidth
              && DpCost(ls, availableWidth, s.brk).Some?
              && s.cost.value == DpCost(ls, availableWidth, s.brk).value + Badness(availableWidth, SpanWidth(ls, s.brk, i))
    decreases i + 1 - j
  {
    if j <= i {
      InnerScanSound(ls, availableWidth, i, j + 1);
    }
  }

  /** With non-negative widths the inner loop misses no candidate: it stops
      only once the row is too wide (and every longer row is too), and its cost
      is at most that of any fitting row starting at a visited candidate with
      a finite cost. */
  lemma {:induction false} InnerScanComplete(ls: seq<SyllableLayout>, availableWidth: real, i: nat, j: nat)
    requires NonNegativeWidths(ls)
    requires 1 <= j <= i + 1 && i <= |ls|
    ensures var s := InnerScan(ls, availableWidth, i, j);
            && (s.stopped ==> j <= i && SpanWidth(ls, j - 1, i) > availableWidth)
            && (forall k: nat :: j - 1 <= k < i && SpanWidth(ls, k, i) <= availableWidth && DpCost(ls, availableWidth, k).Some? ==>
                  s.cost.Some? && s.cost.value <= DpCost(ls, availableWidth, k).value + Badness(availableWidth, SpanWidth(ls, k, i)))
    decreases i + 1 - j
  {
    if j <= i {
      InnerScanComplete(ls, availableWidth, i, j + 1);
      var prev := InnerScan(ls, availableWidth, i, j + 1);
      SpanWidthCons(ls, j - 1, i);
      if prev.stopped {
        assert SpanWidth(ls, j - 1, i) > availableWidth;
      }
    }
  }

  /** The recorded cost of `i` is reached by `DpBreak(i)` (soundness). */
  lemma DpCostSound(ls: seq<SyllableLayout>, availableWidth: real, i: nat)
    requires 1 <= i <= |ls|
    ensures DpCost(ls, availableWidth, i).Some? ==>
              var b := DpBreak(ls, availableWidth, i);
              && SpanWidth(ls, b, i) <= availableWidth
              && DpCost(ls, availableWidth, b).Some?
              && DpCost(ls, availableWidth, i).value
                 == DpCost(ls, availableWidth, b).value + Badness(availableWidth, SpanWidth(ls, b, i))
  {
    InnerScanSound(ls, availableWidth, i, 1);
  }

  /** The recorded cost of `i` is at most that of ending any fitting row at
      `i` (local optimality). */
  lemma DpCostStep(ls: seq<SyllableLayout>, availableWidth: real, i: nat, k: nat)
    requires NonNegativeWidths(ls)
    requires k < i <= |ls|
    requires SpanWidth(ls, k, i) <= availableWidth && DpCost(ls, availableWidth, k).Some?
    ensures DpCost(ls, availableWidth, i).Some?
    ensures DpCost(ls, availableWidth, i).value
            <= DpCost(ls, availableWidth, k).value + Badness(availableWidth, SpanWidth(ls, k, i))
  {
    InnerScanComplete(ls, availableWidth, i, 1);
  }

  /** The reconstructed breaking fits and costs what the programme recorded. */
  lemma {:induction false} DpCutsSound(ls: seq<SyllableLayout>, availableWidth: real, i: nat)
    requires i <= |ls|
    requires DpCost(ls, availableWidth, i).Some?
    ensures Feasible(ls, availableWidth, DpCuts(ls, availableWidth, i))
    ensures CutsCost(ls, availableWidth, DpCuts(ls, availableWidth, i)) == DpCost(ls, availableWidth, i).value
    decreases i
  {
    if i > 0 {
      var b := DpBreak(ls, availableWidth, i);
      DpCostSound(ls, availableWidth, i);
      DpCutsSound(ls, availableWidth, b);
      var prev := DpCuts(ls, availableWidth, b);
      var cuts := DpCuts(ls, availableWidth, i);
      assert cuts == prev + [i];
      assert cuts[..|cuts| - 1] == prev;
      assert cuts[|cuts| - 2] == b;
      forall k | 0 <= k < |cuts| - 1
        ensures SpanWidth(ls, cuts[k], cuts[k + 1]) <= availableWidth
      {
        if k < |prev| - 1 {
          assert cuts[k] == prev[k] && cuts[k + 1] == prev[k + 1];
        }
      }
    }
  }

  /** No breaking of a prefix that fits costs less than what the programme
      records for that prefix (global optimality). */
  lemma {:induction false} DpCostOptimal(ls: seq<SyllableLayout>, availableWidth: real, cuts: seq<nat>)
    requires NonNegativeWidths(ls)
    requires Ascending(cuts, |ls|)
    requires Feasible(ls, availableWidth, cuts)
    ensures DpCost(ls, availableWidth, cuts[|cuts| - 1]).Some?
    ensures DpCost(ls, availableWidth, cuts[|cuts| - 1]).value <= CutsCost(ls, availableWidth, cuts)
    decreases |cuts|
  {
    var n := |cuts|;
    if n > 1 {
      var prev := cuts[..n - 1];
      var a, b := cuts[n - 2], cuts[n - 1];
      assert a < b <= |ls| && SpanWidth(ls, a, b) <= availableWidth;
      assert Ascending(prev, |ls|);
      assert DpCost(ls, availableWidth, a).Some? && DpCost(ls, availableWidth, a).value <= CutsCost(ls, availableWidth, prev) by {
        assert Feasible(ls, availableWidth, prev) by {
          forall k | 0 <= k < |prev| - 1
            ensures SpanWidth(ls, prev[k], prev[k + 1]) <= availableWidth
          {
            assert prev[k] == cuts[k] && prev[k + 1] == cuts[k + 1];
          }
        }
        DpCostOptimal(ls, availableWidth, prev);
        assert prev[|prev| - 1] == a;
      }
      DpCostStep(ls, availableWidth, b, a);
      assert CutsCost(ls, availableWidth, cuts) == CutsCost(ls, availableWidth, prev) + Badness(availableWidth, SpanWidth(ls, a, b));
    }
  }

  /** The breaking that puts every syllable on its own row. */
  function SingletonCuts(n: nat): (cuts: seq<nat>)
    ensures Ascending(cuts, n) && cuts[|cuts| - 1] == n
  {
    seq(n + 1, k requires 0 <= k <= n => k)
  }

  lemma SpanWidthCovers(ls: seq<SyllableLayout>, lo: nat, hi: nat, k: nat)
    requires NonNegativeWidths(ls)
    requires lo <= k < hi <= |ls|
    ensures ls[k].width <= SpanWidth(ls, lo, hi)
  {
    assert ls[lo..hi] == ls[lo..k] + [ls[k]] + ls[k + 1..hi];
    TotalWidthAppend(ls[lo..k] + [ls[k]], ls[k + 1..hi]);
    TotalWidthAppend(ls[lo..k], [ls[k]]);
    assert TotalWidth([ls[k]]) == TotalWidth([]) + ls[k].width;
    assert NonNegativeWidths(ls[lo..k]);
    assert NonNegativeWidths(ls[k + 1..hi]);
    TotalWidthNonNegative(ls[lo..k]);
    TotalWidthNonNegative(ls[k + 1..hi]);
  }

  lemma {:induction false} CutsCover(cuts: seq<nat>, n: nat, k: nat)
    requires Ascending(cuts, n) && cuts[|cuts| - 1] == n
    requires k < n
    ensures exists m :: 0 <= m < |cuts| - 1 && cuts[m] <= k < cuts[m + 1]
    decreases |cuts|
  {
    var last := |cuts| - 1;
    if cuts[last - 1] <= k {
      assert cuts[last - 1] <= k < cuts[last];
    } else {
      var prev := cuts[..last];
      assert Ascending(prev, cuts[last - 1]) by {
        forall m | 0 <= m < |prev| ensures prev[m] <= cuts[last - 1] {
          AscendingBelow(cuts, n, m, last - 1);
        }
      }
      CutsCover(prev, cuts[last - 1], k);
      var m :| 0 <= m < |prev| - 1 && prev[m] <= k < prev[m + 1];
      assert cuts[m] <= k < cuts[m + 1];
    }
  }

  lemma {:induction false} AscendingBelow(cuts: seq<nat>, n: nat, a: nat, b: nat)
    requires Ascending(cuts, n)
    requires a <= b < |cuts|
    ensures cuts[a] <= cuts[b]
    decreases b - a
  {
    if a < b {
      AscendingBelow(cuts, n, a + 1, b);
    }
  }

  /** The programme finds a breaking exactly when every syllable fits the
      available width on its own (widths being non-negative); otherwise the
      balanced breaker falls back to first-fit breaking. */
  lemma BalancedFeasibleIffEachFits(ls: seq<SyllableLayout>, availableWidth: real)
    requires NonNegativeWidths(ls)
    ensures DpCost(ls, availableWidth, |ls|).Some? <==> forall k :: 0 <= k < |ls| ==> ls[k].width <= availableWidth
  {
    var n := |ls|;
    if forall k :: 0 <= k < n ==> ls[k].width <= availableWidth {
      var cuts := SingletonCuts(n);
      assert Feasible(ls, availableWidth, cuts) by {
        forall k | 0 <= k < |cuts| - 1
          ensures SpanWidth(ls, cuts[k], cuts[k + 1]) <= availableWidth
        {
          SpanWidthCons(ls, k, k + 1);
          assert SpanWidth(ls, k + 1, k + 1) == 0.0 by { assert ls[k + 1..k + 1] == []; }
        }
      }
      DpCostOptimal(ls, availableWidth, cuts);
    }
    if DpCost(ls, availableWidth, n).Some? {
      var cuts := DpCuts(ls, availableWidth, n);
      DpCutsSound(ls, availableWidth, n);
      forall k | 0 <= k < n
        ensures ls[k].width <= availableWidth
      {
        CutsCover(cuts, n, k);
        var m :| 0 <= m < |cuts| - 1 && cuts[m] <= k < cuts[m + 1];
        SpanWidthCovers(ls, cuts[m], cuts[m + 1], k);
      }
    }
  }

  /** When the programme finds a breaking, the balanced rows are the trimmed
      rows of a breaking of the whole line that fits, whose total badness is
      at most that of every other breaking that fits. */
  lemma BalancedLinesOptimal(ls: seq<SyllableLayout>, availableWidth: real, measure: Measurer, other: seq<nat>)
    requires NonNegativeWidths(ls) && ls != []
    requires Ascending(other, |ls|) && other[|other| - 1] == |ls|
    requires Feasible(ls, availableWidth, other)
    ensures DpCost(ls, availableWidth, |ls|).Some?
    ensures var cuts := DpCuts(ls, availableWidth, |ls|);
            && BalancedLines(ls, availableWidth, measure) == LinesOfCuts(ls, cuts, measure)
            && Feasible(ls, availableWidth, cuts)
            && CutsCost(ls, availableWidth, cuts) <= CutsCost(ls, availableWidth, other)
  {
    var n := |ls|;
    assert DpCost(ls, availableWidth, n).Some? && DpCost(ls, availableWidth, n).value <= CutsCost(ls, availableWidth, other) by {
      DpCostOptimal(ls, availableWidth, other);
    }
    var cuts := DpCuts(ls, availableWidth, n);
    assert Feasible(ls, availableWidth, cuts) && CutsCost(ls, availableWidth, cuts) == DpCost(ls, availableWidth, n).value by {
      DpCutsSound(ls, availableWidth, n);
    }
    BalancedLinesFollowCuts(ls, availableWidth, measure);
  }

  /** When the programme finds a breaking, the balanced rows are its rows. */
  lemma BalancedLinesFollowCuts(ls: seq<SyllableLayout>, availableWidth: real, measure: Measurer)
    requires ls != [] && DpCost(ls, availableWidth, |ls|).Some?
    ensures BalancedLines(ls, availableWidth, measure) == LinesOfCuts(ls, DpCuts(ls, availableWidth, |ls|), measure)
  {
  }

  // ---------------------------------------------------------------------
  // The source's loops

  /** `calculateBalancedLines`: fill `costs` and `breaks` for every end index,
      fall back to first-fit breaking when the whole line has no cost, and
      otherwise follow the breaks back from the end, prepending each row. */
  method CalculateBalancedLines(syllableLayouts: seq<SyllableLayout>, availableWidth: real, measure: Measurer)
    returns (lines: seq<WrappedLine>)
    ensures lines == BalancedLines(syllableLayouts, availableWidth, measure)
  {
    if |syllableLayouts| == 0 {
      return [];
    }
    var n := |syllableLayouts|;
    var costs := new Option<real>[n + 1](_ => None);
    var breaks := new nat[n + 1](_ => 0);
    costs[0] := Some(0.0);
    for i := 1 to n + 1
      invariant forall k :: 0 <= k < i ==> costs[k] == DpCost(syllableLayouts, availableWidth, k)
      invariant forall k :: 1 <= k < i ==> breaks[k] == DpBreak(syllableLayouts, availableWidth, k)
      invariant forall k :: i <= k <= n ==> costs[k] == None && breaks[k] == 0
    {
      FillCost(syllableLayouts, availableWidth, costs, breaks, i);
    }
    if costs[n].None? {
      lines := CalculateGreedyWrappedLines(syllableLayouts, availableWidth, measure);
      return;
    }
    lines := FollowBreaks(syllableLayouts, availableWidth, measure, breaks);
  }

  lemma LinesOfCutsCons(ls: seq<SyllableLayout>, b: nat, cuts: seq<nat>, measure: Measurer)
    requires |cuts| >= 1 && b < cuts[0]
    requires forall k :: 0 <= k < |cuts| ==> cuts[k] <= |ls|
    requires forall k :: 0 <= k < |cuts| - 1 ==> cuts[k] < cuts[k + 1]
    ensures forall k :: 0 <= k < |[b] + cuts| ==> ([b] + cuts)[k] <= |ls|
    ensures forall k :: 0 <= k < |[b] + cuts| - 1 ==> ([b] + cuts)[k] < ([b] + cuts)[k + 1]
    ensures LinesOfCuts(ls, [b] + cuts, measure) == [TrimmedLine(ls[b..cuts[0]], measure)] + LinesOfCuts(ls, cuts, measure)
  {
    var c := [b] + cuts;
    assert forall k :: 1 <= k < |c| ==> c[k] == cuts[k - 1];
  }

  lemma DpCutsStep(ls: seq<SyllableLayout>, availableWidth: real, c: nat, rest: seq<nat>)
    requires 1 <= c <= |ls|
    ensures DpCuts(ls, availableWidth, c) + rest
            == DpCuts(ls, availableWidth, DpBreak(ls, availableWidth, c)) + ([c] + rest)
  {
  }

  /** The reconstruction loop: from the end, each row runs from its recorded
      break to the current index and is prepended. */
  method FollowBreaks(ls: seq<SyllableLayout>, availableWidth: real, measure: Measurer, breaks: array<nat>)
    returns (lines: seq<WrappedLine>)
    requires breaks.Length == |ls| + 1
    requires forall k :: 1 <= k <= |ls| ==> breaks[k] == DpBreak(ls, availableWidth, k)
    ensures lines == LinesOfCuts(ls, DpCuts(ls, availableWidth, |ls|), measure)
  {
    var n := |ls|;
    lines := [];
    var currentIndex := n;
    ghost var suffix: seq<nat> := [n];
    while currentIndex > 0
      invariant 0 <= currentIndex <= n
      invariant |suffix| >= 1 && suffix[0] == currentIndex
      invariant forall k :: 0 <= k < |suffix| ==> suffix[k] <= n
      invariant forall k :: 0 <= k < |suffix| - 1 ==> suffix[k] < suffix[k + 1]
      invariant DpCuts(ls, availableWidth, n) == DpCuts(ls, availableWidth, currentIndex) + suffix[1..]
      invariant lines == LinesOfCuts(ls, suffix, measure)
      decreases currentIndex
    {
      var startIndex := breaks[currentIndex];
      var lineSyllables := ls[startIndex..currentIndex];
      var trimmedLine := TrimDisplayLineTrailingSpaces(lineSyllables, measure);
      LinesOfCutsCons(ls, startIndex, suffix, measure);
      DpCutsStep(ls, availableWidth, currentIndex, suffix[1..]);
      assert suffix == [currentIndex] + suffix[1..];
      lines := [trimmedLine] + lines;
      suffix := [startIndex] + suffix;
      currentIndex := startIndex;
    }
    assert DpCuts(ls, availableWidth, n) == suffix;
  }

  /** One pass of the outer loop: the inner loop for end index `i`. */
  method FillCost(ls: seq<SyllableLayout>, availableWidth: real, costs: array<Option<real>>, breaks: array<nat>, i: nat)
    requires costs.Length == breaks.Length == |ls| + 1
    requires 1 <= i <= |ls|
    requires forall k :: 0 <= k < i ==> costs[k] == DpCost(ls, availableWidth, k)
    requires costs[i] == None && breaks[i] == 0
    modifies costs, breaks
    ensures costs[i] == DpCost(ls, availableWidth, i) && breaks[i] == DpBreak(ls, availableWidth, i)
    ensures forall k :: 0 <= k < costs.Length && k != i ==> costs[k] == old(costs[k]) && breaks[k] == old(breaks[k])
  {
    var currentLineWidth := 0.0;
    var j := i;
    while j >= 1
      invariant 0 <= j <= i
      invariant forall k :: 0 <= k < costs.Length && k != i ==> costs[k] == old(costs[k]) && breaks[k] == old(breaks[k])
      invariant InnerScan(ls, availableWidth, i, j + 1) == Scan(costs[i], breaks[i], false)
      invariant currentLineWidth == SpanWidth(ls, j, i)
    {
      currentLineWidth := currentLineWidth + ls[j - 1].width;
      SpanWidthCons(ls, j - 1, i);
      if currentLineWidth > availableWidth {
        StoppedScanIsFinal(ls, availableWidth, i, j, 1);
        break;
      }
      var badness := (availableWidth - currentLineWidth) * (availableWidth - currentLineWidth);
      assert badness == Badness(availableWidth, SpanWidth(ls, j - 1, i));
      assert costs[j - 1] == DpCost(ls, availableWidth, j - 1);
      if costs[j - 1].Some? && (costs[i].None? || costs[j - 1].value + badness < costs[i].value) {
        costs[i] := Some(costs[j - 1].value + badness);
        breaks[i] := j - 1;
      }
      assert InnerScan(ls, availableWidth, i, j) == Scan(costs[i], breaks[i], false);
      j := j - 1;
    }
  }
}
