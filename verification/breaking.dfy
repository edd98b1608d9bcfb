/** Trimming a visual row's trailing whitespace and the first-fit ("greedy")
    line breaker. */
module LineBreaking {
  import opened Text
  import opened KaraokeTypes

  /** A syllable whose content is blank (empty or only whitespace). */
  predicate BlankSyllable(l: SyllableLayout) {
    IsBlank(l.syllable.content)
  }

  /** What the removal loop of the trim leaves: the longest prefix whose last
      syllable is not blank, every removed syllable being blank. */
  function DropTrailingBlank(ls: seq<SyllableLayout>): (r: seq<SyllableLayout>)
    ensures |r| <= |ls| && r == ls[..|r|]
    ensures r == [] || !BlankSyllable(r[|r| - 1])
    ensures forall i :: |r| <= i < |ls| ==> BlankSyllable(ls[i])
    decreases |ls|
  {
    if ls != [] && BlankSyllable(ls[|ls| - 1]) then DropTrailingBlank(ls[..|ls| - 1]) else ls
  }

  /** The layout `l` with new content, re-measured: the `copy` the trim makes. */
  function Remeasure(l: SyllableLayout, content: string, measure: Measurer): SyllableLayout {
    var size := measure(content);
    l.(syllable := l.syllable.(content := content), width := size.width, height := size.height)
  }

  /** The syllables of `trimDisplayLineTrailingSpaces`: blank syllables removed
      from the end, then the trailing whitespace of the new last syllable cut
      and that syllable re-measured. */
  function TrimmedSyllables(ls: seq<SyllableLayout>, measure: Measurer): seq<SyllableLayout> {
    var kept := DropTrailingBlank(ls);
    if kept == [] then []
    else
      var last := kept[|kept| - 1];
      var trimmed := TrimEnd(last.syllable.content);
      if |trimmed| < |last.syllable.content| then
        if trimmed != [] then kept[..|kept| - 1] + [Remeasure(last, trimmed, measure)]
        else kept[..|kept| - 1]
      else kept
  }

  /** `trimDisplayLineTrailingSpaces`: the trimmed syllables and their width. */
  function TrimmedLine(ls: seq<SyllableLayout>, measure: Measurer): WrappedLine {
    var s := TrimmedSyllables(ls, measure);
    WrappedLine(s, TotalWidth(s))
  }

  /** What the trim promises: the row is empty exactly when every syllable is
      blank; otherwise it keeps a prefix of the input, all syllables but the
      last unchanged, the dropped ones blank, and the last one is the input's
      syllable with its trailing whitespace cut, non-empty and not ending in
      whitespace. When something was cut, only its text, width and height
      change, the sizes coming from measuring the new text. */
  lemma TrimmedLineSpec(ls: seq<SyllableLayout>, measure: Measurer)
    ensures var line := TrimmedLine(ls, measure);
            var r := line.syllables;
            && line.totalWidth == TotalWidth(r)
            && (r == [] <==> forall i :: 0 <= i < |ls| ==> BlankSyllable(ls[i]))
            && |r| <= |ls|
            && (forall i :: 0 <= i < |r| - 1 ==> r[i] == ls[i])
            && (forall i :: |r| <= i < |ls| ==> BlankSyllable(ls[i]))
            && (r != [] ==>
                  var orig := ls[|r| - 1];
                  var last := r[|r| - 1];
                  && !BlankSyllable(orig)
                  && last.syllable.content == TrimEnd(orig.syllable.content)
                  && last.syllable.content != []
                  && !IsWhitespace(last.syllable.content[|last.syllable.content| - 1])
                  && last.syllable.start == orig.syllable.start
                  && last.syllable.end == orig.syllable.end
                  && last.wordId == orig.wordId
                  && last.useAwesomeAnimation == orig.useAwesomeAnimation
                  && (if HasTrailingWhitespace(orig.syllable.content)
                      then last == orig.(syllable := orig.syllable.(content := last.syllable.content),
                                         width := measure(last.syllable.content).width,
                                         height := measure(last.syllable.content).height)
                      else last == orig))
  {
    var kept := DropTrailingBlank(ls);
    var r := TrimmedSyllables(ls, measure);
    if kept != [] {
      TrimmedKeptShape(ls, measure);
      TrimmedKeptLast(ls, measure);
      CutLastSpec(ls[|r| - 1], measure);
    } else {
      assert r == [];
      forall i | 0 <= i < |ls| ensures BlankSyllable(ls[i]) { }
    }
  }

  /** The trim when some syllable is not blank: the kept prefix, only its
      last syllable possibly changed. */
  lemma TrimmedKeptShape(ls: seq<SyllableLayout>, measure: Measurer)
    requires DropTrailingBlank(ls) != []
    ensures var r := TrimmedSyllables(ls, measure);
            && |r| == |DropTrailingBlank(ls)|
            && (forall i :: 0 <= i < |r| - 1 ==> r[i] == ls[i])
            && (forall i :: |r| <= i < |ls| ==> BlankSyllable(ls[i]))
  {
    var kept := DropTrailingBlank(ls);
    var n := |kept|;
    var c := kept[n - 1].syllable.content;
    var trimmed := TrimEnd(c);
    assert trimmed != [] by {
      BlankIffTrimEndEmpty(c);
    }
    var r := TrimmedSyllables(ls, measure);
    if |trimmed| < |c| {
      assert r == kept[..n - 1] + [Remeasure(kept[n - 1], trimmed, measure)];
      forall i | 0 <= i < n - 1 ensures r[i] == ls[i] {
        assert r[i] == kept[i];
      }
    } else {
      assert r == kept;
    }
  }

  /** The last syllable of that prefix is not blank and is cut as `CutLast`
      says. */
  lemma TrimmedKeptLast(ls: seq<SyllableLayout>, measure: Measurer)
    requires DropTrailingBlank(ls) != []
    ensures var r := TrimmedSyllables(ls, measure);
            && |r| == |DropTrailingBlank(ls)|
            && !BlankSyllable(ls[|r| - 1])
            && r[|r| - 1] == CutLast(ls[|r| - 1], measure)
  {
    var kept := DropTrailingBlank(ls);
    var n := |kept|;
    var orig := kept[n - 1];
    assert orig == ls[n - 1];
    var c := orig.syllable.content;
    var trimmed := TrimEnd(c);
    var r := TrimmedSyllables(ls, measure);
    assert r[n - 1] == CutLast(orig, measure) && |r| == n by {
      assert trimmed != [] by {
        BlankIffTrimEndEmpty(c);
      }
      if |trimmed| < |c| {
        assert r == kept[..n - 1] + [Remeasure(orig, trimmed, measure)];
      } else {
        assert r == kept;
      }
    }
  }

  /** What the trim makes of the last kept syllable. */
  function CutLast(orig: SyllableLayout, measure: Measurer): SyllableLayout {
    var trimmed := TrimEnd(orig.syllable.content);
    if |trimmed| < |orig.syllable.content| then Remeasure(orig, trimmed, measure) else orig
  }

  /** A syllable that is not blank keeps its timing and word, loses its
      trailing whitespace and is re-measured only when it had some: then only
      its text, width and height change. */
  lemma CutLastSpec(orig: SyllableLayout, measure: Measurer)
    requires !BlankSyllable(orig)
    ensures var last := CutLast(orig, measure);
            && last.syllable.content == TrimEnd(orig.syllable.content)
            && last.syllable.content != []
            && !IsWhitespace(last.syllable.content[|last.syllable.content| - 1])
            && last.syllable.start == orig.syllable.start
            && last.syllable.end == orig.syllable.end
            && last.wordId == orig.wordId
            && last.useAwesomeAnimation == orig.useAwesomeAnimation
            && (if HasTrailingWhitespace(orig.syllable.content)
                then last == orig.(syllable := orig.syllable.(content := last.syllable.content),
                                   width := measure(last.syllable.content).width,
                                   height := measure(last.syllable.content).height)
                else last == orig)
  {
    BlankIffTrimEndEmpty(orig.syllable.content);
  }

  /** Trimming a trimmed row changes nothing. */
  lemma TrimmedLineIdempotent(ls: seq<SyllableLayout>, measure: Measurer)
    ensures var once := TrimmedLine(ls, measure);
            TrimmedLine(once.syllables, measure) == once
  {
    TrimmedLineSpec(ls, measure);
    var r := TrimmedLine(ls, measure).syllables;
    if r != [] {
      var last := r[|r| - 1];
      var c := last.syllable.content;
      assert !IsBlank(c) by {
        assert !IsWhitespace(c[|c| - 1]);
      }
      assert DropTrailingBlank(r) == r;
      TrailingWhitespaceIsLastChar(c);
    }
  }

  /** The removal loop of the trim: blank syllables popped off the end. */
  method RemoveTrailingBlank(displayLine: seq<SyllableLayout>) returns (processed: seq<SyllableLayout>)
    ensures processed == DropTrailingBlank(displayLine)
  {
    processed := displayLine;
    var lastIndex := |processed| - 1;
    while lastIndex >= 0 && IsBlank(processed[lastIndex].syllable.content)
      invariant -1 <= lastIndex < |displayLine|
      invariant processed == displayLine[..lastIndex + 1]
      invariant DropTrailingBlank(processed) == DropTrailingBlank(displayLine)
    {
      assert DropTrailingBlank(processed[..lastIndex]) == DropTrailingBlank(processed);
      processed := processed[..lastIndex];
      lastIndex := lastIndex - 1;
    }
    assert DropTrailingBlank(processed) == processed;
  }

  /** The trim, step by step on a copy of the row as in the source. */
  method TrimDisplayLineTrailingSpaces(displayLine: seq<SyllableLayout>, measure: Measurer) returns (line: WrappedLine)
    ensures line == TrimmedLine(displayLine, measure)
  {
    if displayLine == [] {
      return WrappedLine([], 0.0);
    }
    var processed := RemoveTrailingBlank(displayLine);
    if processed == [] {
      assert TrimmedSyllables(displayLine, measure) == [];
      return WrappedLine([], 0.0);
    }
    var lastLayout := processed[|processed| - 1];
    var originalContent := lastLayout.syllable.content;
    var trimmedContent := TrimEnd(originalContent);
    assert trimmedContent != [] by {
      BlankIffTrimEndEmpty(originalContent);
    }
    if |trimmedContent| < |originalContent| {
      if trimmedContent != [] {
        var size := measure(trimmedContent);
        var trimmedLayout := lastLayout.(syllable := lastLayout.syllable.(content := trimmedContent),
                                         width := size.width, height := size.height);
        processed := processed[..|processed| - 1] + [trimmedLayout];
      } else {
        // The source drops the syllable here; the removal loop has already
        // left a last syllable that is not blank, so its trim is never empty.
        assert false;
      }
    }
    assert processed == TrimmedSyllables(displayLine, measure);
    line := WrappedLine(processed, TotalWidth(processed));
  }

  // ---------------------------------------------------------------------
  // First-fit breaking

  /** The greedy scan's state: the rows closed so far, the open row and its
      width. */
  datatype GreedyState = GreedyState(closed: seq<seq<SyllableLayout>>, current: seq<SyllableLayout>, width: real)

  /** One iteration of the scan: an open, non-empty row that `x` would push
      past the available width is closed first; then `x` joins the open row. */
  function GreedyStep(st: GreedyState, x: SyllableLayout, availableWidth: real): GreedyState {
    var st' := if st.width + x.width > availableWidth && st.current != []
               then GreedyState(st.closed + [st.current], [], 0.0)
               else st;
    GreedyState(st'.closed, st'.current + [x], st'.width + x.width)
  }

  /** The scan's state after the syllables `ls`. */
  function GreedyScan(ls: seq<SyllableLayout>, availableWidth: real): GreedyState
    decreases |ls|
  {
    if ls == [] then GreedyState([], [], 0.0)
    else GreedyStep(GreedyScan(ls[..|ls| - 1], availableWidth), ls[|ls| - 1], availableWidth)
  }

  /** The rows of the scan before trimming: the closed ones and the open one. */
  function GreedySegments(ls: seq<SyllableLayout>, availableWidth: real): seq<seq<SyllableLayout>> {
    var st := GreedyScan(ls, availableWidth);
    st.closed + (if st.current != [] then [st.current] else [])
  }

  /** Each row trimmed, and kept only when something is left. */
  function KeepTrimmed(segments: seq<seq<SyllableLayout>>, measure: Measurer): seq<WrappedLine>
    decreases |segments|
  {
    if segments == [] then []
    else
      var line := TrimmedLine(segments[|segments| - 1], measure);
      KeepTrimmed(segments[..|segments| - 1], measure) + (if line.syllables != [] then [line] else [])
  }

  /** The greedy rows: the scan's segments, trimmed, with empty rows dropped. */
  function GreedyLines(ls: seq<SyllableLayout>, availableWidth: real, measure: Measurer): seq<WrappedLine> {
    KeepTrimmed(GreedySegments(ls, availableWidth), measure)
  }

  predicate Fits(segment: seq<SyllableLayout>, availableWidth: real) {
    TotalWidth(segment) <= availableWidth
  }

  /** What the scan keeps true: the rows concatenate to the input, each closed
      row is non-empty and fits unless it is a single syllable, the open row
      likewise, the running width is the open row's width, and every closed
      row was closed because the next row's first syllable did not fit on it. */
  ghost predicate GreedyInvariant(ls: seq<SyllableLayout>, st: GreedyState, availableWidth: real) {
    var c := st.closed;
    && Flatten(c) + st.current == ls
    && st.width == TotalWidth(st.current)
    && (ls != [] ==> st.current != [])
    && (forall k :: 0 <= k < |c| ==> c[k] != [] && (Fits(c[k], availableWidth) || |c[k]| == 1))
    && (Fits(st.current, availableWidth) || |st.current| <= 1)
    && (forall k :: 0 <= k < |c| - 1 ==> TotalWidth(c[k]) + c[k + 1][0].width > availableWidth)
    && (c != [] ==> TotalWidth(c[|c| - 1]) + st.current[0].width > availableWidth)
  }

  lemma {:induction false} GreedyScanInvariant(ls: seq<SyllableLayout>, availableWidth: real)
    ensures GreedyInvariant(ls, GreedyScan(ls, availableWidth), availableWidth)
    decreases |ls|
  {
    if ls != [] {
      var init, x := ls[..|ls| - 1], ls[|ls| - 1];
      assert ls == init + [x];
      GreedyScanInvariant(init, availableWidth);
      var st := GreedyScan(init, availableWidth);
      if st.width + x.width > availableWidth && st.current != [] {
        CloseKeepsInvariant(init, st, x, availableWidth);
      } else {
        AppendKeepsInvariant(init, st, x, availableWidth);
      }
    }
  }

  lemma CloseKeepsInvariant(init: seq<SyllableLayout>, st: GreedyState, x: SyllableLayout, availableWidth: real)
    requires GreedyInvariant(init, st, availableWidth)
    requires st.width + x.width > availableWidth && st.current != []
    ensures GreedyInvariant(init + [x], GreedyStep(st, x, availableWidth), availableWidth)
  {
    var st' := GreedyStep(st, x, availableWidth);
    assert st'.closed == st.closed + [st.current] && st'.current == [x];
    FlattenAppend(st.closed, [st.current]);
    assert Flatten([st.current]) == st.current;
    assert TotalWidth([x]) == TotalWidth([]) + x.width;
    var c := st'.closed;
    assert forall k :: 0 <= k < |st.closed| ==> c[k] == st.closed[k];
  }

  lemma AppendKeepsInvariant(init: seq<SyllableLayout>, st: GreedyState, x: SyllableLayout, availableWidth: real)
    requires GreedyInvariant(init, st, availableWidth)
    requires !(st.width + x.width > availableWidth && st.current != [])
    ensures GreedyInvariant(init + [x], GreedyStep(st, x, availableWidth), availableWidth)
  {
    var st' := GreedyStep(st, x, availableWidth);
    assert st'.closed == st.closed && st'.current == st.current + [x];
    assert TotalWidth(st.current + [x]) == TotalWidth(st.current) + x.width by {
      assert (st.current + [x])[..|st.current|] == st.current;
    }
    if st.current != [] {
      assert (st.current + [x])[0] == st.current[0];
    }
  }

  /** The rows of the first-fit breaker: they partition the input into
      non-empty runs, each fits the available width unless it is a single
      syllable too wide on its own, and no row could have taken the next row's
      first syllable. */
  lemma GreedySegmentsSpec(ls: seq<SyllableLayout>, availableWidth: real)
    ensures var segs := GreedySegments(ls, availableWidth);
            && Flatten(segs) == ls
            && (forall k :: 0 <= k < |segs| ==> segs[k] != [])
            && (forall k :: 0 <= k < |segs| ==> Fits(segs[k], availableWidth) || |segs[k]| == 1)
            && (forall k :: 0 <= k < |segs| - 1 ==> TotalWidth(segs[k]) + segs[k + 1][0].width > availableWidth)
  {
    var st := GreedyScan(ls, availableWidth);
    assert GreedyInvariant(ls, st, availableWidth) by {
      GreedyScanInvariant(ls, availableWidth);
    }
    SegmentsOfInvariant(ls, st, availableWidth);
  }

  /** The rows read off any state of the scan that satisfies the invariant. */
  lemma SegmentsOfInvariant(ls: seq<SyllableLayout>, st: GreedyState, availableWidth: real)
    requires GreedyInvariant(ls, st, availableWidth)
    ensures var segs := st.closed + (if st.current != [] then [st.current] else []);
            && Flatten(segs) == ls
            && (forall k :: 0 <= k < |segs| ==> segs[k] != [])
            && (forall k :: 0 <= k < |segs| ==> Fits(segs[k], availableWidth) || |segs[k]| == 1)
            && (forall k :: 0 <= k < |segs| - 1 ==> TotalWidth(segs[k]) + segs[k + 1][0].width > availableWidth)
  {
    var c := st.closed;
    if st.current != [] {
      var segs: seq<seq<SyllableLayout>> := c + [st.current];
      assert Flatten(segs) == ls by {
        FlattenAppend(c, [st.current]);
        assert Flatten([st.current]) == st.current;
      }
      forall k | 0 <= k < |segs|
        ensures segs[k] != [] && (Fits(segs[k], availableWidth) || |segs[k]| == 1)
      {
        if k < |c| {
          assert segs[k] == c[k];
        } else {
          assert segs[k] == st.current;
        }
      }
      forall k | 0 <= k < |segs| - 1
        ensures TotalWidth(segs[k]) + segs[k + 1][0].width > availableWidth
      {
        assert segs[k] == c[k];
        if k + 1 < |c| {
          assert segs[k + 1] == c[k + 1];
        } else {
          assert segs[k + 1] == st.current;
        }
      }
    }
  }

  /** A row whose syllables fit together is not broken (widths being
      non-negative). */
  lemma {:induction false} GreedyKeepsFittingRow(ls: seq<SyllableLayout>, availableWidth: real)
    requires NonNegativeWidths(ls)
    requires TotalWidth(ls) <= availableWidth
    ensures GreedyScan(ls, availableWidth).closed == []
    ensures GreedyScan(ls, availableWidth).current == ls
    ensures GreedyScan(ls, availableWidth).width == TotalWidth(ls)
    decreases |ls|
  {
    if ls != [] {
      var init, x := ls[..|ls| - 1], ls[|ls| - 1];
      assert NonNegativeWidths(init);
      TotalWidthNonNegative(init);
      GreedyKeepsFittingRow(init, availableWidth);
      var st := GreedyScan(init, availableWidth);
      assert st.width + x.width == TotalWidth(ls);
      assert GreedyScan(ls, availableWidth) == GreedyState([], init + [x], TotalWidth(ls));
    }
  }

  /** The kept rows are non-empty trims of segments, no more rows than segments. */
  lemma {:induction false} KeepTrimmedSpec(segments: seq<seq<SyllableLayout>>, measure: Measurer)
    ensures var lines := KeepTrimmed(segments, measure);
            && |lines| <= |segments|
            && (forall k :: 0 <= k < |lines| ==> lines[k].syllables != [])
            && (forall k :: 0 <= k < |lines| ==> exists m :: 0 <= m < |segments| && lines[k] == TrimmedLine(segments[m], measure))
    decreases |segments|
  {
    if segments != [] {
      var init := segments[..|segments| - 1];
      KeepTrimmedSpec(init, measure);
      var lines := KeepTrimmed(segments, measure);
      var prev := KeepTrimmed(init, measure);
      var line := TrimmedLine(segments[|segments| - 1], measure);
      var tail := if line.syllables != [] then [line] else [];
      assert lines == prev + tail;
      forall k | 0 <= k < |lines|
        ensures exists m :: 0 <= m < |segments| && lines[k] == TrimmedLine(segments[m], measure)
      {
        if k < |prev| {
          var m :| 0 <= m < |init| && prev[k] == TrimmedLine(init[m], measure);
          assert segments[m] == init[m];
          assert lines[k] == prev[k];
        } else {
          assert tail == [line] && lines[k] == line;
        }
      }
    }
  }

  /** No segment with a non-empty trim is lost. */
  lemma {:induction false} KeepTrimmedComplete(segments: seq<seq<SyllableLayout>>, measure: Measurer, m: nat)
    requires m < |segments| && TrimmedLine(segments[m], measure).syllables != []
    ensures TrimmedLine(segments[m], measure) in KeepTrimmed(segments, measure)
    decreases |segments|
  {
    var init := segments[..|segments| - 1];
    var line := TrimmedLine(segments[|segments| - 1], measure);
    var prev := KeepTrimmed(init, measure);
    var tail := if line.syllables != [] then [line] else [];
    assert KeepTrimmed(segments, measure) == prev + tail;
    if m < |init| {
      assert segments[m] == init[m];
      KeepTrimmedComplete(init, measure, m);
      assert TrimmedLine(segments[m], measure) in prev;
    } else {
      assert m == |segments| - 1 && tail == [line];
    }
  }

  /** When no segment trims to nothing, the rows are exactly the trimmed
      segments, one for one and in order. */
  lemma {:induction false} KeepTrimmedAllKept(segments: seq<seq<SyllableLayout>>, measure: Measurer)
    requires forall m :: 0 <= m < |segments| ==> TrimmedLine(segments[m], measure).syllables != []
    ensures |KeepTrimmed(segments, measure)| == |segments|
    decreases |segments|
  {
    if segments != [] {
      var init := segments[..|segments| - 1];
      var prev := KeepTrimmed(init, measure);
      var lines := KeepTrimmed(segments, measure);
      assert lines == prev + [TrimmedLine(segments[|segments| - 1], measure)];
      assert forall m :: 0 <= m < |init| ==> init[m] == segments[m];
      KeepTrimmedAllKept(init, measure);
    }
  }

  lemma {:induction false} KeepTrimmedAllKeptAt(segments: seq<seq<SyllableLayout>>, measure: Measurer, k: nat)
    requires forall m :: 0 <= m < |segments| ==> TrimmedLine(segments[m], measure).syllables != []
    requires k < |segments|
    ensures |KeepTrimmed(segments, measure)| == |segments|
    ensures KeepTrimmed(segments, measure)[k] == TrimmedLine(segments[k], measure)
    decreases |segments|
  {
    KeepTrimmedAllKept(segments, measure);
    var init := segments[..|segments| - 1];
    var last := TrimmedLine(segments[|segments| - 1], measure);
    assert last.syllables != [];
    var prev := KeepTrimmed(init, measure);
    assert KeepTrimmed(segments, measure) == prev + [last];
    if k < |init| {
      assert prev[k] == TrimmedLine(init[k], measure) by {
        assert forall m :: 0 <= m < |init| ==> TrimmedLine(init[m], measure).syllables != [] by {
          forall m | 0 <= m < |init|
            ensures TrimmedLine(init[m], measure).syllables != []
          {
            assert init[m] == segments[m];
          }
        }
        KeepTrimmedAllKeptAt(init, measure, k);
      }
      assert init[k] == segments[k];
      assert (prev + [last])[k] == prev[k];
    } else {
      assert |prev| == |init| && k == |segments| - 1;
      assert (prev + [last])[k] == last;
    }
  }

  lemma GreedyScanNext(ls: seq<SyllableLayout>, i: nat, availableWidth: real)
    requires i < |ls|
    ensures GreedyScan(ls[..i + 1], availableWidth) == GreedyStep(GreedyScan(ls[..i], availableWidth), ls[i], availableWidth)
  {
    assert ls[..i + 1][..i] == ls[..i];
  }

  lemma KeepTrimmedNext(segments: seq<seq<SyllableLayout>>, segment: seq<SyllableLayout>, measure: Measurer)
    ensures var line := TrimmedLine(segment, measure);
            KeepTrimmed(segments + [segment], measure)
            == KeepTrimmed(segments, measure) + (if line.syllables != [] then [line] else [])
  {
    assert (segments + [segment])[..|segments|] == segments;
  }

  /** The close of a row in the scan: trim it and keep it when something is
      left. */
  method AddTrimmedLine(lines: seq<WrappedLine>, currentLine: seq<SyllableLayout>, measure: Measurer)
    returns (lines': seq<WrappedLine>)
    ensures var line := TrimmedLine(currentLine, measure);
            lines' == lines + (if line.syllables != [] then [line] else [])
  {
    var trimmedDisplayLine := TrimDisplayLineTrailingSpaces(currentLine, measure);
    lines' := lines;
    if trimmedDisplayLine.syllables != [] {
      lines' := lines' + [trimmedDisplayLine];
    }
  }

  /** `calculateGreedyWrappedLines`, the loop of the source. */
  method CalculateGreedyWrappedLines(syllableLayouts: seq<SyllableLayout>, availableWidth: real, measure: Measurer)
    returns (lines: seq<WrappedLine>)
    ensures lines == GreedyLines(syllableLayouts, availableWidth, measure)
  {
    lines := [];
    var currentLine: seq<SyllableLayout> := [];
    var currentLineWidth := 0.0;
    ghost var st := GreedyState([], [], 0.0);
    var i := 0;
    while i < |syllableLayouts|
      invariant 0 <= i <= |syllableLayouts|
      invariant st == GreedyScan(syllableLayouts[..i], availableWidth)
      invariant st.current == currentLine && st.width == currentLineWidth
      invariant lines == KeepTrimmed(st.closed, measure)
    {
      var syllableLayout := syllableLayouts[i];
      GreedyScanNext(syllableLayouts, i, availableWidth);
      if currentLineWidth + syllableLayout.width > availableWidth && currentLine != [] {
        KeepTrimmedNext(st.closed, st.current, measure);
        lines := AddTrimmedLine(lines, currentLine, measure);
        currentLine := [];
        currentLineWidth := 0.0;
      }
      currentLine := currentLine + [syllableLayout];
      currentLineWidth := currentLineWidth + syllableLayout.width;
      st := GreedyStep(st, syllableLayout, availableWidth);
      i := i + 1;
    }
    assert syllableLayouts[..i] == syllableLayouts;
    if currentLine != [] {
      KeepTrimmedNext(st.closed, st.current, measure);
      lines := AddTrimmedLine(lines, currentLine, measure);
    }
  }
}
