/** Static layout of the wrapped rows: each syllable's position, and the
    word-level data every syllable of a word shares (pivot, timing, content)
    together with its character offset inside the word. */
module StaticLayout {
  import opened KaraokeTypes

  /** The line alignments the layout distinguishes; every alignment other
      than top-start and top-end is laid out like `TopCenter`. */
  datatype Alignment = TopStart | TopEnd | TopCenter

  /** Where a row of width `totalWidth` starts on a canvas of `canvasWidth`. */
  function StartX(alignment: Alignment, canvasWidth: real, totalWidth: real): (x: real)
    ensures alignment == TopStart ==> x == 0.0
    ensures alignment == TopEnd ==> x + totalWidth == canvasWidth
    ensures alignment == TopCenter ==> x == canvasWidth - (x + totalWidth)
  {
    match alignment
    case TopStart => 0.0
    case TopEnd => canvasWidth - totalWidth
    case TopCenter => (canvasWidth - totalWidth) / 2.0
  }

  /** The x position of syllable `k` of a row starting at `startX`: left to
      right it follows the widths before it; right to left it ends where the
      widths after the row's start have been taken off its right edge. */
  function SyllableX(line: WrappedLine, k: nat, startX: real, isRtl: bool): real
    requires k < |line.syllables|
  {
    var s := line.syllables;
    if isRtl then startX + line.totalWidth - TotalWidth(s[..k + 1]) else startX + TotalWidth(s[..k])
  }

  /** Pass 1 for one row: every syllable moved to its x and the row's y. */
  function PositionLine(line: WrappedLine, lineIndex: nat, alignment: Alignment, canvasWidth: real,
                        lineHeight: real, isRtl: bool): (r: seq<SyllableLayout>)
    ensures |r| == |line.syllables|
  {
    var startX := StartX(alignment, canvasWidth, line.totalWidth);
    var s := line.syllables;
    seq(|s|, k requires 0 <= k < |s| =>
      s[k].(position := Point(SyllableX(line, k, startX, isRtl), lineIndex as real * lineHeight)))
  }

  function PositionedLines(lines: seq<WrappedLine>, alignment: Alignment, canvasWidth: real,
                           lineHeight: real, isRtl: bool): (r: seq<seq<SyllableLayout>>)
    ensures |r| == |lines|
  {
    seq(|lines|, i requires 0 <= i < |lines| => PositionLine(lines[i], i, alignment, canvasWidth, lineHeight, isRtl))
  }

  /** The layouts of word `w` in `all`, in order. */
  function WordLayouts(all: seq<SyllableLayout>, w: nat): (r: seq<SyllableLayout>)
    ensures forall p :: p in r ==> p in all && p.wordId == w
    decreases |all|
  {
    if all == [] then []
    else
      var p := all[|all| - 1];
      WordLayouts(all[..|all| - 1], w) + (if p.wordId == w then [p] else [])
  }

  function WordIds(all: seq<SyllableLayout>): set<nat> {
    set p | p in all :: p.wordId
  }

  /** `layoutsByWord` after pass 1 has visited `all`. */
  function ByWordMap(all: seq<SyllableLayout>): map<nat, seq<SyllableLayout>> {
    map w | w in WordIds(all) :: WordLayouts(all, w)
  }

  /** The running offsets of pass 2 for one word: each layout is mapped to the
      number of characters before it; a layout that occurs twice keeps the
      later offset, the map being keyed by the layout itself. */
  function OffsetsOf(wl: seq<SyllableLayout>): (r: map<SyllableLayout, int>)
    ensures forall p :: p in r <==> p in wl
    decreases |wl|
  {
    if wl == [] then map[]
    else OffsetsOf(wl[..|wl| - 1])[wl[|wl| - 1] := ContentLength(wl[..|wl| - 1])]
  }

  /** The word's pivot: horizontally the middle of its extent, vertically its
      lowest bottom edge. */
  function Pivot(wl: seq<SyllableLayout>): Point
    requires wl != []
  {
    Point((MinX(wl) + MaxRight(wl)) / 2.0, MaxBottom(wl))
  }

  /** The word's timing and content. */
  function AnimInfo(wl: seq<SyllableLayout>): WordAnimationInfo
    requires wl != []
  {
    WordAnimationInfo(MinStart(wl), MaxEnd(wl), JoinedContent(wl))
  }

  /** Pass 3 for one layout `p` of the word whose layouts are `wl`. */
  function FinalLayout(p: SyllableLayout, wl: seq<SyllableLayout>): SyllableLayout
    requires wl != []
  {
    var awesome := wl[0].useAwesomeAnimation;
    var offsets := OffsetsOf(wl);
    p.(wordPivot := Pivot(wl),
       wordAnimInfo := if awesome then Some(AnimInfo(wl)) else None,
       charOffsetInWord := if awesome && p in offsets then offsets[p] else 0)
  }

  lemma {:induction false} FlattenMember(ss: seq<seq<SyllableLayout>>, i: nat, k: nat)
    requires i < |ss| && k < |ss[i]|
    ensures ss[i][k] in Flatten(ss)
    decreases i
  {
    if i > 0 {
      FlattenMember(ss[1..], i - 1, k);
    }
  }

  lemma {:induction false} WordLayoutsPresent(all: seq<SyllableLayout>, p: SyllableLayout)
    requires p in all
    ensures p in WordLayouts(all, p.wordId)
    decreases |all|
  {
    if all[|all| - 1] != p {
      assert all == all[..|all| - 1] + [all[|all| - 1]];
      WordLayoutsPresent(all[..|all| - 1], p);
    }
  }

  /** Every row positioned, then each syllable given its word's pivot, timing and offset. */
  function StaticLineLayout(lines: seq<WrappedLine>, alignment: Alignment, canvasWidth: real,
                            lineHeight: real, isRtl: bool): (r: seq<seq<SyllableLayout>>)
    ensures |r| == |lines|
    ensures forall i :: 0 <= i < |r| ==> |r[i]| == |lines[i].syllables|
  {
    var positioned := PositionedLines(lines, alignment, canvasWidth, lineHeight, isRtl);
    var all := Flatten(positioned);
    seq(|positioned|, i requires 0 <= i < |positioned| =>
      seq(|positioned[i]|, k requires 0 <= k < |positioned[i]| =>
        var p := positioned[i][k];
        FlattenMember(positioned, i, k);
        WordLayoutsPresent(all, p);
        FinalLayout(p, WordLayouts(all, p.wordId))))
  }

  // ---------------------------------------------------------------------
  // The source's passes

  lemma {:induction false} WordLayoutsAbsent(all: seq<SyllableLayout>, w: nat)
    requires w !in WordIds(all)
    ensures WordLayouts(all, w) == []
    decreases |all|
  {
    if all != [] {
      var init := all[..|all| - 1];
      assert WordIds(init) <= WordIds(all);
      WordLayoutsAbsent(init, w);
    }
  }

  lemma WordLayoutsSnoc(all: seq<SyllableLayout>, p: SyllableLayout, w: nat)
    ensures WordLayouts(all + [p], w) == WordLayouts(all, w) + (if p.wordId == w then [p] else [])
  {
    assert (all + [p])[..|all|] == all;
  }

  lemma WordIdsSnoc(all: seq<SyllableLayout>, p: SyllableLayout)
    ensures WordIds(all + [p]) == WordIds(all) + {p.wordId}
  {
    var l := all + [p];
    forall w | w in WordIds(l) ensures w in WordIds(all) + {p.wordId} {
      var q :| q in l && q.wordId == w;
    }
    forall w | w in WordIds(all) ensures w in WordIds(l) {
      var q :| q in all && q.wordId == w;
      assert q in l;
    }
    assert p in l;
  }

  /** Appending one layout to `all` appends it to its word's bucket, creating
      the bucket when the word is new (`getOrPut` then `add`). */
  lemma ByWordMapSnoc(all: seq<SyllableLayout>, p: SyllableLayout)
    ensures var m := ByWordMap(all);
            ByWordMap(all + [p]) == m[p.wordId := (if p.wordId in m then m[p.wordId] else []) + [p]]
  {
    var m := ByWordMap(all);
    var m' := ByWordMap(all + [p]);
    var rhs := m[p.wordId := (if p.wordId in m then m[p.wordId] else []) + [p]];
    WordIdsSnoc(all, p);
    assert m'.Keys == rhs.Keys;
    forall w | w in m'
      ensures m'[w] == rhs[w]
    {
      WordLayoutsSnoc(all, p, w);
      if w == p.wordId && w !in m {
        WordLayoutsAbsent(all, w);
      }
    }
    assert m' == rhs;
  }

  lemma RowStep(line: WrappedLine, lineIndex: nat, alignment: Alignment, canvasWidth: real,
                lineHeight: real, isRtl: bool, k: nat)
    requires k < |line.syllables|
    ensures var startX := StartX(alignment, canvasWidth, line.totalWidth);
            var s := line.syllables;
            var currentX := if isRtl then startX + line.totalWidth - TotalWidth(s[..k]) else startX + TotalWidth(s[..k]);
            var positionX := if isRtl then currentX - s[k].width else currentX;
            && PositionLine(line, lineIndex, alignment, canvasWidth, lineHeight, isRtl)[k]
               == s[k].(position := Point(positionX, lineIndex as real * lineHeight))
            && (if isRtl then currentX - s[k].width else currentX + s[k].width)
               == (if isRtl then startX + line.totalWidth - TotalWidth(s[..k + 1]) else startX + TotalWidth(s[..k + 1]))
  {
    var s := line.syllables;
    assert s[..k + 1][..k] == s[..k];
  }

  /** Appends a layout to its word's bucket, creating the bucket if it is missing. */
  method AddToBucket(layoutsByWord: map<nat, seq<SyllableLayout>>, layout: SyllableLayout, ghost visited: seq<SyllableLayout>)
    returns (layoutsByWord': map<nat, seq<SyllableLayout>>)
    requires layoutsByWord == ByWordMap(visited)
    ensures layoutsByWord' == ByWordMap(visited + [layout])
  {
    var bucket := if layout.wordId in layoutsByWord then layoutsByWord[layout.wordId] else [];
    ByWordMapSnoc(visited, layout);
    layoutsByWord' := layoutsByWord[layout.wordId := bucket + [layout]];
  }

  /** Pass 1 for one row: position its syllables from the row's start and add
      each to its word's bucket. */
  method PositionRow(wrappedLine: WrappedLine, lineIndex: nat, alignment: Alignment, canvasWidth: real,
                     lineHeight: real, isRtl: bool, layoutsByWord: map<nat, seq<SyllableLayout>>,
                     ghost done: seq<SyllableLayout>)
    returns (line: seq<SyllableLayout>, layoutsByWord': map<nat, seq<SyllableLayout>>)
    requires layoutsByWord == ByWordMap(done)
    ensures line == PositionLine(wrappedLine, lineIndex, alignment, canvasWidth, lineHeight, isRtl)
    ensures layoutsByWord' == ByWordMap(done + line)
  {
    var s := wrappedLine.syllables;
    var lineY := lineIndex as real * lineHeight;
    var startX := StartX(alignment, canvasWidth, wrappedLine.totalWidth);
    var currentX := if isRtl then startX + wrappedLine.totalWidth else startX;
    line := [];
    layoutsByWord' := layoutsByWord;
    ghost var spec := PositionLine(wrappedLine, lineIndex, alignment, canvasWidth, lineHeight, isRtl);
    ghost var visited := done;
    for k := 0 to |s|
      invariant line == spec[..k]
      invariant isRtl ==> currentX == startX + wrappedLine.totalWidth - TotalWidth(s[..k])
      invariant !isRtl ==> currentX == startX + TotalWidth(s[..k])
      invariant visited == done + line
      invariant layoutsByWord' == ByWordMap(visited)
    {
      var initialLayout := s[k];
      RowStep(wrappedLine, lineIndex, alignment, canvasWidth, lineHeight, isRtl, k);
      var positionX := if isRtl then currentX - initialLayout.width else currentX;
      var positionedLayout := initialLayout.(position := Point(positionX, lineY));
      layoutsByWord' := AddToBucket(layoutsByWord', positionedLayout, visited);
      if isRtl {
        currentX := currentX - positionedLayout.width;
      } else {
        currentX := currentX + positionedLayout.width;
      }
      assert spec[..k + 1] == spec[..k] + [spec[k]];
      line := line + [positionedLayout];
      visited := visited + [positionedLayout];
    }
    assert spec[..|s|] == spec;
  }

  /** Pass 1: position every syllable row by row and collect each word's
      layouts in order. */
  method PositionPass(wrappedLines: seq<WrappedLine>, alignment: Alignment, canvasWidth: real,
                      lineHeight: real, isRtl: bool)
    returns (positionedLines: seq<seq<SyllableLayout>>, layoutsByWord: map<nat, seq<SyllableLayout>>)
    ensures positionedLines == PositionedLines(wrappedLines, alignment, canvasWidth, lineHeight, isRtl)
    ensures layoutsByWord == ByWordMap(Flatten(positionedLines))
  {
    positionedLines := [];
    layoutsByWord := map[];
    for lineIndex := 0 to |wrappedLines|
      invariant |positionedLines| == lineIndex
      invariant forall i :: 0 <= i < lineIndex ==>
                  positionedLines[i] == PositionLine(wrappedLines[i], i, alignment, canvasWidth, lineHeight, isRtl)
      invariant layoutsByWord == ByWordMap(Flatten(positionedLines))
    {
      var line: seq<SyllableLayout>;
      line, layoutsByWord := PositionRow(wrappedLines[lineIndex], lineIndex, alignment, canvasWidth, lineHeight, isRtl,
                                         layoutsByWord, Flatten(positionedLines));
      FlattenAppend(positionedLines, [line]);
      assert Flatten([line]) == line;
      positionedLines := positionedLines + [line];
    }
  }

  /** What pass 1 hands to pass 2: every bucket is non-empty and holds only
      layouts of its own word. */
  ghost predicate WellGrouped(m: map<nat, seq<SyllableLayout>>) {
    forall w :: w in m ==> m[w] != [] && forall p :: p in m[w] ==> p.wordId == w
  }

  lemma ByWordMapWellGrouped(all: seq<SyllableLayout>)
    ensures WellGrouped(ByWordMap(all))
  {
    forall w | w in WordIds(all)
      ensures WordLayouts(all, w) != []
    {
      var p :| p in all && p.wordId == w;
      WordLayoutsPresent(all, p);
    }
  }

  /** A layout pass 2 gives an offset: one of a word whose first layout uses
      the per-character animation. */
  ghost predicate AwesomeMember(m: map<nat, seq<SyllableLayout>>, p: SyllableLayout) {
    p.wordId in m && m[p.wordId] != [] && m[p.wordId][0].useAwesomeAnimation && p in m[p.wordId]
  }

  lemma OffsetsOfSnoc(charOffsets: map<SyllableLayout, int>, layouts: seq<SyllableLayout>, i: nat)
    requires i < |layouts|
    ensures (charOffsets + OffsetsOf(layouts[..i]))[layouts[i] := ContentLength(layouts[..i])]
            == charOffsets + OffsetsOf(layouts[..i + 1])
  {
    assert layouts[..i + 1][..i] == layouts[..i];
  }

  /** The inner loop of pass 2: record the running character offset of each
      layout of one word. */
  method RecordOffsets(charOffsets: map<SyllableLayout, int>, layouts: seq<SyllableLayout>)
    returns (charOffsets': map<SyllableLayout, int>)
    ensures charOffsets' == charOffsets + OffsetsOf(layouts)
  {
    charOffsets' := charOffsets;
    var runningCharOffset := 0;
    for i := 0 to |layouts|
      invariant runningCharOffset == ContentLength(layouts[..i])
      invariant charOffsets' == charOffsets + OffsetsOf(layouts[..i])
    {
      var layout := layouts[i];
      assert layouts[..i + 1][..i] == layouts[..i];
      OffsetsOfSnoc(charOffsets, layouts, i);
      charOffsets' := charOffsets'[layout := runningCharOffset];
      runningCharOffset := runningCharOffset + |layout.syllable.content|;
    }
    assert layouts[..|layouts|] == layouts;
  }

  /** What pass 2 produces from the buckets `m`. */
  ghost predicate AnimationMaps(m: map<nat, seq<SyllableLayout>>, animInfoByWord: map<nat, WordAnimationInfo>,
                                charOffsets: map<SyllableLayout, int>, todo: set<nat>)
    requires WellGrouped(m)
  {
    && (forall w :: w in animInfoByWord <==> w in m && w !in todo && m[w][0].useAwesomeAnimation)
    && (forall w :: w in animInfoByWord ==> animInfoByWord[w] == AnimInfo(m[w]))
    && (forall p :: p in charOffsets <==> AwesomeMember(m, p) && p.wordId !in todo)
    && (forall p :: p in charOffsets ==> AwesomeMember(m, p) && charOffsets[p] == OffsetsOf(m[p.wordId])[p])
  }

  /** One round of pass 2 keeps the word-timing half of `AnimationMaps`. */
  lemma AnimInfoStep(m: map<nat, seq<SyllableLayout>>, animInfoByWord: map<nat, WordAnimationInfo>,
                     todo: set<nat>, w: nat)
    requires WellGrouped(m) && w in todo && todo <= m.Keys
    requires forall v :: v in animInfoByWord <==> v in m && v !in todo && m[v][0].useAwesomeAnimation
    requires forall v :: v in animInfoByWord ==> animInfoByWord[v] == AnimInfo(m[v])
    ensures var a := if m[w][0].useAwesomeAnimation then animInfoByWord[w := AnimInfo(m[w])] else animInfoByWord;
            && (forall v :: v in a <==> v in m && v !in todo - {w} && m[v][0].useAwesomeAnimation)
            && (forall v :: v in a ==> a[v] == AnimInfo(m[v]))
  {
  }

  /** One round of pass 2 keeps the character-offset half of `AnimationMaps`. */
  lemma OffsetsStep(m: map<nat, seq<SyllableLayout>>, charOffsets: map<SyllableLayout, int>,
                    todo: set<nat>, w: nat)
    requires WellGrouped(m) && w in todo && todo <= m.Keys
    requires forall p :: p in charOffsets <==> AwesomeMember(m, p) && p.wordId !in todo
    requires forall p :: p in charOffsets ==> AwesomeMember(m, p) && charOffsets[p] == OffsetsOf(m[p.wordId])[p]
    ensures var c := if m[w][0].useAwesomeAnimation then charOffsets + OffsetsOf(m[w]) else charOffsets;
            && (forall p :: p in c <==> AwesomeMember(m, p) && p.wordId !in todo - {w})
            && (forall p :: p in c ==> AwesomeMember(m, p) && c[p] == OffsetsOf(m[p.wordId])[p])
  {
    var c := if m[w][0].useAwesomeAnimation then charOffsets + OffsetsOf(m[w]) else charOffsets;
    forall p ensures p in c <==> AwesomeMember(m, p) && p.wordId !in todo - {w} {
      if p in m[w] {
        assert p.wordId == w;
      }
    }
    forall p | p in c ensures AwesomeMember(m, p) && c[p] == OffsetsOf(m[p.wordId])[p] {
      if p in OffsetsOf(m[w]) && m[w][0].useAwesomeAnimation {
        assert p in m[w];
        assert p.wordId == w;
      }
    }
  }

  /** Pass 2: the timing and content of every word that uses the
      per-character animation, and the character offsets of its layouts. */
  method AnimationPass(layoutsByWord: map<nat, seq<SyllableLayout>>)
    returns (animInfoByWord: map<nat, WordAnimationInfo>, charOffsets: map<SyllableLayout, int>)
    requires WellGrouped(layoutsByWord)
    ensures AnimationMaps(layoutsByWord, animInfoByWord, charOffsets, {})
  {
    animInfoByWord := map[];
    charOffsets := map[];
    var todo := layoutsByWord.Keys;
    while todo != {}
      invariant todo <= layoutsByWord.Keys
      invariant AnimationMaps(layoutsByWord, animInfoByWord, charOffsets, todo)
      decreases |todo|
    {
      var wordId :| wordId in todo;
      var layouts := layoutsByWord[wordId];
      AnimInfoStep(layoutsByWord, animInfoByWord, todo, wordId);
      OffsetsStep(layoutsByWord, charOffsets, todo, wordId);
      if layouts[0].useAwesomeAnimation {
        animInfoByWord := animInfoByWord[wordId := WordAnimationInfo(MinStart(layouts), MaxEnd(layouts), JoinedContent(layouts))];
        assert animInfoByWord[wordId] == AnimInfo(layouts);
        charOffsets := RecordOffsets(charOffsets, layouts);
      }
      todo := todo - {wordId};
    }
  }

  /** Pass 3 for one layout, reading the maps of passes 1 and 2. */
  function FinalFromMaps(p: SyllableLayout, layoutsByWord: map<nat, seq<SyllableLayout>>,
                         animInfoByWord: map<nat, WordAnimationInfo>, charOffsets: map<SyllableLayout, int>): SyllableLayout
    requires p.wordId in layoutsByWord && layoutsByWord[p.wordId] != []
  {
    var wordLayouts := layoutsByWord[p.wordId];
    p.(wordPivot := Pivot(wordLayouts),
       wordAnimInfo := if p.wordId in animInfoByWord then Some(animInfoByWord[p.wordId]) else None,
       charOffsetInWord := if p in charOffsets then charOffsets[p] else 0)
  }

  lemma FinalFromMapsAgrees(all: seq<SyllableLayout>, p: SyllableLayout,
                            animInfoByWord: map<nat, WordAnimationInfo>, charOffsets: map<SyllableLayout, int>)
    requires p in all
    requires WellGrouped(ByWordMap(all))
    requires AnimationMaps(ByWordMap(all), animInfoByWord, charOffsets, {})
    ensures p.wordId in ByWordMap(all) && WordLayouts(all, p.wordId) != []
    ensures FinalFromMaps(p, ByWordMap(all), animInfoByWord, charOffsets) == FinalLayout(p, WordLayouts(all, p.wordId))
  {
    WordLayoutsPresent(all, p);
    var m := ByWordMap(all);
    var w := p.wordId;
    assert w in WordIds(all);
    var wl := WordLayouts(all, w);
    assert m[w] == wl;
    var f := FinalFromMaps(p, m, animInfoByWord, charOffsets);
    var g := FinalLayout(p, wl);
    assert f.wordAnimInfo == g.wordAnimInfo by {
      assert w in animInfoByWord <==> wl[0].useAwesomeAnimation;
    }
    assert f.charOffsetInWord == g.charOffsetInWord by {
      assert p in OffsetsOf(wl);
      assert p in charOffsets <==> AwesomeMember(m, p);
    }
  }

  /** `calculateStaticLineLayout`: the three passes. */
  method CalculateStaticLineLayout(wrappedLines: seq<WrappedLine>, alignment: Alignment, canvasWidth: real,
                                   lineHeight: real, isRtl: bool)
    returns (result: seq<seq<SyllableLayout>>)
    ensures result == StaticLineLayout(wrappedLines, alignment, canvasWidth, lineHeight, isRtl)
  {
    var positionedLines: seq<seq<SyllableLayout>>, layoutsByWord: map<nat, seq<SyllableLayout>>;
    positionedLines, layoutsByWord := PositionPass(wrappedLines, alignment, canvasWidth, lineHeight, isRtl);
    ghost var all := Flatten(positionedLines);
    ByWordMapWellGrouped(all);
    var animInfoByWord, charOffsets := AnimationPass(layoutsByWord);
    forall i: nat, k: nat | i < |positionedLines| && k < |positionedLines[i]|
      ensures positionedLines[i][k].wordId in layoutsByWord && layoutsByWord[positionedLines[i][k].wordId] != []
      ensures FinalFromMaps(positionedLines[i][k], layoutsByWord, animInfoByWord, charOffsets)
              == FinalLayout(positionedLines[i][k], WordLayouts(all, positionedLines[i][k].wordId))
    {
      FlattenMember(positionedLines, i, k);
      FinalFromMapsAgrees(all, positionedLines[i][k], animInfoByWord, charOffsets);
    }
    result := seq(|positionedLines|, i requires 0 <= i < |positionedLines| =>
      seq(|positionedLines[i]|, k requires 0 <= k < |positionedLines[i]| =>
        FinalFromMaps(positionedLines[i][k], layoutsByWord, animInfoByWord, charOffsets)));
    ghost var spec := StaticLineLayout(wrappedLines, alignment, canvasWidth, lineHeight, isRtl);
    forall i | 0 <= i < |result|
      ensures result[i] == spec[i]
    {
      assert |result[i]| == |spec[i]|;
      forall k | 0 <= k < |result[i]|
        ensures result[i][k] == spec[i][k]
      {
      }
    }
  }

  // ---------------------------------------------------------------------
  // Properties of the layout

  lemma TotalWidthNext(s: seq<SyllableLayout>, k: nat)
    requires k < |s|
    ensures TotalWidth(s[..k + 1]) == TotalWidth(s[..k]) + s[k].width
  {
    assert s[..k + 1][..k] == s[..k];
  }

  /** The geometry of a positioned row: only positions change, every syllable
      sits at the row's y, and the syllables abut in reading order: left to
      right from the start x, or right to left from the start x plus the row's
      width; when the cached width is the true width the row ends exactly at
      the other edge. */
  lemma RowGeometry(line: WrappedLine, lineIndex: nat, alignment: Alignment, canvasWidth: real,
                    lineHeight: real, isRtl: bool)
    ensures var r := PositionLine(line, lineIndex, alignment, canvasWidth, lineHeight, isRtl);
            var s := line.syllables;
            var x0 := StartX(alignment, canvasWidth, line.totalWidth);
            && (forall k :: 0 <= k < |r| ==> r[k].(position := s[k].position) == s[k])
            && (forall k :: 0 <= k < |r| ==> r[k].position.y == lineIndex as real * lineHeight)
            && (!isRtl && r != [] ==> r[0].position.x == x0)
            && (!isRtl ==> forall k :: 0 <= k < |r| - 1 ==> r[k + 1].position.x == r[k].position.x + r[k].width)
            && (isRtl && r != [] ==> r[0].position.x + r[0].width == x0 + line.totalWidth)
            && (isRtl ==> forall k :: 0 <= k < |r| - 1 ==> r[k + 1].position.x + r[k + 1].width == r[k].position.x)
            && (r != [] && line.totalWidth == TotalWidth(s) ==>
                  if isRtl then r[|r| - 1].position.x == x0
                  else r[|r| - 1].position.x + r[|r| - 1].width == x0 + line.totalWidth)
  {
    var r := PositionLine(line, lineIndex, alignment, canvasWidth, lineHeight, isRtl);
    var s := line.syllables;
    forall k | 0 <= k < |r| ensures TotalWidth(s[..k + 1]) == TotalWidth(s[..k]) + s[k].width {
      TotalWidthNext(s, k);
    }
    if r != [] {
      assert s[..0] == [];
      assert s[..|s|] == s;
    }
  }

  lemma {:induction false} WordLayoutsOrder(all: seq<SyllableLayout>, w: nat)
    ensures forall p :: p in all && p.wordId == w ==> p in WordLayouts(all, w)
  {
    forall p | p in all && p.wordId == w ensures p in WordLayouts(all, w) {
      WordLayoutsPresent(all, p);
    }
  }

  /** Pass 3 keeps what the measurement and pass 1 decided: the syllable, its
      size, word and flag come from the wrapped row and its position from
      pass 1. */
  lemma StaticLayoutKeeps(lines: seq<WrappedLine>, alignment: Alignment, canvasWidth: real,
                          lineHeight: real, isRtl: bool, i: nat, k: nat)
    requires i < |lines| && k < |lines[i].syllables|
    ensures var f := StaticLineLayout(lines, alignment, canvasWidth, lineHeight, isRtl)[i][k];
            var s := lines[i].syllables[k];
            && f.syllable == s.syllable && f.width == s.width && f.height == s.height
            && f.wordId == s.wordId && f.useAwesomeAnimation == s.useAwesomeAnimation
            && f.position == PositionLine(lines[i], i, alignment, canvasWidth, lineHeight, isRtl)[k].position
  {
  }

  /** The layouts of the word of row `i`, syllable `k`, across all rows. */
  function WordOf(lines: seq<WrappedLine>, alignment: Alignment, canvasWidth: real,
                  lineHeight: real, isRtl: bool, i: nat, k: nat): (wl: seq<SyllableLayout>)
    requires i < |lines| && k < |lines[i].syllables|
    ensures wl != []
    ensures PositionedLines(lines, alignment, canvasWidth, lineHeight, isRtl)[i][k] in wl
  {
    var positioned := PositionedLines(lines, alignment, canvasWidth, lineHeight, isRtl);
    FlattenMember(positioned, i, k);
    WordLayoutsPresent(Flatten(positioned), positioned[i][k]);
    WordLayouts(Flatten(positioned), lines[i].syllables[k].wordId)
  }

  /** Every syllable of a word gets the same pivot and the same word timing. */
  lemma WordSharesPivotAndTiming(lines: seq<WrappedLine>, alignment: Alignment, canvasWidth: real,
                                 lineHeight: real, isRtl: bool, i: nat, k: nat, i': nat, k': nat)
    requires i < |lines| && k < |lines[i].syllables|
    requires i' < |lines| && k' < |lines[i'].syllables|
    requires lines[i].syllables[k].wordId == lines[i'].syllables[k'].wordId
    ensures var r := StaticLineLayout(lines, alignment, canvasWidth, lineHeight, isRtl);
            r[i][k].wordPivot == r[i'][k'].wordPivot && r[i][k].wordAnimInfo == r[i'][k'].wordAnimInfo
  {
    var r := StaticLineLayout(lines, alignment, canvasWidth, lineHeight, isRtl);
    var positioned := PositionedLines(lines, alignment, canvasWidth, lineHeight, isRtl);
    var all: seq<SyllableLayout> := Flatten(positioned);
    var p: SyllableLayout := positioned[i][k];
    var p': SyllableLayout := positioned[i'][k'];
    assert p.wordId == lines[i].syllables[k].wordId && p'.wordId == lines[i'].syllables[k'].wordId by {
      assert positioned[i] == PositionLine(lines[i], i, alignment, canvasWidth, lineHeight, isRtl);
      assert positioned[i'] == PositionLine(lines[i'], i', alignment, canvasWidth, lineHeight, isRtl);
    }
    var wl := WordLayouts(all, p.wordId);
    assert wl != [] by {
      FlattenMember(positioned, i, k);
      WordLayoutsPresent(all, p);
    }
    assert r[i][k] == FinalLayout(p, wl);
    assert r[i'][k'] == FinalLayout(p', wl);
  }

  /** `c` is the middle of the horizontal extent of `wl` and lies on its
      lowest bottom edge. */
  ghost predicate CentredBelow(c: Point, wl: seq<SyllableLayout>) {
    && (forall j :: 0 <= j < |wl| ==> wl[j].position.y + wl[j].height <= c.y)
    && (exists j :: 0 <= j < |wl| && wl[j].position.y + wl[j].height == c.y)
    && (exists a, b :: 0 <= a < |wl| && 0 <= b < |wl|
          && 2.0 * c.x == wl[a].position.x + wl[b].position.x + wl[b].width
          && (forall j :: 0 <= j < |wl| ==>
                wl[a].position.x <= wl[j].position.x && wl[j].position.x + wl[j].width <= wl[b].position.x + wl[b].width))
  }

  lemma PivotOfWord(wl: seq<SyllableLayout>)
    requires wl != []
    ensures CentredBelow(Pivot(wl), wl)
  {
    var lo, hi, bottom := MinX(wl), MaxRight(wl), MaxBottom(wl);
    var c := Pivot(wl);
    assert c.x == (lo + hi) / 2.0 && c.y == bottom;
    var ia :| 0 <= ia < |wl| && lo == wl[ia].position.x;
    var ib :| 0 <= ib < |wl| && hi == wl[ib].position.x + wl[ib].width;
    var iy :| 0 <= iy < |wl| && bottom == wl[iy].position.y + wl[iy].height;
    CentredBelowIntro(c, wl, ia, ib, iy);
  }

  lemma CentredBelowIntro(c: Point, wl: seq<SyllableLayout>, ia: nat, ib: nat, iy: nat)
    requires ia < |wl| && ib < |wl| && iy < |wl|
    requires 2.0 * c.x == wl[ia].position.x + wl[ib].position.x + wl[ib].width
    requires forall j :: 0 <= j < |wl| ==> wl[ia].position.x <= wl[j].position.x
    requires forall j :: 0 <= j < |wl| ==> wl[j].position.x + wl[j].width <= wl[ib].position.x + wl[ib].width
    requires forall j :: 0 <= j < |wl| ==> wl[j].position.y + wl[j].height <= c.y
    requires wl[iy].position.y + wl[iy].height == c.y
    ensures CentredBelow(c, wl)
  {
  }

  /** The pivot is the middle of the word's horizontal extent across all its
      rows and lies on its lowest bottom edge. */
  lemma PivotSpansWord(lines: seq<WrappedLine>, alignment: Alignment, canvasWidth: real,
                       lineHeight: real, isRtl: bool, i: nat, k: nat)
    requires i < |lines| && k < |lines[i].syllables|
    ensures CentredBelow(StaticLineLayout(lines, alignment, canvasWidth, lineHeight, isRtl)[i][k].wordPivot,
                         WordOf(lines, alignment, canvasWidth, lineHeight, isRtl, i, k))
  {
    var wl := WordOf(lines, alignment, canvasWidth, lineHeight, isRtl, i, k);
    PivotOfWord(wl);
  }

  /** A word gets timing exactly when its first layout uses the per-character
      animation; the timing spans the word's syllables and its content is the
      word's text. */
  lemma WordTimingSpec(lines: seq<WrappedLine>, alignment: Alignment, canvasWidth: real,
                       lineHeight: real, isRtl: bool, i: nat, k: nat)
    requires i < |lines| && k < |lines[i].syllables|
    ensures var f := StaticLineLayout(lines, alignment, canvasWidth, lineHeight, isRtl)[i][k];
            var wl := WordOf(lines, alignment, canvasWidth, lineHeight, isRtl, i, k);
            && (f.wordAnimInfo.Some? <==> wl[0].useAwesomeAnimation)
            && (f.wordAnimInfo.Some? ==>
                  var info := f.wordAnimInfo.value;
                  && (forall q :: q in wl ==> info.wordStartTime <= q.syllable.start && q.syllable.end <= info.wordEndTime)
                  && (exists q :: q in wl && q.syllable.start == info.wordStartTime)
                  && (exists q :: q in wl && q.syllable.end == info.wordEndTime)
                  && info.wordContent == JoinedContent(wl)
                  && |info.wordContent| == ContentLength(wl))
  {
    var wl := WordOf(lines, alignment, canvasWidth, lineHeight, isRtl, i, k);
    var ia :| 0 <= ia < |wl| && MinStart(wl) == wl[ia].syllable.start;
    var ib :| 0 <= ib < |wl| && MaxEnd(wl) == wl[ib].syllable.end;
    assert wl[ia] in wl && wl[ib] in wl;
  }

  lemma {:induction false} OffsetsOfLast(wl: seq<SyllableLayout>, m: nat)
    requires m < |wl| && wl[m] !in wl[m + 1..]
    ensures OffsetsOf(wl)[wl[m]] == ContentLength(wl[..m])
    decreases |wl|
  {
    var n := |wl|;
    if m < n - 1 {
      var init := wl[..n - 1];
      assert wl[n - 1] in wl[m + 1..];
      assert init[m + 1..] == wl[m + 1..n - 1];
      assert init[..m] == wl[..m];
      OffsetsOfLast(init, m);
    } else {
      assert wl[..n - 1] == wl[..m];
    }
  }

  lemma {:induction false} ContentLengthPrefix(wl: seq<SyllableLayout>, m: nat)
    requires m < |wl|
    ensures ContentLength(wl[..m]) + |wl[m].syllable.content| <= ContentLength(wl)
    decreases |wl|
  {
    var n := |wl|;
    if m < n - 1 {
      assert wl[..n - 1][..m] == wl[..m];
      ContentLengthPrefix(wl[..n - 1], m);
    } else {
      assert wl[..n - 1] == wl[..m];
    }
  }

  /** The character offset of a syllable of a word with the per-character
      animation is the number of characters of the word's syllables before it
      (when its layout does not recur later in the word), so its characters
      lie inside the word's content; other words' syllables get offset 0. */
  lemma CharOffsetSpec(lines: seq<WrappedLine>, alignment: Alignment, canvasWidth: real,
                       lineHeight: real, isRtl: bool, i: nat, k: nat, m: nat)
    requires i < |lines| && k < |lines[i].syllables|
    requires var wl := WordOf(lines, alignment, canvasWidth, lineHeight, isRtl, i, k);
             m < |wl| && wl[m] == PositionedLines(lines, alignment, canvasWidth, lineHeight, isRtl)[i][k]
             && wl[m] !in wl[m + 1..]
    ensures var f := StaticLineLayout(lines, alignment, canvasWidth, lineHeight, isRtl)[i][k];
            var wl := WordOf(lines, alignment, canvasWidth, lineHeight, isRtl, i, k);
            && (!wl[0].useAwesomeAnimation ==> f.charOffsetInWord == 0)
            && (wl[0].useAwesomeAnimation ==>
                  && f.charOffsetInWord == ContentLength(wl[..m])
                  && f.charOffsetInWord + |f.syllable.content| <= |f.wordAnimInfo.value.wordContent|)
  {
    var wl := WordOf(lines, alignment, canvasWidth, lineHeight, isRtl, i, k);
    OffsetsOfLast(wl, m);
    ContentLengthPrefix(wl, m);
  }
}
