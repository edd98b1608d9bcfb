/** The records the line layout pipeline passes between its stages, and the
    sequence folds (flattening, width sums, extrema) several stages share. */
module KaraokeTypes {

  datatype Option<T> = None | Some(value: T)

  /** A timed syllable, as supplied by the caller: times in milliseconds. */
  datatype Syllable = Syllable(content: string, start: int, end: int) {
    function Duration(): int { end - start }
  }

  /** What the text measurer reports for a string in the line's style. */
  datatype TextSize = TextSize(width: real, height: real)

  /** The external text measurer, deterministic for a fixed style. */
  type Measurer = string -> TextSize

  /** The script classifiers of the lyrics library, taken as given. */
  datatype Scripts = Scripts(
    isPunctuation: string -> bool,
    isPureCjk: string -> bool,
    isArabic: char -> bool,
    isDevanagari: char -> bool)

  datatype Point = Point(x: real, y: real)

  /** Word-level timing shared by the syllables of an "awesome" word. */
  datatype WordAnimationInfo = WordAnimationInfo(wordStartTime: int, wordEndTime: int, wordContent: string) {
    function WordDuration(): int { wordEndTime - wordStartTime }
  }

  /** One syllable with its measurement (`width`, `height` stand for the text
      layout result), the word it belongs to and, after static layout, its
      position, the word's pivot, the word's timing and its character offset. */
  datatype SyllableLayout = SyllableLayout(
    syllable: Syllable,
    width: real,
    height: real,
    wordId: nat,
    useAwesomeAnimation: bool,
    position: Point,
    wordPivot: Point,
    wordAnimInfo: Option<WordAnimationInfo>,
    charOffsetInWord: int)

  /** One visual row and its cached width. */
  datatype WrappedLine = WrappedLine(syllables: seq<SyllableLayout>, totalWidth: real)

  /** Every measured width and height is non-negative (pixel sizes). */
  ghost predicate NonNegativeWidths(ls: seq<SyllableLayout>) {
    forall i :: 0 <= i < |ls| ==> ls[i].width >= 0.0
  }

  function Flatten<T>(ss: seq<seq<T>>): seq<T> {
    if ss == [] then [] else ss[0] + Flatten(ss[1..])
  }

  lemma {:induction false} FlattenAppend<T>(a: seq<seq<T>>, b: seq<seq<T>>)
    ensures Flatten(a + b) == Flatten(a) + Flatten(b)
    decreases |a|
  {
    if a == [] {
      assert a + b == b;
    } else {
      assert (a + b)[1..] == a[1..] + b;
      FlattenAppend(a[1..], b);
    }
  }

  /** Sum of the widths, as `sumOf { it.width }` computes it. */
  function TotalWidth(ls: seq<SyllableLayout>): real
    decreases |ls|
  {
    if ls == [] then 0.0 else TotalWidth(ls[..|ls| - 1]) + ls[|ls| - 1].width
  }

  lemma {:induction false} TotalWidthAppend(a: seq<SyllableLayout>, b: seq<SyllableLayout>)
    ensures TotalWidth(a + b) == TotalWidth(a) + TotalWidth(b)
    decreases |b|
  {
    if b == [] {
      assert a + b == a;
    } else {
      assert (a + b)[..|a + b| - 1] == a + b[..|b| - 1];
      TotalWidthAppend(a, b[..|b| - 1]);
    }
  }

  lemma {:induction false} TotalWidthNonNegative(ls: seq<SyllableLayout>)
    requires NonNegativeWidths(ls)
    ensures TotalWidth(ls) >= 0.0
    decreases |ls|
  {
    if ls != [] {
      TotalWidthNonNegative(ls[..|ls| - 1]);
    }
  }

  /** Sum of the content lengths (character counts). */
  function ContentLength(ls: seq<SyllableLayout>): nat
    decreases |ls|
  {
    if ls == [] then 0 else ContentLength(ls[..|ls| - 1]) + |ls[|ls| - 1].syllable.content|
  }

  /** The contents joined, as `joinToString("") { it.syllable.content }`. */
  function JoinedContent(ls: seq<SyllableLayout>): (r: string)
    ensures |r| == ContentLength(ls)
    decreases |ls|
  {
    if ls == [] then [] else JoinedContent(ls[..|ls| - 1]) + ls[|ls| - 1].syllable.content
  }

  /** The leftmost left edge. */
  function MinX(ls: seq<SyllableLayout>): (r: real)
    requires ls != []
    ensures forall i :: 0 <= i < |ls| ==> r <= ls[i].position.x
    ensures exists i :: 0 <= i < |ls| && r == ls[i].position.x
    decreases |ls|
  {
    if |ls| == 1 then ls[0].position.x
    else
      var m := MinX(ls[..|ls| - 1]);
      var x := ls[|ls| - 1].position.x;
      if x < m then x else m
  }

  /** The rightmost right edge. */
  function MaxRight(ls: seq<SyllableLayout>): (r: real)
    requires ls != []
    ensures forall i :: 0 <= i < |ls| ==> ls[i].position.x + ls[i].width <= r
    ensures exists i :: 0 <= i < |ls| && r == ls[i].position.x + ls[i].width
    decreases |ls|
  {
    if |ls| == 1 then ls[0].position.x + ls[0].width
    else
      var m := MaxRight(ls[..|ls| - 1]);
      var x := ls[|ls| - 1].position.x + ls[|ls| - 1].width;
      if x > m then x else m
  }

  /** The lowest bottom edge. */
  function MaxBottom(ls: seq<SyllableLayout>): (r: real)
    requires ls != []
    ensures forall i :: 0 <= i < |ls| ==> ls[i].position.y + ls[i].height <= r
    ensures exists i :: 0 <= i < |ls| && r == ls[i].position.y + ls[i].height
    decreases |ls|
  {
    if |ls| == 1 then ls[0].position.y + ls[0].height
    else
      var m := MaxBottom(ls[..|ls| - 1]);
      var y := ls[|ls| - 1].position.y + ls[|ls| - 1].height;
      if y > m then y else m
  }

  /** The earliest syllable start. */
  function MinStart(ls: seq<SyllableLayout>): (r: int)
    requires ls != []
    ensures forall i :: 0 <= i < |ls| ==> r <= ls[i].syllable.start
    ensures exists i :: 0 <= i < |ls| && r == ls[i].syllable.start
    decreases |ls|
  {
    if |ls| == 1 then ls[0].syllable.start
    else
      var m := MinStart(ls[..|ls| - 1]);
      var s := ls[|ls| - 1].syllable.start;
      if s < m then s else m
  }

  /** The latest syllable end. */
  function MaxEnd(ls: seq<SyllableLayout>): (r: int)
    requires ls != []
    ensures forall i :: 0 <= i < |ls| ==> ls[i].syllable.end <= r
    ensures exists i :: 0 <= i < |ls| && r == ls[i].syllable.end
    decreases |ls|
  {
    if |ls| == 1 then ls[0].syllable.end
    else
      var m := MaxEnd(ls[..|ls| - 1]);
      var e := ls[|ls| - 1].syllable.end;
      if e > m then e else m
  }

  /** `coerceIn(lo, hi)` on a value that is a number. */
  function Clamp(v: real, lo: real, hi: real): (r: real)
    requires lo <= hi
    ensures lo <= r <= hi
    ensures lo <= v <= hi ==> r == v
    ensures v < lo ==> r == lo
    ensures v > hi ==> r == hi
  {
    if v < lo then lo else if v > hi then hi else v
  }
}
