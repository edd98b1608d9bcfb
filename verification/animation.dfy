/** The per-tick timing arithmetic of drawing a row: the staggered start and
    progress of each character of a word with the per-character animation,
    the amplitudes of its motion, and the rise of a syllable drawn whole,
    where punctuation borrows the timing of the syllable before it. */
module CharAnimation {
  import opened KaraokeTypes
  import Text
  import Words

  // ---------------------------------------------------------------------
  // Float arithmetic the source relies on

  /** Conversion of a float to a whole number, rounding toward zero. */
  function TruncateToInt(x: real): (r: int)
    ensures x >= 0.0 ==> r as real <= x < r as real + 1.0
    ensures x < 0.0 ==> r as real - 1.0 < x <= r as real
  {
    if x >= 0.0 then x.Floor else -((-x).Floor)
  }

  lemma TruncateMonotone(x: real, y: real)
    requires x <= y
    ensures TruncateToInt(x) <= TruncateToInt(y)
  {
  }

  lemma TruncateOfInt(n: int)
    ensures TruncateToInt(n as real) == n
  {
  }

  /** The float quotient `n / d` clamped to [0, 1]. A zero divisor gives an
      infinity of the numerator's sign, clamped to an end, or NaN for `0 / 0`,
      which the clamp lets through (`None`). */
  function ClampedQuotient(n: real, d: real): (r: Option<real>)
    ensures r.None? <==> n == 0.0 && d == 0.0
    ensures r.Some? ==> 0.0 <= r.value <= 1.0
    ensures d == 0.0 && n > 0.0 ==> r == Some(1.0)
    ensures d == 0.0 && n < 0.0 ==> r == Some(0.0)
    ensures d > 0.0 && n <= 0.0 ==> r == Some(0.0)
    ensures d > 0.0 && n >= d ==> r == Some(1.0)
    ensures d > 0.0 && 0.0 <= n <= d ==> r.value * d == n
  {
    if d == 0.0 then
      if n > 0.0 then Some(1.0) else if n < 0.0 then Some(0.0) else None
    else
      QuotientFacts(n, d);
      Some(Clamp(n / d, 0.0, 1.0))
  }

  lemma QuotientFacts(n: real, d: real)
    requires d != 0.0
    ensures n / d * d == n
    ensures d > 0.0 && n >= d ==> n / d >= 1.0
    ensures d > 0.0 && n <= d ==> n / d <= 1.0
    ensures d > 0.0 && n <= 0.0 ==> n / d <= 0.0
  {
  }

  /** With a positive divisor the clamped quotient never decreases as the
      numerator grows. */
  lemma ClampedQuotientMonotone(n: real, n': real, d: real)
    requires d > 0.0 && n <= n'
    ensures ClampedQuotient(n, d).value <= ClampedQuotient(n', d).value
  {
    assert n' / d - n / d == (n' - n) / d;
  }

  // ---------------------------------------------------------------------
  // Per-character stagger of a word with the per-character animation

  /** Where a character sits in its word, from 0 (first) to 1 (last); a word
      of at most one character puts it in the middle. */
  function CharRatio(absoluteCharIndex: int, numCharsInWord: nat): (r: real)
    ensures numCharsInWord <= 1 ==> r == 0.5
    ensures numCharsInWord > 1 ==> r * (numCharsInWord - 1) as real == absoluteCharIndex as real
  {
    if numCharsInWord > 1 then absoluteCharIndex as real / (numCharsInWord - 1) as real else 0.5
  }

  /** The ratio of a character of the word lies in [0, 1], is 0 for the
      first character and 1 for the last, and grows strictly along the word. */
  lemma CharRatioSpan(k: int, k': int, n: nat)
    requires n > 1 && 0 <= k < k' < n
    ensures 0.0 <= CharRatio(k, n) < CharRatio(k', n) <= 1.0
    ensures CharRatio(0, n) == 0.0 && CharRatio(n - 1, n) == 1.0
  {
    var d := (n - 1) as real;
    assert CharRatio(k', n) - CharRatio(k, n) == (k' - k) as real / d;
  }

  /** Each character animates over 80% of the word's duration. */
  function AwesomeDuration(info: WordAnimationInfo): real {
    info.WordDuration() as real * 0.8
  }

  /** The last moment a character may start and still end with the word. */
  function LatestStartTime(info: WordAnimationInfo): real {
    info.wordEndTime as real - AwesomeDuration(info)
  }

  /** The untruncated start of a character: between the word's start and
      the latest start in proportion to its ratio. */
  function StaggeredStart(info: WordAnimationInfo, charRatio: real): real {
    var earliest := info.wordStartTime as real;
    earliest + (LatestStartTime(info) - earliest) * charRatio
  }

  /** The character's start in whole milliseconds. */
  function AwesomeStartTime(info: WordAnimationInfo, charRatio: real): int {
    TruncateToInt(StaggeredStart(info, charRatio))
  }

  /** The character's animation progress at time `t`. */
  function AwesomeProgress(info: WordAnimationInfo, charRatio: real, t: int): (r: Option<real>)
    ensures r.Some? ==> 0.0 <= r.value <= 1.0
  {
    ClampedQuotient((t - AwesomeStartTime(info, charRatio)) as real, AwesomeDuration(info))
  }

  /** Progress of character `charIndex` of a syllable whose first character is
      character `charOffsetInWord` of the word. */
  function CharProgress(info: WordAnimationInfo, charOffsetInWord: int, charIndex: nat, t: int): Option<real> {
    AwesomeProgress(info, CharRatio(charOffsetInWord + charIndex, |info.wordContent|), t)
  }

  lemma ScaleWithin(span: real, ratio: real, ratio': real)
    requires span >= 0.0 && 0.0 <= ratio <= ratio' <= 1.0
    ensures 0.0 <= span * ratio <= span * ratio' <= span
  {
    assert span * ratio' - span * ratio == span * (ratio' - ratio);
  }

  lemma StaggeredStartWithin(info: WordAnimationInfo, ratio: real, ratio': real)
    requires info.WordDuration() >= 0 && 0.0 <= ratio <= ratio' <= 1.0
    ensures info.wordStartTime as real <= StaggeredStart(info, ratio)
    ensures StaggeredStart(info, ratio) <= StaggeredStart(info, ratio') <= LatestStartTime(info)
  {
    var earliest := info.wordStartTime as real;
    var span := LatestStartTime(info) - earliest;
    assert span == info.WordDuration() as real * 0.2;
    ScaleWithin(span, ratio, ratio');
    assert StaggeredStart(info, ratio) == earliest + span * ratio;
    assert StaggeredStart(info, ratio') == earliest + span * ratio';
  }

  /** For a word of non-negative duration the characters start in order, no
      earlier than the word and no later than the latest start. */
  lemma StaggerOrder(info: WordAnimationInfo, ratio: real, ratio': real)
    requires info.WordDuration() >= 0 && 0.0 <= ratio <= ratio' <= 1.0
    ensures info.wordStartTime <= AwesomeStartTime(info, ratio) <= AwesomeStartTime(info, ratio')
    ensures AwesomeStartTime(info, ratio') <= TruncateToInt(LatestStartTime(info))
  {
    StaggeredStartWithin(info, ratio, ratio');
    StaggeredStartWithin(info, ratio', 1.0);
    TruncateOfInt(info.wordStartTime);
    TruncateMonotone(info.wordStartTime as real, StaggeredStart(info, ratio));
    TruncateMonotone(StaggeredStart(info, ratio), StaggeredStart(info, ratio'));
    TruncateMonotone(StaggeredStart(info, ratio'), LatestStartTime(info));
  }

  /** For a word with positive duration that starts at a non-negative time,
      every character is at rest before the word starts and has finished once
      the word has ended. */
  lemma CharactersWithinWord(info: WordAnimationInfo, ratio: real, t: int)
    requires info.WordDuration() > 0 && info.wordStartTime >= 0 && 0.0 <= ratio <= 1.0
    ensures t <= info.wordStartTime ==> AwesomeProgress(info, ratio, t) == Some(0.0)
    ensures t >= info.wordEndTime ==> AwesomeProgress(info, ratio, t) == Some(1.0)
  {
    StaggerOrder(info, ratio, ratio);
    StaggeredStartWithin(info, ratio, ratio);
    var s := AwesomeStartTime(info, ratio);
    assert s as real <= StaggeredStart(info, ratio);
    assert s as real + AwesomeDuration(info) <= info.wordEndTime as real;
  }

  /** A character's progress never decreases as time passes. */
  lemma AwesomeProgressMonotone(info: WordAnimationInfo, ratio: real, t: int, t': int)
    requires info.WordDuration() > 0 && t <= t'
    ensures AwesomeProgress(info, ratio, t).value <= AwesomeProgress(info, ratio, t').value
  {
    var s := AwesomeStartTime(info, ratio);
    ClampedQuotientMonotone((t - s) as real, (t' - s) as real, AwesomeDuration(info));
  }

  /** How far the word's duration exceeds 200 ms per character, in seconds. */
  function Slack(info: WordAnimationInfo, numCharsInWord: nat): real {
    (info.WordDuration() as real - Words.FastCharAnimationThresholdMs * numCharsInWord as real) / 1000.0
  }

  /** The depth of the dip-and-rise curve: half the slack, capped at 0.5. */
  function DipAmount(info: WordAnimationInfo, numCharsInWord: nat): (r: real)
    ensures 0.0 <= r <= 0.5
  {
    Clamp(0.5 * Slack(info, numCharsInWord), 0.0, 0.5)
  }

  /** The height of the swell curve: a tenth of the slack, capped at 0.1. */
  function SwellAmount(info: WordAnimationInfo, numCharsInWord: nat): (r: real)
    ensures 0.0 <= r <= 0.1
  {
    Clamp(0.1 * Slack(info, numCharsInWord), 0.0, 0.1)
  }

  /** Both amplitudes vanish exactly when the word is no slower than 200 ms per
      character, are proportional to the slack below their caps, and the swell
      is a fifth of the dip. */
  lemma AmplitudesFollowSlack(info: WordAnimationInfo, n: nat)
    ensures DipAmount(info, n) == 0.0 <==>
              info.WordDuration() as real <= Words.FastCharAnimationThresholdMs * n as real
    ensures SwellAmount(info, n) == 0.0 <==>
              info.WordDuration() as real <= Words.FastCharAnimationThresholdMs * n as real
    ensures SwellAmount(info, n) * 5.0 == DipAmount(info, n)
    ensures Slack(info, n) <= 1.0 ==> DipAmount(info, n) == 0.5 * Clamp(Slack(info, n), 0.0, 1.0)
  {
  }

  // ---------------------------------------------------------------------
  // Rise of a syllable drawn whole

  /** A syllable whose text, trimmed at both ends, is punctuation. */
  predicate IsPunctuation(l: SyllableLayout, scripts: Scripts) {
    scripts.isPunctuation(Text.Trim(l.syllable.content))
  }

  /** Which syllables of the row are punctuation. */
  function PunctuationFlags(row: seq<SyllableLayout>, scripts: Scripts): (flags: seq<bool>)
    ensures |flags| == |row|
    ensures forall i :: 0 <= i < |row| ==> flags[i] == IsPunctuation(row[i], scripts)
  {
    seq(|row|, i requires 0 <= i < |row| => IsPunctuation(row[i], scripts))
  }

  /** The nearest index at or below `j` whose flag is unset, or -1 when every
      flag up to `j` is set. */
  function NearestUnset(flags: seq<bool>, j: int): (r: int)
    requires -1 <= j < |flags|
    ensures -1 <= r <= j
    ensures r >= 0 ==> !flags[r]
    ensures forall m :: r < m <= j ==> flags[m]
    decreases j + 1
  {
    if j < 0 then -1
    else if !flags[j] then j
    else NearestUnset(flags, j - 1)
  }

  /** The index of the syllable whose timing drives the rise of syllable
      `index`: itself, unless it is punctuation and an earlier syllable of the
      row is not. */
  function ProgressSyllableIndex(row: seq<SyllableLayout>, index: nat, scripts: Scripts): nat
    requires index < |row|
  {
    var flags := PunctuationFlags(row, scripts);
    if !flags[index] then index
    else
      var n := NearestUnset(flags, index - 1);
      if n < 0 then index else n
  }

  /** A non-punctuation syllable drives its own rise; a punctuation syllable
      borrows the timing of the nearest earlier non-punctuation syllable of
      its row, and keeps its own when there is none. */
  lemma ProgressSyllableSpec(row: seq<SyllableLayout>, index: nat, scripts: Scripts)
    requires index < |row|
    ensures var r := ProgressSyllableIndex(row, index, scripts);
            && r <= index
            && (!IsPunctuation(row[index], scripts) ==> r == index)
            && (IsPunctuation(row[index], scripts) && r < index ==>
                  !IsPunctuation(row[r], scripts) && forall m :: r < m < index ==> IsPunctuation(row[m], scripts))
            && (IsPunctuation(row[index], scripts) && r == index ==>
                  forall m :: 0 <= m < index ==> IsPunctuation(row[m], scripts))
            && (IsPunctuation(row[index], scripts) && (exists m :: 0 <= m < index && !IsPunctuation(row[m], scripts)) ==>
                  r < index)
  {
  }

  /** The backward search of `drawLine` for the progress syllable. */
  method FindProgressSyllable(rowLayouts: seq<SyllableLayout>, index: nat, scripts: Scripts)
    returns (progressSyllable: SyllableLayout)
    requires index < |rowLayouts|
    ensures progressSyllable == rowLayouts[ProgressSyllableIndex(rowLayouts, index, scripts)]
  {
    ghost var flags := PunctuationFlags(rowLayouts, scripts);
    var syllableLayout := rowLayouts[index];
    assert flags[index] == IsPunctuation(syllableLayout, scripts);
    if !IsPunctuation(syllableLayout, scripts) {
      assert ProgressSyllableIndex(rowLayouts, index, scripts) == index;
      return syllableLayout;
    }
    var searchIndex: int := index - 1;
    while searchIndex >= 0
      invariant -1 <= searchIndex < index
      invariant NearestUnset(flags, searchIndex) == NearestUnset(flags, index - 1)
      decreases searchIndex + 1
    {
      assert flags[searchIndex] == IsPunctuation(rowLayouts[searchIndex], scripts);
      if !IsPunctuation(rowLayouts[searchIndex], scripts) {
        break;
      }
      searchIndex := searchIndex - 1;
    }
    assert NearestUnset(flags, searchIndex) == searchIndex;
    assert ProgressSyllableIndex(rowLayouts, index, scripts) == if searchIndex < 0 then index else searchIndex;
    progressSyllable := if searchIndex < 0 then syllableLayout else rowLayouts[searchIndex];
  }

  /** The rise's progress: elapsed time over 1.4 times the syllable's
      duration, clamped. */
  function RiseProgress(s: Syllable, t: int): (r: Option<real>)
    ensures r.Some? ==> 0.0 <= r.value <= 1.0
  {
    ClampedQuotient((t - s.start) as real, 700.0 * s.Duration() as real / 500.0)
  }

  /** The rise is undefined only at the start of a zero-length syllable; for a
      syllable with positive duration it runs from 0 at its start to 1 at 1.4
      times its duration, never decreasing in between. */
  lemma RiseProgressSpec(s: Syllable, t: int, t': int)
    ensures RiseProgress(s, t).None? <==> t == s.start && s.Duration() == 0
    ensures s.Duration() > 0 && t <= s.start ==> RiseProgress(s, t) == Some(0.0)
    ensures s.Duration() > 0 && (t - s.start) as real >= 1.4 * s.Duration() as real ==> RiseProgress(s, t) == Some(1.0)
    ensures s.Duration() > 0 && t <= t' ==> RiseProgress(s, t).value <= RiseProgress(s, t').value
  {
    var d := 700.0 * s.Duration() as real / 500.0;
    assert d == 1.4 * s.Duration() as real;
    if s.Duration() > 0 && t <= t' {
      ClampedQuotientMonotone((t - s.start) as real, (t' - s.start) as real, d);
    }
  }
}
