/** The measuring and classifying stage: syllables are grouped into words
    (a word closes after a syllable with trailing whitespace), each syllable
    is measured, and each word is classified for "awesome" per-character
    animation. Source: KaraokeLineText.kt, `groupIntoWords` and
    `measureSyllablesAndDetermineAnimation`. */
module Words {
  import opened Text
  import opened KaraokeTypes

  /** A syllable closes its word when its content ends in whitespace, which
      is when `trimEnd()` shortens it (`TrailingWhitespaceIsLastChar`). */
  predicate EndsWord(s: Syllable) {
    s.content != [] && IsWhitespace(s.content[|s.content| - 1])
  }

  /** How many of `ss` close a word. */
  function CountEnders(ss: seq<Syllable>): nat
    decreases |ss|
  {
    if ss == [] then 0 else (if EndsWord(ss[0]) then 1 else 0) + CountEnders(ss[1..])
  }

  lemma {:induction false} CountEndersAppend(a: seq<Syllable>, b: seq<Syllable>)
    ensures CountEnders(a + b) == CountEnders(a) + CountEnders(b)
    decreases |a|
  {
    if a == [] {
      assert a + b == b;
    } else {
      assert (a + b)[1..] == a[1..] + b;
      CountEndersAppend(a[1..], b);
    }
  }

  lemma {:induction false} CountEndersNone(ss: seq<Syllable>)
    requires forall i :: 0 <= i < |ss| ==> !EndsWord(ss[i])
    ensures CountEnders(ss) == 0
    decreases |ss|
  {
    if ss != [] {
      CountEndersNone(ss[1..]);
    }
  }

  /** A word: non-empty, and only its last syllable may close it. */
  ghost predicate IsWord(w: seq<Syllable>) {
    w != [] && forall i :: 0 <= i < |w| - 1 ==> !EndsWord(w[i])
  }

  /** The shape `groupIntoWords` promises: the words concatenate to the input,
      each is a word, and every word but the last is closed by its last
      syllable. */
  ghost predicate IsWordPartition(ss: seq<Syllable>, ws: seq<seq<Syllable>>) {
    && Flatten(ws) == ss
    && (forall k :: 0 <= k < |ws| ==> IsWord(ws[k]))
    && (forall k :: 0 <= k < |ws| - 1 ==> EndsWord(ws[k][|ws[k]| - 1]))
  }

  /** Length of the first word of a non-empty run of syllables. */
  function FirstWordLength(ss: seq<Syllable>): (n: nat)
    requires ss != []
    ensures 1 <= n <= |ss|
    ensures forall i :: 0 <= i < n - 1 ==> !EndsWord(ss[i])
    ensures n < |ss| ==> EndsWord(ss[n - 1])
    decreases |ss|
  {
    if EndsWord(ss[0]) || |ss| == 1 then 1 else 1 + FirstWordLength(ss[1..])
  }

  /** The words of a syllable sequence, one word at a time from the front. */
  function Words(ss: seq<Syllable>): (ws: seq<seq<Syllable>>)
    ensures ss == [] <==> ws == []
    decreases |ss|
  {
    if ss == [] then [] else [ss[..FirstWordLength(ss)]] + Words(ss[FirstWordLength(ss)..])
  }

  /** A partition is its first word followed by a partition of the rest. */
  lemma PartitionCons(ss: seq<Syllable>, w: seq<Syllable>, rest: seq<seq<Syllable>>)
    ensures IsWordPartition(ss, [w] + rest) <==>
              && IsWord(w)
              && (rest != [] ==> EndsWord(w[|w| - 1]))
              && ss == w + Flatten(rest)
              && IsWordPartition(Flatten(rest), rest)
  {
    if IsWord(w) && (rest != [] ==> EndsWord(w[|w| - 1])) && ss == w + Flatten(rest) && IsWordPartition(Flatten(rest), rest) {
      PartitionConsIntro(ss, w, rest);
    }
    if IsWordPartition(ss, [w] + rest) {
      PartitionConsElim(ss, w, rest);
    }
  }

  lemma PartitionConsIntro(ss: seq<Syllable>, w: seq<Syllable>, rest: seq<seq<Syllable>>)
    requires IsWord(w) && (rest != [] ==> EndsWord(w[|w| - 1]))
    requires ss == w + Flatten(rest) && IsWordPartition(Flatten(rest), rest)
    ensures IsWordPartition(ss, [w] + rest)
  {
    var ws := [w] + rest;
    assert ws[1..] == rest;
    forall k | 0 <= k < |ws|
      ensures IsWord(ws[k])
    {
      if k > 0 { assert ws[k] == rest[k - 1]; }
    }
    forall k | 0 <= k < |ws| - 1
      ensures EndsWord(ws[k][|ws[k]| - 1])
    {
      if k > 0 { assert ws[k] == rest[k - 1]; }
    }
  }

  lemma PartitionConsElim(ss: seq<Syllable>, w: seq<Syllable>, rest: seq<seq<Syllable>>)
    requires IsWordPartition(ss, [w] + rest)
    ensures IsWord(w) && (rest != [] ==> EndsWord(w[|w| - 1]))
    ensures ss == w + Flatten(rest) && IsWordPartition(Flatten(rest), rest)
  {
    var ws := [w] + rest;
    assert ws[0] == w && ws[1..] == rest;
    forall k | 0 <= k < |rest|
      ensures IsWord(rest[k])
    {
      assert rest[k] == ws[k + 1];
    }
    forall k | 0 <= k < |rest| - 1
      ensures EndsWord(rest[k][|rest[k]| - 1])
    {
      assert rest[k] == ws[k + 1];
    }
  }

  lemma {:induction false} WordsIsPartition(ss: seq<Syllable>)
    ensures IsWordPartition(ss, Words(ss))
    decreases |ss|
  {
    if ss != [] {
      var n := FirstWordLength(ss);
      WordsIsPartition(ss[n..]);
      assert ss == ss[..n] + ss[n..];
      PartitionCons(ss, ss[..n], Words(ss[n..]));
    }
  }

  /** The partition into words is unique: any sequence of words with the
      shape of `IsWordPartition` is the one `Words` computes. */
  lemma {:induction false} WordPartitionUnique(ss: seq<Syllable>, ws: seq<seq<Syllable>>)
    requires IsWordPartition(ss, ws)
    ensures ws == Words(ss)
    decreases |ss|
  {
    if ws != [] {
      var w, rest := ws[0], ws[1..];
      assert ws == [w] + rest;
      PartitionCons(ss, w, rest);
      forall i | 0 <= i < |w| - 1
        ensures !EndsWord(ss[i])
      {
        assert ss[i] == w[i];
      }
      if rest != [] {
        assert ss[|w| - 1] == w[|w| - 1];
      }
      FirstWordLengthIs(ss, |w|);
      assert w == ss[..|w|];
      assert Flatten(rest) == ss[|w|..];
      WordPartitionUnique(ss[|w|..], rest);
    }
  }

  lemma FirstWordLengthIs(ss: seq<Syllable>, n: nat)
    requires 1 <= n <= |ss|
    requires forall i :: 0 <= i < n - 1 ==> !EndsWord(ss[i])
    requires n == |ss| || EndsWord(ss[n - 1])
    ensures FirstWordLength(ss) == n
  {
  }

  /** Words each closed by their last syllable. */
  ghost predicate AllClosed(ws: seq<seq<Syllable>>) {
    forall k :: 0 <= k < |ws| ==> IsWord(ws[k]) && EndsWord(ws[k][|ws[k]| - 1])
  }

  /** Closing a word keeps every collected word closed. */
  lemma CloseWord(words: seq<seq<Syllable>>, w: seq<Syllable>)
    requires AllClosed(words) && IsWord(w) && EndsWord(w[|w| - 1])
    ensures AllClosed(words + [w])
    ensures Flatten(words + [w]) == Flatten(words) + w
  {
    FlattenAppend(words, [w]);
    assert Flatten([w]) == w;
    assert forall k :: 0 <= k < |words| ==> (words + [w])[k] == words[k];
  }

  /** Closed words followed by an open run with no closing syllable form the
      partition, the open run (if any) becoming the last word. */
  lemma FinishWords(ss: seq<Syllable>, words: seq<seq<Syllable>>, current: seq<Syllable>)
    requires AllClosed(words)
    requires forall m :: 0 <= m < |current| ==> !EndsWord(current[m])
    requires Flatten(words) + current == ss
    ensures IsWordPartition(ss, if current != [] then words + [current] else words)
  {
    if current != [] {
      FlattenAppend(words, [current]);
      assert Flatten([current]) == current;
      var ws := words + [current];
      forall k | 0 <= k < |ws| ensures IsWord(ws[k]) {
        if k < |words| { assert ws[k] == words[k]; }
      }
      forall k | 0 <= k < |ws| - 1 ensures EndsWord(ws[k][|ws[k]| - 1]) {
        assert ws[k] == words[k];
      }
    } else {
      assert current == [] && Flatten(words) == ss;
      forall k | 0 <= k < |words| ensures IsWord(words[k]) { }
    }
  }

  lemma ExtendRun(ss: seq<Syllable>, done: seq<Syllable>, current: seq<Syllable>, i: nat)
    requires i < |ss| && done + current == ss[..i]
    ensures done + (current + [ss[i]]) == ss[..i + 1]
  {
    assert ss[..i + 1] == ss[..i] + [ss[i]];
  }

  /** `groupIntoWords`: the words are collected by one pass that appends each
      syllable to the current word and closes the word after a syllable with
      trailing whitespace. */
  method GroupIntoWords(syllables: seq<Syllable>) returns (words: seq<seq<Syllable>>)
    ensures IsWordPartition(syllables, words)
    ensures words == Words(syllables)
    ensures syllables == [] ==> words == []
  {
    if syllables == [] {
      WordsIsPartition(syllables);
      return [];
    }
    words := [];
    var currentWord: seq<Syllable> := [];
    var i := 0;
    while i < |syllables|
      invariant 0 <= i <= |syllables|
      invariant AllClosed(words)
      invariant forall m :: 0 <= m < |currentWord| ==> !EndsWord(currentWord[m])
      invariant Flatten(words) + currentWord == syllables[..i]
    {
      var syllable := syllables[i];
      ExtendRun(syllables, Flatten(words), currentWord, i);
      currentWord := currentWord + [syllable];
      TrailingWhitespaceIsLastChar(syllable.content);
      if |TrimEnd(syllable.content)| < |syllable.content| {
        CloseWord(words, currentWord);
        words := words + [currentWord];
        currentWord := [];
        assert Flatten(words) + currentWord == syllables[..i + 1];
      }
      i := i + 1;
    }
    assert syllables[..i] == syllables;
    FinishWords(syllables, words, currentWord);
    if currentWord != [] {
      words := words + [currentWord];
    }
    WordPartitionUnique(syllables, words);
  }

  const FastCharAnimationThresholdMs: real := 200.0

  /** The word's syllable texts joined in order. */
  function WordContent(word: seq<Syllable>): (r: string)
    decreases |word|
  {
    if word == [] then [] else word[0].content + WordContent(word[1..])
  }

  /** Last end minus first start; 0 for an empty word. */
  function WordDuration(word: seq<Syllable>): int {
    if word != [] then word[|word| - 1].end - word[0].start else 0
  }

  /** Duration per character, or 0 when the word has no characters or no
      positive duration. It exceeds a non-negative threshold exactly when the
      word lasts longer than that threshold times its character count. */
  function PerCharDuration(word: seq<Syllable>): (r: real)
    ensures r >= 0.0
    ensures r > 0.0 ==> |WordContent(word)| > 0 && WordDuration(word) > 0
    ensures r > FastCharAnimationThresholdMs <==>
              |WordContent(word)| > 0
              && WordDuration(word) as real > FastCharAnimationThresholdMs * |WordContent(word)| as real
  {
    var content := WordContent(word);
    var duration := WordDuration(word);
    if |content| > 0 && duration > 0 then
      QuotientAbove(duration as real, |content| as real, FastCharAnimationThresholdMs);
      duration as real / |content| as real
    else 0.0
  }

  lemma QuotientAbove(n: real, d: real, t: real)
    requires n > 0.0 && d > 0.0
    ensures n / d > 0.0 && n / d * d == n
    ensures n / d > t <==> n > t * d
  {
    var q := n / d;
    assert q * d == n;
    if q > t {
      assert (q - t) * d > 0.0;
    } else {
      assert (t - q) * d >= 0.0;
    }
  }

  /** The per-character duration times the character count gives back the
      word duration when it is positive. */
  lemma PerCharDurationSpec(word: seq<Syllable>)
    ensures var r := PerCharDuration(word);
            r * (|WordContent(word)| as real) == if r > 0.0 then WordDuration(word) as real else 0.0
  {
    var content := WordContent(word);
    var duration := WordDuration(word);
    if |content| > 0 && duration > 0 {
      QuotientAbove(duration as real, |content| as real, FastCharAnimationThresholdMs);
    }
  }

  /** The characters left after dropping whitespace and punctuation. */
  function CleanedContent(s: string, scripts: Scripts): (r: string)
    ensures |r| <= |s|
    ensures forall i :: 0 <= i < |r| ==> !IsWhitespace(r[i]) && !scripts.isPunctuation([r[i]])
    ensures forall c :: c in r <==> c in s && !IsWhitespace(c) && !scripts.isPunctuation([c])
    decreases |s|
  {
    if s == [] then []
    else
      var rest := CleanedContent(s[1..], scripts);
      if !IsWhitespace(s[0]) && !scripts.isPunctuation([s[0]]) then [s[0]] + rest else rest
  }

  /** `shouldUseSimpleAnimation`: words in scripts unsuited to per-character
      stagger (purely CJK, or with any Arabic or Devanagari character); a word
      with nothing left after cleaning never counts as simple. */
  predicate ShouldUseSimpleAnimation(s: string, scripts: Scripts) {
    var cleaned := CleanedContent(s, scripts);
    && cleaned != []
    && (|| scripts.isPureCjk(cleaned)
        || exists i :: 0 <= i < |cleaned| && (scripts.isArabic(cleaned[i]) || scripts.isDevanagari(cleaned[i])))
  }

  /** The word-wide animation flag. */
  function UseAwesomeAnimation(word: seq<Syllable>, scripts: Scripts, isAccompanimentLine: bool): (r: bool)
    ensures r ==> !isAccompanimentLine
    ensures r ==> WordDuration(word) >= 1000
    ensures r ==> PerCharDuration(word) > FastCharAnimationThresholdMs
    ensures r ==> !ShouldUseSimpleAnimation(WordContent(word), scripts)
    ensures r ==> |WordContent(word)| > 0
  {
    && PerCharDuration(word) > FastCharAnimationThresholdMs
    && WordDuration(word) >= 1000
    && !ShouldUseSimpleAnimation(WordContent(word), scripts)
    && !isAccompanimentLine
  }

  /** A freshly measured layout: no position, pivot, word timing or offset yet. */
  function InitialLayout(s: Syllable, measure: Measurer, wordId: nat, awesome: bool): SyllableLayout {
    var size := measure(s.content);
    SyllableLayout(s, size.width, size.height, wordId, awesome, Point(0.0, 0.0), Point(0.0, 0.0), None, 0)
  }

  /** The layouts of the words `ws`, numbered from `firstId`, word k carrying
      flag `flags[k]` (the body of the `flatMapIndexed`). */
  function LayoutWords(ws: seq<seq<Syllable>>, flags: seq<bool>, firstId: nat, measure: Measurer): (r: seq<SyllableLayout>)
    requires |flags| == |ws|
    ensures |r| == |Flatten(ws)|
    decreases |ws|
  {
    if ws == [] then []
    else
      assert Flatten(ws) == ws[0] + Flatten(ws[1..]);
      LayoutWord(ws[0], flags[0], firstId, measure) + LayoutWords(ws[1..], flags[1..], firstId + 1, measure)
  }

  /** The layouts of one word (the inner `word.map`). */
  function LayoutWord(w: seq<Syllable>, flag: bool, wordId: nat, measure: Measurer): (r: seq<SyllableLayout>)
    ensures |r| == |w|
    ensures forall k :: 0 <= k < |w| ==> r[k] == InitialLayout(w[k], measure, wordId, flag)
  {
    seq(|w|, k requires 0 <= k < |w| => InitialLayout(w[k], measure, wordId, flag))
  }

  /** Every layout of `LayoutWords` is the measured syllable at its place. */
  lemma {:induction false} LayoutWordsMeasured(ws: seq<seq<Syllable>>, flags: seq<bool>, firstId: nat, measure: Measurer)
    requires |flags| == |ws|
    ensures var r := LayoutWords(ws, flags, firstId, measure);
            forall i :: 0 <= i < |r| ==>
              && r[i] == InitialLayout(Flatten(ws)[i], measure, r[i].wordId, r[i].useAwesomeAnimation)
              && r[i].wordId >= firstId
    decreases |ws|
  {
    if ws != [] {
      var w := ws[0];
      var r := LayoutWords(ws, flags, firstId, measure);
      var tail := LayoutWords(ws[1..], flags[1..], firstId + 1, measure);
      LayoutWordsMeasured(ws[1..], flags[1..], firstId + 1, measure);
      assert Flatten(ws) == w + Flatten(ws[1..]);
      forall i | 0 <= i < |r|
        ensures r[i] == InitialLayout(Flatten(ws)[i], measure, r[i].wordId, r[i].useAwesomeAnimation)
        ensures r[i].wordId >= firstId
      {
        if i >= |w| {
          assert r[i] == tail[i - |w|];
          assert Flatten(ws)[i] == Flatten(ws[1..])[i - |w|];
        }
      }
    }
  }

  /** The flag of each word. */
  function WordFlags(ws: seq<seq<Syllable>>, scripts: Scripts, isAccompanimentLine: bool): (r: seq<bool>)
    ensures |r| == |ws|
    ensures forall k :: 0 <= k < |ws| ==> r[k] == UseAwesomeAnimation(ws[k], scripts, isAccompanimentLine)
  {
    seq(|ws|, k requires 0 <= k < |ws| => UseAwesomeAnimation(ws[k], scripts, isAccompanimentLine))
  }

  /** `measureSyllablesAndDetermineAnimation`: one measured layout per
      syllable, in input order. */
  function MeasureSyllablesAndDetermineAnimation(syllables: seq<Syllable>, measure: Measurer, scripts: Scripts,
                                                 isAccompanimentLine: bool): (r: seq<SyllableLayout>)
    ensures |r| == |syllables|
    ensures forall i :: 0 <= i < |r| ==>
              && r[i].syllable == syllables[i]
              && r[i].width == measure(syllables[i].content).width
              && r[i].height == measure(syllables[i].content).height
  {
    WordsIsPartition(syllables);
    var ws := Words(syllables);
    var flags := WordFlags(ws, scripts, isAccompanimentLine);
    LayoutWordsMeasured(ws, flags, 0, measure);
    LayoutWords(ws, flags, 0, measure)
  }

  /** How `LayoutWords` splits: the first word's layouts carry `firstId` and
      its flag, the rest are the layouts of the remaining words. */
  lemma LayoutWordsSplit(ws: seq<seq<Syllable>>, flags: seq<bool>, firstId: nat, measure: Measurer)
    requires ws != [] && |flags| == |ws|
    ensures var r := LayoutWords(ws, flags, firstId, measure);
            var rr := LayoutWords(ws[1..], flags[1..], firstId + 1, measure);
            && |r| == |ws[0]| + |rr|
            && (forall k :: 0 <= k < |ws[0]| ==> r[k].wordId == firstId && r[k].useAwesomeAnimation == flags[0])
            && (forall k :: |ws[0]| <= k < |r| ==> r[k] == rr[k - |ws[0]|])
  {
  }

  /** Word numbering and flag of the layout at flat index `i` of
      `LayoutWords` over a word partition: its id is `firstId` plus the number
      of word-closing syllables before it, and its flag is its word's flag. */
  lemma {:induction false} LayoutWordsIdAt(ws: seq<seq<Syllable>>, flags: seq<bool>, firstId: nat, measure: Measurer, i: nat)
    requires |flags| == |ws|
    requires IsWordPartition(Flatten(ws), ws)
    requires i < |Flatten(ws)|
    ensures var r := LayoutWords(ws, flags, firstId, measure);
            && r[i].wordId == firstId + CountEnders(Flatten(ws)[..i])
            && r[i].wordId - firstId < |ws|
            && r[i].useAwesomeAnimation == flags[r[i].wordId - firstId]
    decreases |ws|, 1
  {
    assert ws != [];
    if i < |ws[0]| {
      LayoutWordsIdInFirst(ws, flags, firstId, measure, i);
    } else {
      LayoutWordsIdInRest(ws, flags, firstId, measure, i);
    }
  }

  lemma LayoutWordsIdInFirst(ws: seq<seq<Syllable>>, flags: seq<bool>, firstId: nat, measure: Measurer, i: nat)
    requires |flags| == |ws|
    requires IsWordPartition(Flatten(ws), ws)
    requires ws != [] && i < |ws[0]|
    ensures i < |Flatten(ws)|
    ensures var r := LayoutWords(ws, flags, firstId, measure);
            && r[i].wordId == firstId + CountEnders(Flatten(ws)[..i])
            && r[i].wordId - firstId < |ws|
            && r[i].useAwesomeAnimation == flags[r[i].wordId - firstId]
  {
    var w, rest := ws[0], ws[1..];
    var ss := Flatten(ws);
    var r := LayoutWords(ws, flags, firstId, measure);
    assert ss == w + Flatten(rest);
    assert r[i].wordId == firstId && r[i].useAwesomeAnimation == flags[0] by {
      LayoutWordsSplit(ws, flags, firstId, measure);
    }
    assert CountEnders(ss[..i]) == 0 by {
      assert ws == [w] + rest;
      PartitionConsElim(ss, w, rest);
      assert ss[..i] == w[..i];
      CountEndersNone(w[..i]);
    }
  }

  lemma {:induction false} LayoutWordsIdInRest(ws: seq<seq<Syllable>>, flags: seq<bool>, firstId: nat, measure: Measurer, i: nat)
    requires |flags| == |ws|
    requires IsWordPartition(Flatten(ws), ws)
    requires ws != [] && |ws[0]| <= i < |Flatten(ws)|
    ensures var r := LayoutWords(ws, flags, firstId, measure);
            && r[i].wordId == firstId + CountEnders(Flatten(ws)[..i])
            && r[i].wordId - firstId < |ws|
            && r[i].useAwesomeAnimation == flags[r[i].wordId - firstId]
    decreases |ws|, 0
  {
    var w, rest := ws[0], ws[1..];
    var k := i - |w|;
    var rr := LayoutWords(rest, flags[1..], firstId + 1, measure);
    LayoutWordsIdRestFacts(ws, flags, firstId, measure, i);
    assert && rr[k].wordId == firstId + 1 + CountEnders(Flatten(rest)[..k])
           && rr[k].wordId - firstId < |ws|
           && rr[k].useAwesomeAnimation == flags[rr[k].wordId - firstId] by {
      LayoutWordsIdAt(rest, flags[1..], firstId + 1, measure, k);
      var j := rr[k].wordId - (firstId + 1);
      assert flags[1..][j] == flags[j + 1];
    }
  }

  /** What `LayoutWordsIdInRest` needs about a flat index past the first
      word: it lands in the layouts of the rest, which is a partition itself,
      one more closed word having been counted. */
  lemma LayoutWordsIdRestFacts(ws: seq<seq<Syllable>>, flags: seq<bool>, firstId: nat, measure: Measurer, i: nat)
    requires |flags| == |ws|
    requires IsWordPartition(Flatten(ws), ws)
    requires ws != [] && |ws[0]| <= i < |Flatten(ws)|
    ensures var w, rest, k := ws[0], ws[1..], i - |ws[0]|;
            && k < |Flatten(rest)|
            && IsWordPartition(Flatten(rest), rest)
            && LayoutWords(ws, flags, firstId, measure)[i] == LayoutWords(rest, flags[1..], firstId + 1, measure)[k]
            && CountEnders(Flatten(ws)[..i]) == 1 + CountEnders(Flatten(rest)[..k])
  {
    var w, rest := ws[0], ws[1..];
    var ss := Flatten(ws);
    assert ss == w + Flatten(rest);
    var k := i - |w|;
    assert LayoutWords(ws, flags, firstId, measure)[i] == LayoutWords(rest, flags[1..], firstId + 1, measure)[k] by {
      LayoutWordsSplit(ws, flags, firstId, measure);
    }
    assert IsWord(w) && EndsWord(w[|w| - 1]) && IsWordPartition(Flatten(rest), rest) by {
      assert ws == [w] + rest;
      PartitionConsElim(ss, w, rest);
    }
    assert CountEnders(ss[..i]) == 1 + CountEnders(Flatten(rest)[..k]) by {
      CountEndersPastWord(w, Flatten(rest), k);
      assert ss[..i] == (w + Flatten(rest))[..|w| + k];
    }
  }

  /** Past a closed word, the count of closing syllables is one more than
      within the rest. */
  lemma CountEndersPastWord(w: seq<Syllable>, rest: seq<Syllable>, k: nat)
    requires IsWord(w) && EndsWord(w[|w| - 1])
    requires k <= |rest|
    ensures CountEnders((w + rest)[..|w| + k]) == 1 + CountEnders(rest[..k])
  {
    assert (w + rest)[..|w| + k] == w + rest[..k];
    CountEndersAppend(w, rest[..k]);
    assert w == w[..|w| - 1] + [w[|w| - 1]];
    CountEndersAppend(w[..|w| - 1], [w[|w| - 1]]);
    CountEndersNone(w[..|w| - 1]);
    assert CountEnders([w[|w| - 1]]) == 1;
  }

  lemma CountEndersStep(ss: seq<Syllable>, i: nat)
    requires i < |ss|
    ensures CountEnders(ss[..i + 1]) == CountEnders(ss[..i]) + (if EndsWord(ss[i]) then 1 else 0)
  {
    assert ss[..i + 1] == ss[..i] + [ss[i]];
    CountEndersAppend(ss[..i], [ss[i]]);
  }

  /** The word numbering promised by `measureSyllablesAndDetermineAnimation`:
      the id of syllable i counts the syllables with trailing whitespace
      before it, so the first syllable is in word 0 and the id steps by one
      exactly after a syllable with trailing whitespace; each id names a word
      of `groupIntoWords`, the word that holds the syllable. */
  lemma MeasureWordIds(syllables: seq<Syllable>, measure: Measurer, scripts: Scripts, isAccompanimentLine: bool)
    ensures var r := MeasureSyllablesAndDetermineAnimation(syllables, measure, scripts, isAccompanimentLine);
            && (forall i :: 0 <= i < |r| ==> r[i].wordId == CountEnders(syllables[..i]))
            && (r != [] ==> r[0].wordId == 0)
            && (forall i :: 0 <= i < |r| - 1 ==>
                  r[i + 1].wordId == r[i].wordId + (if EndsWord(syllables[i]) then 1 else 0))
            && (forall i :: 0 <= i < |r| ==> r[i].wordId < |Words(syllables)|)
            && (forall i :: 0 <= i < |r| ==>
                  r[i].useAwesomeAnimation == UseAwesomeAnimation(Words(syllables)[r[i].wordId], scripts, isAccompanimentLine))
  {
    var r := MeasureSyllablesAndDetermineAnimation(syllables, measure, scripts, isAccompanimentLine);
    forall i | 0 <= i < |r|
      ensures r[i].wordId == CountEnders(syllables[..i])
      ensures r[i].wordId < |Words(syllables)|
      ensures r[i].useAwesomeAnimation == UseAwesomeAnimation(Words(syllables)[r[i].wordId], scripts, isAccompanimentLine)
    {
      MeasureWordIdAt(syllables, measure, scripts, isAccompanimentLine, i);
    }
    forall i | 0 <= i < |r| - 1
      ensures r[i + 1].wordId == r[i].wordId + (if EndsWord(syllables[i]) then 1 else 0)
    {
      CountEndersStep(syllables, i);
    }
    if r != [] {
      assert syllables[..0] == [];
    }
  }

  lemma MeasureWordIdAt(syllables: seq<Syllable>, measure: Measurer, scripts: Scripts, isAccompanimentLine: bool, i: nat)
    requires i < |syllables|
    ensures var r := MeasureSyllablesAndDetermineAnimation(syllables, measure, scripts, isAccompanimentLine);
            && r[i].wordId == CountEnders(syllables[..i])
            && r[i].wordId < |Words(syllables)|
            && r[i].useAwesomeAnimation == UseAwesomeAnimation(Words(syllables)[r[i].wordId], scripts, isAccompanimentLine)
  {
    var ws := Words(syllables);
    WordsIsPartition(syllables);
    PartitionWordIdAt(syllables, ws, measure, scripts, isAccompanimentLine, i);
    assert MeasureSyllablesAndDetermineAnimation(syllables, measure, scripts, isAccompanimentLine)
           == LayoutWords(ws, WordFlags(ws, scripts, isAccompanimentLine), 0, measure);
  }

  /** The same over any word partition of the syllables. */
  lemma PartitionWordIdAt(syllables: seq<Syllable>, ws: seq<seq<Syllable>>, measure: Measurer, scripts: Scripts,
                          isAccompanimentLine: bool, i: nat)
    requires IsWordPartition(syllables, ws) && i < |syllables|
    ensures var r := LayoutWords(ws, WordFlags(ws, scripts, isAccompanimentLine), 0, measure);
            && i < |r|
            && r[i].wordId == CountEnders(syllables[..i])
            && r[i].wordId < |ws|
            && r[i].useAwesomeAnimation == UseAwesomeAnimation(ws[r[i].wordId], scripts, isAccompanimentLine)
  {
    var flags := WordFlags(ws, scripts, isAccompanimentLine);
    LayoutWordsIdAt(ws, flags, 0, measure, i);
  }

  /** The flag promised by `measureSyllablesAndDetermineAnimation`: syllables
      of one word agree on it, and a syllable flagged awesome belongs to a word
      that is not on an accompaniment line, lasts at least 1000 ms and has
      more than 200 ms per character. */
  lemma MeasureAwesomeFlags(syllables: seq<Syllable>, measure: Measurer, scripts: Scripts, isAccompanimentLine: bool)
    ensures var r := MeasureSyllablesAndDetermineAnimation(syllables, measure, scripts, isAccompanimentLine);
            forall i, j :: 0 <= i < |r| && 0 <= j < |r| && r[i].wordId == r[j].wordId ==>
              r[i].useAwesomeAnimation == r[j].useAwesomeAnimation
    ensures var r := MeasureSyllablesAndDetermineAnimation(syllables, measure, scripts, isAccompanimentLine);
            forall i :: 0 <= i < |r| && r[i].useAwesomeAnimation ==>
              && r[i].wordId < |Words(syllables)|
              && !isAccompanimentLine
              && WordDuration(Words(syllables)[r[i].wordId]) >= 1000
              && WordDuration(Words(syllables)[r[i].wordId]) as real
                 > FastCharAnimationThresholdMs * |WordContent(Words(syllables)[r[i].wordId])| as real
  {
    var r := MeasureSyllablesAndDetermineAnimation(syllables, measure, scripts, isAccompanimentLine);
    var ws := Words(syllables);
    assert && (forall i :: 0 <= i < |r| ==> r[i].wordId < |ws|)
           && (forall i :: 0 <= i < |r| ==>
                 r[i].useAwesomeAnimation == UseAwesomeAnimation(ws[r[i].wordId], scripts, isAccompanimentLine)) by {
      MeasureWordIds(syllables, measure, scripts, isAccompanimentLine);
    }
    WordFlagFacts(r, ws, scripts, isAccompanimentLine);
  }

  lemma WordFlagFacts(r: seq<SyllableLayout>, ws: seq<seq<Syllable>>, scripts: Scripts, isAccompanimentLine: bool)
    requires forall i :: 0 <= i < |r| ==> r[i].wordId < |ws|
    requires forall i :: 0 <= i < |r| ==>
               r[i].useAwesomeAnimation == UseAwesomeAnimation(ws[r[i].wordId], scripts, isAccompanimentLine)
    ensures forall i, j :: 0 <= i < |r| && 0 <= j < |r| && r[i].wordId == r[j].wordId ==>
              r[i].useAwesomeAnimation == r[j].useAwesomeAnimation
    ensures forall i :: 0 <= i < |r| && r[i].useAwesomeAnimation ==>
              var word := ws[r[i].wordId];
              && !isAccompanimentLine
              && WordDuration(word) >= 1000
              && WordDuration(word) as real > FastCharAnimationThresholdMs * |WordContent(word)| as real
  {
  }
}
