# Karaoke line layout and animation

This project models the layout core of Accompanist's karaoke lyric line,
`KaraokeLineText.kt`. A lyric line arrives as a list of timed syllables.
The core:

- groups the syllables into words. A word ends after a syllable whose text
  has trailing whitespace.
- measures each syllable and decides, once per word, whether the word gets
  the per-character "awesome" animation.
- breaks the syllables into display rows of at most the available width.
  There are two strategies: a greedy one, and a balanced one that minimises
  the sum of the squared slack of the rows and falls back to greedy when no
  balanced break exists.
- cuts trailing blank syllables and trailing whitespace off every row.
- positions every syllable on its row, left to right or right to left, under
  one of three alignments. Each syllable is then given its word's scale
  pivot, its word's timing and its character offset inside the word.
- every frame, turns the current time into a per-row highlight gradient: the
  sung/unsung boundary, a fixed-width fade band around it, and four colour
  stops ordered by text direction.
- every frame, staggers the animation start of each character across its
  word, and finds the syllable whose timing drives the rise of a
  punctuation syllable.

The modules follow the structure of the source file:

| module | file | covers |
|---|---|---|
| `Text` | text.dfy | Kotlin's `isWhitespace`, `isBlank`, `trimEnd`, `trim` on `seq<char>` |
| `KaraokeTypes` | types.dfy | syllables, `SyllableLayout`, `WordAnimationInfo`, `WrappedLine`, aggregates over rows |
| `Words` | words.dfy | `groupIntoWords`, `shouldUseSimpleAnimation`, `measureSyllablesAndDetermineAnimation` |
| `LineBreaking` | breaking.dfy | `trimDisplayLineTrailingSpaces`, `calculateGreedyWrappedLines` |
| `BalancedBreaking` | balanced.dfy | `calculateBalancedLines` (the dynamic programme and its reconstruction) |
| `StaticLayout` | static.dfy | `calculateStaticLineLayout` (its three passes) |
| `Gradient` | gradient.dfy | `createLineGradientBrush` |
| `CharAnimation` | animation.dfy | the stagger arithmetic of `drawLine`, the dip and swell amplitudes, the punctuation search and its rise progress |

Each imperative function of the source becomes a `method` with the same
loops. Each method is proved equal to a specification function, and the
properties are proved about that function as lemmas:

- `GroupIntoWords` computes `Words`.
- `TrimDisplayLineTrailingSpaces` computes `TrimmedLine`.
- `CalculateGreedyWrappedLines` computes `GreedyLines`.
- `CalculateBalancedLines` keeps the source's `costs` and `breaks` arrays and computes `BalancedLines`.
- `CalculateStaticLineLayout` keeps the `layoutsByWord`, `animInfoByWord` and `charOffsetsBySyllable` maps and computes `StaticLineLayout`.
- `FindProgressSyllable` computes `ProgressSyllableIndex`.

Parts of the source that are expression code become functions.

External parts of the source become parameters:
- Text measurement is a parameter `Measurer` (a function from a string to a width and a height).
- The script classifiers `isPunctuation`, `isPureCjk`, `isArabic` and `isDevanagari` are fields of a `Scripts` record of functions. So every property holds for any measurer and any classifier.

Numbers:
- `Float` and `Double` are `real`.
- Times are `int`.
- `toLong()` is truncation toward zero (`TruncateToInt`).
- A float division by zero is written out. A non-zero numerator gives ±∞, which `coerceIn` clamps. 0/0 gives NaN, modelled as `None`.

In the trimming code, the branch that drops the last syllable when its trimmed text is empty (lines 735-737) cannot run. The loop before it has already removed every trailing blank syllable, and a syllable that is not blank never trims to nothing. `TrimDisplayLineTrailingSpaces` proves that branch dead.

When the last syllable is re-measured, the source replaces its text layout result and its width. In the model, a layout's `height` stands for the height of that text layout result, so both width and height come from the new measurement.

The gradient's colour stops follow the text direction. The code (lines 377-394) puts the active colour first for left-to-right rows and last for right-to-left rows. The model follows the code, and `GradientStopsWellFormed` states that order.

## Model

Source paths are relative to the repository root.

| member | source | states |
|---|---|---|
| Text.TrimEnd | src/src/commonMain/kotlin/com/mocharealm/accompanist/lyrics/ui/composable/lyrics/KaraokeLineText.kt:95 | `trimEnd` yields a prefix of the string. It ends in a non-whitespace character or is empty, and everything it drops is whitespace. |
| Text.TrimSpec | src/src/commonMain/kotlin/com/mocharealm/accompanist/lyrics/ui/composable/lyrics/KaraokeLineText.kt:502-511 | `trim` yields a contiguous slice with only whitespace cut at either end. The slice neither starts nor ends in whitespace. |
| Text.BlankIffTrimEndEmpty | src/src/commonMain/kotlin/com/mocharealm/accompanist/lyrics/ui/composable/lyrics/KaraokeLineText.kt:713-737 | A string is blank exactly when `trimEnd` leaves nothing. This links the blank-dropping loop to the empty-trim case of the trimming code. |
| Words.GroupIntoWords | src/src/commonMain/kotlin/com/mocharealm/accompanist/lyrics/ui/composable/lyrics/KaraokeLineText.kt:89-104 | The loop's words partition the syllables in order: each word is non-empty, only a word's last syllable may carry trailing whitespace, and every word but the last ends with one that does. The result equals `Words`, and no syllables give no words. |
| Words.WordsIsPartition | src/src/commonMain/kotlin/com/mocharealm/accompanist/lyrics/ui/composable/lyrics/KaraokeLineText.kt:89-104 | The word split is a partition of the syllables with word boundaries exactly after trailing-whitespace syllables. |
| Words.WordPartitionUnique | src/src/commonMain/kotlin/com/mocharealm/accompanist/lyrics/ui/composable/lyrics/KaraokeLineText.kt:89-104 | That partition is unique. Any partition with those boundaries is the one `groupIntoWords` returns. |
| Words.PerCharDuration | src/src/commonMain/kotlin/com/mocharealm/accompanist/lyrics/ui/composable/lyrics/KaraokeLineText.kt:119-125 | The per-character duration is never negative, and positive only for a word with content and positive duration. It exceeds 200 ms exactly when the word has content and lasts more than 200 ms per character. |
| Words.PerCharDurationSpec | src/src/commonMain/kotlin/com/mocharealm/accompanist/lyrics/ui/composable/lyrics/KaraokeLineText.kt:119-125 | Times the content length, the per-character duration gives back the word duration when it is positive, and 0 otherwise. |
| Words.CleanedContent | src/src/commonMain/kotlin/com/mocharealm/accompanist/lyrics/ui/composable/lyrics/KaraokeLineText.kt:82 | The filtered string keeps exactly the characters of the input that are neither whitespace nor punctuation: every character it holds is one of those, and every one of those in the input is in it. It is no longer than the input. |
| Words.UseAwesomeAnimation | src/src/commonMain/kotlin/com/mocharealm/accompanist/lyrics/ui/composable/lyrics/KaraokeLineText.kt:127-130 | A word animates per character only when all of these hold: it is not on an accompaniment line, it lasts at least 1000 ms, it has content, it has more than 200 ms per character, and it is not text for the simple animation. |
| Words.MeasureSyllablesAndDetermineAnimation | src/src/commonMain/kotlin/com/mocharealm/accompanist/lyrics/ui/composable/lyrics/KaraokeLineText.kt:109-141 | There is one layout per syllable, in input order, carrying the syllable and its measured width and height. |
| Words.MeasureWordIds | src/src/commonMain/kotlin/com/mocharealm/accompanist/lyrics/ui/composable/lyrics/KaraokeLineText.kt:132-139 | A syllable's word id is the number of word boundaries before it: the first is 0, and the id goes up by one exactly after a trailing-whitespace syllable. Every id indexes a word, and the flag is the animation decision for that word. |
| Words.MeasureAwesomeFlags | src/src/commonMain/kotlin/com/mocharealm/accompanist/lyrics/ui/composable/lyrics/KaraokeLineText.kt:127-139 | Syllables of one word share one flag. A flagged syllable's word lasts at least 1000 ms, has more than 200 ms per character, and is not on an accompaniment line. |
| LineBreaking.DropTrailingBlank | src/src/commonMain/kotlin/com/mocharealm/accompanist/lyrics/ui/composable/lyrics/KaraokeLineText.kt:713-716 | The loop removes exactly the trailing run of blank syllables: what is left is a prefix that is empty or ends in a non-blank syllable, and everything removed is blank. |
| LineBreaking.RemoveTrailingBlank | src/src/commonMain/kotlin/com/mocharealm/accompanist/lyrics/ui/composable/lyrics/KaraokeLineText.kt:713-716 | The index-based removal loop leaves exactly `DropTrailingBlank` of the row. |
| LineBreaking.CutLastSpec | src/src/commonMain/kotlin/com/mocharealm/accompanist/lyrics/ui/composable/lyrics/KaraokeLineText.kt:722-734 | The replaced last syllable of a row is not blank, so its trim is non-empty and ends in a non-whitespace character. When it had trailing whitespace, only its text, width and height change, with both sizes measured from the new text. Position, pivot, word timing, offset, word id and flag are kept. Otherwise it is left as it was. |
| LineBreaking.TrimmedLineSpec | src/src/commonMain/kotlin/com/mocharealm/accompanist/lyrics/ui/composable/lyrics/KaraokeLineText.kt:703-742 | Trailing blank syllables are removed, and the row is empty iff every syllable was blank. The kept syllables are unchanged except the last: its text loses its trailing whitespace and is non-empty, and it is re-measured exactly when something was cut. Then only its text, width and height change, both sizes measured from the new text; otherwise it is unchanged. The total width is the sum of the kept widths. |
| LineBreaking.TrimmedLineIdempotent | src/src/commonMain/kotlin/com/mocharealm/accompanist/lyrics/ui/composable/lyrics/KaraokeLineText.kt:703-742 | Trimming a trimmed row changes nothing. |
| LineBreaking.TrimDisplayLineTrailingSpaces | src/src/commonMain/kotlin/com/mocharealm/accompanist/lyrics/ui/composable/lyrics/KaraokeLineText.kt:703-742 | The in-place removal loop and the last-syllable replacement compute `TrimmedLine`. |
| LineBreaking.GreedyScanInvariant | src/src/commonMain/kotlin/com/mocharealm/accompanist/lyrics/ui/composable/lyrics/KaraokeLineText.kt:154-164 | Throughout the scan, the closed rows and the open row concatenate to the syllables seen. The running width is the open row's width. Every closed row is non-empty and either fits or is a single syllable. |
| LineBreaking.GreedySegmentsSpec | src/src/commonMain/kotlin/com/mocharealm/accompanist/lyrics/ui/composable/lyrics/KaraokeLineText.kt:144-175 | The rows before trimming concatenate to the input. Each is non-empty and fits or is one over-wide syllable. Each row but the last was closed because the next row's first syllable would have overflowed it. |
| LineBreaking.GreedyKeepsFittingRow | src/src/commonMain/kotlin/com/mocharealm/accompanist/lyrics/ui/composable/lyrics/KaraokeLineText.kt:144-175 | When all syllables fit on one row, the scan closes no row. Its open row is the whole input, with the input's total width as its running width. |
| LineBreaking.KeepTrimmedSpec | src/src/commonMain/kotlin/com/mocharealm/accompanist/lyrics/ui/composable/lyrics/KaraokeLineText.kt:157-170 | No more rows are emitted than segments, every emitted row is non-empty, and each is the trim of some segment. |
| LineBreaking.KeepTrimmedComplete | src/src/commonMain/kotlin/com/mocharealm/accompanist/lyrics/ui/composable/lyrics/KaraokeLineText.kt:157-170 | Every segment whose trim is non-empty is emitted. |
| LineBreaking.KeepTrimmedAllKeptAt | src/src/commonMain/kotlin/com/mocharealm/accompanist/lyrics/ui/composable/lyrics/KaraokeLineText.kt:157-170 | When no segment trims to nothing, row k is the trim of segment k, one row per segment. |
| LineBreaking.CalculateGreedyWrappedLines | src/src/commonMain/kotlin/com/mocharealm/accompanist/lyrics/ui/composable/lyrics/KaraokeLineText.kt:144-175 | The mutable scan computes `GreedyLines`. |
| BalancedBreaking.Badness | src/src/commonMain/kotlin/com/mocharealm/accompanist/lyrics/ui/composable/lyrics/KaraokeLineText.kt:197 | The badness of a row is never negative. |
| BalancedBreaking.InnerScanSound | src/src/commonMain/kotlin/com/mocharealm/accompanist/lyrics/ui/composable/lyrics/KaraokeLineText.kt:192-203 | A cost found by the inner loop belongs to a fitting last row that starts at a reachable break. |
| BalancedBreaking.InnerScanComplete | src/src/commonMain/kotlin/com/mocharealm/accompanist/lyrics/ui/composable/lyrics/KaraokeLineText.kt:192-203 | The inner loop stops only at an overflow. The cost it finds is no worse than any fitting last row from a reachable break among those it scanned. |
| BalancedBreaking.DpCostSound | src/src/commonMain/kotlin/com/mocharealm/accompanist/lyrics/ui/composable/lyrics/KaraokeLineText.kt:190-204 | A finite `costs[i]` is the cost at `breaks[i]` plus the badness of a fitting last row from there to i. |
| BalancedBreaking.DpCostStep | src/src/commonMain/kotlin/com/mocharealm/accompanist/lyrics/ui/composable/lyrics/KaraokeLineText.kt:190-204 | Local optimality: `costs[i]` is no worse than any reachable break followed by a fitting row. |
| BalancedBreaking.DpCutsSound | src/src/commonMain/kotlin/com/mocharealm/accompanist/lyrics/ui/composable/lyrics/KaraokeLineText.kt:210-218 | Following the breaks back from a finite cost gives rows that all fit, with total badness equal to that cost. |
| BalancedBreaking.DpCostOptimal | src/src/commonMain/kotlin/com/mocharealm/accompanist/lyrics/ui/composable/lyrics/KaraokeLineText.kt:190-204 | Global optimality: every way of cutting a prefix into fitting rows costs at least `costs` at its end. |
| BalancedBreaking.BalancedFeasibleIffEachFits | src/src/commonMain/kotlin/com/mocharealm/accompanist/lyrics/ui/composable/lyrics/KaraokeLineText.kt:206-208 | The greedy fallback is taken exactly when some syllable is wider than the available width. |
| BalancedBreaking.BalancedLinesOptimal | src/src/commonMain/kotlin/com/mocharealm/accompanist/lyrics/ui/composable/lyrics/KaraokeLineText.kt:177-221 | When any fitting cut exists, the returned rows are the trimmed rows of the reconstructed cuts. Those cuts fit and cost no more than any other fitting cut. |
| BalancedBreaking.BalancedLinesFollowCuts | src/src/commonMain/kotlin/com/mocharealm/accompanist/lyrics/ui/composable/lyrics/KaraokeLineText.kt:206-218 | When the programme reaches the end of the row, no greedy fallback happens, and the result is the trimmed rows of the cuts the breaks point to. |
| BalancedBreaking.FillCost | src/src/commonMain/kotlin/com/mocharealm/accompanist/lyrics/ui/composable/lyrics/KaraokeLineText.kt:191-204 | One pass of the inner loop sets `costs[i]` and `breaks[i]` to the programme's values and changes no other entry. |
| BalancedBreaking.FollowBreaks | src/src/commonMain/kotlin/com/mocharealm/accompanist/lyrics/ui/composable/lyrics/KaraokeLineText.kt:210-218 | The reconstruction loop, prepending each trimmed span, yields the rows of the cuts that the breaks point to. |
| BalancedBreaking.CalculateBalancedLines | src/src/commonMain/kotlin/com/mocharealm/accompanist/lyrics/ui/composable/lyrics/KaraokeLineText.kt:177-221 | The array-based programme, its greedy fallback and its reconstruction compute `BalancedLines`. |
| StaticLayout.StartX | src/src/commonMain/kotlin/com/mocharealm/accompanist/lyrics/ui/composable/lyrics/KaraokeLineText.kt:241-245 | Start alignment begins at 0. End alignment ends the row at the canvas edge. Centre alignment leaves equal space on both sides. |
| StaticLayout.RowGeometry | src/src/commonMain/kotlin/com/mocharealm/accompanist/lyrics/ui/composable/lyrics/KaraokeLineText.kt:237-268 | Pass 1 only sets positions, and every syllable of row i has y = i × lineHeight. Left-to-right, the syllables start at the aligned x and abut left to right. Right-to-left, the first syllable's right edge is the aligned x plus the row width, and each next syllable ends where the previous began. With a true total width, the row closes at the other edge. |
| StaticLayout.PositionRow | src/src/commonMain/kotlin/com/mocharealm/accompanist/lyrics/ui/composable/lyrics/KaraokeLineText.kt:247-266 | The running-x loop over one row yields `PositionLine`. It appends each positioned syllable to its word's bucket in visiting order. |
| StaticLayout.PositionPass | src/src/commonMain/kotlin/com/mocharealm/accompanist/lyrics/ui/composable/lyrics/KaraokeLineText.kt:237-268 | Pass 1 yields the positioned rows. Its map groups every positioned syllable by word id, in row order. |
| StaticLayout.RecordOffsets | src/src/commonMain/kotlin/com/mocharealm/accompanist/lyrics/ui/composable/lyrics/KaraokeLineText.kt:280-284 | The running offset loop records, for each layout of a word, the number of characters before it. |
| StaticLayout.AnimationPass | src/src/commonMain/kotlin/com/mocharealm/accompanist/lyrics/ui/composable/lyrics/KaraokeLineText.kt:270-286 | Pass 2 records word timing exactly for the words whose first layout is animated, and offsets for exactly the layouts of those words. |
| StaticLayout.FinalFromMapsAgrees | src/src/commonMain/kotlin/com/mocharealm/accompanist/lyrics/ui/composable/lyrics/KaraokeLineText.kt:288-302 | Pass 3's map look-ups agree with the word-level definition of the final layout. |
| StaticLayout.CalculateStaticLineLayout | src/src/commonMain/kotlin/com/mocharealm/accompanist/lyrics/ui/composable/lyrics/KaraokeLineText.kt:227-303 | The three passes with their mutable maps compute `StaticLineLayout`. |
| StaticLayout.StaticLayoutKeeps | src/src/commonMain/kotlin/com/mocharealm/accompanist/lyrics/ui/composable/lyrics/KaraokeLineText.kt:288-302 | A final layout keeps the input's syllable, size, word id and flag, and takes its position from pass 1. |
| StaticLayout.WordOf | src/src/commonMain/kotlin/com/mocharealm/accompanist/lyrics/ui/composable/lyrics/KaraokeLineText.kt:291 | A syllable's word group is non-empty and contains the syllable's own positioned layout. |
| StaticLayout.WordSharesPivotAndTiming | src/src/commonMain/kotlin/com/mocharealm/accompanist/lyrics/ui/composable/lyrics/KaraokeLineText.kt:291-298 | Syllables with the same word id, even on different rows, get the same pivot and the same word timing. |
| StaticLayout.PivotSpansWord | src/src/commonMain/kotlin/com/mocharealm/accompanist/lyrics/ui/composable/lyrics/KaraokeLineText.kt:292-297 | The pivot's y is the lowest bottom edge of the word. Its x is midway between the word's leftmost left edge and its rightmost right edge. |
| StaticLayout.WordTimingSpec | src/src/commonMain/kotlin/com/mocharealm/accompanist/lyrics/ui/composable/lyrics/KaraokeLineText.kt:270-298 | A layout has word timing iff its word's first layout is animated. The start is the earliest syllable start and the end the latest syllable end, both attained. The content is the word's syllable texts joined in order. |
| StaticLayout.CharOffsetSpec | src/src/commonMain/kotlin/com/mocharealm/accompanist/lyrics/ui/composable/lyrics/KaraokeLineText.kt:280-299 | A non-animated word's offset is 0. An animated syllable's offset is the length of the texts before it in its word. The offset plus its own length stays within the word's content. |
| Gradient.Progress | src/src/commonMain/kotlin/com/mocharealm/accompanist/lyrics/ui/composable/lyrics/KaraokeLineText.kt:345 | A syllable's progress is the elapsed fraction of its duration, clamped to [0, 1]: 0 before it starts and 1 after it ends. |
| Gradient.FindActive | src/src/commonMain/kotlin/com/mocharealm/accompanist/lyrics/ui/composable/lyrics/KaraokeLineText.kt:339-341 | `find` yields the first syllable whose half-open interval holds the time, or none when no syllable is active. |
| Gradient.LastFinished | src/src/commonMain/kotlin/com/mocharealm/accompanist/lyrics/ui/composable/lyrics/KaraokeLineText.kt:356 | `lastOrNull` yields the last finished syllable: every later one is unfinished. None means no syllable has finished. |
| Gradient.Normalise | src/src/commonMain/kotlin/com/mocharealm/accompanist/lyrics/ui/composable/lyrics/KaraokeLineText.kt:367 | The boundary is normalised into [0, 1], linearly across the row's extent. |
| Gradient.FadeRange | src/src/commonMain/kotlin/com/mocharealm/accompanist/lyrics/ui/composable/lyrics/KaraokeLineText.kt:370 | The fade band is a positive fraction of at most 1. It is 100 px of the row when the row is wider than 100 px, and the whole row otherwise. |
| Gradient.UniformCases | src/src/commonMain/kotlin/com/mocharealm/accompanist/lyrics/ui/composable/lyrics/KaraokeLineText.kt:314-337 | The brush is flat exactly for an empty row, a row with no extent, or a time outside (first start, last end). A row with no extent is sung once its last syllable has ended and unsung before. A row with extent is unsung up to its first start. After that it is sung once the last syllable has ended. Before the last end, any flat brush is unsung. |
| Gradient.GradientStopsWellFormed | src/src/commonMain/kotlin/com/mocharealm/accompanist/lyrics/ui/composable/lyrics/KaraokeLineText.kt:370-400 | A gradient has four stops from 0 to 1 in non-decreasing order. Its band is no wider than the fade range and it spans the row's extent. The sung colour is on the left for left-to-right rows and on the right for right-to-left rows. |
| Gradient.FadeBand | src/src/commonMain/kotlin/com/mocharealm/accompanist/lyrics/ui/composable/lyrics/KaraokeLineText.kt:370-375 | The band has width equal to the fade range and sweeps linearly with progress. At progress 0 it lies wholly before the row, and at progress 1 wholly after it. |
| Gradient.FadeEdgesMonotone | src/src/commonMain/kotlin/com/mocharealm/accompanist/lyrics/ui/composable/lyrics/KaraokeLineText.kt:370-394 | Both clamped stop offsets are non-decreasing in the progress. |
| Gradient.BoundaryInsideActive | src/src/commonMain/kotlin/com/mocharealm/accompanist/lyrics/ui/composable/lyrics/KaraokeLineText.kt:343-353 | While a syllable is active, the boundary lies within that syllable, in either direction. |
| Gradient.EdgeWithinRow | src/src/commonMain/kotlin/com/mocharealm/accompanist/lyrics/ui/composable/lyrics/KaraokeLineText.kt:343-365 | The boundary never leaves the row's extent. |
| Gradient.MomentsInOrder | src/src/commonMain/kotlin/com/mocharealm/accompanist/lyrics/ui/composable/lyrics/KaraokeLineText.kt:339-365 | On a row whose syllables are in time order, the state at a later time (active syllable and progress, or last finished syllable) is never behind the state at an earlier time. |
| Gradient.BoundaryMonotoneLtr | src/src/commonMain/kotlin/com/mocharealm/accompanist/lyrics/ui/composable/lyrics/KaraokeLineText.kt:343-365 | On a time-ordered left-to-right row, the boundary never moves left as time goes on. |
| Gradient.BoundaryMonotoneRtl | src/src/commonMain/kotlin/com/mocharealm/accompanist/lyrics/ui/composable/lyrics/KaraokeLineText.kt:343-365 | On a time-ordered right-to-left row, the boundary never moves right as time goes on. |
| Gradient.LineProgressMonotone | src/src/commonMain/kotlin/com/mocharealm/accompanist/lyrics/ui/composable/lyrics/KaraokeLineText.kt:331-368 | The normalised progress is in [0, 1]. It is non-decreasing in time for left-to-right rows and non-increasing for right-to-left rows. |
| Gradient.PositionedRowShape | src/src/commonMain/kotlin/com/mocharealm/accompanist/lyrics/ui/composable/lyrics/KaraokeLineText.kt:247-266 | Pass 1 keeps each row's syllables, in order. With non-negative measured widths, it lays them out without overlap, left to right or right to left by the row's direction. |
| Gradient.PositionedLineProgressMonotone | src/src/commonMain/kotlin/com/mocharealm/accompanist/lyrics/ui/composable/lyrics/KaraokeLineText.kt:331-368 | On a row positioned by pass 1 from time-ordered syllables, the normalised progress never decreases with time left to right and never increases right to left. |
| CharAnimation.TruncateToInt | src/src/commonMain/kotlin/com/mocharealm/accompanist/lyrics/ui/composable/lyrics/KaraokeLineText.kt:450-451 | `toLong` rounds toward zero: down for non-negative values and up for negative ones. |
| CharAnimation.ClampedQuotient | src/src/commonMain/kotlin/com/mocharealm/accompanist/lyrics/ui/composable/lyrics/KaraokeLineText.kt:452-455 | A float quotient clamped to [0, 1]. Division by zero gives 1 or 0 by the numerator's sign, 0/0 gives NaN (`None`), and inside the range the result times the divisor is the numerator. |
| CharAnimation.CharRatio | src/src/commonMain/kotlin/com/mocharealm/accompanist/lyrics/ui/composable/lyrics/KaraokeLineText.kt:448-449 | The character ratio is 0.5 for a word of at most one character, and otherwise the character index over the last index. |
| CharAnimation.CharRatioSpan | src/src/commonMain/kotlin/com/mocharealm/accompanist/lyrics/ui/composable/lyrics/KaraokeLineText.kt:448-449 | Within a word, the ratios rise strictly from 0 at the first character to 1 at the last. |
| CharAnimation.StaggerOrder | src/src/commonMain/kotlin/com/mocharealm/accompanist/lyrics/ui/composable/lyrics/KaraokeLineText.kt:440-451 | Character start times are no earlier than the word start and are ordered by character. They are no later than the latest start, word end minus 80 % of the duration. |
| CharAnimation.CharactersWithinWord | src/src/commonMain/kotlin/com/mocharealm/accompanist/lyrics/ui/composable/lyrics/KaraokeLineText.kt:440-455 | Every character is at progress 0 up to the word start and at progress 1 from the word end. |
| CharAnimation.AwesomeProgressMonotone | src/src/commonMain/kotlin/com/mocharealm/accompanist/lyrics/ui/composable/lyrics/KaraokeLineText.kt:452-455 | A character's progress never decreases with time. |
| CharAnimation.AmplitudesFollowSlack | src/src/commonMain/kotlin/com/mocharealm/accompanist/lyrics/ui/composable/lyrics/KaraokeLineText.kt:457-466 | The dip and swell vanish exactly when the word lasts at most 200 ms per character. The dip is always five times the swell, and below its cap the dip is half the slack in seconds. |
| CharAnimation.NearestUnset | src/src/commonMain/kotlin/com/mocharealm/accompanist/lyrics/ui/composable/lyrics/KaraokeLineText.kt:508-516 | The backward search stops at the nearest earlier unset flag. Everything it skipped is set, and -1 means none was found. |
| CharAnimation.ProgressSyllableSpec | src/src/commonMain/kotlin/com/mocharealm/accompanist/lyrics/ui/composable/lyrics/KaraokeLineText.kt:501-521 | A non-punctuation syllable drives itself. A punctuation syllable is driven by the nearest earlier non-punctuation syllable of its row, or by itself when there is none. The driver is never later. |
| CharAnimation.FindProgressSyllable | src/src/commonMain/kotlin/com/mocharealm/accompanist/lyrics/ui/composable/lyrics/KaraokeLineText.kt:501-521 | The while loop with `break` returns the syllable `ProgressSyllableIndex` names. |
| CharAnimation.RiseProgressSpec | src/src/commonMain/kotlin/com/mocharealm/accompanist/lyrics/ui/composable/lyrics/KaraokeLineText.kt:522-525 | The rise progress is NaN only at the start of a zero-length syllable. For a positive duration it is 0 up to the start and 1 after 1.4 durations, and it never decreases. |

## Left out

- The composable `KaraokeLineText` itself, its `remember` caches, `dp` conversions and the `Canvas` wiring: these are UI plumbing with no logic of the core.
- Drawing: `saveLayer`, `drawText`, `Shadow`, `withTransform`, blend modes and debug rectangles are graphics calls and are not modelled. The curves `DipAndRise`, `Swell`, `Bounce` and `CubicBezierEasing` are defined outside this file. The model stops at the values fed into them (progress, dip and swell amplitudes).
- `TextLayoutResult.getHorizontalPosition` and the per-character `textMeasurer.measure` inside `drawLine` are measurements made by the text engine and are not part of this model.
- Text measurement and the script classifiers (`isPunctuation`, `isPureCjk`, `isArabic`, `isDevanagari`, in `utils`) are parameters. They are not part of this model, so the properties hold for any implementation of them.
- `Syllable.progress` belongs to the lyrics library and is not part of this model. `Gradient.Progress` models it as the clamped elapsed fraction of the syllable's duration.
- Float rounding: all widths, ratios and badness are `real`. Single-precision rounding, the `Float`→`Double` conversion of the badness and the `Double` sum in the trimming code are exact here.
- `PerCharDuration`, `OffsetsOf`/`CharOffsetSpec`, `CharRatio`: lengths and character indices count Unicode scalar values (a Dafny `string` is a sequence of them), where Kotlin's `length` and `forEachIndexed` count UTF-16 code units. For text outside the Basic Multilingual Plane, such as emoji, the per-character duration, the animation flag, the character offsets, the character count and the stagger ratio can differ from the source's.
- `Int`/`Long` overflow of times and character counts is not modelled; times are unbounded integers.
- Infinities beyond the clamps. `costs` uses `Double.POSITIVE_INFINITY` as "unreachable", modelled as `None`. Widths are assumed finite.
- Alignment: every `Alignment` other than `TopStart` and `TopEnd` takes the centring branch. It is modelled by the one constructor `TopCenter`.
- The visiting order of `layoutsByWord.forEach` in pass 2 is not modelled. Every entry of that pass writes keys of its own word only.
- `LineProgressMonotone`: proved for rows whose syllables are in time order, laid out monotonically left to right or right to left, with non-negative widths. Time order is an assumption on the input lyrics, which the code does not check. The layout shape is what pass 1 produces from non-negative measured widths (`PositionedRowShape`).
- `BoundaryMonotoneLtr`, `BoundaryMonotoneRtl`: same conditions as `LineProgressMonotone`. `MomentsInOrder` needs only the time order.
- `CharOffsetSpec`: `charOffsetsBySyllable` is keyed by the whole layout (data-class equality). A layout that occurs twice in one word keeps the offset of its last occurrence. The lemma states the offset for a layout that does not recur later in its word. The map itself is modelled faithfully by `OffsetsOf`.
- `CharactersWithinWord`: proved for a positive word duration and a non-negative word start. Truncation toward zero of a negative staggered start moves it the other way.
- `GreedyKeepsFittingRow`: requires non-negative widths, without which a fitting row could have an overflowing prefix.
- `DpCostStep`, `DpCostOptimal`, `BalancedLinesOptimal`, `BalancedFeasibleIffEachFits`, `InnerScanComplete`: require non-negative widths. With a negative width, the inner loop's `break` can skip a longer fitting row.
- Balanced rows are not filtered for emptiness, following the code (lines 210-218). A span of blank syllables gives an empty row, where greedy breaking (lines 157-160) drops it.
- The punctuation search walks the row in layout order, which is time order in either direction, as the source's own comment at lines 503-507 notes. No visual-order variant is modelled.
