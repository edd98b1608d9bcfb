/** The per-tick highlight of one positioned row: playback time becomes a
    normalised sung/unsung boundary across the row, and a four-stop horizontal
    gradient with a fade band centred on that boundary. */
module Gradient {
  import opened KaraokeTypes
  import StaticLayout

  /** The two colours of the brush: opaque white and white at alpha 0.2. */
  datatype Color = Active | Inactive

  datatype ColorStop = ColorStop(offset: real, color: Color)

  /** A horizontal gradient made of one colour twice is `Uniform`; the
      four-stop gradient runs from `startX` to `endX`. */
  datatype Brush = Uniform(color: Color) | Horizontal(stops: seq<ColorStop>, startX: real, endX: real)

  /** Width of the fade band in pixels before it is normalised. */
  const MinFadeWidth: real := 100.0

  /** A syllable is active from its start up to, not including, its end. */
  predicate IsActiveAt(s: Syllable, t: int) {
    s.start <= t < s.end
  }

  /** The syllable's own progress at time `t`: the elapsed fraction of its
      duration, clamped to [0, 1]. */
  function Progress(s: Syllable, t: int): (r: real)
    requires s.start < s.end
    ensures 0.0 <= r <= 1.0
    ensures t <= s.start ==> r == 0.0
    ensures t >= s.end ==> r == 1.0
    ensures s.start <= t <= s.end ==> r * (s.end - s.start) as real == (t - s.start) as real
  {
    var q := (t - s.start) as real / (s.end - s.start) as real;
    QuotientAtLeastOne((t - s.start) as real, (s.end - s.start) as real);
    Clamp(q, 0.0, 1.0)
  }

  /** A syllable's progress never decreases with time. */
  lemma ProgressMonotone(s: Syllable, t: int, t': int)
    requires s.start < s.end && t <= t'
    ensures Progress(s, t) <= Progress(s, t')
  {
    var d := (s.end - s.start) as real;
    assert (t' - s.start) as real / d - (t - s.start) as real / d == (t' - t) as real / d;
  }

  lemma QuotientAtLeastOne(n: real, d: real)
    requires d > 0.0
    ensures n >= d ==> n / d >= 1.0
    ensures n <= d ==> n / d <= 1.0
    ensures n / d * d == n
  {
  }

  /** `find`: the first syllable active at `t`. */
  function FindActive(ls: seq<SyllableLayout>, t: int): (r: Option<nat>)
    ensures r.Some? ==> r.value < |ls| && IsActiveAt(ls[r.value].syllable, t)
    ensures r.Some? ==> forall j :: 0 <= j < r.value ==> !IsActiveAt(ls[j].syllable, t)
    ensures r.None? ==> forall j :: 0 <= j < |ls| ==> !IsActiveAt(ls[j].syllable, t)
    decreases |ls|
  {
    if ls == [] then None
    else if IsActiveAt(ls[0].syllable, t) then Some(0)
    else match FindActive(ls[1..], t)
      case None => None
      case Some(j) => Some(j + 1)
  }

  /** The last syllable of the row that has ended by time `t`, if any. */
  function LastFinished(ls: seq<SyllableLayout>, t: int): (r: Option<nat>)
    ensures r.Some? ==> r.value < |ls| && t >= ls[r.value].syllable.end
    ensures r.Some? ==> forall j :: r.value < j < |ls| ==> t < ls[j].syllable.end
    ensures r.None? ==> forall j :: 0 <= j < |ls| ==> t < ls[j].syllable.end
    decreases |ls|
  {
    if ls == [] then None
    else if t >= ls[|ls| - 1].syllable.end then Some(|ls| - 1)
    else LastFinished(ls[..|ls| - 1], t)
  }

  /** Where playback stands in the row at one time: inside syllable `i` at
      progress `p`, between syllables after syllable `l` finished, or before
      any syllable finished. */
  datatype Moment = Within(i: nat, p: real) | After(l: nat) | Before

  /** The moment at time `t`, from the first active syllable or else the last
      finished one. */
  function MomentAt(ls: seq<SyllableLayout>, t: int): (m: Moment)
    ensures m.Within? ==> m.i < |ls| && IsActiveAt(ls[m.i].syllable, t) && m.p == Progress(ls[m.i].syllable, t)
    ensures m.Within? ==> 0.0 <= m.p <= 1.0
    ensures m.After? ==> m.l < |ls| && FindActive(ls, t).None?
  {
    match FindActive(ls, t)
    case Some(i) => Within(i, Progress(ls[i].syllable, t))
    case None =>
      match LastFinished(ls, t)
      case Some(l) => After(l)
      case None => Before
  }

  /** The boundary's pixel position for a moment on an LTR row: swept by the
      progress from the syllable's left edge; between syllables, at the right
      edge of the last finished one; before any, at the row's left edge. */
  function EdgeLtr(ls: seq<SyllableLayout>, m: Moment): real
    requires ls != []
    requires m.Within? ==> m.i < |ls|
    requires m.After? ==> m.l < |ls|
  {
    match m
    case Within(i, p) => ls[i].position.x + ls[i].width * p
    case After(l) => ls[l].position.x + ls[l].width
    case Before => MinX(ls)
  }

  /** The same on an RTL row, mirrored: from the syllable's right edge, at the
      left edge of the last finished one, at the row's right edge. */
  function EdgeRtl(ls: seq<SyllableLayout>, m: Moment): real
    requires ls != []
    requires m.Within? ==> m.i < |ls|
    requires m.After? ==> m.l < |ls|
  {
    match m
    case Within(i, p) => ls[i].position.x + ls[i].width * (1.0 - p)
    case After(l) => ls[l].position.x
    case Before => MaxRight(ls)
  }

  /** The pixel position of the sung/unsung boundary at time `t`. */
  function BoundaryX(ls: seq<SyllableLayout>, t: int, isRtl: bool): real
    requires ls != []
  {
    var m := MomentAt(ls, t);
    if isRtl then EdgeRtl(ls, m) else EdgeLtr(ls, m)
  }

  /** Position `x` as a fraction of the row's extent, clamped to [0, 1]. */
  function Normalise(x: real, minX: real, maxX: real): (r: real)
    requires maxX - minX > 0.0
    ensures 0.0 <= r <= 1.0
    ensures minX <= x <= maxX ==> r * (maxX - minX) == x - minX
  {
    var q := (x - minX) / (maxX - minX);
    QuotientAtLeastOne(x - minX, maxX - minX);
    Clamp(q, 0.0, 1.0)
  }

  /** The boundary normalised over the row's extent. */
  function LineProgress(ls: seq<SyllableLayout>, t: int, isRtl: bool): (r: real)
    requires ls != [] && MaxRight(ls) - MinX(ls) > 0.0
    ensures 0.0 <= r <= 1.0
  {
    Normalise(BoundaryX(ls, t, isRtl), MinX(ls), MaxRight(ls))
  }

  /** The fade band's width as a fraction of the row, at most the whole row. */
  function FadeRange(totalWidth: real): (r: real)
    requires totalWidth > 0.0
    ensures 0.0 < r <= 1.0
    ensures r == 1.0 || r * totalWidth == MinFadeWidth
    ensures r * totalWidth <= MinFadeWidth
  {
    if MinFadeWidth / totalWidth > 1.0 then 1.0 else MinFadeWidth / totalWidth
  }

  /** The fade band's centre sweeps from `-fr/2` to `1 + fr/2` with `p`. */
  function FadeCenter(fr: real, p: real): real {
    var centerStart := -fr / 2.0;
    var centerEnd := 1.0 + fr / 2.0;
    centerStart + (centerEnd - centerStart) * p
  }

  function FadeStart(fr: real, p: real): real {
    FadeCenter(fr, p) - fr / 2.0
  }

  function FadeEnd(fr: real, p: real): real {
    FadeCenter(fr, p) + fr / 2.0
  }

  /** The four stops: sung colour on the left for LTR, on the right for RTL. */
  function Stops(fadeStart: real, fadeEnd: real, isRtl: bool): seq<ColorStop> {
    var before := if isRtl then Inactive else Active;
    var after := if isRtl then Active else Inactive;
    [ColorStop(0.0, before), ColorStop(Clamp(fadeStart, 0.0, 1.0), before),
     ColorStop(Clamp(fadeEnd, 0.0, 1.0), after), ColorStop(1.0, after)]
  }

  /** The highlight brush of a row at time `t`: flat, or a four-stop gradient. */
  function LineGradientBrush(ls: seq<SyllableLayout>, t: int, isRtl: bool): Brush {
    if ls == [] then Uniform(Inactive)
    else
      var minX := MinX(ls);
      var maxX := MaxRight(ls);
      var totalWidth := maxX - minX;
      if totalWidth <= 0.0 then
        Uniform(if t >= ls[|ls| - 1].syllable.end then Active else Inactive)
      else if t <= ls[0].syllable.start then Uniform(Inactive)
      else if t >= ls[|ls| - 1].syllable.end then Uniform(Active)
      else
        var p := LineProgress(ls, t, isRtl);
        var fr := FadeRange(totalWidth);
        Horizontal(Stops(FadeStart(fr, p), FadeEnd(fr, p), isRtl), minX, maxX)
  }

  // ---------------------------------------------------------------------
  // Properties

  /** The brush is uniform exactly for an empty row, a row without extent, or
      a time outside the open interval from the first start to the last end.
      A row without extent is sung once its last syllable has ended. A row with
      extent is unsung up to its first start, and after that it is sung once
      its last syllable has ended. Before the last end a flat brush is unsung. */
  lemma UniformCases(ls: seq<SyllableLayout>, t: int, isRtl: bool)
    ensures var b := LineGradientBrush(ls, t, isRtl);
            && (b.Uniform? <==>
                  ls == [] || MaxRight(ls) - MinX(ls) <= 0.0
                  || t <= ls[0].syllable.start || t >= ls[|ls| - 1].syllable.end)
            && (ls != [] && MaxRight(ls) - MinX(ls) <= 0.0 ==>
                  b == Uniform(if t >= ls[|ls| - 1].syllable.end then Active else Inactive))
            && (ls != [] && MaxRight(ls) - MinX(ls) > 0.0 && t <= ls[0].syllable.start ==> b == Uniform(Inactive))
            && (ls != [] && t >= ls[|ls| - 1].syllable.end && t > ls[0].syllable.start ==> b == Uniform(Active))
            && (ls == [] || t < ls[|ls| - 1].syllable.end ==> b.Uniform? ==> b == Uniform(Inactive))
  {
  }

  /** A gradient brush has four stops in non-decreasing order from 0 to 1,
      spans the row's extent, keeps its band no wider than the fade range,
      and puts the sung colour first for LTR and last for RTL. */
  lemma GradientStopsWellFormed(ls: seq<SyllableLayout>, t: int, isRtl: bool)
    requires LineGradientBrush(ls, t, isRtl).Horizontal?
    ensures var b := LineGradientBrush(ls, t, isRtl);
            && ls != [] && MaxRight(ls) - MinX(ls) > 0.0
            && b.startX == MinX(ls) && b.endX == MaxRight(ls)
            && |b.stops| == 4
            && b.stops[0].offset == 0.0 && b.stops[3].offset == 1.0
            && (forall k :: 0 <= k < 3 ==> b.stops[k].offset <= b.stops[k + 1].offset)
            && b.stops[2].offset - b.stops[1].offset <= FadeRange(MaxRight(ls) - MinX(ls))
            && b.stops[0].color == b.stops[1].color && b.stops[2].color == b.stops[3].color
            && b.stops[0].color == (if isRtl then Inactive else Active)
            && b.stops[3].color == (if isRtl then Active else Inactive)
  {
    var fr := FadeRange(MaxRight(ls) - MinX(ls));
    var p := LineProgress(ls, t, isRtl);
    FadeBand(fr, p);
  }

  /** The band is `fr` wide, starts at `(1 + fr) p - fr`, lies wholly left of
      the row at `p = 0` and wholly right of it at `p = 1`. */
  lemma FadeBand(fr: real, p: real)
    ensures FadeEnd(fr, p) - FadeStart(fr, p) == fr
    ensures FadeStart(fr, p) == (1.0 + fr) * p - fr
    ensures fr >= 0.0 && p == 0.0 ==> Clamp(FadeEnd(fr, p), 0.0, 1.0) == 0.0
    ensures fr >= 0.0 && p == 1.0 ==> Clamp(FadeStart(fr, p), 0.0, 1.0) == 1.0
  {
  }

  /** Both clamped band edges move right as the progress grows. */
  lemma FadeEdgesMonotone(fr: real, p: real, p': real)
    requires fr >= 0.0 && p <= p'
    ensures Clamp(FadeStart(fr, p), 0.0, 1.0) <= Clamp(FadeStart(fr, p'), 0.0, 1.0)
    ensures Clamp(FadeEnd(fr, p), 0.0, 1.0) <= Clamp(FadeEnd(fr, p'), 0.0, 1.0)
  {
    var centerStart, centerEnd := -fr / 2.0, 1.0 + fr / 2.0;
    ScaledMonotone(centerEnd - centerStart, p, p');
    assert FadeCenter(fr, p) <= FadeCenter(fr, p');
    assert FadeStart(fr, p) <= FadeStart(fr, p');
    assert FadeEnd(fr, p) <= FadeEnd(fr, p');
    ClampMonotone(FadeStart(fr, p), FadeStart(fr, p'));
    ClampMonotone(FadeEnd(fr, p), FadeEnd(fr, p'));
  }

  lemma ClampMonotone(v: real, v': real)
    requires v <= v'
    ensures Clamp(v, 0.0, 1.0) <= Clamp(v', 0.0, 1.0)
  {
  }

  lemma ScaledBounds(w: real, p: real)
    requires w >= 0.0 && 0.0 <= p <= 1.0
    ensures 0.0 <= w * p <= w
    ensures 0.0 <= w * (1.0 - p) <= w
  {
  }

  lemma ScaledMonotone(w: real, p: real, p': real)
    requires w >= 0.0 && p <= p'
    ensures w * p <= w * p'
  {
    assert w * p' - w * p == w * (p' - p);
    assert w * (p' - p) >= 0.0;
  }

  /** While a syllable is active the boundary lies within it. */
  lemma BoundaryInsideActive(ls: seq<SyllableLayout>, t: int, isRtl: bool)
    requires ls != [] && FindActive(ls, t).Some?
    requires ls[FindActive(ls, t).value].width >= 0.0
    ensures var a := ls[FindActive(ls, t).value];
            a.position.x <= BoundaryX(ls, t, isRtl) <= a.position.x + a.width
  {
    var a := ls[FindActive(ls, t).value];
    ScaledBounds(a.width, Progress(a.syllable, t));
  }

  /** Syllables follow one another in time without overlapping. */
  ghost predicate TimeOrdered(ls: seq<SyllableLayout>) {
    && (forall i :: 0 <= i < |ls| ==> ls[i].syllable.start <= ls[i].syllable.end)
    && (forall i, j :: 0 <= i < j < |ls| ==> ls[i].syllable.end <= ls[j].syllable.start)
  }

  /** Syllables are laid out left to right without overlapping. */
  ghost predicate LeftToRight(ls: seq<SyllableLayout>) {
    && NonNegativeWidths(ls)
    && (forall i, j :: 0 <= i < j < |ls| ==> ls[i].position.x + ls[i].width <= ls[j].position.x)
  }

  /** Syllables are laid out right to left without overlapping. */
  ghost predicate RightToLeft(ls: seq<SyllableLayout>) {
    && NonNegativeWidths(ls)
    && (forall i, j :: 0 <= i < j < |ls| ==> ls[j].position.x + ls[j].width <= ls[i].position.x)
  }

  /** Two times active in syllables `i` and `j` come in syllable order. */
  lemma ActiveInOrder(ls: seq<SyllableLayout>, t: int, t': int, i: nat, j: nat)
    requires TimeOrdered(ls) && t <= t'
    requires i < |ls| && j < |ls| && IsActiveAt(ls[i].syllable, t) && IsActiveAt(ls[j].syllable, t')
    ensures i <= j
  {
  }

  /** The last syllable finished at `t` comes before one active later. */
  lemma FinishedBeforeActive(ls: seq<SyllableLayout>, t: int, t': int, l: nat, j: nat)
    requires TimeOrdered(ls) && t <= t'
    requires l < |ls| && j < |ls| && t >= ls[l].syllable.end && IsActiveAt(ls[j].syllable, t')
    ensures l < j
  {
  }

  /** Moments in playback order: earlier syllables first, progress growing
      within one syllable. */
  predicate NotLater(m: Moment, m': Moment) {
    match (m, m')
    case (Within(i, p), Within(j, q)) => i < j || (i == j && p <= q)
    case (Within(i, _), After(l)) => i <= l
    case (Within(_, _), Before) => false
    case (After(l), Within(j, _)) => l < j
    case (After(l), After(l')) => l <= l'
    case (After(_), Before) => false
    case (Before, _) => true
  }

  /** On a time-ordered row the moments at two times come in order. */
  lemma MomentsInOrder(ls: seq<SyllableLayout>, t: int, t': int)
    requires TimeOrdered(ls) && t <= t'
    ensures NotLater(MomentAt(ls, t), MomentAt(ls, t'))
  {
    var a, a' := FindActive(ls, t), FindActive(ls, t');
    var f, f' := LastFinished(ls, t), LastFinished(ls, t');
    if a.Some? && a'.Some? {
      ActiveInOrder(ls, t, t', a.value, a'.value);
      if a.value == a'.value {
        ProgressMonotone(ls[a.value].syllable, t, t');
      }
    } else if a.Some? {
      assert t' >= ls[a.value].syllable.end;
    } else if f.Some? {
      assert t' >= ls[f.value].syllable.end;
      if a'.Some? {
        FinishedBeforeActive(ls, t, t', f.value, a'.value);
      }
    }
  }

  lemma WithinLtr(ls: seq<SyllableLayout>, i: nat, p: real)
    requires i < |ls| && NonNegativeWidths(ls) && 0.0 <= p <= 1.0
    ensures ls[i].position.x <= EdgeLtr(ls, Within(i, p)) <= ls[i].position.x + ls[i].width
  {
    ScaledBounds(ls[i].width, p);
  }

  lemma WithinRtl(ls: seq<SyllableLayout>, i: nat, p: real)
    requires i < |ls| && NonNegativeWidths(ls) && 0.0 <= p <= 1.0
    ensures ls[i].position.x <= EdgeRtl(ls, Within(i, p)) <= ls[i].position.x + ls[i].width
  {
    ScaledBounds(ls[i].width, p);
  }

  /** A moment's edge lies within the row's extent. */
  lemma EdgeWithinRow(ls: seq<SyllableLayout>, m: Moment)
    requires ls != [] && NonNegativeWidths(ls)
    requires m.Within? ==> m.i < |ls| && 0.0 <= m.p <= 1.0
    requires m.After? ==> m.l < |ls|
    ensures MinX(ls) <= EdgeLtr(ls, m) <= MaxRight(ls)
    ensures MinX(ls) <= EdgeRtl(ls, m) <= MaxRight(ls)
  {
    match m
    case Within(i, p) =>
      WithinLtr(ls, i, p);
      WithinRtl(ls, i, p);
      assert MinX(ls) <= ls[i].position.x;
      assert ls[i].position.x + ls[i].width <= MaxRight(ls);
    case After(l) =>
      assert MinX(ls) <= ls[l].position.x;
      assert ls[l].position.x + ls[l].width <= MaxRight(ls);
    case Before =>
  }

  lemma LtrWithinWithin(ls: seq<SyllableLayout>, i: nat, p: real, j: nat, q: real)
    requires LeftToRight(ls) && i < |ls| && j < |ls| && 0.0 <= p <= 1.0 && 0.0 <= q <= 1.0
    requires i < j || (i == j && p <= q)
    ensures EdgeLtr(ls, Within(i, p)) <= EdgeLtr(ls, Within(j, q))
  {
    WithinLtr(ls, i, p);
    WithinLtr(ls, j, q);
    if i == j {
      ScaledMonotone(ls[i].width, p, q);
    } else {
      assert ls[i].position.x + ls[i].width <= ls[j].position.x;
    }
  }

  lemma LtrWithinAfter(ls: seq<SyllableLayout>, i: nat, p: real, l: nat)
    requires LeftToRight(ls) && i <= l < |ls| && 0.0 <= p <= 1.0
    ensures EdgeLtr(ls, Within(i, p)) <= EdgeLtr(ls, After(l))
  {
    WithinLtr(ls, i, p);
    if i < l {
      assert ls[i].position.x + ls[i].width <= ls[l].position.x;
    }
  }

  lemma LtrAfterWithin(ls: seq<SyllableLayout>, l: nat, j: nat, q: real)
    requires LeftToRight(ls) && l < j < |ls| && 0.0 <= q <= 1.0
    ensures EdgeLtr(ls, After(l)) <= EdgeLtr(ls, Within(j, q))
  {
    WithinLtr(ls, j, q);
    assert ls[l].position.x + ls[l].width <= ls[j].position.x;
  }

  lemma LtrAfterAfter(ls: seq<SyllableLayout>, l: nat, l': nat)
    requires LeftToRight(ls) && l <= l' < |ls|
    ensures EdgeLtr(ls, After(l)) <= EdgeLtr(ls, After(l'))
  {
    if l < l' {
      assert ls[l].position.x + ls[l].width <= ls[l'].position.x;
    }
  }

  lemma RtlWithinWithin(ls: seq<SyllableLayout>, i: nat, p: real, j: nat, q: real)
    requires RightToLeft(ls) && i < |ls| && j < |ls| && 0.0 <= p <= 1.0 && 0.0 <= q <= 1.0
    requires i < j || (i == j && p <= q)
    ensures EdgeRtl(ls, Within(j, q)) <= EdgeRtl(ls, Within(i, p))
  {
    WithinRtl(ls, i, p);
    WithinRtl(ls, j, q);
    if i == j {
      ScaledMonotone(ls[i].width, 1.0 - q, 1.0 - p);
    } else {
      assert ls[j].position.x + ls[j].width <= ls[i].position.x;
    }
  }

  lemma RtlWithinAfter(ls: seq<SyllableLayout>, i: nat, p: real, l: nat)
    requires RightToLeft(ls) && i <= l < |ls| && 0.0 <= p <= 1.0
    ensures EdgeRtl(ls, After(l)) <= EdgeRtl(ls, Within(i, p))
  {
    WithinRtl(ls, i, p);
    if i < l {
      assert ls[l].position.x + ls[l].width <= ls[i].position.x;
    }
  }

  lemma RtlAfterWithin(ls: seq<SyllableLayout>, l: nat, j: nat, q: real)
    requires RightToLeft(ls) && l < j < |ls| && 0.0 <= q <= 1.0
    ensures EdgeRtl(ls, Within(j, q)) <= EdgeRtl(ls, After(l))
  {
    WithinRtl(ls, j, q);
    assert ls[j].position.x + ls[j].width <= ls[l].position.x;
  }

  lemma RtlAfterAfter(ls: seq<SyllableLayout>, l: nat, l': nat)
    requires RightToLeft(ls) && l <= l' < |ls|
    ensures EdgeRtl(ls, After(l')) <= EdgeRtl(ls, After(l))
  {
    if l < l' {
      assert ls[l'].position.x + ls[l'].width <= ls[l].position.x;
      assert ls[l'].width >= 0.0;
    }
  }

  /** On a left-to-right row later moments have their edge no further left. */
  lemma EdgeMonotoneLtr(ls: seq<SyllableLayout>, m: Moment, m': Moment)
    requires ls != [] && LeftToRight(ls) && NotLater(m, m')
    requires m.Within? ==> m.i < |ls| && 0.0 <= m.p <= 1.0
    requires m.After? ==> m.l < |ls|
    requires m'.Within? ==> m'.i < |ls| && 0.0 <= m'.p <= 1.0
    requires m'.After? ==> m'.l < |ls|
    ensures EdgeLtr(ls, m) <= EdgeLtr(ls, m')
  {
    match (m, m')
    case (Within(i, p), Within(j, q)) => LtrWithinWithin(ls, i, p, j, q);
    case (Within(i, p), After(l)) => LtrWithinAfter(ls, i, p, l);
    case (After(l), Within(j, q)) => LtrAfterWithin(ls, l, j, q);
    case (After(l), After(l')) => LtrAfterAfter(ls, l, l');
    case (Before, _) => EdgeWithinRow(ls, m');
  }

  /** On a right-to-left row later moments have their edge no further right. */
  lemma EdgeMonotoneRtl(ls: seq<SyllableLayout>, m: Moment, m': Moment)
    requires ls != [] && RightToLeft(ls) && NotLater(m, m')
    requires m.Within? ==> m.i < |ls| && 0.0 <= m.p <= 1.0
    requires m.After? ==> m.l < |ls|
    requires m'.Within? ==> m'.i < |ls| && 0.0 <= m'.p <= 1.0
    requires m'.After? ==> m'.l < |ls|
    ensures EdgeRtl(ls, m') <= EdgeRtl(ls, m)
  {
    match (m, m')
    case (Within(i, p), Within(j, q)) => RtlWithinWithin(ls, i, p, j, q);
    case (Within(i, p), After(l)) => RtlWithinAfter(ls, i, p, l);
    case (After(l), Within(j, q)) => RtlAfterWithin(ls, l, j, q);
    case (After(l), After(l')) => RtlAfterAfter(ls, l, l');
    case (Before, _) => EdgeWithinRow(ls, m');
  }

  /** On a time-ordered, left-to-right row the boundary never moves left as
      time passes. */
  lemma BoundaryMonotoneLtr(ls: seq<SyllableLayout>, t: int, t': int)
    requires ls != [] && TimeOrdered(ls) && LeftToRight(ls) && t <= t'
    ensures BoundaryX(ls, t, false) <= BoundaryX(ls, t', false)
  {
    MomentsInOrder(ls, t, t');
    EdgeMonotoneLtr(ls, MomentAt(ls, t), MomentAt(ls, t'));
  }

  /** On a time-ordered, right-to-left row the boundary never moves right as
      time passes. */
  lemma BoundaryMonotoneRtl(ls: seq<SyllableLayout>, t: int, t': int)
    requires ls != [] && TimeOrdered(ls) && RightToLeft(ls) && t <= t'
    ensures BoundaryX(ls, t', true) <= BoundaryX(ls, t, true)
  {
    MomentsInOrder(ls, t, t');
    EdgeMonotoneRtl(ls, MomentAt(ls, t), MomentAt(ls, t'));
  }

  lemma NormaliseMonotone(x: real, x': real, minX: real, maxX: real)
    requires maxX - minX > 0.0 && x <= x'
    ensures Normalise(x, minX, maxX) <= Normalise(x', minX, maxX)
  {
    var w := maxX - minX;
    assert (x' - minX) / w - (x - minX) / w == (x' - x) / w;
  }

  /** The normalised progress of an LTR row never decreases with time, and
      that of an RTL row never increases (its sung part grows leftwards). */
  lemma LineProgressMonotone(ls: seq<SyllableLayout>, t: int, t': int)
    requires ls != [] && MaxRight(ls) - MinX(ls) > 0.0 && TimeOrdered(ls) && t <= t'
    ensures LeftToRight(ls) ==> LineProgress(ls, t, false) <= LineProgress(ls, t', false)
    ensures RightToLeft(ls) ==> LineProgress(ls, t', true) <= LineProgress(ls, t, true)
  {
    if LeftToRight(ls) {
      BoundaryMonotoneLtr(ls, t, t');
      NormaliseMonotone(BoundaryX(ls, t, false), BoundaryX(ls, t', false), MinX(ls), MaxRight(ls));
    }
    if RightToLeft(ls) {
      BoundaryMonotoneRtl(ls, t, t');
      NormaliseMonotone(BoundaryX(ls, t', true), BoundaryX(ls, t, true), MinX(ls), MaxRight(ls));
    }
  }

  /** Syllables that abut left to right, with non-negative widths, are laid
      out left to right. */
  lemma {:induction false} AbuttingLeftToRight(r: seq<SyllableLayout>)
    requires NonNegativeWidths(r)
    requires forall k :: 0 <= k < |r| - 1 ==> r[k + 1].position.x == r[k].position.x + r[k].width
    ensures LeftToRight(r)
  {
    forall i, j | 0 <= i < j < |r| ensures r[i].position.x + r[i].width <= r[j].position.x {
      var k := i + 1;
      while k < j
        invariant i + 1 <= k <= j
        invariant r[i].position.x + r[i].width <= r[k].position.x
      {
        assert r[k + 1].position.x == r[k].position.x + r[k].width;
        k := k + 1;
      }
    }
  }

  /** Syllables that abut right to left, with non-negative widths, are laid
      out right to left. */
  lemma {:induction false} AbuttingRightToLeft(r: seq<SyllableLayout>)
    requires NonNegativeWidths(r)
    requires forall k :: 0 <= k < |r| - 1 ==> r[k + 1].position.x + r[k + 1].width == r[k].position.x
    ensures RightToLeft(r)
  {
    forall i, j | 0 <= i < j < |r| ensures r[j].position.x + r[j].width <= r[i].position.x {
      var k := i + 1;
      while k < j
        invariant i + 1 <= k <= j
        invariant r[k].position.x + r[k].width <= r[i].position.x
      {
        assert r[k + 1].position.x + r[k + 1].width == r[k].position.x;
        k := k + 1;
      }
    }
  }

  /** Pass 1 of the static layout lays a row out in its text direction
      whenever the measured widths are non-negative. */
  lemma PositionedRowShape(line: WrappedLine, lineIndex: nat, alignment: StaticLayout.Alignment,
                           canvasWidth: real, lineHeight: real, isRtl: bool)
    requires NonNegativeWidths(line.syllables)
    ensures var r := StaticLayout.PositionLine(line, lineIndex, alignment, canvasWidth, lineHeight, isRtl);
            |r| == |line.syllables|
            && (forall k :: 0 <= k < |r| ==> r[k].syllable == line.syllables[k].syllable)
            && if isRtl then RightToLeft(r) else LeftToRight(r)
  {
    var r := StaticLayout.PositionLine(line, lineIndex, alignment, canvasWidth, lineHeight, isRtl);
    var s := line.syllables;
    StaticLayout.RowGeometry(line, lineIndex, alignment, canvasWidth, lineHeight, isRtl);
    forall k | 0 <= k < |r| ensures r[k].width == s[k].width && r[k].syllable == s[k].syllable {
      assert r[k].(position := s[k].position) == s[k];
    }
    if isRtl {
      AbuttingRightToLeft(r);
    } else {
      AbuttingLeftToRight(r);
    }
  }

  /** For a row positioned by pass 1 from time-ordered syllables of
      non-negative width, the normalised progress moves only in the row's
      text direction as time passes. */
  lemma PositionedLineProgressMonotone(line: WrappedLine, lineIndex: nat, alignment: StaticLayout.Alignment,
                                       canvasWidth: real, lineHeight: real, isRtl: bool, t: int, t': int)
    requires NonNegativeWidths(line.syllables) && TimeOrdered(line.syllables) && t <= t'
    ensures var r := StaticLayout.PositionLine(line, lineIndex, alignment, canvasWidth, lineHeight, isRtl);
            r != [] && MaxRight(r) - MinX(r) > 0.0 ==>
              if isRtl then LineProgress(r, t', true) <= LineProgress(r, t, true)
              else LineProgress(r, t, false) <= LineProgress(r, t', false)
  {
    var r := StaticLayout.PositionLine(line, lineIndex, alignment, canvasWidth, lineHeight, isRtl);
    PositionedRowShape(line, lineIndex, alignment, canvasWidth, lineHeight, isRtl);
    if r != [] && MaxRight(r) - MinX(r) > 0.0 {
      assert TimeOrdered(r);
      LineProgressMonotone(r, t, t');
    }
  }
}
