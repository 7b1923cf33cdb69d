/** The scroll-linked timeline: each item's scroll window, the title
    colour and row opacity as functions of scroll progress, and the stops
    (item start positions) either measured from the page or spread evenly.
    Scroll progress, element rectangles and the track height are
    parameters. */
module Timeline {
  import opened Wrappers
  import opened Text
  import opened Color

  /** The dimmed title colour. */
  const DimText: string := "#DBDBDB"

  /** The scroll window of one item, derived from its start and the next
      item's start. */
  datatype Bounds = Bounds(leadInStart: real, leadInEnd: real, activeStart: real,
                           activeEnd: real, leadOutEnd: real)

  predicate InUnit(x: real) { 0.0 <= x <= 1.0 }

  function ItemBounds(start: real, nextStart: real): (b: Bounds)
    ensures InUnit(b.leadInStart) && InUnit(b.leadInEnd) && InUnit(b.activeStart)
    ensures InUnit(b.activeEnd) && InUnit(b.leadOutEnd)
    ensures b.leadInStart <= b.leadInEnd <= b.activeStart
    ensures b.activeEnd <= b.leadOutEnd
    ensures start <= nextStart ==> b.activeStart <= b.activeEnd
    ensures 0.1 <= start <= 1.0 && 0.0 <= nextStart <= 0.9 ==>
      b.leadInStart == start - 0.1 && b.leadOutEnd == nextStart + 0.1
  {
    Bounds(Clamp01(start - 0.1), Clamp01(start - 0.04), Clamp01(start - 0.01),
           Clamp01(nextStart - 0.01), Clamp01(nextStart + 0.1))
  }

  /** JavaScript `x || 1` on a number: zero is replaced by one. */
  function OrOne(x: real): (r: real)
    ensures r != 0.0
    ensures x != 0.0 ==> r == x
  {
    if x == 0.0 then 1.0 else x
  }

  /** Which of the title's four looks applies at a scroll progress: dimmed,
      full line colour, or a blend in from (or out to) the dimmed colour
      at ratio `t`. */
  datatype Shade = Dim | Full | FadeIn(t: real) | FadeOut(t: real)

  /** The zone of the title-colour transform that `value` falls in. The
      transform's last `return DIM_TEXT` is unreachable: every value not
      below `leadOutEnd` is caught by the first test. */
  function TitleShade(value: real, b: Bounds): (s: Shade)
    ensures s == Dim <==> value <= b.leadInStart || value >= b.leadOutEnd
    ensures s == Full <==> b.leadInStart < value < b.leadOutEnd && b.leadInEnd <= value <= b.activeEnd
    ensures s.FadeIn? <==> b.leadInStart < value < b.leadOutEnd && value < b.leadInEnd
    ensures s.FadeOut? <==> b.leadInStart < value < b.leadOutEnd && b.leadInEnd <= value && b.activeEnd < value
    ensures s.FadeIn? && b.leadInStart <= b.leadInEnd ==> 0.0 < s.t < 1.0
  {
    if value <= b.leadInStart || value >= b.leadOutEnd then Dim
    else if value < b.leadInEnd then
      FadeRatio(value - b.leadInStart, b.leadInEnd - b.leadInStart);
      FadeIn((value - b.leadInStart) / OrOne(b.leadInEnd - b.leadInStart))
    else if value <= b.activeEnd then Full
    else FadeOut((value - b.activeEnd) / OrOne(b.leadOutEnd - b.activeEnd))
  }

  /** A positive amount short of a span is a ratio strictly inside (0, 1). */
  lemma FadeRatio(x: real, span: real)
    requires 0.0 < x < span
    ensures 0.0 < x / OrOne(span) < 1.0
  {
    assert OrOne(span) == span;
    DivStrict(x, span, span);
    assert span / span == 1.0;
  }

  lemma DivStrict(x: real, y: real, d: real)
    requires x < y && d > 0.0
    ensures x / d < y / d
  {
  }

  /** The colour a shade stands for, given the line colour. */
  function ShadeColor(s: Shade, color: string): (c: string)
    ensures s == Dim ==> c == DimText
    ensures s == Full ==> c == color
  {
    match s
    case Dim => DimText
    case Full => color
    case FadeIn(t) => InterpolateColor(DimText, color, t)
    case FadeOut(t) => InterpolateColor(color, DimText, t)
  }

  /** The title colour at scroll progress `value`. */
  function TitleColor(value: real, b: Bounds, color: string): (c: string)
  {
    ShadeColor(TitleShade(value, b), color)
  }

  /** Outside the item's window the title is dimmed; in its active zone it
      takes the line colour. */
  lemma TitleColorZones(value: real, b: Bounds, color: string)
    ensures value <= b.leadInStart || value >= b.leadOutEnd ==> TitleColor(value, b, color) == DimText
    ensures b.leadInStart < value < b.leadOutEnd && b.leadInEnd <= value <= b.activeEnd ==>
      TitleColor(value, b, color) == color
  {
  }

  /** The dimmed colour is a plain `#rrggbb` grey. */
  lemma DimTextChannels()
    ensures ParseRgb(DimText) == Rgb(Some(219), Some(219), Some(219))
  {
    var d := DimText;
    assert d[1..] == "DBDBDB";
    assert IsHexColor(d);
    assert PairValue('D', 'B') == 219;
  }

  /** `c` is the dimmed colour, the line colour, or a colour each of
      whose channels lies between those two. */
  predicate OnDimSegment(c: string, color: string) {
    || c == DimText
    || c == color
    || (IsByteRgb(ParseRgb(c)) && BetweenRgb(ParseRgb(DimText), ParseRgb(c), ParseRgb(color)))
  }

  /** Whatever the scroll progress, the title colour stays on the segment
      between the dimmed colour and the line colour. */
  lemma TitleColorBetween(value: real, b: Bounds, color: string)
    requires IsByteRgb(ParseRgb(color))
    ensures OnDimSegment(TitleColor(value, b, color), color)
  {
    var s := TitleShade(value, b);
    ShadeBetween(s, color);
    SameSegment(TitleColor(value, b, color), ShadeColor(s, color), color);
  }

  /** Every shade's colour lies on the segment. */
  lemma ShadeBetween(s: Shade, color: string)
    requires IsByteRgb(ParseRgb(color))
    ensures OnDimSegment(ShadeColor(s, color), color)
  {
    match s
    case Dim =>
    case Full =>
    case FadeIn(t) =>
      BlendFromDim(color, t);
      SameSegment(ShadeColor(s, color), InterpolateColor(DimText, color, t), color);
    case FadeOut(t) =>
      BlendToDim(color, t);
      SameSegment(ShadeColor(s, color), InterpolateColor(color, DimText, t), color);
  }

  lemma SameSegment(c: string, d: string, color: string)
    requires c == d && OnDimSegment(d, color)
    ensures OnDimSegment(c, color)
  {
  }

  /** A blend from the dimmed colour to a displayable colour lies between
      the two. */
  lemma BlendFromDim(color: string, t: real)
    requires IsByteRgb(ParseRgb(color))
    ensures OnDimSegment(InterpolateColor(DimText, color, t), color)
  {
    DimTextChannels();
    InterpolateBetween(DimText, color, t);
  }

  /** So does a blend back to the dimmed colour. */
  lemma BlendToDim(color: string, t: real)
    requires IsByteRgb(ParseRgb(color))
    ensures OnDimSegment(InterpolateColor(color, DimText, t), color)
  {
    DimTextChannels();
    InterpolateBetween(color, DimText, t);
  }

  /** The row opacity at scroll progress `value`. */
  function RowOpacity(value: real, b: Bounds): (o: real)
    requires b.leadInStart <= b.activeStart && b.activeEnd <= b.leadOutEnd
    ensures InUnit(o)
    ensures value <= b.leadInStart || value >= b.leadOutEnd ==> o == 0.0
  {
    var enter := Clamp01((value - b.leadInStart) / OrOne(b.activeStart - b.leadInStart));
    var leave := Clamp01((b.leadOutEnd - value) / OrOne(b.leadOutEnd - b.activeEnd));
    if value <= b.leadInStart then
      NonPositiveRatio(value - b.leadInStart, b.activeStart - b.leadInStart);
      Clamp01(Min(enter, leave))
    else if value >= b.leadOutEnd then
      NonPositiveRatio(b.leadOutEnd - value, b.leadOutEnd - b.activeEnd);
      Clamp01(Min(enter, leave))
    else
      Clamp01(Min(enter, leave))
  }

  /** Between the end of the lead-in and the start of the lead-out the row
      is fully shown. */
  lemma RowOpacityFull(value: real, b: Bounds)
    requires b.leadInStart < b.activeStart <= value <= b.activeEnd < b.leadOutEnd
    ensures RowOpacity(value, b) == 1.0
  {
    RatioAtLeastOne(value - b.leadInStart, b.activeStart - b.leadInStart);
    RatioAtLeastOne(b.leadOutEnd - value, b.leadOutEnd - b.activeEnd);
  }

  /** An amount at least a positive span is a ratio of at least one. */
  lemma RatioAtLeastOne(x: real, span: real)
    requires 0.0 < span <= x
    ensures x / OrOne(span) >= 1.0
  {
    assert OrOne(span) == span;
    DivLe(span, x, span);
    assert span / span == 1.0;
  }

  lemma DivLe(x: real, y: real, d: real)
    requires x <= y && d > 0.0
    ensures x / d <= y / d
  {
  }

  function Min(a: real, b: real): (m: real)
    ensures m <= a && m <= b && (m == a || m == b)
  {
    if a <= b then a else b
  }

  /** A non-positive amount over a non-negative span (or one) is not
      positive. */
  lemma NonPositiveRatio(x: real, span: real)
    requires x <= 0.0 && span >= 0.0
    ensures x / OrOne(span) <= 0.0
  {
  }

  /** The divisor of the even spread: `Math.max(n - 1, 1)`. */
  function Divisor(n: nat): (d: nat)
    ensures d >= 1 && d + 1 >= n
    ensures n >= 2 ==> d == n - 1
  {
    if n - 1 > 1 then n - 1 else 1
  }

  /** The `index`-th of `n` evenly spread stops. */
  function EvenStop(index: nat, n: nat): real {
    index as real / Divisor(n) as real
  }

  /** The evenly spread stops: `index / max(n - 1, 1)` for each item. */
  function FallbackStops(n: nat): (r: seq<real>)
    ensures |r| == n
    ensures forall i :: 0 <= i < n ==> r[i] == EvenStop(i, n)
  {
    seq(n, i requires 0 <= i < n => EvenStop(i, n))
  }

  /** The even spread runs from 0 to 1 without going back. */
  lemma FallbackStopsShape(n: nat)
    ensures forall i :: 0 <= i < n ==> InUnit(FallbackStops(n)[i])
    ensures forall i, j :: 0 <= i <= j < n ==> FallbackStops(n)[i] <= FallbackStops(n)[j]
    ensures n >= 1 ==> FallbackStops(n)[0] == 0.0
    ensures n >= 2 ==> FallbackStops(n)[n - 1] == 1.0
  {
    var r := FallbackStops(n);
    forall i, j | 0 <= i <= j < n ensures r[i] <= r[j] {
      DivMonotone(i, j, Divisor(n));
    }
    forall i | 0 <= i < n ensures InUnit(r[i]) {
      DivMonotone(i, Divisor(n), Divisor(n));
      DivMonotone(0, i, Divisor(n));
    }
    if n >= 2 {
      var d := Divisor(n);
      assert r[n - 1] == d as real / d as real;
      SelfDiv(d);
    }
  }

  lemma SelfDiv(d: int)
    requires d > 0
    ensures d as real / d as real == 1.0
  {
  }

  lemma DivMonotone(i: int, j: int, d: int)
    requires i <= j && d > 0
    ensures i as real / d as real <= j as real / d as real
  {
    var x, y, z := i as real, j as real, d as real;
    assert y / z - x / z == (y - x) / z;
    assert (y - x) / z >= 0.0;
  }

  /** A title element's measurement: where its 55% line sits below the
      top of the track, or nothing when the element is not mounted. */
  type Midpoint = Option<real>

  /** The positions `measure` computes: one per mounted slot among the
      first `n`, each the midpoint over the track height clamped to
      [0, 1], or the even spread when there is no element or no height. */
  function MeasuredPositions(n: nat, titles: seq<Midpoint>, height: real): (r: seq<real>)
    ensures |r| == if |titles| < n then |titles| else n
    ensures forall i :: 0 <= i < |r| ==> InUnit(r[i])
    ensures forall i :: 0 <= i < |r| && (titles[i].None? || height == 0.0) ==> r[i] == FallbackStops(n)[i]
  {
    var fallback := FallbackStops(n);
    FallbackStopsShape(n);
    var slots := if |titles| < n then titles else titles[..n];
    seq(|slots|, i requires 0 <= i < |slots| =>
      if slots[i].None? || height == 0.0 then fallback[i]
      else Clamp01(slots[i].value / height))
  }

  function Abs(x: real): real { if x < 0.0 then -x else x }

  /** The state update after a measurement: the previous positions are
      kept when they have the same count and are each within 0.001 of the
      new ones. */
  function SettlePositions(prev: seq<real>, next: seq<real>): (r: seq<real>)
    ensures r == prev || r == next
    ensures |r| == |next|
    ensures forall i :: 0 <= i < |r| ==> Abs(r[i] - next[i]) < 0.001
  {
    if |prev| == |next| && forall i :: 0 <= i < |prev| ==> Abs(prev[i] - next[i]) < 0.001 then prev
    else next
  }

  /** The stops used for layout: the measured positions when there is one
      per item, the even spread otherwise. */
  function Stops(positions: seq<real>, n: nat): (r: seq<real>)
    ensures |r| == n
    ensures |positions| == n ==> r == positions
    ensures |positions| != n ==> r == FallbackStops(n)
    ensures (forall i :: 0 <= i < |positions| ==> InUnit(positions[i])) ==>
      forall i :: 0 <= i < n ==> InUnit(r[i])
  {
    FallbackStopsShape(n);
    if |positions| == n then positions else FallbackStops(n)
  }

  /** Item `index`'s start and the next item's start, with the `?? 0` and
      `?? 1` defaults past the end of the stops. */
  function Span(stops: seq<real>, index: nat): (r: (real, real))
    ensures index < |stops| ==> r.0 == stops[index]
    ensures index >= |stops| ==> r.0 == 0.0
    ensures index + 1 < |stops| ==> r.1 == stops[index + 1]
    ensures index + 1 >= |stops| ==> r.1 == 1.0
  {
    (if index < |stops| then stops[index] else 0.0,
     if index + 1 < |stops| then stops[index + 1] else 1.0)
  }

  /** With the even spread, consecutive items tile the scroll range: each
      item starts where the previous one hands over, the first at 0 and
      the last handing over at 1. */
  lemma FallbackSpansTile(n: nat, index: nat)
    requires index < n
    ensures var s := Span(FallbackStops(n), index);
      s.0 <= s.1 && InUnit(s.0) && InUnit(s.1)
    ensures index == 0 ==> Span(FallbackStops(n), index).0 == 0.0
    ensures index == n - 1 ==> Span(FallbackStops(n), index).1 == 1.0
    ensures index + 1 < n ==> Span(FallbackStops(n), index).1 == Span(FallbackStops(n), index + 1).0
  {
    FallbackStopsShape(n);
  }
}
