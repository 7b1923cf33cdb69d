/** The chip component's colours: the filled variant paints the chip in
    its colour with a fixed translucent grey border, the outline variant
    tints background and border with the colour at two opacities. The
    same `hexToRgba` helper also serves the applications countdown. */
module Chip {
  import opened Wrappers
  import opened Text
  import opened Color

  const DefaultColor := "#41C9C1"
  const DimText := "#DBDBDB"
  const FilledBorder := "#3F3F3F"

  datatype Variant = Outline | Filled

  /** The chip's props; `None` is an omitted prop. */
  datatype ChipProps = ChipProps(color: Option<string>, variant: Option<Variant>, textColor: Option<string>)

  /** A CSS colour value: a string used as given, or an `rgba(...)`
      built by `hexToRgba`. */
  datatype Paint = Css(value: string) | RgbaPaint(rgba: Rgba)

  datatype ChipStyle = ChipStyle(background: Paint, border: Paint, text: string)

  /** `getTextColor`: the dimmed grey for a missing or empty value and for
      the names `gray` and `grey`; any other value as given. */
  function GetTextColor(value: Option<string>): (r: string)
    ensures value.None? || value.value in {"", "gray", "grey"} ==> r == DimText
    ensures value.Some? && value.value !in {"", "gray", "grey"} ==> r == value.value
  {
    if value.None? || value.value == "" then DimText
    else if value.value == "gray" || value.value == "grey" then DimText
    else if StartsWith(value.value, "#") then value.value
    else value.value
  }

  /** Feeding the chosen text colour back in chooses it again. */
  lemma GetTextColorIdempotent(value: Option<string>)
    ensures GetTextColor(Some(GetTextColor(value))) == GetTextColor(value)
  {
  }

  /** The chip's background, border and text colours. */
  function ChipColors(props: ChipProps): (s: ChipStyle)
    ensures var color := props.color.GetOr(DefaultColor);
      props.variant == Some(Filled) ==>
        s == ChipStyle(Css(color), RgbaPaint(HexToRgba(FilledBorder, 0.6)), GetTextColor(props.textColor))
    ensures var color := props.color.GetOr(DefaultColor);
      props.variant != Some(Filled) ==>
        s == ChipStyle(RgbaPaint(HexToRgba(color, 0.2)), RgbaPaint(HexToRgba(color, 0.4)), color)
  {
    var color := props.color.GetOr(DefaultColor);
    var isFilled := props.variant.GetOr(Outline) == Filled;
    var background := if isFilled then Css(color) else RgbaPaint(HexToRgba(color, 0.2));
    var border := if isFilled then RgbaPaint(HexToRgba(FilledBorder, 0.6)) else RgbaPaint(HexToRgba(color, 0.4));
    var text := if isFilled then GetTextColor(props.textColor) else color;
    ChipStyle(background, border, text)
  }

  /** The filled border is `rgba(63, 63, 63, 0.6)` whatever the colour. */
  lemma FilledBorderGrey(color: Option<string>, textColor: Option<string>)
    ensures ChipColors(ChipProps(color, Some(Filled), textColor)).border ==
      RgbaPaint(Rgba(Rgb(Some(63), Some(63), Some(63)), 0.6))
  {
    var g := FilledBorder;
    assert g[1..] == "3F3F3F";
    assert IsHexColor(g);
    assert PairValue('3', 'F') == 63;
  }

  /** An outline chip's background and border carry the same channels,
      the border at twice the opacity, and its text is the chip colour
      whatever `textColor` says. */
  lemma OutlineTint(color: Option<string>, variant: Option<Variant>, t1: Option<string>, t2: Option<string>)
    requires variant != Some(Filled)
    ensures var s := ChipColors(ChipProps(color, variant, t1));
      s.background.RgbaPaint? && s.border.RgbaPaint? &&
      s.background.rgba.rgb == s.border.rgba.rgb &&
      s.border.rgba.alpha == 2.0 * s.background.rgba.alpha
    ensures ChipColors(ChipProps(color, variant, t1)) == ChipColors(ChipProps(color, variant, t2))
  {
  }

  /** With no props at all the chip is an outline in the default teal:
      `rgba(65, 201, 193, 0.2)` behind, `rgba(65, 201, 193, 0.4)` around. */
  lemma DefaultChip()
    ensures ChipColors(ChipProps(None, None, None)) ==
      ChipStyle(RgbaPaint(Rgba(Rgb(Some(65), Some(201), Some(193)), 0.2)),
                RgbaPaint(Rgba(Rgb(Some(65), Some(201), Some(193)), 0.4)),
                DefaultColor)
  {
    DefaultChannels(0.2);
    DefaultChannels(0.4);
  }

  lemma DefaultChannels(alpha: real)
    ensures HexToRgba(DefaultColor, alpha) == Rgba(Rgb(Some(65), Some(201), Some(193)), alpha)
  {
    var c := DefaultColor;
    assert c[1..] == "41C9C1";
    assert IsHexColor(c);
    assert PairValue('4', '1') == 65;
    assert PairValue('C', '9') == 201;
    assert PairValue('C', '1') == 193;
  }
}
