/** Colour helpers shared by the chip, the countdown badge and the scroll
    timeline: JavaScript `parseInt(s, 16)`, `hexToRgba`, `parseRgb`,
    `clamp01` and `interpolateColor`. A channel that JavaScript would hold
    as `NaN` is `None`. */
module Color {
  import opened Wrappers
  import opened Text

  /** Length of the run of hexadecimal digits at the start of `s`. */
  function HexRun(s: string): (n: nat)
    ensures n <= |s|
    ensures forall k :: 0 <= k < n ==> IsHexDigit(s[k])
    ensures n < |s| ==> !IsHexDigit(s[n])
    decreases |s|
  {
    if |s| > 0 && IsHexDigit(s[0]) then 1 + HexRun(s[1..]) else 0
  }

  /** The unsigned part of `parseInt(s, 16)`: a `0x`/`0X` prefix is
      dropped and the longest run of hexadecimal digits is read; no digits
      at all gives `NaN`. */
  function UnsignedHex(u: string): (r: Option<int>)
    ensures r.Some? ==> r.value >= 0
    ensures |u| >= 1 && AllHex(u) ==> r == Some(DigitsValue(u, 16))
    ensures u == "" ==> r.None?
  {
    var v := if |u| >= 2 && u[0] == '0' && (u[1] == 'x' || u[1] == 'X') then u[2..] else u;
    var n := HexRun(v);
    if n == 0 then None
    else if |u| >= 1 && AllHex(u) then
      assert v == u by {
        if |u| >= 2 { assert IsHexDigit(u[1]); }
      }
      assert n == |u|;
      assert v[..n] == u;
      Some(DigitsValue(v[..n], 16))
    else
      Some(DigitsValue(v[..n], 16))
  }

  /** JavaScript `parseInt(s, 16)`: leading whitespace is skipped before
      the signed part. */
  function ParseInt16(s: string): (r: Option<int>)
  {
    SignedHex(TrimStart(s))
  }

  function Negate(u: Option<int>): (r: Option<int>)
    ensures r.Some? <==> u.Some?
    ensures u.Some? ==> r.value == -u.value
  {
    if u.None? then None else Some(-u.value)
  }

  /** One optional sign, then the unsigned part. */
  function SignedHex(t: string): (r: Option<int>)
    ensures |t| >= 1 && AllHex(t) ==> r == Some(DigitsValue(t, 16))
  {
    if |t| > 0 && t[0] == '-' then
      Negate(UnsignedHex(t[1..]))
    else if |t| > 0 && t[0] == '+' then
      UnsignedHex(t[1..])
    else
      UnsignedHex(t)
  }

  /** A non-empty string of hexadecimal digits parses to its value. */
  lemma ParseInt16OfHex(s: string)
    requires |s| >= 1 && AllHex(s)
    ensures ParseInt16(s) == Some(DigitsValue(s, 16))
  {
    TrimStartKeeps(s);
    var d: int := DigitsValue(s, 16);
    assert SignedHex(s) == Some(d);
  }

  /** A leading minus sign negates. */
  lemma ParseInt16Negative(s: string)
    requires |s| >= 1 && AllHex(s)
    ensures ParseInt16("-" + s) == Negate(ParseInt16(s))
  {
    TrimStartKeeps(s);
    var neg := "-" + s;
    TrimStartKeeps(neg);
    assert neg[0] == '-' && neg[1..] == s;
  }

  /** A `0x` prefix is skipped. */
  lemma ParseInt16Prefixed(s: string)
    requires |s| >= 1 && AllHex(s)
    ensures ParseInt16("0x" + s) == ParseInt16(s)
  {
    TrimStartKeeps(s);
    var hex := "0x" + s;
    TrimStartKeeps(hex);
    assert hex[0] == '0' && hex[1] == 'x' && hex[2..] == s;
  }

  lemma TrimStartKeeps(s: string)
    requires |s| >= 1 && !IsJsSpace(s[0])
    ensures TrimStart(s) == s
  {
  }

  /** Blank input, or input with no digits after the sign and prefix, is
      `NaN`. */
  lemma ParseInt16NoDigits(s: string)
    ensures TrimStart(s) == "" ==> ParseInt16(s).None?
    ensures s == "-" || s == "0x" || s == "NaN" ==> ParseInt16(s).None?
  {
    if s == "-" || s == "0x" || s == "NaN" {
      TrimStartKeeps(s);
    }
  }

  /** The red, green and blue channels of a colour; `None` stands for `NaN`. */
  datatype Rgb = Rgb(r: Option<int>, g: Option<int>, b: Option<int>)

  /** An `rgba(r, g, b, alpha)` colour. */
  datatype Rgba = Rgba(rgb: Rgb, alpha: real)

  /** Value of the two hexadecimal digits `c` and `d`. */
  function PairValue(c: char, d: char): (v: int)
    requires IsHexDigit(c) && IsHexDigit(d)
    ensures 0 <= v < 256
  {
    16 * HexDigit(c) + HexDigit(d)
  }

  lemma PairParses(c: char, d: char)
    requires IsHexDigit(c) && IsHexDigit(d)
    ensures ParseInt16([c, d]) == Some(PairValue(c, d))
  {
    var s := [c, d];
    assert AllHex(s);
    ParseInt16OfHex(s);
    PairDigitsValue(c, d);
  }

  /** Two hexadecimal digits read as a base-16 number. */
  lemma PairDigitsValue(c: char, d: char)
    requires IsHexDigit(c) && IsHexDigit(d)
    ensures DigitsValue([c, d], 16) == PairValue(c, d)
  {
    var s := [c, d];
    assert s[..1] == [c];
    assert [c][..0] == [];
    assert DigitsValue([c], 16) == HexDigit(c);
    assert DigitsValue(s, 16) == DigitsValue([c], 16) * 16 + HexDigit(d);
  }

  /** `hexToRgba(hex, alpha)`: the channels are read from the characters at
      offsets 1-2, 3-4 and 5-6; the alpha is passed through. */
  function HexToRgba(hex: string, alpha: real): (c: Rgba)
    ensures c.alpha == alpha
    ensures IsHexColor(hex) ==> c.rgb == Rgb(Some(PairValue(hex[1], hex[2])),
                                             Some(PairValue(hex[3], hex[4])),
                                             Some(PairValue(hex[5], hex[6])))
    ensures |hex| <= 1 ==> c.rgb == Rgb(None, None, None)
  {
    if IsHexColor(hex) then
      assert hex[1..3] == [hex[1], hex[2]] && hex[3..5] == [hex[3], hex[4]] && hex[5..7] == [hex[5], hex[6]];
      assert IsHexDigit(hex[1]) && IsHexDigit(hex[2]) by { assert hex[1..][0] == hex[1] && hex[1..][1] == hex[2]; }
      assert IsHexDigit(hex[3]) && IsHexDigit(hex[4]) by { assert hex[1..][2] == hex[3] && hex[1..][3] == hex[4]; }
      assert IsHexDigit(hex[5]) && IsHexDigit(hex[6]) by { assert hex[1..][4] == hex[5] && hex[1..][5] == hex[6]; }
      PairParses(hex[1], hex[2]);
      PairParses(hex[3], hex[4]);
      PairParses(hex[5], hex[6]);
      Rgba(Rgb(ParseInt16(Slice(hex, 1, 3)), ParseInt16(Slice(hex, 3, 5)), ParseInt16(Slice(hex, 5, 7))), alpha)
    else
      Rgba(Rgb(ParseInt16(Slice(hex, 1, 3)), ParseInt16(Slice(hex, 3, 5)), ParseInt16(Slice(hex, 5, 7))), alpha)
  }

  /** A channel in the displayable range. */
  predicate InByteRange(c: Option<int>) {
    c.Some? && 0 <= c.value < 256
  }

  predicate IsByteRgb(c: Rgb) {
    InByteRange(c.r) && InByteRange(c.g) && InByteRange(c.b)
  }

  /** `s.padStart(2, "0")`. */
  function PadStart2(s: string): (r: string)
    ensures |s| >= 2 ==> r == s
    ensures |s| < 2 ==> |r| == 2 && r[2 - |s|..] == s
    ensures forall k :: 0 <= k < 2 - |s| ==> r[k] == '0'
  {
    if |s| >= 2 then s else if |s| == 1 then "0" + s else "00"
  }

  /** `n.toString(16).padStart(2, "0")` for a channel value, `NaN`
      included. */
  function ChannelHex(c: Option<int>): (s: string)
    ensures InByteRange(c) ==> |s| == 2 && AllHex(s) && !IsAsciiUpper(s[0]) && !IsAsciiUpper(s[1])
  {
    match c
    case None => "NaN"
    case Some(v) => PadStart2(if v < 0 then "-" + HexString(-v) else HexString(v))
  }

  /** The `#rrggbb` text `interpolateColor` builds from three channels. */
  function FormatRgb(c: Rgb): string {
    "#" + ChannelHex(c.r) + ChannelHex(c.g) + ChannelHex(c.b)
  }

  /** Formatting a displayable colour gives `#` and six lower-case
      hexadecimal digits. */
  lemma FormatRgbShape(c: Rgb)
    requires IsByteRgb(c)
    ensures IsHexColor(FormatRgb(c))
    ensures forall k :: 0 <= k < |FormatRgb(c)| ==> !IsAsciiUpper(FormatRgb(c)[k])
  {
    ThreePairs(ChannelHex(c.r), ChannelHex(c.g), ChannelHex(c.b));
  }

  /** `#` and three pairs of lower-case hexadecimal digits. */
  lemma ThreePairs(pr: string, pg: string, pb: string)
    requires |pr| == 2 && AllHex(pr) && !IsAsciiUpper(pr[0]) && !IsAsciiUpper(pr[1])
    requires |pg| == 2 && AllHex(pg) && !IsAsciiUpper(pg[0]) && !IsAsciiUpper(pg[1])
    requires |pb| == 2 && AllHex(pb) && !IsAsciiUpper(pb[0]) && !IsAsciiUpper(pb[1])
    ensures IsHexColor("#" + pr + pg + pb)
    ensures forall k :: 0 <= k < |"#" + pr + pg + pb| ==> !IsAsciiUpper(("#" + pr + pg + pb)[k])
  {
    var s := "#" + pr + pg + pb;
    forall k | 1 <= k < 7 ensures IsHexDigit(s[k]) && !IsAsciiUpper(s[k]) {
      if k < 3 {
        assert s[k] == pr[k - 1];
      } else if k < 5 {
        assert s[k] == pg[k - 3];
      } else {
        assert s[k] == pb[k - 5];
      }
    }
    assert forall k :: 0 <= k < 6 ==> s[1..][k] == s[k + 1];
  }

  /** A formatted channel reads back as the same value. */
  lemma ChannelHexParses(v: int)
    requires 0 <= v < 256
    ensures ParseInt16(ChannelHex(Some(v))) == Some(v)
  {
    var h := HexString(v);
    HexStringValue(v);
    var p := ChannelHex(Some(v));
    if |h| == 1 {
      assert p == "0" + h;
      LeadingZero(h, 16);
    } else {
      assert p == h;
    }
    ParseInt16OfHex(p);
    var d: int := DigitsValue(p, 16);
    assert d == v;
    assert ParseInt16(p) == Some(d);
  }

  /** The two digits of a formatted channel spell its value. */
  lemma ChannelHexPair(v: int)
    requires 0 <= v < 256
    ensures var p := ChannelHex(Some(v));
      IsHexDigit(p[0]) && IsHexDigit(p[1]) && PairValue(p[0], p[1]) == v
  {
    var p := ChannelHex(Some(v));
    assert p == [p[0], p[1]];
    assert IsHexDigit(p[0]) && IsHexDigit(p[1]);
    ChannelHexParses(v);
    PairParses(p[0], p[1]);
  }

  /** Formatting then `hexToRgba` gives back the channels. */
  lemma HexToRgbaOfFormat(c: Rgb, alpha: real)
    requires IsByteRgb(c)
    ensures HexToRgba(FormatRgb(c), alpha) == Rgba(c, alpha)
  {
    var s := FormatRgb(c);
    FormatRgbShape(c);
    var pr, pg, pb := ChannelHex(c.r), ChannelHex(c.g), ChannelHex(c.b);
    ChannelHexPair(c.r.value);
    ChannelHexPair(c.g.value);
    ChannelHexPair(c.b.value);
    assert s[1] == pr[0] && s[2] == pr[1];
    assert s[3] == pg[0] && s[4] == pg[1];
    assert s[5] == pb[0] && s[6] == pb[1];
  }

  /** `parseRgb(value)`: an optional `#` is dropped, a three-digit
      shorthand is expanded by doubling each digit, and the channels are
      read from offsets 0-1, 2-3 and 4-5. */
  function ParseRgb(value: string): (c: Rgb)
    ensures IsHexColor(value) ==> c == HexToRgba(value, 1.0).rgb
  {
    var normalized := if StartsWith(value, "#") then value[1..] else value;
    var hex := if |normalized| == 3
      then [normalized[0], normalized[0], normalized[1], normalized[1], normalized[2], normalized[2]]
      else normalized;
    if IsHexColor(value) then
      assert hex == value[1..];
      assert Slice(hex, 0, 2) == Slice(value, 1, 3);
      assert Slice(hex, 2, 4) == Slice(value, 3, 5);
      assert Slice(hex, 4, 6) == Slice(value, 5, 7);
      Rgb(ParseInt16(Slice(hex, 0, 2)), ParseInt16(Slice(hex, 2, 4)), ParseInt16(Slice(hex, 4, 6)))
    else
      Rgb(ParseInt16(Slice(hex, 0, 2)), ParseInt16(Slice(hex, 2, 4)), ParseInt16(Slice(hex, 4, 6)))
  }

  /** A shorthand `#abc` means `#aabbcc`: each channel is its digit
      times 17. */
  lemma ShorthandDoubles(a: char, b: char, c: char)
    requires IsHexDigit(a) && IsHexDigit(b) && IsHexDigit(c)
    ensures ParseRgb(['#', a, b, c]) == ParseRgb(['#', a, a, b, b, c, c])
    ensures ParseRgb(['#', a, b, c]) == Rgb(Some(17 * HexDigit(a)), Some(17 * HexDigit(b)), Some(17 * HexDigit(c)))
  {
    var va, vb, vc := PairValue(a, a), PairValue(b, b), PairValue(c, c);
    var want := Rgb(Some(va), Some(vb), Some(vc));
    assert va == 17 * HexDigit(a) && vb == 17 * HexDigit(b) && vc == 17 * HexDigit(c);
    ShorthandExpands(a, b, c);
    PairParses(a, a);
    PairParses(b, b);
    PairParses(c, c);
    assert ParseRgb(['#', a, b, c]) == want;
    var long := ['#', a, a, b, b, c, c];
    DoubledIsHexColor(a, b, c);
    assert HexToRgba(long, 1.0).rgb == want;
  }

  lemma DoubledIsHexColor(a: char, b: char, c: char)
    requires IsHexDigit(a) && IsHexDigit(b) && IsHexDigit(c)
    ensures IsHexColor(['#', a, a, b, b, c, c])
  {
    var long := ['#', a, a, b, b, c, c];
    assert long[1..] == [a, a, b, b, c, c];
  }

  lemma ShorthandExpands(a: char, b: char, c: char)
    ensures ParseRgb(['#', a, b, c]) == Rgb(ParseInt16([a, a]), ParseInt16([b, b]), ParseInt16([c, c]))
  {
    var short := ['#', a, b, c];
    assert StartsWith(short, "#") && short[1..] == [a, b, c];
    var hex := [a, a, b, b, c, c];
    assert hex[0..2] == [a, a] && hex[2..4] == [b, b] && hex[4..6] == [c, c];
  }

  /** `clamp01(value)`: `Math.max(0, Math.min(1, value))`. */
  function Clamp01(x: real): (r: real)
    ensures 0.0 <= r <= 1.0
    ensures 0.0 <= x <= 1.0 ==> r == x
    ensures x < 0.0 ==> r == 0.0
    ensures x > 1.0 ==> r == 1.0
  {
    if x < 0.0 then 0.0 else if x > 1.0 then 1.0 else x
  }

  /** `Math.round`: the nearest integer, halves rounded up. */
  function JsRound(x: real): (n: int)
    ensures n as real - 0.5 <= x < n as real + 0.5
  {
    (x + 0.5).Floor
  }

  /** One channel of `interpolateColor`: `Math.round(c1 + (c2 - c1) * t)`,
      `NaN` if either input is. */
  function Mix(c1: Option<int>, c2: Option<int>, t: real): (c: Option<int>)
    ensures c.Some? <==> c1.Some? && c2.Some?
  {
    if c1.Some? && c2.Some? then
      Some(JsRound(Lerp(c1.value, c2.value, t)))
    else None
  }

  /** The point a fraction `t` of the way from `a` to `b`. */
  function Lerp(a: int, b: int, t: real): real {
    a as real + (b - a) as real * t
  }

  /** `interpolateColor(color1, color2, ratio)`. */
  function InterpolateColor(color1: string, color2: string, ratio: real): (s: string)
    ensures IsByteRgb(ParseRgb(color1)) && IsByteRgb(ParseRgb(color2)) ==>
      IsHexColor(s) && forall k :: 0 <= k < |s| ==> !IsAsciiUpper(s[k])
  {
    var c1 := ParseRgb(color1);
    var c2 := ParseRgb(color2);
    var t := Clamp01(ratio);
    var mixed := Rgb(Mix(c1.r, c2.r, t), Mix(c1.g, c2.g, t), Mix(c1.b, c2.b, t));
    if IsByteRgb(c1) && IsByteRgb(c2) then
      MixBetween(c1.r, c2.r, t);
      MixBetween(c1.g, c2.g, t);
      MixBetween(c1.b, c2.b, t);
      FormatRgbShape(mixed);
      FormatRgb(mixed)
    else
      FormatRgb(mixed)
  }

  /** A mixed channel lies between its two inputs, whatever the ratio in
      [0, 1]; ratio 0 gives the first and ratio 1 the second. */
  lemma MixBetween(c1: Option<int>, c2: Option<int>, t: real)
    requires c1.Some? && c2.Some?
    requires 0.0 <= t <= 1.0
    ensures var m := Mix(c1, c2, t).value;
      (c1.value <= m <= c2.value) || (c2.value <= m <= c1.value)
    ensures t == 0.0 ==> Mix(c1, c2, t) == c1
    ensures t == 1.0 ==> Mix(c1, c2, t) == c2
  {
    var a, b := c1.value, c2.value;
    LerpWithin(a, b, t);
    if a <= b {
      RoundWithin(Lerp(a, b, t), a, b);
    } else {
      RoundWithin(Lerp(a, b, t), b, a);
    }
    if t == 0.0 {
      RoundWithin(a as real, a, a);
    }
    if t == 1.0 {
      RoundWithin(b as real, b, b);
    }
  }

  /** A point part of the way from `a` to `b` lies between them, and is
      `a` at fraction 0 and `b` at fraction 1. */
  lemma LerpWithin(a: int, b: int, t: real)
    requires 0.0 <= t <= 1.0
    ensures a <= b ==> a as real <= Lerp(a, b, t) <= b as real
    ensures b < a ==> b as real <= Lerp(a, b, t) <= a as real
    ensures t == 0.0 ==> Lerp(a, b, t) == a as real
    ensures t == 1.0 ==> Lerp(a, b, t) == b as real
  {
    var d := (b - a) as real;
    if a <= b {
      assert 0.0 <= d * t <= d * 1.0;
    } else {
      assert d * 1.0 <= d * t <= 0.0;
    }
  }

  /** Rounding a number between two integers stays between them. */
  lemma RoundWithin(x: real, lo: int, hi: int)
    requires lo as real <= x <= hi as real
    ensures lo <= JsRound(x) <= hi
  {
  }

  /** At ratio 0 (or below) the result is the first colour written as
      lower-case `#rrggbb`; at ratio 1 (or above) it is the second. */
  lemma InterpolateEnds(color1: string, color2: string, ratio: real)
    requires IsByteRgb(ParseRgb(color1)) && IsByteRgb(ParseRgb(color2))
    ensures ratio <= 0.0 ==> InterpolateColor(color1, color2, ratio) == FormatRgb(ParseRgb(color1))
    ensures ratio >= 1.0 ==> InterpolateColor(color1, color2, ratio) == FormatRgb(ParseRgb(color2))
  {
    var c1 := ParseRgb(color1);
    var c2 := ParseRgb(color2);
    var t := Clamp01(ratio);
    MixBetween(c1.r, c2.r, t);
    MixBetween(c1.g, c2.g, t);
    MixBetween(c1.b, c2.b, t);
  }

  /** Every channel of the result lies between the corresponding channels
      of the two inputs, and reads back from the output text. */
  lemma InterpolateBetween(color1: string, color2: string, ratio: real)
    requires IsByteRgb(ParseRgb(color1)) && IsByteRgb(ParseRgb(color2))
    ensures var c1 := ParseRgb(color1);
      var c2 := ParseRgb(color2);
      var m := ParseRgb(InterpolateColor(color1, color2, ratio));
      IsByteRgb(m) && BetweenRgb(c1, m, c2) && BetweenRgb(c2, m, c1)
  {
    var c1 := ParseRgb(color1);
    var c2 := ParseRgb(color2);
    var t := Clamp01(ratio);
    var mixed := Rgb(Mix(c1.r, c2.r, t), Mix(c1.g, c2.g, t), Mix(c1.b, c2.b, t));
    MixBetween(c1.r, c2.r, t);
    MixBetween(c1.g, c2.g, t);
    MixBetween(c1.b, c2.b, t);
    HexToRgbaOfFormat(mixed, 1.0);
    FormatRgbShape(mixed);
  }

  /** Channel `m` lies between channels `lo` and `hi`, in either order. */
  predicate Between(lo: Option<int>, m: Option<int>, hi: Option<int>) {
    && lo.Some? && m.Some? && hi.Some?
    && ((lo.value <= m.value <= hi.value) || (hi.value <= m.value <= lo.value))
  }

  /** Every channel of `m` lies between those of `lo` and `hi`. */
  predicate BetweenRgb(lo: Rgb, m: Rgb, hi: Rgb) {
    Between(lo.r, m.r, hi.r) && Between(lo.g, m.g, hi.g) && Between(lo.b, m.b, hi.b)
  }

  /** Formatting a `#rrggbb` colour's channels lower-cases it and changes
      nothing else. */
  lemma FormatParsedHex(value: string)
    requires IsHexColor(value)
    ensures IsByteRgb(ParseRgb(value))
    ensures FormatRgb(ParseRgb(value)) == Lower(value)
  {
    HexColorDigits(value);
    var c := ParseRgb(value);
    assert c == HexToRgba(value, 1.0).rgb;
    FormatPairs(value, c);
  }

  lemma FormatPairs(value: string, c: Rgb)
    requires IsHexColor(value)
    requires forall k :: 1 <= k < 7 ==> IsHexDigit(value[k])
    requires c == Rgb(Some(PairValue(value[1], value[2])),
                      Some(PairValue(value[3], value[4])),
                      Some(PairValue(value[5], value[6])))
    ensures FormatRgb(c) == Lower(value)
  {
    PairLower(value[1], value[2]);
    PairLower(value[3], value[4]);
    PairLower(value[5], value[6]);
    LowerHexColor(value);
    HashAndPairs(LowerChar(value[1]), LowerChar(value[2]), LowerChar(value[3]),
                 LowerChar(value[4]), LowerChar(value[5]), LowerChar(value[6]));
  }

  lemma HashAndPairs(a: char, b: char, c: char, d: char, e: char, f: char)
    ensures "#" + [a, b] + [c, d] + [e, f] == ['#', a, b, c, d, e, f]
  {
  }

  /** Lower-casing a seven-character string character by character. */
  lemma LowerHexColor(value: string)
    requires IsHexColor(value)
    ensures Lower(value) == ['#', LowerChar(value[1]), LowerChar(value[2]), LowerChar(value[3]),
                             LowerChar(value[4]), LowerChar(value[5]), LowerChar(value[6])]
  {
    assert LowerChar('#') == '#';
  }

  lemma HexColorDigits(value: string)
    requires IsHexColor(value)
    ensures forall k :: 1 <= k < 7 ==> IsHexDigit(value[k])
  {
    forall k | 1 <= k < 7 ensures IsHexDigit(value[k]) {
      assert value[1..][k - 1] == value[k];
    }
  }

  /** Two hexadecimal digits written back by `toString(16).padStart(2, "0")`
      come out lower-cased. */
  lemma PairLower(c: char, d: char)
    requires IsHexDigit(c) && IsHexDigit(d)
    ensures ChannelHex(Some(PairValue(c, d))) == [LowerChar(c), LowerChar(d)]
  {
    var v := PairValue(c, d);
    DigitWrittenLower(c);
    DigitWrittenLower(d);
    assert v / 16 == HexDigit(c) && v % 16 == HexDigit(d);
    ChannelHexByte(v);
  }

  /** A hexadecimal digit's value written back is the digit lower-cased. */
  lemma DigitWrittenLower(c: char)
    requires IsHexDigit(c)
    ensures HexChar(HexDigit(c)) == LowerChar(c)
  {
  }

  /** A byte is written as its two hexadecimal digits. */
  lemma ChannelHexByte(v: int)
    requires 0 <= v < 256
    ensures ChannelHex(Some(v)) == [HexChar(v / 16), HexChar(v % 16)]
  {
    if v < 16 {
      assert HexString(v) == [HexChar(v)];
    } else {
      assert HexString(v / 16) == [HexChar(v / 16)];
    }
  }
}
