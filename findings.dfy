/**
 * Two places where src/index.js does not do what it evidently means to,
 * modelled as written, each with an input that shows the difference. The
 * rest of the model uses the corrected definitions in module Picker.
 */
module Findings {

  import opened Wrappers
  import opened ColorSpace
  import opened HexCodec
  import opened Picker

  // ------------------------------------------------------------------ //
  //       num_input_validation returns the input string unchanged       //
  // ------------------------------------------------------------------ //

  /**
   * What `num_input_validation` returns as written: the number 0 or the
   * bound when it replaces the input, and otherwise the input string
   * itself, not its value.
   */
  datatype Returned = Replaced(n: int) | Kept(raw: string)

  function NumInputValidationAsWritten(raw: string, alpha: bool): (r: Returned)
    ensures r.Kept? ==> r.raw == raw && IsPositiveInteger(raw) && DecimalValue(raw) <= Bound(alpha)
    ensures !IsPositiveInteger(raw) ==> r == Replaced(0)
    ensures IsPositiveInteger(raw) && DecimalValue(raw) <= Bound(alpha) ==> r == Kept(raw)
  {
    if !IsPositiveInteger(raw) then Replaced(0)
    else if DecimalValue(raw) > Bound(alpha) then Replaced(Bound(alpha))
    else Kept(raw)
  }

  /** The number JavaScript reads a returned value as, in arithmetic and in `Math.max`. */
  function Coerced(r: Returned): int
    requires r.Kept? ==> AllDigits(r.raw)
  {
    match r
    case Replaced(n) => n
    case Kept(raw) => DecimalValue(raw)
  }

  /**
   * Read as a number, the value returned as written is the corrected
   * `NumInputValidation`; it stays a string exactly for the digit strings
   * within the bound.
   */
  lemma AsWrittenCoercesToCorrected(raw: string, alpha: bool)
    ensures Coerced(NumInputValidationAsWritten(raw, alpha)) == NumInputValidation(raw, alpha)
    ensures NumInputValidationAsWritten(raw, alpha).Kept?
        <==> IsPositiveInteger(raw) && DecimalValue(raw) <= Bound(alpha)
  {
  }

  /**
   * `rgb_to_hsv` on a colour whose channels in `textual` hold such strings:
   * `Math.max`, `Math.min` and the subtractions coerce them, but the strict
   * comparison `max === channel` of a number with a string is false, so
   * that channel's branch is never taken.
   */
  function RgbToHsvAsWritten(c: Rgb, textual: set<Channel>): (hsv: Hsv)
    ensures textual == {} ==> hsv == RgbToHsv(c)
  {
    var max := Max3(c.r, c.g, c.b);
    var chroma := Chroma(c);
    var h0 := 0.0;
    var h1 := if chroma != 0 && Red !in textual && max == c.r then BranchHue(c, Red) else h0;
    var h2 := if chroma != 0 && Green !in textual && max == c.g then BranchHue(c, Green) else h1;
    var h3 := if chroma != 0 && Blue !in textual && max == c.b then BranchHue(c, Blue) else h2;
    var s := if max == 0 then 0.0 else chroma as real / max as real;
    Hsv(Normalise(h3), s, max as real / 255.0)
  }

  /**
   * Typing a value into the red input stores it as a string. For a colour
   * (r, g, 0) with r > g > 0 the hue then comes out 0 instead of
   * 60 g / r, and the stored HSV converts back to the pure red (r, 0, 0)
   * instead of the stored RGB.
   */
  lemma TypedRedLosesHue(c: Rgb)
    requires ValidRgb(c) && c.r > c.g > c.b == 0
    ensures RgbToHsvAsWritten(c, {Red}).h == 0.0
    ensures RgbToHsv(c).h == c.g as real / c.r as real * 60.0 > 0.0
    ensures HsvToRgb(RgbToHsvAsWritten(c, {Red})) == Rgb(c.r, 0, 0) != c
  {
    RedHue(c);
    RedSkipped(c);
    PureRed(c.r);
  }

  /** The input "200" is kept as a string; on (200, 100, 0) the hue should be 30. */
  lemma TypedRedExample()
    ensures NumInputValidationAsWritten("200", false) == Kept("200")
    ensures RgbToHsv(Rgb(200, 100, 0)).h == 30.0
    ensures RgbToHsvAsWritten(Rgb(200, 100, 0), {Red}).h == 0.0
  {
    assert DecimalValue("200") == 200 by {
      assert "200"[..2] == "20" && "20"[..1] == "2" && "2"[..0] == "";
    }
    TypedRedLosesHue(Rgb(200, 100, 0));
    assert 100 as real / 200 as real * 60.0 == 30.0;
  }

  /** With red strictly largest and green at least blue, the hue is 60 (g - b) / (r - b). */
  lemma RedHue(c: Rgb)
    requires c.r > c.g >= c.b
    ensures RgbToHsv(c).h == (c.g - c.b) as real / (c.r - c.b) as real * 60.0
  {
    assert LastMaximal(c) == Red && Chroma(c) == c.r - c.b;
    HueFromLastMaximal(c);
    FractionBelowOne((c.g - c.b) as real, (c.r - c.b) as real);
    JsRemSixSmall((c.g - c.b) as real / (c.r - c.b) as real);
  }

  /**
   * When red, held as a string, is the only largest channel and blue is
   * 0, no branch is taken: hue 0, saturation 1 and value r / 255.
   */
  lemma RedSkipped(c: Rgb)
    requires c.r > c.g > c.b == 0
    ensures RgbToHsvAsWritten(c, {Red}) == Hsv(0.0, 1.0, c.r as real / 255.0)
  {
    assert Max3(c.r, c.g, c.b) == c.r && Chroma(c) == c.r;
    assert c.r as real / c.r as real == 1.0;
  }

  /** Hue 0 at full saturation and value n / 255 is the pure red (n, 0, 0). */
  lemma PureRed(n: int)
    requires 0 < n <= 255
    ensures HsvToRgb(Hsv(0.0, 1.0, n as real / 255.0)) == Rgb(n, 0, 0)
  {
    var hsv := Hsv(0.0, 1.0, n as real / 255.0);
    assert HsvChroma(hsv) == n as real / 255.0;
    assert Rise(hsv.h / 60.0, 0) == 0 as real / n as real;
    SectorChannels(hsv, 0, n, 0, 0);
  }

  // ------------------------------------------------------------------ //
  //        hex_input_validation lets through what cannot be decoded     //
  // ------------------------------------------------------------------ //

  /** `hex_input_validation` as written: the `#` is optional. */
  function HexInputValidationAsWritten(raw: string): (r: Option<string>)
    ensures r.Some? ==> r.value == raw
  {
    if MatchesPairs(raw, 3) || MatchesPairs(raw, 4) then Some(raw) else None
  }

  /**
   * Of the inputs the validation accepts as written, `hex_to_rgba` decodes
   * exactly those that start with `#`; the others reach it with length 6
   * or 8 and come out as NaN channels.
   */
  lemma AcceptedButNotDecoded(raw: string)
    requires HexInputValidationAsWritten(raw).Some?
    ensures HexToRgba(raw).Decoded? <==> raw[0] == '#'
    ensures raw[0] != '#' ==> HexToRgba(raw) == NotANumber
  {
  }

  /** The input `1cce37` is accepted but decodes to NaN channels. */
  lemma UnprefixedHexInput()
    ensures HexInputValidationAsWritten("1cce37") == Some("1cce37")
    ensures HexToRgba("1cce37") == NotANumber
    ensures HexInputValidation("1cce37") == None
  {
    assert MatchesPairs("1cce37", 3);
  }
}
