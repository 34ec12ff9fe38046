/**
 * The RGB <-> HSV conversions of src/lib/converter.js (`rgb_to_hsv`,
 * `hsv_to_rgb`), over exact real arithmetic.
 *
 * JavaScript numbers are modelled as `real`; the two JavaScript operations
 * whose semantics differ from Dafny's are written out: `Math.round` (halves
 * round up) and the remainder operator `%` (its result has the sign of the
 * dividend).
 */
module ColorSpace {

  /** An `{r, g, b}` object; the source keeps integer channels in 0..255. */
  datatype Rgb = Rgb(r: int, g: int, b: int)

  /** An `{h, s, v}` object: hue in degrees, saturation and value as fractions. */
  datatype Hsv = Hsv(h: real, s: real, v: real)

  predicate IsByte(n: int) { 0 <= n <= 255 }

  predicate ValidRgb(c: Rgb) { IsByte(c.r) && IsByte(c.g) && IsByte(c.b) }

  /** The ranges `hsv_to_rgb` is written for; the hue slider can reach 360 itself. */
  predicate HsvInRange(hsv: Hsv)
  {
    0.0 <= hsv.h <= 360.0 && 0.0 <= hsv.s <= 1.0 && 0.0 <= hsv.v <= 1.0
  }

  function Abs(x: real): (y: real)
    ensures y >= 0.0 && (y == x || y == -x)
  {
    if x < 0.0 then -x else x
  }

  /** `Math.max(a, b, c)` */
  function Max3(a: int, b: int, c: int): (m: int)
    ensures a <= m && b <= m && c <= m
    ensures m == a || m == b || m == c
  {
    if a >= b && a >= c then a else if b >= c then b else c
  }

  /** `Math.min(a, b, c)` */
  function Min3(a: int, b: int, c: int): (m: int)
    ensures m <= a && m <= b && m <= c
    ensures m == a || m == b || m == c
  {
    if a <= b && a <= c then a else if b <= c then b else c
  }

  /** `Math.round(x)`: the nearest integer, a tie going towards +infinity. */
  function Round(x: real): (n: int)
    ensures n as real - 0.5 <= x < n as real + 0.5
  {
    (x + 0.5).Floor
  }

  /** Truncation toward zero, the quotient JavaScript's `%` is based on. */
  function Trunc(x: real): (n: int)
    ensures x >= 0.0 ==> n as real <= x < n as real + 1.0
    ensures x < 0.0 ==> n as real - 1.0 < x <= n as real
  {
    if x >= 0.0 then x.Floor else -((-x).Floor)
  }

  /** JavaScript's `x % m` for a positive divisor `m`: the dividend minus a truncated multiple. */
  function JsRem(x: real, m: real): real
    requires m > 0.0
  {
    x - m * Trunc(x / m) as real
  }

  /** On (-6, 6) the remainder by 6 is the identity, negative dividends included. */
  lemma JsRemSixSmall(x: real)
    requires -6.0 < x < 6.0
    ensures JsRem(x, 6.0) == x
  {
    assert Trunc(x / 6.0) == 0;
  }

  /** In the sector [k, k + 1) of [0, 6), the remainder by 2 subtracts the even part of k. */
  lemma JsRemTwoSector(t: real, k: int)
    requires 0 <= k < 6 && k as real <= t < k as real + 1.0
    ensures JsRem(t, 2.0) == t - (k / 2 * 2) as real
  {
    assert Trunc(t / 2.0) == k / 2;
  }

  // ------------------------------------------------------------------ //
  //                             rgb_to_hsv                              //
  // ------------------------------------------------------------------ //

  function Chroma(c: Rgb): int
  {
    Max3(c.r, c.g, c.b) - Min3(c.r, c.g, c.b)
  }

  datatype Channel = Red | Green | Blue

  function ChannelOf(c: Rgb, ch: Channel): int
  {
    match ch
    case Red => c.r
    case Green => c.g
    case Blue => c.b
  }

  /** The hue the `if` on `ch` assigns when that channel is the maximum. */
  function BranchHue(c: Rgb, ch: Channel): real
    requires Chroma(c) != 0
  {
    var chroma := Chroma(c) as real;
    match ch
    case Red => JsRem((c.g - c.b) as real / chroma, 6.0) * 60.0
    case Green => ((c.b - c.r) as real / chroma + 2.0) * 60.0
    case Blue => ((c.r - c.g) as real / chroma + 4.0) * 60.0
  }

  /** A negative hue is moved up by one turn. */
  function Normalise(h: real): real
  {
    if h < 0.0 then 360.0 + h else h
  }

  /**
   * `rgb_to_hsv`: three `if`s in the order r, g, b, each assigning the hue
   * when its channel is the maximum, so that a later match overwrites an
   * earlier one.
   */
  function RgbToHsv(c: Rgb): (hsv: Hsv)
    ensures hsv.v == Max3(c.r, c.g, c.b) as real / 255.0
  {
    var max := Max3(c.r, c.g, c.b);
    var chroma := Chroma(c);
    var h0 := 0.0;
    var h1 := if chroma != 0 && max == c.r then BranchHue(c, Red) else h0;
    var h2 := if chroma != 0 && max == c.g then BranchHue(c, Green) else h1;
    var h3 := if chroma != 0 && max == c.b then BranchHue(c, Blue) else h2;
    var s := if max == 0 then 0.0 else chroma as real / max as real;
    var v := max as real / 255.0;
    Hsv(Normalise(h3), s, v)
  }

  // ------------------------------------------------------------------ //
  //                             hsv_to_rgb                              //
  // ------------------------------------------------------------------ //

  /** `x` of `hsv_to_rgb`: the second largest component before the offset. */
  function XComponent(chroma: real, interval: real): real
  {
    chroma * (1.0 - Abs(JsRem(interval, 2.0) - 1.0))
  }

  /**
   * The `rgb_temp` triple: six `if`s on the sector of `interval`, each
   * replacing the triple; outside [0, 6] it stays (0, 0, 0).
   */
  function Components(interval: real, chroma: real, x: real): (real, real, real)
  {
    var t0 := (0.0, 0.0, 0.0);
    var t1 := if 0.0 <= interval < 1.0 then (chroma, x, 0.0) else t0;
    var t2 := if 1.0 <= interval < 2.0 then (x, chroma, 0.0) else t1;
    var t3 := if 2.0 <= interval < 3.0 then (0.0, chroma, x) else t2;
    var t4 := if 3.0 <= interval < 4.0 then (0.0, x, chroma) else t3;
    var t5 := if 4.0 <= interval < 5.0 then (x, 0.0, chroma) else t4;
    var t6 := if 5.0 <= interval <= 6.0 then (chroma, 0.0, x) else t5;
    t6
  }

  /** `chroma` of `hsv_to_rgb`: saturation times value. */
  function HsvChroma(hsv: Hsv): real
  {
    hsv.s * hsv.v
  }

  /** `hsv_to_rgb`: each component is offset by `m = v - chroma` and rounded on the 0..255 scale. */
  function HsvToRgb(hsv: Hsv): Rgb
  {
    var chroma := HsvChroma(hsv);
    var interval := hsv.h / 60.0;
    Quantise(Components(interval, chroma, XComponent(chroma, interval)), hsv.v - chroma)
  }

  /** The returned object: each component offset by `m`, scaled to 0..255 and rounded. */
  function Quantise(t: (real, real, real), m: real): Rgb
  {
    Rgb(Round((t.0 + m) * 255.0), Round((t.1 + m) * 255.0), Round((t.2 + m) * 255.0))
  }

  // ------------------------------------------------------------------ //
  //                    Properties of rgb_to_hsv                         //
  // ------------------------------------------------------------------ //

  /** A grey (all channels equal) has hue 0, saturation 0 and value r / 255. */
  lemma AchromaticHsv(c: Rgb)
    requires c.r == c.g == c.b
    ensures RgbToHsv(c) == Hsv(0.0, 0.0, c.r as real / 255.0)
  {
  }

  /** The white and black vectors of the converter's tests. */
  lemma WhiteAndBlackHsv()
    ensures RgbToHsv(Rgb(255, 255, 255)) == Hsv(0.0, 0.0, 1.0)
    ensures RgbToHsv(Rgb(0, 0, 0)) == Hsv(0.0, 0.0, 0.0)
  {
    AchromaticHsv(Rgb(255, 255, 255));
    AchromaticHsv(Rgb(0, 0, 0));
  }

  /**
   * The hue each `if` would assign, after normalisation, when its channel
   * holds the maximum: red gives [0, 60] or (300, 360), green [60, 180],
   * blue [180, 300].
   */
  lemma BranchHueRange(c: Rgb, ch: Channel)
    requires ValidRgb(c) && Chroma(c) != 0
    requires ChannelOf(c, ch) == Max3(c.r, c.g, c.b)
    ensures 0.0 <= Normalise(BranchHue(c, ch)) < 360.0
    ensures ch == Red ==> BranchHue(c, ch) == (c.g - c.b) as real / Chroma(c) as real * 60.0
  {
    var chroma := Chroma(c) as real;
    match ch
    case Red =>
      var q := (c.g - c.b) as real / chroma;
      assert -1.0 <= q <= 1.0 by { DivisionBounds(c.g - c.b, Chroma(c)); }
      JsRemSixSmall(q);
    case Green =>
      var q := (c.b - c.r) as real / chroma;
      assert -1.0 <= q <= 1.0 by { DivisionBounds(c.b - c.r, Chroma(c)); }
    case Blue =>
      var q := (c.r - c.g) as real / chroma;
      assert -1.0 <= q <= 1.0 by { DivisionBounds(c.r - c.g, Chroma(c)); }
  }

  /** A difference bounded by the chroma divides into [-1, 1]. */
  lemma DivisionBounds(d: int, chroma: int)
    requires 0 < chroma && -chroma <= d <= chroma
    ensures -1.0 <= d as real / chroma as real <= 1.0
  {
    var q := d as real / chroma as real;
    assert q * chroma as real == d as real;
  }

  /** The last channel, in the order r, g, b, that holds the maximum: the `if` that writes the hue last. */
  function LastMaximal(c: Rgb): (ch: Channel)
    ensures ChannelOf(c, ch) == Max3(c.r, c.g, c.b)
  {
    var max := Max3(c.r, c.g, c.b);
    if c.b == max then Blue else if c.g == max then Green else Red
  }

  /** Of the three sequential `if`s, the hue comes from the last one whose channel is maximal. */
  lemma HueFromLastMaximal(c: Rgb)
    requires Chroma(c) != 0
    ensures RgbToHsv(c).h == Normalise(BranchHue(c, LastMaximal(c)))
  {
  }

  /** A quotient of two reals with 0 <= a <= b and b > 0 lies in [0, 1]. */
  lemma FractionInUnit(a: real, b: real)
    requires 0.0 <= a <= b && b > 0.0
    ensures 0.0 <= a / b <= 1.0
  {
    assert (a / b) * b == a;
  }

  /** The three unit quotients the tie cases produce. */
  lemma UnitQuotients(d: real, chroma: real)
    requires chroma > 0.0
    ensures d == chroma ==> d / chroma == 1.0
    ensures d == -chroma ==> d / chroma == -1.0
  {
  }

  /** Two maximal channels give the same normalised hue. */
  lemma TiedBranchesAgree(c: Rgb, ch1: Channel, ch2: Channel)
    requires ValidRgb(c) && Chroma(c) != 0
    requires ChannelOf(c, ch1) == Max3(c.r, c.g, c.b) == ChannelOf(c, ch2)
    ensures Normalise(BranchHue(c, ch1)) == Normalise(BranchHue(c, ch2))
  {
    var chroma := Chroma(c) as real;
    if ch1 != ch2 {
      var rg, gb, br := (c.r - c.g) as real, (c.g - c.b) as real, (c.b - c.r) as real;
      UnitQuotients(rg, chroma);
      UnitQuotients(gb, chroma);
      UnitQuotients(br, chroma);
      if {ch1, ch2} == {Red, Green} {
        JsRemSixSmall(1.0);
        assert BranchHue(c, Red) == 60.0 == BranchHue(c, Green);
      } else if {ch1, ch2} == {Red, Blue} {
        JsRemSixSmall(-1.0);
        assert BranchHue(c, Red) == -60.0 && BranchHue(c, Blue) == 300.0;
      } else {
        assert {ch1, ch2} == {Green, Blue};
        assert BranchHue(c, Green) == 180.0 == BranchHue(c, Blue);
      }
    }
  }

  /**
   * When two channels tie for the maximum, both of their `if`s give the same
   * normalised hue, so the order of the three `if`s does not matter: the
   * hue is the one any maximal channel gives.
   */
  lemma HueIndependentOfTieBreak(c: Rgb, ch: Channel)
    requires ValidRgb(c) && Chroma(c) != 0
    requires ChannelOf(c, ch) == Max3(c.r, c.g, c.b)
    ensures RgbToHsv(c).h == Normalise(BranchHue(c, ch))
  {
    HueFromLastMaximal(c);
    TiedBranchesAgree(c, ch, LastMaximal(c));
  }

  /** The saturation is chroma / max and the value max / 255; both lie in [0, 1]. */
  lemma SaturationAndValue(c: Rgb)
    requires ValidRgb(c)
    ensures var max := Max3(c.r, c.g, c.b);
      && RgbToHsv(c).s == (if max == 0 then 0.0 else Chroma(c) as real / max as real)
      && RgbToHsv(c).v == max as real / 255.0
      && 0.0 <= RgbToHsv(c).s <= 1.0 && 0.0 <= RgbToHsv(c).v <= 1.0
  {
    var max := Max3(c.r, c.g, c.b);
    if max != 0 {
      FractionInUnit(Chroma(c) as real, max as real);
    }
  }

  /** For channels in 0..255 the hue lies in [0, 360) and the saturation and value in [0, 1]. */
  lemma RgbToHsvInRange(c: Rgb)
    requires ValidRgb(c)
    ensures var hsv := RgbToHsv(c); 0.0 <= hsv.h < 360.0 && 0.0 <= hsv.s <= 1.0 && 0.0 <= hsv.v <= 1.0
  {
    SaturationAndValue(c);
    if Chroma(c) != 0 {
      HueFromLastMaximal(c);
      BranchHueRange(c, LastMaximal(c));
    } else {
      assert c.r == c.g == c.b;
      AchromaticHsv(c);
    }
  }

  // ------------------------------------------------------------------ //
  //                    Properties of hsv_to_rgb                         //
  // ------------------------------------------------------------------ //

  /** The triple of sector `k` of the hexcone, built from its largest, middle and smallest parts. */
  function Sector<T>(k: int, hi: T, mid: T, lo: T): (T, T, T)
  {
    if k == 0 then (hi, mid, lo)
    else if k == 1 then (mid, hi, lo)
    else if k == 2 then (lo, hi, mid)
    else if k == 3 then (lo, mid, hi)
    else if k == 4 then (mid, lo, hi)
    else (hi, lo, mid)
  }

  /** How far `x` has risen in sector k: from 0 to 1 across even sectors, back from 1 to 0 across odd ones. */
  function Rise(t: real, k: int): (f: real)
  {
    if k % 2 == 0 then t - k as real else k as real + 1.0 - t
  }

  /** Inside sector k, `x` is chroma times the rise, which lies in [0, 1]. */
  lemma XInSector(chroma: real, t: real, k: int)
    requires 0 <= k < 6 && k as real <= t < k as real + 1.0
    ensures XComponent(chroma, t) == chroma * Rise(t, k)
    ensures 0.0 <= Rise(t, k) <= 1.0
  {
    JsRemTwoSector(t, k);
    assert Abs(JsRem(t, 2.0) - 1.0) == 1.0 - Rise(t, k);
  }

  /** Inside sector k (k <= interval < k + 1, and interval 6 for sector 5) exactly the k-th `if` fires. */
  lemma ComponentsInSector(interval: real, chroma: real, x: real, k: int)
    requires 0 <= k < 6 && k as real <= interval
    requires interval < k as real + 1.0 || (k == 5 && interval == 6.0)
    ensures Components(interval, chroma, x) == Sector(k, chroma, x, 0.0)
  {
  }

  /** `(C / 255) * (d / C) == d / 255`: the chroma cancels out of the middle component. */
  lemma ChromaCancels(chroma: real, d: real)
    requires chroma != 0.0
    ensures (chroma / 255.0) * (d / chroma) == d / 255.0
  {
    assert (d / chroma) * chroma == d;
  }

  /** `Math.round` of an integer is that integer. */
  lemma RoundInteger(x: real, n: int)
    requires x == n as real
    ensures Round(x) == n
  {
  }

  /** `hsv_to_rgb` as the quantisation of the `rgb_temp` triple, with its intermediate values named. */
  lemma HsvToRgbSteps(hsv: Hsv)
    ensures HsvToRgb(hsv) == Quantise(Components(hsv.h / 60.0, HsvChroma(hsv), XComponent(HsvChroma(hsv), hsv.h / 60.0)),
                                      hsv.v - HsvChroma(hsv))
  {
  }

  /** Inside sector k, `hsv_to_rgb` quantises the k-th triple built from chroma and `x`. */
  lemma HsvToRgbInSector(hsv: Hsv, k: int)
    requires 0 <= k < 6 && k as real <= hsv.h / 60.0 < k as real + 1.0
    ensures var chroma, t := HsvChroma(hsv), hsv.h / 60.0;
      HsvToRgb(hsv) == Quantise(Sector(k, chroma, XComponent(chroma, t), 0.0), hsv.v - chroma)
  {
    HsvToRgbSteps(hsv);
    var chroma, t := HsvChroma(hsv), hsv.h / 60.0;
    ComponentsInSector(t, chroma, XComponent(chroma, t), k);
  }

  /** Quantising a sector triple whose parts and offset are multiples of 1 / 255 gives those multiples. */
  lemma QuantiseSector(k: int, chroma: int, lo: int, d: int)
    ensures var t := Sector(k, chroma + lo, d + lo, lo);
      Quantise(Sector(k, chroma as real / 255.0, d as real / 255.0, 0.0), lo as real / 255.0) == Rgb(t.0, t.1, t.2)
  {
    var m := lo as real / 255.0;
    RoundInteger((chroma as real / 255.0 + m) * 255.0, chroma + lo);
    RoundInteger((d as real / 255.0 + m) * 255.0, d + lo);
    RoundInteger((0.0 + m) * 255.0, lo);
  }

  /** With chroma C / 255 and a rise of d / C through the sector, `x` is d / 255. */
  lemma XOfRise(chroma: int, t: real, k: int, d: int)
    requires 0 <= k < 6 && k as real <= t < k as real + 1.0
    requires chroma > 0
    requires Rise(t, k) == d as real / chroma as real
    ensures XComponent(chroma as real / 255.0, t) == d as real / 255.0
  {
    XInSector(chroma as real / 255.0, t, k);
    ChromaCancels(chroma as real, d as real);
  }

  /**
   * `hsv_to_rgb` on a colour of sector k whose chroma is C / 255, whose
   * offset `m` is lo / 255 and whose position in the sector is d / C gives
   * the integer triple (C + lo, d + lo, lo) of that sector.
   */
  lemma SectorChannels(hsv: Hsv, k: int, chroma: int, lo: int, d: int)
    requires 0 <= k < 6 && k as real <= hsv.h / 60.0 < k as real + 1.0
    requires chroma > 0
    requires HsvChroma(hsv) == chroma as real / 255.0
    requires hsv.v - HsvChroma(hsv) == lo as real / 255.0
    requires Rise(hsv.h / 60.0, k) == d as real / chroma as real
    ensures var t := Sector(k, chroma + lo, d + lo, lo); HsvToRgb(hsv) == Rgb(t.0, t.1, t.2)
  {
    HsvToRgbInSector(hsv, k);
    XOfRise(chroma, hsv.h / 60.0, k, d);
    QuantiseSector(k, chroma, lo, d);
  }

  /** A quotient of two reals with 0 <= a < b lies in [0, 1). */
  lemma FractionBelowOne(a: real, b: real)
    requires 0.0 <= a < b
    ensures 0.0 <= a / b < 1.0
  {
    assert (a / b) * b == a;
  }

  /** For a chromatic colour, chroma' = s * v is chroma / 255 and m = v - chroma' is min / 255. */
  lemma ChromaAndOffset(c: Rgb)
    requires ValidRgb(c) && Chroma(c) != 0
    ensures var hsv := RgbToHsv(c);
      && HsvChroma(hsv) == Chroma(c) as real / 255.0
      && hsv.v - HsvChroma(hsv) == Min3(c.r, c.g, c.b) as real / 255.0
  {
    var max, min := Max3(c.r, c.g, c.b), Min3(c.r, c.g, c.b);
    SaturationAndValue(c);
    OffsetOfMin(RgbToHsv(c), max, min);
    assert Chroma(c) == max - min;
  }

  /** With s = (max - min) / max and v = max / 255: s * v is (max - min) / 255 and v - s * v is min / 255. */
  lemma OffsetOfMin(hsv: Hsv, max: int, min: int)
    requires max != 0 && hsv.s == (max - min) as real / max as real && hsv.v == max as real / 255.0
    ensures HsvChroma(hsv) == (max - min) as real / 255.0
    ensures hsv.v - HsvChroma(hsv) == min as real / 255.0
  {
    ScaledQuotient((max - min) as real, max as real);
  }

  /** `(a / b) * (b / 255) == a / 255`: the maximum cancels out of s * v. */
  lemma ScaledQuotient(a: real, b: real)
    requires b != 0.0
    ensures (a / b) * (b / 255.0) == a / 255.0
  {
    assert (a / b) * b == a;
  }

  /** `(-d) / C == -(d / C)`. */
  lemma NegatedQuotient(d: real, chroma: real)
    requires chroma != 0.0
    ensures (-d) / chroma == -(d / chroma)
  {
  }

  /** The round trip for a colour whose hue comes from the red `if` (red strictly largest). */
  lemma RoundTripRed(c: Rgb)
    requires ValidRgb(c) && Chroma(c) != 0 && LastMaximal(c) == Red
    ensures HsvToRgb(RgbToHsv(c)) == c
  {
    var hsv := RgbToHsv(c);
    var chroma, lo := Chroma(c), Min3(c.r, c.g, c.b);
    ChromaAndOffset(c);
    HueFromLastMaximal(c);
    BranchHueRange(c, Red);
    var q := (c.g - c.b) as real / chroma as real;
    if c.g >= c.b {
      FractionBelowOne((c.g - c.b) as real, chroma as real);
      assert hsv.h / 60.0 == q;
      SectorChannels(hsv, 0, chroma, lo, c.g - c.b);
    } else {
      FractionBelowOne((c.b - c.g) as real, chroma as real);
      NegatedQuotient((c.b - c.g) as real, chroma as real);
      assert hsv.h / 60.0 == 6.0 + q;
      SectorChannels(hsv, 5, chroma, lo, c.b - c.g);
    }
  }

  /** The round trip for a colour whose hue comes from the green `if`. */
  lemma RoundTripGreen(c: Rgb)
    requires ValidRgb(c) && Chroma(c) != 0 && LastMaximal(c) == Green
    ensures HsvToRgb(RgbToHsv(c)) == c
  {
    var hsv := RgbToHsv(c);
    var chroma, lo := Chroma(c), Min3(c.r, c.g, c.b);
    ChromaAndOffset(c);
    HueFromLastMaximal(c);
    var q := (c.b - c.r) as real / chroma as real;
    DivisionBounds(c.b - c.r, chroma);
    assert BranchHue(c, Green) == (q + 2.0) * 60.0;
    assert hsv.h == (q + 2.0) * 60.0;
    if c.b >= c.r {
      FractionBelowOne((c.b - c.r) as real, chroma as real);
      SectorChannels(hsv, 2, chroma, lo, c.b - c.r);
    } else {
      FractionInUnit((c.r - c.b) as real, chroma as real);
      NegatedQuotient((c.r - c.b) as real, chroma as real);
      assert 0.0 < (c.r - c.b) as real / chroma as real;
      SectorChannels(hsv, 1, chroma, lo, c.r - c.b);
    }
  }

  /** The round trip for a colour whose hue comes from the blue `if`. */
  lemma RoundTripBlue(c: Rgb)
    requires ValidRgb(c) && Chroma(c) != 0 && LastMaximal(c) == Blue
    ensures HsvToRgb(RgbToHsv(c)) == c
  {
    var hsv := RgbToHsv(c);
    var chroma, lo := Chroma(c), Min3(c.r, c.g, c.b);
    ChromaAndOffset(c);
    HueFromLastMaximal(c);
    var q := (c.r - c.g) as real / chroma as real;
    DivisionBounds(c.r - c.g, chroma);
    assert BranchHue(c, Blue) == (q + 4.0) * 60.0;
    assert hsv.h == (q + 4.0) * 60.0;
    if c.r == c.b {
      UnitQuotients((c.r - c.g) as real, chroma as real);
      SectorChannels(hsv, 5, chroma, lo, chroma);
    } else if c.r >= c.g {
      FractionBelowOne((c.r - c.g) as real, chroma as real);
      SectorChannels(hsv, 4, chroma, lo, c.r - c.g);
    } else {
      FractionInUnit((c.g - c.r) as real, chroma as real);
      NegatedQuotient((c.g - c.r) as real, chroma as real);
      assert 0.0 < (c.g - c.r) as real / chroma as real;
      SectorChannels(hsv, 3, chroma, lo, c.g - c.r);
    }
  }

  /**
   * `hsv_to_rgb` gives back every 8-bit colour that `rgb_to_hsv` converts:
   * the two stored representations of a colour agree.
   */
  lemma RoundTrip(c: Rgb)
    requires ValidRgb(c)
    ensures HsvToRgb(RgbToHsv(c)) == c
  {
    if Chroma(c) == 0 {
      var hsv := RgbToHsv(c);
      assert c.r == c.g == c.b;
      AchromaticHsv(c);
      HsvToRgbInSector(hsv, 0);
      RoundInteger((0.0 + hsv.v) * 255.0, c.r);
    } else {
      match LastMaximal(c)
      case Red => RoundTripRed(c);
      case Green => RoundTripGreen(c);
      case Blue => RoundTripBlue(c);
    }
  }

  /** A product of a non-negative real and a fraction in [0, 1] does not exceed that real. */
  lemma ScaledDown(a: real, f: real)
    requires 0.0 <= a && 0.0 <= f <= 1.0
    ensures 0.0 <= a * f <= a && f * a == a * f
  {
  }

  /** With s in [0, 1] and v >= 0, the chroma s * v lies in [0, v]. */
  lemma ChromaBounds(hsv: Hsv)
    requires 0.0 <= hsv.s <= 1.0 && 0.0 <= hsv.v
    ensures 0.0 <= HsvChroma(hsv) <= hsv.v
  {
    var s, v := hsv.s, hsv.v;
    ScaledDown(v, s);
    assert HsvChroma(hsv) == v * s;
  }

  /** `Math.round` keeps a value of [0, 255] inside 0..255. */
  lemma RoundByte(x: real)
    requires 0.0 <= x <= 255.0
    ensures IsByte(Round(x))
  {
  }

  /** Quantising components in [0, chroma] with offset m, where chroma + m <= 1 and m >= 0, gives bytes. */
  lemma QuantiseBytes(t: (real, real, real), chroma: real, m: real)
    requires 0.0 <= m && chroma + m <= 1.0
    requires 0.0 <= t.0 <= chroma && 0.0 <= t.1 <= chroma && 0.0 <= t.2 <= chroma
    ensures ValidRgb(Quantise(t, m))
  {
    RoundByte((t.0 + m) * 255.0);
    RoundByte((t.1 + m) * 255.0);
    RoundByte((t.2 + m) * 255.0);
  }

  /** The hue slider's end, h = 360, falls in the closed last sector with `x` = 0, the colour of h = 0. */
  lemma FullTurn(hsv: Hsv)
    requires hsv.h == 360.0
    ensures HsvToRgb(hsv) == Quantise((HsvChroma(hsv), 0.0, 0.0), hsv.v - HsvChroma(hsv))
  {
    HsvToRgbSteps(hsv);
    assert Trunc(6.0 / 2.0) == 3;
    assert XComponent(HsvChroma(hsv), 6.0) == 0.0;
  }

  /** Inside a sector, with s and v in [0, 1], `hsv_to_rgb` yields channels in 0..255. */
  lemma SectorBytes(hsv: Hsv, k: int)
    requires HsvInRange(hsv)
    requires 0 <= k < 6 && k as real <= hsv.h / 60.0 < k as real + 1.0
    ensures ValidRgb(HsvToRgb(hsv))
  {
    var chroma, t := HsvChroma(hsv), hsv.h / 60.0;
    var x := XComponent(chroma, t);
    ChromaBounds(hsv);
    XBounds(chroma, t, k);
    QuantiseSectorBytes(k, chroma, x, hsv.v - chroma);
    HsvToRgbInSector(hsv, k);
  }

  /** Inside a sector, `x` lies in [0, chroma] for a non-negative chroma. */
  lemma XBounds(chroma: real, t: real, k: int)
    requires 0.0 <= chroma
    requires 0 <= k < 6 && k as real <= t < k as real + 1.0
    ensures 0.0 <= XComponent(chroma, t) <= chroma
  {
    XInSector(chroma, t, k);
    ScaledDown(chroma, Rise(t, k));
  }

  /** A sector triple with `x` in [0, chroma], quantised with an offset that keeps chroma + m in [0, 1], gives bytes. */
  lemma QuantiseSectorBytes(k: int, chroma: real, x: real, m: real)
    requires 0.0 <= x <= chroma && 0.0 <= m && chroma + m <= 1.0
    ensures ValidRgb(Quantise(Sector(k, chroma, x, 0.0), m))
  {
    SectorParts(k, chroma, x, 0.0);
    QuantiseBytes(Sector(k, chroma, x, 0.0), chroma, m);
  }

  /** Each part of a sector triple is one of the three values it is built from. */
  lemma SectorParts<T>(k: int, hi: T, mid: T, lo: T)
    ensures var t := Sector(k, hi, mid, lo);
      t.0 in {hi, mid, lo} && t.1 in {hi, mid, lo} && t.2 in {hi, mid, lo}
  {
  }

  /** For h in [0, 360] and s, v in [0, 1], `hsv_to_rgb` yields channels in 0..255. */
  lemma HsvToRgbBytes(hsv: Hsv)
    requires HsvInRange(hsv)
    ensures ValidRgb(HsvToRgb(hsv))
  {
    if hsv.h == 360.0 {
      var chroma := HsvChroma(hsv);
      ChromaBounds(hsv);
      FullTurn(hsv);
      QuantiseBytes((chroma, 0.0, 0.0), chroma, hsv.v - chroma);
    } else {
      SectorBytes(hsv, (hsv.h / 60.0).Floor);
    }
  }

  /** A grey of value v converts to the triple (255 v, 255 v, 255 v) when 255 v is whole. */
  lemma HsvToRgbGrey(v: real, n: int)
    requires v * 255.0 == n as real
    ensures HsvToRgb(Hsv(0.0, 0.0, v)) == Rgb(n, n, n)
  {
    var hsv := Hsv(0.0, 0.0, v);
    HsvToRgbInSector(hsv, 0);
    assert HsvChroma(hsv) == 0.0;
    XInSector(0.0, 0.0, 0);
    RoundInteger((0.0 + v) * 255.0, n);
  }

  /** The converter's first chromatic test vector for `hsv_to_rgb` (sector 2). */
  lemma HsvToRgbVectorGreen()
    ensures HsvToRgb(Hsv(129.0, 0.86, 0.81)) == Rgb(29, 207, 56)
  {
    var a := Hsv(129.0, 0.86, 0.81);
    HsvToRgbInSector(a, 2);
    assert HsvChroma(a) == 0.6966;
    XInSector(0.6966, 129.0 / 60.0, 2);
    assert XComponent(0.6966, 129.0 / 60.0) == 0.10449;
  }

  /** The converter's second chromatic test vector for `hsv_to_rgb` (sector 3). */
  lemma HsvToRgbVectorBlue()
    ensures HsvToRgb(Hsv(226.0, 0.44, 0.55)) == Rgb(79, 93, 140)
  {
    var b := Hsv(226.0, 0.44, 0.55);
    HsvToRgbInSector(b, 3);
    assert HsvChroma(b) == 0.242;
    XInSector(0.242, 226.0 / 60.0, 3);
  }

  /** The converter's test vectors for `rgb_to_hsv`, compared after rounding as the tests do. */
  lemma RgbToHsvVectors()
    ensures var hsv := RgbToHsv(Rgb(28, 206, 55));
      Round(hsv.h) == 129 && Round(hsv.s * 100.0) == 86 && Round(hsv.v * 100.0) == 81
    ensures var hsv := RgbToHsv(Rgb(78, 92, 140));
      Round(hsv.h) == 226 && Round(hsv.s * 100.0) == 44 && Round(hsv.v * 100.0) == 55
  {
    var a := Rgb(28, 206, 55);
    assert LastMaximal(a) == Green && Chroma(a) == 178;
    HueFromLastMaximal(a);
    var b := Rgb(78, 92, 140);
    assert LastMaximal(b) == Blue && Chroma(b) == 62;
    HueFromLastMaximal(b);
  }
}
