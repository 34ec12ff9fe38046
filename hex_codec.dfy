/**
 * The `#RRGGBB` / `#RRGGBBAA` codec of src/lib/converter.js (`rgba_to_hex`,
 * `hex_to_rgba`), the hexadecimal notation of section 5.2 of CSS Color
 * Module Level 4 without its 3- and 4-digit short forms.
 */
module HexCodec {

  import opened ColorSpace

  // ------------------------------------------------------------------ //
  //                        Hexadecimal digits                           //
  // ------------------------------------------------------------------ //

  /** The digit `Number.prototype.toString(16)` writes for 0..15: lower case. */
  function HexDigit(d: int): char
    requires 0 <= d < 16
  {
    if d < 10 then ('0' as int + d) as char else ('a' as int + d - 10) as char
  }

  /** A character of the regular-expression class `[a-f\d]` under the `i` flag. */
  predicate IsHexChar(c: char)
  {
    '0' <= c <= '9' || 'a' <= c <= 'f' || 'A' <= c <= 'F'
  }

  predicate AllHex(s: string)
  {
    forall i :: 0 <= i < |s| ==> IsHexChar(s[i])
  }

  /** The value `parseInt` gives a hexadecimal digit. */
  function HexValue(c: char): (d: int)
    requires IsHexChar(c)
    ensures 0 <= d < 16
  {
    if '0' <= c <= '9' then c as int - '0' as int
    else if 'a' <= c <= 'f' then c as int - 'a' as int + 10
    else c as int - 'A' as int + 10
  }

  /** A hexadecimal digit in lower case (the form `toString(16)` writes it in). */
  function Lower(c: char): char
  {
    if 'A' <= c <= 'F' then (c as int - 'A' as int + 'a' as int) as char else c
  }

  function LowerAll(s: string): (r: string)
    ensures |r| == |s| && forall i :: 0 <= i < |s| ==> r[i] == Lower(s[i])
  {
    seq(|s|, i requires 0 <= i < |s| => Lower(s[i]))
  }

  /** Reading a digit back and writing it again gives its lower-case form. */
  lemma DigitRoundTrip(c: char)
    requires IsHexChar(c)
    ensures HexDigit(HexValue(c)) == Lower(c)
  {
  }

  // ------------------------------------------------------------------ //
  //                             rgba_to_hex                             //
  // ------------------------------------------------------------------ //

  /** `n.toString(16)` for a non-negative integer: its digits without leading zeros. */
  function NatToHex(n: nat): (s: string)
    ensures |s| >= 1
    decreases n
  {
    if n < 16 then [HexDigit(n)] else NatToHex(n / 16) + [HexDigit(n % 16)]
  }

  /** `n.toString(16)` for an integer: a minus sign before the digits of a negative one. */
  function NumberToHex(n: int): string
  {
    if n < 0 then "-" + NatToHex(-n) else NatToHex(n)
  }

  /** The last `map` step: a one-character string gets a leading `'0'`. */
  function PadPair(s: string): string
  {
    if |s| == 1 then "0" + s else s
  }

  /** The digits of each number, padded, joined in order. */
  function JoinPadded(nums: seq<int>): string
  {
    if nums == [] then "" else PadPair(NumberToHex(nums[0])) + JoinPadded(nums[1..])
  }

  /**
   * The numbers the pipeline keeps: the three channels and, unless
   * `removeAlpha`, the alpha channel scaled to 0..255 by `Math.round`.
   */
  function Fields(rgb: Rgb, alpha: real, removeAlpha: bool): seq<int>
  {
    [rgb.r, rgb.g, rgb.b] + (if removeAlpha then [] else [Round(alpha * 255.0)])
  }

  /**
   * `rgba_to_hex`: `"#"` followed by two digits per kept number. The
   * intermediate `"rgba(r, g, b, alpha)"` string is written and split again
   * by the source; for numbers that round trip is the identity.
   */
  function RgbaToHex(rgb: Rgb, alpha: real, removeAlpha: bool): string
  {
    "#" + JoinPadded(Fields(rgb, alpha, removeAlpha))
  }

  /** The two lower-case digits of a byte. */
  function ByteHex(n: int): string
    requires IsByte(n)
  {
    [HexDigit(n / 16), HexDigit(n % 16)]
  }

  /** A byte is written as exactly two lower-case digits, zero-padded. */
  lemma PaddedByte(n: int)
    requires IsByte(n)
    ensures PadPair(NumberToHex(n)) == ByteHex(n)
  {
    if n >= 16 {
      assert NatToHex(n / 16) == [HexDigit(n / 16)];
    }
  }

  /** An alpha in [0, 1] scales to a byte. */
  lemma AlphaByte(alpha: real)
    requires 0.0 <= alpha <= 1.0
    ensures IsByte(Round(alpha * 255.0))
  {
    RoundByte(alpha * 255.0);
  }

  /**
   * For bytes and an alpha in [0, 1], `rgba_to_hex` gives `#` and two
   * lower-case, zero-padded digits per channel, then the alpha pair unless
   * it is dropped: 9 characters, or 7 with `removeAlpha` whatever the alpha.
   */
  lemma RgbaToHexBytes(rgb: Rgb, alpha: real, removeAlpha: bool)
    requires ValidRgb(rgb) && 0.0 <= alpha <= 1.0
    ensures RgbaToHex(rgb, alpha, removeAlpha)
         == "#" + ByteHex(rgb.r) + ByteHex(rgb.g) + ByteHex(rgb.b)
            + (if removeAlpha then "" else ByteHex(Round(alpha * 255.0)))
    ensures |RgbaToHex(rgb, alpha, removeAlpha)| == if removeAlpha then 7 else 9
  {
    AlphaByte(alpha);
    var nums := Fields(rgb, alpha, removeAlpha);
    assert nums[0] == rgb.r && nums[1] == rgb.g && nums[2] == rgb.b;
    assert |nums| == 4 ==> nums[3] == Round(alpha * 255.0);
    JoinBytes(nums);
  }

  /** Three or four bytes are joined as two digits each. */
  lemma JoinBytes(nums: seq<int>)
    requires 3 <= |nums| <= 4 && forall i :: 0 <= i < |nums| ==> IsByte(nums[i])
    ensures JoinPadded(nums)
         == ByteHex(nums[0]) + ByteHex(nums[1]) + ByteHex(nums[2])
            + (if |nums| == 4 then ByteHex(nums[3]) else "")
  {
    var tail := if |nums| == 4 then ByteHex(nums[3]) else "";
    JoinFront(nums);
    JoinFront(nums[1..]);
    assert nums[1..][1..] == nums[2..];
    JoinFront(nums[2..]);
    assert nums[2..][1..] == nums[3..];
    if |nums| == 4 {
      JoinFront(nums[3..]);
      assert nums[3..][1..] == [];
    }
    assert JoinPadded(nums[3..]) == tail;
    Nest(ByteHex(nums[0]), ByteHex(nums[1]), ByteHex(nums[2]), tail);
  }

  /** The first number of the list contributes its two digits. */
  lemma JoinFront(nums: seq<int>)
    requires |nums| > 0 && IsByte(nums[0])
    ensures JoinPadded(nums) == ByteHex(nums[0]) + JoinPadded(nums[1..])
  {
    PaddedByte(nums[0]);
  }

  lemma Nest(a: string, b: string, c: string, t: string)
    ensures a + (b + (c + t)) == a + b + c + t
  {
  }

  /** Dropping the alpha gives the same string whatever the alpha. */
  lemma RemoveAlphaIgnoresAlpha(rgb: Rgb, alpha1: real, alpha2: real)
    ensures RgbaToHex(rgb, alpha1, true) == RgbaToHex(rgb, alpha2, true)
  {
    assert Fields(rgb, alpha1, true) == Fields(rgb, alpha2, true);
  }

  // ------------------------------------------------------------------ //
  //                             hex_to_rgba                             //
  // ------------------------------------------------------------------ //

  /** The decoded `{r, g, b, a}` object. */
  datatype Rgba = Rgba(rgb: Rgb, a: real)

  /**
   * What `hex_to_rgba` does: return an object; return one whose r, g and b
   * are NaN (and a = 1), when no pattern was tried; or throw a TypeError
   * (indexing the `null` of a failed match).
   */
  datatype Decoded = Decoded(rgba: Rgba) | NotANumber | TypeError

  /** `^#?([a-f\d]{2}){n}$` with the `i` flag: an optional `#`, then exactly 2n hexadecimal digits. */
  predicate MatchesPairs(s: string, n: nat)
  {
    || (|s| == 2 * n && AllHex(s))
    || (|s| == 2 * n + 1 && s[0] == '#' && AllHex(s[1..]))
  }

  /** The digits after the optional `#`. */
  function Digits(s: string): string
  {
    if |s| > 0 && s[0] == '#' then s[1..] else s
  }

  /** `parseInt` of the i-th captured pair. */
  function PairValue(digits: string, i: nat): (n: int)
    requires 2 * i + 2 <= |digits| && AllHex(digits)
    ensures IsByte(n)
  {
    16 * HexValue(digits[2 * i]) + HexValue(digits[2 * i + 1])
  }

  /** The object built from a successful match of `n` pairs (3 or 4). */
  function FromMatch(s: string, n: nat): Rgba
    requires MatchesPairs(s, n) && 3 <= n
  {
    var d := Digits(s);
    Rgba(Rgb(PairValue(d, 0), PairValue(d, 1), PairValue(d, 2)),
         if n == 4 then PairValue(d, 3) as real / 255.0 else 1.0)
  }

  /**
   * `hex_to_rgba`: a 9-character string is matched against four pairs and
   * a 7-character one against three; a failed match throws, and any other
   * length leaves the match empty, so the channels are NaN.
   */
  function HexToRgba(hex: string): (r: Decoded)
    ensures r.Decoded? <==> (|hex| == 7 || |hex| == 9) && hex[0] == '#' && AllHex(hex[1..])
    ensures r.NotANumber? <==> |hex| != 7 && |hex| != 9
    ensures r.Decoded? ==> ValidRgb(r.rgba.rgb) && 0.0 <= r.rgba.a <= 1.0
    ensures r.Decoded? && |hex| == 7 ==> r.rgba.a == 1.0
  {
    if |hex| == 9 then
      if MatchesPairs(hex, 4) then Decoded(FromMatch(hex, 4)) else TypeError
    else if |hex| == 7 then
      if MatchesPairs(hex, 3) then Decoded(FromMatch(hex, 3)) else TypeError
    else
      NotANumber
  }

  // ------------------------------------------------------------------ //
  //                            Round trips                              //
  // ------------------------------------------------------------------ //

  /** Reading back the two digits written for a byte gives the byte. */
  lemma ByteHexRoundTrip(n: int)
    requires IsByte(n)
    ensures AllHex(ByteHex(n)) && 16 * HexValue(ByteHex(n)[0]) + HexValue(ByteHex(n)[1]) == n
  {
  }

  /** A captured pair that was written for a byte reads back as that byte. */
  lemma PairOfByte(digits: string, i: nat, n: int)
    requires 2 * i + 2 <= |digits| && AllHex(digits) && IsByte(n)
    requires digits[2 * i..2 * i + 2] == ByteHex(n)
    ensures PairValue(digits, i) == n
  {
    ByteHexRoundTrip(n);
    assert digits[2 * i] == ByteHex(n)[0] && digits[2 * i + 1] == ByteHex(n)[1];
  }

  /** Dropping the leading `#` of `"#" + s` gives `s`. */
  lemma DropHash(s: string)
    ensures ("#" + s)[1..] == s
  {
  }

  /** The three pairs and the tail of `a + b + c + t`, each read back by slicing. */
  lemma PairsOf(d: string, a: string, b: string, c: string, t: string)
    requires d == a + b + c + t && |a| == 2 && |b| == 2 && |c| == 2
    requires AllHex(a) && AllHex(b) && AllHex(c) && AllHex(t)
    ensures AllHex(d) && |d| == 6 + |t|
    ensures d[0..2] == a && d[2..4] == b && d[4..6] == c && d[6..] == t
  {
  }

  /** The string written for three bytes and an optional fourth decodes to them. */
  lemma DecodeWritten(hex: string, rgb: Rgb, k: int, removeAlpha: bool)
    requires ValidRgb(rgb) && IsByte(k)
    requires hex == "#" + ByteHex(rgb.r) + ByteHex(rgb.g) + ByteHex(rgb.b)
                    + (if removeAlpha then "" else ByteHex(k))
    ensures HexToRgba(hex) == Decoded(Rgba(rgb, if removeAlpha then 1.0 else k as real / 255.0))
  {
    var a, b, c := ByteHex(rgb.r), ByteHex(rgb.g), ByteHex(rgb.b);
    var tail := if removeAlpha then "" else ByteHex(k);
    ByteHexRoundTrip(rgb.r);
    ByteHexRoundTrip(rgb.g);
    ByteHexRoundTrip(rgb.b);
    ByteHexRoundTrip(k);
    Regroup("#", a, b, c, tail);
    var d := a + b + c + tail;
    DropHash(d);
    assert hex == "#" + d && Digits(hex) == d;
    PairsOf(d, a, b, c, tail);
    PairOfByte(d, 0, rgb.r);
    PairOfByte(d, 1, rgb.g);
    PairOfByte(d, 2, rgb.b);
    if !removeAlpha {
      assert d[6..8] == d[6..][0..2];
      PairOfByte(d, 3, k);
    }
  }

  /**
   * Encoding a colour with an alpha of k / 255 and decoding the string gives
   * the colour and that alpha back; with the alpha removed, the decoded
   * alpha is 1.
   */
  lemma EncodeDecode(rgb: Rgb, k: int, removeAlpha: bool)
    requires ValidRgb(rgb) && IsByte(k)
    ensures HexToRgba(RgbaToHex(rgb, k as real / 255.0, removeAlpha))
         == Decoded(Rgba(rgb, if removeAlpha then 1.0 else k as real / 255.0))
  {
    var alpha := k as real / 255.0;
    RoundInteger(alpha * 255.0, k);
    RgbaToHexBytes(rgb, alpha, removeAlpha);
    DecodeWritten(RgbaToHex(rgb, alpha, removeAlpha), rgb, k, removeAlpha);
  }

  /**
   * For any alpha in [0, 1], decoding the encoded colour gives the colour
   * back, with the alpha rounded to the nearest multiple of 1/255 (alpha 1
   * when removed).
   */
  lemma EncodeDecodeRounded(rgb: Rgb, alpha: real, removeAlpha: bool)
    requires ValidRgb(rgb) && 0.0 <= alpha <= 1.0
    ensures HexToRgba(RgbaToHex(rgb, alpha, removeAlpha))
         == Decoded(Rgba(rgb, if removeAlpha then 1.0 else Round(alpha * 255.0) as real / 255.0))
  {
    var k := Round(alpha * 255.0);
    AlphaByte(alpha);
    RoundInteger(k as real / 255.0 * 255.0, k);
    RgbaToHexBytes(rgb, alpha, removeAlpha);
    RgbaToHexBytes(rgb, k as real / 255.0, removeAlpha);
    EncodeDecode(rgb, k, removeAlpha);
  }

  /** The byte with digits `hi` and `lo` is written as those two digits. */
  lemma ByteOfDigits(hi: int, lo: int)
    requires 0 <= hi < 16 && 0 <= lo < 16
    ensures IsByte(16 * hi + lo) && ByteHex(16 * hi + lo) == [HexDigit(hi), HexDigit(lo)]
  {
    var n := 16 * hi + lo;
    assert n / 16 == hi && n % 16 == lo;
  }

  /** The pair written for a captured pair's value is that pair in lower case. */
  lemma PairBack(digits: string, i: nat)
    requires 2 * i + 2 <= |digits| && AllHex(digits)
    ensures ByteHex(PairValue(digits, i)) == [Lower(digits[2 * i]), Lower(digits[2 * i + 1])]
  {
    var a, b := digits[2 * i], digits[2 * i + 1];
    ByteOfDigits(HexValue(a), HexValue(b));
    DigitRoundTrip(a);
    DigitRoundTrip(b);
  }

  /** The i-th lower-cased pair is the pair written for its value. */
  lemma LowerPair(d: string, i: nat)
    requires 2 * i + 2 <= |d| && AllHex(d)
    ensures LowerAll(d)[2 * i..2 * i + 2] == ByteHex(PairValue(d, i))
  {
    LowerSlice(d, 2 * i);
    PairBack(d, i);
  }

  /** Two consecutive lower-cased characters. */
  lemma LowerSlice(d: string, j: nat)
    requires j + 2 <= |d|
    ensures LowerAll(d)[j..j + 2] == [Lower(d[j]), Lower(d[j + 1])]
  {
  }

  lemma Split(s: string, i: nat)
    requires i <= |s|
    ensures s == s[..i] + s[i..]
  {
  }

  /** The lower-cased digits, pair by pair. */
  lemma LowerPairs(d: string, n: nat)
    requires |d| == 2 * n && AllHex(d) && 3 <= n <= 4
    ensures LowerAll(d) == ByteHex(PairValue(d, 0)) + ByteHex(PairValue(d, 1)) + ByteHex(PairValue(d, 2))
                           + (if n == 4 then ByteHex(PairValue(d, 3)) else "")
  {
    var low := LowerAll(d);
    var p0, p1, p2 := ByteHex(PairValue(d, 0)), ByteHex(PairValue(d, 1)), ByteHex(PairValue(d, 2));
    var tail := if n == 4 then ByteHex(PairValue(d, 3)) else "";
    LowerPair(d, 0);
    LowerPair(d, 1);
    LowerPair(d, 2);
    if n == 4 {
      LowerPair(d, 3);
    }
    assert low[6..] == tail;
    Split(low[..6], 4);
    Split(low[..4], 2);
    Split(low, 6);
    assert low[..6][..4] == low[..4] && low[..6][4..] == p2;
    assert low[..4][..2] == p0 && low[..4][2..] == p1;
  }
  lemma Regroup(h: string, a: string, b: string, c: string, t: string)
    ensures h + (a + b + c + t) == h + a + b + c + t
  {
  }

  /** Re-encoding the values of 3 or 4 captured pairs gives `#` and the pairs in lower case. */
  lemma ReEncode(d: string, n: nat)
    requires |d| == 2 * n && AllHex(d) && 3 <= n <= 4
    ensures RgbaToHex(Rgb(PairValue(d, 0), PairValue(d, 1), PairValue(d, 2)),
                      if n == 4 then PairValue(d, 3) as real / 255.0 else 1.0, n == 3)
         == "#" + LowerAll(d)
  {
    var rgb := Rgb(PairValue(d, 0), PairValue(d, 1), PairValue(d, 2));
    var alpha := if n == 4 then PairValue(d, 3) as real / 255.0 else 1.0;
    var tail := if n == 4 then ByteHex(PairValue(d, 3)) else "";
    RgbaToHexBytes(rgb, alpha, n == 3);
    if n == 4 {
      var k := PairValue(d, 3);
      RoundInteger(k as real / 255.0 * 255.0, k);
    }
    assert (if n == 3 then "" else ByteHex(Round(alpha * 255.0))) == tail;
    LowerPairs(d, n);
    var p0, p1, p2 := ByteHex(PairValue(d, 0)), ByteHex(PairValue(d, 1)), ByteHex(PairValue(d, 2));
    Regroup("#", p0, p1, p2, tail);
  }

  lemma LowerPrefixed(hex: string)
    requires |hex| > 0 && hex[0] == '#'
    ensures LowerAll(hex) == "#" + LowerAll(hex[1..])
  {
  }

  /**
   * Decoding a well-formed 7- or 9-character string and encoding the result
   * again (dropping the alpha exactly when the string had none) gives the
   * string back in lower case.
   */
  lemma DecodeEncode(hex: string)
    requires (|hex| == 7 || |hex| == 9) && hex[0] == '#' && AllHex(hex[1..])
    ensures HexToRgba(hex).Decoded?
    ensures var rgba := HexToRgba(hex).rgba;
      RgbaToHex(rgba.rgb, rgba.a, |hex| == 7) == LowerAll(hex)
  {
    var d := hex[1..];
    var n := |d| / 2;
    assert Digits(hex) == d;
    var rgba := FromMatch(hex, n);
    assert HexToRgba(hex) == Decoded(rgba);
    assert rgba.rgb == Rgb(PairValue(d, 0), PairValue(d, 1), PairValue(d, 2));
    assert rgba.a == if n == 4 then PairValue(d, 3) as real / 255.0 else 1.0;
    ReEncode(d, n);
    LowerPrefixed(hex);
  }

  // ------------------------------------------------------------------ //
  //                           Test vectors                              //
  // ------------------------------------------------------------------ //

  /** The digits of the white and black vectors, with alpha 0. */
  lemma ClearDigits()
    ensures "#" + ByteHex(255) + ByteHex(255) + ByteHex(255) + ByteHex(0) == "#ffffff00"
    ensures "#" + ByteHex(0) + ByteHex(0) + ByteHex(0) + ByteHex(0) == "#00000000"
    ensures "#" + ByteHex(255) + ByteHex(255) + ByteHex(255) + "" == "#ffffff"
    ensures "#" + ByteHex(0) + ByteHex(0) + ByteHex(0) + "" == "#000000"
  {
    assert ByteHex(255) == "ff" && ByteHex(0) == "00";
  }

  /** The converter's `rgba_to_hex` test vectors: white and black with alpha 0, kept and removed. */
  lemma RgbaToHexVectorsClear()
    ensures RgbaToHex(Rgb(255, 255, 255), 0.0, false) == "#ffffff00"
    ensures RgbaToHex(Rgb(0, 0, 0), 0.0, false) == "#00000000"
    ensures RgbaToHex(Rgb(255, 255, 255), 0.0, true) == "#ffffff"
    ensures RgbaToHex(Rgb(0, 0, 0), 0.0, true) == "#000000"
  {
    RoundInteger(0.0 * 255.0, 0);
    RgbaToHexBytes(Rgb(255, 255, 255), 0.0, false);
    RgbaToHexBytes(Rgb(0, 0, 0), 0.0, false);
    RgbaToHexBytes(Rgb(255, 255, 255), 0.0, true);
    RgbaToHexBytes(Rgb(0, 0, 0), 0.0, true);
    ClearDigits();
  }

  /** The digits of the vector (28, 206, 55) with alpha 128 / 255. */
  lemma HalfDigits()
    ensures "#" + ByteHex(28) + ByteHex(206) + ByteHex(55) + ByteHex(128) == "#1cce3780"
    ensures "#" + ByteHex(28) + ByteHex(206) + ByteHex(55) + "" == "#1cce37"
  {
    assert ByteHex(28) == "1c" && ByteHex(206) == "ce" && ByteHex(55) == "37" && ByteHex(128) == "80";
  }

  /** The converter's `rgba_to_hex` test vectors with half alpha, kept and removed. */
  lemma RgbaToHexVectorsHalf()
    ensures RgbaToHex(Rgb(28, 206, 55), 0.5, false) == "#1cce3780"
    ensures RgbaToHex(Rgb(28, 206, 55), 0.5, true) == "#1cce37"
  {
    assert Round(0.5 * 255.0) == 128;
    RgbaToHexBytes(Rgb(28, 206, 55), 0.5, false);
    RgbaToHexBytes(Rgb(28, 206, 55), 0.5, true);
    HalfDigits();
  }

  /** The digits of the vector (78, 92, 140) with alpha 1. */
  lemma OpaqueDigits()
    ensures "#" + ByteHex(78) + ByteHex(92) + ByteHex(140) + ByteHex(255) == "#4e5c8cff"
    ensures "#" + ByteHex(78) + ByteHex(92) + ByteHex(140) + "" == "#4e5c8c"
  {
    assert ByteHex(78) == "4e" && ByteHex(92) == "5c" && ByteHex(140) == "8c" && ByteHex(255) == "ff";
  }

  /** The converter's `rgba_to_hex` test vectors with full alpha, kept and removed. */
  lemma RgbaToHexVectorOpaque()
    ensures RgbaToHex(Rgb(78, 92, 140), 1.0, false) == "#4e5c8cff"
    ensures RgbaToHex(Rgb(78, 92, 140), 1.0, true) == "#4e5c8c"
  {
    RoundInteger(1.0 * 255.0, 255);
    RgbaToHexBytes(Rgb(78, 92, 140), 1.0, false);
    RgbaToHexBytes(Rgb(78, 92, 140), 1.0, true);
    OpaqueDigits();
  }

  /** The converter's `hex_to_rgba` test vectors. */
  lemma HexToRgbaVectors()
    ensures HexToRgba("#ffffff") == Decoded(Rgba(Rgb(255, 255, 255), 1.0))
    ensures HexToRgba("#000000") == Decoded(Rgba(Rgb(0, 0, 0), 1.0))
    ensures HexToRgba("#1cce37") == Decoded(Rgba(Rgb(28, 206, 55), 1.0))
    ensures HexToRgba("#4e5c8c") == Decoded(Rgba(Rgb(78, 92, 140), 1.0))
    ensures HexToRgba("#4e5c8c80") == Decoded(Rgba(Rgb(78, 92, 140), 128.0 / 255.0))
  {
    assert MatchesPairs("#ffffff", 3);
    assert MatchesPairs("#000000", 3);
    assert MatchesPairs("#1cce37", 3);
    assert MatchesPairs("#4e5c8c", 3);
    assert MatchesPairs("#4e5c8c80", 4);
  }
}
