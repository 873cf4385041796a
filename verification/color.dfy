/**
  The colour codec of the combiner: `hexToRGB` and `rgbToHex` of main.go.

  `hexToRGB` parses the byte pairs at offsets 1-2, 3-4 and 5-6 with
  `strconv.ParseInt(pair, 16, 8)` and ignores the error. Because the
  bit size is 8 the result is a signed 8-bit value: a pair above `7F`
  saturates to 127, a pair that is not a numeral gives 0, and a signed pair
  such as `-F` gives -15. `rgbToHex` prints each channel with `%02X`.
*/
module Color {
  import opened Strconv
  import opened Fmt

  datatype Rgb = Rgb(r: int, g: int, b: int)

  datatype Channel = Red | Green | Blue

  function Get(c: Rgb, ch: Channel): int {
    match ch
    case Red => c.r
    case Green => c.g
    case Blue => c.b
  }

  /** `#` followed by six hex digits of either case. */
  predicate IsPureHexColor(s: string) {
    |s| == 7 && s[0] == '#' && AllHex(s[1..])
  }

  /** `#` followed by six upper-case hex digits: the shape `rgbToHex` promises. */
  predicate IsCanonicalColor(s: string) {
    |s| == 7 && s[0] == '#' && AllUpperHex(s[1..])
  }

  /** The two bytes that hold channel `ch` of a colour string. */
  function Pair(s: string, ch: Channel): (p: string)
    requires |s| >= 7
    ensures |p| == 2
  {
    match ch
    case Red => s[1..3]
    case Green => s[3..5]
    case Blue => s[5..7]
  }

  /** A string long enough for `hexToRGB`'s slice expressions, which need
      at least seven bytes (Go panics on a shorter one). */
  type HexString = s: string | |s| >= 7 witness "#000000"

  /** `hexToRGB`. */
  function HexToRgb(hex: HexString): Rgb
  {
    Rgb(ParseInt(hex[1..3], 8).n, ParseInt(hex[3..5], 8).n, ParseInt(hex[5..7], 8).n)
  }

  /** `rgbToHex`. */
  function RgbToHex(c: Rgb): string {
    "#" + FormatX02(c.r) + FormatX02(c.g) + FormatX02(c.b)
  }

  // ---------------------------------------------------------------------
  // Decoding
  // ---------------------------------------------------------------------

  /** What one channel of `hexToRGB` decodes to, for every shape of pair. */
  lemma DecodeChannel(s: string, ch: Channel)
    requires |s| >= 7
    ensures var p := Pair(s, ch);
            && (AllHex(p) ==> Get(HexToRgb(s), ch) == Clamp127(HexValue(p)))
            && (p[0] == '+' && IsHexDigit(p[1]) ==> Get(HexToRgb(s), ch) == DigitValue(p[1]))
            && (p[0] == '-' && IsHexDigit(p[1]) ==> Get(HexToRgb(s), ch) == -(DigitValue(p[1]) as int))
            && (!AllHex(p) && !(IsSign(p[0]) && IsHexDigit(p[1])) ==> Get(HexToRgb(s), ch) == 0)
            && -15 <= Get(HexToRgb(s), ch) <= 127
  {
    var p := Pair(s, ch);
    ParseInt8Pair(p);
    if AllHex(p) {
      HexValuePair(p);
    }
  }

  /** A pure-hex colour decodes, channel by channel, to the value of its
      pair capped at 127: `FF` and `80` both decode to 127. */
  lemma DecodePureHex(s: string)
    requires IsPureHexColor(s)
    ensures forall ch :: AllHex(Pair(s, ch))
    ensures forall ch :: Get(HexToRgb(s), ch) == Clamp127(HexValue(Pair(s, ch)))
    ensures forall ch :: 0 <= Get(HexToRgb(s), ch) <= 127
  {
    forall ch ensures AllHex(Pair(s, ch)) && Get(HexToRgb(s), ch) == Clamp127(HexValue(Pair(s, ch))) {
      assert forall i | 0 <= i < 2 :: Pair(s, ch)[i] == s[1..][i + 2 * ChannelIndex(ch)];
      DecodeChannel(s, ch);
    }
  }

  function ChannelIndex(ch: Channel): nat {
    match ch
    case Red => 0
    case Green => 1
    case Blue => 2
  }

  // ---------------------------------------------------------------------
  // Encoding
  // ---------------------------------------------------------------------

  predicate InByteRange(c: Rgb) {
    forall ch :: 0 <= Get(c, ch) < 256
  }

  /** The pair of the encoding that holds channel `ch` is the `%02X` of it. */
  lemma EncodedPairs(c: Rgb)
    requires InByteRange(c)
    ensures |RgbToHex(c)| == 7
    ensures forall ch :: Pair(RgbToHex(c), ch) == FormatX02(Get(c, ch))
  {
    assert 0 <= Get(c, Red) < 256 && 0 <= Get(c, Green) < 256 && 0 <= Get(c, Blue) < 256;
    FormatX02Byte(c.r);
    FormatX02Byte(c.g);
    FormatX02Byte(c.b);
    PairsOfConcat(FormatX02(c.r), FormatX02(c.g), FormatX02(c.b));
  }

  /** Where the three two-byte pieces sit in `#` followed by them. */
  lemma PairsOfConcat(r: string, g: string, b: string)
    requires |r| == 2 && |g| == 2 && |b| == 2
    ensures var s := "#" + r + g + b;
            |s| == 7 && Pair(s, Red) == r && Pair(s, Green) == g && Pair(s, Blue) == b
  {
    var s := "#" + r + g + b;
    assert s == ['#', r[0], r[1], g[0], g[1], b[0], b[1]];
  }

  /** Channels in [0, 255] encode to `#` and six upper-case hex digits,
      whose pairs denote the channels. */
  lemma EncodeFormat(c: Rgb)
    requires InByteRange(c)
    ensures IsCanonicalColor(RgbToHex(c))
    ensures forall ch :: AllHex(Pair(RgbToHex(c), ch)) && HexValue(Pair(RgbToHex(c), ch)) == Get(c, ch)
  {
    EncodedPairs(c);
    var s := RgbToHex(c);
    forall ch ensures AllHex(Pair(s, ch)) && HexValue(Pair(s, ch)) == Get(c, ch) {
      FormatX02Byte(Get(c, ch));
    }
    assert s[1..] == Pair(s, Red) + Pair(s, Green) + Pair(s, Blue);
  }

  /** Encoding and decoding again caps each channel at 127; so channels in
      [0, 127] survive the round trip unchanged. */
  lemma DecodeEncode(c: Rgb)
    requires InByteRange(c)
    ensures HexToRgb(RgbToHex(c)) == Rgb(Clamp127(c.r), Clamp127(c.g), Clamp127(c.b))
    ensures (forall ch :: Get(c, ch) <= 127) ==> HexToRgb(RgbToHex(c)) == c
  {
    EncodeFormat(c);
    var s := RgbToHex(c);
    assert IsPureHexColor(s) by {
      forall i | 0 <= i < 6 ensures IsHexDigit(s[1..][i]) {
        assert IsUpperHexDigit(s[1..][i]);
      }
    }
    DecodePureHex(s);
    assert Get(HexToRgb(s), Red) == Clamp127(c.r);
    assert Get(HexToRgb(s), Green) == Clamp127(c.g);
    assert Get(HexToRgb(s), Blue) == Clamp127(c.b);
  }

  /** One pair of an upper-case colour whose pair is at most `7F` is
      reprinted exactly. */
  lemma ReprintPair(s: string, ch: Channel)
    requires IsCanonicalColor(s)
    requires AllHex(Pair(s, ch)) && HexValue(Pair(s, ch)) <= 127
    ensures FormatX02(Get(HexToRgb(s), ch)) == Pair(s, ch)
  {
    var p := Pair(s, ch);
    assert forall i | 0 <= i < 2 :: p[i] == s[1..][i + 2 * ChannelIndex(ch)];
    DecodeChannel(s, ch);
    FormatX02OfPair(p);
  }

  /** An upper-case colour whose pairs are all at most `7F` is reproduced
      exactly by decoding and re-encoding it. */
  lemma EncodeDecode(s: string)
    requires IsCanonicalColor(s)
    requires forall ch :: AllHex(Pair(s, ch)) && HexValue(Pair(s, ch)) <= 127
    ensures RgbToHex(HexToRgb(s)) == s
  {
    ReprintPair(s, Red);
    ReprintPair(s, Green);
    ReprintPair(s, Blue);
    SplitColor(s);
  }

  /** A seven-byte colour is `#` followed by its three pairs. */
  lemma SplitColor(s: string)
    requires |s| == 7 && s[0] == '#'
    ensures s == "#" + Pair(s, Red) + Pair(s, Green) + Pair(s, Blue)
  {
    assert s == [s[0]] + s[1..3] + s[3..5] + s[5..7];
  }
}
