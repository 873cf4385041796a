/**
  Worked requests: what the handler answers for a few concrete colour
  lists, derived from the general lemmas about decoding, averaging,
  encoding and the nearest-name search. Each fact about a literal is kept
  in a lemma of its own and the scenarios chain them.
*/
module Scenarios {
  import opened Wrappers
  import opened Strconv
  import opened Fmt
  import opened Color
  import opened Names
  import opened Combine
  import opened Handler

  // ---------------------------------------------------------------------
  // Generic steps
  // ---------------------------------------------------------------------

  /** The mean of two colours is the average of their decodings. */
  lemma MeanOfTwo(a: HexString, b: HexString, x: Rgb, y: Rgb)
    requires HexToRgb(a) == x && HexToRgb(b) == y
    ensures Mean([a, b]) == Average([x, y])
  {
    assert Decode([a, b]) == [x, y];
  }

  /** The mean of one colour is its decoding. */
  lemma MeanOfOne(a: HexString, x: Rgb)
    requires HexToRgb(a) == x
    ensures Mean([a]) == x
  {
    MeanOfCopies([a], a);
  }

  /** The average of two colours, channel by channel. */
  lemma AverageOfTwo(x: Rgb, y: Rgb)
    ensures Average([x, y]) == Rgb(GoDiv(x.r + y.r, 2), GoDiv(x.g + y.g, 2), GoDiv(x.b + y.b, 2))
  {
    ChannelSumOfTwo(x, y, Red);
    ChannelSumOfTwo(x, y, Green);
    ChannelSumOfTwo(x, y, Blue);
  }

  lemma ChannelSumOfTwo(x: Rgb, y: Rgb, ch: Channel)
    ensures ChannelSum([x, y], ch) == Get(x, ch) + Get(y, ch)
  {
    assert [x, y][..1] == [x];
    assert [x][..0] == [];
    assert ChannelSum([x], ch) == Get(x, ch);
  }

  /** A pair `00`, `01` or `FF` decodes to 0, 1 or 127. */
  lemma DecodeSmallPair(s: HexString, ch: Channel)
    requires Pair(s, ch) in ["00", "01", "FF"]
    ensures Pair(s, ch) == "00" ==> Get(HexToRgb(s), ch) == 0
    ensures Pair(s, ch) == "01" ==> Get(HexToRgb(s), ch) == 1
    ensures Pair(s, ch) == "FF" ==> Get(HexToRgb(s), ch) == 127
  {
    var p := Pair(s, ch);
    assert AllHex(p);
    DecodeChannel(s, ch);
    HexValuePair(p);
  }

  /** A pure-hex colour passes the per-element checks. */
  lemma AcceptPureHex(s: string)
    requires IsPureHexColor(s)
    ensures CheckColor(s) == None
  {
    assert s[1..] != [];
    CheckColorSpec(s);
  }

  /** Two colours that each pass the per-element checks pass validation. */
  lemma AcceptTwo(a: string, b: string)
    requires CheckColor(a) == None && CheckColor(b) == None
    ensures Validate([a, b]) == None
  {
    assert [a, b][1..] == [b];
    assert [b][1..] == [];
    assert CheckEach([b]) == None;
  }

  /** Two pure-hex colours pass validation. */
  lemma AcceptTwoPureHex(a: string, b: string)
    requires IsPureHexColor(a) && IsPureHexColor(b)
    ensures Validate([a, b]) == None
  {
    AcceptPureHex(a);
    AcceptPureHex(b);
    AcceptTwo(a, b);
  }

  /** With the squared distance to each palette entry known and a unique
      least one, the search answers exactly that entry's name. */
  lemma ClosestByDistances(c: Rgb, k: nat, ds: seq<nat>, name: string)
    requires |ds| == |Palette| && k < |Palette|
    requires forall j | 0 <= j < |Palette| :: SqDist(c, DecodedPalette[j]) == ds[j]
    requires forall j | 0 <= j < |Palette| && j != k :: ds[k] < ds[j]
    ensures IsClosestName(c, name) <==> name == Palette[k].name
  {
    forall j | 0 <= j < |Palette| ensures Dist(c, Palette[j]) == ds[j] {
      PaletteDecoded(j);
    }
    if IsClosestName(c, name) {
      var i :| 0 <= i < |Palette| && Palette[i].name == name && IsNearest(c, i);
      assert Dist(c, Palette[i]) <= Dist(c, Palette[k]);
      assert i == k;
    }
  }

  /** `ds[k]` is the least of the distances. */
  predicate IsLeastAt(ds: seq<nat>, k: int)
    requires 0 <= k < |ds|
  {
    forall j | 0 <= j < |ds| :: ds[k] <= ds[j]
  }

  /** With the squared distance to each palette entry known, the names the
      search may answer are those of the entries with the least distance. */
  lemma ClosestAmongDistances(c: Rgb, ds: seq<nat>, name: string)
    requires |ds| == |Palette|
    requires forall j | 0 <= j < |Palette| :: SqDist(c, DecodedPalette[j]) == ds[j]
    ensures IsClosestName(c, name)
        <==> exists k | 0 <= k < |Palette| :: Palette[k].name == name && IsLeastAt(ds, k)
  {
    forall j | 0 <= j < |Palette| ensures Dist(c, Palette[j]) == ds[j] {
      PaletteDecoded(j);
    }
  }

  // ---------------------------------------------------------------------
  // Facts about single literals
  // ---------------------------------------------------------------------

  lemma DecodeNearlyBlack(s: HexString)
    requires s == "#000001"
    ensures HexToRgb(s) == Rgb(0, 0, 1)
  {
    assert Pair(s, Red) == "00" && Pair(s, Green) == "00" && Pair(s, Blue) == "01";
    DecodeSmallPair(s, Red);
    DecodeSmallPair(s, Green);
    DecodeSmallPair(s, Blue);
  }

  /** The signed pair `-F` decodes to -15. */
  lemma DecodeSigned(s: HexString)
    requires s == "#-F0000"
    ensures HexToRgb(s) == Rgb(-15, 0, 0)
  {
    assert Pair(s, Red) == "-F" && Pair(s, Green) == "00" && Pair(s, Blue) == "00";
    DecodeChannel(s, Red);
    DecodeSmallPair(s, Green);
    DecodeSmallPair(s, Blue);
  }

  lemma FormatOlive()
    ensures RgbToHex(Rgb(63, 63, 0)) == "#3F3F00"
  {
    FormatX02Byte(0);
    FormatX02Byte(63);
  }

  lemma FormatBlack()
    ensures RgbToHex(Rgb(0, 0, 0)) == "#000000"
  {
    FormatX02Byte(0);
  }

  lemma FormatHalfWhite()
    ensures RgbToHex(Rgb(127, 127, 127)) == "#7F7F7F"
  {
    FormatX02Byte(127);
  }

  /** `%02X` of -7 is `-7`: the sign takes the place of the padding. */
  lemma FormatNegative()
    ensures RgbToHex(Rgb(-7, 0, 0)) == "#-70000"
  {
    FormatX02Byte(0);
    assert FormatX02(-7) == "-7";
  }

  /** `#GGGGGG` has the right shape but is not hex. */
  lemma RejectNotHex(s: string)
    requires s == "#GGGGGG"
    ensures CheckColor(s) == Some(InvalidHex)
  {
    CheckColorSpec(s);
    assert !IsHexDigit(s[1..][0]);
    assert !IsHexDigit(s[1..][1..][0]);
  }

  /** `#FFF` is too short. */
  lemma RejectShort()
    ensures CheckColor("#FFF") == Some(InvalidFormat)
  {
  }

  /** `#-F0000` is a sign and five hex digits, which `ParseInt` accepts. */
  lemma AcceptSignedColor(s: string)
    requires s == "#-F0000"
    ensures CheckColor(s) == None
  {
    CheckColorSpec(s);
    assert s[1..][1..] == "F0000";
    assert AllHex(s[1..][1..]);
  }

  // ---------------------------------------------------------------------
  // Requests
  // ---------------------------------------------------------------------

  lemma RedAndGreenMean(a: HexString, b: HexString)
    requires a == "#FF0000" && b == "#00FF00"
    ensures Mean([a, b]) == Rgb(63, 63, 0)
  {
    DecodeFF00Color(a);
    DecodeFF00Color(b);
    MeanOfTwo(a, b, Rgb(127, 0, 0), Rgb(0, 127, 0));
    AverageOfTwo(Rgb(127, 0, 0), Rgb(0, 127, 0));
  }

  lemma RedAndGreenValid()
    ensures Validate(["#FF0000", "#00FF00"]) == None
  {
    AcceptTwoPureHex("#FF0000", "#00FF00");
  }

  /** Red and green average to `#3F3F00`: each `FF` counts as 127, and
      127 / 2 is 63. */
  lemma RedAndGreen()
    ensures RgbToHex(Mean(["#FF0000", "#00FF00"])) == "#3F3F00"
  {
    RedAndGreenMean("#FF0000", "#00FF00");
    FormatOlive();
  }

  /** The nearest palette colour to `#3F3F00` is black, in every iteration
      order: its squared distance 7938 is below red's and green's 8065. */
  lemma RedAndGreenName(name: string)
    ensures IsClosestName(Rgb(63, 63, 0), name) <==> name == "Black"
  {
    ClosestByDistances(Rgb(63, 63, 0), 1, [24321, 7938, 8065, 8065, 24067, 8192], name);
  }

  lemma NearlyBlackMean(a: HexString, b: HexString)
    requires a == "#000000" && b == "#000001"
    ensures Mean([a, b]) == Rgb(0, 0, 0)
  {
    DecodeFF00Color(a);
    DecodeNearlyBlack(b);
    MeanOfTwo(a, b, Rgb(0, 0, 0), Rgb(0, 0, 1));
    AverageOfTwo(Rgb(0, 0, 0), Rgb(0, 0, 1));
  }

  lemma BlackAndNearlyBlackValid()
    ensures Validate(["#000000", "#000001"]) == None
  {
    AcceptTwoPureHex("#000000", "#000001");
  }

  /** `#000001` contributes 1 to blue, and 1 / 2 truncates to 0. */
  lemma BlackAndNearlyBlack()
    ensures RgbToHex(Mean(["#000000", "#000001"])) == "#000000"
  {
    NearlyBlackMean("#000000", "#000001");
    FormatBlack();
  }

  /** A single colour whose pairs are at most `7F` comes back unchanged. */
  lemma SingleColor()
    ensures RgbToHex(Mean(["#112233"])) == "#112233"
  {
    var s := "#112233";
    forall ch ensures AllHex(Pair(s, ch)) && HexValue(Pair(s, ch)) <= 127 {
      HexValuePair(Pair(s, ch));
    }
    CombineCopiesOfCanonical([s], s);
  }

  lemma WhiteMean(a: HexString)
    requires a == "#FFFFFF"
    ensures Mean([a]) == Rgb(127, 127, 127)
  {
    DecodeFF00Color(a);
    MeanOfOne(a, Rgb(127, 127, 127));
  }

  /** White comes back as `#7F7F7F` because each `FF` saturates. */
  lemma SingleWhite()
    ensures RgbToHex(Mean(["#FFFFFF"])) == "#7F7F7F"
  {
    WhiteMean("#FFFFFF");
    FormatHalfWhite();
  }

  lemma SignedMean(a: HexString, b: HexString)
    requires a == "#-F0000" && b == "#000000"
    ensures Mean([a, b]) == Rgb(-7, 0, 0)
  {
    DecodeSigned(a);
    DecodeFF00Color(b);
    MeanOfTwo(a, b, Rgb(-15, 0, 0), Rgb(0, 0, 0));
    AverageOfTwo(Rgb(-15, 0, 0), Rgb(0, 0, 0));
  }

  /** A colour with a signed pair passes validation. */
  lemma SignedColorValid()
    ensures Validate(["#-F0000", "#000000"]) == None
  {
    AcceptSignedColor("#-F0000");
    AcceptPureHex("#000000");
    AcceptTwo("#-F0000", "#000000");
  }

  /** The signed pair decodes to a negative channel; averaged with black,
      -15 / 2 truncates to -7 (not -8), which `%02X` prints as `-7`. */
  lemma SignedColor()
    ensures RgbToHex(Mean(["#-F0000", "#000000"])) == "#-70000"
  {
    SignedMean("#-F0000", "#000000");
    FormatNegative();
  }

  /** Cyan decodes to (0, 127, 127): each `FF` saturates. */
  lemma CyanMean(a: HexString)
    requires a == "#00FFFF"
    ensures Mean([a]) == Rgb(0, 127, 127)
  {
    DecodeFF00Color(a);
    MeanOfOne(a, Rgb(0, 127, 127));
  }

  /** (0, 127, 127) is at squared distance 127 * 127 from White, Green and
      Blue, and farther from the other entries: a three-way tie, so which
      name the search answers depends on the map's visiting order. */
  lemma CyanTie(name: string)
    ensures IsClosestName(Rgb(0, 127, 127), name)
        <==> name == "White" || name == "Green" || name == "Blue"
  {
    var ds: seq<nat> := [16129, 32258, 48387, 16129, 16129, 32258];
    CyanDistances(Rgb(0, 127, 127), ds);
    ClosestAmongDistances(Rgb(0, 127, 127), ds, name);
    LeastAtWhiteGreenBlue(ds, name);
  }

  lemma CyanDistances(c: Rgb, ds: seq<nat>)
    requires c == Rgb(0, 127, 127)
    requires ds == [16129, 32258, 48387, 16129, 16129, 32258]
    ensures forall j | 0 <= j < |Palette| :: SqDist(c, DecodedPalette[j]) == ds[j]
  {
  }

  /** With these distances the least one is shared by White, Green and
      Blue, and by no other entry. */
  lemma LeastAtWhiteGreenBlue(ds: seq<nat>, name: string)
    requires ds == [16129, 32258, 48387, 16129, 16129, 32258]
    ensures (exists k | 0 <= k < |Palette| :: Palette[k].name == name && IsLeastAt(ds, k))
        <==> name == "White" || name == "Green" || name == "Blue"
  {
    if exists k | 0 <= k < |Palette| :: Palette[k].name == name && IsLeastAt(ds, k) {
      var k :| 0 <= k < |Palette| && Palette[k].name == name && IsLeastAt(ds, k);
      assert ds[k] <= ds[0];
      assert k == 0 || k == 3 || k == 4;
    }
    if name == "White" {
      assert Palette[0].name == name && IsLeastAt(ds, 0);
    } else if name == "Green" {
      assert Palette[3].name == name && IsLeastAt(ds, 3);
    } else if name == "Blue" {
      assert Palette[4].name == name && IsLeastAt(ds, 4);
    }
  }

  /** A request of cyan alone combines to `#007F7F`, and White, Green and
      Blue are all admissible names for it. */
  lemma SingleCyan(name: string)
    ensures RgbToHex(Mean(["#00FFFF"])) == "#007F7F"
    ensures IsClosestName(Mean(["#00FFFF"]), name)
        <==> name == "White" || name == "Green" || name == "Blue"
  {
    CyanMean("#00FFFF");
    FormatCyan();
    CyanTie(name);
  }

  lemma FormatCyan()
    ensures RgbToHex(Rgb(0, 127, 127)) == "#007F7F"
  {
    FormatX02Byte(0);
    FormatX02Byte(127);
  }

  /** Single rejections: the empty list, a short colour, a colour that
      is not hex. */
  lemma Rejections()
    ensures Validate([]) == Some(NoColors)
    ensures Validate(["#FFF"]) == Some(InvalidFormat)
    ensures Validate(["#GGGGGG"]) == Some(InvalidHex)
  {
    RejectShort();
    RejectNotHex("#GGGGGG");
  }

  /** With two bad colours the first one decides. */
  lemma FirstRejectionWins()
    ensures Validate(["#GGGGGG", "#FFF"]) == Some(InvalidHex)
  {
    RejectNotHex("#GGGGGG");
  }

  /** A good colour before the bad ones changes nothing. */
  lemma GoodColorFirst()
    ensures Validate(["#FFFFFF", "#FFF", "#GGGGGG"]) == Some(InvalidFormat)
  {
    AcceptPureHex("#FFFFFF");
    RejectShort();
    var three := ["#FFFFFF", "#FFF", "#GGGGGG"];
    assert three[1..] == ["#FFF", "#GGGGGG"];
  }
}
