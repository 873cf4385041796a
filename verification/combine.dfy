/**
  `combineHexColors` of main.go: decode every colour, sum each channel in
  `int`, divide each sum by the number of colours with Go's `/`, then
  encode the mean and look up its nearest palette name.

  Go's `/` truncates toward zero. On pure-hex input every channel is at
  least 0, so this is floor division; a colour such as `#-F0000`, which the
  request validation lets through, decodes to a negative channel, and then
  the truncation matters.
*/
module Combine {
  import opened Strconv
  import opened Color
  import opened Names
  import opened Seqs

  /** The colours as `hexToRGB` decodes them, in list order. */
  function Decode(colors: seq<HexString>): seq<Rgb> {
    Map(colors, HexToRgb)
  }

  /** The sum of channel `ch` over a list of colours, accumulated in order. */
  function ChannelSum(cs: seq<Rgb>, ch: Channel): int {
    if |cs| == 0 then 0 else ChannelSum(cs[..|cs| - 1], ch) + Get(cs[|cs| - 1], ch)
  }

  /** Go's integer `/` with a positive divisor: the quotient truncated
      toward zero, so the remainder has the sign of the dividend. */
  function GoDiv(a: int, n: int): (q: int)
    requires n > 0
    ensures a >= 0 ==> 0 <= a - n * q < n
    ensures a < 0 ==> -n < a - n * q <= 0
  {
    if a >= 0 then a / n else -((-a) / n)
  }

  /** Each channel sum divided by the number of colours. */
  function Average(cs: seq<Rgb>): Rgb
    requires |cs| > 0
  {
    var n := |cs|;
    Rgb(GoDiv(ChannelSum(cs, Red), n), GoDiv(ChannelSum(cs, Green), n), GoDiv(ChannelSum(cs, Blue), n))
  }

  /** The combined colour of a request. */
  function Mean(colors: seq<HexString>): Rgb
    requires |colors| > 0
  {
    Average(Decode(colors))
  }

  /** `combineHexColors(colors)`, with the palette visited in `order`. Go
      divides by `len(colors)`, so the list must not be empty; the element
      type says every colour is long enough for `hexToRGB`. */
  method CombineHexColors(colors: seq<HexString>, order: seq<Entry>) returns (combinedColor: string, colorName: string)
    requires |colors| > 0
    requires IsIterationOrder(order)
    ensures combinedColor == RgbToHex(Mean(colors))
    ensures IsClosestName(Mean(colors), colorName)
  {
    var rSum, gSum, bSum := SumChannels(colors);
    var count := |colors|;
    var combined := Rgb(GoDiv(rSum, count), GoDiv(gSum, count), GoDiv(bSum, count));
    combinedColor := RgbToHex(combined);
    colorName := ClosestColorName(combined, order);
  }

  /** The loop of `combineHexColors` that decodes each colour and adds it
      to the running channel sums. */
  method SumChannels(colors: seq<HexString>) returns (rSum: int, gSum: int, bSum: int)
    ensures rSum == ChannelSum(Decode(colors), Red)
    ensures gSum == ChannelSum(Decode(colors), Green)
    ensures bSum == ChannelSum(Decode(colors), Blue)
  {
    ghost var cs := Decode(colors);
    rSum, gSum, bSum := 0, 0, 0;
    var k := 0;
    while k < |colors|
      invariant 0 <= k <= |colors|
      invariant rSum == ChannelSum(cs[..k], Red)
      invariant gSum == ChannelSum(cs[..k], Green)
      invariant bSum == ChannelSum(cs[..k], Blue)
    {
      var c := HexToRgb(colors[k]);
      assert c == cs[k];
      ChannelSumStep(cs, k);
      rSum := rSum + c.r;
      gSum := gSum + c.g;
      bSum := bSum + c.b;
      k := k + 1;
    }
    assert cs[..k] == cs;
  }

  /** Adding the next colour of a prefix to the running sums. */
  lemma ChannelSumStep(cs: seq<Rgb>, k: int)
    requires 0 <= k < |cs|
    ensures forall ch :: ChannelSum(cs[..k + 1], ch) == ChannelSum(cs[..k], ch) + Get(cs[k], ch)
  {
    assert cs[..k + 1][..k] == cs[..k];
  }

  // ---------------------------------------------------------------------
  // Bounds
  // ---------------------------------------------------------------------

  lemma {:induction false} ChannelSumBounds(cs: seq<Rgb>, ch: Channel, lo: int, hi: int)
    requires forall i | 0 <= i < |cs| :: lo <= Get(cs[i], ch) <= hi
    ensures |cs| * lo <= ChannelSum(cs, ch) <= |cs| * hi
  {
    if |cs| > 0 {
      var front := cs[..|cs| - 1];
      ChannelSumBounds(front, ch, lo, hi);
      assert |cs| * lo == |front| * lo + lo;
      assert |cs| * hi == |front| * hi + hi;
    }
  }

  lemma MulMonotone(n: int, x: int, y: int)
    requires n > 0 && x <= y
    ensures n * x <= n * y
  {
  }

  /** A truncated quotient of a value between `n * lo` and `n * hi` lies
      between `lo` and `hi`. */
  lemma GoDivBounds(a: int, n: int, lo: int, hi: int)
    requires n > 0 && n * lo <= a <= n * hi
    ensures lo <= GoDiv(a, n) <= hi
  {
    var q := GoDiv(a, n);
    if q > hi {
      MulMonotone(n, hi + 1, q);
    }
    if q < lo {
      MulMonotone(n, q, lo - 1);
    }
  }

  /** Each channel of the average lies within any bounds of that channel
      among the averaged colours, in particular between their minimum and
      their maximum. */
  lemma AverageWithin(cs: seq<Rgb>, ch: Channel, lo: int, hi: int)
    requires |cs| > 0
    requires forall i | 0 <= i < |cs| :: lo <= Get(cs[i], ch) <= hi
    ensures lo <= Get(Average(cs), ch) <= hi
  {
    ChannelSumBounds(cs, ch, lo, hi);
    GoDivBounds(ChannelSum(cs, ch), |cs|, lo, hi);
    assert Get(Average(cs), ch) == GoDiv(ChannelSum(cs, ch), |cs|);
  }

  /** Each combined channel lies between the smallest and the largest value
      of that channel among the decoded inputs (here any bounds of them). */
  lemma MeanWithin(colors: seq<HexString>, ch: Channel, lo: int, hi: int)
    requires |colors| > 0
    requires forall i | 0 <= i < |colors| :: lo <= Get(HexToRgb(colors[i]), ch) <= hi
    ensures lo <= Get(Mean(colors), ch) <= hi
  {
    AverageWithin(Decode(colors), ch, lo, hi);
  }

  /** For pure-hex input every channel sum is non-negative, so the division
      is floor division; each combined channel lies in [0, 127]; and the
      combined colour is `#` followed by six upper-case hex digits. */
  lemma PureHexMean(colors: seq<HexString>)
    requires |colors| > 0
    requires forall i | 0 <= i < |colors| :: IsPureHexColor(colors[i])
    ensures forall ch :: ChannelSum(Decode(colors), ch) >= 0
    ensures forall ch :: Get(Mean(colors), ch) == ChannelSum(Decode(colors), ch) / |colors|
    ensures forall ch :: 0 <= Get(Mean(colors), ch) <= 127
    ensures IsCanonicalColor(RgbToHex(Mean(colors)))
  {
    PureHexDecoded(colors);
    HalfByteAverage(Decode(colors));
  }

  /** A pure-hex colour decodes to channels in [0, 127]. */
  lemma PureHexDecoded(colors: seq<HexString>)
    requires forall i | 0 <= i < |colors| :: IsPureHexColor(colors[i])
    ensures forall i, ch | 0 <= i < |colors| :: 0 <= Get(Decode(colors)[i], ch) <= 127
  {
    forall i, ch | 0 <= i < |colors| ensures 0 <= Get(Decode(colors)[i], ch) <= 127 {
      DecodePureHex(colors[i]);
    }
  }

  /** The average of colours with channels in [0, 127]. */
  lemma HalfByteAverage(cs: seq<Rgb>)
    requires |cs| > 0
    requires forall i, ch | 0 <= i < |cs| :: 0 <= Get(cs[i], ch) <= 127
    ensures forall ch :: ChannelSum(cs, ch) >= 0
    ensures forall ch :: Get(Average(cs), ch) == ChannelSum(cs, ch) / |cs|
    ensures forall ch :: 0 <= Get(Average(cs), ch) <= 127
    ensures IsCanonicalColor(RgbToHex(Average(cs)))
  {
    forall ch
      ensures ChannelSum(cs, ch) >= 0
      ensures Get(Average(cs), ch) == ChannelSum(cs, ch) / |cs|
      ensures 0 <= Get(Average(cs), ch) <= 127
    {
      HalfByteChannel(cs, ch);
    }
    EncodeFormat(Average(cs));
  }

  lemma HalfByteChannel(cs: seq<Rgb>, ch: Channel)
    requires |cs| > 0
    requires forall i | 0 <= i < |cs| :: 0 <= Get(cs[i], ch) <= 127
    ensures ChannelSum(cs, ch) >= 0
    ensures Get(Average(cs), ch) == ChannelSum(cs, ch) / |cs|
    ensures 0 <= Get(Average(cs), ch) <= 127
  {
    ChannelSumBounds(cs, ch, 0, 127);
    AverageWithin(cs, ch, 0, 127);
    assert Get(Average(cs), ch) == GoDiv(ChannelSum(cs, ch), |cs|);
  }

  // ---------------------------------------------------------------------
  // Copies of one colour
  // ---------------------------------------------------------------------

  lemma {:induction false} ChannelSumOfCopies(cs: seq<Rgb>, c: Rgb, ch: Channel)
    requires forall i | 0 <= i < |cs| :: cs[i] == c
    ensures ChannelSum(cs, ch) == |cs| * Get(c, ch)
  {
    if |cs| > 0 {
      var front := cs[..|cs| - 1];
      ChannelSumOfCopies(front, c, ch);
      assert |cs| * Get(c, ch) == |front| * Get(c, ch) + Get(c, ch);
    }
  }

  lemma GoDivExact(v: int, n: int)
    requires n > 0
    ensures GoDiv(n * v, n) == v
  {
    var q := GoDiv(n * v, n);
    assert n * v - n * q == n * (v - q);
    if q < v {
      MulMonotone(n, 1, v - q);
    } else if q > v {
      MulMonotone(n, 1, q - v);
    }
  }

  /** Averaging N >= 1 copies of a colour gives that colour back. */
  lemma AverageOfCopies(cs: seq<Rgb>, c: Rgb)
    requires |cs| > 0
    requires forall i | 0 <= i < |cs| :: cs[i] == c
    ensures Average(cs) == c
  {
    forall ch ensures Get(Average(cs), ch) == Get(c, ch) {
      ChannelSumOfCopies(cs, c, ch);
      GoDivExact(Get(c, ch), |cs|);
      assert Get(Average(cs), ch) == GoDiv(ChannelSum(cs, ch), |cs|);
    }
    assert Get(Average(cs), Red) == c.r;
    assert Get(Average(cs), Green) == c.g;
    assert Get(Average(cs), Blue) == c.b;
  }

  /** Combining N >= 1 copies of a colour gives that colour as decoded. */
  lemma MeanOfCopies(colors: seq<HexString>, c: HexString)
    requires |colors| > 0
    requires forall i | 0 <= i < |colors| :: colors[i] == c
    ensures Mean(colors) == HexToRgb(c)
  {
    AverageOfCopies(Decode(colors), HexToRgb(c));
  }

  /** So copies of an upper-case colour whose pairs are at most `7F`
      combine to exactly that colour. */
  lemma CombineCopiesOfCanonical(colors: seq<HexString>, c: HexString)
    requires |colors| > 0 && IsCanonicalColor(c)
    requires forall ch :: AllHex(Pair(c, ch)) && HexValue(Pair(c, ch)) <= 127
    requires forall i | 0 <= i < |colors| :: colors[i] == c
    ensures RgbToHex(Mean(colors)) == c
  {
    MeanOfCopies(colors, c);
    EncodeDecode(c);
  }

  // ---------------------------------------------------------------------
  // Order independence
  // ---------------------------------------------------------------------

  lemma {:induction false} ChannelSumAppend(a: seq<Rgb>, b: seq<Rgb>, ch: Channel)
    ensures ChannelSum(a + b, ch) == ChannelSum(a, ch) + ChannelSum(b, ch)
    decreases |b|
  {
    if |b| == 0 {
      assert a + b == a;
    } else {
      var front := b[..|b| - 1];
      ChannelSumAppend(a, front, ch);
      assert (a + b)[..|a + b| - 1] == a + front;
    }
  }

  /** Taking the colour at `k` out of a list takes its channel out of the sum. */
  lemma ChannelSumRemove(b: seq<Rgb>, k: int, ch: Channel)
    requires 0 <= k < |b|
    ensures ChannelSum(b, ch) == ChannelSum(b[..k] + b[k + 1..], ch) + Get(b[k], ch)
  {
    assert b == b[..k] + [b[k]] + b[k + 1..];
    ChannelSumAppend(b[..k] + [b[k]], b[k + 1..], ch);
    ChannelSumAppend(b[..k], [b[k]], ch);
    ChannelSumAppend(b[..k], b[k + 1..], ch);
    assert [b[k]][..0] == [];
  }

  /** A channel sum depends only on the multiset of colours summed. */
  lemma {:induction false} ChannelSumPermutation(a: seq<Rgb>, b: seq<Rgb>, ch: Channel)
    requires multiset(a) == multiset(b)
    ensures ChannelSum(a, ch) == ChannelSum(b, ch)
    decreases |a|
  {
    if |a| == 0 {
      assert |multiset(b)| == 0;
    } else {
      var n := |a| - 1;
      assert a[n] in multiset(b);
      var k :| 0 <= k < |b| && b[k] == a[n];
      MultisetRemove(a, n);
      MultisetRemove(b, k);
      assert a[..n] + a[n + 1..] == a[..n];
      ChannelSumPermutation(a[..n], b[..k] + b[k + 1..], ch);
      ChannelSumRemove(b, k, ch);
    }
  }

  /** Permuting the request does not change the combined colour, nor
      therefore the set of names the search may answer. */
  lemma MeanPermutation(a: seq<HexString>, b: seq<HexString>)
    requires |a| > 0
    requires multiset(a) == multiset(b)
    ensures |b| == |a|
    ensures Mean(a) == Mean(b)
  {
    assert |multiset(a)| == |multiset(b)|;
    MapPermutation(a, b, HexToRgb);
    ChannelSumPermutation(Decode(a), Decode(b), Red);
    ChannelSumPermutation(Decode(a), Decode(b), Green);
    ChannelSumPermutation(Decode(a), Decode(b), Blue);
  }
}
