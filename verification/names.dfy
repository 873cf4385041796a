/**
  The fixed palette `colorDict` and the nearest-name search
  `closestColorName` of main.go.

  The search compares Euclidean distances computed with `math.Sqrt` in
  floating point. The squared distances are small exact integers and the
  square root is monotone, so `dist < minDist` on the roots holds exactly
  when it holds on the squares; the model compares integer squared
  distances. Go ranges over a map in an unspecified order, so the order of
  the search is a parameter: any arrangement of the palette entries.
*/
module Names {
  import opened Color

  datatype Entry = Entry(name: string, hex: HexString)

  /** `colorDict`, listed in the order of its literal. */
  const Palette: seq<Entry> := [
    Entry("White", "#FFFFFF"),
    Entry("Black", "#000000"),
    Entry("Red", "#FF0000"),
    Entry("Green", "#00FF00"),
    Entry("Blue", "#0000FF"),
    Entry("Yellow", "#FFFF00")
  ]

  /** The name the search starts from; it is returned only if no entry is
      ever closer than `math.MaxFloat64`. */
  const Unknown: string := "Unknown"

  /** An order in which `range colorDict` may visit the entries: every
      entry exactly once. */
  predicate IsIterationOrder(order: seq<Entry>) {
    multiset(order) == multiset(Palette)
  }

  function SqDist(a: Rgb, b: Rgb): nat {
    (a.r - b.r) * (a.r - b.r) + (a.g - b.g) * (a.g - b.g) + (a.b - b.b) * (a.b - b.b)
  }

  /** The squared distance from `c` to an entry, as decoded by `hexToRGB`. */
  function Dist(c: Rgb, e: Entry): nat {
    SqDist(c, HexToRgb(e.hex))
  }

  /** `Dist` from `c`, as a function of the entry. */
  function DistTo(c: Rgb): Entry -> nat {
    e => Dist(c, e)
  }

  /** Element `best` of `xs` has the least `f`-value among the first `k`
      elements of `xs`. */
  predicate IsLeastIn<T>(f: T -> nat, xs: seq<T>, best: int, k: int)
    requires 0 <= best < |xs| && k <= |xs|
  {
    forall j | 0 <= j < k :: f(xs[best]) <= f(xs[j])
  }

  /** Palette entry `i` is at least as close to `c` as every other entry. */
  predicate IsNearest(c: Rgb, i: int)
    requires 0 <= i < |Palette|
  {
    IsLeastIn(DistTo(c), Palette, i, |Palette|)
  }

  /** `name` belongs to a palette entry nearest to `c`. When several
      entries are equally near, any of their names qualifies. */
  predicate IsClosestName(c: Rgb, name: string) {
    exists i | 0 <= i < |Palette| :: Palette[i].name == name && IsNearest(c, i)
  }

  /** `closestColorName(r, g, b)`, visiting the palette in `order`. The
      result is always the name of a nearest palette entry, whatever the
      order, and never `Unknown`. */
  method ClosestColorName(c: Rgb, order: seq<Entry>) returns (name: string)
    requires IsIterationOrder(order)
    ensures IsClosestName(c, name)
    ensures name != Unknown
  {
    IterationOrderNonEmpty(order);
    name := Unknown;
    var found := false;  // false while minDist is still math.MaxFloat64
    var minDist := 0;
    ghost var best := 0;
    ghost var f := DistTo(c);
    var k := 0;
    while k < |order|
      invariant 0 <= k <= |order|
      invariant found <==> k > 0
      invariant found ==> 0 <= best < k && name == order[best].name && minDist == f(order[best])
      invariant found ==> IsLeastIn(f, order, best, k)
    {
      var dist := Dist(c, order[k]);
      assert dist == f(order[k]);
      if !found || dist < minDist {
        LeastRestart(f, order, best, k, found);
        minDist := dist;
        name := order[k].name;
        best := k;
        found := true;
      } else {
        LeastExtend(f, order, best, k);
      }
      k := k + 1;
    }
    NearestInOrder(c, order, best);
    ClosestNameIsKnown(c, name);
  }

  /** Every name the search can report is a palette name, never `Unknown`. */
  lemma ClosestNameIsKnown(c: Rgb, name: string)
    requires IsClosestName(c, name)
    ensures name != Unknown
  {
    PaletteNamesKnown();
  }

  /** `Unknown` is not the name of any palette entry. */
  lemma PaletteNamesKnown()
    ensures forall k | 0 <= k < |Palette| :: Palette[k].name != Unknown
  {
  }

  lemma LeastExtend<T>(f: T -> nat, xs: seq<T>, best: int, k: int)
    requires 0 <= best < k < |xs|
    requires IsLeastIn(f, xs, best, k) && f(xs[best]) <= f(xs[k])
    ensures IsLeastIn(f, xs, best, k + 1)
  {
  }

  lemma LeastRestart<T>(f: T -> nat, xs: seq<T>, best: int, k: int, found: bool)
    requires 0 <= k < |xs|
    requires found ==> 0 <= best < k && IsLeastIn(f, xs, best, k) && f(xs[k]) < f(xs[best])
    requires !found ==> k == 0
    ensures IsLeastIn(f, xs, k, k + 1)
  {
  }

  lemma IterationOrderNonEmpty(order: seq<Entry>)
    requires IsIterationOrder(order)
    ensures |order| == |Palette|
  {
    assert |multiset(order)| == |multiset(Palette)|;
  }

  /** An entry nearest among those of an iteration order is a nearest
      palette entry, since the order visits exactly the palette's entries. */
  lemma NearestInOrder(c: Rgb, order: seq<Entry>, best: int)
    requires IsIterationOrder(order) && 0 <= best < |order|
    requires IsLeastIn(DistTo(c), order, best, |order|)
    ensures IsClosestName(c, order[best].name)
  {
    var i := LeastTransfer(DistTo(c), order, Palette, best);
  }

  /** Being least does not depend on the order in which the elements are
      listed. */
  lemma LeastTransfer<T>(f: T -> nat, a: seq<T>, b: seq<T>, best: int) returns (i: int)
    requires multiset(a) == multiset(b) && 0 <= best < |a|
    requires IsLeastIn(f, a, best, |a|)
    ensures 0 <= i < |b| && b[i] == a[best] && IsLeastIn(f, b, i, |b|)
  {
    assert a[best] in multiset(b);
    i :| 0 <= i < |b| && b[i] == a[best];
    forall j | 0 <= j < |b| ensures f(b[i]) <= f(b[j]) {
      assert b[j] in multiset(a);
      var m :| 0 <= m < |a| && a[m] == b[j];
    }
  }

  /** The palette colours as `hexToRGB` decodes them: `FF` saturates to 127. */
  const DecodedPalette: seq<Rgb> := [
    Rgb(127, 127, 127),
    Rgb(0, 0, 0),
    Rgb(127, 0, 0),
    Rgb(0, 127, 0),
    Rgb(0, 0, 127),
    Rgb(127, 127, 0)
  ]

  /** A colour made of `FF` and `00` pairs decodes to 127s and 0s. */
  lemma DecodeFF00(s: HexString, ch: Channel)
    requires var p := Pair(s, ch); p[0] == p[1] && (p[0] == 'F' || p[0] == '0')
    ensures Get(HexToRgb(s), ch) == if Pair(s, ch)[0] == 'F' then 127 else 0
  {
    var p := Pair(s, ch);
    assert Strconv.AllHex(p);
    DecodeChannel(s, ch);
    Strconv.HexValuePair(p);
  }

  /** A colour whose pairs are each `FF` or `00`. */
  predicate IsFF00Color(s: HexString) {
    && s[1] == s[2] && s[3] == s[4] && s[5] == s[6]
    && s[1] in "F0" && s[3] in "F0" && s[5] in "F0"
  }

  function FF00Value(c: char): int {
    if c == 'F' then 127 else 0
  }

  lemma DecodeFF00Color(s: HexString)
    requires IsFF00Color(s)
    ensures HexToRgb(s) == Rgb(FF00Value(s[1]), FF00Value(s[3]), FF00Value(s[5]))
  {
    DecodeFF00(s, Red);
    DecodeFF00(s, Green);
    DecodeFF00(s, Blue);
  }

  /** What `hexToRGB` makes of each palette entry. */
  lemma PaletteDecoded(i: nat)
    requires i < |Palette|
    ensures HexToRgb(Palette[i].hex) == DecodedPalette[i]
  {
    if i == 0 { DecodeFF00Color("#FFFFFF"); }
    else if i == 1 { DecodeFF00Color("#000000"); }
    else if i == 2 { DecodeFF00Color("#FF0000"); }
    else if i == 3 { DecodeFF00Color("#00FF00"); }
    else if i == 4 { DecodeFF00Color("#0000FF"); }
    else { DecodeFF00Color("#FFFF00"); }
  }

  lemma SqDistZero(a: Rgb, b: Rgb)
    ensures SqDist(a, b) == 0 <==> a == b
  {
    if a != b {
      var dr, dg, db := a.r - b.r, a.g - b.g, a.b - b.b;
      assert dr != 0 || dg != 0 || db != 0;
      assert dr * dr >= 0 && dg * dg >= 0 && db * db >= 0;
      assert dr * dr > 0 || dg * dg > 0 || db * db > 0;
    }
  }

  /** Distinct palette entries decode to distinct colours. */
  lemma PaletteSelfDist(i: nat, j: nat)
    requires i < |Palette| && j < |Palette|
    ensures Dist(HexToRgb(Palette[i].hex), Palette[j]) == 0 <==> i == j
  {
    PaletteDecoded(i);
    PaletteDecoded(j);
    DistOfDecoded(HexToRgb(Palette[i].hex), Palette[j], DecodedPalette[j]);
    SqDistZero(DecodedPalette[i], DecodedPalette[j]);
    DecodedPaletteDistinct(i, j);
  }

  lemma DistOfDecoded(c: Rgb, e: Entry, d: Rgb)
    requires HexToRgb(e.hex) == d
    ensures Dist(c, e) == SqDist(c, d)
  {
  }

  lemma DecodedPaletteDistinct(i: nat, j: nat)
    requires i < |DecodedPalette| && j < |DecodedPalette|
    ensures DecodedPalette[i] == DecodedPalette[j] <==> i == j
  {
  }

  /** When exactly one element has `f`-value 0, it is the only least one. */
  lemma UniqueZeroLeast<T>(f: T -> nat, xs: seq<T>, i: int, k: int)
    requires 0 <= i < |xs| && 0 <= k < |xs|
    requires forall j | 0 <= j < |xs| :: f(xs[j]) == 0 <==> j == i
    ensures IsLeastIn(f, xs, k, |xs|) <==> k == i
  {
    if IsLeastIn(f, xs, k, |xs|) {
      assert f(xs[k]) <= f(xs[i]);
    }
  }

  /** Queried with the decoded colour of a palette entry, the search can
      only answer that entry's name, in every iteration order: its distance
      is 0 and no other entry decodes to the same colour. */
  lemma ClosestToPaletteColor(i: nat, name: string)
    requires i < |Palette|
    ensures IsClosestName(HexToRgb(Palette[i].hex), name) <==> name == Palette[i].name
  {
    var c := HexToRgb(Palette[i].hex);
    var f := DistTo(c);
    forall j | 0 <= j < |Palette| ensures (f(Palette[j]) == 0 <==> j == i) {
      PaletteSelfDist(i, j);
    }
    if name == Palette[i].name {
      UniqueZeroLeast(f, Palette, i, i);
    }
    if IsClosestName(c, name) {
      var k :| 0 <= k < |Palette| && Palette[k].name == name && IsNearest(c, k);
      UniqueZeroLeast(f, Palette, i, k);
    }
  }
}
