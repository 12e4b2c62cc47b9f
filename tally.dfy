/**
 The colour-frequency tally of `main`: every pixel of the decoded image is
 visited row by row (`y` outer, `x` inner), rendered with `pixel_to_hex`, and
 the count stored under that string is created at zero if missing and then
 incremented.
 */
module Tally {
  import opened Hex

  /** The decoded image returned by `to_rgb8`: `height` rows of `width` pixels. */
  datatype RgbImage = RgbImage(width: nat, height: nat, rows: seq<seq<Rgb>>) {

    /** Every row has `width` pixels and there are `height` rows. */
    predicate Valid()
    {
      |rows| == height && forall y :: 0 <= y < |rows| ==> |rows[y]| == width
    }

    /** `get_pixel(x, y)`: column `x` of row `y`. */
    function GetPixel(x: nat, y: nat): Rgb
      requires Valid() && x < width && y < height
    {
      rows[y][x]
    }
  }

  /** The count stored under `k`, with a missing key read as zero. */
  function Lookup(m: map<string, nat>, k: string): nat
  {
    if k in m then m[k] else 0
  }

  /** How many times each string occurs in `s`; absent strings have no key. */
  ghost function Histogram(s: seq<string>): (h: map<string, nat>)
    ensures forall k :: k in h <==> k in s
    ensures forall k :: k in h ==> h[k] > 0
  {
    map k | k in multiset(s) :: multiset(s)[k]
  }

  /** The hex strings of the pixels visited before position (`x`, `y`), in
      visiting order: all of rows `0..y`, then columns `0..x` of row `y`. */
  ghost function Visited(img: RgbImage, y: nat, x: nat): seq<string>
    requires img.Valid()
    requires (y < img.height && x <= img.width) || (y == img.height && x == 0)
    decreases y, x
  {
    if x > 0 then Visited(img, y, x - 1) + [PixelToHex(img.GetPixel(x - 1, y))]
    else if y > 0 then Visited(img, y - 1, img.width)
    else []
  }

  /** The hex strings of all pixels, in visiting order. */
  ghost function Keys(img: RgbImage): seq<string>
    requires img.Valid()
  {
    Visited(img, img.height, 0)
  }

  /** The pixel at (`x`, `y`) lies in the grid and renders as `k`. */
  predicate RendersAt(img: RgbImage, k: string, x: nat, y: nat)
    requires img.Valid()
  {
    y < img.height && x < img.width && PixelToHex(img.GetPixel(x, y)) == k
  }

  /** The grid positions (`x`, `y`) whose pixel renders as `k`. */
  ghost function PositionsOf(img: RgbImage, k: string): set<(nat, nat)>
    requires img.Valid()
  {
    set x: nat, y: nat | y < img.height && x < img.width && RendersAt(img, k, x, y) :: (x, y)
  }

  /** The positions of `PositionsOf` that come before (`x`, `y`) in visiting order. */
  ghost function VisitedPositionsOf(img: RgbImage, k: string, y: nat, x: nat): set<(nat, nat)>
    requires img.Valid()
  {
    set px: nat, py: nat | py < img.height && px < img.width && (py < y || (py == y && px < x))
      && RendersAt(img, k, px, py) :: (px, py)
  }

  /** The sum of all counts of a map. */
  ghost function Total(m: map<string, nat>): nat
    decreases |m|
  {
    if m == map[] then 0
    else
      var k :| k in m;
      assert |m - {k}| < |m| by { assert (m - {k}).Keys == m.Keys - {k}; }
      m[k] + Total(m - {k})
  }

  /** The nested loop of `main`, returning `color_counts`. */
  method CountColors(img: RgbImage) returns (counts: map<string, nat>)
    requires img.Valid()
    ensures counts == Histogram(Keys(img))
    ensures forall k :: Lookup(counts, k) == |PositionsOf(img, k)|
    ensures forall k :: k in counts ==> counts[k] > 0
    ensures forall k :: k in counts <==> exists x: nat, y: nat :: RendersAt(img, k, x, y)
    ensures Total(counts) == img.width * img.height
    ensures counts == map[] <==> img.width == 0 || img.height == 0
  {
    counts := map[];
    assert Histogram([]) == map[];
    var y := 0;
    while y < img.height
      invariant y <= img.height
      invariant counts == Histogram(Visited(img, y, 0))
    {
      counts := CountRow(img, y, counts);
      y := y + 1;
    }
    TallyMeaning(img);
  }

  /** The inner loop of `main` over the pixels of row `y`, left to right. */
  method CountRow(img: RgbImage, y: nat, counts: map<string, nat>) returns (counts': map<string, nat>)
    requires img.Valid() && y < img.height
    requires counts == Histogram(Visited(img, y, 0))
    ensures counts' == Histogram(Visited(img, y, img.width))
  {
    counts' := counts;
    var x := 0;
    while x < img.width
      invariant x <= img.width
      invariant counts' == Histogram(Visited(img, y, x))
    {
      var pixel := img.GetPixel(x, y);
      var hexValue := PixelToHex(pixel);
      counts' := Increment(counts', hexValue, Visited(img, y, x));
      x := x + 1;
    }
  }

  /** `*color_counts.entry(key).or_insert(0) += 1`: when `counts` tallies the
      strings `seen`, the result tallies `seen` followed by `key`. */
  method Increment(counts: map<string, nat>, key: string, ghost seen: seq<string>)
    returns (counts': map<string, nat>)
    requires counts == Histogram(seen)
    ensures counts' == Histogram(seen + [key])
  {
    HistogramSnoc(seen, key);
    var count := Lookup(counts, key);
    counts' := counts[key := count + 1];
  }

  /** What the finished tally means: each key is counted once per grid position
      whose pixel renders as it, only rendered pixels are keys, no count is
      zero, the counts add up to `width * height`, and only an image without
      pixels gives an empty map. */
  lemma TallyMeaning(img: RgbImage)
    requires img.Valid()
    ensures forall k :: Lookup(Histogram(Keys(img)), k) == |PositionsOf(img, k)|
    ensures forall k :: k in Histogram(Keys(img)) ==> Histogram(Keys(img))[k] > 0
    ensures forall k :: k in Histogram(Keys(img)) <==> exists x: nat, y: nat :: RendersAt(img, k, x, y)
    ensures Total(Histogram(Keys(img))) == img.width * img.height
    ensures Histogram(Keys(img)) == map[] <==> img.width == 0 || img.height == 0
  {
    forall k ensures Lookup(Histogram(Keys(img)), k) == |PositionsOf(img, k)| {
      CountsArePositions(img, k);
    }
    forall k ensures k in Histogram(Keys(img)) <==> exists x: nat, y: nat :: RendersAt(img, k, x, y) {
      KeysArePixels(img, k);
    }
    TotalIsPixelCount(img);
    EmptyImage(img);
  }

  /** One more occurrence of `k` is the `or_insert(0)` then `+= 1` update. */
  lemma HistogramSnoc(s: seq<string>, k: string)
    ensures Histogram(s + [k]) == Histogram(s)[k := Lookup(Histogram(s), k) + 1]
  {
    var h, h' := Histogram(s), Histogram(s + [k]);
    assert multiset(s + [k]) == multiset(s) + multiset{k};
    forall j | j in h'
      ensures h'[j] == h[k := Lookup(h, k) + 1][j]
    {
      if j == k {
        assert multiset(s)[k] == Lookup(h, k);
      }
    }
  }

  /** One step along a row: the pixel at (`x - 1`, `y`) joins the visited
      positions exactly when it renders as `k`. */
  lemma VisitedPositionsStepX(img: RgbImage, k: string, y: nat, x: nat)
    requires img.Valid() && y < img.height && 0 < x <= img.width
    ensures var before := VisitedPositionsOf(img, k, y, x - 1);
      && (x - 1, y) !in before
      && VisitedPositionsOf(img, k, y, x) ==
         if RendersAt(img, k, x - 1, y) then before + {(x - 1, y)} else before
  {
  }

  /** Starting a row: everything of the previous row has been visited. */
  lemma VisitedPositionsStepY(img: RgbImage, k: string, y: nat)
    requires img.Valid() && 0 < y <= img.height
    ensures VisitedPositionsOf(img, k, y, 0) == VisitedPositionsOf(img, k, y - 1, img.width)
  {
  }

  /** Visiting the pixel at (`x - 1`, `y`) keeps occurrences and positions of `k` equal. */
  lemma VisitedCountsStepX(img: RgbImage, k: string, y: nat, x: nat)
    requires img.Valid() && y < img.height && 0 < x <= img.width
    requires multiset(Visited(img, y, x - 1))[k] == |VisitedPositionsOf(img, k, y, x - 1)|
    ensures multiset(Visited(img, y, x))[k] == |VisitedPositionsOf(img, k, y, x)|
  {
    var hex := PixelToHex(img.GetPixel(x - 1, y));
    assert multiset(Visited(img, y, x)) == multiset(Visited(img, y, x - 1)) + multiset{hex};
    VisitedPositionsStepX(img, k, y, x);
  }

  /** The visited prefix holds `k` once per visited position whose pixel renders as `k`. */
  lemma {:induction false} VisitedCounts(img: RgbImage, k: string, y: nat, x: nat)
    requires img.Valid()
    requires (y < img.height && x <= img.width) || (y == img.height && x == 0)
    ensures multiset(Visited(img, y, x))[k] == |VisitedPositionsOf(img, k, y, x)|
    decreases y, x
  {
    if x > 0 {
      VisitedCounts(img, k, y, x - 1);
      VisitedCountsStepX(img, k, y, x);
    } else if y > 0 {
      assert Visited(img, y, x) == Visited(img, y - 1, img.width);
      VisitedCounts(img, k, y - 1, img.width);
      VisitedPositionsStepY(img, k, y);
    } else {
      assert Visited(img, y, x) == [];
      assert VisitedPositionsOf(img, k, y, x) == {};
    }
  }

  /** Every count is the number of grid positions whose pixel renders as its key. */
  lemma CountsArePositions(img: RgbImage, k: string)
    requires img.Valid()
    ensures Lookup(Histogram(Keys(img)), k) == |PositionsOf(img, k)|
  {
    VisitedCounts(img, k, img.height, 0);
    assert VisitedPositionsOf(img, k, img.height, 0) == PositionsOf(img, k);
  }

  /** A key is stored exactly when some pixel of the image renders as it. */
  lemma KeysArePixels(img: RgbImage, k: string)
    requires img.Valid()
    ensures k in Histogram(Keys(img)) <==> exists x: nat, y: nat :: RendersAt(img, k, x, y)
  {
    CountsArePositions(img, k);
    PositionsOfNonEmpty(img, k);
  }

  /** A key has some position exactly when some grid pixel renders as it. */
  lemma PositionsOfNonEmpty(img: RgbImage, k: string)
    requires img.Valid()
    ensures |PositionsOf(img, k)| > 0 <==> exists x: nat, y: nat :: RendersAt(img, k, x, y)
  {
    var ps := PositionsOf(img, k);
    if |ps| > 0 {
      var p :| p in ps;
      assert RendersAt(img, k, p.0, p.1);
    }
    if exists x: nat, y: nat :: RendersAt(img, k, x, y) {
      var x: nat, y: nat :| RendersAt(img, k, x, y);
      assert (x, y) in ps;
    }
  }

  /** The visiting order reaches (`x`, `y`) after `y * width + x` pixels. */
  lemma {:induction false} VisitedLength(img: RgbImage, y: nat, x: nat)
    requires img.Valid()
    requires (y < img.height && x <= img.width) || (y == img.height && x == 0)
    ensures |Visited(img, y, x)| == y * img.width + x
    decreases y, x
  {
    if x > 0 {
      assert |Visited(img, y, x)| == |Visited(img, y, x - 1)| + 1;
      VisitedLength(img, y, x - 1);
    } else if y > 0 {
      assert Visited(img, y, x) == Visited(img, y - 1, img.width);
      VisitedLength(img, y - 1, img.width);
      MulStep(y - 1, img.width);
    } else {
      assert Visited(img, y, x) == [];
    }
  }

  /** Arithmetic step for `VisitedLength`: one more row of `b` pixels. */
  lemma MulStep(a: nat, b: nat)
    ensures (a + 1) * b == a * b + b
  {
  }

  /** The map comes out empty exactly when the image has no pixels. */
  lemma EmptyImage(img: RgbImage)
    requires img.Valid()
    ensures Histogram(Keys(img)) == map[] <==> img.width == 0 || img.height == 0
  {
    VisitedLength(img, img.height, 0);
    var keys := Keys(img);
    if img.width != 0 && img.height != 0 {
      assert keys[0] in Histogram(keys);
    } else {
      assert keys == [];
    }
  }

  /** The sum of counts splits off any one key, whichever key `Total` picked. */
  lemma {:induction false} TotalRemove(m: map<string, nat>, k: string)
    requires k in m
    ensures Total(m) == m[k] + Total(m - {k})
    decreases |m|
  {
    var j :| j in m && Total(m) == m[j] + Total(m - {j});
    if j != k {
      assert (m - {j}).Keys == m.Keys - {j};
      assert (m - {k}).Keys == m.Keys - {k};
      TotalRemove(m - {j}, k);
      TotalRemove(m - {k}, j);
      assert m - {j} - {k} == m - {k} - {j};
    }
  }

  /** The `or_insert(0)` then `+= 1` update adds one to the sum of counts. */
  lemma TotalIncrement(m: map<string, nat>, k: string)
    ensures Total(m[k := Lookup(m, k) + 1]) == Total(m) + 1
  {
    var m' := m[k := Lookup(m, k) + 1];
    TotalRemove(m', k);
    if k in m {
      TotalRemove(m, k);
      assert m' - {k} == m - {k};
    } else {
      assert m' - {k} == m;
    }
  }

  /** The counts of a histogram add up to the number of strings tallied. */
  lemma {:induction false} TotalHistogram(s: seq<string>)
    ensures Total(Histogram(s)) == |s|
  {
    if s == [] {
      assert Histogram(s) == map[];
    } else {
      var init, last := s[..|s| - 1], s[|s| - 1];
      assert s == init + [last];
      TotalHistogram(init);
      HistogramSnoc(init, last);
      TotalIncrement(Histogram(init), last);
    }
  }

  /** The counts add up to `width * height`: every pixel is counted once. */
  lemma TotalIsPixelCount(img: RgbImage)
    requires img.Valid()
    ensures Total(Histogram(Keys(img))) == img.width * img.height
  {
    VisitedLength(img, img.height, 0);
    TotalHistogram(Keys(img));
  }

  /** The key sequence of a 2 x 2 image with top row `a`, `b` and bottom row
      `c`, `d`: top row first, each row left to right. */
  lemma KeysOfTwoByTwo(a: Rgb, b: Rgb, c: Rgb, d: Rgb)
    ensures var img := RgbImage(2, 2, [[a, b], [c, d]]);
      img.Valid() && Keys(img) == [PixelToHex(a), PixelToHex(b), PixelToHex(c), PixelToHex(d)]
  {
    var img := RgbImage(2, 2, [[a, b], [c, d]]);
    assert Visited(img, 0, 2) == [PixelToHex(a), PixelToHex(b)];
    assert Visited(img, 1, 2) == [PixelToHex(a), PixelToHex(b), PixelToHex(c), PixelToHex(d)];
  }

  /** Two occurrences each of two different strings. */
  lemma HistogramOfTwoPairs(t: string, b: string)
    requires t != b
    ensures Histogram([t, t, b, b]) == map[t := 2, b := 2]
  {
    var s := [t, t, b, b];
    assert multiset(s) == multiset{t, t, b, b};
    var h := Histogram(s);
    assert h.Keys == {t, b};
    assert h[t] == 2 && h[b] == 2;
  }

  /** A 2 x 2 image of two black and two white pixels tallies two of each. */
  lemma TwoByTwoExample()
    ensures var img := RgbImage(2, 2, [[Rgb(0, 0, 0), Rgb(0, 0, 0)], [Rgb(255, 255, 255), Rgb(255, 255, 255)]]);
      img.Valid() && Histogram(Keys(img)) == map["#000000" := 2, "#FFFFFF" := 2]
  {
    var black, white := Rgb(0, 0, 0), Rgb(255, 255, 255);
    assert PixelToHex(black) == "#000000";
    assert PixelToHex(white) == "#FFFFFF";
    KeysOfTwoByTwo(black, black, white, white);
    HistogramOfTwoPairs("#000000", "#FFFFFF");
  }
}
