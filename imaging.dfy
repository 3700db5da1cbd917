/**
 * The intensity operations of the image editor in a1/main.py: brightness
 * and contrast, local histogram equalisation, and the radius keys.
 *
 * Images are YCbCr; these operations change only the intensity channel Y,
 * and store it as an 8-bit image does, within [0, 255]. An image
 * is indexed [x, y] with x < width and y < height, as the imaging library's
 * pixel access is. The specification of equalisation works on the
 * intensity plane of an image, a sequence I with I[x][y] the Y value of
 * pixel (x, y).
 */
module Imaging {

  datatype Pixel = Pixel(y: int, cb: int, cr: int)

  // ---------------------------------------------------------------------
  // Brightness and contrast

  /**
   * The new intensity of a pixel: contrast * y + brightness, limited to
   * [0, 255] and stored as an integer.
   */
  function AdjustedIntensity(y: int, brightness: real, contrast: real): (v: int)
    ensures 0 <= v <= 255
    ensures 0.0 <= contrast * (y as real) + brightness <= 255.0 ==> v == (contrast * (y as real) + brightness).Floor
    ensures contrast * (y as real) + brightness >= 255.0 ==> v == 255
    ensures contrast * (y as real) + brightness <= 0.0 ==> v == 0
  {
    var n := contrast * (y as real) + brightness;
    if n > 255.0 then 255 else if n < 0.0 then 0 else n.Floor
  }

  /** With a non-negative contrast, adjustment keeps the order of intensities. */
  lemma AdjustedIntensityMonotone(y: int, y': int, brightness: real, contrast: real)
    requires y <= y' && contrast >= 0.0
    ensures AdjustedIntensity(y, brightness, contrast) <= AdjustedIntensity(y', brightness, contrast)
  {
    assert contrast * (y' as real) - contrast * (y as real) == contrast * ((y' - y) as real);
    assert contrast * ((y' - y) as real) >= 0.0;
  }

  /** The neutral setting, brightness 0 and contrast 1, leaves every 8-bit intensity as it is. */
  lemma AdjustedIntensityNeutral(y: int)
    requires 0 <= y <= 255
    ensures AdjustedIntensity(y, 0.0, 1.0) == y
  {
  }

  /** A pixel with its intensity adjusted and its chroma kept. */
  function Adjusted(p: Pixel, brightness: real, contrast: real): (q: Pixel)
    ensures q.cb == p.cb && q.cr == p.cr && 0 <= q.y <= 255
  {
    p.(y := AdjustedIntensity(p.y, brightness, contrast))
  }

  // ---------------------------------------------------------------------
  // Local histogram equalisation: specification

  function Distance(a: int, b: int): nat {
    if a < b then b - a else a - b
  }

  /**
   * A coordinate limited to [0, n - 1], as the neighbour coordinates are:
   * the coordinate of the image nearest to c.
   */
  function Clamp(c: int, n: int): (r: int)
    requires n > 0
    ensures 0 <= r < n
    ensures 0 <= c < n ==> r == c
    ensures forall z :: 0 <= z < n ==> Distance(r, c) <= Distance(z, c)
  {
    if c < 0 then 0 else if c >= n then n - 1 else c
  }

  /** I is the intensity plane of a w x h image. */
  predicate PlaneShaped(I: seq<seq<int>>, w: nat, h: nat) {
    |I| == w && forall x :: 0 <= x < w ==> |I[x]| == h
  }

  /** Every intensity of the plane is an 8-bit value. */
  predicate PlaneIsBytes(I: seq<seq<int>>) {
    forall x, y :: 0 <= x < |I| && 0 <= y < |I[x]| ==> 0 <= I[x][y] < 256
  }

  /**
   * The samples of neighbour column x + dx of the window of radius r around
   * (x, y), in the order they are visited: yOffset = -r .. r, both
   * coordinates clamped.
   */
  function WindowColumn(I: seq<seq<int>>, w: nat, h: nat, x: int, y: int, r: nat, dx: int): (s: seq<int>)
    requires PlaneShaped(I, w, h) && w > 0 && h > 0
    ensures |s| == 2 * r + 1
  {
    seq(2 * r + 1, k requires 0 <= k < 2 * r + 1 => I[Clamp(x + dx, w)][Clamp(y - r + k, h)])
  }

  /** The samples of the first n neighbour columns, xOffset = -r .. -r + n - 1. */
  function WindowPrefix(I: seq<seq<int>>, w: nat, h: nat, x: int, y: int, r: nat, n: nat): seq<int>
    requires PlaneShaped(I, w, h) && w > 0 && h > 0
  {
    if n == 0 then [] else WindowPrefix(I, w, h, x, y, r, n - 1) + WindowColumn(I, w, h, x, y, r, n as int - 1 - r as int)
  }

  /** All (2r + 1)^2 samples of the window of radius r around (x, y). */
  function Window(I: seq<seq<int>>, w: nat, h: nat, x: int, y: int, r: nat): seq<int>
    requires PlaneShaped(I, w, h) && w > 0 && h > 0
  {
    WindowPrefix(I, w, h, x, y, r, 2 * r + 1)
  }

  /** Number of elements of s that are at most c. */
  function AtMost(s: seq<int>, c: int): (n: nat)
    ensures n <= |s|
  {
    if |s| == 0 then 0 else AtMost(s[..|s| - 1], c) + (if s[|s| - 1] <= c then 1 else 0)
  }

  /**
   * hist is the local histogram of the samples s: it has a count for every
   * intensity 0..255, and that count is how often the intensity occurs in s.
   */
  ghost predicate IsHistogram(hist: map<int, int>, s: seq<int>) {
    && (forall t :: t in hist <==> 0 <= t < 256)
    && (forall t :: 0 <= t < 256 ==> hist[t] == multiset(s)[t])
  }

  /** Sum of the counts of the intensities 0..n-1 that are at most c. */
  function HistSum(hist: map<int, int>, c: int, n: nat): int
    requires forall t :: 0 <= t < n ==> t in hist
  {
    if n == 0 then 0 else HistSum(hist, c, n - 1) + (if n - 1 <= c then hist[n - 1] else 0)
  }

  /**
   * The equalised intensity for a running sum s at radius r, with the
   * integer division of the source: 256 / (2r + 1)^2 is floored before it
   * scales s.
   */
  function Equalized(r: nat, s: int): int {
    (256 / WindowArea(r)) * s - 1
  }

  /** The number of samples in the window of radius r, (2r + 1)^2. */
  function WindowArea(r: nat): (n: nat)
    ensures n >= 2 * r + 1
  {
    SquareAtLeast(2 * r + 1);
    (2 * r + 1) * (2 * r + 1)
  }

  lemma {:induction false} SquareAtLeast(d: nat)
    ensures d * d >= d
  {
    if d > 1 {
      SquareAtLeast(d - 1);
      assert d * d == (d - 1) * (d - 1) + 2 * d - 1;
    }
  }

  /** The equalised intensity of pixel (x, y) of plane I at radius r. */
  function EqualizedAt(I: seq<seq<int>>, w: nat, h: nat, x: int, y: int, r: nat): int
    requires PlaneShaped(I, w, h) && 0 <= x < w && 0 <= y < h
  {
    Equalized(r, AtMost(Window(I, w, h, x, y, r), I[x][y]))
  }

  // ---------------------------------------------------------------------
  // Local histogram equalisation: properties

  lemma {:induction false} WindowPrefixSize(I: seq<seq<int>>, w: nat, h: nat, x: int, y: int, r: nat, n: nat)
    requires PlaneShaped(I, w, h) && w > 0 && h > 0
    ensures |WindowPrefix(I, w, h, x, y, r, n)| == n * (2 * r + 1)
  {
    if n > 0 {
      WindowPrefixSize(I, w, h, x, y, r, n - 1);
      assert (n - 1) * (2 * r + 1) + (2 * r + 1) == n * (2 * r + 1);
    }
  }

  /** The window holds (2r + 1)^2 samples. */
  lemma WindowSize(I: seq<seq<int>>, w: nat, h: nat, x: int, y: int, r: nat)
    requires PlaneShaped(I, w, h) && w > 0 && h > 0
    ensures |Window(I, w, h, x, y, r)| == WindowArea(r)
  {
    WindowPrefixSize(I, w, h, x, y, r, 2 * r + 1);
  }

  /** On an 8-bit plane the counts of the local histogram sum to (2r + 1)^2. */
  lemma HistogramTotal(I: seq<seq<int>>, w: nat, h: nat, x: int, y: int, r: nat, hist: map<int, int>)
    requires PlaneShaped(I, w, h) && w > 0 && h > 0 && PlaneIsBytes(I)
    requires IsHistogram(hist, Window(I, w, h, x, y, r))
    ensures HistSum(hist, 255, 256) == WindowArea(r)
  {
    var s := Window(I, w, h, x, y, r);
    WindowSize(I, w, h, x, y, r);
    WindowIsBytes(I, w, h, x, y, r, 2 * r + 1);
    HistSumCountsAtMost(hist, s, 255);
    AtMostAll(s, 255);
  }

  /** When every element is at most c, all of them are counted. */
  lemma {:induction false} AtMostAll(s: seq<int>, c: int)
    requires forall i :: 0 <= i < |s| ==> s[i] <= c
    ensures AtMost(s, c) == |s|
  {
    if |s| > 0 {
      AtMostAll(s[..|s| - 1], c);
    }
  }

  /** Every sample of the window is an intensity of the plane, so an 8-bit value when the plane is. */
  lemma {:induction false} WindowIsBytes(I: seq<seq<int>>, w: nat, h: nat, x: int, y: int, r: nat, n: nat)
    requires PlaneShaped(I, w, h) && w > 0 && h > 0 && PlaneIsBytes(I)
    ensures forall i :: 0 <= i < |WindowPrefix(I, w, h, x, y, r, n)| ==> 0 <= WindowPrefix(I, w, h, x, y, r, n)[i] < 256
  {
    if n > 0 {
      WindowIsBytes(I, w, h, x, y, r, n - 1);
      var column := WindowColumn(I, w, h, x, y, r, n as int - 1 - r as int);
      forall k | 0 <= k < |column|
        ensures 0 <= column[k] < 256
      {
        var a, b := Clamp(x + n - 1 - r, w), Clamp(y - r + k, h);
        assert column[k] == I[a][b];
      }
    }
  }

  /** The centre pixel is a sample of its own window. */
  lemma {:induction false} CentreInWindow(I: seq<seq<int>>, w: nat, h: nat, x: int, y: int, r: nat, n: nat)
    requires PlaneShaped(I, w, h) && 0 <= x < w && 0 <= y < h
    requires r < n
    ensures I[x][y] in WindowPrefix(I, w, h, x, y, r, n)
  {
    if n == r + 1 {
      var column := WindowColumn(I, w, h, x, y, r, 0);
      assert Clamp(x + 0, w) == x && Clamp(y - r + r, h) == y;
      assert column[r] == I[x][y];
      assert WindowPrefix(I, w, h, x, y, r, n) == WindowPrefix(I, w, h, x, y, r, r) + column;
    } else {
      CentreInWindow(I, w, h, x, y, r, n - 1);
    }
  }

  /** A sequence holding c has at least one element at most c. */
  lemma {:induction false} AtMostPositive(s: seq<int>, c: int)
    requires c in s
    ensures AtMost(s, c) >= 1
  {
    if s[|s| - 1] != c {
      assert c in s[..|s| - 1] by {
        var i :| 0 <= i < |s| && s[i] == c;
        assert s[..|s| - 1][i] == c;
      }
      AtMostPositive(s[..|s| - 1], c);
    }
  }

  /**
   * The running sum of a pixel lies in [1, (2r + 1)^2]: the centre pixel is
   * in its window and its intensity is at most itself.
   */
  lemma RunningSumBounds(I: seq<seq<int>>, w: nat, h: nat, x: int, y: int, r: nat)
    requires PlaneShaped(I, w, h) && 0 <= x < w && 0 <= y < h
    ensures 1 <= AtMost(Window(I, w, h, x, y, r), I[x][y]) <= WindowArea(r)
  {
    CentreInWindow(I, w, h, x, y, r, 2 * r + 1);
    AtMostPositive(Window(I, w, h, x, y, r), I[x][y]);
    WindowSize(I, w, h, x, y, r);
  }

  /** Counting sample k of a column into the histogram of the samples before it. */
  lemma HistogramStep(hist: map<int, int>, done: seq<int>, column: seq<int>, k: nat)
    requires k < |column| && 0 <= column[k] < 256
    requires IsHistogram(hist, done + column[..k])
    ensures IsHistogram(hist[column[k] := hist[column[k]] + 1], done + column[..k + 1])
  {
    assert done + column[..k + 1] == (done + column[..k]) + [column[k]];
    assert multiset(done + column[..k + 1]) == multiset(done + column[..k]) + multiset{column[k]};
  }

  lemma {:induction false} HistSumIncrement(hist: map<int, int>, v: int, c: int, n: nat)
    requires forall t :: 0 <= t < n ==> t in hist
    requires v in hist
    ensures HistSum(hist[v := hist[v] + 1], c, n) == HistSum(hist, c, n) + (if 0 <= v < n && v <= c then 1 else 0)
  {
    if n > 0 {
      HistSumIncrement(hist, v, c, n - 1);
    }
  }

  /**
   * Summing the histogram counts of the intensities up to c counts the
   * samples that are at most c.
   */
  lemma {:induction false} HistSumCountsAtMost(hist: map<int, int>, s: seq<int>, c: int)
    requires forall i :: 0 <= i < |s| ==> 0 <= s[i] < 256
    requires IsHistogram(hist, s)
    ensures HistSum(hist, c, 256) == AtMost(s, c)
  {
    if |s| == 0 {
      HistSumZero(hist, c, 256);
    } else {
      var s', v := s[..|s| - 1], s[|s| - 1];
      assert s == s' + [v];
      assert multiset(s) == multiset(s') + multiset{v};
      var hist' := hist[v := hist[v] - 1];
      HistSumCountsAtMost(hist', s', c);
      HistSumIncrement(hist', v, c, 256);
      assert hist'[v := hist'[v] + 1] == hist;
    }
  }

  lemma {:induction false} HistSumZero(hist: map<int, int>, c: int, n: nat)
    requires forall t :: 0 <= t < n ==> t in hist && hist[t] == 0
    ensures HistSum(hist, c, n) == 0
  {
    if n > 0 {
      HistSumZero(hist, c, n - 1);
    }
  }

  /** A larger running sum never gives a smaller equalised intensity. */
  lemma {:induction false} EqualizedMonotone(r: nat, s: int, s': int)
    requires s <= s'
    ensures Equalized(r, s) <= Equalized(r, s')
    decreases s' - s
  {
    if s < s' {
      EqualizedMonotone(r, s, s' - 1);
      assert Equalized(r, s') == Equalized(r, s' - 1) + 256 / WindowArea(r);
    }
  }

  /**
   * For radius 1 to 7 the scale 256 / (2r + 1)^2 is at least 1, and every
   * running sum in [1, (2r + 1)^2] gives an intensity in [0, 255].
   */
  lemma EqualizedRange(r: nat, s: int)
    requires 1 <= r <= 7 && 1 <= s <= WindowArea(r)
    ensures 0 <= Equalized(r, s) <= 255
  {
    EqualizedEnds(r);
    EqualizedMonotone(r, 1, s);
    EqualizedMonotone(r, s, WindowArea(r));
  }

  /**
   * At radius 1 to 7 the window area is at most 225, so the floored scale
   * is at least 1; a running sum of 1 gives at least 0 and the full window
   * gives at most 255.
   */
  lemma EqualizedEnds(r: nat)
    requires 1 <= r <= 7
    ensures 0 <= Equalized(r, 1) && Equalized(r, WindowArea(r)) <= 255
  {
    var n := WindowArea(r);
    var q := 256 / n;
    assert q * n <= 256;
    assert n <= 225 by {
      var d := 2 * r + 1;
      assert d * d <= 15 * d;
    }
    assert q >= 1;
  }

  /**
   * From radius 8 on, (2r + 1)^2 exceeds 256, the floored scale is 0 and
   * every pixel gets the lookup value -1, which the 8-bit store turns into 0.
   */
  lemma EqualizedLargeRadius(r: nat, s: int)
    requires r >= 8
    ensures Equalized(r, s) == -1
    ensures Clamp(Equalized(r, s), 256) == 0
  {
    WindowAreaLarge(r);
    assert 256 / WindowArea(r) == 0;
  }

  /** From radius 8 on the window holds at least 17^2 = 289 samples. */
  lemma {:induction false} WindowAreaLarge(r: nat)
    requires r >= 8
    ensures WindowArea(r) >= 289
  {
    if r > 8 {
      WindowAreaLarge(r - 1);
      assert WindowArea(r) == WindowArea(r - 1) + 8 * r;
    }
  }

  /**
   * For radius 1 to 7 the equalised intensity of every pixel is already
   * in [0, 255], so storing it into the image keeps it.
   */
  lemma EqualizedStoredExactly(I: seq<seq<int>>, w: nat, h: nat, x: int, y: int, r: nat)
    requires PlaneShaped(I, w, h) && 0 <= x < w && 0 <= y < h
    requires 1 <= r <= 7
    ensures 0 <= EqualizedAt(I, w, h, x, y, r) <= 255
    ensures Clamp(EqualizedAt(I, w, h, x, y, r), 256) == EqualizedAt(I, w, h, x, y, r)
  {
    RunningSumBounds(I, w, h, x, y, r);
    EqualizedRange(r, AtMost(Window(I, w, h, x, y, r), I[x][y]));
  }

  // ---------------------------------------------------------------------
  // The editor state

  /** The intensity plane of an image. */
  ghost function Plane(img: array2<Pixel>): (I: seq<seq<int>>)
    reads img
    ensures PlaneShaped(I, img.Length0, img.Length1)
  {
    seq(img.Length0, x requires 0 <= x < img.Length0 reads img =>
      seq(img.Length1, y requires 0 <= y < img.Length1 reads img => img[x, y].y))
  }

  class Editor {
    /** The image shown and edited. */
    var currentImage: array2<Pixel>
    /** A copy of currentImage taken when a mouse button went down; null when none is held. */
    var tempImage: array2?<Pixel>
    /** Radius of the equalisation window. */
    var localHistoRadius: int

    constructor (img: array2<Pixel>)
      requires PlaneIsBytes(Plane(img))
      ensures Valid()
      ensures currentImage == img && tempImage == null && localHistoRadius == 5
    {
      currentImage := img;
      tempImage := null;
      localHistoRadius := 5;
    }

    /** The radius never drops below 1, and the image holds 8-bit intensities. */
    ghost predicate Valid()
      reads this`localHistoRadius, this`currentImage, currentImage
    {
      localHistoRadius >= 1 && PlaneIsBytes(Plane(currentImage))
    }

    /**
     * Writes into currentImage the pixels of tempImage with their intensity
     * adjusted; Cb and Cr are copied unchanged.
     */
    method ApplyBrightnessAndContrast(brightness: real, contrast: real)
      requires tempImage != null
      requires tempImage.Length0 == currentImage.Length0 && tempImage.Length1 == currentImage.Length1
      modifies currentImage
      ensures forall x, y :: 0 <= x < currentImage.Length0 && 0 <= y < currentImage.Length1 ==>
        currentImage[x, y] == Adjusted(old(tempImage[x, y]), brightness, contrast)
      ensures PlaneIsBytes(Plane(currentImage))
      ensures Valid() <==> localHistoRadius >= 1
    {
      var width, height := currentImage.Length0, currentImage.Length1;
      for x := 0 to width
        invariant forall x', y' :: 0 <= x' < x && 0 <= y' < height ==>
          currentImage[x', y'] == Adjusted(old(tempImage[x', y']), brightness, contrast)
        invariant forall x', y' :: x <= x' < width && 0 <= y' < height ==> tempImage[x', y'] == old(tempImage[x', y'])
      {
        for y := 0 to height
          invariant forall x', y' :: 0 <= x' < x && 0 <= y' < height ==>
            currentImage[x', y'] == Adjusted(old(tempImage[x', y']), brightness, contrast)
          invariant forall y' :: 0 <= y' < y ==>
            currentImage[x, y'] == Adjusted(old(tempImage[x, y']), brightness, contrast)
          invariant forall x', y' :: x <= x' < width && 0 <= y' < height && (x' > x || y' >= y) ==>
            tempImage[x', y'] == old(tempImage[x', y'])
        {
          var pixel := tempImage[x, y];
          var newIntensity := contrast * (pixel.y as real) + brightness;
          var stored: int;
          if newIntensity > 255.0 {
            stored := 255;
          } else if newIntensity < 0.0 {
            stored := 0;
          } else {
            stored := newIntensity.Floor;
          }
          assert pixel.(y := stored) == Adjusted(old(tempImage[x, y]), brightness, contrast);
          currentImage[x, y] := pixel.(y := stored);
        }
      }
    }

    /**
     * The local histogram of pixel (x, y): the count of every intensity
     * among the (2r + 1)^2 window samples, neighbour coordinates clamped
     * into the image.
     */
    method LocalHistogram(x: int, y: int, radius: nat) returns (hist: map<int, int>)
      requires 0 <= x < currentImage.Length0 && 0 <= y < currentImage.Length1
      requires PlaneIsBytes(Plane(currentImage))
      ensures IsHistogram(hist, Window(Plane(currentImage), currentImage.Length0, currentImage.Length1, x, y, radius))
    {
      var width, height := currentImage.Length0, currentImage.Length1;
      ghost var I := Plane(currentImage);
      hist := EmptyHistogram();
      var xOffset := -(radius as int);
      while xOffset < radius + 1
        invariant -(radius as int) <= xOffset <= radius + 1
        invariant IsHistogram(hist, WindowPrefix(I, width, height, x, y, radius, xOffset + radius))
      {
        ghost var done := WindowPrefix(I, width, height, x, y, radius, xOffset + radius);
        hist := AddColumn(x, y, radius, xOffset, hist, I, done);
        assert WindowPrefix(I, width, height, x, y, radius, xOffset + radius + 1) == done + WindowColumn(I, width, height, x, y, radius, xOffset);
        xOffset := xOffset + 1;
      }
      assert xOffset + radius == 2 * radius + 1;
    }

    /** A histogram with a zero count for every intensity 0..255. */
    static method EmptyHistogram() returns (hist: map<int, int>)
      ensures IsHistogram(hist, [])
    {
      hist := map[];
      for intensity := 0 to 256
        invariant forall t :: t in hist <==> 0 <= t < intensity
        invariant forall t :: t in hist ==> hist[t] == 0
      {
        hist := hist[intensity := 0];
      }
    }

    /** Counts the samples of neighbour column x + xOffset into the histogram hist0 of the samples before them. */
    method AddColumn(x: int, y: int, radius: nat, xOffset: int, hist0: map<int, int>, ghost I: seq<seq<int>>, ghost done: seq<int>)
      returns (hist: map<int, int>)
      requires 0 <= x < currentImage.Length0 && 0 <= y < currentImage.Length1
      requires I == Plane(currentImage) && PlaneIsBytes(I)
      requires IsHistogram(hist0, done)
      ensures IsHistogram(hist, done + WindowColumn(I, currentImage.Length0, currentImage.Length1, x, y, radius, xOffset))
    {
      var width, height := currentImage.Length0, currentImage.Length1;
      ghost var column := WindowColumn(I, width, height, x, y, radius, xOffset);
      hist := hist0;
      var yOffset := -(radius as int);
      while yOffset < radius + 1
        invariant -(radius as int) <= yOffset <= radius + 1
        invariant IsHistogram(hist, done + column[..yOffset + radius])
      {
        var xLocal := Clamp(x + xOffset, width);
        var yLocal := Clamp(y + yOffset, height);
        var pixel := currentImage[xLocal, yLocal];
        assert pixel.y == column[yOffset + radius] && 0 <= pixel.y < 256 by {
          assert yLocal == Clamp(y - radius + (yOffset + radius), height);
          assert |I[xLocal]| == height;
          assert pixel.y == I[xLocal][yLocal];
        }
        HistogramStep(hist, done, column, yOffset + radius);
        hist := hist[pixel.y := hist[pixel.y] + 1];
        yOffset := yOffset + 1;
      }
      assert column[..2 * radius + 1] == column;
    }

    /**
     * The running sum of a pixel of intensity c: the histogram counts of
     * the intensities up to c, which is the number of samples at most c.
     */
    method RunningSum(hist: map<int, int>, c: int, ghost samples: seq<int>) returns (runningSum: int)
      requires IsHistogram(hist, samples)
      requires forall i :: 0 <= i < |samples| ==> 0 <= samples[i] < 256
      ensures runningSum == AtMost(samples, c)
    {
      runningSum := 0;
      for intensity := 0 to 256
        invariant runningSum == HistSum(hist, c, intensity)
      {
        if intensity <= c {
          runningSum := runningSum + hist[intensity];
        }
      }
      HistSumCountsAtMost(hist, samples, c);
    }

    /**
     * The first phase of equalisation: the equalised intensity of every
     * pixel, all computed from the image as it is before any is written.
     */
    method ComputeLookup(radius: nat) returns (lookup: map<(int, int), int>)
      requires PlaneIsBytes(Plane(currentImage))
      ensures forall x, y :: 0 <= x < currentImage.Length0 && 0 <= y < currentImage.Length1 ==>
        && (x, y) in lookup
        && lookup[(x, y)] == EqualizedAt(Plane(currentImage), currentImage.Length0, currentImage.Length1, x, y, radius)
    {
      var width, height := currentImage.Length0, currentImage.Length1;
      ghost var I := Plane(currentImage);
      lookup := map[];
      for x := 0 to width
        invariant forall x', y' :: 0 <= x' < x && 0 <= y' < height ==>
          (x', y') in lookup && lookup[(x', y')] == EqualizedAt(I, width, height, x', y', radius)
      {
        for y := 0 to height
          invariant forall x', y' :: 0 <= x' < x && 0 <= y' < height ==>
            (x', y') in lookup && lookup[(x', y')] == EqualizedAt(I, width, height, x', y', radius)
          invariant forall y' :: 0 <= y' < y ==>
            (x, y') in lookup && lookup[(x, y')] == EqualizedAt(I, width, height, x, y', radius)
        {
          var value := EqualizedPixel(x, y, radius);
          lookup := lookup[(x, y) := value];
        }
      }
    }

    /**
     * The equalised intensity of pixel (x, y): its running sum, the number
     * of window samples at most its own intensity, scaled by the floored
     * 256 / (2r + 1)^2, minus one.
     */
    method EqualizedPixel(x: int, y: int, radius: nat) returns (value: int)
      requires 0 <= x < currentImage.Length0 && 0 <= y < currentImage.Length1
      requires PlaneIsBytes(Plane(currentImage))
      ensures value == EqualizedAt(Plane(currentImage), currentImage.Length0, currentImage.Length1, x, y, radius)
    {
      ghost var I := Plane(currentImage);
      var localHistogram := LocalHistogram(x, y, radius);
      var pixel := currentImage[x, y];
      WindowIsBytes(I, currentImage.Length0, currentImage.Length1, x, y, radius, 2 * radius + 1);
      var runningSum := RunningSum(localHistogram, pixel.y, Window(I, currentImage.Length0, currentImage.Length1, x, y, radius));
      value := (256 / ((2 * radius + 1) * (2 * radius + 1))) * runningSum - 1;
    }

    /**
     * The second phase of equalisation: every pixel's intensity is replaced
     * by its lookup value, stored as an 8-bit image stores it (clipped into
     * [0, 255]).
     */
    method WriteLookup(lookup: map<(int, int), int>)
      requires forall x, y :: 0 <= x < currentImage.Length0 && 0 <= y < currentImage.Length1 ==> (x, y) in lookup
      modifies currentImage
      ensures forall x, y :: 0 <= x < currentImage.Length0 && 0 <= y < currentImage.Length1 ==>
        currentImage[x, y] == old(currentImage[x, y]).(y := Clamp(lookup[(x, y)], 256))
      ensures PlaneIsBytes(Plane(currentImage))
    {
      var width, height := currentImage.Length0, currentImage.Length1;
      for x := 0 to width
        invariant forall x', y' :: 0 <= x' < width && 0 <= y' < height ==>
          currentImage[x', y'] == if x' < x then old(currentImage[x', y']).(y := Clamp(lookup[(x', y')], 256)) else old(currentImage[x', y'])
      {
        for y := 0 to height
          invariant forall x', y' :: 0 <= x' < width && 0 <= y' < height ==>
            currentImage[x', y'] ==
              if x' < x || (x' == x && y' < y) then old(currentImage[x', y']).(y := Clamp(lookup[(x', y')], 256)) else old(currentImage[x', y'])
        {
          var pixel := currentImage[x, y];
          currentImage[x, y] := pixel.(y := Clamp(lookup[(x, y)], 256));
        }
      }
    }

    /**
     * Local histogram equalisation: every pixel's intensity becomes the
     * equalised intensity of its window in the image as it was before,
     * clipped into [0, 255] by the store; Cb and Cr stay as they are.
     */
    method PerformHistoEqualization(radius: nat)
      requires PlaneIsBytes(Plane(currentImage))
      modifies currentImage
      ensures forall x, y :: 0 <= x < currentImage.Length0 && 0 <= y < currentImage.Length1 ==>
        currentImage[x, y] ==
          old(currentImage[x, y]).(y := Clamp(EqualizedAt(old(Plane(currentImage)), currentImage.Length0, currentImage.Length1, x, y, radius), 256))
      ensures PlaneIsBytes(Plane(currentImage))
    {
      var lookup := ComputeLookup(radius);
      WriteLookup(lookup);
    }

    /**
     * The keys of the editor that change its state: 'h' equalises with the
     * current radius, '+' and '=' widen the radius by one, '-' and '_'
     * narrow it by one but not below 1. Every other key leaves the state
     * as it is.
     */
    method Keyboard(key: char)
      requires Valid()
      modifies this`localHistoRadius, currentImage
      ensures Valid()
      ensures key in "+=" ==> localHistoRadius == old(localHistoRadius) + 1
      ensures key in "-_" ==> localHistoRadius == if old(localHistoRadius) > 1 then old(localHistoRadius) - 1 else 1
      ensures key !in "+=-_" ==> localHistoRadius == old(localHistoRadius)
      ensures key == 'h' ==> forall x, y :: 0 <= x < currentImage.Length0 && 0 <= y < currentImage.Length1 ==>
        currentImage[x, y] ==
          old(currentImage[x, y]).(y := Clamp(EqualizedAt(old(Plane(currentImage)), currentImage.Length0, currentImage.Length1, x, y, localHistoRadius), 256))
      ensures key != 'h' ==> unchanged(currentImage)
    {
      if key == 'h' {
        PerformHistoEqualization(localHistoRadius);
      } else if key in "+=" {
        localHistoRadius := localHistoRadius + 1;
      } else if key in "-_" {
        localHistoRadius := localHistoRadius - 1;
        if localHistoRadius < 1 {
          localHistoRadius := 1;
        }
      }
    }
  }
}
