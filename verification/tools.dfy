/** The grey-level filters of the tools module: adaptive thresholding over an
    integral image, adaptive thresholding over a fixed window, and the
    diagonal Sobel edge filter. */
module Tools {
  import opened Images
  import opened Results
  import HighPassFilters

  // ---------------------------------------------------------------------------
  // Rectangle sums
  // ---------------------------------------------------------------------------

  /** The sum of `row[c]` for `x0 <= c < x1`. */
  function RowSum(row: seq<int>, x0: int, x1: int): int
    requires 0 <= x0 <= x1 <= |row|
    decreases x1 - x0
  {
    if x1 == x0 then 0 else RowSum(row, x0, x1 - 1) + row[x1 - 1]
  }

  /** The sum of `g[r][c]` for `y0 <= r < y1` and `x0 <= c < x1`. */
  function RectSum(g: Grid, y0: int, y1: int, x0: int, x1: int): int
    requires IsRect(g) && 0 <= y0 <= y1 <= Height(g) && 0 <= x0 <= x1 <= Width(g)
    decreases y1 - y0
  {
    if y1 == y0 then 0 else RectSum(g, y0, y1 - 1, x0, x1) + RowSum(g[y1 - 1], x0, x1)
  }

  lemma {:induction false} RowSplit(row: seq<int>, a: int, b: int, c: int)
    requires 0 <= a <= b <= c <= |row|
    ensures RowSum(row, a, c) == RowSum(row, a, b) + RowSum(row, b, c)
    decreases c
  {
    if c > b {
      RowSplit(row, a, b, c - 1);
    }
  }

  lemma {:induction false} RectSplitRows(g: Grid, a: int, b: int, c: int, x0: int, x1: int)
    requires IsRect(g) && 0 <= a <= b <= c <= Height(g) && 0 <= x0 <= x1 <= Width(g)
    ensures RectSum(g, a, c, x0, x1) == RectSum(g, a, b, x0, x1) + RectSum(g, b, c, x0, x1)
    decreases c
  {
    if c > b {
      RectSplitRows(g, a, b, c - 1, x0, x1);
    }
  }

  lemma {:induction false} RectSplitColumns(g: Grid, y0: int, y1: int, a: int, b: int, c: int)
    requires IsRect(g) && 0 <= y0 <= y1 <= Height(g) && 0 <= a <= b <= c <= Width(g)
    ensures RectSum(g, y0, y1, a, c) == RectSum(g, y0, y1, a, b) + RectSum(g, y0, y1, b, c)
    decreases y1
  {
    if y1 > y0 {
      RectSplitColumns(g, y0, y1 - 1, a, b, c);
      RowSplit(g[y1 - 1], a, b, c);
    }
  }

  lemma {:induction false} NoColumns(g: Grid, y0: int, y1: int, x: int)
    requires IsRect(g) && 0 <= y0 <= y1 <= Height(g) && 0 <= x <= Width(g)
    ensures RectSum(g, y0, y1, x, x) == 0
    decreases y1
  {
    if y1 > y0 {
      NoColumns(g, y0, y1 - 1, x);
    }
  }

  // ---------------------------------------------------------------------------
  // The integral image
  // ---------------------------------------------------------------------------

  /** Entry (y, x) of the integral image is the sum of the pixels in rows
      0..y and columns 0..x. */
  function Integral(g: Grid): (s: Grid)
    requires IsRect(g)
    ensures HasShape(s, Width(g), Height(g))
  {
    seq(Height(g), y requires 0 <= y < Height(g) =>
      seq(Width(g), x requires 0 <= x < Width(g) => RectSum(g, 0, y + 1, 0, x + 1)))
  }

  /** The recurrence the program fills the integral image with. */
  lemma IntegralStep(g: Grid, y: int, x: int)
    requires IsRect(g) && 0 <= y < Height(g) && 0 <= x < Width(g)
    ensures RectSum(g, 0, y + 1, 0, x + 1)
         == g[y][x]
          + (if x > 0 then RectSum(g, 0, y + 1, 0, x) else 0)
          + (if y > 0 then RectSum(g, 0, y, 0, x + 1) else 0)
          - (if x > 0 && y > 0 then RectSum(g, 0, y, 0, x) else 0)
  {
    assert RectSum(g, 0, y + 1, 0, x + 1) == RectSum(g, 0, y, 0, x + 1) + RowSum(g[y], 0, x + 1);
    if x > 0 {
      assert RectSum(g, 0, y + 1, 0, x) == RectSum(g, 0, y, 0, x) + RowSum(g[y], 0, x);
    }
  }

  /** The first double loop of AdaptiveThresholding: each entry is the pixel
      plus the entries to its left and above, minus the one diagonally above. */
  method IntegralImage(g: Grid) returns (integral: Grid)
    requires IsRect(g)
    ensures HasShape(integral, Width(g), Height(g))
    ensures forall y, x :: 0 <= y < Height(g) && 0 <= x < Width(g) ==>
      integral[y][x] == RectSum(g, 0, y + 1, 0, x + 1)
  {
    integral := [];
    var y := 0;
    while y < Height(g)
      invariant 0 <= y <= Height(g) && HasShape(integral, Width(g), y)
      invariant forall r, c :: 0 <= r < y && 0 <= c < Width(g) ==> integral[r][c] == RectSum(g, 0, r + 1, 0, c + 1)
    {
      var row: seq<int> := [];
      var x := 0;
      while x < Width(g)
        invariant 0 <= x <= Width(g) && |row| == x
        invariant forall c :: 0 <= c < x ==> row[c] == RectSum(g, 0, y + 1, 0, c + 1)
      {
        var sum := g[y][x];
        if x > 0 {
          sum := sum + row[x - 1];
        }
        if y > 0 {
          sum := sum + integral[y - 1][x];
        }
        if x > 0 && y > 0 {
          sum := sum - integral[y - 1][x - 1];
        }
        IntegralStep(g, y, x);
        row := row + [sum];
        x := x + 1;
      }
      integral := integral + [row];
      y := y + 1;
    }
  }

  // ---------------------------------------------------------------------------
  // AdaptiveThresholding
  // ---------------------------------------------------------------------------

  /** The clamped window `[Max(0, c - dim / 2), Min(n - 1, c + dim / 2)]` along one axis. */
  function WindowLow(c: int, dim: int): int {
    Max(0, c - Half(dim))
  }

  function WindowHigh(c: int, dim: int, n: int): int {
    Min(n - 1, c + Half(dim))
  }

  /** The window lies in the image and holds the pixel exactly when
      `dim / 2` is not negative. */
  lemma WindowClamped(c: int, dim: int, n: int)
    requires 0 <= c < n
    ensures (0 <= WindowLow(c, dim) <= c <= WindowHigh(c, dim, n) <= n - 1) <==> Half(dim) >= 0
    ensures Half(dim) < 0 ==> WindowHigh(c, dim, n) < c < WindowLow(c, dim)
  {
  }

  /** `integral[y1, x1] - integral[y0, x1] - integral[y1, x0] + integral[y0, x0]`,
      as the program computes the window sum. */
  function WindowSumAsWritten(integral: Grid, y0: int, y1: int, x0: int, x1: int): int
    requires HasShape(integral, Width(integral), Height(integral))
    requires 0 <= y0 <= y1 < Height(integral) && 0 <= x0 <= x1 < Width(integral)
  {
    integral[y1][x1] - integral[y0][x1] - integral[y1][x0] + integral[y0][x0]
  }

  /** The inclusion-exclusion that takes in row `y0` and column `x0` too. */
  function WindowSumCorrected(integral: Grid, y0: int, y1: int, x0: int, x1: int): int
    requires HasShape(integral, Width(integral), Height(integral))
    requires 0 <= y0 <= y1 < Height(integral) && 0 <= x0 <= x1 < Width(integral)
  {
    integral[y1][x1]
      - (if y0 > 0 then integral[y0 - 1][x1] else 0)
      - (if x0 > 0 then integral[y1][x0 - 1] else 0)
      + (if y0 > 0 && x0 > 0 then integral[y0 - 1][x0 - 1] else 0)
  }

  /** The window sum as written leaves out the window's first row and first column. */
  lemma WindowSumSkipsFirstRowAndColumn(g: Grid, y0: int, y1: int, x0: int, x1: int)
    requires IsRect(g) && 0 <= y0 <= y1 < Height(g) && 0 <= x0 <= x1 < Width(g)
    ensures WindowSumAsWritten(Integral(g), y0, y1, x0, x1) == RectSum(g, y0 + 1, y1 + 1, x0 + 1, x1 + 1)
  {
    RectSplitRows(g, 0, y0 + 1, y1 + 1, 0, x1 + 1);
    RectSplitRows(g, 0, y0 + 1, y1 + 1, 0, x0 + 1);
    RectSplitColumns(g, y0 + 1, y1 + 1, 0, x0 + 1, x1 + 1);
  }

  /** The corrected window sum is the sum over the whole window. */
  lemma WindowSumCorrectedIsWholeWindow(g: Grid, y0: int, y1: int, x0: int, x1: int)
    requires IsRect(g) && 0 <= y0 <= y1 < Height(g) && 0 <= x0 <= x1 < Width(g)
    ensures WindowSumCorrected(Integral(g), y0, y1, x0, x1) == RectSum(g, y0, y1 + 1, x0, x1 + 1)
  {
    RectSplitRows(g, 0, y0, y1 + 1, 0, x1 + 1);
    RectSplitRows(g, 0, y0, y1 + 1, 0, x0);
    RectSplitColumns(g, y0, y1 + 1, 0, x0, x1 + 1);
    if x0 == 0 {
      NoColumns(g, y0, y1 + 1, 0);
    }
  }

  /** `(byte)(0.85 * sum / count)`, the threshold of a window from its pixel sum
      and pixel count; the double arithmetic is not modelled. */
  type WindowThreshold = (int, int) -> int

  /** The real-arithmetic reading of that threshold, `floor(0.85 * sum / count)`. */
  function ScaledMean(sum: int, count: int): int {
    if count <= 0 || sum < 0 then 0 else (17 * sum) / (20 * count)
  }

  /** The pixel count of the window, the divisor of the mean. */
  function WindowCount(y: int, x: int, dim: int, h: int, w: int): int {
    (WindowHigh(x, dim, w) - WindowLow(x, dim) + 1) * (WindowHigh(y, dim, h) - WindowLow(y, dim) + 1)
  }

  /** The sum of the window the program means to average: the whole window
      when `corrected`, the window without its first row and column otherwise. */
  function WindowPixels(g: Grid, y: int, x: int, dim: int, corrected: bool): int
    requires IsRect(g) && 0 <= y < Height(g) && 0 <= x < Width(g) && Half(dim) >= 0
  {
    var y0, y1 := WindowLow(y, dim), WindowHigh(y, dim, Height(g));
    var x0, x1 := WindowLow(x, dim), WindowHigh(x, dim, Width(g));
    if corrected then RectSum(g, y0, y1 + 1, x0, x1 + 1) else RectSum(g, y0 + 1, y1 + 1, x0 + 1, x1 + 1)
  }

  /** One output pixel: 255 when the pixel exceeds its window threshold. */
  function AdaptivePixel(g: Grid, integral: Grid, y: int, x: int, dim: int, threshold: WindowThreshold, corrected: bool): (v: int)
    requires IsRect(g) && integral == Integral(g) && 0 <= y < Height(g) && 0 <= x < Width(g) && Half(dim) >= 0
    ensures v == 0 || v == 255
    ensures v == 255 <==> g[y][x] > threshold(WindowPixels(g, y, x, dim, corrected), WindowCount(y, x, dim, Height(g), Width(g)))
  {
    var y0, y1 := WindowLow(y, dim), WindowHigh(y, dim, Height(g));
    var x0, x1 := WindowLow(x, dim), WindowHigh(x, dim, Width(g));
    var sum := if corrected then WindowSumCorrected(integral, y0, y1, x0, x1) else WindowSumAsWritten(integral, y0, y1, x0, x1);
    WindowSumSkipsFirstRowAndColumn(g, y0, y1, x0, x1);
    WindowSumCorrectedIsWholeWindow(g, y0, y1, x0, x1);
    if g[y][x] > threshold(sum, WindowCount(y, x, dim, Height(g), Width(g))) then 255 else 0
  }

  function Thresholded(g: Grid, dim: int, threshold: WindowThreshold, corrected: bool): (r: Result<Grid>)
    requires IsRect(g)
    ensures r.Err? <==> Half(dim) < 0 && Height(g) > 0 && Width(g) > 0
    ensures r.Err? ==> r.error == IndexOutOfRange
    ensures r.Ok? ==> HasShape(r.value, Width(g), Height(g)) && IsBinary(r.value)
    ensures r.Ok? ==> forall y, x :: 0 <= y < Height(g) && 0 <= x < Width(g) ==>
      (r.value[y][x] == 255 <==> g[y][x] > threshold(WindowPixels(g, y, x, dim, corrected), WindowCount(y, x, dim, Height(g), Width(g))))
  {
    if Half(dim) < 0 && Height(g) > 0 && Width(g) > 0 then Err(IndexOutOfRange)
    else
      var integral := Integral(g);
      Ok(seq(Height(g), y requires 0 <= y < Height(g) =>
        seq(Width(g), x requires 0 <= x < Width(g) => AdaptivePixel(g, integral, y, x, dim, threshold, corrected))))
  }

  /** AdaptiveThresholding as written. A negative `dim / 2` makes the very first
      window read the integral image out of bounds. Otherwise each pixel is 255
      exactly when it exceeds the threshold of its window, whose sum covers rows
      `y0 + 1 .. y1` and columns `x0 + 1 .. x1` only. */
  function AdaptiveThresholding(g: Grid, dim: int, threshold: WindowThreshold): (r: Result<Grid>)
    requires IsRect(g)
    ensures r.Err? <==> Half(dim) < 0 && Height(g) > 0 && Width(g) > 0
    ensures r.Err? ==> r.error == IndexOutOfRange
    ensures r.Ok? ==> HasShape(r.value, Width(g), Height(g)) && IsBinary(r.value)
    ensures r.Ok? ==> forall y, x :: 0 <= y < Height(g) && 0 <= x < Width(g) ==>
      (r.value[y][x] == 255 <==> g[y][x] > threshold(
        RectSum(g, WindowLow(y, dim) + 1, WindowHigh(y, dim, Height(g)) + 1, WindowLow(x, dim) + 1, WindowHigh(x, dim, Width(g)) + 1),
        WindowCount(y, x, dim, Height(g), Width(g))))
  {
    Thresholded(g, dim, threshold, false)
  }

  /** The same filter with the whole window summed. */
  function AdaptiveThresholdingCorrected(g: Grid, dim: int, threshold: WindowThreshold): (r: Result<Grid>)
    requires IsRect(g)
    ensures r.Err? <==> Half(dim) < 0 && Height(g) > 0 && Width(g) > 0
    ensures r.Err? ==> r.error == IndexOutOfRange
    ensures r.Ok? ==> HasShape(r.value, Width(g), Height(g)) && IsBinary(r.value)
    ensures r.Ok? ==> forall y, x :: 0 <= y < Height(g) && 0 <= x < Width(g) ==>
      (r.value[y][x] == 255 <==> g[y][x] > threshold(
        RectSum(g, WindowLow(y, dim), WindowHigh(y, dim, Height(g)) + 1, WindowLow(x, dim), WindowHigh(x, dim, Width(g)) + 1),
        WindowCount(y, x, dim, Height(g), Width(g))))
  {
    Thresholded(g, dim, threshold, true)
  }

  /** The centre pixel of a 3-by-3 image with a bright first row and column:
      as written its window sum leaves the bright pixels out, so with the
      real-arithmetic threshold the pixel is an edge; over the whole window it
      is not. */
  const BrightCorner: Grid := [[255, 255, 255], [255, 100, 100], [255, 100, 100]]

  lemma BrightCornerAsWritten()
    ensures IsRect(BrightCorner)
    ensures WindowSumAsWritten(Integral(BrightCorner), 0, 2, 0, 2) == 400
    ensures RectSum(BrightCorner, 0, 3, 0, 3) == 1675
    ensures AdaptiveThresholding(BrightCorner, 3, ScaledMean).Ok?
    ensures AdaptiveThresholding(BrightCorner, 3, ScaledMean).value[1][1] == 255
  {
    var g := BrightCorner;
    assert RectSum(g, 1, 3, 1, 3) == 400 by {
      assert RowSum(g[1], 1, 3) == 200;
      assert RowSum(g[2], 1, 3) == 200;
    }
    WindowSumSkipsFirstRowAndColumn(g, 0, 2, 0, 2);
    assert RectSum(g, 0, 3, 0, 3) == 1675 by {
      assert RowSum(g[0], 0, 3) == 765;
      assert RowSum(g[1], 0, 3) == 455;
      assert RowSum(g[2], 0, 3) == 455;
    }
    assert WindowCount(1, 1, 3, 3, 3) == 9;
    assert ScaledMean(400, 9) == 37;
  }

  lemma BrightCornerCorrected()
    ensures IsRect(BrightCorner)
    ensures WindowSumCorrected(Integral(BrightCorner), 0, 2, 0, 2) == RectSum(BrightCorner, 0, 3, 0, 3) == 1675
    ensures AdaptiveThresholdingCorrected(BrightCorner, 3, ScaledMean).Ok?
    ensures AdaptiveThresholdingCorrected(BrightCorner, 3, ScaledMean).value[1][1] == 0
  {
    var g := BrightCorner;
    assert RectSum(g, 0, 3, 0, 3) == 1675 by {
      assert RowSum(g[0], 0, 3) == 765;
      assert RowSum(g[1], 0, 3) == 455;
      assert RowSum(g[2], 0, 3) == 455;
    }
    WindowSumCorrectedIsWholeWindow(g, 0, 2, 0, 2);
    assert WindowCount(1, 1, 3, 3, 3) == 9;
    assert ScaledMean(1675, 9) == 158;
  }

  // ---------------------------------------------------------------------------
  // ApplyCustomAdaptiveThreshold
  // ---------------------------------------------------------------------------

  /** `sum / (windowSize * windowSize)`, the mean the program compares against
      before subtracting C; the double division (infinite or not a number for
      a zero window size) is not modelled. */
  type WindowMean = (int, int) -> real

  /** The pixel is at least `border` away from every edge. */
  predicate Inside(y: int, x: int, border: int, h: int, w: int) {
    border <= y < h - border && border <= x < w - border
  }

  /** The two inner loops: the sum over rows `y - border .. y + border` and
      columns `x - border .. x + border`, row by row. */
  method WindowTotal(g: Grid, y: int, x: int, border: int) returns (sum: int)
    requires IsRect(g) && border >= 0 && Inside(y, x, border, Height(g), Width(g))
    ensures sum == RectSum(g, y - border, y + border + 1, x - border, x + border + 1)
  {
    sum := 0;
    var dy := -border;
    while dy <= border
      invariant -border <= dy <= border + 1
      invariant sum == RectSum(g, y - border, y + dy, x - border, x + border + 1)
    {
      var dx := -border;
      ghost var before := sum;
      while dx <= border
        invariant -border <= dx <= border + 1
        invariant sum == before + RowSum(g[y + dy], x - border, x + dx)
      {
        sum := sum + g[y + dy][x + dx];
        dx := dx + 1;
      }
      dy := dy + 1;
    }
  }

  function CustomPixel(g: Grid, y: int, x: int, windowSize: int, c: real, mean: WindowMean): (v: int)
    requires IsRect(g) && 0 <= y < Height(g) && 0 <= x < Width(g) && Half(windowSize) >= 0
    ensures v == 0 || v == 255
    ensures !Inside(y, x, Half(windowSize), Height(g), Width(g)) ==> v == 0
    ensures Inside(y, x, Half(windowSize), Height(g), Width(g)) ==> var b := Half(windowSize);
      (v == 255 <==> g[y][x] as real > mean(RectSum(g, y - b, y + b + 1, x - b, x + b + 1), windowSize) - c)
  {
    var b := Half(windowSize);
    if Inside(y, x, b, Height(g), Width(g)) && g[y][x] as real > mean(RectSum(g, y - b, y + b + 1, x - b, x + b + 1), windowSize) - c
    then 255 else 0
  }

  /** ApplyCustomAdaptiveThreshold. A negative `windowSize / 2` starts the loops
      at a negative row, which is out of bounds. Otherwise pixels within
      `windowSize / 2` of an edge stay 0, and an inner pixel is 255 exactly
      when it exceeds the mean of its window minus C. */
  function ApplyCustomAdaptiveThreshold(g: Grid, windowSize: int, c: real, mean: WindowMean): (r: Result<Grid>)
    requires IsRect(g)
    ensures r.Err? <==> Half(windowSize) < 0
    ensures r.Err? ==> r.error == IndexOutOfRange
    ensures r.Ok? ==> HasShape(r.value, Width(g), Height(g)) && IsBinary(r.value)
    ensures r.Ok? ==> forall y, x :: 0 <= y < Height(g) && 0 <= x < Width(g) && !Inside(y, x, Half(windowSize), Height(g), Width(g)) ==>
      r.value[y][x] == 0
    ensures r.Ok? ==> forall y, x :: 0 <= y < Height(g) && 0 <= x < Width(g) && Inside(y, x, Half(windowSize), Height(g), Width(g)) ==>
      var b := Half(windowSize);
      (r.value[y][x] == 255 <==> g[y][x] as real > mean(RectSum(g, y - b, y + b + 1, x - b, x + b + 1), windowSize) - c)
  {
    if Half(windowSize) < 0 then Err(IndexOutOfRange)
    else
      Ok(seq(Height(g), y requires 0 <= y < Height(g) =>
        seq(Width(g), x requires 0 <= x < Width(g) => CustomPixel(g, y, x, windowSize, c, mean))))
  }

  /** With a window of one pixel the window sum is the pixel itself. */
  lemma WindowOfOne(g: Grid, c: real, mean: WindowMean)
    requires IsRect(g)
    ensures var r := ApplyCustomAdaptiveThreshold(g, 1, c, mean);
      r.Ok? && forall y, x :: 0 <= y < Height(g) && 0 <= x < Width(g) ==>
        (r.value[y][x] == 255 <==> g[y][x] as real > mean(g[y][x], 1) - c)
  {
    var r := ApplyCustomAdaptiveThreshold(g, 1, c, mean);
    var b := Half(1);
    assert b == 0 && r.Ok?;
    forall y, x | 0 <= y < Height(g) && 0 <= x < Width(g)
      ensures r.value[y][x] == 255 <==> g[y][x] as real > mean(g[y][x], 1) - c
    {
      assert Inside(y, x, b, Height(g), Width(g));
      assert r.value[y][x] == 255 <==> g[y][x] as real > mean(RectSum(g, y - b, y + b + 1, x - b, x + b + 1), 1) - c;
      assert RectSum(g, y - b, y + b + 1, x - b, x + b + 1) == RectSum(g, y, y, x, x + 1) + RowSum(g[y], x, x + 1) == g[y][x];
    }
  }

  // ---------------------------------------------------------------------------
  // Sobel
  // ---------------------------------------------------------------------------

  /** The horizontal Sobel sum at an inner pixel, as the program spells it out. */
  function SobelX(g: Grid, y: int, x: int): int
    requires IsRect(g) && 1 <= y < Height(g) - 1 && 1 <= x < Width(g) - 1
  {
    g[y - 1][x + 1] - g[y - 1][x - 1] + 2 * g[y][x + 1] - 2 * g[y][x - 1] + g[y + 1][x + 1] - g[y + 1][x - 1]
  }

  /** The vertical Sobel sum at an inner pixel. */
  function SobelY(g: Grid, y: int, x: int): int
    requires IsRect(g) && 1 <= y < Height(g) - 1 && 1 <= x < Width(g) - 1
  {
    g[y + 1][x - 1] - g[y - 1][x - 1] + 2 * g[y + 1][x] - 2 * g[y - 1][x] + g[y + 1][x + 1] - g[y - 1][x + 1]
  }

  /** On a byte image both sums stay within 4 * 255, so the double and float
      accumulators hold them exactly. */
  lemma SobelBounds(g: Grid, y: int, x: int)
    requires IsByteGrid(g) && 1 <= y < Height(g) - 1 && 1 <= x < Width(g) - 1
    ensures -1020 <= SobelX(g, y, x) <= 1020 && -1020 <= SobelY(g, y, x) <= 1020
  {
    assert IsByte(g[y - 1][x - 1]) && IsByte(g[y - 1][x]) && IsByte(g[y - 1][x + 1]);
    assert IsByte(g[y][x - 1]) && IsByte(g[y][x + 1]);
    assert IsByte(g[y + 1][x - 1]) && IsByte(g[y + 1][x]) && IsByte(g[y + 1][x + 1]);
  }

  /** `Math.Atan2(sy, sx)` in degrees. */
  type AngleOf = (int, int) -> real

  /** `Math.Sqrt(sx * sx + sy * sy)`. */
  type MagnitudeOf = (int, int) -> real

  /** The angle lies in [-67.5, -22.5] or in [112.5, 157.5]. */
  predicate IsApproximatelyDiagonal(angle: real) {
    (angle >= -67.5 && angle <= -22.5) || (angle <= 157.5 && angle >= 112.5)
  }

  /** The diagonal test accepts exactly the directions the edge thinning files
      under the -45 degree bin, plus the two closing ends -22.5 and 157.5. */
  lemma DiagonalIsMinusFortyFiveBin(angle: real)
    ensures IsApproximatelyDiagonal(angle)
      <==> HighPassFilters.DirectionBin(angle) == HighPassFilters.MinusFortyFive || angle == -22.5 || angle == 157.5
  {
    HighPassFilters.BinsPartition(angle);
  }

  function SobelPixel(g: Grid, y: int, x: int, t: real, angle: AngleOf, magnitude: MagnitudeOf): int
    requires IsRect(g) && 0 <= y < Height(g) && 0 <= x < Width(g)
  {
    if 1 <= y < Height(g) - 1 && 1 <= x < Width(g) - 1
       && IsApproximatelyDiagonal(angle(SobelY(g, y, x), SobelX(g, y, x)))
       && magnitude(SobelX(g, y, x), SobelY(g, y, x)) >= t
    then 255 else 0
  }

  /** Sobel: the outermost rows and columns stay 0; an inner pixel is 255
      exactly when its gradient is roughly diagonal and at least `t` strong. */
  function Sobel(g: Grid, t: real, angle: AngleOf, magnitude: MagnitudeOf): (r: Grid)
    requires IsRect(g)
    ensures HasShape(r, Width(g), Height(g)) && IsBinary(r)
    ensures forall y, x :: 0 <= y < Height(g) && 0 <= x < Width(g) && (y == 0 || y == Height(g) - 1 || x == 0 || x == Width(g) - 1) ==>
      r[y][x] == 0
    ensures forall y, x :: 1 <= y < Height(g) - 1 && 1 <= x < Width(g) - 1 ==>
      (r[y][x] == 255 <==> IsApproximatelyDiagonal(angle(SobelY(g, y, x), SobelX(g, y, x))) && magnitude(SobelX(g, y, x), SobelY(g, y, x)) >= t)
  {
    seq(Height(g), y requires 0 <= y < Height(g) =>
      seq(Width(g), x requires 0 <= x < Width(g) => SobelPixel(g, y, x, t, angle, magnitude)))
  }

  /** A flat image has no edges: both sums vanish and `Math.Atan2(0, 0)` is 0,
      which is not a diagonal direction. */
  lemma FlatImageHasNoEdges(g: Grid, v: int, t: real, angle: AngleOf, magnitude: MagnitudeOf)
    requires IsRect(g) && forall y, x :: 0 <= y < Height(g) && 0 <= x < Width(g) ==> g[y][x] == v
    requires angle(0, 0) == 0.0
    ensures forall y, x :: 0 <= y < Height(g) && 0 <= x < Width(g) ==> Sobel(g, t, angle, magnitude)[y][x] == 0
  {
    forall y, x | 1 <= y < Height(g) - 1 && 1 <= x < Width(g) - 1
      ensures SobelX(g, y, x) == 0 && SobelY(g, y, x) == 0
    {
      assert g[y - 1][x - 1] == v && g[y - 1][x] == v && g[y - 1][x + 1] == v;
      assert g[y][x - 1] == v && g[y][x + 1] == v;
      assert g[y + 1][x - 1] == v && g[y + 1][x] == v && g[y + 1][x + 1] == v;
    }
  }
}
