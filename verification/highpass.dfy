/** The Canny stages of the high-pass filters: Gaussian blur, non-maximum
    suppression along the gradient direction, and two-pass hysteresis
    thresholding with in-place promotion of weak edges. */
module HighPassFilters {
  import opened Images
  import opened Results

  // ---------------------------------------------------------------------------
  // Gaussian blur
  // ---------------------------------------------------------------------------

  /** Channel `c` of a pixel, in Emgu's order: 0 blue, 1 green, 2 red. */
  function ChannelOf(p: Bgr, c: int): int {
    if c == 0 then p.blue else if c == 1 then p.green else p.red
  }

  /** A square matrix of weights, as GenerateGaussianKernel returns it. */
  predicate IsKernel(kernel: seq<seq<real>>, size: nat) {
    HasShape(kernel, size, size)
  }

  /** Σ row[left + j].c * weights[j] for `j < n`. */
  function WeightedRow(row: seq<Bgr>, c: int, weights: seq<real>, left: int, n: nat): real
    requires 0 <= left && left + n <= |row| && n <= |weights|
  {
    if n == 0 then 0.0
    else WeightedRow(row, c, weights, left, n - 1) + (ChannelOf(row[left + n - 1], c) as real) * weights[n - 1]
  }

  /** The weighted sum of channel `c` over the first `m` kernel rows, the
      kernel's top-left weight on pixel (top, left). */
  function WeightedWindow(img: BgrImage, c: int, kernel: seq<seq<real>>, top: int, left: int, m: nat): real
    requires IsRect(img) && IsKernel(kernel, |kernel|)
    requires 0 <= top && top + m <= Height(img) && 0 <= left && left + |kernel| <= Width(img) && m <= |kernel|
  {
    if m == 0 then 0.0
    else WeightedWindow(img, c, kernel, top, left, m - 1) + WeightedRow(img[top + m - 1], c, kernel[m - 1], left, |kernel|)
  }

  /** The sum of the weights of the first `m` kernel rows. */
  function KernelTotal(kernel: seq<seq<real>>, m: nat): real
    requires m <= |kernel|
  {
    if m == 0 then 0.0 else KernelTotal(kernel, m - 1) + RealSum(kernel[m - 1])
  }

  function RealSum(s: seq<real>): real {
    if |s| == 0 then 0.0 else RealSum(s[..|s| - 1]) + s[|s| - 1]
  }

  /** The kernel sizes whose loops run without leaving the kernel: a
      non-negative size that is odd, or too large for any pixel to be inside. */
  predicate BlurRuns(h: int, w: int, kernelSize: int) {
    kernelSize >= 0 && (kernelSize % 2 == 1 || h <= kernelSize || w <= kernelSize)
  }

  /** The pixel is at least `radius` away from every edge. */
  predicate InsideBy(y: int, x: int, radius: int, h: int, w: int) {
    radius <= y < h - radius && radius <= x < w - radius
  }

  function BlurPixel(img: BgrImage, kernelSize: int, kernel: seq<seq<real>>, y: int, x: int): Bgr
    requires IsRect(img) && BlurRuns(Height(img), Width(img), kernelSize) && IsKernel(kernel, kernelSize)
    requires 0 <= y < Height(img) && 0 <= x < Width(img)
  {
    var r := kernelSize / 2;
    if InsideBy(y, x, r, Height(img), Width(img)) then
      Bgr(ClampToByte(WeightedWindow(img, 0, kernel, y - r, x - r, kernelSize)),
          ClampToByte(WeightedWindow(img, 1, kernel, y - r, x - r, kernelSize)),
          ClampToByte(WeightedWindow(img, 2, kernel, y - r, x - r, kernelSize)))
    else Bgr(0, 0, 0)
  }

  /** ApplyGaussianBlur with the kernel the generator returns. A negative size
      fails when the kernel array is allocated; an even size reads one column
      past the kernel at the first inner pixel. Otherwise pixels within
      `kernelSize / 2` of an edge stay black and every inner channel is the
      weighted window sum clamped into a byte. The sum is taken in exact
      reals; the program accumulates doubles, so its truncated value can be
      one lower. */
  function ApplyGaussianBlur(img: BgrImage, kernelSize: int, kernel: seq<seq<real>>): (r: Result<BgrImage>)
    requires IsRect(img)
    requires kernelSize >= 0 ==> IsKernel(kernel, kernelSize)
    ensures kernelSize < 0 ==> r == Err(Overflow)
    ensures kernelSize >= 0 ==> (r.Err? <==> !BlurRuns(Height(img), Width(img), kernelSize))
    ensures kernelSize >= 0 && r.Err? ==> r.error == IndexOutOfRange
    ensures r.Ok? ==> HasShape(r.value, Width(img), Height(img))
    ensures r.Ok? ==> forall y, x :: 0 <= y < Height(img) && 0 <= x < Width(img) && !InsideBy(y, x, kernelSize / 2, Height(img), Width(img)) ==>
      r.value[y][x] == Bgr(0, 0, 0)
    ensures r.Ok? ==> forall y, x, c :: InsideBy(y, x, kernelSize / 2, Height(img), Width(img)) && 0 <= c < 3 ==>
      ChannelOf(r.value[y][x], c) == ClampToByte(WeightedWindow(img, c, kernel, y - kernelSize / 2, x - kernelSize / 2, kernelSize))
  {
    if kernelSize < 0 then Err(Overflow)
    else if !BlurRuns(Height(img), Width(img), kernelSize) then Err(IndexOutOfRange)
    else
      Ok(seq(Height(img), y requires 0 <= y < Height(img) =>
        seq(Width(img), x requires 0 <= x < Width(img) => BlurPixel(img, kernelSize, kernel, y, x))))
  }

  lemma {:induction false} FlatRow(row: seq<Bgr>, c: int, weights: seq<real>, left: int, n: nat, v: int)
    requires 0 <= left && left + n <= |row| && n <= |weights|
    requires forall j :: left <= j < left + n ==> ChannelOf(row[j], c) == v
    ensures WeightedRow(row, c, weights, left, n) == (v as real) * RealSum(weights[..n])
  {
    if n > 0 {
      FlatRow(row, c, weights, left, n - 1, v);
      assert weights[..n][..n - 1] == weights[..n - 1];
    }
  }

  lemma {:induction false} FlatWindow(img: BgrImage, c: int, kernel: seq<seq<real>>, top: int, left: int, m: nat, v: int)
    requires IsRect(img) && IsKernel(kernel, |kernel|)
    requires 0 <= top && top + m <= Height(img) && 0 <= left && left + |kernel| <= Width(img) && m <= |kernel|
    requires forall y, x :: 0 <= y < Height(img) && 0 <= x < Width(img) ==> ChannelOf(img[y][x], c) == v
    ensures WeightedWindow(img, c, kernel, top, left, m) == (v as real) * KernelTotal(kernel, m)
  {
    if m > 0 {
      FlatWindow(img, c, kernel, top, left, m - 1, v);
      var row := img[top + m - 1];
      FlatRow(row, c, kernel[m - 1], left, |kernel|, v);
      assert kernel[m - 1][..|kernel|] == kernel[m - 1];
    }
  }

  /** In the exact-real reading of the blur, a kernel whose weights add up to
      exactly one leaves a flat channel unchanged away from the border. This
      is a fact about the model: double kernels rarely sum to exactly one,
      and a double sum just below the flat value truncates one lower. */
  lemma NormalisedKernelKeepsFlatChannel(img: BgrImage, kernelSize: int, kernel: seq<seq<real>>, c: int, v: int)
    requires IsRect(img) && kernelSize >= 0 && IsKernel(kernel, kernelSize) && BlurRuns(Height(img), Width(img), kernelSize)
    requires KernelTotal(kernel, kernelSize) == 1.0 && 0 <= c < 3 && IsByte(v)
    requires forall y, x :: 0 <= y < Height(img) && 0 <= x < Width(img) ==> ChannelOf(img[y][x], c) == v
    ensures var r := ApplyGaussianBlur(img, kernelSize, kernel);
      r.Ok? && forall y, x :: InsideBy(y, x, kernelSize / 2, Height(img), Width(img)) ==> ChannelOf(r.value[y][x], c) == v
  {
    forall y, x | InsideBy(y, x, kernelSize / 2, Height(img), Width(img))
      ensures WeightedWindow(img, c, kernel, y - kernelSize / 2, x - kernelSize / 2, kernelSize) == v as real
    {
      FlatWindow(img, c, kernel, y - kernelSize / 2, x - kernelSize / 2, kernelSize, v);
    }
  }

  // ---------------------------------------------------------------------------
  // Non-maximum suppression
  // ---------------------------------------------------------------------------

  /** One entry of the gradient array: magnitude and direction in degrees. */
  datatype Gradient = Gradient(magnitude: real, direction: real)

  type GradientField = seq<seq<Gradient>>

  /** The four direction tests, in the order the program tries them. */
  predicate HorizontalEdge(d: real) {
    (d >= -22.5 && d < 22.5) || d >= 157.5 || d < -157.5
  }

  predicate PlusFortyFiveEdge(d: real) {
    (d >= 22.5 && d < 67.5) || (d >= -157.5 && d < -112.5)
  }

  predicate VerticalEdge(d: real) {
    (d >= 67.5 && d < 112.5) || (d >= -112.5 && d < -67.5)
  }

  predicate MinusFortyFiveEdge(d: real) {
    (d >= 112.5 && d < 157.5) || (d >= -67.5 && d < -22.5)
  }

  /** The branch a direction takes; `Unbinned` is the fall-through no branch
      catches, where both neighbour magnitudes stay 0. */
  datatype Bin = Horizontal | PlusFortyFive | Vertical | MinusFortyFive | Unbinned

  function DirectionBin(d: real): Bin {
    if HorizontalEdge(d) then Horizontal
    else if PlusFortyFiveEdge(d) then PlusFortyFive
    else if VerticalEdge(d) then Vertical
    else if MinusFortyFiveEdge(d) then MinusFortyFive
    else Unbinned
  }

  /** The four tests partition the real line: every direction passes exactly
      one of them, so the fall-through is never taken. */
  lemma BinsPartition(d: real)
    ensures HorizontalEdge(d) || PlusFortyFiveEdge(d) || VerticalEdge(d) || MinusFortyFiveEdge(d)
    ensures !(HorizontalEdge(d) && PlusFortyFiveEdge(d)) && !(HorizontalEdge(d) && VerticalEdge(d))
    ensures !(HorizontalEdge(d) && MinusFortyFiveEdge(d)) && !(PlusFortyFiveEdge(d) && VerticalEdge(d))
    ensures !(PlusFortyFiveEdge(d) && MinusFortyFiveEdge(d)) && !(VerticalEdge(d) && MinusFortyFiveEdge(d))
    ensures DirectionBin(d) != Unbinned
    ensures DirectionBin(d) == MinusFortyFive <==> MinusFortyFiveEdge(d)
  {
  }

  /** The suppression band: within 10 pixels of the top or left edge, or 10 of
      the bottom or right edge. */
  predicate InBand(y: int, x: int, h: int, w: int) {
    (y >= 0 && y <= 10) || (y <= h - 1 && y >= h - 10) || (x >= 0 && x <= 10) || (x <= w - 1 && x >= w - 10)
  }

  function Interpolate(grad1: real, grad2: real, weight: real): real {
    grad1 * (1.0 - weight) + grad2 * weight
  }

  /** The magnitudes on the two sides of the pixel across its edge direction;
      a side too close to the border counts as 0. */
  function Neighbours(f: GradientField, y: int, x: int): (real, real)
    requires IsRect(f) && 0 <= y < Height(f) && 0 <= x < Width(f)
  {
    var h, w := Height(f), Width(f);
    match DirectionBin(f[y][x].direction)
    case Horizontal =>
      (if x > 1 then f[y][x - 1].magnitude else 0.0,
       if x < w - 2 then f[y][x + 1].magnitude else 0.0)
    case PlusFortyFive =>
      (if y > 1 && x < w - 2 then f[y - 1][x + 1].magnitude else 0.0,
       if y < h - 2 && x > 1 then f[y + 1][x - 1].magnitude else 0.0)
    case Vertical =>
      (if y > 1 then f[y - 1][x].magnitude else 0.0,
       if y < h - 2 then f[y + 1][x].magnitude else 0.0)
    case MinusFortyFive =>
      (if y > 1 && x > 1 then f[y - 1][x - 1].magnitude else 0.0,
       if y < h - 2 && x < w - 2 then f[y + 1][x + 1].magnitude else 0.0)
    case Unbinned => (0.0, 0.0)
  }

  /** `Math.Abs(Math.Tan(direction * Math.PI / 180))`, not modelled. */
  type WeightOf = real -> real

  function SuppressedPixel(f: GradientField, y: int, x: int, weight: WeightOf): int
    requires IsRect(f) && 0 <= y < Height(f) && 0 <= x < Width(f)
  {
    if InBand(y, x, Height(f), Width(f)) then 0
    else
      var n := Neighbours(f, y, x);
      if f[y][x].magnitude < Interpolate(n.0, n.1, weight(f[y][x].direction)) then 0
      else ClampToByte(f[y][x].magnitude)
  }

  /** NonMaximumSuppression: the band is 0; elsewhere a pixel is 0 when its
      magnitude is below the value interpolated between its two neighbours
      across the edge, and its clamped magnitude otherwise. */
  function NonMaximumSuppression(f: GradientField, weight: WeightOf): (r: Grid)
    requires IsRect(f)
    ensures HasShape(r, Width(f), Height(f)) && IsByteGrid(r)
    ensures forall y, x :: 0 <= y < Height(f) && 0 <= x < Width(f) && InBand(y, x, Height(f), Width(f)) ==> r[y][x] == 0
    ensures forall y, x :: 0 <= y < Height(f) && 0 <= x < Width(f) && !InBand(y, x, Height(f), Width(f)) ==>
      var n := Neighbours(f, y, x);
      r[y][x] == (if f[y][x].magnitude < Interpolate(n.0, n.1, weight(f[y][x].direction)) then 0 else ClampToByte(f[y][x].magnitude))
  {
    seq(Height(f), y requires 0 <= y < Height(f) =>
      seq(Width(f), x requires 0 <= x < Width(f) => SuppressedPixel(f, y, x, weight)))
  }

  /** A field fewer than 22 pixels high or wide lies wholly in the band. */
  lemma NarrowFieldIsBlank(f: GradientField, weight: WeightOf)
    requires IsRect(f) && (Height(f) < 22 || Width(f) < 22)
    ensures forall y, x :: 0 <= y < Height(f) && 0 <= x < Width(f) ==> NonMaximumSuppression(f, weight)[y][x] == 0
  {
    assert forall y, x :: 0 <= y < Height(f) && 0 <= x < Width(f) ==> InBand(y, x, Height(f), Width(f));
  }

  lemma MulNonNegative(a: real, b: real)
    requires a >= 0.0 && b >= 0.0
    ensures a * b >= 0.0
  {
  }

  /** With a weight in [0, 1] the interpolated value lies between the two neighbours. */
  lemma InterpolateBetween(grad1: real, grad2: real, weight: real)
    requires 0.0 <= weight <= 1.0
    ensures grad1 <= grad2 ==> grad1 <= Interpolate(grad1, grad2, weight) <= grad2
    ensures grad2 <= grad1 ==> grad2 <= Interpolate(grad1, grad2, weight) <= grad1
  {
    var d := grad2 - grad1;
    assert Interpolate(grad1, grad2, weight) == grad1 + d * weight;
    assert d - d * weight == d * (1.0 - weight);
    if d >= 0.0 {
      MulNonNegative(d, weight);
      MulNonNegative(d, 1.0 - weight);
    } else {
      MulNonNegative(-d, weight);
      MulNonNegative(-d, 1.0 - weight);
    }
  }

  /** Away from the band, and with a weight in [0, 1], a pixel at least as
      strong as both neighbours across its edge keeps its clamped magnitude,
      and one weaker than both is suppressed. */
  lemma RidgeMaximumSurvives(f: GradientField, weight: WeightOf, y: int, x: int)
    requires IsRect(f) && 0 <= y < Height(f) && 0 <= x < Width(f) && !InBand(y, x, Height(f), Width(f))
    requires 0.0 <= weight(f[y][x].direction) <= 1.0
    ensures var n, m := Neighbours(f, y, x), f[y][x].magnitude;
      m >= n.0 && m >= n.1 ==> NonMaximumSuppression(f, weight)[y][x] == ClampToByte(m)
    ensures var n, m := Neighbours(f, y, x), f[y][x].magnitude;
      m < n.0 && m < n.1 ==> NonMaximumSuppression(f, weight)[y][x] == 0
  {
    var n := Neighbours(f, y, x);
    InterpolateBetween(n.0, n.1, weight(f[y][x].direction));
  }

  // ---------------------------------------------------------------------------
  // Hysteresis thresholding
  // ---------------------------------------------------------------------------

  const Strong: int := 255
  const Weak: int := 25

  /** The first pass: strong at or above the high threshold, weak at or above
      the low one, 0 below. */
  function Classify(v: int, low: real, high: real): int {
    if v as real >= high then Strong else if v as real >= low then Weak else 0
  }

  function FirstPass(img: Grid, low: real, high: real): (e: Grid)
    requires IsRect(img)
    ensures HasShape(e, Width(img), Height(img))
    ensures forall y, x :: 0 <= y < Height(img) && 0 <= x < Width(img) ==>
      && (e[y][x] == Strong <==> img[y][x] as real >= high)
      && (e[y][x] == Weak <==> low <= img[y][x] as real < high)
      && (e[y][x] == 0 <==> img[y][x] as real < low && img[y][x] as real < high)
  {
    seq(Height(img), y requires 0 <= y < Height(img) =>
      seq(Width(img), x requires 0 <= x < Width(img) => Classify(img[y][x], low, high)))
  }

  /** Some pixel of the 3-by-3 window around (y, x) is strong. */
  predicate HasStrongNeighbour(e: Grid, y: int, x: int)
    requires IsRect(e) && 1 <= y < Height(e) - 1 && 1 <= x < Width(e) - 1
  {
    exists r, c :: y - 1 <= r <= y + 1 && x - 1 <= c <= x + 1 && e[r][c] == Strong
  }

  /** IsStrongEdgeNeighbor: scans the window row by row and stops at the first
      pixel equal to `strong`. */
  method IsStrongEdgeNeighbor(e: Grid, x: int, y: int, strong: int) returns (b: bool)
    requires IsRect(e) && 1 <= y < Height(e) - 1 && 1 <= x < Width(e) - 1
    ensures b <==> exists r, c :: y - 1 <= r <= y + 1 && x - 1 <= c <= x + 1 && e[r][c] == strong
  {
    var ky := -1;
    while ky <= 1
      invariant -1 <= ky <= 2
      invariant forall r, c :: y - 1 <= r < y + ky && x - 1 <= c <= x + 1 ==> e[r][c] != strong
    {
      var row := e[y + ky];
      var kx := -1;
      while kx <= 1
        invariant -1 <= kx <= 2
        invariant forall c :: x - 1 <= c < x + kx ==> row[c] != strong
      {
        if row[x + kx] == strong {
          return true;
        }
        kx := kx + 1;
      }
      ky := ky + 1;
    }
    return false;
  }

  /** The second pass at one pixel: a weak pixel becomes strong when the
      current image has a strong pixel in its window, and 0 otherwise. */
  function Resolve(e: Grid, y: int, x: int): (s: Grid)
    requires IsRect(e) && 1 <= y < Height(e) - 1 && 1 <= x < Width(e) - 1
  {
    if e[y][x] == Weak then e[y := e[y][x := if HasStrongNeighbour(e, y, x) then Strong else 0]] else e
  }

  /** The number of inner rows or columns, `n - 2` when positive. */
  function Inner(n: int): nat {
    if n >= 2 then n - 2 else 0
  }

  /** The second pass over columns 1..n of row y, in place. Only weak pixels
      of that stretch change, and each of them becomes 0 or strong. */
  function SweepRow(e: Grid, y: int, n: nat): (s: Grid)
    requires IsRect(e) && 1 <= y < Height(e) - 1 && n <= Inner(Width(e))
    ensures IsRect(s) && HasShape(s, Width(e), Height(e))
    ensures forall i, j :: 0 <= i < Height(e) && 0 <= j < Width(e) && !(i == y && 1 <= j <= n && e[i][j] == Weak) ==>
      s[i][j] == e[i][j]
    ensures forall j :: 1 <= j <= n && e[y][j] == Weak ==> s[y][j] == 0 || s[y][j] == Strong
  {
    if n == 0 then e else Resolve(SweepRow(e, y, n - 1), y, n)
  }

  /** The second pass over the inner rows 1..m. */
  function SweepRows(e: Grid, m: nat): (s: Grid)
    requires IsRect(e) && m <= Inner(Height(e))
    ensures IsRect(s) && HasShape(s, Width(e), Height(e))
    ensures forall i, j :: 0 <= i < Height(e) && 0 <= j < Width(e) && !(1 <= i <= m && 1 <= j <= Inner(Width(e)) && e[i][j] == Weak) ==>
      s[i][j] == e[i][j]
    ensures forall i, j :: 1 <= i <= m && 1 <= j <= Inner(Width(e)) && e[i][j] == Weak ==> s[i][j] == 0 || s[i][j] == Strong
  {
    if m == 0 then e
    else
      var p := SweepRows(e, m - 1);
      SweepRow(p, m, Inner(Width(e)))
  }

  /** HysteresisThresholding: the first pass, then the in-place second pass
      over the inner pixels in row-major order. Strong and zero pixels of the
      first pass keep their value, inner weak pixels become 0 or strong, weak
      pixels on the outermost rows and columns stay weak. */
  function HysteresisThresholding(img: Grid, low: real, high: real): (r: Grid)
    requires IsRect(img)
    ensures HasShape(r, Width(img), Height(img))
    ensures forall y, x :: 0 <= y < Height(img) && 0 <= x < Width(img) ==>
      r[y][x] == 0 || r[y][x] == Weak || r[y][x] == Strong
    ensures forall y, x :: 0 <= y < Height(img) && 0 <= x < Width(img) && img[y][x] as real >= high ==> r[y][x] == Strong
    ensures forall y, x :: 0 <= y < Height(img) && 0 <= x < Width(img) && img[y][x] as real < low && img[y][x] as real < high ==>
      r[y][x] == 0
    ensures forall y, x :: 0 <= y < Height(img) && 0 <= x < Width(img) && low <= img[y][x] as real < high ==>
      if 1 <= y < Height(img) - 1 && 1 <= x < Width(img) - 1 then r[y][x] == 0 || r[y][x] == Strong else r[y][x] == Weak
  {
    var e := FirstPass(img, low, high);
    SweepRows(e, Inner(Height(img)))
  }

  /** The image the second pass sees when it reaches the inner pixel (y, x):
      every earlier pixel in row-major order already resolved. */
  function ScanState(e: Grid, y: int, x: int): Grid
    requires IsRect(e) && 1 <= y < Height(e) - 1 && 1 <= x < Width(e) - 1
  {
    SweepRow(SweepRows(e, y - 1), y, x - 1)
  }

  lemma {:induction false} RowSettled(e: Grid, y: int, x: int, n: nat)
    requires IsRect(e) && 1 <= y < Height(e) - 1 && 1 <= x <= n <= Inner(Width(e))
    ensures SweepRow(e, y, n)[y][x] == SweepRow(e, y, x)[y][x]
  {
    if n > x {
      RowSettled(e, y, x, n - 1);
    }
  }

  lemma {:induction false} RowsSettled(e: Grid, y: int, x: int, m: nat)
    requires IsRect(e) && 1 <= y <= m <= Inner(Height(e)) && 0 <= x < Width(e)
    ensures SweepRows(e, m)[y][x] == SweepRows(e, y)[y][x]
  {
    if m > y {
      RowsSettled(e, y, x, m - 1);
    }
  }

  /** A weak inner pixel is promoted exactly when its window holds a strong
      pixel in the partly updated image at the moment the scan reaches it, so
      promotions earlier in row-major order count. */
  lemma PromotedAtScanTime(img: Grid, low: real, high: real, y: int, x: int)
    requires IsRect(img) && 1 <= y < Height(img) - 1 && 1 <= x < Width(img) - 1
    requires low <= img[y][x] as real < high
    ensures var e := FirstPass(img, low, high);
      HysteresisThresholding(img, low, high)[y][x] == Strong <==> HasStrongNeighbour(ScanState(e, y, x), y, x)
  {
    var e := FirstPass(img, low, high);
    var before := SweepRows(e, y - 1);
    RowsSettled(e, y, x, Inner(Height(img)));
    RowSettled(before, y, x, Inner(Width(img)));
    assert before[y][x] == Weak;
  }

  /** Promotion travels along the scan: a weak pixel that is only next to a
      weak pixel promoted earlier becomes strong, but not one whose strong
      neighbour is only promoted later. */
  const ChainForward: Grid := [[255, 0, 0, 0], [0, 25, 25, 0], [0, 0, 0, 0]]
  const ChainBackward: Grid := [[0, 0, 0, 0], [0, 25, 25, 0], [0, 0, 0, 255]]

  lemma ScanOrderForward()
    ensures IsRect(ChainForward)
    ensures HysteresisThresholding(ChainForward, 20.0, 200.0)[1] == [0, 255, 255, 0]
  {
    var f := FirstPass(ChainForward, 20.0, 200.0);
    assert forall y, x :: 0 <= y < 3 && 0 <= x < 4 ==> f[y][x] == ChainForward[y][x];
    assert forall y :: 0 <= y < 3 ==> f[y] == ChainForward[y];
    assert f == ChainForward;
    var f1 := Resolve(f, 1, 1);
    assert HasStrongNeighbour(f, 1, 1) by {
      assert f[0][0] == Strong;
    }
    assert f[1][1 := Strong] == [0, 255, 25, 0];
    assert f1 == f[1 := [0, 255, 25, 0]];
    var f2 := Resolve(f1, 1, 2);
    assert HasStrongNeighbour(f1, 1, 2) by {
      assert f1[1][1] == Strong;
    }
    assert f2[1] == [0, 255, 255, 0];
    assert SweepRow(f, 1, 1) == f1;
    assert SweepRow(f, 1, 2) == f2;
    assert SweepRows(f, 1) == f2;
  }

  lemma ScanOrderBackward()
    ensures IsRect(ChainBackward)
    ensures HysteresisThresholding(ChainBackward, 20.0, 200.0)[1] == [0, 0, 255, 0]
  {
    var b := FirstPass(ChainBackward, 20.0, 200.0);
    assert forall y, x :: 0 <= y < 3 && 0 <= x < 4 ==> b[y][x] == ChainBackward[y][x];
    assert forall y :: 0 <= y < 3 ==> b[y] == ChainBackward[y];
    assert b == ChainBackward;
    assert !HasStrongNeighbour(b, 1, 1);
    var b1 := Resolve(b, 1, 1);
    assert b[1][1 := 0] == [0, 0, 25, 0];
    assert b1 == b[1 := [0, 0, 25, 0]];
    var b2 := Resolve(b1, 1, 2);
    assert HasStrongNeighbour(b1, 1, 2) by {
      assert b1[2][3] == Strong;
    }
    assert b2[1] == [0, 0, 255, 0];
    assert SweepRow(b, 1, 1) == b1;
    assert SweepRow(b, 1, 2) == b2;
    assert SweepRows(b, 1) == b2;
  }
}
