/** The Harris corner detector's discrete parts: Sobel gradients of a byte
    image, their pointwise products, and the selection of corner candidates
    from a response image by threshold, 3-by-3 maximum and a wider
    neighbourhood maximum. */
module HarrisOperator {
  import opened Images
  import opened Results
  import Tools

  // ---------------------------------------------------------------------------
  // Gradients
  // ---------------------------------------------------------------------------

  /** The kernels, indexed [ky + 1][kx + 1]. */
  const SobelXKernel: seq<seq<int>> := [[-1, 0, 1], [-2, 0, 2], [-1, 0, 1]]
  const SobelYKernel: seq<seq<int>> := [[-1, -2, -1], [0, 0, 0], [1, 2, 1]]

  /** The first `n` terms, in the program's loop order (ky outer, kx inner),
      of the sum of pixel times kernel weight over the 3-by-3 window. */
  function Correlate(g: Grid, y: int, x: int, k: seq<seq<int>>, n: nat): int
    requires IsRect(g) && 1 <= y < Height(g) - 1 && 1 <= x < Width(g) - 1 && HasShape(k, 3, 3) && n <= 9
  {
    if n == 0 then 0
    else
      var t := n - 1;
      Correlate(g, y, x, k, t) + g[y + t / 3 - 1][x + t % 3 - 1] * k[t / 3][t % 3]
  }

  /** The kernel loops compute the closed-form Sobel sums of the Sobel filter. */
  lemma KernelSumsAreSobelSums(g: Grid, y: int, x: int)
    requires IsRect(g) && 1 <= y < Height(g) - 1 && 1 <= x < Width(g) - 1
    ensures Correlate(g, y, x, SobelXKernel, 9) == Tools.SobelX(g, y, x)
    ensures Correlate(g, y, x, SobelYKernel, 9) == Tools.SobelY(g, y, x)
  {
    KernelSumIsSobelX(g, y, x);
    KernelSumIsSobelY(g, y, x);
  }

  lemma KernelSumIsSobelX(g: Grid, y: int, x: int)
    requires IsRect(g) && 1 <= y < Height(g) - 1 && 1 <= x < Width(g) - 1
    ensures Correlate(g, y, x, SobelXKernel, 9) == Tools.SobelX(g, y, x)
  {
    assert Correlate(g, y, x, SobelXKernel, 1) == 0 + g[y - 1][x - 1] * -1;
    assert Correlate(g, y, x, SobelXKernel, 2) == Correlate(g, y, x, SobelXKernel, 1) + g[y - 1][x] * 0;
    assert Correlate(g, y, x, SobelXKernel, 3) == Correlate(g, y, x, SobelXKernel, 2) + g[y - 1][x + 1] * 1;
    assert Correlate(g, y, x, SobelXKernel, 4) == Correlate(g, y, x, SobelXKernel, 3) + g[y][x - 1] * -2;
    assert Correlate(g, y, x, SobelXKernel, 5) == Correlate(g, y, x, SobelXKernel, 4) + g[y][x] * 0;
    assert Correlate(g, y, x, SobelXKernel, 6) == Correlate(g, y, x, SobelXKernel, 5) + g[y][x + 1] * 2;
    assert Correlate(g, y, x, SobelXKernel, 7) == Correlate(g, y, x, SobelXKernel, 6) + g[y + 1][x - 1] * -1;
    assert Correlate(g, y, x, SobelXKernel, 8) == Correlate(g, y, x, SobelXKernel, 7) + g[y + 1][x] * 0;
    assert Correlate(g, y, x, SobelXKernel, 9) == Correlate(g, y, x, SobelXKernel, 8) + g[y + 1][x + 1] * 1;
  }

  lemma KernelSumIsSobelY(g: Grid, y: int, x: int)
    requires IsRect(g) && 1 <= y < Height(g) - 1 && 1 <= x < Width(g) - 1
    ensures Correlate(g, y, x, SobelYKernel, 9) == Tools.SobelY(g, y, x)
  {
    assert Correlate(g, y, x, SobelYKernel, 1) == 0 + g[y - 1][x - 1] * -1;
    assert Correlate(g, y, x, SobelYKernel, 2) == Correlate(g, y, x, SobelYKernel, 1) + g[y - 1][x] * -2;
    assert Correlate(g, y, x, SobelYKernel, 3) == Correlate(g, y, x, SobelYKernel, 2) + g[y - 1][x + 1] * -1;
    assert Correlate(g, y, x, SobelYKernel, 4) == Correlate(g, y, x, SobelYKernel, 3) + g[y][x - 1] * 0;
    assert Correlate(g, y, x, SobelYKernel, 5) == Correlate(g, y, x, SobelYKernel, 4) + g[y][x] * 0;
    assert Correlate(g, y, x, SobelYKernel, 6) == Correlate(g, y, x, SobelYKernel, 5) + g[y][x + 1] * 0;
    assert Correlate(g, y, x, SobelYKernel, 7) == Correlate(g, y, x, SobelYKernel, 6) + g[y + 1][x - 1] * 1;
    assert Correlate(g, y, x, SobelYKernel, 8) == Correlate(g, y, x, SobelYKernel, 7) + g[y + 1][x] * 2;
    assert Correlate(g, y, x, SobelYKernel, 9) == Correlate(g, y, x, SobelYKernel, 8) + g[y + 1][x + 1] * 1;
  }

  datatype Gradients = Gradients(ix: Grid, iy: Grid)

  function GradientPixel(g: Grid, y: int, x: int, k: seq<seq<int>>): int
    requires IsRect(g) && 0 <= y < Height(g) && 0 <= x < Width(g) && HasShape(k, 3, 3)
  {
    if 1 <= y < Height(g) - 1 && 1 <= x < Width(g) - 1 then Correlate(g, y, x, k, 9) else 0
  }

  /** CalculateGradients: both images have the input's size, the outermost
      rows and columns are 0, and an inner pixel holds the Sobel sums. */
  function CalculateGradients(g: Grid): (r: Gradients)
    requires IsRect(g)
    ensures HasShape(r.ix, Width(g), Height(g)) && HasShape(r.iy, Width(g), Height(g))
    ensures forall y, x :: 0 <= y < Height(g) && 0 <= x < Width(g) && (y == 0 || y == Height(g) - 1 || x == 0 || x == Width(g) - 1) ==>
      r.ix[y][x] == 0 && r.iy[y][x] == 0
    ensures forall y, x :: 1 <= y < Height(g) - 1 && 1 <= x < Width(g) - 1 ==>
      r.ix[y][x] == Tools.SobelX(g, y, x) && r.iy[y][x] == Tools.SobelY(g, y, x)
  {
    forall y, x | 1 <= y < Height(g) - 1 && 1 <= x < Width(g) - 1
      ensures Correlate(g, y, x, SobelXKernel, 9) == Tools.SobelX(g, y, x)
      ensures Correlate(g, y, x, SobelYKernel, 9) == Tools.SobelY(g, y, x)
    {
      KernelSumsAreSobelSums(g, y, x);
    }
    Gradients(
      seq(Height(g), y requires 0 <= y < Height(g) => seq(Width(g), x requires 0 <= x < Width(g) => GradientPixel(g, y, x, SobelXKernel))),
      seq(Height(g), y requires 0 <= y < Height(g) => seq(Width(g), x requires 0 <= x < Width(g) => GradientPixel(g, y, x, SobelYKernel))))
  }

  // ---------------------------------------------------------------------------
  // Gradient products
  // ---------------------------------------------------------------------------

  datatype Products = Products(ix2: Grid, iy2: Grid, ixiy: Grid)

  /** The product loops read `iy` at every pixel of `ix`. */
  predicate CoversShape(ix: Grid, iy: Grid) {
    Height(ix) == 0 || Width(ix) == 0 || (Height(iy) >= Height(ix) && Width(iy) >= Width(ix))
  }

  /** CalculateGradientProducts: `ix2` and `ixiy` take the size of `ix` and
      `iy2` the size of `iy`; over the pixels of `ix` they hold the squares and
      the product, and the rest of `iy2` stays 0. When `iy` is smaller than a
      non-empty `ix` the loop reads past it. */
  function CalculateGradientProducts(ix: Grid, iy: Grid): (r: Result<Products>)
    requires IsRect(ix) && IsRect(iy)
    ensures r.Err? <==> !CoversShape(ix, iy)
    ensures r.Err? ==> r.error == IndexOutOfRange
    ensures r.Ok? ==> HasShape(r.value.ix2, Width(ix), Height(ix)) && HasShape(r.value.ixiy, Width(ix), Height(ix))
    ensures r.Ok? ==> HasShape(r.value.iy2, Width(iy), Height(iy))
    ensures r.Ok? ==> forall y, x :: 0 <= y < Height(ix) && 0 <= x < Width(ix) ==>
      && r.value.ix2[y][x] == ix[y][x] * ix[y][x] >= 0
      && r.value.iy2[y][x] == iy[y][x] * iy[y][x] >= 0
      && r.value.ixiy[y][x] == ix[y][x] * iy[y][x]
    ensures r.Ok? ==> forall y, x :: 0 <= y < Height(iy) && 0 <= x < Width(iy) && !(y < Height(ix) && x < Width(ix)) ==>
      r.value.iy2[y][x] == 0
  {
    if !CoversShape(ix, iy) then Err(IndexOutOfRange)
    else
      Ok(Products(
        seq(Height(ix), y requires 0 <= y < Height(ix) => seq(Width(ix), x requires 0 <= x < Width(ix) => ix[y][x] * ix[y][x])),
        seq(Height(iy), y requires 0 <= y < Height(iy) => seq(Width(iy), x requires 0 <= x < Width(iy) =>
          if y < Height(ix) && x < Width(ix) then iy[y][x] * iy[y][x] else 0)),
        seq(Height(ix), y requires 0 <= y < Height(ix) => seq(Width(ix), x requires 0 <= x < Width(ix) => ix[y][x] * iy[y][x]))))
  }

  /** Before smoothing the structure matrix of each pixel is singular:
      `Ix2 * Iy2 - IxIy * IxIy` vanishes, which is why the response is taken
      from the smoothed products. */
  lemma UnsmoothedDeterminantVanishes(ix: Grid, iy: Grid, y: int, x: int)
    requires IsRect(ix) && IsRect(iy) && CoversShape(ix, iy)
    requires 0 <= y < Height(ix) && 0 <= x < Width(ix)
    ensures var p := CalculateGradientProducts(ix, iy).value;
      p.ix2[y][x] * p.iy2[y][x] - p.ixiy[y][x] * p.ixiy[y][x] == 0
  {
    var a, b := ix[y][x], iy[y][x];
    assert (a * a) * (b * b) == (a * b) * (a * b);
  }

  /** The gradients of a byte image fit the products in a float exactly:
      each square is at most 1020 * 1020. */
  lemma ProductsOfByteImage(g: Grid, y: int, x: int)
    requires IsByteGrid(g) && 0 <= y < Height(g) && 0 <= x < Width(g)
    ensures var d := CalculateGradients(g);
      -1020 <= d.ix[y][x] <= 1020 && -1020 <= d.iy[y][x] <= 1020
  {
    if 1 <= y < Height(g) - 1 && 1 <= x < Width(g) - 1 {
      Tools.SobelBounds(g, y, x);
    }
  }

  // ---------------------------------------------------------------------------
  // Corner selection
  // ---------------------------------------------------------------------------

  /** A Harris response image (floats, read as reals). */
  type Response = seq<seq<real>>

  /** No pixel of the 3-by-3 window exceeds the centre. */
  predicate LocalMax(resp: Response, x: int, y: int)
    requires IsRect(resp) && 1 <= x < Width(resp) - 1 && 1 <= y < Height(resp) - 1
  {
    forall r, c :: y - 1 <= r <= y + 1 && x - 1 <= c <= x + 1 ==> resp[r][c] <= resp[y][x]
  }

  /** No pixel of the image within Chebyshev distance `d` exceeds the centre. */
  predicate StrongestWithin(resp: Response, x: int, y: int, d: int)
    requires IsRect(resp) && 0 <= x < Width(resp) && 0 <= y < Height(resp)
  {
    forall r, c :: y - d <= r <= y + d && x - d <= c <= x + d && 0 <= r < Height(resp) && 0 <= c < Width(resp) ==>
      resp[r][c] <= resp[y][x]
  }

  /** IsLocalMaximum: the window scan stops at the first larger pixel. */
  method IsLocalMaximum(resp: Response, x: int, y: int) returns (b: bool)
    requires IsRect(resp) && 1 <= x < Width(resp) - 1 && 1 <= y < Height(resp) - 1
    ensures b <==> LocalMax(resp, x, y)
  {
    var current := resp[y][x];
    var ky := -1;
    while ky <= 1
      invariant -1 <= ky <= 2
      invariant forall r, c :: y - 1 <= r < y + ky && x - 1 <= c <= x + 1 ==> resp[r][c] <= current
    {
      var row := resp[y + ky];
      var kx := -1;
      while kx <= 1
        invariant -1 <= kx <= 2
        invariant forall c :: x - 1 <= c < x + kx ==> row[c] <= current
      {
        if row[x + kx] > current {
          return false;
        }
        kx := kx + 1;
      }
      ky := ky + 1;
    }
    return true;
  }

  /** IsStrongestResponseWithinDistance: the same scan over a
      (2d+1)-by-(2d+1) window, skipping positions outside the image. */
  method IsStrongestResponseWithinDistance(resp: Response, x: int, y: int, minDistance: int) returns (b: bool)
    requires IsRect(resp) && 0 <= x < Width(resp) && 0 <= y < Height(resp)
    ensures b <==> StrongestWithin(resp, x, y, minDistance)
  {
    var current := resp[y][x];
    var dy := -minDistance;
    while dy <= minDistance
      invariant dy >= -minDistance && (minDistance >= 0 ==> dy <= minDistance + 1)
      invariant forall r, c :: y - minDistance <= r < y + dy && x - minDistance <= c <= x + minDistance && 0 <= r < Height(resp) && 0 <= c < Width(resp) ==>
        resp[r][c] <= current
    {
      var dx := -minDistance;
      while dx <= minDistance
        invariant -minDistance <= dx <= minDistance + 1
        invariant forall r, c :: r == y + dy && x - minDistance <= c < x + dx && 0 <= r < Height(resp) && 0 <= c < Width(resp) ==>
          resp[r][c] <= current
      {
        var nx, ny := x + dx, y + dy;
        if nx >= 0 && nx < Width(resp) && ny >= 0 && ny < Height(resp) {
          if resp[ny][nx] > current {
            return false;
          }
        }
        dx := dx + 1;
      }
      dy := dy + 1;
    }
    return true;
  }

  /** The pixel lies at least 10 pixels inside the left and top edges and more
      than 10 inside the right and bottom ones. */
  predicate InMargin(resp: Response, p: Point) {
    10 <= p.y < Height(resp) - 10 && 10 <= p.x < Width(resp) - 10
  }

  /** A corner: above the threshold, a 3-by-3 maximum and the strongest within
      `minDistance`. */
  predicate Selected(resp: Response, p: Point, threshold: real, minDistance: int)
    requires IsRect(resp) && InMargin(resp, p)
  {
    resp[p.y][p.x] > threshold && LocalMax(resp, p.x, p.y) && StrongestWithin(resp, p.x, p.y, minDistance)
  }

  /** `p` comes before `q` in row-major order. */
  predicate ScanBefore(p: Point, q: Point) {
    p.y < q.y || (p.y == q.y && p.x < q.x)
  }

  /** ApplyThresholdingAndNonMaximumSuppression: the selected points are
      exactly the corners inside the margin, listed in row-major order. */
  method ApplyThresholdingAndNonMaximumSuppression(resp: Response, threshold: real, minDistance: int) returns (corners: seq<Point>)
    requires IsRect(resp)
    ensures forall p :: p in corners ==> InMargin(resp, p) && Selected(resp, p, threshold, minDistance)
    ensures forall p :: InMargin(resp, p) && Selected(resp, p, threshold, minDistance) ==> p in corners
    ensures forall i, j :: 0 <= i < j < |corners| ==> ScanBefore(corners[i], corners[j])
  {
    corners := [];
    var y := 10;
    while y < Height(resp) - 10
      invariant y >= 10
      invariant forall p :: p in corners ==> InMargin(resp, p) && Selected(resp, p, threshold, minDistance) && p.y < y
      invariant forall p :: InMargin(resp, p) && p.y < y && Selected(resp, p, threshold, minDistance) ==> p in corners
      invariant forall i, j :: 0 <= i < j < |corners| ==> ScanBefore(corners[i], corners[j])
    {
      var x := 10;
      while x < Width(resp) - 10
        invariant x >= 10
        invariant forall p :: p in corners ==> InMargin(resp, p) && Selected(resp, p, threshold, minDistance) && ScanBefore(p, Point(x, y))
        invariant forall p :: InMargin(resp, p) && ScanBefore(p, Point(x, y)) && Selected(resp, p, threshold, minDistance) ==> p in corners
        invariant forall i, j :: 0 <= i < j < |corners| ==> ScanBefore(corners[i], corners[j])
      {
        var p := Point(x, y);
        assert InMargin(resp, p);
        var response := resp[y][x];
        var keep := false;
        if response > threshold {
          var local := IsLocalMaximum(resp, x, y);
          if local {
            keep := IsStrongestResponseWithinDistance(resp, x, y, minDistance);
          }
        }
        assert keep <==> Selected(resp, p, threshold, minDistance);
        if keep {
          corners := corners + [p];
        }
        x := x + 1;
      }
      y := y + 1;
    }
  }

  /** With a reach of at least one pixel the wider test implies the 3-by-3 one,
      so the 3-by-3 test never rejects a point the wider test keeps. */
  lemma StrongestImpliesLocalMax(resp: Response, p: Point, minDistance: int)
    requires IsRect(resp) && InMargin(resp, p) && minDistance >= 1
    requires StrongestWithin(resp, p.x, p.y, minDistance)
    ensures LocalMax(resp, p.x, p.y)
  {
  }

  /** Equal maxima are not thinned out: on a flat response above the
      threshold every point inside the margin is selected. */
  lemma FlatResponseSelectsAll(resp: Response, v: real, threshold: real, minDistance: int, p: Point)
    requires IsRect(resp) && forall r, c :: 0 <= r < Height(resp) && 0 <= c < Width(resp) ==> resp[r][c] == v
    requires v > threshold && InMargin(resp, p)
    ensures Selected(resp, p, threshold, minDistance)
  {
  }
}
