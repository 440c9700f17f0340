/** Grey-level erosion and dilation with a square window: each output pixel
    is the minimum (maximum) of the in-bounds pixels of the size-by-size
    window starting `size / 2` above and to the left of it. */
module MorphOps {
  import opened Images

  /** The window of the pixel (y, x) for a given size, as the program reads it. */
  predicate InWindow(y: int, x: int, size: int, r: int, c: int) {
    y - Half(size) <= r < y - Half(size) + size && x - Half(size) <= c < x - Half(size) + size
  }

  /** Pixel (r, c) exists in the image. */
  predicate InImage(g: Grid, r: int, c: int) {
    0 <= r < |g| && 0 <= c < |g[r]|
  }

  // ---------------------------------------------------------------------------
  // Window minimum and maximum
  // ---------------------------------------------------------------------------

  /** The inner loop of erosion over columns `left .. left + n - 1` of one row,
      skipping columns outside the row. */
  function SegMin(row: seq<int>, left: int, n: nat, acc: int): (m: int)
    ensures m <= acc
    ensures forall c :: left <= c < left + n && 0 <= c < |row| ==> m <= row[c]
    ensures m == acc || exists c :: left <= c < left + n && 0 <= c < |row| && m == row[c]
  {
    if n == 0 then acc
    else
      var m := SegMin(row, left, n - 1, acc);
      var c := left + n - 1;
      if 0 <= c < |row| then Min(m, row[c]) else m
  }

  function SegMax(row: seq<int>, left: int, n: nat, acc: int): (m: int)
    ensures m >= acc
    ensures forall c :: left <= c < left + n && 0 <= c < |row| ==> m >= row[c]
    ensures m == acc || exists c :: left <= c < left + n && 0 <= c < |row| && m == row[c]
  {
    if n == 0 then acc
    else
      var m := SegMax(row, left, n - 1, acc);
      var c := left + n - 1;
      if 0 <= c < |row| then Max(m, row[c]) else m
  }

  /** The two window loops of erosion over the first `rows` rows of the
      window, starting from 255; rows outside the image are skipped. */
  function WinMin(g: Grid, top: int, left: int, size: nat, rows: nat): (m: int)
    ensures m <= 255
    ensures forall r, c :: top <= r < top + rows && left <= c < left + size && InImage(g, r, c) ==> m <= g[r][c]
    ensures m == 255 || exists r, c :: top <= r < top + rows && left <= c < left + size && InImage(g, r, c) && m == g[r][c]
  {
    if rows == 0 then 255
    else
      var acc := WinMin(g, top, left, size, rows - 1);
      var r := top + rows - 1;
      if 0 <= r < |g| then SegMin(g[r], left, size, acc) else acc
  }

  /** The same for dilation, starting from 0. */
  function WinMax(g: Grid, top: int, left: int, size: nat, rows: nat): (m: int)
    ensures m >= 0
    ensures forall r, c :: top <= r < top + rows && left <= c < left + size && InImage(g, r, c) ==> m >= g[r][c]
    ensures m == 0 || exists r, c :: top <= r < top + rows && left <= c < left + size && InImage(g, r, c) && m == g[r][c]
  {
    if rows == 0 then 0
    else
      var acc := WinMax(g, top, left, size, rows - 1);
      var r := top + rows - 1;
      if 0 <= r < |g| then SegMax(g[r], left, size, acc) else acc
  }

  /** A negative size runs no window loop. */
  function Span(size: int): nat {
    if size < 0 then 0 else size
  }

  // ---------------------------------------------------------------------------
  // Erosion and dilation
  // ---------------------------------------------------------------------------

  function ErodedPixel(g: Grid, y: int, x: int, size: int): (m: int)
    ensures m <= 255
    ensures forall r, c :: InWindow(y, x, size, r, c) && InImage(g, r, c) ==> m <= g[r][c]
    ensures m == 255 || exists r, c :: InWindow(y, x, size, r, c) && InImage(g, r, c) && m == g[r][c]
  {
    WinMin(g, y - Half(size), x - Half(size), Span(size), Span(size))
  }

  function DilatedPixel(g: Grid, y: int, x: int, size: int): (m: int)
    ensures m >= 0
    ensures forall r, c :: InWindow(y, x, size, r, c) && InImage(g, r, c) ==> m >= g[r][c]
    ensures m == 0 || exists r, c :: InWindow(y, x, size, r, c) && InImage(g, r, c) && m == g[r][c]
  {
    WinMax(g, y - Half(size), x - Half(size), Span(size), Span(size))
  }

  /** Each pixel becomes the minimum of 255 and the window's in-bounds pixels. */
  function Erosion(g: Grid, size: int): (r: Grid)
    requires IsRect(g)
    ensures HasShape(r, Width(g), Height(g))
    ensures forall y, x :: 0 <= y < Height(g) && 0 <= x < Width(g) ==> r[y][x] == ErodedPixel(g, y, x, size)
  {
    seq(Height(g), y requires 0 <= y < Height(g) => seq(Width(g), x requires 0 <= x < Width(g) => ErodedPixel(g, y, x, size)))
  }

  /** Each pixel becomes the maximum of 0 and the window's in-bounds pixels. */
  function Dilation(g: Grid, size: int): (r: Grid)
    requires IsRect(g)
    ensures HasShape(r, Width(g), Height(g))
    ensures forall y, x :: 0 <= y < Height(g) && 0 <= x < Width(g) ==> r[y][x] == DilatedPixel(g, y, x, size)
  {
    seq(Height(g), y requires 0 <= y < Height(g) => seq(Width(g), x requires 0 <= x < Width(g) => DilatedPixel(g, y, x, size)))
  }

  // ---------------------------------------------------------------------------
  // Lattice properties
  // ---------------------------------------------------------------------------

  /** For a positive size the window holds its own centre pixel. */
  lemma CentreInWindow(y: int, x: int, size: int)
    requires size >= 1
    ensures InWindow(y, x, size, y, x)
  {
  }

  /** Erosion never raises and dilation never lowers a pixel. */
  lemma ErosionBelowDilationAbove(g: Grid, size: int)
    requires IsRect(g) && size >= 1
    ensures forall y, x :: 0 <= y < Height(g) && 0 <= x < Width(g) ==>
      Erosion(g, size)[y][x] <= g[y][x] <= Dilation(g, size)[y][x]
  {
    forall y, x | 0 <= y < Height(g) && 0 <= x < Width(g)
      ensures Erosion(g, size)[y][x] <= g[y][x] <= Dilation(g, size)[y][x]
    {
      CentreInWindow(y, x, size);
    }
  }

  /** With size 1 the window is the pixel itself: a byte image is unchanged. */
  lemma SizeOneIsIdentity(g: Grid)
    requires IsByteGrid(g)
    ensures Erosion(g, 1) == g && Dilation(g, 1) == g
  {
    var e, d := Erosion(g, 1), Dilation(g, 1);
    forall y | 0 <= y < Height(g) ensures e[y] == g[y] && d[y] == g[y] {
      forall x | 0 <= x < Width(g) ensures e[y][x] == g[y][x] && d[y][x] == g[y][x] {
        CentreInWindow(y, x, 1);
      }
    }
    assert e == g && d == g;
  }

  /** Every pixel has the same byte value. */
  predicate IsConstant(g: Grid, v: int) {
    forall y, x :: 0 <= y < |g| && 0 <= x < |g[y]| ==> g[y][x] == v
  }

  /** A constant byte image is a fixed point of both operations. */
  lemma ConstantIsFixed(g: Grid, v: int, size: int)
    requires IsRect(g) && IsConstant(g, v) && IsByte(v) && size >= 1
    ensures Erosion(g, size) == g && Dilation(g, size) == g
  {
    var e, d := Erosion(g, size), Dilation(g, size);
    forall y | 0 <= y < Height(g) ensures e[y] == g[y] && d[y] == g[y] {
      forall x | 0 <= x < Width(g) ensures e[y][x] == g[y][x] && d[y][x] == g[y][x] {
        CentreInWindow(y, x, size);
      }
    }
    assert e == g && d == g;
  }

  /** `a` lies pixelwise below `b`, both of the same shape. */
  predicate Below(a: Grid, b: Grid) {
    && |a| == |b|
    && (forall y :: 0 <= y < |a| ==> |a[y]| == |b[y]|)
    && forall y, x :: 0 <= y < |a| && 0 <= x < |a[y]| ==> a[y][x] <= b[y][x]
  }

  /** Both operations are monotone. */
  lemma Monotone(a: Grid, b: Grid, size: int)
    requires IsRect(a) && IsRect(b) && Below(a, b)
    ensures Below(Erosion(a, size), Erosion(b, size))
    ensures Below(Dilation(a, size), Dilation(b, size))
  {
    forall y, x | 0 <= y < Height(a) && 0 <= x < Width(a)
      ensures Erosion(a, size)[y][x] <= Erosion(b, size)[y][x]
      ensures Dilation(a, size)[y][x] <= Dilation(b, size)[y][x]
    {
      var eb := ErodedPixel(b, y, x, size);
      if eb != 255 {
        var r, c :| InWindow(y, x, size, r, c) && InImage(b, r, c) && eb == b[r][c];
        assert InImage(a, r, c);
      }
      var da := DilatedPixel(a, y, x, size);
      if da != 0 {
        var r, c :| InWindow(y, x, size, r, c) && InImage(a, r, c) && da == a[r][c];
        assert InImage(b, r, c);
      }
    }
  }

  /** The photographic negative `255 - v` of every pixel. */
  function Negative(g: Grid): (r: Grid)
    ensures |r| == |g| && forall y :: 0 <= y < |g| ==> |r[y]| == |g[y]|
    ensures forall y, x :: 0 <= y < |g| && 0 <= x < |g[y]| ==> r[y][x] == 255 - g[y][x]
  {
    seq(|g|, y requires 0 <= y < |g| => seq(|g[y]|, x requires 0 <= x < |g[y]| => 255 - g[y][x]))
  }

  /** Erosion is dilation seen through the negative. */
  lemma ErosionDilationDuality(g: Grid, size: int)
    requires IsRect(g)
    ensures IsRect(Negative(g))
    ensures Erosion(g, size) == Negative(Dilation(Negative(g), size))
  {
    var n := Negative(g);
    var e, d := Erosion(g, size), Negative(Dilation(n, size));
    forall y | 0 <= y < Height(g) ensures e[y] == d[y] {
      forall x | 0 <= x < Width(g) ensures e[y][x] == d[y][x] {
        var m, M := ErodedPixel(g, y, x, size), DilatedPixel(n, y, x, size);
        assert m <= 255 - M by {
          if M != 0 {
            var r, c :| InWindow(y, x, size, r, c) && InImage(n, r, c) && M == n[r][c];
          }
        }
        assert m >= 255 - M by {
          if m != 255 {
            var r, c :| InWindow(y, x, size, r, c) && InImage(g, r, c) && m == g[r][c];
          }
        }
      }
    }
    assert e == d;
  }
}
