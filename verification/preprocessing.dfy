/** The matrix helpers of the projective transform, the vector-median
    denoiser and the second copy of the mask-to-face encoder. Matrices are
    lists of rows of reals; the doubles of the program are read as exact reals. */
module Preprocessing {
  import opened Results
  import opened Images
  import Facelets

  type Matrix = seq<seq<real>>

  /** The n-by-n identity matrix. */
  function Identity(n: nat): (m: Matrix)
    ensures HasShape(m, n, n)
    ensures forall i, j :: 0 <= i < n && 0 <= j < n ==> m[i][j] == if i == j then 1.0 else 0.0
  {
    seq(n, i requires 0 <= i < n => seq(n, j requires 0 <= j < n => if i == j then 1.0 else 0.0))
  }

  // ---------------------------------------------------------------------------
  // Matrix product
  // ---------------------------------------------------------------------------

  /** `sum_{k < n} a[k] * b[k][j]`, accumulated in increasing `k`. */
  function Dot(a: seq<real>, b: Matrix, j: int, n: nat): real
    requires n <= |a| && n <= |b| && 0 <= j
    requires forall k :: 0 <= k < n ==> j < |b[k]|
  {
    if n == 0 then 0.0 else Dot(a, b, j, n - 1) + a[n - 1] * b[n - 1][j]
  }

  /** The sizes are read from the first rows, so both matrices must have one,
      the inner sizes must agree, and every entry the loops read must exist
      (no entry is read when the second matrix has no columns). */
  predicate Conformable(a: Matrix, b: Matrix) {
    && |a| > 0 && |b| > 0 && |a[0]| == |b|
    && (|b[0]| > 0 ==>
         (forall i :: 0 <= i < |a| ==> |a[i]| >= |a[0]|) && (forall k :: 0 <= k < |b| ==> |b[k]| >= |b[0]|))
  }

  /** The `aRows x bCols` product; `InvalidOperationException` when the inner
      sizes differ, and a list index out of range for a missing first row or a
      short row. */
  function MultiplyMatrices(a: Matrix, b: Matrix): (r: Result<Matrix>)
    ensures r.Ok? <==> Conformable(a, b)
    ensures |a| > 0 && |b| > 0 && |a[0]| != |b| ==> r == Err(InvalidOperation)
    ensures r.Ok? ==> HasShape(r.value, |b[0]|, |a|)
  {
    if |a| == 0 || |b| == 0 then Err(ArgumentOutOfRange)
    else if |a[0]| != |b| then Err(InvalidOperation)
    else if !Conformable(a, b) then Err(ArgumentOutOfRange)
    else
      var n := |a[0]|;
      Ok(seq(|a|, i requires 0 <= i < |a| => seq(|b[0]|, j requires 0 <= j < |b[0]| => Dot(a[i], b, j, n))))
  }

  lemma {:induction false} DotIdentityLeft(b: Matrix, i: nat, j: nat, m: nat, n: nat)
    requires m <= n && i < n && |b| == n && forall k :: 0 <= k < n ==> j < |b[k]|
    ensures Dot(Identity(n)[i], b, j, m) == if i < m then b[i][j] else 0.0
  {
    if m > 0 {
      DotIdentityLeft(b, i, j, m - 1, n);
    }
  }

  lemma {:induction false} DotIdentityRight(a: seq<real>, j: nat, m: nat, n: nat)
    requires m <= n && j < n && |a| >= n
    ensures Dot(a, Identity(n), j, m) == if j < m then a[j] else 0.0
  {
    if m > 0 {
      DotIdentityRight(a, j, m - 1, n);
    }
  }

  /** The identity is a unit on both sides of the product. */
  lemma MultiplyByIdentity(a: Matrix, n: nat, m: nat)
    requires 0 < n && 0 < m && HasShape(a, m, n)
    ensures MultiplyMatrices(Identity(n), a) == Ok(a)
    ensures MultiplyMatrices(a, Identity(m)) == Ok(a)
  {
    var l := MultiplyMatrices(Identity(n), a).value;
    forall i | 0 <= i < n ensures l[i] == a[i] {
      forall j | 0 <= j < m ensures l[i][j] == a[i][j] {
        DotIdentityLeft(a, i, j, n, n);
      }
    }
    assert l == a;
    var r := MultiplyMatrices(a, Identity(m)).value;
    forall i | 0 <= i < n ensures r[i] == a[i] {
      forall j | 0 <= j < m ensures r[i][j] == a[i][j] {
        DotIdentityRight(a[i], j, m, m);
      }
    }
    assert r == a;
  }

  // ---------------------------------------------------------------------------
  // Gauss-Jordan inversion without row exchanges
  // ---------------------------------------------------------------------------

  /** `[m | I]`, the n-by-2n augmented matrix. */
  function Augment(m: Matrix, n: nat): (g: Matrix)
    requires |m| == n && forall i :: 0 <= i < n ==> |m[i]| >= n
    ensures HasShape(g, 2 * n, n)
  {
    seq(n, i requires 0 <= i < n => seq(2 * n, j requires 0 <= j < 2 * n =>
      if j < n then m[i][j] else if j - n == i then 1.0 else 0.0))
  }

  /** Row `i` divided by its pivot. */
  function ScaledRow(g: Matrix, i: nat, n: nat): (row: seq<real>)
    requires HasShape(g, 2 * n, n) && i < n && g[i][i] != 0.0
    ensures |row| == 2 * n
  {
    seq(2 * n, j requires 0 <= j < 2 * n => g[i][j] / g[i][i])
  }

  /** Step `i`: scale row `i` so its pivot is 1, then subtract from every
      other row its column-`i` entry times the scaled row. A zero pivot
      throws; rows are never exchanged. */
  function Eliminate(g: Matrix, i: nat, n: nat): (r: Result<Matrix>)
    requires HasShape(g, 2 * n, n) && i < n
    ensures r.Err? <==> g[i][i] == 0.0
    ensures r.Ok? ==> HasShape(r.value, 2 * n, n) && r.value[i][i] == 1.0
    ensures r.Ok? ==> forall k :: 0 <= k < n && k != i ==> r.value[k][i] == 0.0
  {
    if g[i][i] == 0.0 then Err(InvalidOperation)
    else
      var pivotRow := ScaledRow(g, i, n);
      Ok(seq(n, k requires 0 <= k < n =>
        if k == i then pivotRow
        else seq(2 * n, j requires 0 <= j < 2 * n => g[k][j] - g[k][i] * pivotRow[j])))
  }

  /** Steps `i` to `n - 1`. */
  function GaussJordan(g: Matrix, i: nat, n: nat): (r: Result<Matrix>)
    requires HasShape(g, 2 * n, n) && i <= n
    ensures r.Ok? ==> HasShape(r.value, 2 * n, n)
    decreases n - i
  {
    if i == n then Ok(g)
    else
      var next :- Eliminate(g, i, n);
      GaussJordan(next, i + 1, n)
  }

  /** The right half of the reduced augmented matrix. A short row of the
      input throws while the augmented matrix is filled. */
  function InvertMatrix(m: Matrix): (r: Result<Matrix>)
    ensures (exists i :: 0 <= i < |m| && |m[i]| < |m|) ==> r == Err(ArgumentOutOfRange)
    ensures |m| > 0 && (forall i :: 0 <= i < |m| ==> |m[i]| >= |m|) && m[0][0] == 0.0 ==> r == Err(InvalidOperation)
    ensures r.Ok? ==> HasShape(r.value, |m|, |m|)
  {
    var n := |m|;
    if exists i :: 0 <= i < n && |m[i]| < n then Err(ArgumentOutOfRange)
    else
      var g :- GaussJordan(Augment(m, n), 0, n);
      Ok(seq(n, i requires 0 <= i < n => g[i][n..2 * n]))
  }

  /** A column that is already the pivot's unit column times `c` leaves the
      other rows alone: the step only divides row `i` by `c`. */
  lemma EliminateUnitColumn(g: Matrix, i: nat, n: nat)
    requires HasShape(g, 2 * n, n) && i < n && g[i][i] != 0.0
    requires forall k :: 0 <= k < n && k != i ==> g[k][i] == 0.0
    ensures Eliminate(g, i, n).Ok?
    ensures var r := Eliminate(g, i, n).value;
      && r[i] == ScaledRow(g, i, n)
      && forall k :: 0 <= k < n && k != i ==> r[k] == g[k]
  {
    var r := Eliminate(g, i, n).value;
    forall k | 0 <= k < n && k != i ensures r[k] == g[k] {
      assert forall j :: 0 <= j < 2 * n ==> r[k][j] == g[k][j];
    }
  }

  /** The augmented matrix of a diagonal matrix `diag(d)` after the first
      `i` steps: rows below `i` are reduced to `[e_k | e_k / d_k]`. */
  ghost predicate DiagonalStage(g: Matrix, d: seq<real>, i: nat, n: nat)
    requires |d| == n && forall k :: 0 <= k < n ==> d[k] != 0.0
  {
    && HasShape(g, 2 * n, n)
    && forall k, j :: 0 <= k < n && 0 <= j < 2 * n ==>
         g[k][j] == if j == k then (if k < i then 1.0 else d[k])
                    else if j == n + k then (if k < i then 1.0 / d[k] else 1.0)
                    else 0.0
  }

  function Diagonal(d: seq<real>): (m: Matrix)
    ensures HasShape(m, |d|, |d|)
  {
    seq(|d|, i requires 0 <= i < |d| => seq(|d|, j requires 0 <= j < |d| => if i == j then d[i] else 0.0))
  }

  lemma {:induction false} GaussJordanDiagonal(g: Matrix, d: seq<real>, i: nat, n: nat)
    requires |d| == n && i <= n && (forall k :: 0 <= k < n ==> d[k] != 0.0) && DiagonalStage(g, d, i, n)
    ensures GaussJordan(g, i, n).Ok? && DiagonalStage(GaussJordan(g, i, n).value, d, n, n)
    decreases n - i
  {
    if i < n {
      EliminateUnitColumn(g, i, n);
      var next := Eliminate(g, i, n).value;
      assert DiagonalStage(next, d, i + 1, n) by {
        forall k, j | 0 <= k < n && 0 <= j < 2 * n
          ensures next[k][j] == if j == k then (if k < i + 1 then 1.0 else d[k])
                                else if j == n + k then (if k < i + 1 then 1.0 / d[k] else 1.0)
                                else 0.0
        {
          if k == i {
            assert next[k][j] == g[i][j] / d[i];
          }
        }
      }
      GaussJordanDiagonal(next, d, i + 1, n);
    }
  }

  /** A diagonal matrix with nonzero entries inverts to the diagonal of the
      reciprocals; in particular the identity inverts to itself. */
  lemma InvertDiagonal(d: seq<real>)
    requires forall k :: 0 <= k < |d| ==> d[k] != 0.0
    ensures InvertMatrix(Diagonal(d)) == Ok(Diagonal(seq(|d|, k requires 0 <= k < |d| => 1.0 / d[k])))
  {
    var n := |d|;
    var m := Diagonal(d);
    var g := Augment(m, n);
    assert DiagonalStage(g, d, 0, n);
    GaussJordanDiagonal(g, d, 0, n);
    var h := GaussJordan(g, 0, n).value;
    var r := InvertMatrix(m).value;
    var inv := Diagonal(seq(n, k requires 0 <= k < n => 1.0 / d[k]));
    forall i | 0 <= i < n ensures r[i] == inv[i] {
      assert forall j :: 0 <= j < n ==> r[i][j] == h[i][n + j];
    }
    assert r == inv;
  }

  lemma InvertIdentity(n: nat)
    ensures InvertMatrix(Identity(n)) == Ok(Identity(n))
  {
    var d := seq(n, k requires 0 <= k < n => 1.0);
    assert Diagonal(d) == Identity(n);
    InvertDiagonal(d);
    assert Diagonal(seq(n, k requires 0 <= k < n => 1.0 / d[k])) == Identity(n);
  }

  /** Without row exchanges the swap matrix, its own inverse, is reported singular. */
  lemma SwapMatrixIsRejected()
    ensures InvertMatrix([[0.0, 1.0], [1.0, 0.0]]) == Err(InvalidOperation)
  {
  }

  // ---------------------------------------------------------------------------
  // The point matrices of the projective transform
  // ---------------------------------------------------------------------------

  /** The column vector `[x, y, 1]` of a point. */
  function TransformPointToMatrix(p: Point): (m: Matrix)
    ensures HasShape(m, 1, 3)
    ensures m[0][0] == p.x as real && m[1][0] == p.y as real && m[2][0] == 1.0
  {
    [[p.x as real], [p.y as real], [1.0]]
  }

  /** The x's and the y's of every point but the last, over a row of three ones. */
  function CalculatePMatrix(points: seq<Point>): (m: Matrix)
    ensures |m| == 3 && |m[0]| == |m[1]| == if |points| == 0 then 0 else |points| - 1
    ensures m[2] == [1.0, 1.0, 1.0]
    ensures forall i :: 0 <= i < |m[0]| ==> m[0][i] == points[i].x as real && m[1][i] == points[i].y as real
  {
    var k := if |points| == 0 then 0 else |points| - 1;
    [seq(k, i requires 0 <= i < k => points[i].x as real),
     seq(k, i requires 0 <= i < k => points[i].y as real),
     [1.0, 1.0, 1.0]]
  }

  /** For the four corners of a quadrilateral the P matrix is the 3x3 matrix
      of the homogeneous coordinates of the first three, one per column. */
  lemma PMatrixOfFourPoints(points: seq<Point>)
    requires |points| == 4
    ensures var m := CalculatePMatrix(points);
      && HasShape(m, 3, 3)
      && forall j :: 0 <= j < 3 ==> [m[0][j], m[1][j], m[2][j]] == [points[j].x as real, points[j].y as real, 1.0]
  {
  }

  /** `first^-1 * second`. */
  function CalculateBVector(first: Matrix, second: Matrix): (r: Result<Matrix>)
    ensures InvertMatrix(first).Err? ==> r == Err(InvertMatrix(first).error)
    ensures r.Ok? ==> |second| > 0 && HasShape(r.value, |second[0]|, |first|)
  {
    var inv :- InvertMatrix(first);
    MultiplyMatrices(inv, second)
  }

  /** For a 3x3 P matrix that inverts, b = P^-1 [x, y, 1] is a 3x1 column. */
  lemma BVectorIsColumn(p: Matrix, q: Point)
    requires InvertMatrix(p).Ok? && |p| == 3
    ensures CalculateBVector(p, TransformPointToMatrix(q)).Ok?
    ensures HasShape(CalculateBVector(p, TransformPointToMatrix(q)).value, 1, 3)
  {
  }

  /** Every entry multiplied by `number`. The program updates the argument in
      place and returns that same list, so the caller's matrix holds the result
      afterwards; here the updated value is returned. */
  function MultiplyNumberWithMatrix(number: real, m: Matrix): (r: Matrix)
    ensures |r| == |m| && forall i :: 0 <= i < |m| ==> |r[i]| == |m[i]|
    ensures forall i, j :: 0 <= i < |m| && 0 <= j < |m[i]| ==> r[i][j] == number * m[i][j]
  {
    seq(|m|, i requires 0 <= i < |m| => seq(|m[i]|, j requires 0 <= j < |m[i]| => number * m[i][j]))
  }

  /** Because the argument itself is updated, scaling the same matrix twice
      compounds: it is one scaling by the product. Scaling by one changes nothing. */
  lemma ScalingCompounds(a: real, b: real, m: Matrix)
    ensures MultiplyNumberWithMatrix(a, MultiplyNumberWithMatrix(b, m)) == MultiplyNumberWithMatrix(a * b, m)
    ensures MultiplyNumberWithMatrix(1.0, m) == m
  {
    var l, r := MultiplyNumberWithMatrix(a, MultiplyNumberWithMatrix(b, m)), MultiplyNumberWithMatrix(a * b, m);
    forall i | 0 <= i < |m| ensures l[i] == r[i] {
      assert forall j :: 0 <= j < |m[i]| ==> l[i][j] == r[i][j];
    }
    assert l == r;
    var one := MultiplyNumberWithMatrix(1.0, m);
    forall i | 0 <= i < |m| ensures one[i] == m[i] {
      assert forall j :: 0 <= j < |m[i]| ==> one[i][j] == m[i][j];
    }
    assert one == m;
  }

  // ---------------------------------------------------------------------------
  // Vector-median denoising
  // ---------------------------------------------------------------------------

  /** The colour distance of the program (a Euclidean distance in float), abstracted. */
  type Distance = (Bgr, Bgr) -> real

  /** The 25 pixels of the 5x5 window centred on (x, y), row by row. */
  function Window(img: BgrImage, x: int, y: int): (w: seq<Bgr>)
    requires IsRect(img) && 2 <= y < Height(img) - 2 && 2 <= x < Width(img) - 2
    ensures |w| == 25
    ensures forall k :: 0 <= k < 25 ==> w[k] == img[y - 2 + k / 5][x - 2 + k % 5]
  {
    seq(25, k requires 0 <= k < 25 => img[y - 2 + k / 5][x - 2 + k % 5])
  }

  /** Distances are filled for i < j and mirrored; the diagonal keeps the
      zero of a fresh array. */
  function DistanceMatrix(w: seq<Bgr>, dist: Distance): (d: Matrix)
    ensures HasShape(d, |w|, |w|)
    ensures forall i, j :: 0 <= i < |w| && 0 <= j < |w| ==> d[i][j] == d[j][i]
    ensures forall i :: 0 <= i < |w| ==> d[i][i] == 0.0
    ensures forall i, j :: 0 <= i < j < |w| ==> d[i][j] == dist(w[i], w[j])
  {
    seq(|w|, i requires 0 <= i < |w| => seq(|w|, j requires 0 <= j < |w| =>
      if i < j then dist(w[i], w[j]) else if j < i then dist(w[j], w[i]) else 0.0))
  }

  function Sum(s: seq<real>): real {
    if |s| == 0 then 0.0 else Sum(s[..|s| - 1]) + s[|s| - 1]
  }

  /** The window index whose summed distance to the other 24 pixels is the
      smallest, the first one on a tie. */
  function NewColor(d: Matrix): (k: nat)
    requires |d| > 0
    ensures k < |d|
  {
    FirstArgMin(seq(|d|, i requires 0 <= i < |d| => Sum(d[i])))
  }

  /** The chosen index is a minimiser of the row sums and no earlier index is one. */
  lemma NewColorIsFirstMinimiser(d: Matrix)
    requires |d| > 0
    ensures forall i :: 0 <= i < |d| ==> Sum(d[NewColor(d)]) <= Sum(d[i])
    ensures forall i :: 0 <= i < NewColor(d) ==> Sum(d[i]) > Sum(d[NewColor(d)])
  {
    var sums := seq(|d|, i requires 0 <= i < |d| => Sum(d[i]));
    assert forall i :: 0 <= i < |d| ==> sums[i] == Sum(d[i]);
  }

  /** The vector median of the window around (x, y). */
  function DenoisedPixel(img: BgrImage, x: int, y: int, dist: Distance): (p: Bgr)
    requires IsRect(img) && 2 <= y < Height(img) - 2 && 2 <= x < Width(img) - 2
    ensures exists k :: 0 <= k < 25 && p == img[y - 2 + k / 5][x - 2 + k % 5]
  {
    var w := Window(img, x, y);
    var k := NewColor(DistanceMatrix(w, dist));
    assert w[k] == img[y - 2 + k / 5][x - 2 + k % 5];
    w[k]
  }

  /** A pixel of the output: the vector median at least two away from every
      edge, black otherwise. */
  function OutputPixel(img: BgrImage, x: int, y: int, dist: Distance): (p: Bgr)
    requires IsRect(img) && 0 <= y < Height(img) && 0 <= x < Width(img)
    ensures if 2 <= y < Height(img) - 2 && 2 <= x < Width(img) - 2
      then exists k :: 0 <= k < 25 && p == img[y - 2 + k / 5][x - 2 + k % 5]
      else p == Bgr(0, 0, 0)
  {
    if 2 <= y < Height(img) - 2 && 2 <= x < Width(img) - 2 then DenoisedPixel(img, x, y, dist) else Bgr(0, 0, 0)
  }

  /** A new black image of the input's size whose pixels at least two away
      from every edge are replaced by the vector median of their 5x5 window. */
  function Denoising(img: BgrImage, dist: Distance): (r: BgrImage)
    requires IsRect(img)
    ensures HasShape(r, Width(img), Height(img))
    ensures forall y, x :: 0 <= y < Height(img) && 0 <= x < Width(img) ==>
      if 2 <= y < Height(img) - 2 && 2 <= x < Width(img) - 2
      then exists k :: 0 <= k < 25 && r[y][x] == img[y - 2 + k / 5][x - 2 + k % 5]
      else r[y][x] == Bgr(0, 0, 0)
  {
    seq(Height(img), y requires 0 <= y < Height(img) =>
      seq(Width(img), x requires 0 <= x < Width(img) => OutputPixel(img, x, y, dist)))
  }

  /** The interior pixel is the window pixel whose summed distance to the
      window is smallest, the first in row-major order on a tie. */
  lemma DenoisingPicksVectorMedian(img: BgrImage, dist: Distance, x: int, y: int)
    requires IsRect(img) && 2 <= y < Height(img) - 2 && 2 <= x < Width(img) - 2
    ensures var w := Window(img, x, y);
      var d := DistanceMatrix(w, dist);
      exists k :: 0 <= k < 25 && Denoising(img, dist)[y][x] == w[k]
        && (forall i :: 0 <= i < 25 ==> Sum(d[k]) <= Sum(d[i]))
        && (forall i :: 0 <= i < k ==> Sum(d[i]) > Sum(d[k]))
  {
    var w := Window(img, x, y);
    var d := DistanceMatrix(w, dist);
    NewColorIsFirstMinimiser(d);
    var k := NewColor(d);
    assert Denoising(img, dist)[y][x] == w[k];
  }

  // ---------------------------------------------------------------------------
  // The second copy of the mask-to-face encoder
  // ---------------------------------------------------------------------------

  /** This copy always keeps the suffix after the replaced position, so the
      position must be a character of the string: the last position is
      handled like the others and one past the end throws. */
  function InsertInString(s: string, i: int, j: int, inc: int, rep: string): (r: Result<string>)
    ensures inc != 0 && |rep| == 1 && 0 <= Facelets.CellPosition(i, j, inc) < |s| ==>
      && r.Ok?
      && |r.value| == |s|
      && r.value[Facelets.CellPosition(i, j, inc)] == rep[0]
      && forall k :: 0 <= k < |s| && k != Facelets.CellPosition(i, j, inc) ==> r.value[k] == s[k]
    ensures r.Ok? <==> inc != 0 && 0 <= Facelets.CellPosition(i, j, inc) < |s|
  {
    if inc == 0 then Err(DivideByZero)
    else
      var pos := CDiv(i, inc) * 3 + CDiv(j, inc);
      if pos < 0 || pos > |s| || pos + 1 > |s| then Err(ArgumentOutOfRange)
      else Ok(s[..pos] + rep + s[pos + 1..])
  }

  /** One in-range call of the inserter is a single-character update. */
  lemma InsertAtCell(s: string, i: int, j: int, inc: int, rep: string)
    requires inc != 0 && |rep| == 1 && 0 <= Facelets.CellPosition(i, j, inc) < |s|
    ensures InsertInString(s, i, j, inc, rep) == Ok(s[Facelets.CellPosition(i, j, inc) := rep[0]])
  {
    var r := InsertInString(s, i, j, inc, rep).value;
    assert r == s[Facelets.CellPosition(i, j, inc) := rep[0]];
  }

  lemma InsertInStringReplacesCell()
    ensures Facelets.ReplacesCell(InsertInString)
  {
    forall s: string, i: int, j: int, inc: int, rep: string |
      inc != 0 && |rep| == 1 && 0 <= Facelets.CellPosition(i, j, inc) < |s|
      ensures InsertInString(s, i, j, inc, rep) == Ok(s[Facelets.CellPosition(i, j, inc) := rep[0]])
    {
      InsertAtCell(s, i, j, inc, rep);
    }
  }

  /** The same scan as the first copy, with this copy's insertion. */
  function ConvertImageToString(mask: Grid, face: string, letter: string): (r: Result<string>)
    requires IsRect(mask) && Width(mask) >= 3
    ensures Facelets.SquareMask(mask) && |face| == 9 && |letter| == 1 ==>
      && r.Ok? && |r.value| == 9
      && forall k :: 0 <= k < 9 ==> r.value[k] == if Facelets.CellWinsAt(mask, k) then letter[0] else face[k]
  {
    var r := Facelets.ScanRows(mask, face, letter, Width(mask) / 3, 0, InsertInString);
    if Facelets.SquareMask(mask) && |face| == 9 && |letter| == 1 then
      InsertInStringReplacesCell();
      Facelets.EncodeSquareMask(mask, face, letter, InsertInString);
      r
    else
      r
  }

  /** On the masks the pipeline produces (square, at least 9 wide) the two
      copies of the encoder agree. */
  lemma EncodersAgreeOnSquareMasks(mask: Grid, face: string, letter: string)
    requires Facelets.SquareMask(mask) && |face| == 9 && |letter| == 1
    ensures ConvertImageToString(mask, face, letter) == Facelets.ConvertImageToString(mask, face, letter)
  {
    var a, b := ConvertImageToString(mask, face, letter).value, Facelets.ConvertImageToString(mask, face, letter).value;
    assert forall k :: 0 <= k < 9 ==> a[k] == b[k];
    assert a == b;
  }

  /** The copies differ one past the end of the string: the first appends
      the code, this one throws. */
  lemma InsertersDifferPastTheEnd(s: string, rep: string)
    ensures Facelets.InsertInString(s, 0, |s|, 1, rep) == Ok(s + rep)
    ensures InsertInString(s, 0, |s|, 1, rep) == Err(ArgumentOutOfRange)
  {
  }
}
