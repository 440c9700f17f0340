/** Immutable pixel grids and the small numeric helpers every stage shares.
    A grid is a sequence of rows; `g[y][x]` is the pixel in row `y`, column `x`. */
module Images {

  /** A single-channel image with integer pixels (bytes, or the exact integer
      values of a float image). */
  type Grid = seq<seq<int>>

  /** A System.Drawing.Point. */
  datatype Point = Point(x: int, y: int)

  /** One pixel of an Image<Bgr, byte>. */
  datatype Bgr = Bgr(blue: int, green: int, red: int)

  /** An Image<Bgr, byte>. */
  type BgrImage = seq<seq<Bgr>>

  function Height<T>(g: seq<seq<T>>): nat {
    |g|
  }

  function Width<T>(g: seq<seq<T>>): nat {
    if |g| == 0 then 0 else |g[0]|
  }

  /** Every row has the width of the first one. */
  predicate IsRect<T>(g: seq<seq<T>>) {
    forall y :: 0 <= y < |g| ==> |g[y]| == Width(g)
  }

  predicate HasShape<T>(g: seq<seq<T>>, w: nat, h: nat) {
    |g| == h && forall y :: 0 <= y < h ==> |g[y]| == w
  }

  predicate IsByte(v: int) {
    0 <= v <= 255
  }

  predicate IsByteGrid(g: Grid) {
    IsRect(g) && forall y, x :: 0 <= y < |g| && 0 <= x < |g[y]| ==> IsByte(g[y][x])
  }

  /** Every pixel is 0 or 255, as in a mask. */
  predicate IsBinary(g: Grid) {
    forall y, x :: 0 <= y < |g| && 0 <= x < |g[y]| ==> g[y][x] == 0 || g[y][x] == 255
  }

  function Min(a: int, b: int): int {
    if a <= b then a else b
  }

  function Max(a: int, b: int): int {
    if a >= b then a else b
  }

  /** C#'s integer division, which truncates toward zero (Dafny's `/` is
      Euclidean, so the two differ when an operand is negative). */
  function CDiv(a: int, b: int): (q: int)
    requires b != 0
    ensures Truncates(a, b, q)
    ensures a >= 0 && b > 0 ==> q == a / b
  {
    QuotientTruncates(a, b);
    if (a >= 0) == (b > 0) then Abs(a) / Abs(b) else -(Abs(a) / Abs(b))
  }

  /** `q` is the quotient of `a` by `b` rounded toward zero: `q * b` is the
      multiple of `b` nearest to `a` on the side of zero, and never of the
      opposite sign to `a`. */
  predicate Truncates(a: int, b: int, q: int) {
    && Abs(q * b) <= Abs(a) < Abs(q * b) + Abs(b)
    && (q * b == 0 || (q * b < 0 <==> a < 0))
  }

  /** The quotient of the magnitudes, signed by the operands' signs, rounds toward zero. */
  lemma QuotientTruncates(a: int, b: int)
    requires b != 0
    ensures var n := Abs(a) / Abs(b);
      Truncates(a, b, if (a >= 0) == (b > 0) then n else -n)
  {
    var n := Abs(a) / Abs(b);
    DivOfNatural(Abs(a), Abs(b));
    assert n * Abs(b) <= Abs(a) < n * Abs(b) + Abs(b);
    SignedQuotient(a, b, n, if (a >= 0) == (b > 0) then n else -n);
  }

  /** Euclidean division of a natural number by a positive one. */
  lemma DivOfNatural(x: int, d: int)
    requires 0 <= x && 0 < d
    ensures 0 <= x / d && x == x / d * d + x % d && 0 <= x % d < d
  { }

  /** A magnitude `n` of quotient, signed by the operands' signs, rounds toward zero. */
  lemma SignedQuotient(a: int, b: int, n: int, q: int)
    requires b != 0 && 0 <= n && n * Abs(b) <= Abs(a) < n * Abs(b) + Abs(b)
    requires q == if (a >= 0) == (b > 0) then n else -n
    ensures Truncates(a, b, q)
  {
    AbsProduct(q, b);
    if n > 0 {
      MulAtLeast(n, Abs(b));
    }
  }

  /** Only one quotient rounds toward zero, so `CDiv` is C#'s `/` for every
      sign of the operands. */
  lemma TruncationIsUnique(a: int, b: int, q: int)
    requires b != 0 && Truncates(a, b, q)
    ensures q == CDiv(a, b)
  {
    AbsProduct(q, b);
    DivUnique(Abs(a), Abs(b), Abs(q), Abs(a) - Abs(q) * Abs(b));
    assert Abs(a) / Abs(b) == Abs(q);
    if q != 0 {
      MulAtLeast(Abs(q), Abs(b));
      assert a != 0;
    }
  }

  /** The magnitude and the sign of a product. */
  lemma AbsProduct(q: int, b: int)
    ensures Abs(q * b) == Abs(q) * Abs(b)
    ensures q * b == 0 <==> q == 0 || b == 0
    ensures q * b < 0 <==> (q < 0 && b > 0) || (q > 0 && b < 0)
  {
    if q < 0 && b < 0 {
      assert q * b == (-q) * (-b);
    } else if q < 0 {
      assert q * b == -((-q) * b);
    } else if b < 0 {
      assert q * b == -(q * (-b));
    }
  }

  /** C#'s `a / 2`: truncation toward zero. */
  function Half(a: int): (q: int)
    ensures a >= 0 ==> q == a / 2 && 2 * q <= a < 2 * q + 2
    ensures a < 0 ==> a <= 2 * q <= a + 1
  {
    if a >= 0 then a / 2 else -((-a) / 2)
  }

  /** `Half` is C#'s `/ 2` for every sign. */
  lemma HalfIsCDiv(a: int)
    ensures Half(a) == CDiv(a, 2)
  {
  }

  function Abs(a: int): nat {
    if a < 0 then -a else a
  }

  function RealAbs(a: real): real {
    if a < 0.0 then -a else a
  }

  /** `(byte)Math.Min(Math.Max(v, 0), 255)`: clamp into [0, 255], then the
      double-to-byte cast truncates toward zero. */
  function ClampToByte(v: real): (b: int)
    ensures IsByte(b)
    ensures 0.0 <= v <= 255.0 ==> b as real <= v < b as real + 1.0
    ensures v <= 0.0 ==> b == 0
    ensures v >= 255.0 ==> b == 255
  {
    if v <= 0.0 then 0 else if v >= 255.0 then 255 else v.Floor
  }

  /** The first position of the smallest value: what `list.IndexOf(list.Min())`
      and the first element of a stable `OrderBy` pick. */
  function FirstArgMin(s: seq<real>): (k: nat)
    requires |s| > 0
    ensures k < |s|
    ensures forall i :: 0 <= i < |s| ==> s[k] <= s[i]
    ensures forall i :: 0 <= i < k ==> s[i] > s[k]
  {
    if |s| == 1 then 0
    else
      var k := FirstArgMin(s[..|s| - 1]);
      if s[|s| - 1] < s[k] then |s| - 1 else k
  }

  /** The first position of the largest value: the first element of a stable
      `OrderByDescending`. */
  function FirstArgMax(s: seq<real>): (k: nat)
    requires |s| > 0
    ensures k < |s|
    ensures forall i :: 0 <= i < |s| ==> s[i] <= s[k]
    ensures forall i :: 0 <= i < k ==> s[i] < s[k]
  {
    if |s| == 1 then 0
    else
      var k := FirstArgMax(s[..|s| - 1]);
      if s[|s| - 1] > s[k] then |s| - 1 else k
  }

  lemma {:induction false} MulAtLeast(k: int, d: int)
    requires 1 <= k && 0 < d
    ensures k * d >= d
  {
    if k > 1 {
      MulAtLeast(k - 1, d);
      assert k * d == (k - 1) * d + d;
    }
  }

  /** Euclidean division is determined by any quotient-remainder pair. */
  lemma DivUnique(x: int, d: int, q: int, r: int)
    requires 0 < d && 0 <= r < d && x == q * d + r
    ensures x / d == q && x % d == r
  {
    var q', r' := x / d, x % d;
    assert x == q' * d + r';
    if q' > q {
      assert (q' - q) * d == q' * d - q * d;
      MulAtLeast(q' - q, d);
    } else if q > q' {
      assert (q - q') * d == q * d - q' * d;
      MulAtLeast(q - q', d);
    }
  }

  lemma MulDivCancel(a: int, d: int)
    requires 0 < d
    ensures (a * d) / d == a
  {
    DivUnique(a * d, d, a, 0);
  }
}
