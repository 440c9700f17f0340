/** Cube-face cropping: the choice of four corners among the detected ones.
    Every 4-element combination of the corners is put in clockwise order,
    measured (shoelace area and a shape score), and the walk keeps the last
    combination that beat the best so far on both area and score. */
module CubeFaceCropping {
  import opened Images
  import opened Results

  // ---------------------------------------------------------------------------
  // Index combinations
  // ---------------------------------------------------------------------------

  /** `t` is a strictly increasing tuple of `size` indices into `count` items. */
  predicate Valid(t: seq<int>, count: int, size: int) {
    && |t| == size
    && (forall j :: 0 <= j < |t| ==> 0 <= t[j] < count)
    && (forall j :: 0 < j < |t| ==> t[j - 1] < t[j])
  }

  /** Entries of a valid tuple are at least as far apart as their positions. */
  lemma {:induction false} Spread(t: seq<int>, count: int, size: int, i: int, j: int)
    requires Valid(t, count, size) && 0 <= i <= j < size
    ensures t[j] - t[i] >= j - i
    decreases j
  {
    if j > i {
      Spread(t, count, size, i, j - 1);
    }
  }

  /** Position `j` of a valid tuple holds a value in [j, count - size + j]. */
  lemma Slot(t: seq<int>, count: int, size: int, j: int)
    requires Valid(t, count, size) && 0 <= j < size
    ensures j <= t[j] <= count - size + j
  {
    Spread(t, count, size, 0, j);
    Spread(t, count, size, j, size - 1);
  }

  /** The tuple the enumeration starts from: 0, 1, ..., size - 1. */
  function First(size: nat): (t: seq<int>)
    ensures |t| == size
  {
    seq(size, j => j)
  }

  /** The last tuple in lexicographic order: count - size, ..., count - 1. */
  function Final(count: int, size: nat): (t: seq<int>)
    ensures |t| == size
  {
    seq(size, j => count - size + j)
  }

  /** The inner `while` of the generator: the highest position at or below
      `k` that has not reached its largest value, or -1 when there is none. */
  function LastMovable(t: seq<int>, count: int, k: int): (i: int)
    requires -1 <= k < |t|
    ensures -1 <= i <= k
    ensures i >= 0 ==> t[i] != count - |t| + i
    ensures forall j :: i < j <= k ==> t[j] == count - |t| + j
    decreases k + 1
  {
    if k < 0 then -1
    else if t[k] == count - |t| + k then LastMovable(t, count, k - 1)
    else k
  }

  /** Position `i` goes up by one and every later position follows it. */
  function Advance(t: seq<int>, i: int): (r: seq<int>)
    requires 0 <= i < |t|
    ensures |r| == |t|
  {
    seq(|t|, j requires 0 <= j < |t| => if j < i then t[j] else t[i] + 1 + (j - i))
  }

  /** `a` comes strictly before `b` in lexicographic order. */
  predicate LexLess(a: seq<int>, b: seq<int>) {
    |a| == |b| && exists k :: 0 <= k < |a| && a[..k] == b[..k] && a[k] < b[k]
  }

  lemma LexLessTransitive(a: seq<int>, b: seq<int>, c: seq<int>)
    requires LexLess(a, b) && LexLess(b, c)
    ensures LexLess(a, c)
  {
    var k1 :| 0 <= k1 < |a| && a[..k1] == b[..k1] && a[k1] < b[k1];
    var k2 :| 0 <= k2 < |b| && b[..k2] == c[..k2] && b[k2] < c[k2];
    var k := Min(k1, k2);
    assert a[..k] == a[..k1][..k] == b[..k1][..k] == b[..k2][..k] == c[..k2][..k] == c[..k];
    if k1 < k2 {
      assert b[k1] == b[..k2][k1] == c[..k2][k1] == c[k1];
    } else if k2 < k1 {
      assert a[k2] == a[..k1][k2] == b[..k1][k2] == b[k2];
    }
  }

  /** Advancing a valid tuple at a movable position gives a valid tuple that
      comes after it. */
  lemma AdvanceIsValid(t: seq<int>, count: int, size: int, i: int)
    requires Valid(t, count, size) && 0 <= i < size && t[i] != count - size + i
    ensures Valid(Advance(t, i), count, size)
    ensures LexLess(t, Advance(t, i))
  {
    Slot(t, count, size, i);
    var a := Advance(t, i);
    forall j | 0 <= j < size ensures 0 <= a[j] < count {
      if j < i {
        assert a[j] == t[j];
      } else {
        assert a[j] == t[i] + 1 + (j - i);
      }
    }
    forall j | 0 < j < size ensures a[j - 1] < a[j] {
      if j < i {
        assert a[j - 1] == t[j - 1] && a[j] == t[j];
      } else if j == i {
        assert a[j - 1] == t[j - 1];
      }
    }
    assert a[..i] == t[..i];
  }

  // A Horner value in base count + 1 measures progress through the tuples.

  function Pow(b: int, n: nat): int {
    if n == 0 then 1 else b * Pow(b, n - 1)
  }

  /** The tuple read as a numeral in base `b`. */
  function Val(s: seq<int>, b: int): int {
    if |s| == 0 then 0 else Val(s[..|s| - 1], b) * b + s[|s| - 1]
  }

  lemma MulMonotone(x: int, y: int, p: int)
    requires x <= y && 0 <= p
    ensures x * p <= y * p
  {
    assert y * p - x * p == (y - x) * p;
  }

  lemma {:induction false} ValAppend(p: seq<int>, s: seq<int>, b: int)
    ensures Val(p + s, b) == Val(p, b) * Pow(b, |s|) + Val(s, b)
    decreases |s|
  {
    if |s| == 0 {
      assert p + s == p;
    } else {
      var s' := s[..|s| - 1];
      assert (p + s)[..|p + s| - 1] == p + s';
      ValAppend(p, s', b);
      calc {
        Val(p + s, b);
        Val(p + s', b) * b + s[|s| - 1];
        (Val(p, b) * Pow(b, |s'|) + Val(s', b)) * b + s[|s| - 1];
        { assert (Val(p, b) * Pow(b, |s'|)) * b == Val(p, b) * (b * Pow(b, |s'|)); }
        Val(p, b) * Pow(b, |s|) + (Val(s', b) * b + s[|s| - 1]);
      }
    }
  }

  /** A tuple of digits below `b` has a value below `b` to the power of its length. */
  lemma {:induction false} ValBound(s: seq<int>, b: int)
    requires b >= 1 && forall j :: 0 <= j < |s| ==> 0 <= s[j] < b
    ensures 0 <= Val(s, b) < Pow(b, |s|)
    decreases |s|
  {
    if |s| > 0 {
      var s' := s[..|s| - 1];
      ValBound(s', b);
      NextDigit(Val(s', b), Pow(b, |s'|), b, s[|s| - 1]);
    }
  }

  /** Appending a digit below `b` to a value below `p` stays below `b * p`. */
  lemma NextDigit(v: int, p: int, b: int, d: int)
    requires 0 <= v < p && 0 <= d < b
    ensures 0 <= v * b + d < b * p
  {
    MulMonotone(v, p - 1, b);
    MulMonotone(0, v, b);
    assert (p - 1) * b == b * p - b;
  }

  lemma PlaceValue(x: int, y: int, p: int, va: int, vc: int)
    requires x < y && 0 <= va < p && 0 <= vc
    ensures x * p + va < y * p + vc
  {
    MulMonotone(x + 1, y, p);
    assert (x + 1) * p == x * p + p;
  }

  /** Splitting a tuple at position `k` into its prefix, its `k`-th digit and the rest. */
  lemma ValAt(a: seq<int>, k: int, b: int)
    requires 0 <= k < |a|
    ensures Val(a, b) == (Val(a[..k], b) * b + a[k]) * Pow(b, |a| - k - 1) + Val(a[k + 1..], b)
  {
    var h := a[..k] + [a[k]];
    assert a == h + a[k + 1..];
    ValAppend(h, a[k + 1..], b);
    assert h[..|h| - 1] == a[..k];
  }

  /** On digits below `b`, lexicographic order is numeric order. */
  lemma LexLessValue(a: seq<int>, c: seq<int>, b: int)
    requires b >= 1 && LexLess(a, c)
    requires forall j :: 0 <= j < |a| ==> 0 <= a[j] < b
    requires forall j :: 0 <= j < |c| ==> 0 <= c[j] < b
    ensures Val(a, b) < Val(c, b)
  {
    var k :| 0 <= k < |a| && a[..k] == c[..k] && a[k] < c[k];
    DigitDecides(a, c, b, k);
  }

  lemma DigitDecides(a: seq<int>, c: seq<int>, b: int, k: int)
    requires b >= 1 && |a| == |c| && 0 <= k < |a| && a[..k] == c[..k] && a[k] < c[k]
    requires forall j :: 0 <= j < |a| ==> 0 <= a[j] < b
    requires forall j :: 0 <= j < |c| ==> 0 <= c[j] < b
    ensures Val(a, b) < Val(c, b)
  {
    ValAt(a, k, b);
    ValAt(c, k, b);
    ValBound(a[k + 1..], b);
    ValBound(c[k + 1..], b);
    PlaceValue(Val(a[..k], b) * b + a[k], Val(c[..k], b) * b + c[k], Pow(b, |a| - k - 1), Val(a[k + 1..], b), Val(c[k + 1..], b));
  }

  /** Termination measure of the enumeration. */
  function Remaining(t: seq<int>, count: int): int {
    Pow(count + 1, |t|) - Val(t, count + 1)
  }

  /** A later valid tuple has less remaining. */
  lemma RemainingDecreases(t: seq<int>, u: seq<int>, count: int, size: int)
    requires Valid(t, count, size) && Valid(u, count, size) && LexLess(t, u)
    ensures 0 <= Remaining(u, count) < Remaining(t, count)
  {
    ValBound(u, count + 1);
    LexLessValue(t, u, count + 1);
  }

  /** A tuple before the first of a sorted list stays sorted in front of it. */
  lemma Prepend(t: seq<int>, rest: seq<seq<int>>, count: int, size: int)
    requires Valid(t, count, size) && (|rest| > 0 ==> LexLess(t, rest[0]))
    requires forall k :: 0 <= k < |rest| ==> Valid(rest[k], count, size)
    requires forall k, l :: 0 <= k < l < |rest| ==> LexLess(rest[k], rest[l])
    ensures var r := [t] + rest;
      && (forall k :: 0 <= k < |r| ==> Valid(r[k], count, size))
      && (forall k :: 0 < k < |r| ==> LexLess(t, r[k]))
      && (forall k :: 0 < k < |r| ==> LexLess(r[k - 1], r[k]))
      && (forall k, l :: 0 <= k < l < |r| ==> LexLess(r[k], r[l]))
  {
    PrependValid(t, rest, count, size);
    PrependSorted(t, rest);
  }

  lemma PrependValid(t: seq<int>, rest: seq<seq<int>>, count: int, size: int)
    requires Valid(t, count, size)
    requires forall k :: 0 <= k < |rest| ==> Valid(rest[k], count, size)
    ensures var r := [t] + rest; forall k :: 0 <= k < |r| ==> Valid(r[k], count, size)
  {
    var r := [t] + rest;
    forall k | 0 <= k < |r| ensures Valid(r[k], count, size) {
      if k > 0 {
        assert r[k] == rest[k - 1];
      }
    }
  }

  lemma PrependSorted(t: seq<int>, rest: seq<seq<int>>)
    requires |rest| > 0 ==> LexLess(t, rest[0])
    requires forall k, l :: 0 <= k < l < |rest| ==> LexLess(rest[k], rest[l])
    ensures var r := [t] + rest;
      && (forall k :: 0 < k < |r| ==> LexLess(t, r[k]))
      && (forall k :: 0 < k < |r| ==> LexLess(r[k - 1], r[k]))
      && (forall k, l :: 0 <= k < l < |r| ==> LexLess(r[k], r[l]))
  {
    forall k | 0 < k < |rest| ensures LexLess(t, rest[k]) {
      LexLessTransitive(t, rest[0], rest[k]);
    }
    var r := [t] + rest;
    forall k, l | 0 <= k < l < |r| ensures LexLess(r[k], r[l]) {
      if k == 0 {
        assert r[l] == rest[l - 1];
      } else {
        assert r[k] == rest[k - 1] && r[l] == rest[l - 1];
      }
    }
    forall k | 0 < k < |r| ensures LexLess(t, r[k]) && LexLess(r[k - 1], r[k]) {
      assert r[0] == t && LexLess(r[0], r[k]) && LexLess(r[k - 1], r[k]);
    }
  }

  /** The `while` loop of the generator from tuple `t` on: `t` is yielded while
      `t[0] < count - size` (as written) or `t[0] <= count - size` (when
      `inclusive`), then advanced; the loop breaks when no position can move. */
  function Enumerate(t: seq<int>, count: int, size: int, inclusive: bool): (r: seq<seq<int>>)
    requires 1 <= size && Valid(t, count, size)
    ensures forall k :: 0 <= k < |r| ==> Valid(r[k], count, size)
    ensures |r| > 0 ==> r[0] == t
    ensures forall k :: 0 < k < |r| ==> LexLess(t, r[k])
    ensures forall k :: 0 < k < |r| ==> LexLess(r[k - 1], r[k])
    ensures forall k, l :: 0 <= k < l < |r| ==> LexLess(r[k], r[l])
    decreases Remaining(t, count)
  {
    if !(if inclusive then t[0] <= count - size else t[0] < count - size) then []
    else
      var i := LastMovable(t, count, size - 1);
      if i < 0 then [t]
      else
        AdvanceIsValid(t, count, size, i);
        RemainingDecreases(t, Advance(t, i), count, size);
        var rest := Enumerate(Advance(t, i), count, size, inclusive);
        Prepend(t, rest, count, size);
        [t] + rest
  }

  /** The index tuples `GetCombinations` yields (`inclusive` false) or, with
      the evidently intended bound, all of them (`inclusive` true). */
  function IndexCombinations(count: int, size: int, inclusive: bool): (r: seq<seq<int>>)
    ensures size > count || size < 1 ==> r == []
    ensures forall k :: 0 <= k < |r| ==> Valid(r[k], count, size)
    ensures forall k, l :: 0 <= k < l < |r| ==> LexLess(r[k], r[l])
  {
    if size > count || size < 1 then []
    else Enumerate(First(size), count, size, inclusive)
  }

  /** The corners an index tuple selects, in the tuple's order. */
  function Pick(corners: seq<Point>, t: seq<int>): (q: seq<Point>)
    requires forall j :: 0 <= j < |t| ==> 0 <= t[j] < |corners|
    ensures |q| == |t| && forall j :: 0 <= j < |t| ==> q[j] == corners[t[j]]
  {
    seq(|t|, j requires 0 <= j < |t| => corners[t[j]])
  }

  /** `GetCombinations`: each index tuple mapped to the corners it selects. */
  function GetCombinations(corners: seq<Point>, size: int, inclusive: bool): (r: seq<seq<Point>>)
    ensures var ts := IndexCombinations(|corners|, size, inclusive);
      |r| == |ts| && forall k :: 0 <= k < |r| ==> |r[k]| == size && r[k] == Pick(corners, ts[k])
  {
    var ts := IndexCombinations(|corners|, size, inclusive);
    seq(|ts|, k requires 0 <= k < |ts| => Pick(corners, ts[k]))
  }

  // ---------------------------------------------------------------------------
  // What the enumeration yields
  // ---------------------------------------------------------------------------

  /** The only valid tuple whose first index is count - size is the final one. */
  lemma FirstAtLimitIsFinal(t: seq<int>, count: int, size: int)
    requires 1 <= size && Valid(t, count, size)
    ensures t[0] == count - size <==> t == Final(count, size)
  {
    if t[0] == count - size {
      forall j | 0 <= j < size ensures t[j] == Final(count, size)[j] {
        Slot(t, count, size, j);
        Spread(t, count, size, 0, j);
      }
    }
  }

  /** No position of a valid tuple can move exactly when it is the final one. */
  lemma StuckIsFinal(t: seq<int>, count: int, size: int)
    requires 1 <= size && Valid(t, count, size)
    ensures LastMovable(t, count, size - 1) < 0 <==> t == Final(count, size)
  {
  }

  /** Every valid tuple is at or after the first one. */
  lemma FirstIsLeast(u: seq<int>, count: int, size: int)
    requires 1 <= size && Valid(u, count, size)
    ensures u == First(size) || LexLess(First(size), u)
  {
    if u != First(size) {
      var k :| 0 <= k < size && u[k] != First(size)[k];
      var m := FirstMismatch(First(size), u, k);
      Slot(u, count, size, m);
    }
  }

  /** The smallest position at or below `k` where `a` and `b` differ, given
      that they differ at `k`; they agree before it. */
  function FirstMismatch(a: seq<int>, b: seq<int>, k: nat): (m: nat)
    requires |a| == |b| && k < |a| && a[k] != b[k]
    ensures m <= k && a[m] != b[m] && a[..m] == b[..m]
  {
    if a[..k] == b[..k] then k
    else
      var j :| 0 <= j < k && a[j] != b[j];
      FirstMismatch(a, b, j)
  }

  /** A tuple that agrees with `t` below `i` comes before anything that `t`
      comes before at a position below `i`. */
  lemma BeforeMovable(t: seq<int>, u: seq<int>, a: seq<int>, i: int, k: int)
    requires |a| == |t| == |u| && 0 <= k < i <= |t|
    requires a[..i] == t[..i] && t[..k] == u[..k] && t[k] < u[k]
    ensures LexLess(a, u)
  {
    assert a[..k] == a[..i][..k] == t[..i][..k] == t[..k];
    assert a[k] == a[..i][k] == t[..i][k] == t[k];
  }

  /** A valid tuple that agrees with `a` below `i` and is at least `a[i]` at
      `i`, where `a` counts up by one from `i` on, is `a` or comes after it. */
  lemma AtMovable(u: seq<int>, a: seq<int>, count: int, size: int, i: int)
    requires Valid(u, count, size) && |a| == size && 0 <= i < size
    requires a[..i] == u[..i] && a[i] <= u[i]
    requires forall j :: i <= j < size ==> a[j] == a[i] + (j - i)
    ensures u == a || LexLess(a, u)
  {
    if u != a && a[i] == u[i] {
      var d :| 0 <= d < size && a[d] != u[d];
      var m := FirstMismatch(a, u, d);
      Spread(u, count, size, i, m);
    }
  }

  /** The advanced tuple is the next valid tuple: nothing valid lies strictly
      between `t` and it. */
  lemma AdvanceIsSuccessor(t: seq<int>, u: seq<int>, count: int, size: int)
    requires 1 <= size && Valid(t, count, size) && Valid(u, count, size) && LexLess(t, u)
    ensures LastMovable(t, count, size - 1) >= 0
    ensures var i := LastMovable(t, count, size - 1);
      u == Advance(t, i) || LexLess(Advance(t, i), u)
  {
    var i := LastMovable(t, count, size - 1);
    var k :| 0 <= k < size && t[..k] == u[..k] && t[k] < u[k];
    Slot(u, count, size, k);
    assert k <= i;
    var a := Advance(t, i);
    assert a[..i] == t[..i];
    if k < i {
      BeforeMovable(t, u, a, i, k);
    } else {
      AtMovable(u, a, count, size, i);
    }
  }

  /** The inclusive enumeration from `t` reaches every valid tuple at or after `t`. */
  lemma {:induction false} EnumerateComplete(t: seq<int>, u: seq<int>, count: int, size: int)
    requires 1 <= size && Valid(t, count, size) && Valid(u, count, size)
    requires u == t || LexLess(t, u)
    ensures u in Enumerate(t, count, size, true)
    decreases Remaining(t, count)
  {
    Slot(t, count, size, 0);
    if u != t {
      AdvanceIsSuccessor(t, u, count, size);
      var i := LastMovable(t, count, size - 1);
      AdvanceIsValid(t, count, size, i);
      RemainingDecreases(t, Advance(t, i), count, size);
      EnumerateComplete(Advance(t, i), u, count, size);
    }
  }

  /** As written, the enumeration is the inclusive one without its final tuple. */
  lemma {:induction false} EnumerateDropsFinal(t: seq<int>, count: int, size: int)
    requires 1 <= size && Valid(t, count, size)
    ensures Enumerate(t, count, size, true) == Enumerate(t, count, size, false) + [Final(count, size)]
    decreases Remaining(t, count)
  {
    Slot(t, count, size, 0);
    FirstAtLimitIsFinal(t, count, size);
    StuckIsFinal(t, count, size);
    var i := LastMovable(t, count, size - 1);
    if t[0] < count - size {
      AdvanceIsValid(t, count, size, i);
      RemainingDecreases(t, Advance(t, i), count, size);
      var next := Advance(t, i);
      EnumerateDropsFinal(next, count, size);
      EnumerateStep(t, count, size, true);
      EnumerateStep(t, count, size, false);
      ConsSnoc(t, Enumerate(next, count, size, false), Final(count, size));
    } else {
      EnumerateAtFinal(t, count, size);
    }
  }

  lemma ConsSnoc<T>(a: T, s: seq<T>, b: T)
    ensures [a] + (s + [b]) == ([a] + s) + [b]
  { }

  /** Below the limit, the enumeration yields `t` and goes on from its successor. */
  lemma EnumerateStep(t: seq<int>, count: int, size: int, inclusive: bool)
    requires 1 <= size && Valid(t, count, size) && t[0] < count - size
    ensures LastMovable(t, count, size - 1) >= 0
    ensures var i := LastMovable(t, count, size - 1);
      && Valid(Advance(t, i), count, size)
      && Enumerate(t, count, size, inclusive) == [t] + Enumerate(Advance(t, i), count, size, inclusive)
  {
    FirstAtLimitIsFinal(t, count, size);
    StuckIsFinal(t, count, size);
    AdvanceIsValid(t, count, size, LastMovable(t, count, size - 1));
  }

  /** From the final tuple the corrected loop yields it alone and the loop as written yields nothing. */
  lemma EnumerateAtFinal(t: seq<int>, count: int, size: int)
    requires 1 <= size && Valid(t, count, size) && count - size <= t[0]
    ensures t == Final(count, size)
    ensures Enumerate(t, count, size, true) == [t]
    ensures Enumerate(t, count, size, false) == []
  {
    Slot(t, count, size, 0);
    FirstAtLimitIsFinal(t, count, size);
    StuckIsFinal(t, count, size);
  }

  /** All valid tuples, each once, in lexicographic order, ending with the final one. */
  lemma AllCombinations(count: int, size: int)
    requires 1 <= size <= count
    ensures var r := IndexCombinations(count, size, true);
      && |r| > 0 && r[0] == First(size) && r[|r| - 1] == Final(count, size)
      && forall u :: Valid(u, count, size) ==> u in r
  {
    var f := First(size);
    assert Valid(f, count, size);
    EnumerateDropsFinal(f, count, size);
    forall u | Valid(u, count, size) ensures u in IndexCombinations(count, size, true) {
      ValidIsEnumerated(u, count, size);
    }
  }

  /** Every valid tuple follows the first one, so the walk from it meets it. */
  lemma ValidIsEnumerated(u: seq<int>, count: int, size: int)
    requires 1 <= size <= count && Valid(u, count, size)
    ensures u in IndexCombinations(count, size, true)
  {
    assert Valid(First(size), count, size);
    FirstIsLeast(u, count, size);
    EnumerateComplete(First(size), u, count, size);
  }

  /** `GetCombinations` as written misses exactly the final tuple, the last
      `size` items; with as many items as the size it yields nothing. */
  lemma CombinationsMissFinal(count: int, size: int)
    requires 1 <= size <= count
    ensures IndexCombinations(count, size, true) == IndexCombinations(count, size, false) + [Final(count, size)]
    ensures Final(count, size) !in IndexCombinations(count, size, false)
    ensures size == count ==> IndexCombinations(count, size, false) == []
  {
    var f := First(size);
    assert Valid(f, count, size);
    EnumerateDropsFinal(f, count, size);
    var r := IndexCombinations(count, size, true);
    var rf := IndexCombinations(count, size, false);
    forall k | 0 <= k < |rf| ensures rf[k] != Final(count, size) {
      assert LexLess(r[k], r[|r| - 1]);
    }
  }

  /** With as many corners as the size, the inclusive generator yields the
      corners themselves and the generator as written yields nothing. */
  lemma AllCornersOnly(corners: seq<Point>, size: int)
    requires 1 <= size == |corners|
    ensures GetCombinations(corners, size, true) == [corners]
    ensures GetCombinations(corners, size, false) == []
  {
    CombinationsMissFinal(size, size);
    var f := Final(size, size);
    assert Pick(corners, f) == corners;
  }

  // ---------------------------------------------------------------------------
  // Shoelace area
  // ---------------------------------------------------------------------------

  /** The z component of the cross product of two position vectors. */
  function Cross(p: Point, q: Point): int {
    p.x * q.y - p.y * q.x
  }

  /** The signed double area accumulated by the loop over the four edges. */
  function Shoelace(q: seq<Point>): int
    requires |q| == 4
  {
    Cross(q[0], q[1]) + Cross(q[1], q[2]) + Cross(q[2], q[3]) + Cross(q[3], q[0])
  }

  /** The area of a quadrilateral given as exactly four points. */
  function Area(q: seq<Point>): (a: real)
    requires |q| == 4
    ensures a >= 0.0
    ensures 2.0 * a == Abs(Shoelace(q)) as real
  {
    RealAbs(Shoelace(q) as real / 2.0)
  }

  /** `CalculateQuadrilateralArea`: anything but four points is an argument error. */
  function CalculateQuadrilateralArea(points: seq<Point>): (r: Result<real>)
    ensures r.Err? <==> |points| != 4
    ensures r.Err? ==> r.error == InvalidArgument
    ensures r.Ok? ==> r.value >= 0.0 && 2.0 * r.value == Abs(Shoelace(points)) as real
  {
    if |points| != 4 then Err(InvalidArgument) else Ok(Area(points))
  }

  /** Starting the walk at the next corner. */
  function Rotate(q: seq<Point>): (r: seq<Point>)
    requires |q| == 4
    ensures |r| == 4
  {
    q[1..] + q[..1]
  }

  function Reverse(q: seq<Point>): (r: seq<Point>)
    requires |q| == 4
    ensures |r| == 4
  {
    [q[3], q[2], q[1], q[0]]
  }

  function Translate(q: seq<Point>, dx: int, dy: int): (r: seq<Point>)
    ensures |r| == |q|
    ensures forall j :: 0 <= j < |q| ==> r[j] == Point(q[j].x + dx, q[j].y + dy)
  {
    seq(|q|, j requires 0 <= j < |q| => Point(q[j].x + dx, q[j].y + dy))
  }

  /** Moving both points by (dx, dy) changes their cross product by a term
      linear in the move. */
  lemma CrossShift(p: Point, n: Point, dx: int, dy: int)
    ensures Cross(Point(p.x + dx, p.y + dy), Point(n.x + dx, n.y + dy))
         == Cross(p, n) + (p.x - n.x) * dy - (p.y - n.y) * dx
  {
    assert (p.x + dx) * (n.y + dy) == p.x * n.y + p.x * dy + dx * n.y + dx * dy;
    assert (p.y + dy) * (n.x + dx) == p.y * n.x + p.y * dx + dy * n.x + dy * dx;
  }

  /** The area does not depend on the corner the walk starts at. */
  lemma AreaRotation(q: seq<Point>)
    requires |q| == 4
    ensures Area(Rotate(q)) == Area(q)
  {
    var r := Rotate(q);
    assert r[0] == q[1] && r[1] == q[2] && r[2] == q[3] && r[3] == q[0];
  }

  /** Walking the other way round negates the signed area only. */
  lemma AreaReversal(q: seq<Point>)
    requires |q| == 4
    ensures Shoelace(Reverse(q)) == -Shoelace(q)
    ensures Area(Reverse(q)) == Area(q)
  {
  }

  /** The area does not depend on where the quadrilateral lies. */
  lemma AreaTranslation(q: seq<Point>, dx: int, dy: int)
    requires |q| == 4
    ensures Area(Translate(q, dx, dy)) == Area(q)
  {
    var t := Translate(q, dx, dy);
    CrossShift(q[0], q[1], dx, dy);
    CrossShift(q[1], q[2], dx, dy);
    CrossShift(q[2], q[3], dx, dy);
    CrossShift(q[3], q[0], dx, dy);
    assert Shoelace(t) == Shoelace(q);
  }

  /** An axis-aligned rectangle of width `w` and height `h` has area w * h. */
  lemma RectangleArea(x: int, y: int, w: nat, h: nat)
    ensures Area([Point(x, y), Point(x + w, y), Point(x + w, y + h), Point(x, y + h)]) == (w * h) as real
  {
    var q := [Point(x, y), Point(x + w, y), Point(x + w, y + h), Point(x, y + h)];
    assert Cross(q[0], q[1]) == x * y - y * (x + w);
    assert Cross(q[1], q[2]) == (x + w) * (y + h) - y * (x + w);
    assert Cross(q[2], q[3]) == (x + w) * (y + h) - (y + h) * x;
    assert Cross(q[3], q[0]) == x * y - (y + h) * x;
    assert Shoelace(q) == 2 * w * h;
  }

  /** Four copies of one point enclose nothing. */
  lemma SinglePointHasNoArea(p: Point)
    ensures Area([p, p, p, p]) == 0.0
  {
  }

  // ---------------------------------------------------------------------------
  // Corner ordering
  // ---------------------------------------------------------------------------

  /** `Math.Atan2`, whose floating-point values are not modelled. */
  type Atan2 = (real, real) -> real

  function SumX(q: seq<Point>): int {
    if |q| == 0 then 0 else q[0].x + SumX(q[1..])
  }

  function SumY(q: seq<Point>): int {
    if |q| == 0 then 0 else q[0].y + SumY(q[1..])
  }

  /** The angle that orders corners from the top-left, about the centre
      (cx, cy); `mirrored` measures it with the x axis flipped, which orders
      them from the top-right. */
  function Key(p: Point, cx: real, cy: real, atan2: Atan2, mirrored: bool): real {
    if mirrored then atan2(p.y as real - cy, cx - p.x as real)
    else atan2(p.y as real - cy, p.x as real - cx)
  }

  /** The key of each of four corners about their average. */
  function Keys(q: seq<Point>, atan2: Atan2, mirrored: bool): (k: seq<real>)
    requires |q| == 4
    ensures |k| == 4
    ensures forall j :: 0 <= j < 4 ==>
      k[j] == Key(q[j], SumX(q) as real / 4.0, SumY(q) as real / 4.0, atan2, mirrored)
  {
    var cx, cy := SumX(q) as real / 4.0, SumY(q) as real / 4.0;
    seq(4, j requires 0 <= j < 4 => Key(q[j], cx, cy, atan2, mirrored))
  }

  /** Position `k` holds the least key, and no earlier position ties with it:
      the first element of a stable ascending sort. */
  predicate FirstLeast(keys: seq<real>, k: int) {
    && 0 <= k < |keys|
    && (forall i :: 0 <= i < |keys| ==> keys[k] <= keys[i])
    && (forall i :: 0 <= i < k ==> keys[i] > keys[k])
  }

  /** The first element of a stable descending sort. */
  predicate FirstGreatest(keys: seq<real>, k: int) {
    && 0 <= k < |keys|
    && (forall i :: 0 <= i < |keys| ==> keys[i] <= keys[k])
    && (forall i :: 0 <= i < k ==> keys[i] < keys[k])
  }

  /** The position a stable sort on `keys` puts first: ascending when
      `least`, descending otherwise. */
  function SortedFirst(keys: seq<real>, least: bool): (k: nat)
    requires |keys| > 0
    ensures if least then FirstLeast(keys, k) else FirstGreatest(keys, k)
  {
    if least then FirstArgMin(keys) else FirstArgMax(keys)
  }

  /** The corner a stable sort on one key puts first. */
  function Extreme(q: seq<Point>, atan2: Atan2, mirrored: bool, least: bool): Point
    requires |q| == 4
  {
    q[SortedFirst(Keys(q, atan2, mirrored), least)]
  }

  /** `OrderCorners`: top-left, top-right, bottom-right, bottom-left, each the
      first corner with the least or greatest angle about the centre; anything
      but four corners is an argument error. */
  function OrderCorners(corners: seq<Point>, atan2: Atan2): (r: Result<seq<Point>>)
    ensures r.Err? <==> |corners| != 4
    ensures r.Err? ==> r.error == InvalidArgument
    ensures r.Ok? ==> var k1, k2 := Keys(corners, atan2, false), Keys(corners, atan2, true);
      && |r.value| == 4
      && (exists k :: FirstLeast(k1, k) && r.value[0] == corners[k])
      && (exists k :: FirstLeast(k2, k) && r.value[1] == corners[k])
      && (exists k :: FirstGreatest(k2, k) && r.value[2] == corners[k])
      && (exists k :: FirstGreatest(k1, k) && r.value[3] == corners[k])
  {
    if |corners| != 4 then Err(InvalidArgument)
    else
      Ok([Extreme(corners, atan2, false, true), Extreme(corners, atan2, true, true),
          Extreme(corners, atan2, true, false), Extreme(corners, atan2, false, false)])
  }

  lemma {:induction false} SumAppend(p: seq<Point>, s: seq<Point>)
    ensures SumX(p + s) == SumX(p) + SumX(s) && SumY(p + s) == SumY(p) + SumY(s)
    decreases |p|
  {
    if |p| > 0 {
      assert (p + s)[0] == p[0];
      assert (p + s)[1..] == p[1..] + s;
      SumAppend(p[1..], s);
    } else {
      assert p + s == s;
    }
  }

  /** Taking the corner at `j` out of the list takes its coordinates out of the sums. */
  lemma SumRemove(b: seq<Point>, j: int)
    requires 0 <= j < |b|
    ensures var rest := b[..j] + b[j + 1..];
      SumX(b) == b[j].x + SumX(rest) && SumY(b) == b[j].y + SumY(rest)
  {
    assert b == b[..j] + ([b[j]] + b[j + 1..]);
    SumAppend(b[..j], [b[j]] + b[j + 1..]);
    SumAppend([b[j]], b[j + 1..]);
    assert [b[j]][1..] == [];
    SumAppend(b[..j], b[j + 1..]);
  }

  /** Removing the same element from two permutations of each other leaves
      permutations of each other. */
  lemma RemoveMatching(a: seq<Point>, b: seq<Point>, j: int)
    requires multiset(a) == multiset(b) && |a| > 0 && 0 <= j < |b| && b[j] == a[0]
    ensures multiset(a[1..]) == multiset(b[..j] + b[j + 1..])
  {
    var rest := b[..j] + b[j + 1..];
    assert b == b[..j] + [b[j]] + b[j + 1..];
    assert multiset(b) == multiset(b[..j]) + multiset{b[j]} + multiset(b[j + 1..]);
    assert a == [a[0]] + a[1..];
    assert multiset(a) == multiset{a[0]} + multiset(a[1..]);
    assert multiset(rest) == multiset(b[..j]) + multiset(b[j + 1..]);
    assert multiset(a[1..]) == multiset(a) - multiset{a[0]};
    assert multiset(rest) == multiset(b) - multiset{b[j]};
  }

  /** The centre depends only on which corners there are, not on their order. */
  lemma {:induction false} SumPermutation(a: seq<Point>, b: seq<Point>)
    requires multiset(a) == multiset(b)
    ensures SumX(a) == SumX(b) && SumY(a) == SumY(b)
    decreases |a|
  {
    if |a| > 0 {
      assert a[0] in multiset(b);
      var j :| 0 <= j < |b| && b[j] == a[0];
      RemoveMatching(a, b, j);
      SumPermutation(a[1..], b[..j] + b[j + 1..]);
      SumRemove(b, j);
    } else {
      assert |b| == |multiset(b)| == 0;
    }
  }

  /** Distinct corners have distinct angles about the centre (cx, cy), on
      both keys. */
  predicate DistinctKeys(q: seq<Point>, cx: real, cy: real, atan2: Atan2) {
    forall i, j :: 0 <= i < |q| && 0 <= j < |q| && q[i] != q[j] ==>
      && Key(q[i], cx, cy, atan2, false) != Key(q[j], cx, cy, atan2, false)
      && Key(q[i], cx, cy, atan2, true) != Key(q[j], cx, cy, atan2, true)
  }

  /** Lists with the same centre give a shared corner the same key. */
  lemma SharedKey(a: seq<Point>, b: seq<Point>, atan2: Atan2, mirrored: bool, i: int, k: int)
    requires |a| == 4 && |b| == 4 && SumX(a) == SumX(b) && SumY(a) == SumY(b)
    requires 0 <= i < 4 && 0 <= k < 4 && a[i] == b[k]
    ensures Keys(a, atan2, mirrored)[i] == Keys(b, atan2, mirrored)[k]
  {
  }

  /** Two corners of `a` with the same key are the same corner. */
  lemma SameKeySamePoint(a: seq<Point>, atan2: Atan2, mirrored: bool, i: int, k: int)
    requires |a| == 4 && DistinctKeys(a, SumX(a) as real / 4.0, SumY(a) as real / 4.0, atan2)
    requires 0 <= i < 4 && 0 <= k < 4 && Keys(a, atan2, mirrored)[i] == Keys(a, atan2, mirrored)[k]
    ensures a[i] == a[k]
  {
  }

  /** Over the same corners with distinct angles, a stable sort puts the same
      corner first whatever order the corners come in. */
  lemma SameExtreme(a: seq<Point>, b: seq<Point>, atan2: Atan2, mirrored: bool, least: bool)
    requires |a| == 4 && multiset(a) == multiset(b)
    requires DistinctKeys(a, SumX(a) as real / 4.0, SumY(a) as real / 4.0, atan2)
    ensures |b| == 4
    ensures Extreme(a, atan2, mirrored, least) == Extreme(b, atan2, mirrored, least)
  {
    assert |b| == |multiset(b)| == 4;
    SumPermutation(a, b);
    var ka, kb := Keys(a, atan2, mirrored), Keys(b, atan2, mirrored);
    var i, j := SortedFirst(ka, least), SortedFirst(kb, least);
    assert a[i] in multiset(b);
    var i' :| 0 <= i' < |b| && b[i'] == a[i];
    assert b[j] in multiset(a);
    var j' :| 0 <= j' < |a| && a[j'] == b[j];
    SharedKey(a, b, atan2, mirrored, i, i');
    SharedKey(a, b, atan2, mirrored, j', j);
    assert ka[i] == ka[j'];
    SameKeySamePoint(a, atan2, mirrored, i, j');
  }

  /** When the corners have distinct angles, the order they were detected in
      does not matter. */
  lemma OrderIndependent(a: seq<Point>, b: seq<Point>, atan2: Atan2)
    requires |a| == 4 && multiset(a) == multiset(b)
    requires DistinctKeys(a, SumX(a) as real / 4.0, SumY(a) as real / 4.0, atan2)
    ensures OrderCorners(a, atan2) == OrderCorners(b, atan2)
  {
    SameExtreme(a, b, atan2, false, true);
    SameExtreme(a, b, atan2, true, true);
    SameExtreme(a, b, atan2, true, false);
    SameExtreme(a, b, atan2, false, false);
  }

  /** Unless every corner has the same angle, the top-left and bottom-left
      corners are different corners. */
  lemma LeftCornersDiffer(q: seq<Point>, atan2: Atan2, i: int, j: int)
    requires |q| == 4 && 0 <= i < 4 && 0 <= j < 4
    requires Keys(q, atan2, false)[i] != Keys(q, atan2, false)[j]
    ensures OrderCorners(q, atan2).value[0] != OrderCorners(q, atan2).value[3]
  {
    var k1 := Keys(q, atan2, false);
    var tl, bl := SortedFirst(k1, true), SortedFirst(k1, false);
    assert k1[tl] <= k1[i] <= k1[bl] && k1[tl] <= k1[j] <= k1[bl];
    assert q[tl] != q[bl];
  }

  // ---------------------------------------------------------------------------
  // Choosing the cube face
  // ---------------------------------------------------------------------------

  /** The shape score `|1 - aspect ratio| + angle deviation / 100` of an
      ordered quadrilateral, whose square roots and arc cosines are not modelled. */
  type Score = seq<Point> -> real

  /** `double.MaxValue`, (2^53 - 1) * 2^971, the initial best score. */
  const MaxDouble: real := 179769313486231570814527423731704356798070567525844996598917476803157260780028538760589558632766878171540458953514382464234321326889464182768467546703537516986049910576551282076245490090389328944075868508455133942304583236903222948165808559332123348274797826204144723168738177180919299881250404026184124858368.0

  /** The state of the walk: the best combination so far (`null` at first),
      its area and its score. */
  datatype Best = Best(quad: Option<seq<Point>>, maxArea: real, bestScore: real)

  const Start := Best(None, 0.0, MaxDouble)

  /** A combination put in corner order, as the walk measures it. */
  function Ordered(quad: seq<Point>, atan2: Atan2): (r: seq<Point>)
    requires |quad| == 4
    ensures |r| == 4
  {
    OrderCorners(quad, atan2).value
  }

  /** A combination with the area and score of its ordered form. */
  datatype Candidate = Candidate(quad: seq<Point>, area: real, score: real)

  /** The first three statements of the loop body. */
  function Measure(quad: seq<Point>, atan2: Atan2, score: Score): (c: Candidate)
    requires |quad| == 4
    ensures c.quad == quad && c.area >= 0.0
  {
    var ordered := Ordered(quad, atan2);
    Candidate(quad, Area(ordered), score(ordered))
  }

  predicate AllQuads(quads: seq<seq<Point>>) {
    forall k :: 0 <= k < |quads| ==> |quads[k]| == 4
  }

  function MeasureAll(quads: seq<seq<Point>>, atan2: Atan2, score: Score): (cs: seq<Candidate>)
    requires AllQuads(quads)
    ensures |cs| == |quads| && forall k :: 0 <= k < |quads| ==> cs[k] == Measure(quads[k], atan2, score)
  {
    seq(|quads|, k requires 0 <= k < |quads| => Measure(quads[k], atan2, score))
  }

  /** `c` has a larger area and a smaller score than the best so far. */
  predicate Beats(c: Candidate, b: Best) {
    c.area > b.maxArea && c.score < b.bestScore
  }

  /** `c` beats the initial state: a positive area and a score below the
      largest double. */
  predicate Qualifies(c: Candidate) {
    Beats(c, Start)
  }

  /** One iteration of the `foreach`: the combination, not its ordered form,
      becomes the best when it beats the best so far. */
  function Consider(b: Best, c: Candidate): Best {
    if Beats(c, b) then Best(Some(c.quad), c.area, c.score) else b
  }

  /** What the state of the walk means after the candidates `cs`: it is the
      initial one until a candidate qualifies; after that it holds one of the
      candidates with its own area and score; and no candidate seen beats it. */
  predicate WalkInvariant(cs: seq<Candidate>, b: Best) {
    && (b.quad.None? <==> b == Start)
    && (b.quad.None? <==> forall k :: 0 <= k < |cs| ==> !Qualifies(cs[k]))
    && (b.quad.Some? ==> exists k :: (0 <= k < |cs| && cs[k].quad == b.quad.value
         && b.maxArea == cs[k].area > 0.0 && b.bestScore == cs[k].score < MaxDouble))
    && forall k :: 0 <= k < |cs| ==> !Beats(cs[k], b)
  }

  /** One iteration keeps the meaning of the state. */
  lemma ConsiderStep(cs: seq<Candidate>, b: Best, c: Candidate)
    requires WalkInvariant(cs, b)
    ensures WalkInvariant(cs + [c], Consider(b, c))
  {
    var all := cs + [c];
    assert forall k :: 0 <= k < |cs| ==> all[k] == cs[k];
    assert all[|cs|] == c;
    if Beats(c, b) {
      assert b.maxArea >= 0.0 && b.bestScore <= MaxDouble;
    }
  }

  /** The `foreach` over the measured combinations. */
  function Walk(cs: seq<Candidate>): (b: Best)
    ensures WalkInvariant(cs, b)
  {
    if |cs| == 0 then Start
    else
      var prefix := cs[..|cs| - 1];
      assert cs == prefix + [cs[|cs| - 1]];
      var before := Walk(prefix);
      ConsiderStep(prefix, before, cs[|cs| - 1]);
      Consider(before, cs[|cs| - 1])
  }

  /** The walk over the measured combinations ends with `null` exactly when
      none qualifies, and otherwise with a qualifying combination that no
      combination beats. */
  lemma WalkResult(quads: seq<seq<Point>>, atan2: Atan2, score: Score)
    requires AllQuads(quads)
    ensures var cs := MeasureAll(quads, atan2, score);
      var b := Walk(cs);
      && (b.quad.None? <==> forall k :: 0 <= k < |cs| ==> !Qualifies(cs[k]))
      && (b.quad.Some? ==> b.quad.value in quads && |b.quad.value| == 4 && var chosen := Measure(b.quad.value, atan2, score);
            && Qualifies(chosen)
            && forall k :: 0 <= k < |cs| ==> !Beats(cs[k], Best(b.quad, chosen.area, chosen.score)))
  {
    var cs := MeasureAll(quads, atan2, score);
    var b := Walk(cs);
    if b.quad.Some? {
      var k :| 0 <= k < |cs| && cs[k].quad == b.quad.value && b.maxArea == cs[k].area > 0.0 && b.bestScore == cs[k].score < MaxDouble;
      assert quads[k] == b.quad.value && cs[k] == Measure(b.quad.value, atan2, score);
      assert b == Best(b.quad, cs[k].area, cs[k].score);
    }
  }

  /** `FilterCubeFaceCorners`: fewer than four corners come back unchanged;
      otherwise the combination the walk ends with, or `null`. The flag
      selects the generator as written or with the evidently intended bound. */
  function FilterCubeFaceCorners(corners: seq<Point>, atan2: Atan2, score: Score, inclusive: bool): (r: Option<seq<Point>>)
    ensures |corners| < 4 ==> r == Some(corners)
    ensures |corners| >= 4 ==> var quads := GetCombinations(corners, 4, inclusive);
      && AllQuads(quads)
      && var cs := MeasureAll(quads, atan2, score);
      && (r.None? <==> forall k :: 0 <= k < |cs| ==> !Qualifies(cs[k]))
      && (r.Some? ==> r.value in quads && |r.value| == 4 && var chosen := Measure(r.value, atan2, score);
            && Qualifies(chosen)
            && forall k :: 0 <= k < |cs| ==> !Beats(cs[k], Best(r, chosen.area, chosen.score)))
  {
    if |corners| < 4 then Some(corners)
    else
      var quads := GetCombinations(corners, 4, inclusive);
      WalkResult(quads, atan2, score);
      Walk(MeasureAll(quads, atan2, score)).quad
  }

  /** The chosen combination is four detected corners taken at strictly
      increasing positions of the list. */
  lemma ChosenIsCombination(corners: seq<Point>, atan2: Atan2, score: Score, inclusive: bool)
    ensures var f := FilterCubeFaceCorners(corners, atan2, score, inclusive);
      |corners| >= 4 && f.Some? ==> exists t :: Valid(t, |corners|, 4) && f.value == Pick(corners, t)
  {
    var f := FilterCubeFaceCorners(corners, atan2, score, inclusive);
    if |corners| >= 4 && f.Some? {
      var quads := GetCombinations(corners, 4, inclusive);
      var k :| 0 <= k < |quads| && quads[k] == f.value;
      var ts := IndexCombinations(|corners|, 4, inclusive);
      assert Valid(ts[k], |corners|, 4) && f.value == Pick(corners, ts[k]);
    }
  }

  /** The first steps of `ExtractAndCorrectCubeFace`: filter the corners, then
      order the chosen four; a `null` or short list fails in `OrderCorners`. */
  function SelectCubeFace(corners: seq<Point>, atan2: Atan2, score: Score, inclusive: bool): (r: Result<seq<Point>>)
    ensures r.Err? ==> r.error == InvalidArgument
    ensures r.Ok? <==> |corners| >= 4 && FilterCubeFaceCorners(corners, atan2, score, inclusive).Some?
    ensures r.Ok? ==> var q := FilterCubeFaceCorners(corners, atan2, score, inclusive).value;
      && |q| == 4 && r.value == Ordered(q, atan2) && Area(r.value) > 0.0 && score(r.value) < MaxDouble
  {
    match FilterCubeFaceCorners(corners, atan2, score, inclusive)
    case None => Err(InvalidArgument)
    case Some(q) => OrderCorners(q, atan2)
  }

  /** With exactly four detected corners the generator as written offers no
      combination, so no face is ever selected; with the intended bound the
      four corners are selected exactly when they qualify. */
  lemma FourCornersFinding(corners: seq<Point>, atan2: Atan2, score: Score)
    requires |corners| == 4
    ensures FilterCubeFaceCorners(corners, atan2, score, false) == None
    ensures SelectCubeFace(corners, atan2, score, false) == Err(InvalidArgument)
    ensures SelectCubeFace(corners, atan2, score, true).Ok? <==> Qualifies(Measure(corners, atan2, score))
    ensures SelectCubeFace(corners, atan2, score, true).Ok? ==>
      SelectCubeFace(corners, atan2, score, true).value == Ordered(corners, atan2)
  {
    AllCornersOnly(corners, 4);
  }
}
