/** The facelet-string encoder: binary colour masks of the six cube faces
    become the 54-character cube string handed to the solver. */
module Facelets {
  import opened Results
  import opened Images

  /** Face folder names, in the order their 9-character strings occupy the cube string. */
  const FaceOrder: seq<string> := ["mid", "bot", "back", "top", "right", "left"]

  /** The face string a face starts from before any mask is applied. */
  const InitialFace: string := "NNNnnnNNN"

  /** One mask image of a face folder: the file name without its directory, and the mask. */
  datatype MaskFile = MaskFile(name: string, mask: Grid)

  /** One face folder: its name without the parent path, and the mask files it holds. */
  datatype FaceFolder = FaceFolder(name: string, files: seq<MaskFile>)

  // ---------------------------------------------------------------------------
  // The cube string
  // ---------------------------------------------------------------------------

  /** `c` repeated `n` times, appended one character at a time. */
  function Repeat(c: char, n: nat): (s: string)
    ensures |s| == n
    ensures forall i :: 0 <= i < n ==> s[i] == c
  {
    if n == 0 then [] else Repeat(c, n - 1) + [c]
  }

  /** The cube string before any face is inserted. */
  function InstantiateCubeString(): (s: string)
    ensures |s| == 54
    ensures forall i :: 0 <= i < |s| ==> s[i] == 'n'
  {
    Repeat('n', 54)
  }

  /** Splices `insert` over the 9 characters of face `faceIndex`. A negative
      index or one past the end makes `Substring` throw. */
  function InsertInCubeString(cube: string, insert: string, faceIndex: int): (r: Result<string>)
    ensures r.Ok? <==> 0 <= 9 * faceIndex <= |cube|
    ensures r.Ok? ==> |r.value| == 9 * faceIndex + |insert| + Max(0, |cube| - 9 * faceIndex - 9)
    ensures r.Ok? ==> r.value[..9 * faceIndex] == cube[..9 * faceIndex]
    ensures r.Ok? ==> r.value[9 * faceIndex..9 * faceIndex + |insert|] == insert
  {
    var pos := faceIndex * 9;
    if pos < 0 || pos > |cube| then Err(ArgumentOutOfRange)
    else if pos + 9 < |cube| then Ok(cube[..pos] + insert + cube[pos + 9..])
    else Ok(cube[..pos] + insert)
  }

  /** On a 54-character cube string and a 9-character face, face slot `f` is
      replaced and every other character is kept; the last face takes the
      branch without a suffix and ends up the same way. */
  lemma InsertFaceReplacesSlot(cube: string, face: string, f: int)
    requires |cube| == 54 && |face| == 9 && 0 <= f < 6
    ensures InsertInCubeString(cube, face, f).Ok?
    ensures var r := InsertInCubeString(cube, face, f).value;
      && |r| == 54
      && (forall k :: 0 <= k < 9 ==> r[9 * f + k] == face[k])
      && (forall k :: 0 <= k < 54 && !(9 * f <= k < 9 * f + 9) ==> r[k] == cube[k])
  {
    var r := InsertInCubeString(cube, face, f).value;
    if f == 5 {
      assert r == cube[..45] + face;
    } else {
      assert r == cube[..9 * f] + face + cube[9 * f + 9..];
    }
  }

  /** `List.IndexOf` on the face order: the first position of `name`, or -1. */
  function FaceIndex(name: string): (i: int)
    ensures -1 <= i < |FaceOrder|
    ensures i == -1 <==> name !in FaceOrder
    ensures 0 <= i ==> FaceOrder[i] == name && forall k :: 0 <= k < i ==> FaceOrder[k] != name
  {
    IndexFrom(FaceOrder, name, 0)
  }

  function IndexFrom(list: seq<string>, name: string, from: nat): (i: int)
    requires from <= |list|
    ensures -1 <= i < |list|
    ensures i == -1 <==> name !in list[from..]
    ensures 0 <= i ==> from <= i && list[i] == name && forall k :: from <= k < i ==> list[k] != name
    decreases |list| - from
  {
    if from == |list| then -1
    else if list[from] == name then from
    else
      assert list[from..] == [list[from]] + list[from + 1..];
      IndexFrom(list, name, from + 1)
  }

  /** `ToLower` on the characters the encoder produces (ASCII letters). */
  function LowerChar(c: char): char {
    if 'A' <= c <= 'Z' then (c as int + 32) as char else c
  }

  function ToLower(s: string): (r: string)
    ensures |r| == |s|
    ensures forall i :: 0 <= i < |s| ==> r[i] == LowerChar(s[i])
  {
    seq(|s|, i requires 0 <= i < |s| => LowerChar(s[i]))
  }

  // ---------------------------------------------------------------------------
  // Mask file names
  // ---------------------------------------------------------------------------

  /** `name.Split(".")[0]`: the part of a file name before its first dot. */
  function Stem(name: string): (s: string)
    ensures |s| <= |name| && s == name[..|s|]
    ensures '.' !in s
    ensures |s| == |name| || name[|s|] == '.'
  {
    if |name| == 0 || name[0] == '.' then []
    else [name[0]] + Stem(name[1..])
  }

  /** The one-letter colour code a mask contributes: the first character of
      the file name. Indexing an empty stem throws. */
  function MaskLetter(name: string): (r: Result<string>)
    ensures r.Ok? <==> |Stem(name)| > 0
    ensures r.Ok? ==> |r.value| == 1 && r.value[0] == Stem(name)[0]
  {
    if |name| == 0 || name[0] == '.' then Err(IndexOutOfRange) else Ok([name[0]])
  }

  // ---------------------------------------------------------------------------
  // The 3x3 cell vote
  // ---------------------------------------------------------------------------

  /** Number of pixels equal to 255. */
  function Whites(s: seq<int>): nat {
    if |s| == 0 then 0 else Whites(s[..|s| - 1]) + (if s[|s| - 1] == 255 then 1 else 0)
  }

  /** Number of pixels different from 255. */
  function Blacks(s: seq<int>): nat {
    if |s| == 0 then 0 else Blacks(s[..|s| - 1]) + (if s[|s| - 1] != 255 then 1 else 0)
  }

  lemma {:induction false} WhitesPlusBlacks(s: seq<int>)
    ensures Whites(s) + Blacks(s) == |s|
  {
    if |s| > 0 {
      WhitesPlusBlacks(s[..|s| - 1]);
    }
  }

  /** The cell of side `inc` whose top-left pixel is (row `i`, column `j`) lies inside the mask. */
  predicate CellInside(mask: Grid, i: int, j: int, inc: int) {
    IsRect(mask) && 0 <= inc && 0 <= i && i + inc <= Height(mask) && 0 <= j && j + inc <= Width(mask)
  }

  /** 255-pixels in the first `rows` rows of the cell. */
  function CellWhites(mask: Grid, i: int, j: int, inc: int, rows: nat): nat
    requires CellInside(mask, i, j, inc) && rows <= inc
  {
    if rows == 0 then 0 else CellWhites(mask, i, j, inc, rows - 1) + Whites(mask[i + rows - 1][j..j + inc])
  }

  /** Other pixels in the first `rows` rows of the cell. */
  function CellBlacks(mask: Grid, i: int, j: int, inc: int, rows: nat): nat
    requires CellInside(mask, i, j, inc) && rows <= inc
  {
    if rows == 0 then 0 else CellBlacks(mask, i, j, inc, rows - 1) + Blacks(mask[i + rows - 1][j..j + inc])
  }

  /** The cell's colour wins: its white pixels strictly outnumber the others. */
  predicate CellWins(mask: Grid, i: int, j: int, inc: int)
    requires CellInside(mask, i, j, inc)
  {
    CellWhites(mask, i, j, inc, inc) > CellBlacks(mask, i, j, inc, inc)
  }

  lemma {:induction false} CellCountsCoverCell(mask: Grid, i: int, j: int, inc: int, rows: nat)
    requires CellInside(mask, i, j, inc) && rows <= inc
    ensures CellWhites(mask, i, j, inc, rows) + CellBlacks(mask, i, j, inc, rows) == rows * inc
  {
    if rows > 0 {
      CellCountsCoverCell(mask, i, j, inc, rows - 1);
      WhitesPlusBlacks(mask[i + rows - 1][j..j + inc]);
      assert rows * inc == (rows - 1) * inc + inc;
    }
  }

  /** The vote is a strict majority of the inc*inc pixels: a tie loses. */
  lemma CellVoteIsStrictMajority(mask: Grid, i: int, j: int, inc: int)
    requires CellInside(mask, i, j, inc)
    ensures CellWins(mask, i, j, inc) <==> 2 * CellWhites(mask, i, j, inc, inc) > inc * inc
    ensures 2 * CellWhites(mask, i, j, inc, inc) == inc * inc ==> !CellWins(mask, i, j, inc)
  {
    CellCountsCoverCell(mask, i, j, inc, inc);
  }

  /** Counts the white and the other pixels of the cell, row by row, and
      reports whether white strictly wins. */
  method IsValidCurrentSquare(indexI: int, indexJ: int, inc: int, mask: Grid) returns (valid: bool)
    requires CellInside(mask, indexI, indexJ, inc)
    ensures valid <==> CellWins(mask, indexI, indexJ, inc)
  {
    var white := 0;
    var black := 0;
    var i := indexI;
    while i < indexI + inc
      invariant indexI <= i <= indexI + inc
      invariant white == CellWhites(mask, indexI, indexJ, inc, i - indexI)
      invariant black == CellBlacks(mask, indexI, indexJ, inc, i - indexI)
    {
      var j := indexJ;
      while j < indexJ + inc
        invariant indexJ <= j <= indexJ + inc
        invariant white == CellWhites(mask, indexI, indexJ, inc, i - indexI) + Whites(mask[i][indexJ..j])
        invariant black == CellBlacks(mask, indexI, indexJ, inc, i - indexI) + Blacks(mask[i][indexJ..j])
      {
        assert mask[i][indexJ..j + 1][..j - indexJ] == mask[i][indexJ..j];
        if mask[i][j] == 255 {
          white := white + 1;
        } else {
          black := black + 1;
        }
        j := j + 1;
      }
      i := i + 1;
    }
    valid := white > black;
  }

  // ---------------------------------------------------------------------------
  // Writing a cell's letter into the face string
  // ---------------------------------------------------------------------------

  /** Writes a letter over one character of a face string; the two copies of
      this routine in the source differ only at the end of the string. */
  type Inserter = (string, int, int, int, string) -> Result<string>

  /** Position of the cell with top-left pixel (i, j) in the row-major face string. */
  function CellPosition(i: int, j: int, inc: int): int
    requires inc != 0
  {
    CDiv(i, inc) * 3 + CDiv(j, inc)
  }

  /** Replaces the character at the cell's position by `rep`; when the
      position is the last character or one past the end, no suffix is kept. */
  function InsertInString(s: string, i: int, j: int, inc: int, rep: string): (r: Result<string>)
    ensures inc != 0 && |rep| == 1 && 0 <= CellPosition(i, j, inc) < |s| ==>
      && r.Ok?
      && |r.value| == |s|
      && r.value[CellPosition(i, j, inc)] == rep[0]
      && forall k :: 0 <= k < |s| && k != CellPosition(i, j, inc) ==> r.value[k] == s[k]
    ensures inc != 0 && CellPosition(i, j, inc) == |s| ==> r == Ok(s + rep)
    ensures inc == 0 || CellPosition(i, j, inc) < 0 || CellPosition(i, j, inc) > |s| ==> r.Err?
  {
    if inc == 0 then Err(DivideByZero)
    else
      var pos := CDiv(i, inc) * 3 + CDiv(j, inc);
      if pos < 0 || pos > |s| then Err(ArgumentOutOfRange)
      else if pos + 1 < |s| then Ok(s[..pos] + rep + s[pos + 1..])
      else
        assert pos == |s| ==> s[..pos] == s;
        Ok(s[..pos] + rep)
  }

  /** The inserter writes a one-character code over an in-range position and
      changes nothing else. */
  ghost predicate ReplacesCell(insert: Inserter) {
    forall s: string, i: int, j: int, inc: int, rep: string {:trigger insert(s, i, j, inc, rep)} ::
      inc != 0 && |rep| == 1 && 0 <= CellPosition(i, j, inc) < |s| ==>
        insert(s, i, j, inc, rep) == Ok(s[CellPosition(i, j, inc) := rep[0]])
  }

  /** For a cell of the image the C# division is the Euclidean one. */
  lemma NaturalCellPosition(i: int, j: int, inc: int)
    requires 0 <= i && 0 <= j && 0 < inc
    ensures CellPosition(i, j, inc) == i / inc * 3 + j / inc
  {
  }

  /** One in-range call of the inserter is a single-character update. */
  lemma InsertAtCell(s: string, i: int, j: int, inc: int, rep: string)
    requires inc != 0 && |rep| == 1 && 0 <= CellPosition(i, j, inc) < |s|
    ensures InsertInString(s, i, j, inc, rep) == Ok(s[CellPosition(i, j, inc) := rep[0]])
  {
    var r := InsertInString(s, i, j, inc, rep).value;
    assert r == s[CellPosition(i, j, inc) := rep[0]];
  }

  lemma InsertInStringReplacesCell()
    ensures ReplacesCell(InsertInString)
  {
    forall s: string, i: int, j: int, inc: int, rep: string |
      inc != 0 && |rep| == 1 && 0 <= CellPosition(i, j, inc) < |s|
      ensures InsertInString(s, i, j, inc, rep) == Ok(s[CellPosition(i, j, inc) := rep[0]])
    {
      InsertAtCell(s, i, j, inc, rep);
    }
  }

  // ---------------------------------------------------------------------------
  // Scanning one mask
  // ---------------------------------------------------------------------------

  /** The inner loop: cells of the row starting at pixel row `i`, from column `j` on. */
  function ScanColumns(mask: Grid, s: string, letter: string, inc: int, i: int, j: int, insert: Inserter): Result<string>
    requires IsRect(mask) && 0 < inc && 0 <= i && i + inc <= Height(mask) && 0 <= j
    decreases Width(mask) - j
  {
    if j >= Width(mask) - inc + 1 then Ok(s)
    else
      var s' :- if CellWins(mask, i, j, inc) then insert(s, i, j, inc, letter) else Ok(s);
      ScanColumns(mask, s', letter, inc, i, j + inc, insert)
  }

  /** The outer loop: rows of cells from pixel row `i` on. */
  function ScanRows(mask: Grid, s: string, letter: string, inc: int, i: int, insert: Inserter): Result<string>
    requires IsRect(mask) && 0 < inc && 0 <= i
    decreases Height(mask) - i
  {
    if i >= Height(mask) - inc + 1 then Ok(s)
    else
      var s' :- ScanColumns(mask, s, letter, inc, i, 0, insert);
      ScanRows(mask, s', letter, inc, i + inc, insert)
  }

  /** A square mask at least 9 pixels wide: the scan meets exactly 3x3 cells. */
  predicate SquareMask(mask: Grid) {
    IsRect(mask) && Width(mask) == Height(mask) >= 9
  }

  /** The vote of face cell `k` (row-major, 0..8) of a square mask. */
  predicate CellWinsAt(mask: Grid, k: int)
    requires SquareMask(mask) && 0 <= k < 9
  {
    CellOrigin(mask, k / 3);
    CellOrigin(mask, k % 3);
    var inc := Width(mask) / 3;
    CellWins(mask, (k / 3) * inc, (k % 3) * inc, inc)
  }

  /** Cell row or column `q` of a square mask starts at pixel `q * inc`; the
      fourth one starts past the last place a whole cell fits. */
  lemma CellOrigin(mask: Grid, q: int)
    requires SquareMask(mask) && 0 <= q <= 3
    ensures var inc := Width(mask) / 3;
      && 3 <= inc && 0 <= q * inc
      && (q < 3 ==> q * inc + inc <= Width(mask) && (q + 1) * inc == q * inc + inc)
      && (q == 3 ==> q * inc >= Width(mask) - inc + 1)
  {
    var inc := Width(mask) / 3;
    assert 3 * inc <= Width(mask) < 3 * inc + 3;
    if q < 3 {
      assert q * inc + inc <= 3 * inc;
    }
  }

  /** The cell at cell row `a` and cell column `b` is face position `3a + b`. */
  lemma CellAt(mask: Grid, a: int, b: int)
    requires SquareMask(mask) && 0 <= a < 3 && 0 <= b < 3
    ensures var inc := Width(mask) / 3;
      && CellInside(mask, a * inc, b * inc, inc)
      && CellPosition(a * inc, b * inc, inc) == a * 3 + b
      && (CellWinsAt(mask, a * 3 + b) <==> CellWins(mask, a * inc, b * inc, inc))
  {
    var inc := Width(mask) / 3;
    assert 3 <= inc && 3 * inc <= Width(mask);
    assert a * inc + inc <= 3 * inc && b * inc + inc <= 3 * inc;
    MulDivCancel(a, inc);
    MulDivCancel(b, inc);
    NaturalCellPosition(a * inc, b * inc, inc);
    var k := a * 3 + b;
    assert k / 3 == a && k % 3 == b;
  }

  lemma {:induction false} ScanColumnsSquare(mask: Grid, s: string, letter: string, a: int, b: int, insert: Inserter)
    requires SquareMask(mask) && 0 <= a < 3 && 0 <= b <= 3 && |s| == 9 && |letter| == 1
    requires ReplacesCell(insert)
    ensures var inc := Width(mask) / 3;
      var r := ScanColumns(mask, s, letter, inc, a * inc, b * inc, insert);
      && r.Ok? && |r.value| == 9
      && forall k :: 0 <= k < 9 ==>
           r.value[k] == if k / 3 == a && k % 3 >= b && CellWinsAt(mask, k) then letter[0] else s[k]
    decreases 3 - b
  {
    var inc := Width(mask) / 3;
    CellOrigin(mask, a);
    CellOrigin(mask, b);
    var i, j := a * inc, b * inc;
    if b < 3 {
      var pos := a * 3 + b;
      CellAt(mask, a, b);
      var s' := if CellWinsAt(mask, pos) then s[pos := letter[0]] else s;
      ColumnStep(mask, s, s', letter, inc, i, j, (b + 1) * inc, insert, pos);
      ScanColumnsSquare(mask, s', letter, a, b + 1, insert);
      var r := ScanColumns(mask, s', letter, inc, i, (b + 1) * inc, insert);
      AdvanceColumn(mask, s, s', letter, a, b, r.value);
    } else {
      assert ScanColumns(mask, s, letter, inc, i, j, insert) == Ok(s);
    }
  }

  /** One step of the inner loop: the cell at (i, j) is written when it wins
      and the scan goes on at the next cell. */
  lemma ColumnStep(mask: Grid, s: string, s': string, letter: string, inc: int, i: int, j: int, next: int,
                    insert: Inserter, pos: int)
    requires CellInside(mask, i, j, inc) && 0 < inc && |letter| == 1 && next == j + inc
    requires ReplacesCell(insert) && pos == CellPosition(i, j, inc) && 0 <= pos < |s|
    requires s' == if CellWins(mask, i, j, inc) then s[pos := letter[0]] else s
    ensures ScanColumns(mask, s, letter, inc, i, j, insert) == ScanColumns(mask, s', letter, inc, i, next, insert)
  { }

  /** Writing cell (a, b) and then the cells after it in row a is the same as
      writing the cells of row a from column b on. */
  lemma AdvanceColumn(mask: Grid, s: string, s': string, letter: string, a: int, b: int, r: string)
    requires SquareMask(mask) && 0 <= a < 3 && 0 <= b < 3 && |s| == 9 && |letter| == 1
    requires s' == if CellWinsAt(mask, a * 3 + b) then s[a * 3 + b := letter[0]] else s
    requires |r| == 9
    requires forall k :: 0 <= k < 9 ==>
      r[k] == if k / 3 == a && k % 3 >= b + 1 && CellWinsAt(mask, k) then letter[0] else s'[k]
    ensures forall k :: 0 <= k < 9 ==>
      r[k] == if k / 3 == a && k % 3 >= b && CellWinsAt(mask, k) then letter[0] else s[k]
  {
    forall k | 0 <= k < 9
      ensures r[k] == if k / 3 == a && k % 3 >= b && CellWinsAt(mask, k) then letter[0] else s[k]
    {
      if k == a * 3 + b {
        assert k / 3 == a && k % 3 == b;
      }
    }
  }

  lemma {:induction false} ScanRowsSquare(mask: Grid, s: string, letter: string, a: int, insert: Inserter)
    requires SquareMask(mask) && 0 <= a <= 3 && |s| == 9 && |letter| == 1
    requires ReplacesCell(insert)
    ensures var inc := Width(mask) / 3;
      var r := ScanRows(mask, s, letter, inc, a * inc, insert);
      && r.Ok? && |r.value| == 9
      && forall k :: 0 <= k < 9 ==>
           r.value[k] == if k / 3 >= a && CellWinsAt(mask, k) then letter[0] else s[k]
    decreases 3 - a
  {
    var inc := Width(mask) / 3;
    CellOrigin(mask, a);
    if a < 3 {
      ScanColumnsSquare(mask, s, letter, a, 0, insert);
      var s' := ScanColumns(mask, s, letter, inc, a * inc, 0 * inc, insert).value;
      ScanRowsSquare(mask, s', letter, a + 1, insert);
    }
  }

  /** Every cell of a square mask of width at least 9 is visited once: cell k
      takes the letter when its vote wins and keeps its character otherwise. */
  lemma EncodeSquareMask(mask: Grid, face: string, letter: string, insert: Inserter)
    requires SquareMask(mask) && |face| == 9 && |letter| == 1
    requires ReplacesCell(insert)
    ensures var r := ScanRows(mask, face, letter, Width(mask) / 3, 0, insert);
      && r.Ok? && |r.value| == 9
      && forall k :: 0 <= k < 9 ==> r.value[k] == if CellWinsAt(mask, k) then letter[0] else face[k]
  {
    ScanRowsSquare(mask, face, letter, 0, insert);
  }

  /** Writes `letter` into every cell of the face string whose mask vote wins. */
  function ConvertImageToString(mask: Grid, face: string, letter: string): (r: Result<string>)
    requires IsRect(mask) && Width(mask) >= 3
    ensures SquareMask(mask) && |face| == 9 && |letter| == 1 ==>
      && r.Ok? && |r.value| == 9
      && forall k :: 0 <= k < 9 ==> r.value[k] == if CellWinsAt(mask, k) then letter[0] else face[k]
  {
    var r := ScanRows(mask, face, letter, Width(mask) / 3, 0, InsertInString);
    if SquareMask(mask) && |face| == 9 && |letter| == 1 then
      InsertInStringReplacesCell();
      EncodeSquareMask(mask, face, letter, InsertInString);
      r
    else
      r
  }

  // ---------------------------------------------------------------------------
  // One face: all the mask files of its folder
  // ---------------------------------------------------------------------------

  /** Position of the last '.' in `name`, or -1. */
  function LastDot(name: string): (i: int)
    ensures -1 <= i < |name|
    ensures 0 <= i ==> name[i] == '.'
    ensures forall k :: i < k < |name| ==> name[k] != '.'
  {
    if |name| == 0 then -1
    else if name[|name| - 1] == '.' then |name| - 1
    else LastDot(name[..|name| - 1])
  }

  /** `Path.GetExtension`: the suffix from the last dot on, or empty when there
      is no dot or the dot ends the name. */
  function Extension(name: string): (e: string)
    ensures e == [] || (2 <= |e| <= |name| && e == name[|name| - |e|..] && e[0] == '.' && '.' !in e[1..])
  {
    var d := LastDot(name);
    if d < 0 || d == |name| - 1 then [] else name[d..]
  }

  const ImageExtensions: seq<string> := [".jpg", ".jpeg", ".png", ".bmp", ".gif"]

  /** The file is read as an image when its lower-cased extension is a known one. */
  predicate IsImageFile(name: string) {
    ToLower(Extension(name)) in ImageExtensions
  }

  lemma {:induction false} LastDotAppend(a: string, b: string)
    requires '.' !in b
    ensures LastDot(a + b) == LastDot(a)
  {
    if |b| > 0 {
      assert (a + b)[..|a + b| - 1] == a + b[..|b| - 1];
      LastDotAppend(a, b[..|b| - 1]);
    } else {
      assert a + b == a;
    }
  }

  lemma {:induction false} StemOfDotted(a: string, b: string)
    requires '.' !in a && |b| > 0 && b[0] == '.'
    ensures Stem(a + b) == a
  {
    if |a| > 0 {
      assert (a + b)[1..] == a[1..] + b;
      StemOfDotted(a[1..], b);
    }
  }

  /** A mask saved as `<stem>.png` with a dot-free, nonempty stem is read as an
      image and contributes the stem's first letter. */
  lemma PngMaskFile(stem: string)
    requires '.' !in stem && |stem| > 0
    ensures IsImageFile(stem + ".png")
    ensures MaskLetter(stem + ".png") == Ok([stem[0]])
  {
    var name := stem + ".png";
    assert name == (stem + ".") + "png";
    LastDotAppend(stem + ".", "png");
    assert LastDot(stem + ".") == |stem|;
    assert Extension(name) == ".png";
    assert ToLower(".png") == ".png";
    StemOfDotted(stem, ".png");
  }

  /** Every image file of the folder holds a mask the encoder terminates on. */
  predicate ReadableMasks(files: seq<MaskFile>) {
    forall n :: 0 <= n < |files| && IsImageFile(files[n].name) ==>
      IsRect(files[n].mask) && Width(files[n].mask) >= 3
  }

  /** Every image file of the folder holds a square mask at least 9 pixels wide. */
  predicate SquareMasks(files: seq<MaskFile>) {
    forall n :: 0 <= n < |files| && IsImageFile(files[n].name) ==> SquareMask(files[n].mask)
  }

  /** Every file name has a nonempty stem, so its letter can be taken. */
  predicate NamedMasks(files: seq<MaskFile>) {
    forall n :: 0 <= n < |files| ==> |Stem(files[n].name)| > 0
  }

  /** One iteration of the face loop: the letter is taken from every file,
      image or not, and only image files are encoded. */
  function ApplyMask(face: string, file: MaskFile): (r: Result<string>)
    requires IsImageFile(file.name) ==> IsRect(file.mask) && Width(file.mask) >= 3
    ensures |Stem(file.name)| == 0 ==> r == Err(IndexOutOfRange)
    ensures |Stem(file.name)| > 0 && !IsImageFile(file.name) ==> r == Ok(face)
  {
    var letter :- MaskLetter(file.name);
    if IsImageFile(file.name) then ConvertImageToString(file.mask, face, letter) else Ok(face)
  }

  /** One file applied to a 9-character face whose image, if any, is a square mask. */
  lemma ApplySquareMask(face: string, file: MaskFile)
    requires |face| == 9 && (IsImageFile(file.name) ==> SquareMask(file.mask))
    ensures ApplyMask(face, file).Ok? <==> |Stem(file.name)| > 0
    ensures ApplyMask(face, file).Ok? ==>
      var r := ApplyMask(face, file).value;
      && |r| == 9
      && forall k :: 0 <= k < 9 ==>
           r[k] == if IsImageFile(file.name) && CellWinsAt(file.mask, k) then Stem(file.name)[0] else face[k]
  {
  }

  /** The face loop over the folder's files in order, stopping at the first exception. */
  function EncodeMasks(face: string, files: seq<MaskFile>): Result<string>
    requires ReadableMasks(files)
  {
    if |files| == 0 then Ok(face)
    else
      var prev :- EncodeMasks(face, files[..|files| - 1]);
      ApplyMask(prev, files[|files| - 1])
  }

  /** The face string of a folder, starting from the initial face. */
  function ConvertFaceToString(files: seq<MaskFile>): Result<string>
    requires ReadableMasks(files)
  {
    EncodeMasks(InitialFace, files)
  }

  /** The letter of the last image file whose mask wins cell `k`, if any. */
  function LastWinner(files: seq<MaskFile>, k: int): Option<char>
    requires SquareMasks(files) && NamedMasks(files) && 0 <= k < 9
  {
    if |files| == 0 then None
    else
      var f := files[|files| - 1];
      if IsImageFile(f.name) && CellWinsAt(f.mask, k) then Some(Stem(f.name)[0])
      else LastWinner(files[..|files| - 1], k)
  }

  lemma NamedMasksInit(files: seq<MaskFile>)
    requires |files| > 0
    ensures NamedMasks(files) <==> NamedMasks(files[..|files| - 1]) && |Stem(files[|files| - 1].name)| > 0
  {
    var init := files[..|files| - 1];
    if NamedMasks(init) && |Stem(files[|files| - 1].name)| > 0 {
      forall n | 0 <= n < |files| ensures |Stem(files[n].name)| > 0 {
        if n < |init| { assert files[n] == init[n]; }
      }
    }
    if NamedMasks(files) {
      forall n | 0 <= n < |init| ensures |Stem(init[n].name)| > 0 {
        assert init[n] == files[n];
      }
    }
  }

  /** Any file whose name has an empty stem makes the folder fail, and a
      folder without one succeeds. */
  lemma {:induction false} EncodeMasksFails(face: string, files: seq<MaskFile>)
    requires SquareMasks(files) && |face| == 9
    ensures EncodeMasks(face, files).Ok? <==> NamedMasks(files)
    ensures EncodeMasks(face, files).Ok? ==> |EncodeMasks(face, files).value| == 9
  {
    if |files| > 0 {
      var init := files[..|files| - 1];
      var f := files[|files| - 1];
      assert SquareMasks(init) by {
        forall n | 0 <= n < |init| && IsImageFile(init[n].name) ensures SquareMask(init[n].mask) {
          assert init[n] == files[n];
        }
      }
      EncodeMasksFails(face, init);
      if EncodeMasks(face, init).Ok? {
        ApplySquareMask(EncodeMasks(face, init).value, f);
      }
      NamedMasksInit(files);
    }
  }

  /** Later masks overwrite earlier ones: each cell carries the letter of the
      last image whose vote it wins, or its initial character when none does. */
  lemma {:induction false} EncodeMasksLastWins(face: string, files: seq<MaskFile>)
    requires SquareMasks(files) && NamedMasks(files) && |face| == 9
    ensures EncodeMasks(face, files).Ok?
    ensures var r := EncodeMasks(face, files).value;
      && |r| == 9
      && forall k :: 0 <= k < 9 ==>
           r[k] == match LastWinner(files, k) case Some(c) => c case None => face[k]
  {
    EncodeMasksFails(face, files);
    if |files| > 0 {
      var init := files[..|files| - 1];
      var f := files[|files| - 1];
      assert SquareMasks(init) && NamedMasks(init) by {
        forall n | 0 <= n < |init| ensures init[n] == files[n] { }
      }
      EncodeMasksLastWins(face, init);
      var prev := EncodeMasks(face, init).value;
      ApplySquareMask(prev, f);
    }
  }

  /** With every name in `FaceOrder`, a folder sits at the slot of its name. */
  predicate KnownFaces(folders: seq<FaceFolder>) {
    forall n :: 0 <= n < |folders| ==> folders[n].name in FaceOrder
  }

  /** Every folder's files can be encoded. */
  predicate ReadableFolders(folders: seq<FaceFolder>) {
    forall n :: 0 <= n < |folders| ==> ReadableMasks(folders[n].files)
  }

  /** Every folder encodes to a 9-character face string. */
  predicate EncodableFolders(folders: seq<FaceFolder>) {
    forall n :: 0 <= n < |folders| ==> SquareMasks(folders[n].files) && NamedMasks(folders[n].files)
  }

  /** The cube loop over the face folders in order: each folder's face is
      spliced in at the index of its name in `FaceOrder`. */
  function PlaceFolders(cube: string, folders: seq<FaceFolder>): Result<string>
    requires ReadableFolders(folders)
  {
    if |folders| == 0 then Ok(cube)
    else
      var prev :- PlaceFolders(cube, folders[..|folders| - 1]);
      var folder := folders[|folders| - 1];
      var face :- ConvertFaceToString(folder.files);
      InsertInCubeString(prev, face, FaceIndex(folder.name))
  }

  /** The face string of the last folder named `FaceOrder[f]`, if any. */
  function SlotFace(folders: seq<FaceFolder>, f: int): (o: Option<string>)
    requires EncodableFolders(folders) && 0 <= f < 6
    ensures o.Some? ==> |o.value| == 9
  {
    if |folders| == 0 then None
    else
      var folder := folders[|folders| - 1];
      if folder.name == FaceOrder[f] then
        EncodeMasksLastWins(InitialFace, folder.files);
        Some(ConvertFaceToString(folder.files).value)
      else
        assert EncodableFolders(folders[..|folders| - 1]) by {
          forall n | 0 <= n < |folders| - 1 ensures folders[..|folders| - 1][n] == folders[n] { }
        }
        SlotFace(folders[..|folders| - 1], f)
  }

  /** The six face names are distinct, so a name has exactly one slot. */
  lemma FaceOrderDistinct()
    ensures forall a, b :: 0 <= a < b < |FaceOrder| ==> FaceOrder[a] != FaceOrder[b]
  {
  }

  lemma SquareMasksReadable(files: seq<MaskFile>)
    requires SquareMasks(files)
    ensures ReadableMasks(files)
  {
  }

  lemma KnownFacesInit(folders: seq<FaceFolder>)
    requires |folders| > 0
    ensures KnownFaces(folders) <==> KnownFaces(folders[..|folders| - 1]) && folders[|folders| - 1].name in FaceOrder
  {
    var init := folders[..|folders| - 1];
    if KnownFaces(init) && folders[|folders| - 1].name in FaceOrder {
      forall n | 0 <= n < |folders| ensures folders[n].name in FaceOrder {
        if n < |init| { assert folders[n] == init[n]; }
      }
    }
    if KnownFaces(folders) {
      forall n | 0 <= n < |init| ensures init[n].name in FaceOrder {
        assert init[n] == folders[n];
      }
    }
  }

  /** When every folder encodes, placing succeeds exactly when every folder
      name is a known face, and each slot then holds the face of the last
      folder with that name; slots no folder names keep their characters. */
  lemma {:induction false} PlaceFoldersSlots(cube: string, folders: seq<FaceFolder>)
    requires |cube| == 54 && EncodableFolders(folders)
    ensures ReadableFolders(folders)
    ensures PlaceFolders(cube, folders).Ok? <==> KnownFaces(folders)
    ensures PlaceFolders(cube, folders).Ok? ==>
      var r := PlaceFolders(cube, folders).value;
      && |r| == 54
      && forall k :: 0 <= k < 54 ==>
           r[k] == match SlotFace(folders, k / 9) case Some(face) => face[k % 9] case None => cube[k]
  {
    forall n | 0 <= n < |folders| ensures ReadableMasks(folders[n].files) {
      SquareMasksReadable(folders[n].files);
    }
    if |folders| > 0 {
      var init := folders[..|folders| - 1];
      var folder := folders[|folders| - 1];
      assert EncodableFolders(init) by {
        forall n | 0 <= n < |init| ensures init[n] == folders[n] { }
      }
      PlaceFoldersSlots(cube, init);
      EncodeMasksLastWins(InitialFace, folder.files);
      var face := ConvertFaceToString(folder.files).value;
      KnownFacesInit(folders);
      if KnownFaces(folders) {
        var prev := PlaceFolders(cube, init).value;
        var f := FaceIndex(folder.name);
        InsertFaceReplacesSlot(prev, face, f);
        var r := PlaceFolders(cube, folders).value;
        assert SlotFace(folders, f) == Some(face);
        PlaceLastFolder(cube, folders, prev, r, face, f);
      }
    }
  }

  /** Writing the last folder's face into slot `f` of a cube string that
      holds the earlier folders' slots gives the slots of all the folders. */
  lemma PlaceLastFolder(cube: string, folders: seq<FaceFolder>, prev: string, r: string, face: string, f: int)
    requires |folders| > 0 && EncodableFolders(folders) && EncodableFolders(folders[..|folders| - 1])
    requires |cube| == 54 && |prev| == 54 && |r| == 54 && 0 <= f < 6
    requires FaceOrder[f] == folders[|folders| - 1].name && SlotFace(folders, f) == Some(face)
    requires forall k :: 0 <= k < 54 ==>
      prev[k] == match SlotFace(folders[..|folders| - 1], k / 9) case Some(face) => face[k % 9] case None => cube[k]
    requires forall k :: 0 <= k < 9 ==> r[9 * f + k] == face[k]
    requires forall k :: 0 <= k < 54 && !(9 * f <= k < 9 * f + 9) ==> r[k] == prev[k]
    ensures forall k :: 0 <= k < 54 ==>
      r[k] == match SlotFace(folders, k / 9) case Some(face) => face[k % 9] case None => cube[k]
  {
    var init := folders[..|folders| - 1];
    FaceOrderDistinct();
    forall k | 0 <= k < 54
      ensures r[k] == match SlotFace(folders, k / 9) case Some(face) => face[k % 9] case None => cube[k]
    {
      var g := k / 9;
      if g == f {
        assert 9 * f <= k < 9 * f + 9 && k % 9 == k - 9 * f;
        assert r[k] == r[9 * f + (k - 9 * f)];
      } else {
        assert FaceOrder[g] != folders[|folders| - 1].name;
        assert SlotFace(folders, g) == SlotFace(init, g);
        assert !(9 * f <= k < 9 * f + 9);
      }
    }
  }

  /** The cube string handed to the solver: every face folder placed into
      the all-'n' string, then the whole string lower-cased. */
  function ConvertCubeToString(folders: seq<FaceFolder>): Result<string>
    requires ReadableFolders(folders)
  {
    var cube :- PlaceFolders(InstantiateCubeString(), folders);
    Ok(ToLower(cube))
  }

  /** The cube string is the lower-cased face of the last folder of each
      name, with 'n' for faces no folder names; an unknown folder name fails. */
  lemma CubeStringFromFaces(folders: seq<FaceFolder>)
    requires EncodableFolders(folders)
    ensures ReadableFolders(folders)
    ensures ConvertCubeToString(folders).Ok? <==> KnownFaces(folders)
    ensures ConvertCubeToString(folders).Ok? ==>
      var r := ConvertCubeToString(folders).value;
      && |r| == 54
      && forall k :: 0 <= k < 54 ==>
           r[k] == match SlotFace(folders, k / 9) case Some(face) => LowerChar(face[k % 9]) case None => 'n'
  {
    PlaceFoldersSlots(InstantiateCubeString(), folders);
  }

  // ---------------------------------------------------------------------------
  // Merging the two red masks
  // ---------------------------------------------------------------------------

  /** The second image is read at (i, j) only where the first is not 255. */
  predicate CombinableAt(a: Grid, b: Grid) {
    forall i, j :: 0 <= i < |a| && 0 <= j < |a[i]| && a[i][j] != 255 ==> i < |b| && j < |b[i]|
  }

  /** Pixelwise union of two masks, sized like the first: 255 where either
      is 255, else 0. Reading the second image out of its bounds throws. */
  function CombineTwoImage(a: Grid, b: Grid): (r: Result<Grid>)
    requires IsRect(a)
    ensures r.Ok? <==> CombinableAt(a, b)
    ensures r.Ok? ==> HasShape(r.value, Width(a), Height(a)) && IsBinary(r.value)
    ensures r.Ok? ==> forall i, j :: 0 <= i < |a| && 0 <= j < Width(a) ==>
      (r.value[i][j] == 255 <==> a[i][j] == 255 || b[i][j] == 255)
  {
    if !CombinableAt(a, b) then Err(IndexOutOfRange)
    else
      Ok(seq(|a|, i requires 0 <= i < |a| => seq(Width(a), j requires 0 <= j < Width(a) =>
        if a[i][j] == 255 then 255 else if b[i][j] == 255 then 255 else 0)))
  }

  /** On masks of the same shape the union does not depend on the order. */
  lemma CombineCommutes(a: Grid, b: Grid)
    requires IsRect(a) && HasShape(b, Width(a), Height(a))
    ensures IsRect(b)
    ensures CombineTwoImage(a, b) == CombineTwoImage(b, a)
  {
    assert CombinableAt(a, b) && CombinableAt(b, a);
    assert Width(b) == Width(a);
    var r, r' := CombineTwoImage(a, b).value, CombineTwoImage(b, a).value;
    forall i | 0 <= i < |a| ensures r[i] == r'[i] {
      assert forall j :: 0 <= j < |r[i]| ==> r[i][j] == r'[i][j];
    }
    assert r == r';
  }

  /** A binary mask combined with itself is unchanged. */
  lemma CombineIdempotent(a: Grid)
    requires IsRect(a) && IsBinary(a)
    ensures CombineTwoImage(a, a) == Ok(a)
  {
    assert CombinableAt(a, a);
    var r := CombineTwoImage(a, a).value;
    forall i | 0 <= i < |a| ensures r[i] == a[i] {
      assert forall j :: 0 <= j < |a[i]| ==> r[i][j] == a[i][j];
    }
    assert r == a;
  }
}
