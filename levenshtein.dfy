/** Levenshtein edit distance, computed as the search engine does: a dynamic-programming
    matrix whose rows follow the second string and whose columns follow the first. */
module Levenshtein {

  function Min3(x: nat, y: nat, z: nat): (m: nat)
    ensures m <= x && m <= y && m <= z
    ensures m == x || m == y || m == z
  {
    if x <= y && x <= z then x else if y <= z then y else z
  }

  /** The value of matrix cell [i][j]: the distance between the first `i` characters
      of `b` and the first `j` characters of `a`. A matching character copies the
      diagonal; otherwise the cell is one more than the cheapest of substitution,
      insertion and deletion. */
  function Cell(a: string, b: string, i: nat, j: nat): nat
    requires i <= |b| && j <= |a|
    decreases i + j
  {
    if i == 0 then j
    else if j == 0 then i
    else if b[i - 1] == a[j - 1] then Cell(a, b, i - 1, j - 1)
    else Min3(Cell(a, b, i - 1, j - 1) + 1, Cell(a, b, i, j - 1) + 1, Cell(a, b, i - 1, j) + 1)
  }

  /** The distance between `a` and `b`: the bottom-right cell of the matrix. */
  function Distance(a: string, b: string): nat {
    Cell(a, b, |b|, |a|)
  }

  /** `levenshteinDistance(str1, str2)`: fills the matrix row by row and returns its
      last cell, after the early returns for an empty argument. */
  method LevenshteinDistance(str1: string, str2: string) returns (d: nat)
    ensures d == Distance(str1, str2)
  {
    if |str1| == 0 {
      return |str2|;
    }
    if |str2| == 0 {
      return |str1|;
    }
    var matrix := NewMatrix(str1, str2);
    var i := 1;
    while i <= |str2|
      invariant 1 <= i <= |str2| + 1
      invariant forall r, c :: 0 <= r < i && 0 <= c <= |str1| ==> matrix[r, c] == Cell(str1, str2, r, c)
      invariant forall r :: i <= r <= |str2| ==> matrix[r, 0] == r
    {
      FillRow(matrix, str1, str2, i);
      i := i + 1;
    }
    d := matrix[|str2|, |str1|];
  }

  /** The matrix with its first column `0..|str2|` and its first row `0..|str1|`. */
  method NewMatrix(str1: string, str2: string) returns (matrix: array2<nat>)
    ensures fresh(matrix)
    ensures matrix.Length0 == |str2| + 1 && matrix.Length1 == |str1| + 1
    ensures forall r :: 0 <= r <= |str2| ==> matrix[r, 0] == r
    ensures forall c :: 0 <= c <= |str1| ==> matrix[0, c] == c
  {
    matrix := new nat[|str2| + 1, |str1| + 1];
    var i := 0;
    while i <= |str2|
      invariant 0 <= i <= |str2| + 1
      invariant forall r :: 0 <= r < i ==> matrix[r, 0] == r
    {
      matrix[i, 0] := i;
      i := i + 1;
    }
    var j := 0;
    while j <= |str1|
      invariant 0 <= j <= |str1| + 1
      invariant forall c :: 0 <= c < j ==> matrix[0, c] == c
      invariant forall r :: 0 <= r <= |str2| ==> matrix[r, 0] == r
    {
      matrix[0, j] := j;
      j := j + 1;
    }
  }

  /** Fills row `i` from the row above it, left to right, leaving the rows below. */
  method FillRow(matrix: array2<nat>, str1: string, str2: string, i: nat)
    requires matrix.Length0 == |str2| + 1 && matrix.Length1 == |str1| + 1
    requires 1 <= i <= |str2|
    requires forall r, c :: 0 <= r < i && 0 <= c <= |str1| ==> matrix[r, c] == Cell(str1, str2, r, c)
    requires matrix[i, 0] == i
    modifies matrix
    ensures forall r, c :: 0 <= r <= i && 0 <= c <= |str1| ==> matrix[r, c] == Cell(str1, str2, r, c)
    ensures forall r :: i < r <= |str2| ==> matrix[r, 0] == old(matrix[r, 0])
  {
    assert matrix[i, 0] == Cell(str1, str2, i, 0);
    var j := 1;
    while j <= |str1|
      invariant 1 <= j <= |str1| + 1
      invariant forall r, c :: 0 <= r < i && 0 <= c <= |str1| ==> matrix[r, c] == Cell(str1, str2, r, c)
      invariant forall c :: 0 <= c < j ==> matrix[i, c] == Cell(str1, str2, i, c)
      invariant forall r :: i < r <= |str2| ==> matrix[r, 0] == old(matrix[r, 0])
    {
      var diagonal, left, above := matrix[i - 1, j - 1], matrix[i, j - 1], matrix[i - 1, j];
      assert diagonal == Cell(str1, str2, i - 1, j - 1);
      assert left == Cell(str1, str2, i, j - 1);
      assert above == Cell(str1, str2, i - 1, j);
      var value: nat;
      if str2[i - 1] == str1[j - 1] {
        value := diagonal;
      } else {
        value := Min3(diagonal + 1, left + 1, above + 1);
      }
      assert value == Cell(str1, str2, i, j);
      label Before:
      matrix[i, j] := value;
      forall c | 0 <= c <= j ensures matrix[i, c] == Cell(str1, str2, i, c) {
        assert matrix[i, c] == old@Before(matrix[i, c]) || c == j;
      }
      j := j + 1;
    }
  }

  /** An empty string is as far from `s` as `s` is long, on either side. */
  lemma DistanceToEmpty(s: string)
    ensures Distance(s, "") == |s| && Distance("", s) == |s|
  {
  }

  lemma {:induction false} CellDiagonal(a: string, i: nat)
    requires i <= |a|
    ensures Cell(a, a, i, i) == 0
  {
    if i > 0 {
      CellDiagonal(a, i - 1);
    }
  }

  /** A string is at distance 0 from itself. */
  lemma DistanceToSelf(a: string)
    ensures Distance(a, a) == 0
  {
    CellDiagonal(a, |a|);
  }

  lemma {:induction false} CellSymmetric(a: string, b: string, i: nat, j: nat)
    requires i <= |b| && j <= |a|
    ensures Cell(a, b, i, j) == Cell(b, a, j, i)
    decreases i + j
  {
    if i > 0 && j > 0 {
      CellSymmetric(a, b, i - 1, j - 1);
      if b[i - 1] != a[j - 1] {
        CellSymmetric(a, b, i, j - 1);
        CellSymmetric(a, b, i - 1, j);
      }
    }
  }

  /** The distance does not depend on the order of the arguments. */
  lemma DistanceSymmetric(a: string, b: string)
    ensures Distance(a, b) == Distance(b, a)
  {
    CellSymmetric(a, b, |b|, |a|);
  }

  lemma {:induction false} CellUpper(a: string, b: string, i: nat, j: nat)
    requires i <= |b| && j <= |a|
    ensures Cell(a, b, i, j) <= if i <= j then j else i
    decreases i + j
  {
    if i > 0 && j > 0 {
      CellUpper(a, b, i - 1, j - 1);
    }
  }

  lemma {:induction false} CellLower(a: string, b: string, i: nat, j: nat)
    requires i <= |b| && j <= |a|
    ensures Cell(a, b, i, j) >= if i <= j then j - i else i - j
    decreases i + j
  {
    if i > 0 && j > 0 {
      CellLower(a, b, i - 1, j - 1);
      if b[i - 1] != a[j - 1] {
        CellLower(a, b, i, j - 1);
        CellLower(a, b, i - 1, j);
      }
    }
  }

  lemma CellBounds(a: string, b: string, i: nat, j: nat)
    requires i <= |b| && j <= |a|
    ensures Cell(a, b, i, j) <= if i <= j then j else i
    ensures Cell(a, b, i, j) >= if i <= j then j - i else i - j
  {
    CellUpper(a, b, i, j);
    CellLower(a, b, i, j);
  }

  /** The distance is at least the difference of the lengths and at most the
      longer length. */
  lemma DistanceBounds(a: string, b: string)
    ensures Distance(a, b) <= if |a| <= |b| then |b| else |a|
    ensures Distance(a, b) >= if |a| <= |b| then |b| - |a| else |a| - |b|
  {
    CellBounds(a, b, |b|, |a|);
  }

  /** Only equal strings are at distance 0. */
  lemma {:induction false} CellZero(a: string, b: string, i: nat, j: nat)
    requires i <= |b| && j <= |a|
    requires Cell(a, b, i, j) == 0
    ensures i == j && b[..i] == a[..j]
    decreases i + j
  {
    CellBounds(a, b, i, j);
    if i > 0 {
      if b[i - 1] == a[j - 1] {
        CellZero(a, b, i - 1, j - 1);
        assert b[..i] == b[..i - 1] + [b[i - 1]];
        assert a[..j] == a[..j - 1] + [a[j - 1]];
      }
    }
  }

  lemma DistanceZero(a: string, b: string)
    ensures Distance(a, b) == 0 <==> a == b
  {
    if Distance(a, b) == 0 {
      CellZero(a, b, |b|, |a|);
      assert a == a[..|a|] && b == b[..|b|];
    }
    if a == b {
      DistanceToSelf(a);
    }
  }
}
