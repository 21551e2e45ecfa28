/** Edit distance (Levenshtein distance) with unit cost for substitution,
    insertion and deletion: the recurrence the BK-tree's dynamic-programming
    table follows, the metric laws the tree's search pruning relies on, and
    the table-filling computation itself. */
module Levenshtein {

  function Min(x: int, y: int): int { if x <= y then x else y }
  function Max(x: int, y: int): int { if x <= y then y else x }
  function Min3(x: int, y: int, z: int): int { Min(Min(x, y), z) }

  /** The edit distance between the first i characters of `a` and the first
      j characters of `b`, by the recurrence the table uses: an empty prefix
      costs the length of the other one; equal last characters copy the
      diagonal cell; otherwise 1 + the least of the diagonal cell and the two
      cells that drop one character from either side. */
  function PrefixLev(a: string, b: string, i: nat, j: nat): nat
    requires i <= |a| && j <= |b|
    decreases i + j
  {
    if j == 0 then i
    else if i == 0 then j
    else if b[j - 1] == a[i - 1] then PrefixLev(a, b, i - 1, j - 1)
    else Min3(PrefixLev(a, b, i - 1, j - 1), PrefixLev(a, b, i - 1, j), PrefixLev(a, b, i, j - 1)) + 1
  }

  /** The edit distance between `a` and `b`. */
  function Lev(a: string, b: string): nat
  {
    PrefixLev(a, b, |a|, |b|)
  }

  /** The distance is at least the difference of the two prefix lengths. */
  lemma {:induction false} PrefixLevLowerBound(a: string, b: string, i: nat, j: nat)
    requires i <= |a| && j <= |b|
    ensures PrefixLev(a, b, i, j) >= i - j && PrefixLev(a, b, i, j) >= j - i
    decreases i + j
  {
    if i > 0 && j > 0 {
      PrefixLevLowerBound(a, b, i - 1, j - 1);
      PrefixLevLowerBound(a, b, i - 1, j);
      PrefixLevLowerBound(a, b, i, j - 1);
    }
  }

  /** The distance never exceeds the longer prefix length. */
  lemma {:induction false} PrefixLevUpperBound(a: string, b: string, i: nat, j: nat)
    requires i <= |a| && j <= |b|
    ensures PrefixLev(a, b, i, j) <= Max(i, j)
    decreases i + j
  {
    if i > 0 && j > 0 {
      PrefixLevUpperBound(a, b, i - 1, j - 1);
    }
  }

  /** Distance 0 means equal prefixes, and conversely. */
  lemma {:induction false} PrefixLevZeroIff(a: string, b: string, i: nat, j: nat)
    requires i <= |a| && j <= |b|
    ensures PrefixLev(a, b, i, j) == 0 <==> a[..i] == b[..j]
    decreases i + j
  {
    if i > 0 && j > 0 {
      PrefixLevZeroIff(a, b, i - 1, j - 1);
      assert a[..i] == a[..i - 1] + [a[i - 1]] && b[..j] == b[..j - 1] + [b[j - 1]];
      if a[..i] == b[..j] {
        assert a[i - 1] == a[..i][i - 1] && b[j - 1] == b[..j][j - 1];
        assert a[..i - 1] == a[..i][..i - 1] && b[..j - 1] == b[..j][..j - 1];
      }
      if PrefixLev(a, b, i, j) == 0 {
        PrefixLevLowerBound(a, b, i - 1, j - 1);
      }
    } else {
      assert |a[..i]| == i && |b[..j]| == j;
    }
  }

  /** Distance 0 means equal strings, and conversely. */
  lemma LevZeroIff(a: string, b: string)
    ensures Lev(a, b) == 0 <==> a == b
  {
    PrefixLevZeroIff(a, b, |a|, |b|);
    assert a[..|a|] == a && b[..|b|] == b;
  }

  /** Every string is at distance 0 from itself. */
  lemma LevSelf(a: string)
    ensures Lev(a, a) == 0
  {
    LevZeroIff(a, a);
  }

  /** The distance does not depend on the order of its arguments. */
  lemma {:induction false} PrefixLevSymmetric(a: string, b: string, i: nat, j: nat)
    requires i <= |a| && j <= |b|
    ensures PrefixLev(a, b, i, j) == PrefixLev(b, a, j, i)
    decreases i + j
  {
    if i > 0 && j > 0 {
      PrefixLevSymmetric(a, b, i - 1, j - 1);
      PrefixLevSymmetric(a, b, i - 1, j);
      PrefixLevSymmetric(a, b, i, j - 1);
    }
  }

  lemma LevSymmetric(a: string, b: string)
    ensures Lev(a, b) == Lev(b, a)
  {
    PrefixLevSymmetric(a, b, |a|, |b|);
  }

  /** Adding or dropping the last character of either prefix moves the
      distance by at most one. */
  lemma {:induction false} PrefixLevNeighbours(a: string, b: string, i: nat, j: nat)
    requires i <= |a| && j <= |b|
    ensures i > 0 ==> PrefixLev(a, b, i, j) <= PrefixLev(a, b, i - 1, j) + 1
    ensures j > 0 ==> PrefixLev(a, b, i, j) <= PrefixLev(a, b, i, j - 1) + 1
    ensures i > 0 ==> PrefixLev(a, b, i - 1, j) <= PrefixLev(a, b, i, j) + 1
    ensures j > 0 ==> PrefixLev(a, b, i, j - 1) <= PrefixLev(a, b, i, j) + 1
    decreases i + j
  {
    if i > 0 && j > 0 {
      PrefixLevNeighbours(a, b, i - 1, j);
      PrefixLevNeighbours(a, b, i, j - 1);
    }
  }

  /** 0 when the characters agree, 1 when a substitution is needed. */
  function Cost(x: char, y: char): nat { if x == y then 0 else 1 }

  /** The three ways of ending an alignment each bound the distance from above,
      also when the last characters agree and the table copies the diagonal. */
  lemma PrefixLevStepBounds(a: string, b: string, i: nat, j: nat)
    requires 0 < i <= |a| && 0 < j <= |b|
    ensures PrefixLev(a, b, i, j) <= PrefixLev(a, b, i - 1, j - 1) + Cost(a[i - 1], b[j - 1])
    ensures PrefixLev(a, b, i, j) <= PrefixLev(a, b, i - 1, j) + 1
    ensures PrefixLev(a, b, i, j) <= PrefixLev(a, b, i, j - 1) + 1
  {
    PrefixLevNeighbours(a, b, i, j);
  }

  /** How a distance ends: on the diagonal (substituting or keeping the last
      characters), or by dropping the last character of either prefix. */
  lemma PrefixLevLastStep(a: string, b: string, i: nat, j: nat)
    requires 0 < i <= |a| && 0 < j <= |b|
    ensures || PrefixLev(a, b, i, j) == PrefixLev(a, b, i - 1, j - 1) + Cost(a[i - 1], b[j - 1])
            || PrefixLev(a, b, i, j) == PrefixLev(a, b, i - 1, j) + 1
            || PrefixLev(a, b, i, j) == PrefixLev(a, b, i, j - 1) + 1
  {
  }

  /** The triangle inequality on prefixes, by induction on the three prefix
      lengths and on how the two distances on the right end. */
  lemma {:induction false} PrefixLevTriangle(a: string, b: string, c: string, i: nat, j: nat, k: nat)
    requires i <= |a| && j <= |b| && k <= |c|
    ensures PrefixLev(a, c, i, k) <= PrefixLev(a, b, i, j) + PrefixLev(b, c, j, k)
    decreases i + j + k, 1
  {
    if i == 0 {
      PrefixLevLowerBound(b, c, j, k);
    } else if k == 0 {
      PrefixLevLowerBound(a, b, i, j);
    } else if j == 0 {
      PrefixLevUpperBound(a, c, i, k);
    } else if PrefixLev(a, b, i, j) == PrefixLev(a, b, i - 1, j) + 1 {
      PrefixLevTriangle(a, b, c, i - 1, j, k);
      PrefixLevNeighbours(a, c, i, k);
    } else if PrefixLev(b, c, j, k) == PrefixLev(b, c, j, k - 1) + 1 {
      PrefixLevTriangle(a, b, c, i, j, k - 1);
      PrefixLevNeighbours(a, c, i, k);
    } else {
      PrefixLevLastStep(a, b, i, j);
      PrefixLevLastStep(b, c, j, k);
      var i' := if PrefixLev(a, b, i, j) == PrefixLev(a, b, i, j - 1) + 1 then i else i - 1;
      var k' := if PrefixLev(b, c, j, k) == PrefixLev(b, c, j - 1, k) + 1 then k else k - 1;
      PrefixLevTriangleThroughB(a, b, c, i, j, k, i', k');
    }
  }

  /** The case of the triangle inequality where both distances on the right
      end by a step that consumes the last character of `b`'s prefix: a
      diagonal step (i' = i - 1, resp. k' = k - 1) or a step that drops it. */
  lemma {:induction false} PrefixLevTriangleThroughB(a: string, b: string, c: string, i: nat, j: nat, k: nat, i': nat, k': nat)
    requires 0 < i <= |a| && 0 < j <= |b| && 0 < k <= |c|
    requires i' == i || i' == i - 1
    requires k' == k || k' == k - 1
    requires PrefixLev(a, b, i, j) == PrefixLev(a, b, i', j - 1) + (if i' == i then 1 else Cost(a[i - 1], b[j - 1]))
    requires PrefixLev(b, c, j, k) == PrefixLev(b, c, j - 1, k') + (if k' == k then 1 else Cost(b[j - 1], c[k - 1]))
    ensures PrefixLev(a, c, i, k) <= PrefixLev(a, b, i, j) + PrefixLev(b, c, j, k)
    decreases i + j + k, 0
  {
    PrefixLevTriangle(a, b, c, i', j - 1, k');
    PrefixLevStepBounds(a, c, i, k);
    if i' == i - 1 && k' == k - 1 {
      assert Cost(a[i - 1], c[k - 1]) <= Cost(a[i - 1], b[j - 1]) + Cost(b[j - 1], c[k - 1]);
    }
  }

  /** The triangle inequality: edit distance is a metric. */
  lemma LevTriangle(a: string, b: string, c: string)
    ensures Lev(a, c) <= Lev(a, b) + Lev(b, c)
  {
    PrefixLevTriangle(a, b, c, |a|, |b|, |c|);
  }

  /** The table-filling computation: a (|b|+1) x (|a|+1) table whose cell
      (i, j) ends up holding the distance between the first j characters of
      `a` and the first i of `b`; the first column and first row hold the
      prefix lengths, the rest is filled row by row. */
  method LevenshteinDistance(a: string, b: string) returns (d: nat)
    ensures d == Lev(a, b)
  {
    var matrix := new nat[|b| + 1, |a| + 1];
    for i := 0 to |b| + 1
      invariant forall r :: 0 <= r < i ==> matrix[r, 0] == r
    {
      matrix[i, 0] := i;
    }
    for j := 0 to |a| + 1
      invariant forall r :: 0 <= r <= |b| ==> matrix[r, 0] == r
      invariant forall c :: 0 <= c < j ==> matrix[0, c] == c
    {
      matrix[0, j] := j;
    }
    for i := 1 to |b| + 1
      invariant forall r, c {:trigger matrix[r, c]} :: 0 <= r < i && 0 <= c <= |a| ==> matrix[r, c] == PrefixLev(a, b, c, r)
      invariant forall r :: i <= r <= |b| ==> matrix[r, 0] == r
    {
      FillRow(matrix, a, b, i);
    }
    d := matrix[|b|, |a|];
  }

  /** Fills row `i` of the table from row `i - 1`, left to right; the rows
      below keep their first column. */
  method FillRow(matrix: array2<nat>, a: string, b: string, i: nat)
    requires matrix.Length0 == |b| + 1 && matrix.Length1 == |a| + 1 && 1 <= i <= |b|
    requires forall r, c {:trigger matrix[r, c]} :: 0 <= r < i && 0 <= c <= |a| ==> matrix[r, c] == PrefixLev(a, b, c, r)
    requires matrix[i, 0] == i
    modifies matrix
    ensures forall r, c {:trigger matrix[r, c]} :: 0 <= r <= i && 0 <= c <= |a| ==> matrix[r, c] == PrefixLev(a, b, c, r)
    ensures forall r :: i < r <= |b| ==> matrix[r, 0] == old(matrix[r, 0])
  {
    for j := 1 to |a| + 1
      invariant forall r, c {:trigger matrix[r, c]} :: 0 <= r < i && 0 <= c <= |a| ==> matrix[r, c] == PrefixLev(a, b, c, r)
      invariant forall c {:trigger matrix[i, c]} :: 0 <= c < j ==> matrix[i, c] == PrefixLev(a, b, c, i)
      invariant forall r :: i < r <= |b| ==> matrix[r, 0] == old(matrix[r, 0])
    {
      var diagonal, left, up := matrix[i - 1, j - 1], matrix[i, j - 1], matrix[i - 1, j];
      assert diagonal == PrefixLev(a, b, j - 1, i - 1) && left == PrefixLev(a, b, j - 1, i)
        && up == PrefixLev(a, b, j, i - 1);
      if b[i - 1] == a[j - 1] {
        matrix[i, j] := diagonal;
      } else {
        matrix[i, j] := Min3(diagonal + 1, left + 1, up + 1);
      }
    }
  }
}
