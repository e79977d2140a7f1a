/** The Levenshtein edit distance from Program.cs: the recurrence as a function and
    the C# dynamic-programming fill of an (|source|+1) x (|target|+1) matrix as a
    method proved to compute it. */
module Levenshtein {

  function Min3(a: nat, b: nat, c: nat): nat {
    if a <= b && a <= c then a else if b <= c then b else c
  }

  /** The matrix entry for the first `i` characters of `s` and the first `j` of `t`. */
  function D(s: string, t: string, i: nat, j: nat): nat
    requires i <= |s| && j <= |t|
    decreases i + j
  {
    if i == 0 then j
    else if j == 0 then i
    else Min3(D(s, t, i - 1, j) + 1,
              D(s, t, i, j - 1) + 1,
              D(s, t, i - 1, j - 1) + (if t[j - 1] == s[i - 1] then 0 else 1))
  }

  /** The edit distance between `s` and `t`. */
  function Distance(s: string, t: string): nat {
    D(s, t, |s|, |t|)
  }

  /** LevenshteinDistance: both empty-string shortcuts, then the row and column
      initialisation, then the row-by-row fill; the answer is the last cell. */
  method LevenshteinDistance(source: string, target: string) returns (d: nat)
    ensures d == Distance(source, target)
    ensures source == [] ==> d == |target|
    ensures target == [] ==> d == |source|
  {
    if |source| == 0 {
      return if |target| == 0 then 0 else |target|;
    }
    if |target| == 0 {
      return |source|;
    }
    var n, m := |source|, |target|;
    var matrix := new int[n + 1, m + 1];
    for i := 0 to n + 1
      invariant forall a :: 0 <= a < i ==> matrix[a, 0] == a
    {
      matrix[i, 0] := i;
    }
    for j := 0 to m + 1
      invariant forall a :: 0 <= a <= n ==> matrix[a, 0] == a
      invariant forall b :: 0 <= b < j ==> matrix[0, b] == b
    {
      matrix[0, j] := j;
    }
    for i := 1 to n + 1
      invariant forall a, b {:trigger matrix[a, b]} :: 0 <= a < i && 0 <= b <= m ==> matrix[a, b] == D(source, target, a, b)
      invariant forall a :: i <= a <= n ==> matrix[a, 0] == a
    {
      FillRow(source, target, matrix, i);
    }
    d := matrix[n, m];
  }

  /** One row of the fill: row `i` from column 1 on, each cell from its left,
      upper and upper-left neighbours; the other rows stay as they are. */
  method FillRow(source: string, target: string, matrix: array2<int>, i: nat)
    requires matrix.Length0 == |source| + 1 && matrix.Length1 == |target| + 1 && 1 <= i <= |source|
    requires forall a, b {:trigger matrix[a, b]} :: 0 <= a < i && 0 <= b <= |target| ==> matrix[a, b] == D(source, target, a, b)
    requires matrix[i, 0] == i
    modifies matrix
    ensures forall a, b {:trigger matrix[a, b]} :: 0 <= a <= i && 0 <= b <= |target| ==> matrix[a, b] == D(source, target, a, b)
    ensures forall a, b :: i < a <= |source| && 0 <= b <= |target| ==> matrix[a, b] == old(matrix[a, b])
  {
    var m := |target|;
    for j := 1 to m + 1
      invariant forall a, b {:trigger matrix[a, b]} :: 0 <= a < i && 0 <= b <= m ==> matrix[a, b] == D(source, target, a, b)
      invariant forall b {:trigger matrix[i, b]} :: 0 <= b < j ==> matrix[i, b] == D(source, target, i, b)
      invariant forall a, b :: i < a <= |source| && 0 <= b <= m ==> matrix[a, b] == old(matrix[a, b])
    {
      var cost := if target[j - 1] == source[i - 1] then 0 else 1;
      matrix[i, j] := Min(Min(matrix[i - 1, j] + 1, matrix[i, j - 1] + 1), matrix[i - 1, j - 1] + cost);
      DStep(source, target, i, j);
    }
  }

  /** The recurrence of one inner cell, written with Math.Min as the C# code has it. */
  lemma DStep(s: string, t: string, i: nat, j: nat)
    requires 1 <= i <= |s| && 1 <= j <= |t|
    ensures D(s, t, i, j) == Min(Min(D(s, t, i - 1, j) + 1, D(s, t, i, j - 1) + 1),
                                 D(s, t, i - 1, j - 1) + (if t[j - 1] == s[i - 1] then 0 else 1))
  {
  }

  /** Math.Min. */
  function Min(a: int, b: int): int {
    if a <= b then a else b
  }

  lemma {:induction false} DSymmetric(s: string, t: string, i: nat, j: nat)
    requires i <= |s| && j <= |t|
    ensures D(s, t, i, j) == D(t, s, j, i)
    decreases i + j
  {
    if i > 0 && j > 0 {
      DSymmetric(s, t, i - 1, j);
      DSymmetric(s, t, i, j - 1);
      DSymmetric(s, t, i - 1, j - 1);
    }
  }

  /** The distance does not depend on the order of its arguments. */
  lemma DistanceSymmetric(s: string, t: string)
    ensures Distance(s, t) == Distance(t, s)
  {
    DSymmetric(s, t, |s|, |t|);
  }

  lemma Min3Above(a: nat, b: nat, c: nat, g: nat)
    requires g <= a && g <= b && g <= c
    ensures g <= Min3(a, b, c)
  {
  }

  function Gap(i: nat, j: nat): nat {
    if i <= j then j - i else i - j
  }

  function Max(i: nat, j: nat): nat {
    if i <= j then j else i
  }

  lemma {:induction false} DLower(s: string, t: string, i: nat, j: nat)
    requires i <= |s| && j <= |t|
    ensures Gap(i, j) <= D(s, t, i, j)
    decreases i + j
  {
    if i > 0 && j > 0 {
      DLower(s, t, i - 1, j);
      DLower(s, t, i, j - 1);
      DLower(s, t, i - 1, j - 1);
      var g := Gap(i, j);
      assert Gap(i - 1, j) + 1 >= g && Gap(i, j - 1) + 1 >= g && Gap(i - 1, j - 1) == g;
      var cost := if t[j - 1] == s[i - 1] then 0 else 1;
      Min3Above(D(s, t, i - 1, j) + 1, D(s, t, i, j - 1) + 1, D(s, t, i - 1, j - 1) + cost, g);
    }
  }

  lemma {:induction false} DUpper(s: string, t: string, i: nat, j: nat)
    requires i <= |s| && j <= |t|
    ensures D(s, t, i, j) <= Max(i, j)
    decreases i + j
  {
    if i > 0 && j > 0 {
      DUpper(s, t, i - 1, j - 1);
      var cost := if t[j - 1] == s[i - 1] then 0 else 1;
      assert D(s, t, i, j) <= D(s, t, i - 1, j - 1) + cost;
    }
  }

  lemma DBounds(s: string, t: string, i: nat, j: nat)
    requires i <= |s| && j <= |t|
    ensures Gap(i, j) <= D(s, t, i, j) <= Max(i, j)
  {
    DLower(s, t, i, j);
    DUpper(s, t, i, j);
  }

  /** The distance is at least the difference of the lengths and at most the larger length. */
  lemma DistanceBounds(s: string, t: string)
    ensures Gap(|s|, |t|) <= Distance(s, t) <= Max(|s|, |t|)
  {
    DBounds(s, t, |s|, |t|);
  }

  lemma {:induction false} DZero(s: string, t: string, i: nat, j: nat)
    requires i <= |s| && j <= |t|
    ensures D(s, t, i, j) == 0 <==> i == j && s[..i] == t[..j]
    decreases i + j
  {
    if i > 0 && j > 0 {
      DLower(s, t, i - 1, j);
      DLower(s, t, i, j - 1);
      DZero(s, t, i - 1, j - 1);
      assert s[..i] == s[..i - 1] + [s[i - 1]];
      assert t[..j] == t[..j - 1] + [t[j - 1]];
      if i == j && s[..i] == t[..j] {
        assert s[..i - 1] == s[..i][..i - 1];
        assert t[..j - 1] == t[..j][..j - 1];
        assert s[i - 1] == s[..i][i - 1];
        assert t[j - 1] == t[..j][j - 1];
      }
    }
  }

  /** The distance is zero exactly when the two strings are equal. */
  lemma DistanceZeroIff(s: string, t: string)
    ensures Distance(s, t) == 0 <==> s == t
  {
    DZero(s, t, |s|, |t|);
    assert s[..|s|] == s && t[..|t|] == t;
  }

  /** Dropping the last character of a string costs exactly one edit. */
  lemma DistanceDropLast(s: string, c: char)
    ensures Distance(s + [c], s) == 1
  {
    var u := s + [c];
    var n := |s|;
    DZero(u, s, n, n);
    assert u[..n] == s[..n];
    DBounds(u, s, n + 1, n);
    if n > 0 {
      DBounds(u, s, n + 1, n - 1);
      DBounds(u, s, n, n - 1);
    }
  }
}
