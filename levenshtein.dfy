/**
 * `edit_distance` of src/match.py: Levenshtein distance with unit-cost
 * insertion, deletion and substitution, computed bottom-up in a table.
 */
module Levenshtein {

  function Min3(a: int, b: int, c: int): (m: int)
    ensures m <= a && m <= b && m <= c
    ensures m == a || m == b || m == c
  {
    if a <= b && a <= c then a else if b <= c then b else c
  }

  function Max(a: int, b: int): int {
    if a >= b then a else b
  }

  /**
   * The recursive definition of Levenshtein distance, by the last
   * characters of the two strings.
   */
  function Lev(s: string, t: string): nat
    decreases |s| + |t|
  {
    if |s| == 0 then |t|
    else if |t| == 0 then |s|
    else
      var s', t' := s[..|s| - 1], t[..|t| - 1];
      if s[|s| - 1] == t[|t| - 1] then Lev(s', t')
      else Min3(Lev(s', t) + 1, Lev(s, t') + 1, Lev(s', t') + 1)
  }

  /**
   * `edit_distance(s1, s2)`: the early returns for an empty string, then the
   * (len1+1) x (len2+1) table whose cell [i, j] ends up holding the distance
   * between the first i characters of s1 and the first j of s2.
   */
  method EditDistance(s1: string, s2: string) returns (d: nat)
    ensures d == Lev(s1, s2)
  {
    var len1, len2 := |s1|, |s2|;
    if len1 == 0 {
      return len2;
    }
    if len2 == 0 {
      return len1;
    }
    var matrix := new nat[len1 + 1, len2 + 1];
    for i := 0 to len1 + 1
      invariant forall k :: 0 <= k < i ==> matrix[k, 0] == k
    {
      matrix[i, 0] := i;
    }
    for j := 0 to len2 + 1
      invariant forall k :: 0 <= k <= len1 ==> matrix[k, 0] == k
      invariant forall l :: 0 <= l < j ==> matrix[0, l] == l
    {
      matrix[0, j] := j;
    }
    forall l | 0 <= l <= len2
      ensures matrix[0, l] == Lev(s1[..0], s2[..l])
    {
    }
    for i := 1 to len1 + 1
      invariant forall k, l :: 0 <= k < i && 0 <= l <= len2 ==> matrix[k, l] == Lev(s1[..k], s2[..l])
      invariant forall k :: i <= k <= len1 ==> matrix[k, 0] == k
    {
      FillRow(matrix, s1, s2, i);
    }
    assert s1[..len1] == s1 && s2[..len2] == s2;
    return matrix[len1, len2];
  }

  /**
   * The inner loop of `edit_distance`: row i of the table from row i - 1,
   * left to right, leaving every other row as it was.
   */
  method FillRow(matrix: array2<nat>, s1: string, s2: string, i: nat)
    requires matrix.Length0 == |s1| + 1 && matrix.Length1 == |s2| + 1
    requires 0 < i <= |s1|
    requires forall l :: 0 <= l <= |s2| ==> matrix[i - 1, l] == Lev(s1[..i - 1], s2[..l])
    requires matrix[i, 0] == i
    modifies matrix
    ensures forall l :: 0 <= l <= |s2| ==> matrix[i, l] == Lev(s1[..i], s2[..l])
    ensures forall k, l :: 0 <= k < matrix.Length0 && 0 <= l < matrix.Length1 && k != i ==>
      matrix[k, l] == old(matrix[k, l])
  {
    assert matrix[i, 0] == Lev(s1[..i], s2[..0]);
    for j := 1 to |s2| + 1
      invariant forall l :: 0 <= l < j ==> matrix[i, l] == Lev(s1[..i], s2[..l])
      invariant forall k, l :: 0 <= k < matrix.Length0 && 0 <= l < matrix.Length1 && k != i ==>
        matrix[k, l] == old(matrix[k, l])
    {
      var deletion, insertion, substitution := matrix[i - 1, j], matrix[i, j - 1], matrix[i - 1, j - 1];
      assert deletion == old(matrix[i - 1, j]) && substitution == old(matrix[i - 1, j - 1]);
      var cell := if s1[i - 1] == s2[j - 1] then substitution
                  else Min3(deletion + 1, insertion + 1, substitution + 1);
      LevStep(s1, s2, i, j, deletion, insertion, substitution);
      matrix[i, j] := cell;
    }
  }

  /** One step of the table recurrence, stated on prefixes. */
  lemma LevStep(s1: string, s2: string, i: int, j: int, deletion: nat, insertion: nat, substitution: nat)
    requires 0 < i <= |s1| && 0 < j <= |s2|
    requires deletion == Lev(s1[..i - 1], s2[..j])
    requires insertion == Lev(s1[..i], s2[..j - 1])
    requires substitution == Lev(s1[..i - 1], s2[..j - 1])
    ensures Lev(s1[..i], s2[..j]) ==
      if s1[i - 1] == s2[j - 1] then substitution
      else Min3(deletion + 1, insertion + 1, substitution + 1)
  {
    var s, t := s1[..i], s2[..j];
    assert s[..|s| - 1] == s1[..i - 1] && s[|s| - 1] == s1[i - 1];
    assert t[..|t| - 1] == s2[..j - 1] && t[|t| - 1] == s2[j - 1];
  }

  // ---------------------------------------------------------------------
  // Properties of the distance

  /**
   * The distance is never more than the longer length and never less than
   * the difference of the lengths.
   */
  lemma {:induction false} LevBounds(s: string, t: string)
    ensures Lev(s, t) <= Max(|s|, |t|)
    ensures |s| - |t| <= Lev(s, t) && |t| - |s| <= Lev(s, t)
    decreases |s| + |t|
  {
    if |s| > 0 && |t| > 0 {
      var s', t' := s[..|s| - 1], t[..|t| - 1];
      LevBounds(s', t');
      LevBounds(s', t);
      LevBounds(s, t');
    }
  }

  /** A string is at distance 0 from itself... */
  lemma {:induction false} LevSelf(s: string)
    ensures Lev(s, s) == 0
  {
    if |s| > 0 {
      LevSelf(s[..|s| - 1]);
    }
  }

  /** ...and only from itself. */
  lemma {:induction false} LevZeroIffEqual(s: string, t: string)
    ensures Lev(s, t) == 0 <==> s == t
    decreases |s| + |t|
  {
    if s == t {
      LevSelf(s);
    } else if |s| > 0 && |t| > 0 && s[|s| - 1] == t[|t| - 1] {
      var s', t' := s[..|s| - 1], t[..|t| - 1];
      assert s == s' + [s[|s| - 1]] && t == t' + [t[|t| - 1]];
      LevZeroIffEqual(s', t');
    }
  }

  /** The distance does not depend on the order of its arguments. */
  lemma {:induction false} LevSymmetric(s: string, t: string)
    ensures Lev(s, t) == Lev(t, s)
    decreases |s| + |t|
  {
    if |s| > 0 && |t| > 0 {
      var s', t' := s[..|s| - 1], t[..|t| - 1];
      LevSymmetric(s', t');
      LevSymmetric(s', t);
      LevSymmetric(s, t');
    }
  }

  /** Appending the same character to both strings keeps the distance. */
  lemma LevAppendSame(s: string, t: string, c: char)
    ensures Lev(s + [c], t + [c]) == Lev(s, t)
  {
    assert (s + [c])[..|s|] == s;
    assert (t + [c])[..|t|] == t;
  }
}
