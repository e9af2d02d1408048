/**
 * `names_match` of src/match.py: whether two counterparty names plausibly
 * denote the same party, after normalisation, by equality, by containment,
 * or token by token with a typo tolerance.
 */
module Names {
  import opened Wrappers
  import opened Text
  import opened Normalize
  import opened Levenshtein
  import opened Records

  /** How many edits a token of this length may absorb: 1 up to 5 characters, else 2. */
  function Tolerance(part: string): nat {
    if |part| <= 5 then 1 else 2
  }

  /** A token of the shorter name corresponds to a token of the longer one. */
  predicate TokensCorrespond(part: string, other: string) {
    IsSubstring(part, other) || IsSubstring(other, part) || Lev(part, other) <= Tolerance(part)
  }

  /** Some token of `longer` corresponds to `part` (see `CorrespondsMeaning`). */
  predicate Corresponds(part: string, longer: seq<string>) {
    |longer| > 0 &&
    (Corresponds(part, longer[..|longer| - 1]) || TokensCorrespond(part, longer[|longer| - 1]))
  }

  /** Every token of `shorter` corresponds to some token of `longer` (see `CoveredMeaning`). */
  predicate Covered(shorter: seq<string>, longer: seq<string>) {
    |shorter| == 0 ||
    (Covered(shorter[..|shorter| - 1], longer) && Corresponds(shorter[|shorter| - 1], longer))
  }

  /**
   * Tokens at the same position are within the first token's tolerance
   * (see `AlignedMeaning`).
   */
  predicate Aligned(parts1: seq<string>, parts2: seq<string>)
    requires |parts1| == |parts2|
  {
    var n := |parts1|;
    n == 0 ||
    (Aligned(parts1[..n - 1], parts2[..n - 1]) && Lev(parts1[n - 1], parts2[n - 1]) <= Tolerance(parts1[n - 1]))
  }

  /** The token comparison: coverage when the counts differ, alignment when they agree. */
  predicate PartsMatch(parts1: seq<string>, parts2: seq<string>) {
    if |parts1| < |parts2| then Covered(parts1, parts2)
    else if |parts2| < |parts1| then Covered(parts2, parts1)
    else Aligned(parts1, parts2)
  }

  /** What `names_match` decides, case by case in the order it tries them. */
  predicate NamesAgree(name1: Option<string>, name2: Option<string>) {
    Present(name1) && Present(name2) &&
    var norm1, norm2 := NormalizeName(name1), NormalizeName(name2);
    norm1 == norm2 || IsSubstring(norm1, norm2) || IsSubstring(norm2, norm1) ||
    PartsMatch(Split(norm1), Split(norm2))
  }

  /**
   * `names_match(name1, name2)`: absent or empty names never match; then
   * exact match, containment, and the token loops, each of which computes
   * edit distances with `EditDistance`.
   */
  method NamesMatch(name1: Option<string>, name2: Option<string>) returns (m: bool)
    ensures m == NamesAgree(name1, name2)
  {
    if name1.None? || name1.value == "" || name2.None? || name2.value == "" {
      return false;
    }
    var norm1, norm2 := NormalizeName(name1), NormalizeName(name2);
    if norm1 == norm2 {
      return true;
    }
    if IsSubstring(norm1, norm2) || IsSubstring(norm2, norm1) {
      return true;
    }
    var parts1, parts2 := Split(norm1), Split(norm2);
    m := PartsAgree(parts1, parts2);
  }

  /**
   * The token comparison of `names_match`: with different token counts
   * every token of the shorter name needs a correspondent in the longer
   * one; with equal counts the tokens are compared position by position.
   */
  method PartsAgree(parts1: seq<string>, parts2: seq<string>) returns (m: bool)
    ensures m == PartsMatch(parts1, parts2)
  {
    if |parts1| != |parts2| {
      var shorter := if |parts1| < |parts2| then parts1 else parts2;
      var longer := if |parts1| < |parts2| then parts2 else parts1;
      m := AllCovered(shorter, longer);
      return;
    }
    for i := 0 to |parts1|
      invariant Aligned(parts1[..i], parts2[..i])
    {
      var dist := EditDistance(parts1[i], parts2[i]);
      var maxAllowed := if |parts1[i]| <= 5 then 1 else 2;
      if dist > maxAllowed {
        AlignedMeaning(parts1, parts2);
        return false;
      }
      assert parts1[..i + 1][..i] == parts1[..i] && parts2[..i + 1][..i] == parts2[..i];
    }
    assert parts1[..|parts1|] == parts1 && parts2[..|parts2|] == parts2;
    return true;
  }

  /** The loop over the shorter name's tokens, giving up at the first without a correspondent. */
  method AllCovered(shorter: seq<string>, longer: seq<string>) returns (covered: bool)
    ensures covered == Covered(shorter, longer)
  {
    for i := 0 to |shorter|
      invariant Covered(shorter[..i], longer)
    {
      var foundMatch := HasCorrespondent(shorter[i], longer);
      CorrespondsMeaning(shorter[i], longer);
      if !foundMatch {
        CoveredMeaning(shorter, longer);
        return false;
      }
      assert shorter[..i + 1][..i] == shorter[..i];
    }
    assert shorter[..|shorter|] == shorter;
    return true;
  }

  /** The inner loop over the longer name's tokens, stopping at the first correspondent. */
  method HasCorrespondent(part: string, longer: seq<string>) returns (found: bool)
    ensures found <==> exists j :: 0 <= j < |longer| && TokensCorrespond(part, longer[j])
  {
    for j := 0 to |longer|
      invariant forall l :: 0 <= l < j ==> !TokensCorrespond(part, longer[l])
    {
      var longerPart := longer[j];
      if IsSubstring(part, longerPart) || IsSubstring(longerPart, part) {
        return true;
      }
      var maxDist := if |part| <= 5 then 1 else 2;
      var dist := EditDistance(part, longerPart);
      if dist <= maxDist {
        return true;
      }
    }
    return false;
  }

  // ---------------------------------------------------------------------
  // Properties

  /** `Corresponds` is the search over the longer name's tokens. */
  lemma {:induction false} CorrespondsMeaning(part: string, longer: seq<string>)
    ensures Corresponds(part, longer) <==> exists j :: 0 <= j < |longer| && TokensCorrespond(part, longer[j])
  {
    if |longer| > 0 {
      var n := |longer| - 1;
      var front := longer[..n];
      CorrespondsMeaning(part, front);
      if Corresponds(part, front) {
        var j :| 0 <= j < n && TokensCorrespond(part, front[j]);
        assert longer[j] == front[j];
      }
      if exists j :: 0 <= j < |longer| && TokensCorrespond(part, longer[j]) {
        var j :| 0 <= j < |longer| && TokensCorrespond(part, longer[j]);
        if j < n {
          assert front[j] == longer[j];
        }
      }
    }
  }

  /** `Covered` asks every token of the shorter name for a correspondent. */
  lemma {:induction false} CoveredMeaning(shorter: seq<string>, longer: seq<string>)
    ensures Covered(shorter, longer) <==> forall i :: 0 <= i < |shorter| ==> Corresponds(shorter[i], longer)
  {
    if |shorter| > 0 {
      var n := |shorter| - 1;
      CoveredMeaning(shorter[..n], longer);
      assert forall i :: 0 <= i < n ==> shorter[..n][i] == shorter[i];
    }
  }

  /** `Aligned` compares the tokens position by position. */
  lemma {:induction false} AlignedMeaning(parts1: seq<string>, parts2: seq<string>)
    requires |parts1| == |parts2|
    ensures Aligned(parts1, parts2) <==>
      forall i :: 0 <= i < |parts1| ==> Lev(parts1[i], parts2[i]) <= Tolerance(parts1[i])
  {
    if |parts1| > 0 {
      var n := |parts1| - 1;
      AlignedMeaning(parts1[..n], parts2[..n]);
      assert forall i :: 0 <= i < n ==> parts1[..n][i] == parts1[i] && parts2[..n][i] == parts2[i];
    }
  }

  /**
   * Past the shortcuts, the token rule: with different counts every token
   * of the shorter name has some correspondent in the longer one (a token
   * of the longer name may serve several); with equal counts every pair at
   * the same position is within the first name's tolerance.
   */
  lemma TokenRule(name1: Option<string>, name2: Option<string>)
    requires Present(name1) && Present(name2)
    requires NormalizeName(name1) != NormalizeName(name2)
    requires !IsSubstring(NormalizeName(name1), NormalizeName(name2))
    requires !IsSubstring(NormalizeName(name2), NormalizeName(name1))
    ensures var p1, p2 := Split(NormalizeName(name1)), Split(NormalizeName(name2));
      && (|p1| < |p2| ==> (NamesAgree(name1, name2) <==>
            forall i :: 0 <= i < |p1| ==> exists j :: 0 <= j < |p2| && TokensCorrespond(p1[i], p2[j])))
      && (|p2| < |p1| ==> (NamesAgree(name1, name2) <==>
            forall i :: 0 <= i < |p2| ==> exists j :: 0 <= j < |p1| && TokensCorrespond(p2[i], p1[j])))
      && (|p1| == |p2| ==> (NamesAgree(name1, name2) <==>
            forall i :: 0 <= i < |p1| ==> Lev(p1[i], p2[i]) <= Tolerance(p1[i])))
  {
    var p1, p2 := Split(NormalizeName(name1)), Split(NormalizeName(name2));
    assert NamesAgree(name1, name2) == PartsMatch(p1, p2);
    if |p1| < |p2| {
      CoveredMeaning(p1, p2);
      forall i | 0 <= i < |p1| {
        CorrespondsMeaning(p1[i], p2);
      }
    } else if |p2| < |p1| {
      CoveredMeaning(p2, p1);
      forall i | 0 <= i < |p2| {
        CorrespondsMeaning(p2[i], p1);
      }
    } else {
      AlignedMeaning(p1, p2);
    }
  }

  /** A name made only of whitespace normalises to "" and so is contained in any name. */
  lemma BlankNameMatchesAnything(blank: string, other: Option<string>)
    requires blank != [] && forall i :: 0 <= i < |blank| ==> IsSpace(blank[i])
    requires Present(other)
    ensures NamesAgree(Some(blank), other)
  {
    BlankNameNormalizesEmpty(blank);
    EmptyIsSubstring(NormalizeName(other));
  }

  /** Names that differ only in letter case match. */
  lemma CaseInsensitive(s: string, t: string)
    requires s != [] && t != [] && Lower(s) == Lower(t)
    ensures NamesAgree(Some(s), Some(t))
  {
  }

  /** Every given name matches itself. */
  lemma NamesMatchReflexive(name: Option<string>)
    ensures NamesAgree(name, name) <==> Present(name)
  {
  }

  /** With different token counts the comparison does not depend on argument order. */
  lemma CoverageSymmetric(name1: Option<string>, name2: Option<string>)
    requires |Split(NormalizeName(name1))| != |Split(NormalizeName(name2))|
    ensures NamesAgree(name1, name2) == NamesAgree(name2, name1)
  {
  }

  /** A single lower-case word is its own normal form and its own only token. */
  lemma NormalizeWord(w: string)
    requires IsWord(w) && NoUpper(w)
    ensures NormalizeName(Some(w)) == w && Split(w) == [w]
  {
    LowerIdentity(w);
    SplitWordFirst(w, []);
    assert w + [] == w;
  }

  /**
   * The tolerance of two one-token names is taken from the first name, so
   * the comparison is not symmetric: "axbcdey" is two insertions away from
   * "abcde", which a 7-letter first name tolerates and a 5-letter one does not.
   */
  lemma ToleranceFollowsFirstName(a: string, b: string)
    requires a == "abcde" && b == "axbcdey"
    ensures !NamesAgree(Some(a), Some(b))
    ensures NamesAgree(Some(b), Some(a))
  {
    ExampleWords(a, b);
    NotContained(a, b);
    IsSubstringAt(b, a);
    TwoInsertions(a, b);
    LevBounds(a, b);
    assert [a][..0] == [] && [b][..0] == [];
    assert Aligned([b], [a]);
    assert !Aligned([a], [b]);
  }

  lemma ExampleWords(a: string, b: string)
    requires a == "abcde" && b == "axbcdey"
    ensures NormalizeName(Some(a)) == a && Split(a) == [a]
    ensures NormalizeName(Some(b)) == b && Split(b) == [b]
  {
    assert IsWord(a) && NoUpper(a);
    assert IsWord(b) && NoUpper(b);
    NormalizeWord(a);
    NormalizeWord(b);
  }

  lemma NotContained(a: string, b: string)
    requires a == "abcde" && b == "axbcdey"
    ensures !IsSubstring(a, b)
  {
    forall i
      ensures !OccursAt(a, b, i)
    {
      if i == 0 {
        assert b[i..i + |a|][1] != a[1];
      } else if 0 < i && i + |a| <= |b| {
        assert b[i..i + |a|][0] != a[0];
      }
    }
    IsSubstringAt(a, b);
  }

  /** "axbcdey" is "abcde" with two insertions. */
  lemma TwoInsertions(a: string, b: string)
    requires a == "abcde" && b == "axbcdey"
    ensures Lev(b, a) <= 2
  {
    // "ax" is "a" with one insertion
    assert b[..2][..1] == a[..1];
    LevSelf(a[..1]);
    assert Lev(b[..2], a[..1]) <= 1;
    // then "bcde" follows in both
    AppendCommon(a, b, 1);
    AppendCommon(a, b, 2);
    AppendCommon(a, b, 3);
    AppendCommon(a, b, 4);
    // and "y" is the second insertion
    assert b[..6] == b[..|b| - 1] && a[..5] == a;
  }

  lemma AppendCommon(a: string, b: string, k: nat)
    requires a == "abcde" && b == "axbcdey" && 1 <= k <= 4
    ensures Lev(b[..k + 2], a[..k + 1]) == Lev(b[..k + 1], a[..k])
  {
    assert b[k + 1] == a[k];
    assert b[..k + 2] == b[..k + 1] + [a[k]];
    assert a[..k + 1] == a[..k] + [a[k]];
    LevAppendSame(b[..k + 1], a[..k], a[k]);
  }
}
