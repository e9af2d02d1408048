/**
 * The two canonicalisers of src/match.py: reference numbers and
 * counterparty names. The empty string stands for "absent".
 */
module Normalize {
  import opened Wrappers
  import opened Text

  /**
   * `normalizing_refnum`: drop every space character (only ' ', not tabs),
   * strip leading zeros, upper-case. An absent or empty reference gives "".
   */
  function NormalizeRefnum(reference: Option<string>): (r: string)
    ensures r == [] || r[0] != '0'
    ensures (reference.None? || reference == Some("")) ==> r == ""
  {
    if reference.None? || reference.value == "" then ""
    else Upper(StripLeadingZeros(RemoveSpaces(reference.value)))
  }

  /**
   * `normalize_name`: lower-case, split on separators, join with single
   * spaces. An absent or empty name normalizes to "".
   */
  function NormalizeName(name: Option<string>): (r: string)
    ensures (name.None? || name == Some("")) ==> r == ""
  {
    if name.None? || name.value == "" then ""
    else Join(Split(Lower(name.value)))
  }

  /**
   * The result is canonical: no capitals, no separator at either end, and
   * only single spaces between words.
   */
  lemma NormalizeNameCanonical(name: Option<string>)
    ensures Canonical(NormalizeName(name))
  {
    if name.Some? && name.value != "" {
      var lowered := Lower(name.value);
      SplitNoUpper(lowered);
      JoinCanonical(Split(lowered));
    }
  }

  // ---------------------------------------------------------------------
  // Reference numbers

  /** A normalized reference has no space and no lower-case letter. */
  lemma NormalizeRefnumChars(reference: Option<string>)
    ensures forall i :: 0 <= i < |NormalizeRefnum(reference)| ==>
      NormalizeRefnum(reference)[i] != ' ' && !IsLower(NormalizeRefnum(reference)[i])
  {
    if reference.Some? && reference.value != "" {
      var t := RemoveSpaces(reference.value);
      RemoveSpacesKeeps(reference.value);
      StripLeadingZerosSuffix(t);
      var u := StripLeadingZeros(t);
      forall i | 0 <= i < |u| ensures u[i] != ' ' {
        assert u[i] == t[|t| - |u| + i];
      }
    }
  }

  /**
   * What the three steps compute: after the spaces are dropped, the text
   * splits into a run of zeros and a rest that does not start with '0', and
   * the result is that rest upper-cased.
   */
  lemma NormalizeRefnumContent(s: string)
    requires s != ""
    ensures exists zeros, rest ::
      && RemoveSpaces(s) == zeros + rest
      && (forall i :: 0 <= i < |zeros| ==> zeros[i] == '0')
      && (rest == [] || rest[0] != '0')
      && NormalizeRefnum(Some(s)) == Upper(rest)
  {
    var r := RemoveSpaces(s);
    var rest := StripLeadingZeros(r);
    StripLeadingZerosSuffix(r);
    StripLeadingZerosPrefix(r);
    var zeros := r[..|r| - |rest|];
    assert r == zeros + rest;
  }

  /** The same reference written with a space, a leading zero and lower case. */
  lemma SpacedReference()
    ensures NormalizeRefnum(Some("0 7a")) == "7A"
    ensures NormalizeRefnum(Some("7A")) == "7A"
  {
    var s := "0 7a";
    assert s[1..] == " 7a" && s[1..][1..] == "7a";
    RemoveSpacesNoop("7a");
    assert RemoveSpaces(" 7a") == "7a";
    assert RemoveSpaces(s) == "07a";
    assert "07a"[1..] == "7a";
    assert StripLeadingZeros("07a") == "7a";
    RemoveSpacesNoop("7A");
  }

  lemma {:induction false} UpperIdentity(s: string)
    requires forall i :: 0 <= i < |s| ==> !IsLower(s[i])
    ensures Upper(s) == s
  {
    if s != [] {
      UpperIdentity(s[1..]);
    }
  }

  /** Normalizing a normalized reference changes nothing. */
  lemma NormalizeRefnumIdempotent(reference: Option<string>)
    ensures NormalizeRefnum(Some(NormalizeRefnum(reference))) == NormalizeRefnum(reference)
  {
    var r := NormalizeRefnum(reference);
    if r != "" {
      NormalizeRefnumChars(reference);
      RefnumFixedPoint(r);
    }
  }

  /** A string already in normalized form passes the three steps unchanged. */
  lemma RefnumFixedPoint(r: string)
    requires forall i :: 0 <= i < |r| ==> r[i] != ' ' && !IsLower(r[i])
    requires r == [] || r[0] != '0'
    ensures Upper(StripLeadingZeros(RemoveSpaces(r))) == r
  {
    RemoveSpacesNoop(r);
    assert StripLeadingZeros(r) == r;
    UpperIdentity(r);
  }

  lemma {:induction false} StripAllZeros(s: string)
    requires forall i :: 0 <= i < |s| ==> s[i] == '0'
    ensures StripLeadingZeros(s) == ""
  {
    if s != [] {
      StripAllZeros(s[1..]);
    }
  }

  /**
   * A reference made only of zeros and spaces (such as "000") normalizes
   * to "", so it never counts as present.
   */
  lemma ZeroReferenceIsAbsent(s: string)
    requires forall i :: 0 <= i < |s| ==> s[i] == '0' || s[i] == ' '
    ensures NormalizeRefnum(Some(s)) == ""
  {
    if s != "" {
      var t := RemoveSpaces(s);
      RemoveSpacesKeeps(s);
      forall i | 0 <= i < |t| ensures t[i] == '0' {
        assert t[i] in t;
      }
      StripAllZeros(t);
    }
  }

  // ---------------------------------------------------------------------
  // Names

  /** The words of a canonical string re-join to the same string. */
  lemma NormalizeNameIdempotent(name: Option<string>)
    ensures NormalizeName(Some(NormalizeName(name))) == NormalizeName(name)
  {
    var r := NormalizeName(name);
    if r != "" {
      var ts := Split(Lower(name.value));
      assert r == Join(ts);
      NormalizeNameCanonical(name);
      CanonicalNoUpper(r);
      LowerIdentity(r);
      SplitJoin(ts);
    }
  }

  /** The normal form keeps every word of the lower-cased name, in order. */
  lemma NormalizeNameWords(s: string)
    requires s != ""
    ensures Split(NormalizeName(Some(s))) == Split(Lower(s))
  {
    SplitJoin(Split(Lower(s)));
  }

  /**
   * A name made only of separators normalizes to "", like an absent one.
   */
  lemma BlankNameNormalizesEmpty(s: string)
    requires forall i :: 0 <= i < |s| ==> IsSpace(s[i])
    ensures NormalizeName(Some(s)) == ""
  {
    BlankSplit(Lower(s));
  }
}
