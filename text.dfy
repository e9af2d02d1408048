/**
 * ASCII text primitives that the matching engine borrows from Python's
 * `str`: case mapping, `split()` with no separator, `" ".join(...)`,
 * `replace(" ", "")`, `lstrip("0")` and substring containment (`in`).
 */
module Text {

  /** The characters Python's `str.split()` treats as separators, restricted to ASCII:
      tab, line feed, vertical tab, form feed, carriage return, the four
      information separators 0x1C-0x1F, and the space. */
  predicate IsSpace(c: char) {
    (9 <= c as int <= 13) || (28 <= c as int <= 32)
  }

  predicate IsUpper(c: char) { 'A' <= c <= 'Z' }

  predicate IsLower(c: char) { 'a' <= c <= 'z' }

  function LowerChar(c: char): (r: char)
    ensures !IsUpper(r)
    ensures IsSpace(r) <==> IsSpace(c)
    ensures !IsUpper(c) ==> r == c
  {
    if IsUpper(c) then (c as int + 32) as char else c
  }

  function UpperChar(c: char): (r: char)
    ensures !IsLower(r)
    ensures r == ' ' <==> c == ' '
    ensures r == '0' <==> c == '0'
    ensures !IsLower(c) ==> r == c
  {
    if IsLower(c) then (c as int - 32) as char else c
  }

  /** Python's `s.lower()` over ASCII. */
  function Lower(s: string): (r: string)
    ensures |r| == |s|
    ensures forall i :: 0 <= i < |s| ==> r[i] == LowerChar(s[i])
  {
    if s == [] then [] else [LowerChar(s[0])] + Lower(s[1..])
  }

  /** Python's `s.upper()` over ASCII. */
  function Upper(s: string): (r: string)
    ensures |r| == |s|
    ensures forall i :: 0 <= i < |s| ==> r[i] == UpperChar(s[i])
  {
    if s == [] then [] else [UpperChar(s[0])] + Upper(s[1..])
  }

  ghost predicate NoUpper(s: string) {
    forall i :: 0 <= i < |s| ==> !IsUpper(s[i])
  }

  /** A token of `split()`: non-empty and free of separators. */
  ghost predicate IsWord(w: string) {
    w != [] && forall i :: 0 <= i < |w| ==> !IsSpace(w[i])
  }

  /** The length of the longest separator-free prefix of `s`. */
  function WordLength(s: string): (n: nat)
    ensures n <= |s|
    ensures forall i :: 0 <= i < n ==> !IsSpace(s[i])
    ensures n < |s| ==> IsSpace(s[n])
  {
    if s == [] || IsSpace(s[0]) then 0 else 1 + WordLength(s[1..])
  }

  /** Python's `s.split()`: the maximal runs of non-separators, in order. */
  function Split(s: string): (r: seq<string>)
    ensures forall k :: 0 <= k < |r| ==> IsWord(r[k])
    decreases |s|
  {
    if s == [] then []
    else if IsSpace(s[0]) then Split(s[1..])
    else
      var n := WordLength(s);
      assert n > 0 && IsWord(s[..n]);
      [s[..n]] + Split(s[n..])
  }

  /** Python's `" ".join(ts)`. */
  function Join(ts: seq<string>): (r: string)
    ensures ts != [] ==> ts[0] <= r
  {
    if |ts| == 0 then ""
    else if |ts| == 1 then ts[0]
    else ts[0] + ([' '] + Join(ts[1..]))
  }

  /** Python's `s.replace(" ", "")`: only the space character goes. */
  function RemoveSpaces(s: string): (r: string)
    ensures |r| <= |s|
  {
    if s == [] then []
    else if s[0] == ' ' then RemoveSpaces(s[1..])
    else [s[0]] + RemoveSpaces(s[1..])
  }

  /** No space is left, and every character left was in the input. */
  lemma {:induction false} RemoveSpacesKeeps(s: string)
    ensures forall i :: 0 <= i < |RemoveSpaces(s)| ==> RemoveSpaces(s)[i] != ' '
    ensures forall c :: c in RemoveSpaces(s) ==> c in s
  {
    if s != [] {
      RemoveSpacesKeeps(s[1..]);
    }
  }

  /** Each part loses its own spaces and keeps the rest in order. */
  lemma {:induction false} RemoveSpacesAppend(a: string, b: string)
    ensures RemoveSpaces(a + b) == RemoveSpaces(a) + RemoveSpaces(b)
  {
    if a != [] {
      assert (a + b)[0] == a[0] && (a + b)[1..] == a[1..] + b;
      RemoveSpacesAppend(a[1..], b);
    } else {
      assert a + b == b;
    }
  }

  /** A single character is dropped exactly when it is a space. */
  lemma RemoveSpacesChar(c: char)
    ensures RemoveSpaces([c]) == if c == ' ' then [] else [c]
  {
    assert [c][1..] == [];
  }

  /** A string without spaces is left as it is. */
  lemma {:induction false} RemoveSpacesNoop(s: string)
    requires forall i :: 0 <= i < |s| ==> s[i] != ' '
    ensures RemoveSpaces(s) == s
  {
    if s != [] {
      RemoveSpacesNoop(s[1..]);
    }
  }

  /** Python's `s.lstrip("0")`. */
  function StripLeadingZeros(s: string): (r: string)
    ensures |r| <= |s|
    ensures r == [] || r[0] != '0'
  {
    if s != [] && s[0] == '0' then StripLeadingZeros(s[1..]) else s
  }

  /** Only a prefix is removed. */
  lemma {:induction false} StripLeadingZerosSuffix(s: string)
    ensures StripLeadingZeros(s) == s[|s| - |StripLeadingZeros(s)|..]
  {
    if s != [] && s[0] == '0' {
      StripLeadingZerosSuffix(s[1..]);
      assert s[1..][|s| - 1 - |StripLeadingZeros(s)|..] == s[|s| - |StripLeadingZeros(s)|..];
    }
  }

  /** Only zeros are removed. */
  lemma {:induction false} StripLeadingZerosPrefix(s: string)
    ensures forall i :: 0 <= i < |s| - |StripLeadingZeros(s)| ==> s[i] == '0'
  {
    if s != [] && s[0] == '0' {
      StripLeadingZerosPrefix(s[1..]);
      forall i | 1 <= i < |s| - |StripLeadingZeros(s)| ensures s[i] == '0' {
        assert s[i] == s[1..][i - 1];
      }
    }
  }

  /** Python's `needle in hay` for strings. */
  predicate IsSubstring(needle: string, hay: string)
    ensures IsSubstring(needle, hay) ==> |needle| <= |hay|
    decreases |hay|
  {
    needle <= hay || (hay != [] && IsSubstring(needle, hay[1..]))
  }

  // ---------------------------------------------------------------------
  // Lemmas

  /** `needle` occurs in `hay` starting at index `i`. */
  ghost predicate OccursAt(needle: string, hay: string, i: int) {
    0 <= i && i + |needle| <= |hay| && hay[i..i + |needle|] == needle
  }

  lemma {:induction false} SubstringOccurs(needle: string, hay: string)
    requires IsSubstring(needle, hay)
    ensures exists i :: OccursAt(needle, hay, i)
    decreases |hay|
  {
    if needle <= hay {
      assert OccursAt(needle, hay, 0);
    } else {
      SubstringOccurs(needle, hay[1..]);
      var i :| OccursAt(needle, hay[1..], i);
      assert hay[1..][i..i + |needle|] == hay[i + 1..i + 1 + |needle|];
      assert OccursAt(needle, hay, i + 1);
    }
  }

  lemma {:induction false} OccursIsSubstring(needle: string, hay: string, i: int)
    requires OccursAt(needle, hay, i)
    ensures IsSubstring(needle, hay)
    decreases i
  {
    if i == 0 {
      assert hay[..|needle|] == needle;
    } else {
      assert hay[1..][i - 1..i - 1 + |needle|] == hay[i..i + |needle|];
      OccursIsSubstring(needle, hay[1..], i - 1);
    }
  }

  /** Containment means an occurrence at some index. */
  lemma IsSubstringAt(needle: string, hay: string)
    ensures IsSubstring(needle, hay) <==> exists i :: OccursAt(needle, hay, i)
  {
    if IsSubstring(needle, hay) {
      SubstringOccurs(needle, hay);
    }
    if i :| OccursAt(needle, hay, i) {
      OccursIsSubstring(needle, hay, i);
    }
  }

  /** The empty string is contained in every string, as in Python. */
  lemma EmptyIsSubstring(hay: string)
    ensures IsSubstring("", hay)
  {
  }

  /** Lower-casing a string without capitals changes nothing. */
  lemma {:induction false} LowerIdentity(s: string)
    requires NoUpper(s)
    ensures Lower(s) == s
  {
    if s != [] {
      LowerIdentity(s[1..]);
    }
  }

  /** Dropping one separator in front does not change the tokens. */
  lemma SplitSkipsSpace(c: char, s: string)
    requires IsSpace(c)
    ensures Split([c] + s) == Split(s)
  {
    assert ([c] + s)[1..] == s;
  }

  /** A string made only of separators has no tokens. */
  lemma {:induction false} BlankSplit(s: string)
    requires forall i :: 0 <= i < |s| ==> IsSpace(s[i])
    ensures Split(s) == []
  {
    if s != [] {
      BlankSplit(s[1..]);
      SplitSkipsSpace(s[0], s[1..]);
      assert s == [s[0]] + s[1..];
    }
  }

  lemma WordLengthOfWord(w: string, rest: string)
    requires IsWord(w)
    requires rest == [] || IsSpace(rest[0])
    ensures WordLength(w + rest) == |w|
  {
    var t := w + rest;
    assert forall i :: 0 <= i < |w| ==> t[i] == w[i];
    assert |w| < |t| ==> t[|w|] == rest[0];
  }

  /** A word followed by a separator (or nothing) is the first token. */
  lemma SplitWordFirst(w: string, rest: string)
    requires IsWord(w)
    requires rest == [] || IsSpace(rest[0])
    ensures Split(w + rest) == [w] + Split(rest)
  {
    var t := w + rest;
    assert t[0] == w[0];
    WordLengthOfWord(w, rest);
    assert t[..|w|] == w;
    assert t[|w|..] == rest;
  }

  /** A separator between two strings splits their tokens apart. */
  lemma {:induction false} SplitAtSpace(a: string, c: char, b: string)
    requires IsSpace(c)
    ensures Split(a + [c] + b) == Split(a) + Split(b)
    decreases |a|
  {
    var s := a + [c] + b;
    if a == [] {
      assert s == [c] + b;
      SplitSkipsSpace(c, b);
    } else if IsSpace(a[0]) {
      assert s == [a[0]] + (a[1..] + [c] + b);
      SplitSkipsSpace(a[0], a[1..] + [c] + b);
      SplitSkipsSpace(a[0], a[1..]);
      assert a == [a[0]] + a[1..];
      SplitAtSpace(a[1..], c, b);
    } else {
      var n := WordLength(a);
      var w, rest := a[..n], a[n..];
      assert n > 0 && IsWord(w);
      assert a == w + rest;
      SplitWordFirst(w, rest);
      assert s == w + (rest + [c] + b);
      assert (rest + [c] + b)[0] == if rest == [] then c else rest[0];
      SplitWordFirst(w, rest + [c] + b);
      SplitAtSpace(rest, c, b);
    }
  }

  lemma JoinCons(w: string, ts: seq<string>)
    requires |ts| > 0
    ensures Join([w] + ts) == w + ([' '] + Join(ts))
  {
    assert ([w] + ts)[1..] == ts;
  }

  lemma SplitConsSpace(w: string, rest: string)
    requires IsWord(w)
    ensures Split(w + ([' '] + rest)) == [w] + Split(rest)
  {
    SplitWordFirst(w, [' '] + rest);
    SplitSkipsSpace(' ', rest);
  }

  lemma SplitJoinStep(w: string, ts: seq<string>)
    requires IsWord(w) && |ts| > 0
    requires Split(Join(ts)) == ts
    ensures Split(Join([w] + ts)) == [w] + ts
  {
    JoinCons(w, ts);
    SplitConsSpace(w, Join(ts));
  }

  lemma SplitJoinOne(w: string)
    requires IsWord(w)
    ensures Split(Join([w])) == [w]
  {
    assert Join([w]) == w + [];
    SplitWordFirst(w, []);
    assert Split([]) == [];
  }

  /** `split()` undoes `" ".join(...)` on tokens. */
  lemma {:induction false} SplitJoin(ts: seq<string>)
    requires forall k :: 0 <= k < |ts| ==> IsWord(ts[k])
    ensures Split(Join(ts)) == ts
  {
    if |ts| == 0 {
      assert Split([]) == [];
    } else if |ts| == 1 {
      SplitJoinOne(ts[0]);
      assert ts == [ts[0]];
    } else {
      SplitJoin(ts[1..]);
      SplitJoinStep(ts[0], ts[1..]);
      assert ts == [ts[0]] + ts[1..];
    }
  }

  /** Every token of a string without capitals is itself without capitals. */
  lemma {:induction false} SplitNoUpper(s: string)
    requires NoUpper(s)
    ensures forall k :: 0 <= k < |Split(s)| ==> NoUpper(Split(s)[k])
    decreases |s|
  {
    if s != [] {
      if IsSpace(s[0]) {
        SplitNoUpper(s[1..]);
      } else {
        var n := WordLength(s);
        SplitNoUpper(s[n..]);
        assert Split(s) == [s[..n]] + Split(s[n..]);
      }
    }
  }

  /** A join of tokens starts with the first character of its first token. */
  lemma JoinStart(ts: seq<string>)
    requires |ts| > 0 && IsWord(ts[0])
    ensures |Join(ts)| > 0 && Join(ts)[0] == ts[0][0]
  {
  }

  /**
   * The canonical form of a normalized name: no capitals, and every separator
   * is a single space strictly between two non-separators.
   */
  ghost predicate Canonical(r: string) {
    forall i :: 0 <= i < |r| ==> CanonicalAt(r, i)
  }

  ghost predicate CanonicalAt(r: string, i: int)
    requires 0 <= i < |r|
  {
    !IsUpper(r[i]) && (IsSpace(r[i]) ==> r[i] == ' ' && 0 < i < |r| - 1 && !IsSpace(r[i + 1]))
  }

  lemma CanonicalNoUpper(r: string)
    requires Canonical(r)
    ensures NoUpper(r)
  {
    forall i | 0 <= i < |r| ensures !IsUpper(r[i]) {
      assert CanonicalAt(r, i);
    }
  }

  lemma WordCanonical(w: string)
    requires IsWord(w) && NoUpper(w)
    ensures Canonical(w)
  {
    forall i | 0 <= i < |w|
      ensures CanonicalAt(w, i)
    {
      assert !IsUpper(w[i]) && !IsSpace(w[i]);
    }
  }

  /** A word, one space, and a canonical string that starts with a non-separator. */
  lemma CanonicalCons(w: string, rest: string)
    requires IsWord(w) && NoUpper(w)
    requires Canonical(rest) && rest != [] && !IsSpace(rest[0])
    ensures Canonical(w + ([' '] + rest))
  {
    var r := w + ([' '] + rest);
    forall i | 0 <= i < |r|
      ensures CanonicalAt(r, i)
    {
      if i < |w| {
        assert r[i] == w[i];
        assert !IsUpper(w[i]) && !IsSpace(w[i]);
      } else if i == |w| {
        assert r[i] == ' ';
        assert r[i + 1] == rest[0];
      } else {
        var j := i - |w| - 1;
        assert r[i] == rest[j];
        assert CanonicalAt(rest, j);
        if i + 1 < |r| {
          assert r[i + 1] == rest[j + 1];
        }
      }
    }
  }

  /** Joining lower-case words with single spaces gives a canonical string. */
  lemma {:induction false} JoinCanonical(ts: seq<string>)
    requires forall k :: 0 <= k < |ts| ==> IsWord(ts[k]) && NoUpper(ts[k])
    ensures Canonical(Join(ts))
  {
    if |ts| == 1 {
      WordCanonical(ts[0]);
    } else if |ts| > 1 {
      JoinCanonical(ts[1..]);
      JoinStart(ts[1..]);
      CanonicalCons(ts[0], Join(ts[1..]));
    }
  }
}
