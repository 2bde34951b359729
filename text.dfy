/**
 The string normalisation grading applies to every answer and every
 correct entry: `s.strip().lower()`. Characters are modelled over ASCII:
 whitespace is what Python's `str.isspace` accepts below 128, and lower-casing
 maps 'A'..'Z' to 'a'..'z' and leaves every other character alone.
 */
module Text {

  /** A character removed by `str.strip()`: \t \n \v \f \r, the separators 0x1C-0x1F, and space. */
  predicate IsSpace(c: char) {
    (9 <= c as int <= 13) || (28 <= c as int <= 32)
  }

  predicate IsUpper(c: char) {
    'A' <= c <= 'Z'
  }

  /** `str.lower()` on one character. */
  function Lower(c: char): (d: char)
    ensures !IsUpper(d)
    ensures IsSpace(d) <==> IsSpace(c)
    ensures !IsUpper(c) ==> d == c
    ensures IsUpper(c) ==> d as int == c as int + 32
  {
    if IsUpper(c) then (c as int + 32) as char else c
  }

  /** `str.lower()`. */
  function LowerStr(s: string): string {
    if s == [] then [] else [Lower(s[0])] + LowerStr(s[1..])
  }

  /** `str.lower()` lower-cases every character in place and keeps the length. */
  lemma {:induction false} LowerStrAt(s: string)
    ensures |LowerStr(s)| == |s|
    ensures forall i :: 0 <= i < |s| ==> LowerStr(s)[i] == Lower(s[i])
    decreases |s|
  {
    if s != [] {
      LowerStrAt(s[1..]);
      assert forall i :: 1 <= i < |s| ==> LowerStr(s)[i] == LowerStr(s[1..])[i - 1];
    }
  }

  /** `c` and `d` are the same character up to letter case: equal, or an upper-case letter and its lower-case form. */
  predicate SameLetterIgnoringCase(c: char, d: char) {
    c == d || (IsUpper(c) && d as int == c as int + 32) || (IsUpper(d) && c as int == d as int + 32)
  }

  /** Lower-casing identifies two characters exactly when they differ at most in letter case. */
  lemma LowerSameIff(c: char, d: char)
    ensures Lower(c) == Lower(d) <==> SameLetterIgnoringCase(c, d)
  {
  }

  /** Characters that differ only in letter case are both whitespace or both not. */
  lemma SameLetterKeepsSpace(c: char, d: char)
    requires SameLetterIgnoringCase(c, d)
    ensures IsSpace(c) <==> IsSpace(d)
  {
  }

  /** `s` and `t` have the same length and differ at most in the letter case of each character. */
  predicate CaseVariant(s: string, t: string) {
    |s| == |t| && forall i :: 0 <= i < |s| ==> SameLetterIgnoringCase(s[i], t[i])
  }

  /** `s.lower() == t.lower()` holds exactly when `s` and `t` differ at most in letter case. */
  lemma LowerStrEqIff(s: string, t: string)
    ensures LowerStr(s) == LowerStr(t) <==> CaseVariant(s, t)
  {
    LowerStrAt(s);
    LowerStrAt(t);
    if CaseVariant(s, t) {
      forall i | 0 <= i < |s| ensures LowerStr(s)[i] == LowerStr(t)[i] {
        LowerSameIff(s[i], t[i]);
      }
    }
    if LowerStr(s) == LowerStr(t) {
      forall i | 0 <= i < |s| ensures SameLetterIgnoringCase(s[i], t[i]) {
        assert LowerStr(s)[i] == LowerStr(t)[i];
        LowerSameIff(s[i], t[i]);
      }
    }
  }

  /** Dropping the first character of two case variants leaves case variants. */
  lemma CaseVariantTail(s: string, t: string)
    requires CaseVariant(s, t) && s != []
    ensures CaseVariant(s[1..], t[1..])
  {
    var a, b := s[1..], t[1..];
    forall i | 0 <= i < |a| ensures SameLetterIgnoringCase(a[i], b[i]) {
      assert a[i] == s[i + 1] && b[i] == t[i + 1];
    }
  }

  /** Dropping the last character of two case variants leaves case variants. */
  lemma CaseVariantInit(s: string, t: string)
    requires CaseVariant(s, t) && s != []
    ensures CaseVariant(s[..|s| - 1], t[..|t| - 1])
  {
    var a, b := s[..|s| - 1], t[..|t| - 1];
    forall i | 0 <= i < |a| ensures SameLetterIgnoringCase(a[i], b[i]) {
      assert a[i] == s[i] && b[i] == t[i];
    }
  }

  /** Every character of `s` is whitespace. */
  predicate AllSpace(s: string) {
    forall i :: 0 <= i < |s| ==> IsSpace(s[i])
  }

  /** `str.lstrip()`. */
  function TrimLeft(s: string): string {
    if |s| > 0 && IsSpace(s[0]) then TrimLeft(s[1..]) else s
  }

  /** `str.lstrip()` keeps the longest suffix of `s` that does not start with whitespace. */
  lemma {:induction false} TrimLeftSpec(s: string)
    ensures |TrimLeft(s)| <= |s| && TrimLeft(s) == s[|s| - |TrimLeft(s)|..]
    ensures TrimLeft(s) == [] || !IsSpace(TrimLeft(s)[0])
    ensures AllSpace(s[..|s| - |TrimLeft(s)|])
    decreases |s|
  {
    if |s| > 0 && IsSpace(s[0]) {
      var tail := s[1..];
      TrimLeftSpec(tail);
      var r := TrimLeft(tail);
      var k := |s| - |r|;
      assert tail[|tail| - |r|..] == s[k..];
      forall i | 0 <= i < k ensures IsSpace(s[..k][i]) {
        if i > 0 { assert s[..k][i] == tail[..k - 1][i - 1]; }
      }
    }
  }

  /** `str.rstrip()`. */
  function TrimRight(s: string): string {
    if |s| > 0 && IsSpace(s[|s| - 1]) then TrimRight(s[..|s| - 1]) else s
  }

  /** `str.rstrip()` keeps the longest prefix of `s` that does not end with whitespace. */
  lemma {:induction false} TrimRightSpec(s: string)
    ensures |TrimRight(s)| <= |s| && TrimRight(s) == s[..|TrimRight(s)|]
    ensures TrimRight(s) == [] || !IsSpace(TrimRight(s)[|TrimRight(s)| - 1])
    ensures AllSpace(s[|TrimRight(s)|..])
    decreases |s|
  {
    if |s| > 0 && IsSpace(s[|s| - 1]) {
      var init := s[..|s| - 1];
      TrimRightSpec(init);
      var r := TrimRight(init);
      var k := |r|;
      assert init[..k] == s[..k];
      forall i | 0 <= i < |s| - k ensures IsSpace(s[k..][i]) {
        if i < |s| - 1 - k { assert s[k..][i] == init[k..][i]; }
      }
    }
  }

  /** Neither end of `s` is whitespace. */
  predicate IsTrimmed(s: string) {
    s == [] || (!IsSpace(s[0]) && !IsSpace(s[|s| - 1]))
  }

  /** `str.strip()`. */
  function Strip(s: string): string {
    TrimRight(TrimLeft(s))
  }

  /** `str.strip()` yields a string with no whitespace at either end, no longer than the input. */
  lemma StripSpec(s: string)
    ensures IsTrimmed(Strip(s))
    ensures |Strip(s)| <= |s|
  {
    var left := TrimLeft(s);
    var r := TrimRight(left);
    TrimLeftSpec(s);
    TrimRightSpec(left);
    if r != [] {
      assert r[0] == left[0];
    }
  }

  /** Strip removes whitespace from the two ends and nothing else. */
  lemma StripRemovesOnlyEdges(s: string)
    ensures exists i, j :: 0 <= i <= j <= |s| && Strip(s) == s[i..j] && AllSpace(s[..i]) && AllSpace(s[j..])
  {
    var left := TrimLeft(s);
    var r := TrimRight(left);
    TrimLeftSpec(s);
    TrimRightSpec(left);
    var i := |s| - |left|;
    assert r == s[i..i + |r|];
    assert s[i + |r|..] == left[|r|..];
  }

  /** What grading compares: trimmed, and no upper-case letter left. */
  predicate IsNormalized(s: string) {
    IsTrimmed(s) && forall i :: 0 <= i < |s| ==> !IsUpper(s[i])
  }

  /** `s.strip().lower()`. */
  function Normalize(s: string): string {
    LowerStr(Strip(s))
  }

  /** `s.strip().lower()` yields a trimmed string with no upper-case letter, no longer than the input. */
  lemma NormalizeSpec(s: string)
    ensures IsNormalized(Normalize(s))
    ensures |Normalize(s)| <= |s|
  {
    var t := Strip(s);
    var r := LowerStr(t);
    StripSpec(s);
    LowerStrAt(t);
    if r != [] {
      assert r[0] == Lower(t[0]) && r[|r| - 1] == Lower(t[|t| - 1]);
    }
  }

  /** Lower-casing a string with no upper-case letter changes nothing. */
  lemma LowerStrNoUpper(s: string)
    requires forall i :: 0 <= i < |s| ==> !IsUpper(s[i])
    ensures LowerStr(s) == s
  {
    var r := LowerStr(s);
    LowerStrAt(s);
    assert forall i :: 0 <= i < |s| ==> r[i] == s[i];
  }

  /** Stripping a trimmed string changes nothing. */
  lemma StripTrimmed(s: string)
    requires IsTrimmed(s)
    ensures Strip(s) == s
  {
    assert TrimLeft(s) == s;
    assert TrimRight(s) == s;
  }

  /** Normalisation leaves a string unchanged exactly when it is already normalised. */
  lemma NormalizeFixpoint(s: string)
    ensures Normalize(s) == s <==> IsNormalized(s)
  {
    NormalizeSpec(s);
    if IsNormalized(s) {
      StripTrimmed(s);
      LowerStrNoUpper(s);
    }
  }

  /** Normalising twice is normalising once. */
  lemma NormalizeIdempotent(s: string)
    ensures Normalize(Normalize(s)) == Normalize(s)
  {
    NormalizeSpec(s);
    NormalizeFixpoint(Normalize(s));
  }

  /** `lstrip()` removes the same number of characters from two case variants. */
  lemma {:induction false} TrimLeftCaseVariant(s: string, t: string)
    requires CaseVariant(s, t)
    ensures CaseVariant(TrimLeft(s), TrimLeft(t))
    decreases |s|
  {
    if s != [] {
      SameLetterKeepsSpace(s[0], t[0]);
      if IsSpace(s[0]) {
        CaseVariantTail(s, t);
        TrimLeftCaseVariant(s[1..], t[1..]);
      }
    }
  }

  /** `rstrip()` removes the same number of characters from two case variants. */
  lemma {:induction false} TrimRightCaseVariant(s: string, t: string)
    requires CaseVariant(s, t)
    ensures CaseVariant(TrimRight(s), TrimRight(t))
    decreases |s|
  {
    if s != [] {
      SameLetterKeepsSpace(s[|s| - 1], t[|t| - 1]);
      if IsSpace(s[|s| - 1]) {
        CaseVariantInit(s, t);
        TrimRightCaseVariant(s[..|s| - 1], t[..|t| - 1]);
      }
    }
  }

  /** Two strings normalise alike exactly when their stripped forms differ at most in letter case. */
  lemma NormalizeEqIff(s: string, t: string)
    ensures Normalize(s) == Normalize(t) <==> CaseVariant(Strip(s), Strip(t))
  {
    LowerStrEqIff(Strip(s), Strip(t));
  }

  /** Normalisation ignores letter case: two strings that differ only in letter case normalise alike. */
  lemma NormalizeIgnoresCase(s: string, t: string)
    requires CaseVariant(s, t)
    ensures Normalize(s) == Normalize(t)
  {
    TrimLeftCaseVariant(s, t);
    TrimRightCaseVariant(TrimLeft(s), TrimLeft(t));
    NormalizeEqIff(s, t);
  }

  /** `s.startswith(p)`. */
  predicate StartsWith(s: string, p: string) {
    |p| <= |s| && s[..|p|] == p
  }
}
