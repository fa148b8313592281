/** The two string built-ins the catalog handlers use: `toLowerCase` (restricted
    to ASCII letters) and `includes` (substring search). */
module JsString {

  predicate IsUpper(c: char) {
    'A' <= c <= 'Z'
  }

  /** ASCII lower-casing of one character; every other character is kept. */
  function LowerChar(c: char): char {
    if IsUpper(c) then (c as int + 32) as char else c
  }

  /** `s.toLowerCase()`: same length, each upper-case ASCII letter replaced by
      its lower-case form, every other character kept in place. */
  function ToLowerCase(s: string): (r: string)
    ensures |r| == |s|
    ensures forall i :: 0 <= i < |r| ==> !IsUpper(r[i])
    ensures forall i :: 0 <= i < |s| ==>
      (IsUpper(s[i]) ==> r[i] as int == s[i] as int + 32) && (!IsUpper(s[i]) ==> r[i] == s[i])
  {
    seq(|s|, i requires 0 <= i < |s| => LowerChar(s[i]))
  }

  /** Lower-casing twice is lower-casing once. */
  lemma ToLowerCaseIdempotent(s: string)
    ensures ToLowerCase(ToLowerCase(s)) == ToLowerCase(s)
  {
    var l := ToLowerCase(s);
    assert forall i :: 0 <= i < |l| ==> ToLowerCase(l)[i] == l[i];
  }

  /** Case-insensitive equality: the comparison the category filter uses. */
  predicate EqualsIgnoringCase(a: string, b: string) {
    ToLowerCase(a) == ToLowerCase(b)
  }

  /** Case-insensitive equality relates strings of equal length whose characters
      agree position by position once lower-cased. */
  lemma EqualsIgnoringCaseIsPointwise(a: string, b: string)
    ensures EqualsIgnoringCase(a, b) <==>
      |a| == |b| && forall i :: 0 <= i < |a| ==> LowerChar(a[i]) == LowerChar(b[i])
  {
    if EqualsIgnoringCase(a, b) {
      forall i | 0 <= i < |a|
        ensures LowerChar(a[i]) == LowerChar(b[i])
      {
        assert ToLowerCase(a)[i] == LowerChar(a[i]);
        assert ToLowerCase(b)[i] == LowerChar(b[i]);
      }
    }
    if |a| == |b| && forall i :: 0 <= i < |a| ==> LowerChar(a[i]) == LowerChar(b[i]) {
      assert forall i :: 0 <= i < |a| ==> ToLowerCase(a)[i] == ToLowerCase(b)[i];
    }
  }

  /** `needle` occurs in `hay` starting at position `i`. */
  predicate OccursAt(needle: string, hay: string, i: int) {
    0 <= i <= |hay| - |needle| && needle == hay[i..i + |needle|]
  }

  /** Reference definition: `needle` occurs in `hay` at some position. */
  ghost predicate IsSubstring(needle: string, hay: string) {
    exists i :: OccursAt(needle, hay, i)
  }

  /** `hay.includes(needle)`, computed by trying each start position in turn. */
  function Includes(hay: string, needle: string): (r: bool)
    ensures r <==> IsSubstring(needle, hay)
    decreases |hay|
  {
    if |needle| > |hay| then false
    else if needle <= hay then
      assert OccursAt(needle, hay, 0);
      true
    else
      IncludesStep(hay, needle);
      Includes(hay[1..], needle)
  }

  /** When `needle` is not a prefix of `hay`, it occurs in `hay` exactly when it
      occurs in `hay` without its first character. */
  lemma IncludesStep(hay: string, needle: string)
    requires |needle| <= |hay|
    requires !(needle <= hay)
    ensures IsSubstring(needle, hay) <==> IsSubstring(needle, hay[1..])
  {
    var n := |needle|;
    if IsSubstring(needle, hay) {
      var i :| OccursAt(needle, hay, i);
      assert hay[1..][i - 1..i - 1 + n] == hay[i..i + n];
      assert OccursAt(needle, hay[1..], i - 1);
    }
    if IsSubstring(needle, hay[1..]) {
      var i :| OccursAt(needle, hay[1..], i);
      assert hay[1..][i..i + n] == hay[i + 1..i + 1 + n];
      assert OccursAt(needle, hay, i + 1);
    }
  }

  /** A needle holding a character the haystack lacks does not occur in it. */
  lemma MissingCharExcludes(hay: string, needle: string, k: int)
    requires 0 <= k < |needle|
    requires forall j :: 0 <= j < |hay| ==> hay[j] != needle[k]
    ensures !Includes(hay, needle)
  {
    forall i | 0 <= i <= |hay| - |needle|
      ensures !OccursAt(needle, hay, i)
    {
      assert hay[i..i + |needle|][k] == hay[i + k];
    }
  }
}
