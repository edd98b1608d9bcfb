/** Character and string helpers used by the lyric line layout: the whitespace
    test and the trimming operations of the platform string library. */
module Text {

  /** A character counts as whitespace exactly when the platform's
      `Char.isWhitespace` says so: the ASCII controls TAB..CR, the
      separators U+001C..U+001F, the space, the no-break space and the Unicode
      space, line and paragraph separators. */
  predicate IsWhitespace(c: char) {
    || ('\t' <= c <= '\r')
    || ('\U{001C}' <= c <= ' ')
    || c == '\U{00A0}'
    || c == '\U{1680}'
    || ('\U{2000}' <= c <= '\U{200A}')
    || c == '\U{2028}'
    || c == '\U{2029}'
    || c == '\U{202F}'
    || c == '\U{205F}'
    || c == '\U{3000}'
  }

  /** `isBlank()`: every character is whitespace (the empty string is blank). */
  predicate IsBlank(s: string) {
    forall i :: 0 <= i < |s| ==> IsWhitespace(s[i])
  }

  /** `trimEnd()`: the longest prefix of `s` that does not end in whitespace,
      all removed characters being whitespace. */
  function TrimEnd(s: string): (r: string)
    ensures |r| <= |s| && r == s[..|r|]
    ensures r == [] || !IsWhitespace(r[|r| - 1])
    ensures forall i :: |r| <= i < |s| ==> IsWhitespace(s[i])
    decreases |s|
  {
    if s != [] && IsWhitespace(s[|s| - 1]) then TrimEnd(s[..|s| - 1]) else s
  }

  /** `trimStart()`: the longest suffix of `s` that does not start with
      whitespace, all removed characters being whitespace. */
  function TrimStart(s: string): (r: string)
    ensures |r| <= |s| && r == s[|s| - |r|..]
    ensures r == [] || !IsWhitespace(r[0])
    ensures forall i :: 0 <= i < |s| - |r| ==> IsWhitespace(s[i])
    decreases |s|
  {
    if s != [] && IsWhitespace(s[0]) then TrimStart(s[1..]) else s
  }

  /** `trim()`: whitespace removed at both ends. */
  function Trim(s: string): string {
    TrimStart(TrimEnd(s))
  }

  /** What is left by `Trim` is a contiguous slice of `s` that neither starts
      nor ends in whitespace, everything cut off being whitespace. */
  lemma TrimSpec(s: string)
    ensures var r := Trim(s);
            && (exists a, b :: 0 <= a <= b <= |s| && r == s[a..b]
                  && (forall i :: 0 <= i < a ==> IsWhitespace(s[i]))
                  && (forall i :: b <= i < |s| ==> IsWhitespace(s[i])))
            && (r == [] || (!IsWhitespace(r[0]) && !IsWhitespace(r[|r| - 1])))
  {
    var e := TrimEnd(s);
    var r := TrimStart(e);
    var a, b := |e| - |r|, |e|;
    assert r == s[a..b];
    forall i | 0 <= i < a ensures IsWhitespace(s[i]) {
      assert s[i] == e[i];
    }
    assert 0 <= a <= b <= |s| && r == s[a..b]
           && (forall i :: 0 <= i < a ==> IsWhitespace(s[i]))
           && (forall i :: b <= i < |s| ==> IsWhitespace(s[i]));
  }

  /** The test the grouping pass uses to close a word: trimming the end
      shortens the content. */
  predicate HasTrailingWhitespace(s: string) {
    |TrimEnd(s)| < |s|
  }

  lemma TrailingWhitespaceIsLastChar(s: string)
    ensures HasTrailingWhitespace(s) <==> (s != [] && IsWhitespace(s[|s| - 1]))
  {
  }

  lemma BlankIffTrimEndEmpty(s: string)
    ensures IsBlank(s) <==> TrimEnd(s) == []
  {
    if TrimEnd(s) != [] {
      var r := TrimEnd(s);
      assert s[|r| - 1] == r[|r| - 1];
    }
  }
}
