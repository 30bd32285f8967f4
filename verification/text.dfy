/** The emptiness test the add handler applies to the pending input:
    JavaScript's `String.prototype.trim` followed by a comparison with "". */
module Text {

  /** ECMAScript's WhiteSpace and LineTerminator code points, the set that
      `trim` strips: tab, line feed, vertical tab, form feed, carriage return,
      the Unicode space separators (category Zs), the line and paragraph
      separators and the byte order mark. */
  predicate IsWhitespace(c: char) {
    c == '\t' || c == '\n' || c == '\U{000B}' || c == '\U{000C}' || c == '\r'
    || c == ' ' || c == '\U{00A0}' || c == '\U{1680}'
    || ('\U{2000}' <= c <= '\U{200A}')
    || c == '\U{2028}' || c == '\U{2029}' || c == '\U{202F}' || c == '\U{205F}'
    || c == '\U{3000}' || c == '\U{FEFF}'
  }

  /** Within ASCII, `trim` strips exactly the space and the five control
      characters tab, line feed, vertical tab, form feed and carriage
      return. */
  lemma AsciiWhitespace(c: char)
    requires c < '\U{0080}'
    ensures IsWhitespace(c) <==> c == ' ' || '\t' <= c <= '\r'
  {
  }

  /** Every character of `s` is whitespace (the empty string included). */
  predicate IsBlank(s: string) {
    forall i :: 0 <= i < |s| ==> IsWhitespace(s[i])
  }

  /** The number of whitespace characters `trim` removes from the front. */
  function LeadingBlanks(s: string): (k: nat)
    ensures k <= |s|
    ensures forall i :: 0 <= i < k ==> IsWhitespace(s[i])
    ensures k == |s| || !IsWhitespace(s[k])
  {
    if s == [] || !IsWhitespace(s[0]) then 0
    else
      var k := 1 + LeadingBlanks(s[1..]);
      assert forall i :: 0 < i < k ==> s[i] == s[1..][i - 1];
      k
  }

  /** The number of whitespace characters `trim` removes from the back. */
  function TrailingBlanks(s: string): (k: nat)
    ensures k <= |s|
    ensures forall i :: |s| - k <= i < |s| ==> IsWhitespace(s[i])
    ensures k == |s| || !IsWhitespace(s[|s| - 1 - k])
  {
    if s == [] || !IsWhitespace(s[|s| - 1]) then 0
    else
      var init := s[..|s| - 1];
      var k := 1 + TrailingBlanks(init);
      assert forall i :: 0 <= i < |init| ==> s[i] == init[i];
      k
  }

  /** `s.trim()`: `s` without its leading and trailing whitespace. */
  function Trim(s: string): (r: string)
    ensures |r| <= |s|
    ensures r == [] || (!IsWhitespace(r[0]) && !IsWhitespace(r[|r| - 1]))
  {
    var t := s[LeadingBlanks(s)..];
    t[..|t| - TrailingBlanks(t)]
  }

  /** `s.trim()` is a slice of `s` that drops only whitespace on either
      side; with Trim's own contract (no whitespace at its ends) this fixes
      which characters are kept. */
  lemma TrimDropsOnlyBlanks(s: string)
    ensures exists a, b ::
              0 <= a <= b <= |s| && Trim(s) == s[a..b] && IsBlank(s[..a]) && IsBlank(s[b..])
  {
    var a := LeadingBlanks(s);
    var t := s[a..];
    var m := TrailingBlanks(t);
    var b := a + |t| - m;
    assert Trim(s) == t[..|t| - m] == s[a..b];
    assert forall i :: 0 <= i < |s| - b ==> s[b..][i] == t[|t| - m + i];
    assert IsBlank(s[..a]) && IsBlank(s[b..]);
  }

  /** `s.trim() === ""` holds exactly when every character of `s` is
      whitespace. */
  lemma TrimEmptyIffBlank(s: string)
    ensures Trim(s) == [] <==> IsBlank(s)
  {
    var k := LeadingBlanks(s);
    var t := s[k..];
    if IsBlank(s) {
      assert k == |s|;
    } else {
      var i :| 0 <= i < |s| && !IsWhitespace(s[i]);
      assert k <= i;
      var m := TrailingBlanks(t);
      assert t[i - k] == s[i];
      assert m < |t|;
    }
  }
}
