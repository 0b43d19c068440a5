/** The part of JavaScript's `String.prototype.trim` that the sidebar relies on:
    a name or title is accepted exactly when trimming leaves something. */
module Text {

  /** The characters `trim` removes: ECMAScript WhiteSpace (tab, vertical tab,
      form feed, space, no-break space, byte order mark and the Unicode space
      separators) and LineTerminator (line feed, carriage return, line and
      paragraph separators). */
  predicate IsWhitespace(c: char) {
    c == '\t' || c == '\n' || c == '\U{000B}' || c == '\U{000C}' || c == '\r' ||
    c == ' ' || c == '\U{00A0}' || c == '\U{1680}' ||
    ('\U{2000}' <= c <= '\U{200A}') ||
    c == '\U{2028}' || c == '\U{2029}' || c == '\U{202F}' || c == '\U{205F}' ||
    c == '\U{3000}' || c == '\U{FEFF}'
  }

  /** A string made only of whitespace (the empty string included). */
  predicate IsBlank(s: string) {
    forall i :: 0 <= i < |s| ==> IsWhitespace(s[i])
  }

  /** The first position at or after `i` that holds no whitespace (or `|s|`). */
  function SkipBlanks(s: string, i: nat): (k: nat)
    requires i <= |s|
    ensures i <= k <= |s|
    ensures forall j :: i <= j < k ==> IsWhitespace(s[j])
    ensures k < |s| ==> !IsWhitespace(s[k])
    decreases |s| - i
  {
    if i < |s| && IsWhitespace(s[i]) then SkipBlanks(s, i + 1) else i
  }

  /** The end of `s[..j]` once its trailing whitespace is dropped. */
  function SkipBlanksBack(s: string, j: nat): (k: nat)
    requires j <= |s|
    ensures k <= j
    ensures forall m :: k <= m < j ==> IsWhitespace(s[m])
    ensures k > 0 ==> !IsWhitespace(s[k - 1])
  {
    if j > 0 && IsWhitespace(s[j - 1]) then SkipBlanksBack(s, j - 1) else j
  }

  /** The first half of `Trim`: `s` without its leading whitespace. */
  function TrimStart(s: string): string {
    s[SkipBlanks(s, 0)..]
  }

  /** The second half of `Trim`: `s` without its trailing whitespace. */
  function TrimEnd(s: string): string {
    s[..SkipBlanksBack(s, |s|)]
  }

  /** JavaScript's `s.trim()`: what is left after removing whitespace at both
      ends. It is the empty (falsy) string exactly when `s` is blank. */
  function Trim(s: string): (r: string)
    ensures r == [] <==> IsBlank(s)
    ensures r != [] ==> !IsWhitespace(r[0]) && !IsWhitespace(r[|r| - 1])
    ensures |r| <= |s|
  {
    var t := TrimStart(s);
    var r := TrimEnd(t);
    assert !IsBlank(s) ==> t != [] && !IsWhitespace(t[0]) by {
      if !IsBlank(s) {
        var i :| 0 <= i < |s| && !IsWhitespace(s[i]);
        assert SkipBlanks(s, 0) <= i;
      }
    }
    assert t != [] && !IsWhitespace(t[0]) ==> r != [] by {
      if t != [] && !IsWhitespace(t[0]) {
        assert SkipBlanksBack(t, |t|) > 0;
      }
    }
    r
  }
}
