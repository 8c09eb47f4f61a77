/**
 * Item names are validated the way Python's `str.strip()` sees them: a name
 * is rejected when nothing is left after leading and trailing whitespace is
 * removed. This module models that whitespace class and the stripping.
 */
module Text {

  /** The characters for which Python's `str.isspace()` holds: the ones
      `str.strip()` removes when called without arguments. */
  predicate IsSpace(c: char) {
    || ('\t' <= c <= '\r')                // \t \n \x0b \x0c \r
    || ('\U{1c}' <= c <= '\U{1f}')        // file, group, record, unit separators
    || c == ' '
    || c == '\U{85}'
    || c == '\U{a0}'
    || c == '\U{1680}'
    || ('\U{2000}' <= c <= '\U{200a}')
    || c == '\U{2028}'
    || c == '\U{2029}'
    || c == '\U{202f}'
    || c == '\U{205f}'
    || c == '\U{3000}'
  }

  /** Every character of `s` is whitespace (the empty string included). */
  predicate IsBlank(s: string) {
    forall i :: 0 <= i < |s| ==> IsSpace(s[i])
  }

  /** `s` without its leading whitespace: a suffix of `s` that is empty or
      starts with a non-space, everything cut off being whitespace. */
  function TrimLeft(s: string): (r: string)
    ensures |r| <= |s| && r == s[|s| - |r|..]
    ensures r != [] ==> !IsSpace(r[0])
    ensures forall i :: 0 <= i < |s| - |r| ==> IsSpace(s[i])
  {
    if s != [] && IsSpace(s[0]) then TrimLeft(s[1..]) else s
  }

  /** `s` without its trailing whitespace: a prefix of `s` that is empty or
      ends with a non-space, everything cut off being whitespace. */
  function TrimRight(s: string): (r: string)
    ensures |r| <= |s| && r == s[..|r|]
    ensures r != [] ==> !IsSpace(r[|r| - 1])
    ensures forall i :: |r| <= i < |s| ==> IsSpace(s[i])
  {
    if s != [] && IsSpace(s[|s| - 1]) then TrimRight(s[..|s| - 1]) else s
  }

  /** Python's `s.strip()`; `not item.strip()` holds exactly for the blank
      strings. */
  function Strip(s: string): (r: string)
    ensures r == [] <==> IsBlank(s)
  {
    TrimRight(TrimLeft(s))
  }
}
