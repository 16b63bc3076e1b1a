/**
 * Character classes of ECMAScript regular expressions and the string
 * built-ins the client relies on (`String.prototype.trim`, `length`).
 * Strings are sequences of Unicode scalar values; a JavaScript string holds
 * UTF-16 code units, so a scalar above U+FFFF occupies two units of `length`.
 */
module Text {

  /** ECMAScript LineTerminator: LF, CR, LINE SEPARATOR, PARAGRAPH SEPARATOR. */
  predicate IsLineTerminator(c: char)
  {
    c == '\n' || c == '\r' || c == '\U{2028}' || c == '\U{2029}'
  }

  /**
   * The regular-expression class `\s`, which is also the set `trim` removes:
   * ECMAScript WhiteSpace (TAB, VT, FF, SPACE, NBSP, ZWNBSP and the Zs
   * separators) together with LineTerminator.
   */
  predicate IsWhitespace(c: char)
  {
    || c == '\t' || c == '\U{000B}' || c == '\U{000C}' || c == ' '
    || c == '\U{00A0}' || c == '\U{1680}'
    || ('\U{2000}' <= c <= '\U{200A}')
    || c == '\U{202F}' || c == '\U{205F}' || c == '\U{3000}' || c == '\U{FEFF}'
    || IsLineTerminator(c)
  }

  /** The class `[a-z]`. */
  predicate IsLower(c: char) { 'a' <= c <= 'z' }

  /** The class `[A-Z]`. */
  predicate IsUpper(c: char) { 'A' <= c <= 'Z' }

  /** The class `\d`, which is `[0-9]` only. */
  predicate IsDigit(c: char) { '0' <= c <= '9' }

  /** No character of `s` is in `\s`. */
  predicate NoWhitespace(s: string)
  {
    forall k :: 0 <= k < |s| ==> !IsWhitespace(s[k])
  }

  /** Every character of `s` is in `\s`. */
  predicate AllWhitespace(s: string)
  {
    forall k :: 0 <= k < |s| ==> IsWhitespace(s[k])
  }

  /** The number of UTF-16 code units of `s`, i.e. JavaScript's `s.length`. */
  function Utf16Length(s: string): (n: nat)
    ensures |s| <= n <= 2 * |s|
  {
    if s == [] then 0
    else (if s[0] as int > 0xFFFF then 2 else 1) + Utf16Length(s[1..])
  }

  /** The first index at or after `i` whose character is not whitespace, or `|s|`. */
  function SkipLeading(s: string, i: nat): (k: nat)
    requires i <= |s|
    ensures i <= k <= |s|
    ensures forall j :: i <= j < k ==> IsWhitespace(s[j])
    ensures k < |s| ==> !IsWhitespace(s[k])
    decreases |s| - i
  {
    if i == |s| || !IsWhitespace(s[i]) then i else SkipLeading(s, i + 1)
  }

  /** The least `k <= j` such that `s[k..j]` is all whitespace. */
  function SkipTrailing(s: string, j: nat): (k: nat)
    requires j <= |s|
    ensures k <= j
    ensures forall t :: k <= t < j ==> IsWhitespace(s[t])
    ensures k > 0 ==> !IsWhitespace(s[k - 1])
  {
    if j == 0 || !IsWhitespace(s[j - 1]) then j else SkipTrailing(s, j - 1)
  }

  /**
   * `String.prototype.trim`: the longest slice of `s` that neither starts
   * nor ends with whitespace, once the whitespace on both sides is dropped.
   */
  function Trim(s: string): (r: string)
    ensures r == [] <==> AllWhitespace(s)
    ensures r != [] ==> !IsWhitespace(r[0]) && !IsWhitespace(r[|r| - 1])
    ensures exists i, j :: 0 <= i <= j <= |s| && r == s[i..j]
                           && AllWhitespace(s[..i]) && AllWhitespace(s[j..])
  {
    var i := SkipLeading(s, 0);
    var j := SkipTrailing(s, |s|);
    if j <= i then
      assert AllWhitespace(s[..|s|]) && s[|s|..|s|] == [];
      []
    else
      assert AllWhitespace(s[..i]) && AllWhitespace(s[j..]);
      s[i..j]
  }
}
