/** Whitespace trimming as the add-quote form applies it to both inputs
    (`String.prototype.trim`): leading and trailing white space and line
    terminators are removed, nothing else. */
module Text {

  /** The ECMAScript WhiteSpace and LineTerminator code points. */
  const WhiteSpace: set<char> := {
    '\t', '\n', '\U{000B}', '\U{000C}', '\r', ' ', '\U{00A0}', '\U{1680}',
    '\U{2000}', '\U{2001}', '\U{2002}', '\U{2003}', '\U{2004}', '\U{2005}',
    '\U{2006}', '\U{2007}', '\U{2008}', '\U{2009}', '\U{200A}',
    '\U{2028}', '\U{2029}', '\U{202F}', '\U{205F}', '\U{3000}', '\U{FEFF}' }

  predicate IsSpace(c: char) {
    c in WhiteSpace
  }

  /** True when the string has some character that is not white space. */
  predicate HasContent(s: string) {
    exists i :: 0 <= i < |s| && !IsSpace(s[i])
  }

  /** The position of the first non-space character at or after `i`, or
      `|s|` when there is none. */
  function ContentStart(s: string, i: nat): (n: nat)
    requires i <= |s|
    ensures i <= n <= |s|
    ensures forall k :: i <= k < n ==> IsSpace(s[k])
    ensures n < |s| ==> !IsSpace(s[n])
    decreases |s| - i
  {
    if i < |s| && IsSpace(s[i]) then ContentStart(s, i + 1) else i
  }

  /** The position just after the last non-space character before `j`, or
      0 when there is none. */
  function ContentEnd(s: string, j: nat): (n: nat)
    requires j <= |s|
    ensures n <= j
    ensures forall k :: n <= k < j ==> IsSpace(s[k])
    ensures n > 0 ==> !IsSpace(s[n - 1])
  {
    if j > 0 && IsSpace(s[j - 1]) then ContentEnd(s, j - 1) else j
  }

  /** `s.trim()`: the slice of `s` between its leading and its trailing white
      space. It is empty exactly when `s` holds nothing but white space. */
  function Trim(s: string): (r: string)
    ensures var a := ContentStart(s, 0);
      && a + |r| <= |s|
      && r == s[a..a + |r|]
      && (forall i :: 0 <= i < a ==> IsSpace(s[i]))
      && (forall i :: a + |r| <= i < |s| ==> IsSpace(s[i]))
    ensures r != [] ==> !IsSpace(r[0]) && !IsSpace(r[|r| - 1])
    ensures r == [] <==> !HasContent(s)
  {
    var a, e := ContentStart(s, 0), ContentEnd(s, |s|);
    if a < e then s[a..e] else []
  }

  /** Trimming a trimmed string changes nothing. */
  lemma TrimIdempotent(s: string)
    ensures Trim(Trim(s)) == Trim(s)
  {
    var r := Trim(s);
    if r != [] {
      assert ContentStart(r, 0) == 0;
      assert ContentEnd(r, |r|) == |r|;
    }
  }
}
