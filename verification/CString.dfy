/** NUL-terminated strings as the plugin uses them, and the few searches and
    comparisons it asks the NetDrive helper table for. */
module CString {

  /** A `char` inside a C string: any byte value but the terminator. */
  type Char = c: char | 1 <= c as int <= 255 witness 'A'

  type CStr = seq<Char>

  /** The case mapping of the active code page. It belongs to NetDrive, so it is a
      parameter everywhere: every result holds for every mapping. */
  type Fold = Char -> Char

  const SLASH: Char := '\\'

  /** Equality under fsphStrICmp. */
  predicate SameText(fold: Fold, a: CStr, b: CStr) {
    && |a| == |b|
    && forall i :: 0 <= i < |a| ==> fold(a[i]) == fold(b[i])
  }

  /** fsphStrRChr(s, '\\') as an index, -1 for NULL. */
  function LastSlash(s: CStr): (k: int)
    ensures -1 <= k < |s|
    ensures 0 <= k ==> s[k] == SLASH
    ensures forall i :: k < i < |s| ==> s[i] != SLASH
  {
    if s == [] then -1
    else if s[|s| - 1] == SLASH then |s| - 1
    else LastSlash(s[..|s| - 1])
  }

  /** fsphStrChr(s, '\\') as an index, the end of the string for NULL. */
  function FirstSlash(s: CStr): (k: nat)
    ensures k <= |s|
    ensures k < |s| ==> s[k] == SLASH
    ensures forall i :: 0 <= i < k ==> s[i] != SLASH
  {
    if s == [] then 0
    else if s[0] == SLASH then 0
    else 1 + FirstSlash(s[1..])
  }

  predicate HasWildcard(s: CStr) {
    '*' in s || '?' in s
  }
}
