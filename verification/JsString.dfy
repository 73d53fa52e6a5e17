/**
  The ECMAScript string operations the submission form relies on: the
  white-space class StrWhiteSpaceChar (section 7.1.4.1 of ECMA-262, the union of
  WhiteSpace of section 12.2 and LineTerminator of section 12.3) and the
  trimming that `String.prototype.trim` performs (section 22.1.3.32).
*/
module JsString {

  /**
    StrWhiteSpaceChar: WhiteSpace (TAB, VT, FF, ZWNBSP and every Zs space
    separator, U+2000 to U+200A among them) and LineTerminator (LF, CR,
    LINE SEPARATOR, PARAGRAPH SEPARATOR).
  */
  const StrWhiteSpace: set<char> := {
    '\t', '\U{000B}', '\U{000C}', '\U{FEFF}',
    ' ', '\U{00A0}', '\U{1680}',
    '\U{2000}', '\U{2001}', '\U{2002}', '\U{2003}', '\U{2004}', '\U{2005}',
    '\U{2006}', '\U{2007}', '\U{2008}', '\U{2009}', '\U{200A}',
    '\U{202F}', '\U{205F}', '\U{3000}',
    '\n', '\r', '\U{2028}', '\U{2029}'
  }

  /** True for the characters `trim` and `parseInt` skip. */
  predicate IsStrWhiteSpace(c: char) {
    c in StrWhiteSpace
  }

  /** Every character of `s` is white space (vacuously true of ""). */
  predicate IsBlank(s: string) {
    forall i :: 0 <= i < |s| ==> IsStrWhiteSpace(s[i])
  }

  /** `s` with its leading white space removed. */
  function TrimStart(s: string): (r: string)
    ensures |r| <= |s| && r == s[|s| - |r|..]
    ensures IsBlank(s[..|s| - |r|])
    ensures r != [] ==> !IsStrWhiteSpace(r[0])
  {
    if |s| > 0 && IsStrWhiteSpace(s[0]) then
      var r := TrimStart(s[1..]);
      assert s[..|s| - |r|] == [s[0]] + s[1..][..|s| - 1 - |r|];
      r
    else s
  }

  /** `s` with its trailing white space removed. */
  function TrimEnd(s: string): (r: string)
    ensures |r| <= |s| && r == s[..|r|]
    ensures IsBlank(s[|r|..])
    ensures r != [] ==> !IsStrWhiteSpace(r[|r| - 1])
  {
    if |s| > 0 && IsStrWhiteSpace(s[|s| - 1]) then
      var r := TrimEnd(s[..|s| - 1]);
      assert s[|r|..] == s[..|s| - 1][|r|..] + [s[|s| - 1]];
      r
    else s
  }

  /** `String.prototype.trim`: both ends stripped. */
  function Trim(s: string): string {
    TrimEnd(TrimStart(s))
  }

  /**
    `!s.trim()` holds exactly when `s` is blank: the trimmed string is empty
    (the only falsy string) if and only if every character was white space.
  */
  lemma TrimEmptyIffBlank(s: string)
    ensures Trim(s) == "" <==> IsBlank(s)
  {
    if IsBlank(s) {
      TrimStartOfBlank(s);
    }
    if Trim(s) == "" {
      var t := TrimStart(s);
      assert IsBlank(t[0..]);
      assert t == [];
      forall i | 0 <= i < |s|
        ensures IsStrWhiteSpace(s[i])
      {
        assert s[..|s|][i] == s[i];
      }
    }
  }

  /** A blank string trims to nothing. */
  lemma {:induction false} TrimStartOfBlank(s: string)
    requires IsBlank(s)
    ensures TrimStart(s) == ""
  {
    if s != [] {
      TrimStartOfBlank(s[1..]);
    }
  }

  /** Leading white space never changes what follows it. */
  lemma {:induction false} TrimStartSkipsBlankPrefix(ws: string, s: string)
    requires IsBlank(ws)
    ensures TrimStart(ws + s) == TrimStart(s)
  {
    if ws != [] {
      assert (ws + s)[1..] == ws[1..] + s;
      TrimStartSkipsBlankPrefix(ws[1..], s);
    } else {
      assert ws + s == s;
    }
  }
}
