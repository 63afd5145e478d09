/**
 * `String.prototype.trim` as the player-name check uses it: strip ECMAScript
 * white space and line terminators from both ends.
 */
module Text {
  /** ECMAScript WhiteSpace (including every Unicode Zs character) and LineTerminator. */
  predicate IsJsSpace(c: char)
  {
    c == '\t' || c == '\n' || c == '\U{B}' || c == '\U{C}' || c == '\r' || c == ' '
    || c == '\U{A0}' || c == '\U{1680}' || ('\U{2000}' <= c <= '\U{200A}')
    || c == '\U{2028}' || c == '\U{2029}' || c == '\U{202F}' || c == '\U{205F}'
    || c == '\U{3000}' || c == '\U{FEFF}'
  }

  predicate AllSpace(s: string)
  {
    forall i :: 0 <= i < |s| ==> IsJsSpace(s[i])
  }

  /** Drop leading white space: the result is the suffix starting at the first other character. */
  function TrimStart(s: string): (t: string)
    ensures |t| <= |s| && t == s[|s| - |t|..]
    ensures AllSpace(s[..|s| - |t|])
    ensures t == [] || !IsJsSpace(t[0])
  {
    if |s| > 0 && IsJsSpace(s[0]) then
      var t := TrimStart(s[1..]);
      assert s[..|s| - |t|] == [s[0]] + s[1..][..|s[1..]| - |t|];
      t
    else s
  }

  /** Drop trailing white space: the result is the prefix ending at the last other character. */
  function TrimEnd(s: string): (t: string)
    ensures |t| <= |s| && t == s[..|t|]
    ensures AllSpace(s[|t|..])
    ensures t == [] || !IsJsSpace(t[|t| - 1])
  {
    if |s| > 0 && IsJsSpace(s[|s| - 1]) then
      var t := TrimEnd(s[..|s| - 1]);
      assert s[|t|..] == s[..|s| - 1][|t|..] + [s[|s| - 1]];
      t
    else s
  }

  /** `s.trim()`: both ends are non-space, and only white space was cut off. */
  function Trim(s: string): (t: string)
    ensures |t| <= |TrimStart(s)| <= |s|
    ensures t == [] || (!IsJsSpace(t[0]) && !IsJsSpace(t[|t| - 1]))
    ensures t == s[|s| - |TrimStart(s)|..|s| - |TrimStart(s)| + |t|]
  {
    var u := TrimStart(s);
    var t := TrimEnd(u);
    t
  }

  /** What `trim` cut off at either end is white space. */
  lemma TrimCutsSpaceOnly(s: string)
    ensures AllSpace(s[..|s| - |TrimStart(s)|])
    ensures AllSpace(s[|s| - |TrimStart(s)| + |Trim(s)|..])
  {
    var u := TrimStart(s);
    var a := |s| - |u|;
    assert s[a + |Trim(s)|..] == u[|Trim(s)|..];
  }

  /** A name is blank after trimming exactly when it is white space only. */
  lemma TrimBlank(s: string)
    ensures Trim(s) == [] <==> AllSpace(s)
  {
    var u := TrimStart(s);
    if Trim(s) == [] {
      assert AllSpace(u[0..]);
      assert u == [];
      assert s[..|s|] == s;
    }
  }

  /** Trimming twice is trimming once. */
  lemma TrimIdempotent(s: string)
    ensures Trim(Trim(s)) == Trim(s)
  {
    var t := Trim(s);
    if t != [] {
      assert TrimStart(t) == t;
      assert TrimEnd(t) == t;
    }
  }
}
