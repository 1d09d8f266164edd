/** The three JavaScript string operations the component relies on:
    `String.prototype.includes`, `String.prototype.endsWith` (no position
    argument) and `String.prototype.trim`. */
module JsString {

  /** `w` occurs in `s` starting at offset `i`. */
  predicate OccursAt(s: string, w: string, i: nat)
  {
    i + |w| <= |s| && s[i..i + |w|] == w
  }

  /** `s.includes(w)`: true exactly when `w` occurs somewhere in `s`. */
  function Includes(s: string, w: string): (r: bool)
    ensures r <==> exists i: nat :: OccursAt(s, w, i)
    decreases |s|
  {
    if OccursAt(s, w, 0) then
      true
    else if |s| == 0 then
      false
    else
      OccursShift(s, w);
      Includes(s[1..], w)
  }

  /** When `w` does not start `s`, it occurs in `s` exactly when it occurs in
      `s` without its first character. */
  lemma OccursShift(s: string, w: string)
    requires |s| > 0 && !OccursAt(s, w, 0)
    ensures (exists i: nat :: OccursAt(s, w, i)) <==> (exists i: nat :: OccursAt(s[1..], w, i))
  {
    if exists j: nat :: OccursAt(s[1..], w, j) {
      var j: nat :| OccursAt(s[1..], w, j);
      assert s[1..][j..j + |w|] == s[j + 1..j + 1 + |w|];
      assert OccursAt(s, w, j + 1);
    }
    if exists i: nat :: OccursAt(s, w, i) {
      var i: nat :| OccursAt(s, w, i);
      assert s[1..][i - 1..i - 1 + |w|] == s[i..i + |w|];
      assert OccursAt(s[1..], w, i - 1);
    }
  }

  /** `s.endsWith(suffix)`. */
  predicate EndsWith(s: string, suffix: string)
  {
    |suffix| <= |s| && s[|s| - |suffix|..] == suffix
  }

  /** `endsWith` holds exactly when `s` is some string followed by `suffix`. */
  lemma EndsWithIsSuffix(s: string, suffix: string)
    ensures EndsWith(s, suffix) <==> exists p :: s == p + suffix
  {
    if EndsWith(s, suffix) {
      assert s == s[..|s| - |suffix|] + suffix;
    }
  }

  /** The characters `trim` removes: ECMAScript's WhiteSpace production
      (TAB, VT, FF, ZWNBSP and every Unicode "Space_Separator") together with
      its LineTerminator production (LF, CR, LS, PS). */
  predicate IsWhitespace(c: char)
  {
    || c == '\t' || c == '\n' || c == '\U{000B}' || c == '\U{000C}' || c == '\r'
    || c == ' ' || c == '\U{00A0}' || c == '\U{1680}'
    || ('\U{2000}' <= c <= '\U{200A}')
    || c == '\U{2028}' || c == '\U{2029}' || c == '\U{202F}' || c == '\U{205F}'
    || c == '\U{3000}' || c == '\U{FEFF}'
  }

  /** Every character of `s` is whitespace (in particular, the empty string). */
  predicate IsBlank(s: string)
  {
    forall i :: 0 <= i < |s| ==> IsWhitespace(s[i])
  }

  /** How many whitespace characters `s` starts with. */
  function LeadingBlanks(s: string): (n: nat)
    ensures n <= |s|
    ensures forall i :: 0 <= i < n ==> IsWhitespace(s[i])
    ensures n < |s| ==> !IsWhitespace(s[n])
  {
    if |s| > 0 && IsWhitespace(s[0]) then
      var n := 1 + LeadingBlanks(s[1..]);
      assert forall i :: 1 <= i < n ==> s[i] == s[1..][i - 1];
      n
    else
      0
  }

  /** How many whitespace characters `s` ends with. */
  function TrailingBlanks(s: string): (n: nat)
    ensures n <= |s|
    ensures forall i :: |s| - n <= i < |s| ==> IsWhitespace(s[i])
    ensures n < |s| ==> !IsWhitespace(s[|s| - n - 1])
  {
    if |s| > 0 && IsWhitespace(s[|s| - 1]) then
      var n := 1 + TrailingBlanks(s[..|s| - 1]);
      assert forall i :: |s| - n <= i < |s| - 1 ==> s[i] == s[..|s| - 1][i];
      n
    else
      0
  }

  /** `s.trimStart()`: the suffix of `s` that starts at its first
      non-whitespace character. */
  function TrimStart(s: string): (r: string)
    ensures |r| <= |s| && r == s[|s| - |r|..]
    ensures forall i :: 0 <= i < |s| - |r| ==> IsWhitespace(s[i])
    ensures r != [] ==> !IsWhitespace(r[0])
  {
    s[LeadingBlanks(s)..]
  }

  /** `s.trimEnd()`: the prefix of `s` that ends at its last non-whitespace
      character. */
  function TrimEnd(s: string): (r: string)
    ensures |r| <= |s| && r == s[..|r|]
    ensures forall i :: |r| <= i < |s| ==> IsWhitespace(s[i])
    ensures r != [] ==> !IsWhitespace(r[|r| - 1])
  {
    s[..|s| - TrailingBlanks(s)]
  }

  /** `s.trim()`: `s` without its leading and trailing whitespace. It is
      empty exactly when `s` is blank, and otherwise starts and ends with a
      character that is not whitespace. */
  function Trim(s: string): (r: string)
    ensures r == [] <==> IsBlank(s)
    ensures r != [] ==> !IsWhitespace(r[0]) && !IsWhitespace(r[|r| - 1])
  {
    var t := TrimStart(s);
    var r := TrimEnd(t);
    TrimBlank(s, t, r);
    r
  }

  /** What `trim` keeps is the infix of `s` that starts where `trimStart`
      stops, with only whitespace before and after it. */
  lemma TrimIsInfix(s: string)
    ensures var r, k := Trim(s), |s| - |TrimStart(s)|;
            && k + |r| <= |s| && r == s[k..k + |r|]
            && (forall i :: 0 <= i < k ==> IsWhitespace(s[i]))
            && (forall i :: k + |r| <= i < |s| ==> IsWhitespace(s[i]))
  {
    var t := TrimStart(s);
    var r := TrimEnd(t);
    var k := |s| - |t|;
    assert s[k..k + |r|] == r;
    forall i | k + |r| <= i < |s| ensures IsWhitespace(s[i]) {
      assert s[i] == t[i - k];
    }
  }

  /** A string whose leading whitespace is `t`'s complement and whose
      trailing whitespace, after that, is `r`'s complement, is blank exactly
      when nothing is left. */
  lemma TrimBlank(s: string, t: string, r: string)
    requires |t| <= |s| && t == s[|s| - |t|..]
    requires forall i :: 0 <= i < |s| - |t| ==> IsWhitespace(s[i])
    requires t != [] ==> !IsWhitespace(t[0])
    requires |r| <= |t| && r == t[..|r|]
    requires forall i :: |r| <= i < |t| ==> IsWhitespace(t[i])
    ensures r == [] <==> IsBlank(s)
  {
    if r != [] {
      assert r[0] == t[0] == s[|s| - |t|];
    }
  }
}
