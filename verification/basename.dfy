/** The default output name derived from an uploaded file's name:
    `name.replace(/\.[^/.]+$/, "")`, which deletes a final dot followed by one
    or more characters that are neither `.` nor `/`. */
module BaseName {

  /** The character class `[^/.]`. */
  predicate IsExtensionChar(c: char)
  {
    c != '.' && c != '/'
  }

  /** The regular expression `\.[^/.]+$` matches `s` at offset `i`, spanning
      `n` characters: a dot, then one or more extension characters, then the
      end of the string. */
  predicate MatchAt(s: string, i: nat, n: nat)
  {
    && 2 <= n
    && i + n == |s|
    && s[i] == '.'
    && forall j :: i < j < |s| ==> IsExtensionChar(s[j])
  }

  /** The regular expression matches somewhere in `s`. */
  ghost predicate HasExtension(s: string)
  {
    exists i: nat, n: nat :: MatchAt(s, i, n)
  }

  /** The regular expression matches at most once: the last dot is the only
      candidate, since an extension contains no dot. */
  lemma MatchUnique(s: string, i: nat, n: nat, i': nat, n': nat)
    requires MatchAt(s, i, n) && MatchAt(s, i', n')
    ensures i == i' && n == n'
  {
  }

  /** What `String.prototype.replace` does with a non-global regular
      expression and an empty replacement: cut out the leftmost match, or
      return the string unchanged when there is none. */
  ghost function RegexReplace(s: string): string
  {
    if HasExtension(s) then
      var i: nat, n: nat :| MatchAt(s, i, n);
      s[..i] + s[i + n..]
    else
      s
  }

  /** Length of the longest suffix of `s` made of extension characters. */
  function TrailingRun(s: string): (k: nat)
    ensures k <= |s|
    ensures forall j :: |s| - k <= j < |s| ==> IsExtensionChar(s[j])
    ensures k < |s| ==> !IsExtensionChar(s[|s| - k - 1])
  {
    if |s| == 0 || !IsExtensionChar(s[|s| - 1]) then
      0
    else
      var k := TrailingRun(s[..|s| - 1]);
      assert forall j :: |s| - 1 - k <= j < |s| - 1 ==> s[j] == s[..|s| - 1][j];
      k + 1
  }

  /** The base name: `s` without its extension. The result is a prefix of
      `s`; it differs from `s` exactly when the regular expression matches,
      and then what was cut off is precisely the match. */
  function StripExtension(s: string): (r: string)
    ensures r <= s
    ensures r != s <==> HasExtension(s)
    ensures r != s ==> MatchAt(s, |r|, |s| - |r|)
  {
    var k := TrailingRun(s);
    if 0 < k < |s| && s[|s| - k - 1] == '.' then
      assert MatchAt(s, |s| - k - 1, k + 1);
      s[..|s| - k - 1]
    else
      s
  }

  /** `StripExtension` computes exactly what the regular expression
      replacement produces, on every input. */
  lemma StripIsRegexReplace(s: string)
    ensures StripExtension(s) == RegexReplace(s)
  {
    var r := StripExtension(s);
    if HasExtension(s) {
      var i: nat, n: nat :| MatchAt(s, i, n);
      MatchUnique(s, i, n, |r|, |s| - |r|);
      assert RegexReplace(s) == s[..i] + s[i + n..] by {
        var i': nat, n': nat :| MatchAt(s, i', n') && RegexReplace(s) == s[..i'] + s[i' + n'..];
        MatchUnique(s, i, n, i', n');
      }
      assert s[i + n..] == [];
    }
  }

  /** A name ending in `.` plus a non-empty run of extension characters loses
      exactly that ending, and nothing else. */
  lemma StripKnownExtension(name: string, ext: string)
    requires ext != [] && forall j :: 0 <= j < |ext| ==> IsExtensionChar(ext[j])
    requires |ext| < |name| && name[|name| - |ext| - 1..] == ['.'] + ext
    ensures StripExtension(name) == name[..|name| - |ext| - 1]
  {
    var i := |name| - |ext| - 1;
    assert forall j :: i < j < |name| ==> name[j] == ext[j - i - 1] by {
      forall j | i < j < |name| ensures name[j] == ext[j - i - 1] {
        assert name[j] == name[i..][j - i];
      }
    }
    assert name[i] == name[i..][0];
    assert MatchAt(name, i, |ext| + 1);
    var r := StripExtension(name);
    MatchUnique(name, i, |ext| + 1, |r|, |name| - |r|);
  }

  /** A dot that is followed by a `/` later on does not start an extension:
      when no dot comes after the last slash, the name is left unchanged. */
  lemma DirectoryDot(s: string, q: nat)
    requires q < |s| && s[q] == '/'
    requires forall j :: q < j < |s| ==> s[j] != '.'
    ensures StripExtension(s) == s
  {
    if HasExtension(s) {
      var i: nat, n: nat :| MatchAt(s, i, n);
      assert false;
    }
  }

  /** The example the interface is built around, `report.docx` giving
      `report`, and a double extension, of which only the last part goes. */
  lemma StrippedNames()
    ensures StripExtension("report.docx") == "report"
    ensures StripExtension("a.tar.gz") == "a.tar"
  {
    StripKnownExtension("report.docx", "docx");
    StripKnownExtension("a.tar.gz", "gz");
  }

  /** A trailing dot with nothing after it, a name without a dot and a dot
      inside a directory part are all left alone; a dot-file loses everything. */
  lemma UnchangedNames()
    ensures StripExtension("x.") == "x."
    ensures StripExtension("noext") == "noext"
    ensures StripExtension("v1.0/readme") == "v1.0/readme"
    ensures StripExtension(".docx") == ""
  {
    StripKnownExtension(".docx", "docx");
    DirectoryDot("v1.0/readme", 4);
  }
}
