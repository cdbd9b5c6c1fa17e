/** The file-name rule of `saveHTML` (app.js line 45): a name is kept as it is
    when the unanchored regular expression `/.html/` matches it, and gets
    ".html" appended otherwise. */
module SaveRule {

  import opened Options

  /** The characters JavaScript's `.` atom refuses (no `s` flag is given). */
  predicate IsLineTerminator(c: char)
  {
    c == '\n' || c == '\r' || c == '\U{2028}' || c == '\U{2029}'
  }

  /** `/.html/` matches starting at index `i`: one character other than a line
      terminator, then the four characters "html" (case-sensitive). */
  predicate MatchesAt(s: string, i: nat)
  {
    i + 5 <= |s| && !IsLineTerminator(s[i]) && s[i + 1..i + 5] == "html"
  }

  /** `/.html/` matches somewhere in `s` (the expression is not anchored). */
  ghost predicate Matches(s: string)
  {
    exists i: nat :: MatchesAt(s, i)
  }

  /** The regular-expression search `s.match(/.html/)`: the leftmost index at
      or after `from` where the pattern matches, or None when there is none. */
  function Search(s: string, from: nat): (r: Option<nat>)
    decreases |s| - from
    ensures r.Some? ==> from <= r.value && MatchesAt(s, r.value)
    ensures r.Some? ==> forall j: nat :: from <= j < r.value ==> !MatchesAt(s, j)
    ensures r.None? ==> forall j: nat :: from <= j ==> !MatchesAt(s, j)
  {
    if |s| < from + 5 then None
    else if MatchesAt(s, from) then Some(from)
    else Search(s, from + 1)
  }

  /** The name `saveHTML` writes under: unchanged when the pattern matches,
      with ".html" appended when it does not. */
  function SaveName(fileName: string): (r: string)
    ensures Matches(fileName) ==> r == fileName
    ensures !Matches(fileName) ==> r == fileName + ".html"
  {
    if Search(fileName, 0).Some? then fileName else fileName + ".html"
  }

  /** Every saved name matches the pattern: an appended ".html" supplies the
      '.' before "html" itself. */
  lemma SaveNameMatches(fileName: string)
    ensures Matches(SaveName(fileName))
  {
    if !Matches(fileName) {
      var r := fileName + ".html";
      assert r[|fileName| + 1..|fileName| + 5] == "html";
      assert MatchesAt(r, |fileName|);
    }
  }

  /** Applying the rule twice gives the same name as applying it once. */
  lemma SaveNameIdempotent(fileName: string)
    ensures SaveName(SaveName(fileName)) == SaveName(fileName)
  {
    SaveNameMatches(fileName);
  }

  /** Something must precede "html": a name that starts with it, and has no
      other occurrence, still gets the suffix. */
  lemma LeadingHtmlIsExtended()
    ensures SaveName("html-guide") == "html-guide.html"
  {
    var s := "html-guide";
    forall j: nat | j + 5 <= |s|
      ensures !MatchesAt(s, j)
    {
      assert s[j + 1..j + 5][0] == s[j + 1] != 'h';
    }
  }

  /** "html" anywhere after some character keeps the name as it is. */
  lemma InnerHtmlIsKept()
    ensures SaveName("my-html-page") == "my-html-page"
  {
    assert MatchesAt("my-html-page", 2);
  }

  /** A line break before "html" does not satisfy `.`, so the suffix is added. */
  lemma LineBreakBeforeHtmlIsExtended()
    ensures SaveName("\nhtml") == "\nhtml.html"
  {
    var s := "\nhtml";
    forall j: nat | j + 5 <= |s|
      ensures !MatchesAt(s, j)
    {
      assert j == 0 && IsLineTerminator(s[0]);
    }
  }
}
