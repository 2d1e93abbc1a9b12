/** createNoteInternal of createNote.js: the prompt text becomes a note.  Its
    first line names the note, the rest becomes the note's text, and the
    original first line is kept as an alias when the note name (sanitized and
    cut to 60 characters) differs from it.  A markdown link `[T](L)` is read
    as the two lines T and L. */
module CreateNote {
  import opened Strings
  import opened FileNames
  import VaultPaths

  /** Longest note name, in characters. */
  const MaxChars := 60

  /** The object createNoteInternal returns to the template. */
  datatype NoteInfo =
      /** `{title: input, text: ''}`: the prompt was already a valid one-line name. */
    | TitleOnly(title: string)
      /** `{title, alias, text}`, with a null alias as None. */
    | Note(title: string, alias: Option<string>, text: string)

  /** The characters a JavaScript regular expression's `.` does not match. */
  predicate IsLineTerminator(c: char)
  {
    c == '\n' || c == '\r' || c == '\U{2028}' || c == '\U{2029}'
  }

  predicate SingleLine(s: string)
  {
    forall i :: 0 <= i < |s| ==> !IsLineTerminator(s[i])
  }

  predicate IsSeparator(s: string, m: int)
    requires 0 <= m < |s| - 1
  {
    s[m] == ']' && s[m + 1] == '('
  }

  /** The last `](` starting at a position in 1..j, or 0 when there is none. */
  function LastSeparator(s: string, j: int): (r: int)
    requires j < |s| - 1
    ensures r == 0 || (1 <= r <= j && IsSeparator(s, r))
    ensures forall m :: 1 <= m <= j && r < m ==> !IsSeparator(s, m)
    decreases j
  {
    if j < 1 then 0
    else if IsSeparator(s, j) then j
    else LastSeparator(s, j - 1)
  }

  /** `input.match(/^\[(.*)\]\((.*)\)$/)`, as the pair of its two groups.
      Both groups are greedy, so the first one runs up to the LAST `](`. */
  function MatchMarkdownLink(s: string): (r: Option<(string, string)>)
    ensures r.Some? ==> s == "[" + r.value.0 + "](" + r.value.1 + ")" && SingleLine(s)
    ensures r.Some? ==> forall k :: 0 <= k < |r.value.1| - 1 ==> !IsSeparator(r.value.1, k)
  {
    if |s| >= 4 && s[0] == '[' && s[|s| - 1] == ')' && SingleLine(s) then
      var j := LastSeparator(s, |s| - 3);
      if j == 0 then None
      else
        var t, l := s[1..j], s[j + 2..|s| - 1];
        assert s == "[" + t + "](" + l + ")";
        SeparatorsOfSuffix(s, l, j + 2);
        Some((t, l))
    else None
  }

  /** A `](` in the second group is one in the whole input, further right. */
  lemma SeparatorsOfSuffix(s: string, l: string, off: nat)
    requires off <= |s| - 1 && l == s[off..|s| - 1]
    ensures forall k :: 0 <= k < |l| - 1 ==> IsSeparator(l, k) ==> IsSeparator(s, off + k)
  {
  }

  /** Every single-line `[T](L)` matches, with a first group at least as long as T. */
  lemma MarkdownLinkMatches(t: string, l: string)
    requires SingleLine("[" + t + "](" + l + ")")
    ensures MatchMarkdownLink("[" + t + "](" + l + ")").Some?
    ensures |MatchMarkdownLink("[" + t + "](" + l + ")").value.0| >= |t|
  {
    var s := "[" + t + "](" + l + ")";
    assert s[0] == '[' && s[|s| - 1] == ')';
    assert IsSeparator(s, |t| + 1);
    var j := LastSeparator(s, |s| - 3);
    assert j >= |t| + 1;
  }

  /** When L holds no `](`, the single-line `[T](L)` splits back into T and L. */
  lemma MarkdownLinkExact(t: string, l: string)
    requires SingleLine("[" + t + "](" + l + ")")
    requires forall k :: 0 <= k < |l| - 1 ==> !IsSeparator(l, k)
    ensures MatchMarkdownLink("[" + t + "](" + l + ")") == Some((t, l))
  {
    var s := "[" + t + "](" + l + ")";
    MarkdownLinkMatches(t, l);
    var j := LastSeparator(s, |s| - 3);
    if j > |t| + 2 {
      var k := j - (|t| + 3);
      assert l[k] == s[j] && l[k + 1] == s[j + 1];
      assert IsSeparator(l, k);
    }
    assert s[|t| + 2] == '(';
    assert j == |t| + 1;
    assert s[1..j] == t && s[j + 2..|s| - 1] == l;
  }

  /** The prompt text after the markdown-link rewrite: `[T](L)` becomes T, a
      line break, then L. */
  function Rewritten(input: string): string
  {
    match MatchMarkdownLink(input)
    case Some((t, l)) => t + "\n" + l
    case None => input
  }

  /** Everything before the first line break. */
  function FirstLine(s: string): string
  {
    var i := IndexOf(s, '\n');
    if i < 0 then s else s[..i]
  }

  /** `fileName.substr(0, MAX_CHARS)` when the name is too long. */
  function Truncated(s: string): string
  {
    if |s| > MaxChars then s[..MaxChars] else s
  }

  /** The note name made from a line. */
  function NoteFileName(line: string): string
  {
    Truncated(SanitizedName(line))
  }

  /** A line that is already a valid note name. */
  predicate IsCleanName(s: string)
  {
    1 <= |s| <= MaxChars && NoForbidden(s)
  }

  /** The part of createNoteInternal that works on the prompt text alone. */
  function SplitPrompt(input: string): NoteInfo
  {
    var w := Rewritten(input);
    var i := IndexOf(w, '\n');
    var firstLine := FirstLine(w);
    var fileName := NoteFileName(firstLine);
    if w == fileName then TitleOnly(w)
    else
      Note(fileName,
           if firstLine == fileName then None else Some(firstLine),
           if i == -1 then "" else w[i + 1..])
  }

  /** A note name is valid, bounded and non-empty, and is the sanitized line
      cut to its first MaxChars characters. */
  lemma NoteFileNameIsValid(line: string)
    ensures 1 <= |NoteFileName(line)| <= MaxChars
    ensures NoForbidden(NoteFileName(line))
    ensures NoteFileName(line) == SanitizedName(line)[..|NoteFileName(line)|]
    ensures |SanitizedName(line)| <= MaxChars ==> NoteFileName(line) == SanitizedName(line)
  {
    SanitizedNameIsValid(line);
    TruncatedKeeps(SanitizedName(line));
  }

  lemma TruncatedKeeps(s: string)
    requires NoForbidden(s) && |s| >= 1
    ensures 1 <= |Truncated(s)| <= MaxChars
    ensures NoForbidden(Truncated(s))
    ensures Truncated(s) == s[..|Truncated(s)|]
    ensures |s| <= MaxChars ==> Truncated(s) == s
  {
    if |s| > MaxChars {
      NoForbiddenConcat(s[..MaxChars], s[MaxChars..]);
      assert s == s[..MaxChars] + s[MaxChars..];
    }
  }

  lemma TruncatedKeepsAbsent(s: string, d: char)
    requires d !in s
    ensures d !in Truncated(s)
  {
    if |s| > MaxChars {
      assert s == s[..MaxChars] + s[MaxChars..];
    }
  }

  /** A line keeps its own text as note name exactly when it is already clean. */
  lemma NoteFileNameUnchanged(line: string)
    ensures NoteFileName(line) == line <==> IsCleanName(line)
  {
    NoteFileNameIsValid(line);
    SanitizedNameUnchanged(line);
  }

  /** Sanitizing brings in no line break. */
  lemma NoteFileNameSingleLine(line: string)
    requires '\n' !in line
    ensures '\n' !in NoteFileName(line)
  {
    assert '\n' !in SanitizedName(line) by {
      FixpointKeepsAbsent(line, '\n');
      SanitizedOfFixpoint(line);
      DashIsValid();
    }
    TruncatedKeepsAbsent(SanitizedName(line), '\n');
  }

  lemma FirstLineSplit(w: string)
    ensures '\n' !in FirstLine(w)
    ensures '\n' in w ==> w == FirstLine(w) + "\n" + w[IndexOf(w, '\n') + 1..]
    ensures '\n' !in w ==> FirstLine(w) == w
  {
    var i := IndexOf(w, '\n');
    if i >= 0 {
      assert w == w[..i] + [w[i]] + w[i + 1..];
    }
  }

  /** The title is the note name of the first line of the (rewritten) prompt. */
  lemma TitleIsFirstLineName(input: string)
    ensures SplitPrompt(input).title == NoteFileName(FirstLine(Rewritten(input)))
    ensures 1 <= |SplitPrompt(input).title| <= MaxChars
    ensures NoForbidden(SplitPrompt(input).title)
  {
    var w := Rewritten(input);
    FirstLineSplit(w);
    NoteFileNameIsValid(FirstLine(w));
  }

  /** The early title-only return happens exactly when the prompt is one line
      that is already a valid note name. */
  lemma TitleOnlyExactly(input: string)
    ensures SplitPrompt(input).TitleOnly? <==> '\n' !in Rewritten(input) && IsCleanName(Rewritten(input))
  {
    var w := Rewritten(input);
    FirstLineSplit(w);
    NoteFileNameSingleLine(FirstLine(w));
    NoteFileNameUnchanged(FirstLine(w));
  }

  /** The text is everything after the first line break, or empty. */
  lemma TextIsRest(input: string)
    requires SplitPrompt(input).Note?
    ensures '\n' in Rewritten(input) ==>
      Rewritten(input) == FirstLine(Rewritten(input)) + "\n" + SplitPrompt(input).text
    ensures '\n' !in Rewritten(input) ==> SplitPrompt(input).text == ""
  {
    FirstLineSplit(Rewritten(input));
  }

  /** The alias is the original first line, and it is dropped exactly when that
      line was already a valid note name. */
  lemma AliasIsOriginalLine(input: string)
    requires SplitPrompt(input).Note?
    ensures SplitPrompt(input).alias.None? <==> IsCleanName(FirstLine(Rewritten(input)))
    ensures SplitPrompt(input).alias.Some? ==> SplitPrompt(input).alias.value == FirstLine(Rewritten(input))
  {
    FirstLineSplit(Rewritten(input));
    NoteFileNameUnchanged(FirstLine(Rewritten(input)));
  }

  /** The alias test compares the line with the cut name, not with the
      sanitized one: a clean line longer than 60 characters is left as it is
      by sanitizing and is still kept as the alias. */
  lemma LongCleanLineIsAlias(line: string)
    requires |line| > MaxChars && NoForbidden(line) && '\n' !in line
    ensures SanitizedName(line) == line
    ensures SplitPrompt(line).Note? && SplitPrompt(line).alias == Some(line)
  {
    SanitizedNameUnchanged(line);
    assert MatchMarkdownLink(line).None? by {
      assert line[0] != '[' by { assert line[0] !in Forbidden; }
    }
    assert Rewritten(line) == line;
    assert IndexOf(line, '\n') == -1;
    NoteFileNameIsValid(line);
    assert NoteFileName(line) != line;
  }

  /** The lines of T, a line break, then L, when T is one line. */
  lemma TwoLines(t: string, l: string)
    requires '\n' !in t
    ensures '\n' in t + "\n" + l
    ensures FirstLine(t + "\n" + l) == t
    ensures forall rest :: t + "\n" + l == t + "\n" + rest ==> rest == l
  {
    var w := t + "\n" + l;
    assert w == t + ['\n'] + l;
    IndexOfAfter(t, '\n', l);
    assert w[..|t|] == t;
    forall rest | w == t + "\n" + rest ensures rest == l {
      assert rest == w[|t| + 1..];
      assert l == w[|t| + 1..];
    }
  }

  /** A markdown link `[T](L)` gives a note named after T whose text is L. */
  lemma MarkdownLinkNote(input: string)
    requires MatchMarkdownLink(input).Some?
    ensures var (t, l) := MatchMarkdownLink(input).value;
      SplitPrompt(input) == Note(NoteFileName(t), if IsCleanName(t) then None else Some(t), l)
  {
    var (t, l) := MatchMarkdownLink(input).value;
    assert '\n' !in t by {
      assert forall k :: 0 <= k < |t| ==> t[k] == input[k + 1];
      assert SingleLine(input);
    }
    var w, note := Rewritten(input), SplitPrompt(input);
    assert w == t + "\n" + l;
    assert '\n' in w && FirstLine(w) == t by {
      TwoLines(t, l);
    }
    assert note.Note? by {
      TitleOnlyExactly(input);
    }
    assert note.title == NoteFileName(t) by {
      TitleIsFirstLineName(input);
    }
    assert note.text == l by {
      TextIsRest(input);
      TwoLines(t, l);
    }
    assert note.alias == if IsCleanName(t) then None else Some(t) by {
      AliasIsOriginalLine(input);
    }
  }

  /** createNoteInternal: a cancelled prompt gives null; otherwise the note is
      moved to the first free path under the date folder and the split prompt
      is returned.  The date prefix stands for `tp.date.now("YYYY/MM/DD/")`. */
  method CreateNoteInternal(existing: set<string>, datePrefix: string, prompted: Option<string>)
    returns (movedTo: Option<string>, info: Option<NoteInfo>)
    ensures prompted.None? ==> movedTo.None? && info.None?
    ensures prompted.Some? ==> info == Some(SplitPrompt(prompted.value))
    ensures prompted.Some? ==> movedTo.Some? && movedTo.value + ".md" !in existing
    ensures prompted.Some? && |datePrefix| >= 1 && datePrefix[|datePrefix| - 1] == '/' ==>
      exists n: nat ::
        (movedTo.value == datePrefix + VaultPaths.Candidate(info.value.title, n) &&
         VaultPaths.IsFirstFree(existing, datePrefix[..|datePrefix| - 1], info.value.title, n))
  {
    if prompted.None? {
      return None, None;
    }
    var note := SplitPrompt(prompted.value);
    var path := VaultPaths.GetNewFilePath(existing, datePrefix + note.title);
    movedTo, info := Some(path), Some(note);

    if |datePrefix| >= 1 && datePrefix[|datePrefix| - 1] == '/' {
      TitleIsFirstLineName(prompted.value);
      DatedPath(existing, datePrefix, note.title, path);
    }
  }

  /** Under a date prefix ending in `/`, a title without `/` keeps the date
      folder and is itself the base name the vault search numbers. */
  lemma DatedPath(existing: set<string>, datePrefix: string, title: string, path: string)
    requires |datePrefix| >= 1 && datePrefix[|datePrefix| - 1] == '/'
    requires NoForbidden(title)
    requires exists n: nat ::
      (path == VaultPaths.FolderOf(datePrefix + title) + "/" + VaultPaths.Candidate(VaultPaths.BaseOf(datePrefix + title), n) &&
       VaultPaths.IsFirstFree(existing, VaultPaths.FolderOf(datePrefix + title), VaultPaths.BaseOf(datePrefix + title), n))
    ensures exists n: nat ::
      (path == datePrefix + VaultPaths.Candidate(title, n) &&
       VaultPaths.IsFirstFree(existing, datePrefix[..|datePrefix| - 1], title, n))
  {
    DatedSplit(datePrefix, title);
    var folder := datePrefix[..|datePrefix| - 1];
    var n: nat :| path == folder + "/" + VaultPaths.Candidate(title, n) &&
                  VaultPaths.IsFirstFree(existing, folder, title, n);
    assert path == datePrefix + VaultPaths.Candidate(title, n);
  }

  lemma DatedSplit(datePrefix: string, title: string)
    requires |datePrefix| >= 1 && datePrefix[|datePrefix| - 1] == '/'
    requires NoForbidden(title)
    ensures datePrefix == datePrefix[..|datePrefix| - 1] + "/"
    ensures VaultPaths.FolderOf(datePrefix + title) == datePrefix[..|datePrefix| - 1]
    ensures VaultPaths.BaseOf(datePrefix + title) == title
  {
    var folder := datePrefix[..|datePrefix| - 1];
    assert datePrefix == folder + "/";
    assert '/' !in title;
    assert datePrefix + title == folder + "/" + title;
    VaultPaths.SplitJoined(folder, title);
  }
}
