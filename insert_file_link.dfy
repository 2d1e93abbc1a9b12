/** insertFileLink.js: a path read from the clipboard becomes a markdown link
    whose text is the percent-decoded path and whose target is the path as
    written, with slashes for backslashes and without a `file://` scheme. */
module InsertFileLink {
  import opened Strings
  import UriDecode
  import CreateNote

  /** `{title, link}` of getClipboardContent. */
  datatype ClipboardContent = ClipboardContent(title: string, link: string)

  const FileScheme := "file://"

  /** `.replace(/^file:\/\//, '')`: the regular expression is anchored, so
      only a `file://` at the very start goes, and only once. */
  function StripFileScheme(s: string): string
  {
    if StartsWith(s, FileScheme) then s[|FileScheme|..] else s
  }

  /** `formattedPath`: every backslash turned into a slash, then the scheme
      stripped. */
  function FormattedPath(clipboardContent: string): string
  {
    StripFileScheme(ReplaceAll(clipboardContent, '\\', '/'))
  }

  /** The link: the formatted path without one leading slash. */
  function Link(clipboardContent: string): (link: string)
    ensures '\\' !in link
    ensures var n := ReplaceAll(clipboardContent, '\\', '/');
      n == link || n == "/" + link || n == FileScheme + link || n == FileScheme + "/" + link
  {
    var n := ReplaceAll(clipboardContent, '\\', '/');
    var formattedPath := FormattedPath(clipboardContent);
    assert StartsWith(n, FileScheme) ==> n == FileScheme + formattedPath;
    if StartsWith(formattedPath, "/") then
      assert formattedPath == "/" + formattedPath[1..];
      formattedPath[1..]
    else formattedPath
  }

  /** getClipboardContent: the title is decodeURIComponent of the link, and a
      malformed escape is the URIError it throws. */
  function GetClipboardContent(clipboardContent: string): (r: Result<ClipboardContent>)
    ensures r.Ok? ==> r.value.link == Link(clipboardContent) && UriDecode.Decode(r.value.link) == Ok(r.value.title)
    ensures r.Err? ==> UriDecode.Decode(Link(clipboardContent)).Err? && r.message == UriDecode.UriErrorMessage
  {
    var link := Link(clipboardContent);
    match UriDecode.Decode(link)
    case Ok(title) => Ok(ClipboardContent(title, link))
    case Err(e) => Err(e)
  }

  /** insertFileLink's result: the markdown link, or the error. */
  function InsertFileLink(clipboardContent: string): Result<string>
  {
    match GetClipboardContent(clipboardContent)
    case Ok(content) => Ok("[" + content.title + "](" + content.link + ")")
    case Err(e) => Err(e)
  }

  /** Exactly which prefix the link loses: `file:///` (the scheme and one
      slash), `file://`, one `/`, or nothing; the rest is kept as it is. */
  lemma LinkDropsPrefixOnce(clipboardContent: string)
    ensures var n := ReplaceAll(clipboardContent, '\\', '/');
      && (StartsWith(n, "file:///") ==> Link(clipboardContent) == n[8..])
      && (StartsWith(n, FileScheme) && !StartsWith(n, "file:///") ==> Link(clipboardContent) == n[7..])
      && (!StartsWith(n, FileScheme) && StartsWith(n, "/") ==> Link(clipboardContent) == n[1..])
      && (!StartsWith(n, FileScheme) && !StartsWith(n, "/") ==> Link(clipboardContent) == n)
  {
    var n := ReplaceAll(clipboardContent, '\\', '/');
    if StartsWith(n, "file:///") {
      assert StartsWith(n, FileScheme);
      assert n[7..][..1] == "/";
    }
  }

  /** Without a `%` the path cannot be malformed, and the title is the link. */
  lemma PlainPathTitleIsLink(clipboardContent: string)
    requires '%' !in clipboardContent
    ensures GetClipboardContent(clipboardContent).Ok?
    ensures GetClipboardContent(clipboardContent).value.title == Link(clipboardContent)
  {
    var n := ReplaceAll(clipboardContent, '\\', '/');
    var link := Link(clipboardContent);
    assert '%' !in n by {
      forall i | 0 <= i < |n| ensures n[i] != '%' {
        assert n[i] == '/' || n[i] == clipboardContent[i];
      }
    }
    assert '%' !in link by {
      var p := |n| - |link|;
      assert n[p..] == link;
      forall i | 0 <= i < |link| ensures link[i] != '%' {
        assert link[i] == n[p + i];
      }
    }
    UriDecode.DecodeWithoutPercent(link);
  }

  /** A `%` of the link not followed by two hex digits makes insertFileLink
      fail with the URIError. */
  lemma MalformedEscapeFails(clipboardContent: string, i: nat)
    requires i < |Link(clipboardContent)| && Link(clipboardContent)[i] == '%'
    requires !(i + 2 < |Link(clipboardContent)| && UriDecode.IsHexDigit(Link(clipboardContent)[i + 1]) &&
               UriDecode.IsHexDigit(Link(clipboardContent)[i + 2]))
    ensures InsertFileLink(clipboardContent) == Err(UriDecode.UriErrorMessage)
  {
    if UriDecode.Decode(Link(clipboardContent)).Ok? {
      UriDecode.DecodedEscapesAreWellFormed(Link(clipboardContent));
    }
  }

  /** The output is `[title](link)`, and the markdown-link pattern of
      createNote.js reads title and link back from it when both are on one
      line and the link holds no `](`. */
  lemma InsertFileLinkOutput(clipboardContent: string)
    ensures InsertFileLink(clipboardContent).Ok? <==> GetClipboardContent(clipboardContent).Ok?
    ensures InsertFileLink(clipboardContent).Err? ==> InsertFileLink(clipboardContent).message == UriDecode.UriErrorMessage
    ensures InsertFileLink(clipboardContent).Ok? ==>
      var c := GetClipboardContent(clipboardContent).value;
      && InsertFileLink(clipboardContent).value == "[" + c.title + "](" + c.link + ")"
      && (CreateNote.SingleLine("[" + c.title + "](" + c.link + ")") &&
          (forall k :: 0 <= k < |c.link| - 1 ==> !CreateNote.IsSeparator(c.link, k)) ==>
            CreateNote.MatchMarkdownLink(InsertFileLink(clipboardContent).value) == Some((c.title, c.link)))
  {
    if InsertFileLink(clipboardContent).Ok? {
      var c := GetClipboardContent(clipboardContent).value;
      if CreateNote.SingleLine("[" + c.title + "](" + c.link + ")") &&
         (forall k :: 0 <= k < |c.link| - 1 ==> !CreateNote.IsSeparator(c.link, k)) {
        CreateNote.MarkdownLinkExact(c.title, c.link);
      }
    }
  }

  /** A path without `%` that neither starts with `file://` nor with `/`
      keeps its text, slashes for backslashes, as both title and link. */
  lemma PlainRelativePath(clipboardContent: string, expected: string)
    requires '%' !in clipboardContent
    requires expected == ReplaceAll(clipboardContent, '\\', '/')
    requires !StartsWith(expected, FileScheme) && !StartsWith(expected, "/")
    ensures GetClipboardContent(clipboardContent) == Ok(ClipboardContent(expected, expected))
  {
    LinkDropsPrefixOnce(clipboardContent);
    PlainPathTitleIsLink(clipboardContent);
  }

  /** A path whose first character is neither `f` nor `/` has no prefix
      for the script to strip. */
  lemma NoPrefixToStrip(s: string)
    requires |s| >= 1 && s[0] != 'f' && s[0] != '/'
    ensures !StartsWith(s, FileScheme) && !StartsWith(s, "/")
  {
  }

  /** The first case of the script's own test: a backslashed Windows path. */
  lemma BackslashedWindowsPath()
    ensures GetClipboardContent("C:\\Users\\User\\Documents\\Obsidian\\") ==
            Ok(ClipboardContent("C:/Users/User/Documents/Obsidian/", "C:/Users/User/Documents/Obsidian/"))
  {
    var c := "C:\\Users\\User\\Documents\\Obsidian\\";
    var e := "C:/Users/User/Documents/Obsidian/";
    assert ReplaceAll(c, '\\', '/') == e;
    assert '%' !in c;
    NoPrefixToStrip(e);
    PlainRelativePath(c, e);
  }

  /** The second case: a path with forward slashes is left alone. */
  lemma ForwardSlashPath()
    ensures GetClipboardContent("C:/Users/User/Documents/Obsidian/Home/Home/Misc/Templater/Scripts/") ==
            Ok(ClipboardContent("C:/Users/User/Documents/Obsidian/Home/Home/Misc/Templater/Scripts/",
                                "C:/Users/User/Documents/Obsidian/Home/Home/Misc/Templater/Scripts/"))
  {
    var c := "C:/Users/User/Documents/Obsidian/Home/Home/Misc/Templater/Scripts/";
    ForwardSlashPathIsPlain();
    assert ReplaceAll(c, '\\', '/') == c;
    NoPrefixToStrip(c);
    PlainRelativePath(c, c);
  }

  lemma ForwardSlashPathIsPlain()
    ensures var c := "C:/Users/User/Documents/Obsidian/Home/Home/Misc/Templater/Scripts/";
      '\\' !in c && '%' !in c && c[0] == 'C'
  {
    ForwardSlashPathConcat();
    VaultFolderIsPlain();
    ScriptsFolderIsPlain();
  }

  lemma ForwardSlashPathConcat()
    ensures "C:/Users/User/Documents/Obsidian/Home/Home/Misc/Templater/Scripts/" ==
            "C:/Users/User/Documents/Obsidian/" + "Home/Home/Misc/Templater/Scripts/"
  {
  }

  lemma VaultFolderIsPlain()
    ensures '\\' !in "C:/Users/User/Documents/Obsidian/" && '%' !in "C:/Users/User/Documents/Obsidian/"
  {
  }

  lemma ScriptsFolderIsPlain()
    ensures '\\' !in "Home/Home/Misc/Templater/Scripts/" && '%' !in "Home/Home/Misc/Templater/Scripts/"
  {
  }

  /** The third case: a `file:///` URL loses the scheme and one slash, the
      title has its `%20` escapes decoded and the link keeps them. */
  lemma FileUrlWithEscapes()
    ensures GetClipboardContent("file:///C:/Users/User/Games/Age%20of%20Empires%202%20DE") ==
            Ok(ClipboardContent("C:/Users/User/Games/Age of Empires 2 DE",
                                "C:/Users/User/Games/Age%20of%20Empires%202%20DE"))
  {
    FileUrlLink();
    DecodeAgeOfEmpires();
  }

  /** A `file:///` URL without backslashes links to what follows the scheme
      and its slash. */
  lemma FileUrlDropsSchemeAndSlash(path: string)
    requires '\\' !in path
    ensures Link("file:///" + path) == path
  {
    var c := "file:///" + path;
    assert '\\' !in c;
    assert ReplaceAll(c, '\\', '/') == c;
    assert c[..8] == "file:///";
    LinkDropsPrefixOnce(c);
    assert c[8..] == path;
  }

  lemma FileUrlLink()
    ensures Link("file:///C:/Users/User/Games/Age%20of%20Empires%202%20DE") ==
            "C:/Users/User/Games/Age%20of%20Empires%202%20DE"
  {
    FileUrlIsSchemeThenLink();
    FileUrlDropsSchemeAndSlash("C:/Users/User/Games/Age%20of%20Empires%202%20DE");
  }

  lemma FileUrlIsSchemeThenLink()
    ensures "file:///C:/Users/User/Games/Age%20of%20Empires%202%20DE" ==
            "file:///" + "C:/Users/User/Games/Age%20of%20Empires%202%20DE"
    ensures '\\' !in "C:/Users/User/Games/Age%20of%20Empires%202%20DE"
  {
    var x, y, z := "file:///", "C:/Users/User/", "Games/Age%20of%20Empires%202%20DE";
    FileUrlConcat();
    EscapedLinkConcat();
    SchemeThenUserFolder();
    assert x + y + z == x + (y + z);
    EscapedLinkPartHasNoBackslash(y);
    EscapedLinkPartHasNoBackslash(z);
  }

  lemma FileUrlConcat()
    ensures "file:///C:/Users/User/Games/Age%20of%20Empires%202%20DE" ==
            "file:///C:/Users/User/" + "Games/Age%20of%20Empires%202%20DE"
  {
  }

  lemma EscapedLinkConcat()
    ensures "C:/Users/User/Games/Age%20of%20Empires%202%20DE" == "C:/Users/User/" + "Games/Age%20of%20Empires%202%20DE"
  {
  }

  lemma SchemeThenUserFolder()
    ensures "file:///C:/Users/User/" == "file:///" + "C:/Users/User/"
  {
  }

  lemma EscapedLinkPartHasNoBackslash(s: string)
    requires s == "C:/Users/User/" || s == "Games/Age%20of%20Empires%202%20DE"
    ensures '\\' !in s
  {
  }

  /** Words without `%` joined by `%20` decode to the words joined by spaces. */
  lemma DecodeSpacedWords(a: string, b: string, c: string, d: string, e: string)
    requires '%' !in a && '%' !in b && '%' !in c && '%' !in d && '%' !in e
    ensures UriDecode.Decode(a + "%20" + (b + "%20" + (c + "%20" + (d + "%20" + e)))) ==
            Ok(a + " " + (b + " " + (c + " " + (d + " " + e))))
  {
    UriDecode.DecodeWithoutPercent(e);
    UriDecode.DecodeWordThenSpace(d, e, e);
    UriDecode.DecodeWordThenSpace(c, d + "%20" + e, d + " " + e);
    UriDecode.DecodeWordThenSpace(b, c + "%20" + (d + "%20" + e), c + " " + (d + " " + e));
    UriDecode.DecodeWordThenSpace(a, b + "%20" + (c + "%20" + (d + "%20" + e)), b + " " + (c + " " + (d + " " + e)));
  }

  lemma DecodeAgeOfEmpires()
    ensures UriDecode.Decode("C:/Users/User/Games/Age%20of%20Empires%202%20DE") ==
            Ok("C:/Users/User/Games/Age of Empires 2 DE")
  {
    EscapedLinkIsSpacedWords();
    DecodeSpacedWords("C:/Users/User/Games/Age", "of", "Empires", "2", "DE");
  }

  lemma EscapedLinkIsSpacedWords()
    ensures "C:/Users/User/Games/Age%20of%20Empires%202%20DE" ==
            "C:/Users/User/Games/Age" + "%20" + ("of" + "%20" + ("Empires" + "%20" + ("2" + "%20" + "DE")))
    ensures "C:/Users/User/Games/Age of Empires 2 DE" ==
            "C:/Users/User/Games/Age" + " " + ("of" + " " + ("Empires" + " " + ("2" + " " + "DE")))
  {
  }

  /** Only one `file://` goes: what follows it, when it does not start with
      `/`, is the link even if it is another `file://`. */
  lemma SchemeStrippedOnce(path: string)
    requires '\\' !in path && (path == [] || path[0] != '/')
    ensures Link(FileScheme + path) == path
  {
    var c := FileScheme + path;
    assert '\\' !in c;
    assert ReplaceAll(c, '\\', '/') == c;
    assert c[..7] == FileScheme && c[7..] == path;
    assert !StartsWith(c, "file:///") by {
      if |c| >= 8 {
        assert c[..8][7] == path[0];
      }
    }
    LinkDropsPrefixOnce(c);
  }

  lemma DoubledScheme()
    ensures Link("file://file://x") == "file://x"
  {
    assert "file://file://x" == FileScheme + "file://x";
    SchemeStrippedOnce("file://x");
  }

  /** A Unix `file:///tmp` links to `tmp`: the root slash is the one dropped. */
  lemma UnixFileUrl()
    ensures GetClipboardContent("file:///tmp") == Ok(ClipboardContent("tmp", "tmp"))
  {
    assert "file:///tmp" == "file:///" + "tmp";
    FileUrlDropsSchemeAndSlash("tmp");
    UriDecode.DecodeWithoutPercent("tmp");
  }

  /** An escaped backslash decodes to a backslash in the title, though the
      link itself never holds one. */
  lemma EscapedBackslashInTitle()
    ensures GetClipboardContent("a%5Cb") == Ok(ClipboardContent("a\\b", "a%5Cb"))
  {
    var c := "a%5Cb";
    assert '\\' !in c;
    assert ReplaceAll(c, '\\', '/') == c;
    NoPrefixToStrip(c);
    LinkDropsPrefixOnce(c);
    assert Link(c) == c;
    assert UriDecode.Decode(c) == Ok("a\\b") by {
      assert c == "a" + ("%5C" + "b");
      assert UriDecode.EscapeBytes(UriDecode.Utf8Encode('\\')) == "%5C";
      UriDecode.DecodeEncodedChar('\\', "b");
      UriDecode.DecodeWithoutPercent("b");
      UriDecode.DecodePlainPrefix("a", "%5Cb");
      assert "a" + ("\\" + "b") == "a\\b";
    }
  }

  /** A `](` in the path: the output does not read back as title and link,
      because the pattern's first group runs to the last `](`. */
  lemma SeparatorInPathSplitsElsewhere()
    ensures InsertFileLink("a](b") == Ok("[a](b](a](b)")
    ensures CreateNote.MatchMarkdownLink("[a](b](a](b)") == Some(("a](b](a", "b"))
  {
    var c := "a](b";
    assert '\\' !in c && '%' !in c;
    assert ReplaceAll(c, '\\', '/') == c;
    NoPrefixToStrip(c);
    PlainRelativePath(c, c);
    assert "[" + c + "](" + c + ")" == "[a](b](a](b)";
    var s := "[a](b](a](b)";
    assert CreateNote.SingleLine(s);
    assert CreateNote.IsSeparator(s, 8);
    assert CreateNote.LastSeparator(s, |s| - 3) == 8;
    assert s[1..8] == "a](b](a" && s[10..|s| - 1] == "b";
  }
}
