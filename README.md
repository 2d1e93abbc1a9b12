# Obsidian Templater scripts, modelled in Dafny

This project models two user scripts for the Templater plugin of Obsidian and
proves properties about them.

- **createNote.js** asks for a note title, then moves the new note to a dated
  folder under a name that is free in the vault. The title may be a markdown
  link `[text](link)`.
  - `replaceInvalidChars` rewrites the twelve characters the script lists
    for replacement. It repeats a fixed chain of first-occurrence
    replacements until a pass changes nothing.
  - `getNewFilePath` tries `name`, `name (1)`, `name (2)`, ... until the
    `.md` file does not exist.
  - `createNoteInternal` splits the prompt. The first line gives the title
    (sanitized and cut to 60 characters). The original line becomes an alias
    when that note name differs from it, so a clean line longer than 60
    characters is kept as an alias too. The rest becomes the note text.
- **insertFileLink.js** reads a path from the clipboard. It turns
  backslashes into slashes and strips a leading `file://` and then one `/`.
  It returns `[title](link)`, where the title is the `decodeURIComponent` of
  the link.

Modules:

- `Strings`: `Option`/`Result`, `indexOf`, `lastIndexOf`, first-occurrence and
  global character replacement, and counting.
- `Decimal`: how a counter prints inside a template literal.
- `FileNames`: `replaceInvalidChars`.
- `VaultPaths`: `getNewFilePath`. The vault is a finite set of paths.
- `CreateNote`: the markdown-link pattern, the prompt split and
  `createNoteInternal`.
- `UriDecode`: `decodeURIComponent`, with full UTF-8 checking, and
  `encodeURIComponent` as its inverse.
- `InsertFileLink`: `getClipboardContent` and the string `insertFileLink`
  returns.

`replaceInvalidChars` and `getNewFilePath` are loops in the source, so they
are methods with `while` loops. Each loop is proved against a function
(`SanitizedName`) or a predicate (`IsFirstFree`). `createNoteInternal` is
the method `CreateNote.CreateNoteInternal`: it calls the `getNewFilePath`
method and returns the split prompt. Everything else is pure functions and
lemmas.

## Model

| member | source | states |
|---|---|---|
| Strings.IndexOf | obsidian/templater/createNote.js:31 | `indexOf` is -1 exactly when the character is absent; otherwise it is the position of its first occurrence |
| Strings.LastIndexOf | obsidian/templater/createNote.js:80 | `lastIndexOf` is -1 exactly when the character is absent; otherwise it is the position of its last occurrence |
| Strings.ReplaceFirstAfter | obsidian/templater/createNote.js:68-70 | `replace` with a string pattern rewrites only the first occurrence and keeps both sides of it |
| Strings.CountReplaceFirst | obsidian/templater/createNote.js:68-70 | one replacement takes one occurrence of the pattern out of the count and adds the replacement's; no occurrence means no change |
| Strings.ReplaceFirstConcat | obsidian/templater/createNote.js:68-70 | `replace` on a concatenation rewrites in the left part when it holds the pattern, and otherwise in the right part |
| Decimal.ReadShow | obsidian/templater/createNote.js:89 | the decimal text of a counter reads back as that counter, so different counters print differently |
| FileNames.SubstitutionsWellBehaved | obsidian/templater/createNote.js:68-70 | every replacement in the chain brings in no forbidden character; only `:` grows the name, by one character |
| FileNames.ApplyAllShrinks | obsidian/templater/createNote.js:68-70 | a pass never raises the number of forbidden characters; it lowers it when a pattern occurs, is the identity when none occurs, and keeps length plus colons |
| FileNames.PassProgress | obsidian/templater/createNote.js:65-72 | a pass changes nothing exactly when no forbidden character is left; otherwise it strictly lowers their count, so the loop ends |
| FileNames.PassOnTwoPipes | obsidian/templater/createNote.js:69-70 | for two pipes between clean parts, one pass gives exactly the name with the first pipe as `_` and the second as `I` |
| FileNames.PassOnPipes | obsidian/templater/createNote.js:68-70 | for any name, one pass turns the first pipe into `_` and the second into `I`; the other entries only rewrite inside the parts before, between and after them, each part keeping its length plus colons and its number of pipes |
| FileNames.PassOnColon | obsidian/templater/createNote.js:68 | a colon between clean parts becomes ` -` |
| FileNames.ColonBecomesDash | obsidian/templater/createNote.js:63-77 | a name with one colon between clean parts comes out with ` -` in its place |
| FileNames.FixpointProperties | obsidian/templater/createNote.js:65-73 | repeating passes until nothing changes leaves no forbidden character and adds one character per colon |
| FileNames.ReplaceInvalidChars | obsidian/templater/createNote.js:63-77 | the loop returns the fixpoint of the passes, or `-` for an empty result; the result holds no forbidden character and is never empty |
| FileNames.SanitizedNameIsValid | obsidian/templater/createNote.js:72-76 | the sanitized name is non-empty and free of the twelve characters the script rewrites; the empty name becomes `-` |
| FileNames.SanitizedNameLength | obsidian/templater/createNote.js:68-76 | a non-empty name grows by exactly one character per colon |
| FileNames.SanitizedNameUnchanged | obsidian/templater/createNote.js:63-77 | sanitizing leaves a name as it is exactly when it is non-empty and already clean |
| FileNames.SanitizedNameIdempotent | obsidian/templater/createNote.js:63-77 | sanitizing twice is the same as sanitizing once |
| FileNames.FixpointKeepsAbsent | obsidian/templater/createNote.js:65-73 | the loop brings in only characters from its replacements, so a line break never appears |
| VaultPaths.SplitPath | obsidian/templater/createNote.js:80-82 | folder, `/` and base give back the path; without `/` the folder is empty; the base holds no `/` |
| VaultPaths.SplitJoined | obsidian/templater/createNote.js:80-82 | a folder and a name without `/` split back into themselves |
| VaultPaths.CandidateInjective | obsidian/templater/createNote.js:84-90 | different counters probe different files |
| VaultPaths.GetNewFilePath | obsidian/templater/createNote.js:79-95 | the returned path's `.md` file is absent, and every candidate before it exists |
| CreateNote.MatchMarkdownLink | obsidian/templater/createNote.js:24 | a match is `[T](L)` on one line, and the greedy groups leave no `](` in L |
| CreateNote.MarkdownLinkMatches | obsidian/templater/createNote.js:24-27 | every single-line `[T](L)` matches, with a first group at least as long as T |
| CreateNote.MarkdownLinkExact | obsidian/templater/createNote.js:24-27 | when L holds no `](`, the match gives back exactly T and L |
| CreateNote.NoteFileNameIsValid | obsidian/templater/createNote.js:36-38 | the note name is 1 to 60 characters, holds no forbidden character, and is the sanitized line cut to 60 |
| CreateNote.NoteFileNameUnchanged | obsidian/templater/createNote.js:36-45 | the note name equals the line exactly when the line is 1 to 60 clean characters |
| CreateNote.NoteFileNameSingleLine | obsidian/templater/createNote.js:33-38 | naming a line brings in no line break |
| CreateNote.FirstLineSplit | obsidian/templater/createNote.js:31-33 | the first line holds no line break; with a break the input is first line, break, rest |
| CreateNote.TitleIsFirstLineName | obsidian/templater/createNote.js:31-38 | the title is the note name of the first line of the rewritten prompt, 1 to 60 clean characters |
| CreateNote.TitleOnlyExactly | obsidian/templater/createNote.js:43 | the early title-only return happens exactly when the prompt is one clean line of at most 60 characters |
| CreateNote.TextIsRest | obsidian/templater/createNote.js:59 | the text is everything after the first line break, or empty without one |
| CreateNote.AliasIsOriginalLine | obsidian/templater/createNote.js:35-45 | the alias is null exactly when the first line was already its own note name; otherwise it is that line |
| CreateNote.LongCleanLineIsAlias | obsidian/templater/createNote.js:36-45 | a clean one-line prompt longer than 60 characters is left unchanged by sanitizing, yet the cut name differs from it, so the line is kept as the alias |
| CreateNote.TwoLines | obsidian/templater/createNote.js:28-33 | `T`, a break, then `L` has T as first line and L as the rest |
| CreateNote.MarkdownLinkNote | obsidian/templater/createNote.js:22-60 | a prompt `[T](L)` gives a note named after T, with alias T unless T is clean, and text L |
| CreateNote.CreateNoteInternal | obsidian/templater/createNote.js:11-60 | a cancelled prompt gives null; otherwise the note goes to the first free numbered path under the date folder, and the split prompt is returned |
| CreateNote.DatedPath | obsidian/templater/createNote.js:40 | under a date prefix ending in `/`, the vault search numbers the title itself inside the date folder |
| UriDecode.EscapedBytes | obsidian/templater/insertFileLink.js:30 | n escapes read as n bytes and use 3n characters |
| UriDecode.Decode | obsidian/templater/insertFileLink.js:30 | every failure of `decodeURIComponent` is the same URIError, and a success is no longer than the input |
| UriDecode.DecodePlainPrefix | obsidian/templater/insertFileLink.js:30 | text before the first `%` is copied unchanged |
| UriDecode.DecodeWithoutPercent | obsidian/templater/insertFileLink.js:30-31 | a string without `%` decodes to itself |
| UriDecode.DecodedEscapesAreWellFormed | obsidian/templater/insertFileLink.js:30 | after a successful decode every `%` of the input starts `%XX`, so a malformed escape makes decoding fail |
| UriDecode.Utf8RoundTrip | obsidian/templater/insertFileLink.js:30 | UTF-8 decoding gives back every encoded character |
| UriDecode.DecodeEncode | obsidian/templater/insertFileLink.js:30 | decoding undoes `encodeURIComponent` for every string |
| UriDecode.DecodeEscapeRun | obsidian/templater/insertFileLink.js:30 | a run of escapes as long as its lead byte announces decodes to one character or fails |
| UriDecode.OverlongFormFails | obsidian/templater/insertFileLink.js:30 | `%C0%80` is refused as an overlong form |
| UriDecode.SurrogateFails | obsidian/templater/insertFileLink.js:30 | `%ED%A0%80`, a surrogate, is refused |
| UriDecode.TrailingPercentFails | obsidian/templater/insertFileLink.js:30 | a `%` at the end is refused |
| UriDecode.EuroSign | obsidian/templater/insertFileLink.js:30 | `%E2%82%AC` decodes to the euro sign |
| InsertFileLink.Link | obsidian/templater/insertFileLink.js:25-31 | the link holds no backslash, and the slashed input is the link after nothing, `/`, `file://` or `file:///` |
| InsertFileLink.LinkDropsPrefixOnce | obsidian/templater/insertFileLink.js:27-31 | exactly which prefix goes: `file:///`, else `file://`, else one `/`, else nothing |
| InsertFileLink.SchemeStrippedOnce | obsidian/templater/insertFileLink.js:27 | only one `file://` is removed |
| InsertFileLink.FileUrlDropsSchemeAndSlash | obsidian/templater/insertFileLink.js:27-31 | `file:///` followed by a path links to that path |
| InsertFileLink.GetClipboardContent | obsidian/templater/insertFileLink.js:23-38 | the link is the stripped path and the title its decoding; a failed decoding is the URIError |
| InsertFileLink.PlainPathTitleIsLink | obsidian/templater/insertFileLink.js:30-31 | without `%` the content never fails and the title equals the link |
| InsertFileLink.MalformedEscapeFails | obsidian/templater/insertFileLink.js:14-18 | a `%` in the link without two hex digits after it makes `insertFileLink` return the error |
| InsertFileLink.InsertFileLinkOutput | obsidian/templater/insertFileLink.js:14 | the output is `[title](link)`, or the URIError; when `[title](link)` is on one line (the title holds no decoded line break such as `%0A`) and the link holds no `](`, the markdown-link pattern of createNote.js reads title and link back from it. Without those conditions it may not: the clipboard `a](b` gives `[a](b](a](b)`, which reads back as `a](b](a` and `b` |
| InsertFileLink.PlainRelativePath | obsidian/templater/insertFileLink.js:25-31 | a path without `%`, `file://` or a leading `/` is title and link at once, with slashes for backslashes |
| InsertFileLink.BackslashedWindowsPath | obsidian/templater/insertFileLink.js:57-60 | the first test vector holds |
| InsertFileLink.ForwardSlashPath | obsidian/templater/insertFileLink.js:61-64 | the second test vector holds |
| InsertFileLink.FileUrlWithEscapes | obsidian/templater/insertFileLink.js:65-68 | the third test vector holds, with `%20` decoded in the title only |
| InsertFileLink.DoubledScheme | obsidian/templater/insertFileLink.js:27 | `file://file://x` links to `file://x` |
| InsertFileLink.UnixFileUrl | obsidian/templater/insertFileLink.js:27-31 | `file:///tmp` links to `tmp`: the root slash is the one dropped |
| InsertFileLink.EscapedBackslashInTitle | obsidian/templater/insertFileLink.js:26-30 | `a%5Cb` gives a title with a backslash, although the link holds none |
| InsertFileLink.SeparatorInPathSplitsElsewhere | obsidian/templater/insertFileLink.js:14 | the clipboard `a](b` gives `[a](b](a](b)`, which the markdown-link pattern of createNote.js reads as `a](b](a` and `b`: the read-back needs a link without `](` |

## Left out

- initProject.py is not part of this model. It runs git and curl (it queries the GitHub API and can create a repository), writes `.gitignore` and prompts for input: all of it is I/O.
- Host calls are left out:
  - the prompt dialog is the `prompted` parameter, with None for a cancelled dialog;
  - opening the template leaf, `tp.file.move` and the `on_all_templates_executed` hook that writes the alias into the front matter are left out;
  - `tp.date.now("YYYY/MM/DD/")` is the `datePrefix` parameter;
  - the vault's `exists` check is membership in a set of paths.
- The clipboard read, `console.log`/`console.error`, `async`/`await` and the `test()` harness are not modelled. The three test cases are lemmas.
- The try/catch wrappers that return `{text: e.stack}` are left out. A thrown URIError is the `Err` value instead.
- Strings are sequences of Unicode scalar values, not UTF-16 code units. `length`, `substr` and the 60-character cut count characters. A character above U+FFFF decodes to one char, not two.
- CreateNote.SplitPrompt: the title-only result has no alias field, and a null alias is `None`.
- CreateNote.CreateNoteInternal: the exact numbered-path guarantee is stated for a date prefix ending in `/`, the form the script passes. For other prefixes only the absence of the chosen file is stated.
- The comment at obsidian/templater/insertFileLink.js:9 says spaces and other symbols are encoded. The code never encodes anything, and the model follows the code.
- `encodeURIComponent` (UriDecode.Encode) is not called by the scripts. It is there as the inverse that `decodeURIComponent` is proved against.
- The comment at obsidian/templater/insertFileLink.js:8 asks for titles with forward slashes. The title is decoded after the slashes are replaced, so an escaped backslash `%5C` still puts a backslash in the title (InsertFileLink.EscapedBackslashInTitle).
- Dropping one leading `/` also turns `file:///tmp` and `/tmp` into the relative `tmp` (InsertFileLink.UnixFileUrl).
