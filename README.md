# git.ts output parsing, modelled in Dafny

`src.ts/_admin/utils/git.ts` asks `git log` about one file and reads three things
from its standard output:

- `getGitTag` gives the hash of the latest commit.
- `getModifiedTime` gives the date of the latest commit.
- `getGitLog` gives the list of log entries: commit, author, date and message body.

This project models the parsing half of those queries. Each query takes the finished
command's `ok` flag and its standard output. A failed command becomes
`Err(QueryError)`, the model of the thrown `git log error`.

Files:

- `results.dfy`: the `Option` and `Result` types.
- `jsstring.dfy` (module `JsString`): the JavaScript string operations the code uses.
  These are `trim` over the ECMAScript whitespace and line-terminator code points,
  `split("\n")` and `startsWith`.
- `patterns.dfy` (module `LogPatterns`): the three fixed regular expressions.
  - `/^commit\s+([0-9a-f]{40})/i` is the commit marker of `getGitLog`.
  - The same pattern followed by `\n` is the tag pattern of `getGitTag`.
  - `/^date:\s+(.*)$/i` is the date line of `getModifiedTime`.

  Each is hand-coded as a function. A lemma ties each one to a declarative reading of
  its pattern (`MarkerMatchAt`, `TagMatchAt`, `DateMatchAt`), including how greedy
  `\s+` picks its match and that the capture is unique.
- `gitlog.dfy` (module `GitLogParse`): the `GitLog` record and one iteration of the
  `getGitLog` loop (`Step`). The loop itself is `Fold`, and `ParseLog` is the whole
  scan with the placeholder entry dropped. `Reference` is an independent description
  of the result: one entry per marker line, whose author and date are the last
  `Author:`/`Date:` line below it, and whose body is its other lines joined.
  `ParseLogIsReference` proves the loop computes it.
- `git.dfy` (module `GitHistory`): the three queries.
  - `GetGitTag` is a function.
  - `GetModifiedTime` is a method with the source's `for` loop, its `break` on a blank
    line and its early `return`. The loop is `ScanDate`.
  - `GetGitLog` is a method whose loop over the lines updates the list of entries. The
    loop is `ScanLog` and its body is `ScanLine`.

Points where the code's behaviour is easy to misread:

- A message body is not joined with single spaces. `(body + " " + line).trim()`
  trims only the two ends, so each line after the first keeps its own indentation
  after the joining space. Git indents message lines by four spaces, so
  `"    fix bug"` and `"    in parser"` give `"fix bug     in parser"`, not
  `"fix bug in parser"` (`GitLogParse.BodyKeepsIndent`).
- `getGitTag` needs the hash to be followed by a line break. Its pattern ends in `\n`
  and has no `m` flag, so output that trims to a single line gives no hash, even when
  that line is a valid commit line (`GitHistory.GitTagNeedsTwoLines`).
- In `getGitLog`, the `Author:`/`Date:` tests are case-sensitive and need the prefix in
  column 0. The date pattern of `getModifiedTime` is case-insensitive and is applied
  to the trimmed line.
- In `getGitLog`, the early return for empty output gives what the loop would have
  given anyway (`GitHistory.EmptyLogHasNoEntries`).

## Model

| member | source | states |
|---|---|---|
| JsString.IsSpace | src.ts/_admin/utils/git.ts:14 | the ECMAScript WhiteSpace and LineTerminator code points, which `trim()` removes here and at lines 26, 30, 34, 52 and 62-66, and which `\s` matches at lines 17, 32 and 57; no contract of its own |
| JsString.IsLineTerminator | src.ts/_admin/utils/git.ts:32 | the four line terminators that `.` in the date pattern does not match; no contract of its own |
| JsString.Trim | src.ts/_admin/utils/git.ts:14 | `trim` leaves no whitespace at either end, never lengthens, and gives the empty string exactly for all-whitespace input |
| JsString.TrimUnique | src.ts/_admin/utils/git.ts:14 | any infix with only whitespace around it and none at its own ends is what `trim` returns |
| JsString.TrimSlice | src.ts/_admin/utils/git.ts:14 | the trimmed string is an infix of the input with only whitespace cut from either side |
| JsString.Split | src.ts/_admin/utils/git.ts:29 | `split("\n")` gives at least one piece, no piece holds a line break, and joining the pieces with line breaks gives back the input |
| JsString.StartsWith | src.ts/_admin/utils/git.ts:61-63 | `line.startsWith(p)` for `Author:` and `Date:`: case-sensitive, anchored at the first character; no contract of its own |
| JsString.SkipSpaces | src.ts/_admin/utils/git.ts:57 | a greedy `\s` run from `i` ends at the first non-whitespace character or the end |
| JsString.SkipSpacesBack | src.ts/_admin/utils/git.ts:14 | the whitespace run that `trim` cuts from the end of a string stops after the last non-whitespace character, or reaches the start |
| LogPatterns.IsHexDigit | src.ts/_admin/utils/git.ts:57 | `[0-9a-f]` under the `i` flag, here and at line 17: a decimal digit or a letter `a`-`f` in either case; no contract of its own |
| LogPatterns.FoldCase | src.ts/_admin/utils/git.ts:57 | the `i` flag's folding without `u`, here and at lines 17 and 32: ASCII capitals map to lower case, and nothing at or above U+0080 folds onto ASCII; no contract of its own |
| LogPatterns.CiStartsWith | src.ts/_admin/utils/git.ts:57 | the literals `commit` (here and at line 17) and `date:` (line 32) matched at the start under the `i` flag; no contract of its own |
| LogPatterns.CommitMarker | src.ts/_admin/utils/git.ts:57 | the commit-marker pattern applied to one line; no contract of its own, characterised by `CommitMarkerSpec` |
| LogPatterns.CommitMarkerSpec | src.ts/_admin/utils/git.ts:57 | the commit marker captures exactly when the pattern matches the line; the capture is the 40 hex digits after the longest whitespace run, and is a hash |
| LogPatterns.MarkerTakesFirst40 | src.ts/_admin/utils/git.ts:57 | `commit` in any letter case, any whitespace gap and 40 hex digits capture those digits, whatever follows on the line |
| LogPatterns.TagHash | src.ts/_admin/utils/git.ts:17 | the tag pattern applied to the trimmed output; no contract of its own, characterised by `TagHashSpec` |
| LogPatterns.TagHashSpec | src.ts/_admin/utils/git.ts:17 | the tag pattern captures exactly when it matches at the start of the output with a line break right after the 40 digits |
| LogPatterns.TagTakesFirst40 | src.ts/_admin/utils/git.ts:17 | a first line of `commit`, whitespace and 40 hex digits, then a line break, yields those digits |
| LogPatterns.TagNeedsNewline | src.ts/_admin/utils/git.ts:17 | output without a line break never matches the tag pattern |
| LogPatterns.DateText | src.ts/_admin/utils/git.ts:32 | the date pattern applied to one trimmed line; no contract of its own, characterised by `DateTextSpec` |
| LogPatterns.DateTextSpec | src.ts/_admin/utils/git.ts:32 | the date pattern matches exactly when some split after `date:` and whitespace leaves a rest without line terminators; the capture is that rest for the longest whitespace run |
| LogPatterns.DateTextOfTrimmed | src.ts/_admin/utils/git.ts:30-34 | on a trimmed line, the captured date text is non-empty and already trimmed, so the second `trim()` changes nothing |
| GitLogParse.GitLog | src.ts/_admin/utils/git.ts:40-45 | the log entry with its four string fields commit, author, date and body; a datatype, described by the lemmas below |
| GitLogParse.Fresh | src.ts/_admin/utils/git.ts:55-59 | the entry literal pushed for a marker line, with the hash and empty author, date and body; the placeholder `Bootstrap` is `Fresh("")`; no contract of its own |
| GitLogParse.AppendBody | src.ts/_admin/utils/git.ts:66 | the body update `(body + " " + line).trim()`; no contract of its own, characterised by `AppendBodyFacts` and `BodyKeepsIndent` |
| GitLogParse.AppendBodyFacts | src.ts/_admin/utils/git.ts:66 | appending to a trimmed body gives a trimmed body; a blank line changes nothing; any other line follows one space with its leading whitespace kept, or becomes the trimmed body when the body was empty |
| GitLogParse.BodyKeepsIndent | src.ts/_admin/utils/git.ts:66 | two body lines with the same indentation are joined by one space plus that indentation |
| GitLogParse.HeaderPrefixes | src.ts/_admin/utils/git.ts:61-63 | a line cannot start with both `Author:` and `Date:`, and a blank line starts with neither |
| GitLogParse.Apply | src.ts/_admin/utils/git.ts:61-67 | a non-marker line applied to the last entry; no contract of its own, characterised by `ApplySpec` |
| GitLogParse.ApplySpec | src.ts/_admin/utils/git.ts:61-67 | a non-marker line changes at most one field of the last entry and never its hash; `Author:`/`Date:` set that field to the trimmed rest of the line; the body stays trimmed; a blank line changes nothing |
| GitLogParse.Step | src.ts/_admin/utils/git.ts:57-68 | one iteration of the loop; no contract of its own, characterised by `StepFrame` and `StepCommits` |
| GitLogParse.StepFrame | src.ts/_admin/utils/git.ts:57-68 | a marker line appends a fresh entry with its hash and leaves the rest alone; any other line touches only the last entry |
| GitLogParse.Fold | src.ts/_admin/utils/git.ts:56-69 | the loop over the remaining lines; no contract of its own, characterised by `FoldKeepsEarlier`, `FoldCommits` and `FoldIsSegmented` |
| GitLogParse.FoldKeepsEarlier | src.ts/_admin/utils/git.ts:56-69 | the loop never shortens the list, never changes an entry before the current last one, and never changes the last one's hash |
| GitLogParse.Markers | src.ts/_admin/utils/git.ts:57 | the marker hashes of a run of lines are at most one per line, and each is a 40-digit hex hash |
| GitLogParse.StepCommits | src.ts/_admin/utils/git.ts:57-68 | one loop iteration adds the hash of a marker line to the list of hashes and keeps every hash already there |
| GitLogParse.FoldCommits | src.ts/_admin/utils/git.ts:56-69 | the hashes in the list after the loop are the ones before it, followed by the hashes of the marker lines in order |
| GitLogParse.ParseLog | src.ts/_admin/utils/git.ts:55-72 | the loop from the placeholder with the placeholder dropped; no contract of its own, characterised by `ParseLogCommits`, `ParseLogTrimmed` and `ParseLogIsReference` |
| GitLogParse.ParseLogCommits | src.ts/_admin/utils/git.ts:55-72 | without the placeholder there is one entry per marker line, in order, each carrying that line's hash |
| GitLogParse.ParseLogTrimmed | src.ts/_admin/utils/git.ts:61-66 | every returned entry has author, date and body without whitespace at either end |
| GitLogParse.Record | src.ts/_admin/utils/git.ts:57-67 | the reference entry of one marker and its lines: the marker's hash, the last `Author:`/`Date:` value and the joined body lines; no contract of its own, tied to the loop by `BuildIsRecord` |
| GitLogParse.Reference | src.ts/_admin/utils/git.ts:55-72 | the reference result: one `Record` per marker line with the lines up to the next marker; no contract of its own, tied to the loop by `ParseLogIsReference` |
| GitLogParse.ApplyAllHeaders | src.ts/_admin/utils/git.ts:61-64 | after a run of lines, author and date are the trimmed rest of the last `Author:`/`Date:` line, or unchanged when there is none |
| GitLogParse.ApplyAllBody | src.ts/_admin/utils/git.ts:65-66 | after a run of lines, the body is the old body extended by the body lines: the first trimmed, the later ones right-trimmed after one space |
| GitLogParse.BuildIsRecord | src.ts/_admin/utils/git.ts:59-67 | the loop turns a marker and the lines below it into the entry `Record` describes |
| GitLogParse.FoldIsSegmented | src.ts/_admin/utils/git.ts:56-69 | from any list, the lines before the first marker go to the current last entry, and each later marker opens an entry built from the lines up to the next marker |
| GitLogParse.EntriesAreRecords | src.ts/_admin/utils/git.ts:56-69 | building each entry by the loop gives the reference entry |
| GitLogParse.ParseLogIsReference | src.ts/_admin/utils/git.ts:55-72 | getGitLog's scan equals the reference description of the result |
| GitLogParse.PreambleDiscarded | src.ts/_admin/utils/git.ts:55-72 | lines before the first marker land in the placeholder and are lost |
| GitHistory.GitError | src.ts/_admin/utils/git.ts:12 | the thrown `git log error` of a failed command, here and at lines 24 and 50: a single value `QueryError`; a datatype |
| GitHistory.GetGitTag | src.ts/_admin/utils/git.ts:10-20 | a failed command is an error; otherwise there is a hash exactly when the tag pattern matches the trimmed output, and then it is the captured 40 hex digits |
| GitHistory.GitTagNeedsTwoLines | src.ts/_admin/utils/git.ts:17-18 | output that trims to one line gives no hash |
| GitHistory.GitTagOfHeader | src.ts/_admin/utils/git.ts:14-19 | trimmed output opening with a commit line and a line break gives that line's hash |
| GitHistory.NoDateUpTo | src.ts/_admin/utils/git.ts:31 | reaching a blank line or the end means no line the scan passed was a date line |
| GitHistory.GetModifiedTime | src.ts/_admin/utils/git.ts:22-39 | a failed command is an error; otherwise a date is given exactly when a date line comes before the first blank line: it is the first one's text, non-empty and trimmed, and when none is given no line the scan reaches is a date line |
| GitHistory.ScanDate | src.ts/_admin/utils/git.ts:29-38 | the loop returns the text of the first date line before any blank line, or nothing when the scan stops without one |
| GitHistory.FoundAt | src.ts/_admin/utils/git.ts:33-35 | the date line where the scan stops gives a non-empty, trimmed text and is the reported one |
| GitHistory.PassLine | src.ts/_admin/utils/git.ts:30-33 | a line that is neither blank nor a date line lets the scan go on |
| GitHistory.EmptyLogHasNoEntries | src.ts/_admin/utils/git.ts:53 | the early return for empty output agrees with what the loop gives on it |
| GitHistory.GetGitLog | src.ts/_admin/utils/git.ts:47-75 | a failed command is an error; otherwise the result is the scan of the trimmed output's lines, empty for blank output |
| GitHistory.ScanLog | src.ts/_admin/utils/git.ts:55-74 | the loop from the placeholder, without the placeholder, computes `ParseLog` of the lines |
| GitHistory.ScanLine | src.ts/_admin/utils/git.ts:57-68 | the loop body does one `Step`: push an entry for a marker, or update the author, date or body of the last entry |

## Left out

- Running git (`run` and its arguments, `__dirname`), the `async`/`Promise` wrapping, and the file name: each query takes the finished command's `ok` flag and standard output instead.
- The `limit` argument of getGitLog and its default of 100: they only reach git's command line, so they do not affect parsing.
- GetModifiedTime: does not compute the timestamp `new Date(text).getTime()`; it returns the date text that would be parsed, because date parsing is the JavaScript runtime's and no part of this module.
- The message of the thrown error: every failure is the single `QueryError` value.
- Strings are sequences of Unicode scalar values, not UTF-16 code units, so text with unpaired surrogates is not modelled. Trimming, splitting and the three patterns only single out characters of the Basic Multilingual Plane, so nothing else changes.
- The whitespace set is that of current Unicode versions (the `Zs` category plus tab, vertical tab, form feed, BOM and the line terminators). Changes to `Zs` in other Unicode versions are not modelled.
- The log entries are values in a sequence, not objects updated in place. Each entry is created fresh and is never shared, so no aliasing is lost.
- General regular-expression matching is not modelled: only the three fixed patterns are.
