/**
 * The three queries of git.ts over the output of `git log`: the latest commit hash
 * (getGitTag), the date of the latest commit (getModifiedTime) and the list of log
 * entries (getGitLog). Running git is not modelled: each query takes the `ok` flag
 * and the standard output of the finished command.
 */
module GitHistory {
  import opened Results
  import opened JsString
  import opened LogPatterns
  import opened GitLogParse

  /** The `git log error` exception thrown when the command fails. */
  datatype GitError = QueryError

  /** getGitTag: no hash for empty output; otherwise the hash the tag pattern
      captures at the very start of the trimmed output, if it matches. */
  function GetGitTag(ok: bool, stdout: string): (r: Result<Option<string>, GitError>)
    ensures !ok <==> r == Err(QueryError)
    ensures ok ==> r.Ok? && (r.value.Some? <==> exists k :: TagMatchAt(Trim(stdout), k))
    ensures ok ==> forall k :: TagMatchAt(Trim(stdout), k) ==> r == Ok(Some(Trim(stdout)[k..k + 40]))
    ensures r.Ok? && r.value.Some? ==> IsHash(r.value.value)
  {
    if !ok then Err(QueryError)
    else
      var log := Trim(stdout);
      TagHashSpec(log);
      if log == "" then Ok(None) else Ok(TagHash(log))
  }

  /** Output that trims to one line never yields a hash: the pattern needs the hash
      to be followed by a line break. */
  lemma GitTagNeedsTwoLines(stdout: string)
    requires '\n' !in Trim(stdout)
    ensures GetGitTag(true, stdout) == Ok(None)
  {
    if Trim(stdout) != "" {
      TagNeedsNewline(Trim(stdout));
    }
  }

  /** Trimmed output that opens with `commit`, whitespace, 40 hex digits and a line
      break yields exactly those digits. */
  lemma GitTagOfHeader(stdout: string, p: string, gap: string, h: string, more: string)
    requires IsTrimmed(stdout) && stdout == p + gap + h + "\n" + more
    requires |p| == 6 && CiStartsWith(p, "commit")
    requires gap != [] && AllSpace(gap) && IsHash(h)
    ensures GetGitTag(true, stdout) == Ok(Some(h))
  {
    assert stdout[..0] == [] && stdout[0..|stdout|] == stdout && stdout[|stdout|..] == [];
    TrimUnique(stdout, 0, |stdout|);
    TagTakesFirst40(p, gap, h, more);
  }

  /** A line at which getModifiedTime stops: blank once trimmed, or a date line. */
  predicate IsStop(line: string) {
    var t := Trim(line);
    t == "" || DateText(t).Some?
  }

  /** The scan passes the first `i` lines without stopping. */
  ghost predicate NoStopBefore(lines: seq<string>, i: int)
    requires 0 <= i <= |lines|
  {
    forall j :: 0 <= j < i ==> !IsStop(lines[j])
  }

  /** The scan stops at line `i` because it is a date line with text `d`. */
  ghost predicate DateFoundAt(lines: seq<string>, i: int, d: string) {
    0 <= i < |lines| && NoStopBefore(lines, i) && DateText(Trim(lines[i])) == Some(d)
  }

  /** The scan stops at a date line with text `d`. */
  ghost predicate DateFound(lines: seq<string>, d: string) {
    exists i :: DateFoundAt(lines, i, d)
  }

  /** No line the scan reaches before stopping is a date line. */
  ghost predicate NoDateFound(lines: seq<string>) {
    forall i :: 0 <= i < |lines| && NoStopBefore(lines, i) ==> DateText(Trim(lines[i])).None?
  }

  /** Once the scan reaches a blank line or the end, no line it could have stopped
      at is a date line. */
  lemma NoDateUpTo(lines: seq<string>, i: nat)
    requires i <= |lines| && NoStopBefore(lines, i)
    requires i == |lines| || Trim(lines[i]) == ""
    ensures NoDateFound(lines)
  {
    forall j | 0 <= j < |lines| && NoStopBefore(lines, j) ensures DateText(Trim(lines[j])).None? {
      if j >= i {
        assert i < j ==> !IsStop(lines[i]);
        assert j == i;
        assert !CiStartsWith("", "date:");
      }
    }
  }

  /** getModifiedTime: scans the lines of the trimmed output; the first date line
      before any blank one gives its date text. The conversion of that text to a
      timestamp is not modelled. */
  method GetModifiedTime(ok: bool, stdout: string) returns (r: Result<Option<string>, GitError>)
    ensures !ok <==> r == Err(QueryError)
    ensures ok ==> r.Ok?
    ensures r.Ok? && r.value.Some? ==>
              DateFound(Split(Trim(stdout)), r.value.value)
    ensures r.Ok? && r.value.None? ==>
              NoDateFound(Split(Trim(stdout)))
    ensures r.Ok? && r.value.Some? ==> r.value.value != "" && IsTrimmed(r.value.value)
  {
    if !ok {
      return Err(QueryError);
    }
    var log := Trim(stdout);
    var lines := Split(log);
    if log == "" {
      assert lines == [""];
      NoDateUpTo(lines, 0);
      return Ok(None);
    }
    var date := ScanDate(lines);
    return Ok(date);
  }

  /** The loop of getModifiedTime: each line is trimmed; a blank line ends the scan,
      and the first date line gives its trimmed date text. */
  method ScanDate(lines: seq<string>) returns (date: Option<string>)
    ensures date.Some? ==> DateFound(lines, date.value)
    ensures date.None? ==> NoDateFound(lines)
    ensures date.Some? ==> date.value != "" && IsTrimmed(date.value)
  {
    // `scanned` is where the scan ended: the blank line it broke at, or the end.
    ghost var scanned := |lines|;
    for i := 0 to |lines|
      invariant NoStopBefore(lines, i) && scanned == |lines|
    {
      var line := Trim(lines[i]);
      if line == "" {
        scanned := i;
        break;
      }
      match DateText(line) {
        case Some(text) =>
          FoundAt(lines, i);
          return Some(Trim(text));
        case None =>
          PassLine(lines, i);
      }
    }
    NoDateUpTo(lines, scanned);
    return None;
  }

  /** A date line reached by the scan is the one it reports. */
  lemma FoundAt(lines: seq<string>, i: nat)
    requires i < |lines| && NoStopBefore(lines, i) && DateText(Trim(lines[i])).Some?
    ensures var text := DateText(Trim(lines[i])).value;
            Trim(text) == text && text != "" && IsTrimmed(text) && DateFound(lines, text)
  {
    DateTextOfTrimmed(Trim(lines[i]));
    assert DateFoundAt(lines, i, DateText(Trim(lines[i])).value);
  }

  /** A line that is neither blank nor a date line lets the scan go on. */
  lemma PassLine(lines: seq<string>, i: nat)
    requires i < |lines| && NoStopBefore(lines, i)
    requires Trim(lines[i]) != "" && DateText(Trim(lines[i])).None?
    ensures NoStopBefore(lines, i + 1)
  {
    assert !IsStop(lines[i]);
  }

  /** getGitLog's early return for empty output gives what the loop would give. */
  lemma EmptyLogHasNoEntries()
    ensures ParseLog(Split("")) == []
  {
    assert Split("") == [""];
    assert CommitMarker("").None?;
    assert Fold([Bootstrap], [""]) == [Bootstrap];
  }

  /** getGitLog: the entries the loop builds over the lines of the trimmed output,
      one per commit-marker line, without the placeholder; empty output has none. */
  method GetGitLog(ok: bool, stdout: string) returns (r: Result<seq<GitLog>, GitError>)
    ensures !ok <==> r == Err(QueryError)
    ensures ok ==> r == Ok(ParseLog(Split(Trim(stdout))))
    ensures ok && AllSpace(stdout) ==> r == Ok([])
  {
    if !ok {
      return Err(QueryError);
    }
    var log := Trim(stdout);
    if log == "" {
      EmptyLogHasNoEntries();
      return Ok([]);
    }
    var logs := ScanLog(Split(log));
    return Ok(logs);
  }

  /** The loop of getGitLog over the lines, from the placeholder entry, which is
      dropped at the end (`shift()`). */
  method ScanLog(lines: seq<string>) returns (logs: seq<GitLog>)
    ensures logs == ParseLog(lines)
  {
    logs := [Bootstrap];
    for i := 0 to |lines|
      invariant |logs| > 0
      invariant Fold(logs, lines[i..]) == Fold([Bootstrap], lines)
    {
      FoldCons(logs, lines, i);
      logs := ScanLine(logs, lines[i]);
    }
    assert lines[|lines|..] == [];
    logs := logs[1..];
  }

  /** The body of getGitLog's loop: a marker line pushes a fresh entry; otherwise the
      line updates the author, the date or the body of the last entry. */
  method ScanLine(logs: seq<GitLog>, line: string) returns (next: seq<GitLog>)
    requires |logs| > 0
    ensures next == Step(logs, line)
  {
    var last := |logs| - 1;
    var hashMatch := CommitMarker(line);
    if hashMatch.Some? {
      next := logs + [Fresh(hashMatch.value)];
      return;
    }
    var rec := logs[last];
    if StartsWith(line, "Author:") {
      rec := rec.(author := Trim(line[7..]));
    } else if StartsWith(line, "Date:") {
      rec := rec.(date := Trim(line[5..]));
    } else {
      rec := rec.(body := AppendBody(rec.body, line));
    }
    assert rec == Apply(logs[last], line);
    next := logs[last := rec];
  }
}
