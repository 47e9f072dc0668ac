/**
 * The parsing loop of getGitLog (git.ts), as a fold of one step per output line over
 * the list of entries, and an independent description of its result: one entry per
 * commit-marker line, built from the lines up to the next marker.
 */
module GitLogParse {
  import opened Results
  import opened JsString
  import opened LogPatterns

  /** One entry of the commit log (the `GitLog` interface). */
  datatype GitLog = GitLog(commit: string, author: string, date: string, body: string)

  /** The entry pushed for a commit-marker line. */
  function Fresh(hash: string): GitLog {
    GitLog(hash, "", "", "")
  }

  /** The placeholder entry the scan starts from; `shift()` removes it at the end. */
  const Bootstrap: GitLog := Fresh("")

  /** Two entries that agree on every field but at most one of author, date and body. */
  predicate AtMostOneFieldChanged(a: GitLog, b: GitLog) {
    a.commit == b.commit &&
    ((a.author == b.author && a.date == b.date) ||
     (a.author == b.author && a.body == b.body) ||
     (a.date == b.date && a.body == b.body))
  }

  /** The new body after a body line: `(body + " " + line).trim()`. On a trimmed body a
      whitespace-only line changes nothing; any other line is appended after one space
      with its trailing whitespace dropped (its leading whitespace is kept), or becomes
      the whole body, trimmed, if the body was empty. */
  function AppendBody(body: string, line: string): string {
    Trim(body + " " + line)
  }

  lemma AppendBodyFacts(body: string, line: string)
    ensures IsTrimmed(AppendBody(body, line))
    ensures IsTrimmed(body) && AllSpace(line) ==> AppendBody(body, line) == body
    ensures IsTrimmed(body) && !AllSpace(line) ==>
              AppendBody(body, line) == if body == "" then Trim(line) else body + " " + TrimEnd(line)
  {
    if IsTrimmed(body) && AllSpace(line) {
      AppendBlank(body, line);
    } else if IsTrimmed(body) && body == "" {
      assert body + " " + line == " " + line;
      TrimAfterSpace(line);
    } else if IsTrimmed(body) {
      AppendText(body, line);
    }
  }

  lemma AppendBlank(body: string, line: string)
    requires IsTrimmed(body) && AllSpace(line)
    ensures Trim(body + " " + line) == body
  {
    var s := body + " " + line;
    assert s[|body|..] == " " + line;
    assert s[..0] == [] && s[0..|body|] == body;
    TrimUnique(s, 0, |body|);
  }

  lemma AppendText(body: string, line: string)
    requires IsTrimmed(body) && body != "" && !AllSpace(line)
    ensures Trim(body + " " + line) == body + " " + TrimEnd(line)
  {
    var s := body + " " + line;
    var t := TrimEnd(line);
    assert t != [] by { assert line[0..] == line; }
    var j := |body| + 1 + |t|;
    assert s[j..] == line[|t|..];
    assert s[..0] == [] && s[0..j] == body + " " + t;
    assert s[0] == body[0] && s[j - 1] == t[|t| - 1];
    TrimUnique(s, 0, j);
  }

  /** The first body line loses its indentation. */
  lemma IndentedFirst(indent: string, text: string)
    requires AllSpace(indent) && text != [] && IsTrimmed(text)
    ensures AppendBody("", indent + text) == text
  {
    var line := indent + text;
    assert line[..|indent|] == indent && line[|indent|..|line|] == text && line[|line|..] == [];
    TrimUnique(line, |indent|, |line|);
    assert !AllSpace(line) by { assert line[|indent|] == text[0]; }
    AppendBodyFacts("", line);
  }

  /** A later body line keeps its indentation after the joining space. */
  lemma IndentedNext(body: string, indent: string, text: string)
    requires body != [] && IsTrimmed(body) && text != [] && IsTrimmed(text)
    ensures AppendBody(body, indent + text) == body + " " + indent + text
  {
    var line := indent + text;
    assert line[|line|..] == [] && line[..|line|] == line;
    assert !IsSpace(line[|line| - 1]) by { assert line[|line| - 1] == text[|text| - 1]; }
    TrimEndSkips(line, |line|);
    AppendBodyFacts(body, line);
  }

  /** Body lines keep their indentation after the joining space: two message lines
      indented alike, as git prints them, are joined with one space more than the
      indentation (five for git's four). */
  lemma BodyKeepsIndent(indent: string, first: string, second: string)
    requires AllSpace(indent)
    requires first != [] && IsTrimmed(first) && second != [] && IsTrimmed(second)
    ensures AppendBody(AppendBody("", indent + first), indent + second) == first + " " + indent + second
  {
    IndentedFirst(indent, first);
    IndentedNext(first, indent, second);
  }

  /** A line that starts with `Author:` does not start with `Date:`, and a blank line starts with neither. */
  lemma HeaderPrefixes(line: string)
    ensures !(StartsWith(line, "Author:") && StartsWith(line, "Date:"))
    ensures AllSpace(line) ==> !StartsWith(line, "Author:") && !StartsWith(line, "Date:")
  {
    if StartsWith(line, "Author:") {
      assert line[0] == line[..7][0] == 'A';
    }
    if StartsWith(line, "Date:") {
      assert line[0] == line[..5][0] == 'D';
    }
  }

  /** What a line that is not a commit marker does to the current entry: an `Author:`
      or `Date:` line (case-sensitive, at column 0) replaces that field with the trimmed
      rest of the line, any other line goes to the body. */
  function Apply(rec: GitLog, line: string): GitLog {
    if StartsWith(line, "Author:") then rec.(author := Trim(line[7..]))
    else if StartsWith(line, "Date:") then rec.(date := Trim(line[5..]))
    else rec.(body := AppendBody(rec.body, line))
  }

  /** A line changes at most one field of the entry, never its hash; header lines set
      their field, a trimmed body stays trimmed, and a blank line changes nothing. */
  lemma ApplySpec(rec: GitLog, line: string)
    ensures AtMostOneFieldChanged(rec, Apply(rec, line))
    ensures StartsWith(line, "Author:") ==> Apply(rec, line).author == Trim(line[7..])
    ensures StartsWith(line, "Date:") ==> Apply(rec, line).date == Trim(line[5..])
    ensures IsTrimmed(rec.body) ==> IsTrimmed(Apply(rec, line).body)
    ensures IsTrimmed(rec.body) && AllSpace(line) ==> Apply(rec, line) == rec
  {
    HeaderPrefixes(line);
    AppendBodyFacts(rec.body, line);
  }

  /** One iteration of the loop: a marker line pushes a fresh entry, any other line
      updates the last one. */
  function Step(logs: seq<GitLog>, line: string): seq<GitLog>
    requires |logs| > 0
  {
    match CommitMarker(line)
    case Some(h) => logs + [Fresh(h)]
    case None => logs[|logs| - 1 := Apply(logs[|logs| - 1], line)]
  }

  /** A marker line appends an entry and changes nothing else; any other line changes
      only the last entry, and in at most one field. */
  lemma StepFrame(logs: seq<GitLog>, line: string)
    requires |logs| > 0
    ensures CommitMarker(line).Some? ==> Step(logs, line) == logs + [Fresh(CommitMarker(line).value)]
    ensures CommitMarker(line).None? ==>
              |Step(logs, line)| == |logs| && Step(logs, line)[..|logs| - 1] == logs[..|logs| - 1]
              && AtMostOneFieldChanged(logs[|logs| - 1], Step(logs, line)[|logs| - 1])
  {
    ApplySpec(logs[|logs| - 1], line);
  }

  /** The loop takes one line at a time. */
  lemma FoldCons(logs: seq<GitLog>, lines: seq<string>, i: nat)
    requires |logs| > 0 && i < |lines|
    ensures Fold(logs, lines[i..]) == Fold(Step(logs, lines[i]), lines[i + 1..])
  {
    assert lines[i..][0] == lines[i] && lines[i..][1..] == lines[i + 1..];
  }

  /** The loop over the remaining lines. */
  function Fold(logs: seq<GitLog>, lines: seq<string>): seq<GitLog>
    requires |logs| > 0
    decreases |lines|
  {
    if lines == [] then logs else Fold(Step(logs, lines[0]), lines[1..])
  }

  /** Entries before the current last one are never touched again, and the current
      last one keeps its hash. */
  lemma {:induction false} FoldKeepsEarlier(logs: seq<GitLog>, lines: seq<string>)
    requires |logs| > 0
    ensures |Fold(logs, lines)| >= |logs|
    ensures Fold(logs, lines)[..|logs| - 1] == logs[..|logs| - 1]
    ensures Fold(logs, lines)[|logs| - 1].commit == logs[|logs| - 1].commit
    decreases |lines|
  {
    if lines != [] {
      var s := Step(logs, lines[0]);
      StepFrame(logs, lines[0]);
      FoldKeepsEarlier(s, lines[1..]);
      var r := Fold(s, lines[1..]);
      assert r[..|logs| - 1] == r[..|s| - 1][..|logs| - 1];
    }
  }

  /** The hashes of the commit-marker lines, in order. */
  function Markers(lines: seq<string>): (r: seq<string>)
    ensures |r| <= |lines|
    ensures forall k :: 0 <= k < |r| ==> IsHash(r[k])
  {
    if lines == [] then []
    else
      CommitMarkerSpec(lines[0]);
      match CommitMarker(lines[0])
      case Some(h) => [h] + Markers(lines[1..])
      case None => Markers(lines[1..])
  }

  function Commits(logs: seq<GitLog>): seq<string> {
    seq(|logs|, i requires 0 <= i < |logs| => logs[i].commit)
  }

  /** The hash a single line contributes: one for a marker line, none otherwise. */
  function LineMarker(line: string): seq<string> {
    match CommitMarker(line)
    case Some(h) => [h]
    case None => []
  }

  lemma MarkersCons(lines: seq<string>)
    requires lines != []
    ensures Markers(lines) == LineMarker(lines[0]) + Markers(lines[1..])
  {
  }

  /** One step pushes the hash of a marker line and keeps every other hash. */
  lemma StepCommits(logs: seq<GitLog>, line: string)
    requires |logs| > 0
    ensures Commits(Step(logs, line)) == Commits(logs) + LineMarker(line)
  {
    StepFrame(logs, line);
    var s := Step(logs, line);
    var c, d := Commits(s), Commits(logs);
    if CommitMarker(line).None? {
      assert |c| == |d| && d + [] == d;
      forall k | 0 <= k < |logs| ensures c[k] == d[k] {
        if k < |logs| - 1 { assert s[k] == s[..|logs| - 1][k]; }
      }
    } else {
      var h := CommitMarker(line).value;
      assert |c| == |d| + 1;
      forall k | 0 <= k < |c| ensures c[k] == (d + [h])[k] {
        if k < |logs| { assert s[k] == logs[k]; }
      }
    }
  }

  /** The loop pushes one entry per marker line, carrying that line's hash. */
  lemma {:induction false} FoldCommits(logs: seq<GitLog>, lines: seq<string>)
    requires |logs| > 0
    ensures Commits(Fold(logs, lines)) == Commits(logs) + Markers(lines)
    decreases |lines|
  {
    if lines == [] {
      AppendEmpty(Commits(logs));
    } else {
      var s := Step(logs, lines[0]);
      var one, rest := LineMarker(lines[0]), Markers(lines[1..]);
      assert Fold(logs, lines) == Fold(s, lines[1..]);
      FoldCommits(s, lines[1..]);
      StepCommits(logs, lines[0]);
      MarkersCons(lines);
      AppendAssoc(Commits(logs), one, rest);
    }
  }

  /** The entries getGitLog returns for the lines of its trimmed output: the loop from
      the placeholder, with the placeholder dropped. */
  function ParseLog(lines: seq<string>): seq<GitLog> {
    FoldKeepsEarlier([Bootstrap], lines);
    Fold([Bootstrap], lines)[1..]
  }

  /** There is one entry per marker line, in order, each holding that line's 40-digit hash. */
  lemma ParseLogCommits(lines: seq<string>)
    ensures |ParseLog(lines)| == |Markers(lines)|
    ensures forall k :: 0 <= k < |ParseLog(lines)| ==>
              ParseLog(lines)[k].commit == Markers(lines)[k] && IsHash(ParseLog(lines)[k].commit)
  {
    var f := Fold([Bootstrap], lines);
    var ms := Markers(lines);
    FoldKeepsEarlier([Bootstrap], lines);
    FoldCommits([Bootstrap], lines);
    assert Commits([Bootstrap]) == [""];
    assert |Commits(f)| == |f| == 1 + |ms|;
    forall k | 0 <= k < |ms| ensures f[k + 1].commit == ms[k] {
      assert f[k + 1].commit == Commits(f)[k + 1] == ([""] + ms)[k + 1];
    }
  }

  /** Author, date and body of an entry have no whitespace at either end. */
  predicate FieldsTrimmed(e: GitLog) {
    IsTrimmed(e.author) && IsTrimmed(e.date) && IsTrimmed(e.body)
  }

  predicate AllFieldsTrimmed(logs: seq<GitLog>) {
    forall k :: 0 <= k < |logs| ==> FieldsTrimmed(logs[k])
  }

  /** One step keeps every entry's fields trimmed. */
  lemma StepTrimmed(logs: seq<GitLog>, line: string)
    requires |logs| > 0 && AllFieldsTrimmed(logs)
    ensures AllFieldsTrimmed(Step(logs, line))
  {
    var n := |logs| - 1;
    var s := Step(logs, line);
    match CommitMarker(line)
    case Some(h) =>
      assert s == logs + [Fresh(h)];
      assert FieldsTrimmed(Fresh(h));
      forall k | 0 <= k < |s| ensures FieldsTrimmed(s[k]) {
        if k < |logs| { assert s[k] == logs[k]; }
      }
    case None =>
      var e := Apply(logs[n], line);
      assert s == logs[n := e];
      ApplyTrimmed(logs[n], line);
      forall k | 0 <= k < |s| ensures FieldsTrimmed(s[k]) {
        if k < n { assert s[k] == logs[k]; }
      }
  }

  lemma ApplyTrimmed(rec: GitLog, line: string)
    requires FieldsTrimmed(rec)
    ensures FieldsTrimmed(Apply(rec, line))
  {
    if !StartsWith(line, "Author:") && !StartsWith(line, "Date:") {
      AppendBodyFacts(rec.body, line);
    }
  }

  lemma {:induction false} FoldTrimmed(logs: seq<GitLog>, lines: seq<string>)
    requires |logs| > 0 && AllFieldsTrimmed(logs)
    ensures AllFieldsTrimmed(Fold(logs, lines))
    decreases |lines|
  {
    if lines != [] {
      StepTrimmed(logs, lines[0]);
      FoldTrimmed(Step(logs, lines[0]), lines[1..]);
    }
  }

  /** Every entry getGitLog returns has a trimmed author, date and body. */
  lemma ParseLogTrimmed(lines: seq<string>)
    ensures forall k :: 0 <= k < |ParseLog(lines)| ==> FieldsTrimmed(ParseLog(lines)[k])
  {
    var f := Fold([Bootstrap], lines);
    FoldKeepsEarlier([Bootstrap], lines);
    FoldTrimmed([Bootstrap], lines);
    forall k | 0 <= k < |f| - 1 ensures FieldsTrimmed(ParseLog(lines)[k]) {
      assert ParseLog(lines)[k] == f[k + 1];
    }
  }

  // ---------------------------------------------------------------------------
  // Reference description: entries from segments

  /** The index of the first marker line, or the number of lines if there is none. */
  function FirstMarker(lines: seq<string>): (i: nat)
    ensures i <= |lines|
    ensures i < |lines| ==> CommitMarker(lines[i]).Some?
  {
    if lines == [] || CommitMarker(lines[0]).Some? then 0 else 1 + FirstMarker(lines[1..])
  }

  /** The trimmed rest of the last line of `seg` that starts with `prefix`, or `dflt`. */
  function LastValue(seg: seq<string>, prefix: string, dflt: string): string {
    if seg == [] then dflt
    else if StartsWith(seg[|seg| - 1], prefix) then Trim(seg[|seg| - 1][|prefix|..])
    else LastValue(seg[..|seg| - 1], prefix, dflt)
  }

  /** A line that contributes to the body: neither an author nor a date line, nor blank. */
  predicate IsBodyLine(line: string) {
    !StartsWith(line, "Author:") && !StartsWith(line, "Date:") && !AllSpace(line)
  }

  function BodyLines(seg: seq<string>): seq<string> {
    if seg == [] then []
    else (if IsBodyLine(seg[0]) then [seg[0]] else []) + BodyLines(seg[1..])
  }

  /** Each further body line after one space, without its trailing whitespace. */
  function Tail(parts: seq<string>): string {
    if parts == [] then "" else " " + TrimEnd(parts[0]) + Tail(parts[1..])
  }

  /** The body built from its body lines: the first trimmed, the rest as in `Tail`. */
  function Joined(parts: seq<string>): string {
    if parts == [] then "" else Trim(parts[0]) + Tail(parts[1..])
  }

  /** The entry for a marker with hash `h` followed by the non-marker lines `seg`. */
  function Record(h: string, seg: seq<string>): GitLog {
    GitLog(h, LastValue(seg, "Author:", ""), LastValue(seg, "Date:", ""), Joined(BodyLines(seg)))
  }

  /** One entry per marker line of `ls`, which is empty or starts with a marker. */
  function Records(ls: seq<string>): seq<GitLog>
    requires ls == [] || CommitMarker(ls[0]).Some?
    decreases |ls|
  {
    if ls == [] then []
    else
      var j := 1 + FirstMarker(ls[1..]);
      [Record(CommitMarker(ls[0]).value, ls[1..j])] + Records(ls[j..])
  }

  /** The lines before the first marker are ignored; every later line belongs to the
      marker above it. */
  function Reference(lines: seq<string>): seq<GitLog> {
    Records(lines[FirstMarker(lines)..])
  }

  /** Applying a run of non-marker lines to one entry. */
  function ApplyAll(rec: GitLog, seg: seq<string>): (r: GitLog)
    ensures r.commit == rec.commit
    decreases |seg|
  {
    if seg == [] then rec else ApplyAll(Apply(rec, seg[0]), seg[1..])
  }

  /** The entries the loop builds from `ls`, which is empty or starts with a marker:
      one per marker, from a fresh entry and the lines up to the next marker. */
  function Entries(ls: seq<string>): seq<GitLog>
    requires ls == [] || CommitMarker(ls[0]).Some?
    decreases |ls|
  {
    if ls == [] then []
    else
      var j := 1 + FirstMarker(ls[1..]);
      [ApplyAll(Fresh(CommitMarker(ls[0]).value), ls[1..j])] + Entries(ls[j..])
  }

  lemma {:induction false} ApplyAllSnoc(rec: GitLog, seg: seq<string>, line: string)
    ensures ApplyAll(rec, seg + [line]) == Apply(ApplyAll(rec, seg), line)
    decreases |seg|
  {
    if seg == [] {
      assert [] + [line] == [line] && [line][1..] == [];
    } else {
      assert (seg + [line])[1..] == seg[1..] + [line];
      ApplyAllSnoc(Apply(rec, seg[0]), seg[1..], line);
    }
  }

  /** After a run of lines, author and date are those of the last such line, if any. */
  lemma {:induction false} ApplyAllHeaders(rec: GitLog, seg: seq<string>)
    ensures ApplyAll(rec, seg).author == LastValue(seg, "Author:", rec.author)
    ensures ApplyAll(rec, seg).date == LastValue(seg, "Date:", rec.date)
    decreases |seg|
  {
    if seg != [] {
      var init, last := seg[..|seg| - 1], seg[|seg| - 1];
      assert seg == init + [last];
      ApplyAllSnoc(rec, init, last);
      ApplyAllHeaders(rec, init);
      HeaderPrefixes(last);
      assert seg[..|seg| - 1] == init && seg[|seg| - 1] == last;
    }
  }

  /** A body line extends the body as `AppendBody` says; any other line leaves it alone. */
  lemma ApplyBody(rec: GitLog, line: string)
    requires IsTrimmed(rec.body)
    ensures IsTrimmed(Apply(rec, line).body)
    ensures Apply(rec, line).body ==
              if !IsBodyLine(line) then rec.body
              else if rec.body == "" then Trim(line)
              else rec.body + " " + TrimEnd(line)
  {
    HeaderPrefixes(line);
    AppendBodyFacts(rec.body, line);
  }

  lemma JoinAssoc(a: string, t: string, c: string)
    ensures (a + " " + t) + c == a + (" " + t + c)
  {
  }

  /** After a run of lines, the body is the old body extended with the body lines. */
  lemma {:induction false} ApplyAllBody(rec: GitLog, seg: seq<string>)
    requires IsTrimmed(rec.body)
    ensures ApplyAll(rec, seg).body ==
              if rec.body == "" then Joined(BodyLines(seg)) else rec.body + Tail(BodyLines(seg))
    decreases |seg|
  {
    if seg != [] {
      var line, rest := seg[0], seg[1..];
      var next := Apply(rec, line);
      ApplyBody(rec, line);
      ApplyAllBody(next, rest);
      var more := BodyLines(rest);
      assert ApplyAll(rec, seg) == ApplyAll(next, rest);
      if IsBodyLine(line) {
        assert BodyLines(seg) == [line] + more;
        assert ([line] + more)[1..] == more;
        if rec.body == "" {
          assert next.body == Trim(line) != "" by { assert line[0..] == line; }
          assert Joined([line] + more) == Trim(line) + Tail(more);
        } else {
          var t, c := TrimEnd(line), Tail(more);
          assert next.body == rec.body + " " + t;
          assert Tail([line] + more) == " " + t + c;
          JoinAssoc(rec.body, t, c);
        }
      } else {
        assert BodyLines(seg) == more;
      }
    }
  }

  lemma BuildIsRecord(h: string, seg: seq<string>)
    ensures ApplyAll(Fresh(h), seg) == Record(h, seg)
  {
    ApplyAllHeaders(Fresh(h), seg);
    ApplyAllBody(Fresh(h), seg);
  }

  lemma SplitLast<T>(s: seq<T>)
    requires |s| > 0
    ensures s == s[..|s| - 1] + [s[|s| - 1]]
  {
  }

  /** The loop from any list of entries: the lines up to the first marker go to the
      current last entry, and each marker after that opens an entry of its own. */
  lemma {:induction false} FoldIsSegmented(logs: seq<GitLog>, lines: seq<string>)
    requires |logs| > 0
    ensures Fold(logs, lines) == Segmented(logs, lines)
    decreases |lines|
  {
    if lines == [] {
      SplitLast(logs);
    } else {
      var s := Step(logs, lines[0]);
      FoldIsSegmented(s, lines[1..]);
      if CommitMarker(lines[0]).Some? {
        FoldSegmentedMarker(logs, lines);
      } else {
        FoldSegmentedOther(logs, lines);
      }
    }
  }

  /** The loop's result in segmented form: the earlier entries as they are, the last
      one updated by the lines before the first marker, then one entry per marker
      together with the lines up to the next marker. */
  function Segmented(logs: seq<GitLog>, lines: seq<string>): seq<GitLog>
    requires |logs| > 0
  {
    logs[..|logs| - 1] + [ApplyAll(logs[|logs| - 1], lines[..FirstMarker(lines)])]
    + Entries(lines[FirstMarker(lines)..])
  }

  lemma FoldSegmentedMarker(logs: seq<GitLog>, lines: seq<string>)
    requires |logs| > 0 && lines != [] && CommitMarker(lines[0]).Some?
    requires Fold(Step(logs, lines[0]), lines[1..]) == Segmented(Step(logs, lines[0]), lines[1..])
    ensures Fold(logs, lines) == Segmented(logs, lines)
  {
    var rest := lines[1..];
    var i := FirstMarker(rest);
    var h := CommitMarker(lines[0]).value;
    StepFrame(logs, lines[0]);
    assert Fold(logs, lines) == Fold(logs + [Fresh(h)], rest);
    SegmentedGrown(logs, Fresh(h), rest);
    EntriesCons(lines);
    SegmentedAtMarker(logs, lines);
    AppendAssoc(logs, [ApplyAll(Fresh(h), rest[..i])], Entries(rest[i..]));
  }

  lemma SegmentedGrown(logs: seq<GitLog>, x: GitLog, rest: seq<string>)
    ensures Segmented(logs + [x], rest) ==
              logs + [ApplyAll(x, rest[..FirstMarker(rest)])] + Entries(rest[FirstMarker(rest)..])
  {
    var g := logs + [x];
    assert g[..|g| - 1] == logs && g[|g| - 1] == x;
  }

  lemma SegmentedAtMarker(logs: seq<GitLog>, lines: seq<string>)
    requires |logs| > 0 && lines != [] && CommitMarker(lines[0]).Some?
    ensures Segmented(logs, lines) == logs + Entries(lines)
  {
    assert FirstMarker(lines) == 0;
    assert lines[..0] == [] && lines[0..] == lines;
    SplitLast(logs);
  }

  lemma EntriesCons(ls: seq<string>)
    requires ls != [] && CommitMarker(ls[0]).Some?
    ensures Entries(ls) ==
              [ApplyAll(Fresh(CommitMarker(ls[0]).value), ls[1..][..FirstMarker(ls[1..])])]
              + Entries(ls[1..][FirstMarker(ls[1..])..])
  {
    TailSlices(ls, FirstMarker(ls[1..]));
  }

  lemma FoldSegmentedOther(logs: seq<GitLog>, lines: seq<string>)
    requires |logs| > 0 && lines != [] && CommitMarker(lines[0]).None?
    requires Fold(Step(logs, lines[0]), lines[1..]) == Segmented(Step(logs, lines[0]), lines[1..])
    ensures Fold(logs, lines) == Segmented(logs, lines)
  {
    var n := |logs| - 1;
    var rest := lines[1..];
    var i := FirstMarker(rest);
    var s := Step(logs, lines[0]);
    StepFrame(logs, lines[0]);
    assert |s| == |logs| && s[n] == Apply(logs[n], lines[0]);
    assert FirstMarker(lines) == 1 + i;
    var seg := lines[..1 + i];
    ConsSlices(lines, i);
    ApplyAllCons(logs[n], seg);
    assert i < |rest| ==> rest[i..][0] == rest[i];
    var e := Entries(rest[i..]);
    var front := ApplyAll(s[n], rest[..i]);
    assert Fold(logs, lines) == Fold(s, rest);
    assert Segmented(s, rest) == s[..n] + [front] + e;
    assert s[..n] == logs[..n];
    assert Segmented(logs, lines) == logs[..n] + [front] + e;
  }

  lemma ConsSlices<T>(s: seq<T>, i: nat)
    requires i < |s|
    ensures s[..1 + i][0] == s[0] && s[..1 + i][1..] == s[1..][..i] && s[1..][i..] == s[1 + i..]
  {
  }

  lemma AppendAssoc<T>(a: seq<T>, b: seq<T>, c: seq<T>)
    ensures a + (b + c) == a + b + c
  {
  }

  lemma AppendEmpty<T>(a: seq<T>)
    ensures a + [] == a
  {
  }

  lemma TailSlices<T>(s: seq<T>, i: nat)
    requires i < |s|
    ensures s[1..1 + i] == s[1..][..i] && s[1 + i..] == s[1..][i..]
  {
  }

  lemma ApplyAllCons(rec: GitLog, seg: seq<string>)
    requires seg != []
    ensures ApplyAll(rec, seg) == ApplyAll(Apply(rec, seg[0]), seg[1..])
  {
  }

  /** Building each entry by the loop gives the entry the reference describes. */
  lemma {:induction false} EntriesAreRecords(ls: seq<string>)
    requires ls == [] || CommitMarker(ls[0]).Some?
    ensures Entries(ls) == Records(ls)
    decreases |ls|
  {
    if ls != [] {
      var j := 1 + FirstMarker(ls[1..]);
      BuildIsRecord(CommitMarker(ls[0]).value, ls[1..j]);
      EntriesAreRecords(ls[j..]);
    }
  }

  /** The loop's result is the reference description. */
  lemma ParseLogIsReference(lines: seq<string>)
    ensures ParseLog(lines) == Reference(lines)
  {
    var i := FirstMarker(lines);
    FoldIsSegmented([Bootstrap], lines);
    EntriesAreRecords(lines[i..]);
    assert [Bootstrap][..0] == [];
  }

  /** Whatever precedes the first marker line lands in the placeholder and is lost. */
  lemma PreambleDiscarded(lines: seq<string>)
    ensures ParseLog(lines) == ParseLog(lines[FirstMarker(lines)..])
  {
    var i := FirstMarker(lines);
    ParseLogIsReference(lines);
    ParseLogIsReference(lines[i..]);
    assert FirstMarker(lines[i..]) == 0;
    assert lines[i..][0..] == lines[i..];
  }
}
