/**
 * The three fixed regular expressions of git.ts, hand-coded, each next to the
 * declarative reading of its pattern:
 *   commit marker (getGitLog)   /^commit\s+([0-9a-f]{40})/i
 *   tag marker (getGitTag)      /^commit\s+([0-9a-f]{40})\n/i
 *   date line (getModifiedTime) /^date:\s+(.*)$/i
 * None has the `m` flag, so `^` and `$` are the ends of the whole input. None has
 * the `u` flag, so under `i` no character at or above U+0080 folds onto an ASCII
 * one; the patterns hold only ASCII letters, so folding them is ASCII folding.
 */
module LogPatterns {
  import opened Results
  import opened JsString

  /** `[0-9a-f]` under the `i` flag. */
  predicate IsHexDigit(c: char) {
    ('0' <= c && c <= '9') || ('a' <= c && c <= 'f') || ('A' <= c && c <= 'F')
  }

  /** A full commit hash as the markers capture it. */
  predicate IsHash(h: string) {
    |h| == 40 && forall i :: 0 <= i < |h| ==> IsHexDigit(h[i])
  }

  /** Case folding under the `i` flag as far as the ASCII patterns here need it: ASCII
      letters fold to lower case, and nothing at or above U+0080 folds onto ASCII, so
      such characters can be left as they are. */
  function FoldCase(c: char): char {
    if 'A' <= c && c <= 'Z' then (c as int + 32) as char else c
  }

  /** `s` begins with the literal `p`, compared case-insensitively. */
  predicate CiStartsWith(s: string, p: string) {
    |p| <= |s| && forall i :: 0 <= i < |p| ==> FoldCase(s[i]) == FoldCase(p[i])
  }

  ghost predicate HexIn(s: string, i: int, j: int)
    requires 0 <= i <= j <= |s|
  {
    forall m :: i <= m < j ==> IsHexDigit(s[m])
  }

  // ---------------------------------------------------------------------------
  // /^commit\s+([0-9a-f]{40})/i

  /** The pattern matches `s` with its capture group starting at `k`. */
  ghost predicate MarkerMatchAt(s: string, k: int) {
    6 < k && k + 40 <= |s| && CiStartsWith(s, "commit") && SpacesIn(s, 6, k) && HexIn(s, k, k + 40)
  }

  /** Where the hash of a commit marker starts: after the keyword and the longest
      run of whitespace, provided 40 hex digits follow. */
  function MarkerHashStart(s: string): Option<nat> {
    if CiStartsWith(s, "commit") then
      var k := SkipSpaces(s, 6);
      if k > 6 && k + 40 <= |s| && (forall m :: k <= m < k + 40 ==> IsHexDigit(s[m])) then
        Some(k)
      else
        None
    else None
  }

  /** The pattern matches at no more than one `k`, and `MarkerHashStart` finds it. */
  lemma MarkerHashStartSpec(s: string)
    ensures MarkerHashStart(s).Some? ==> MarkerMatchAt(s, MarkerHashStart(s).value)
    ensures forall k :: MarkerMatchAt(s, k) ==> MarkerHashStart(s) == Some(k)
  {
    if CiStartsWith(s, "commit") {
      var k := SkipSpaces(s, 6);
      forall k' | MarkerMatchAt(s, k') ensures k' == k {
        assert !IsSpace(s[k']);
        SkipSpacesExact(s, 6, k');
      }
    }
  }

  /** The capture group of the commit-marker pattern, `hashMatch[1]` in getGitLog. */
  function CommitMarker(line: string): Option<string> {
    match MarkerHashStart(line)
    case Some(k) => Some(line[k..k + 40])
    case None => None
  }

  /** `CommitMarker` captures exactly when the pattern matches, and then the 40 hex
      digits after the whitespace. */
  lemma CommitMarkerSpec(line: string)
    ensures CommitMarker(line).Some? <==> exists k :: MarkerMatchAt(line, k)
    ensures forall k :: MarkerMatchAt(line, k) ==> CommitMarker(line) == Some(line[k..k + 40])
    ensures CommitMarker(line).Some? ==> IsHash(CommitMarker(line).value)
  {
    MarkerHashStartSpec(line);
  }

  // ---------------------------------------------------------------------------
  // /^commit\s+([0-9a-f]{40})\n/i

  /** The pattern matches `s` with its capture group starting at `k`. */
  ghost predicate TagMatchAt(s: string, k: int) {
    MarkerMatchAt(s, k) && k + 40 < |s| && s[k + 40] == '\n'
  }

  /** The capture group of the tag pattern, `hashMatch[1]` in getGitTag. */
  function TagHash(log: string): Option<string> {
    match MarkerHashStart(log)
    case Some(k) => if k + 40 < |log| && log[k + 40] == '\n' then Some(log[k..k + 40]) else None
    case None => None
  }

  /** `TagHash` captures exactly when the pattern matches, and then the 40 hex digits
      that the line break follows. */
  lemma TagHashSpec(log: string)
    ensures TagHash(log).Some? <==> exists k :: TagMatchAt(log, k)
    ensures forall k :: TagMatchAt(log, k) ==> TagHash(log) == Some(log[k..k + 40])
    ensures TagHash(log).Some? ==> IsHash(TagHash(log).value)
  {
    MarkerHashStartSpec(log);
    if TagHash(log).Some? {
      assert TagMatchAt(log, MarkerHashStart(log).value);
    }
  }

  // ---------------------------------------------------------------------------
  // /^date:\s+(.*)$/i

  /** The pattern matches `s` with `\s+` ending at `k`: the rest of `s` is
      the capture `(.*)`, which cannot cross a line terminator. */
  ghost predicate DateMatchAt(s: string, k: int) {
    5 < k <= |s| && CiStartsWith(s, "date:") && SpacesIn(s, 5, k)
    && forall m :: k <= m < |s| ==> !IsLineTerminator(s[m])
  }

  /** The capture group of the date pattern, `match[1]` in getModifiedTime. */
  function DateText(line: string): Option<string> {
    if CiStartsWith(line, "date:") then
      var k := SkipSpaces(line, 5);
      if k > 5 && (forall m :: k <= m < |line| ==> !IsLineTerminator(line[m])) then
        Some(line[k..])
      else
        None
    else None
  }

  /** `DateText` captures exactly when the pattern matches. The regular expression
      backtracks from the longest `\s+`, so the capture is the rest of the line after
      the largest `k` that matches. */
  lemma DateTextSpec(line: string)
    ensures DateText(line).Some? <==> exists k :: DateMatchAt(line, k)
    ensures DateText(line).Some? ==>
              exists k :: DateMatchAt(line, k) && DateText(line).value == line[k..]
                       && forall k' :: DateMatchAt(line, k') ==> k' <= k
  {
    if CiStartsWith(line, "date:") {
      var k := SkipSpaces(line, 5);
      forall k' | DateMatchAt(line, k') ensures k' <= k {
        SkipSpacesPast(line, 5, k');
      }
      if DateText(line).Some? {
        assert DateMatchAt(line, k);
      }
    }
  }

  // ---------------------------------------------------------------------------
  // Consequences

  /** Only the first 40 hex digits are captured, whatever follows them on the line;
      the keyword may be in any case and the gap is any non-empty run of whitespace. */
  lemma MarkerTakesFirst40(p: string, gap: string, h: string, more: string)
    requires |p| == 6 && CiStartsWith(p, "commit")
    requires gap != [] && AllSpace(gap) && IsHash(h)
    ensures CommitMarker(p + gap + h + more) == Some(h)
  {
    var s := p + gap + h + more;
    var k := 6 + |gap|;
    assert forall m :: 6 <= m < k ==> s[m] == gap[m - 6];
    assert forall m :: k <= m < k + 40 ==> s[m] == h[m - k];
    assert CiStartsWith(s, "commit") by {
      assert forall m :: 0 <= m < 6 ==> s[m] == p[m];
    }
    assert MarkerMatchAt(s, k);
    assert s[k..k + 40] == h;
    CommitMarkerSpec(s);
  }

  /** The tag pattern captures the 40 hex digits of a first line that ends right
      after them. */
  lemma TagTakesFirst40(p: string, gap: string, h: string, more: string)
    requires |p| == 6 && CiStartsWith(p, "commit")
    requires gap != [] && AllSpace(gap) && IsHash(h)
    ensures TagHash(p + gap + h + "\n" + more) == Some(h)
  {
    var s := p + gap + h + "\n" + more;
    var k := 6 + |gap|;
    assert forall m :: 6 <= m < k ==> s[m] == gap[m - 6];
    assert forall m :: k <= m < k + 40 ==> s[m] == h[m - k];
    assert CiStartsWith(s, "commit") by {
      assert forall m :: 0 <= m < 6 ==> s[m] == p[m];
    }
    assert s[k + 40] == '\n';
    assert TagMatchAt(s, k);
    assert s[k..k + 40] == h;
    TagHashSpec(s);
  }

  /** The tag pattern needs a newline straight after the hash: an output that ends
      right after the hash, such as a single trimmed line, yields no tag. */
  lemma TagNeedsNewline(log: string)
    requires '\n' !in log
    ensures TagHash(log) == None
  {
    TagHashSpec(log);
    forall k | MarkerMatchAt(log, k) && k + 40 < |log| ensures log[k + 40] != '\n' {
      assert log[k + 40] in log;
    }
  }

  /** On a trimmed line, a matched date text is non-empty and itself trimmed, so the
      `trim()` applied to it in getModifiedTime changes nothing. */
  lemma DateTextOfTrimmed(line: string)
    requires IsTrimmed(line) && DateText(line).Some?
    ensures DateText(line).value != [] && IsTrimmed(DateText(line).value)
    ensures Trim(DateText(line).value) == DateText(line).value
  {
    var k := SkipSpaces(line, 5);
    var v := line[k..];
    assert k > 5 && DateText(line).value == v;
    assert IsSpace(line[k - 1]);
    assert k < |line|;
    assert v[0] == line[k] && v[|v| - 1] == line[|line| - 1];
    assert v[..0] == [] && v[|v|..] == [] && v[0..|v|] == v;
    TrimUnique(v, 0, |v|);
  }
}
