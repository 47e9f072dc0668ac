/**
 * The parts of JavaScript's string library that git.ts relies on:
 * `trim`, `split("\n")`, `startsWith` and `substring`, with characters
 * taken as Unicode scalar values.
 */
module JsString {

  /** ECMAScript WhiteSpace and LineTerminator code points: what `trim`
      removes and what the regular-expression class `\s` matches. */
  predicate IsSpace(c: char) {
    c == '\t' || c == '\n' || c == '\U{000B}' || c == '\U{000C}' || c == '\r'
    || c == ' ' || c == '\U{00A0}' || c == '\U{1680}'
    || ('\U{2000}' <= c && c <= '\U{200A}')
    || c == '\U{2028}' || c == '\U{2029}' || c == '\U{202F}' || c == '\U{205F}'
    || c == '\U{3000}' || c == '\U{FEFF}'
  }

  /** The characters that the regular-expression `.` does not match. */
  predicate IsLineTerminator(c: char) {
    c == '\n' || c == '\r' || c == '\U{2028}' || c == '\U{2029}'
  }

  predicate AllSpace(s: string) {
    forall i :: 0 <= i < |s| ==> IsSpace(s[i])
  }

  /** Neither end of `s` is whitespace. */
  predicate IsTrimmed(s: string) {
    s == [] || (!IsSpace(s[0]) && !IsSpace(s[|s| - 1]))
  }

  ghost predicate SpacesIn(s: string, i: int, j: int)
    requires 0 <= i <= j <= |s|
  {
    forall m :: i <= m < j ==> IsSpace(s[m])
  }

  /** The end of the run of whitespace that starts at `i`: where a greedy `\s*` stops. */
  function SkipSpaces(s: string, i: nat): (k: nat)
    requires i <= |s|
    ensures i <= k <= |s|
    ensures forall m :: i <= m < k ==> IsSpace(s[m])
    ensures k == |s| || !IsSpace(s[k])
    decreases |s| - i
  {
    if i < |s| && IsSpace(s[i]) then SkipSpaces(s, i + 1) else i
  }

  /** A whitespace run ending before a non-space (or the end) is exactly what `SkipSpaces` skips. */
  lemma {:induction false} SkipSpacesExact(s: string, i: nat, j: nat)
    requires i <= j <= |s| && SpacesIn(s, i, j) && (j == |s| || !IsSpace(s[j]))
    ensures SkipSpaces(s, i) == j
    decreases j - i
  {
    if i < j {
      SkipSpacesExact(s, i + 1, j);
    }
  }

  /** `SkipSpaces` gets at least past any run of whitespace that starts where it does. */
  lemma {:induction false} SkipSpacesPast(s: string, i: nat, j: nat)
    requires i <= j <= |s| && SpacesIn(s, i, j)
    ensures SkipSpaces(s, i) >= j
    decreases j - i
  {
    if i < j {
      SkipSpacesPast(s, i + 1, j);
    }
  }

  /** The start of the run of whitespace that ends at `j`. */
  function SkipSpacesBack(s: string, j: nat): (k: nat)
    requires j <= |s|
    ensures k <= j
    ensures forall m :: k <= m < j ==> IsSpace(s[m])
    ensures k == 0 || !IsSpace(s[k - 1])
  {
    if j > 0 && IsSpace(s[j - 1]) then SkipSpacesBack(s, j - 1) else j
  }

  lemma {:induction false} SkipSpacesBackExact(s: string, i: nat, j: nat)
    requires i <= j <= |s| && SpacesIn(s, i, j) && (i == 0 || !IsSpace(s[i - 1]))
    ensures SkipSpacesBack(s, j) == i
    decreases j - i
  {
    if i < j {
      SkipSpacesBackExact(s, i, j - 1);
    }
  }

  /** `s` with its leading whitespace removed. */
  function TrimStart(s: string): (r: string)
    ensures |r| <= |s| && r == s[|s| - |r|..]
    ensures AllSpace(s[..|s| - |r|])
    ensures r == [] || !IsSpace(r[0])
  {
    var k := SkipSpaces(s, 0);
    assert forall m :: 0 <= m < k ==> s[..k][m] == s[m];
    s[k..]
  }

  /** `s` with its trailing whitespace removed. */
  function TrimEnd(s: string): (r: string)
    ensures |r| <= |s| && r == s[..|r|]
    ensures AllSpace(s[|r|..])
    ensures r == [] || !IsSpace(r[|r| - 1])
  {
    var k := SkipSpacesBack(s, |s|);
    assert forall m :: 0 <= m < |s| - k ==> s[k..][m] == s[k + m];
    s[..k]
  }

  /** `String.prototype.trim`. */
  function Trim(s: string): (r: string)
    ensures IsTrimmed(r) && |r| <= |s|
    ensures r == [] <==> AllSpace(s)
  {
    var t := TrimStart(s);
    var r := TrimEnd(t);
    assert r == [] ==> t == [] by { assert t[0..] == t; }
    assert t == [] ==> s == s[..|s|];
    assert t != [] ==> !AllSpace(s) by {
      if t != [] { assert t[0] == s[|s| - |t|]; }
    }
    r
  }

  /** Every whitespace-free infix of `s` that has only whitespace on either side is what
      `Trim` returns: the characterisation of `trim` by its result. */
  lemma TrimUnique(s: string, i: nat, j: nat)
    requires i <= j <= |s|
    requires AllSpace(s[..i]) && AllSpace(s[j..]) && IsTrimmed(s[i..j])
    ensures Trim(s) == s[i..j]
  {
    if i < j {
      TrimInfix(s, i, j);
    } else {
      BlankHalves(s, i);
    }
  }

  lemma TrimInfix(s: string, i: nat, j: nat)
    requires i < j <= |s|
    requires AllSpace(s[..i]) && AllSpace(s[j..]) && IsTrimmed(s[i..j])
    ensures Trim(s) == s[i..j]
  {
    var t := s[i..];
    assert !IsSpace(s[i]) by { assert s[i] == s[i..j][0]; }
    TrimStartSkips(s, i);
    assert !IsSpace(t[j - i - 1]) by { assert t[j - i - 1] == s[i..j][j - i - 1]; }
    assert t[j - i..] == s[j..];
    TrimEndSkips(t, j - i);
    assert t[..j - i] == s[i..j];
  }

  /** Two all-whitespace halves make an all-whitespace string, which trims to nothing. */
  lemma BlankHalves(s: string, i: nat)
    requires i <= |s| && AllSpace(s[..i]) && AllSpace(s[i..])
    ensures Trim(s) == []
  {
    forall k | 0 <= k < |s| ensures IsSpace(s[k]) {
      if k < i { assert s[k] == s[..i][k]; } else { assert s[k] == s[i..][k - i]; }
    }
  }

  lemma TrimStartSkips(s: string, i: nat)
    requires i <= |s| && AllSpace(s[..i]) && (i == |s| || !IsSpace(s[i]))
    ensures TrimStart(s) == s[i..]
  {
    assert SpacesIn(s, 0, i) by {
      forall m | 0 <= m < i ensures IsSpace(s[m]) { assert s[m] == s[..i][m]; }
    }
    SkipSpacesExact(s, 0, i);
  }

  lemma TrimEndSkips(s: string, j: nat)
    requires j <= |s| && AllSpace(s[j..]) && (j == 0 || !IsSpace(s[j - 1]))
    ensures TrimEnd(s) == s[..j]
  {
    assert SpacesIn(s, j, |s|) by {
      forall m | j <= m < |s| ensures IsSpace(s[m]) { assert s[m] == s[j..][m - j]; }
    }
    SkipSpacesBackExact(s, j, |s|);
  }

  /** `Trim(s)` is an infix of `s` with only whitespace on either side. */
  lemma TrimSlice(s: string) returns (i: nat, j: nat)
    ensures i <= j <= |s| && Trim(s) == s[i..j]
    ensures AllSpace(s[..i]) && AllSpace(s[j..])
  {
    var t := TrimStart(s);
    i := |s| - |t|;
    j := i + |TrimEnd(t)|;
    assert t[|TrimEnd(t)|..] == s[j..];
  }

  /** A leading space makes no difference to `Trim`. */
  lemma TrimAfterSpace(line: string)
    ensures Trim(" " + line) == Trim(line)
  {
    var s := " " + line;
    var k := SkipSpaces(line, 0);
    assert SpacesIn(s, 0, k + 1) by {
      forall m | 0 <= m < k + 1 ensures IsSpace(s[m]) {
        if m > 0 { assert s[m] == line[m - 1]; }
      }
    }
    assert k + 1 == |s| || !IsSpace(s[k + 1]) by {
      if k < |line| { assert s[k + 1] == line[k]; }
    }
    SkipSpacesExact(s, 0, k + 1);
    assert s[k + 1..] == line[k..];
  }

  /** `s.startsWith(p)`: case-sensitive and anchored at the first character. */
  predicate StartsWith(s: string, p: string) {
    |p| <= |s| && s[..|p|] == p
  }

  /** The pieces joined back with `"\n"`, the inverse of `Split`. */
  function Join(parts: seq<string>): string
    requires |parts| >= 1
  {
    if |parts| == 1 then parts[0] else parts[0] + "\n" + Join(parts[1..])
  }

  /** `s.split("\n")`: never empty, no piece holds a newline, and joining the
      pieces with newlines gives `s` back. */
  function Split(s: string): (r: seq<string>)
    ensures |r| >= 1
    ensures forall k :: 0 <= k < |r| ==> '\n' !in r[k]
    ensures Join(r) == s
  {
    if s == [] then [""]
    else
      var rest := Split(s[1..]);
      if s[0] == '\n' then
        var r := [""] + rest;
        assert r[1..] == rest;
        r
      else
        var r := [[s[0]] + rest[0]] + rest[1..];
        assert |r| > 1 ==> r[1..] == rest[1..];
        assert Join(r) == [s[0]] + Join(rest);
        assert s == [s[0]] + s[1..];
        r
  }
}
