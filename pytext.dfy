/** The parts of Python's `str` that the email generator relies on:
    `isspace`/`strip`, `startswith`, `replace(old, "")`, `splitlines` and
    `"\n".join`, written out over `seq<char>`. */
module PyText {

  /** The characters for which Python's `str.isspace()` is true. */
  predicate IsSpace(c: char) {
    ('\U{9}' <= c <= '\U{D}') || ('\U{1C}' <= c <= '\U{20}')
    || c == '\U{85}' || c == '\U{A0}' || c == '\U{1680}'
    || ('\U{2000}' <= c <= '\U{200A}')
    || c == '\U{2028}' || c == '\U{2029}' || c == '\U{202F}'
    || c == '\U{205F}' || c == '\U{3000}'
  }

  /** The characters `str.splitlines()` treats as line boundaries
      (`"\r\n"` is handled as one boundary by SplitLines). */
  predicate IsLineBreak(c: char) {
    c == '\n' || c == '\r' || c == '\U{B}' || c == '\U{C}'
    || ('\U{1C}' <= c <= '\U{1E}') || c == '\U{85}'
    || c == '\U{2028}' || c == '\U{2029}'
  }

  predicate AllSpace(s: string) {
    forall k :: 0 <= k < |s| ==> IsSpace(s[k])
  }

  predicate NoBreak(s: string) {
    forall k :: 0 <= k < |s| ==> !IsLineBreak(s[k])
  }

  /** Neither end of `s` is whitespace: what `strip()` leaves. */
  predicate IsTrimmed(s: string) {
    s == [] || (!IsSpace(s[0]) && !IsSpace(s[|s| - 1]))
  }

  /** `s.lstrip()`: drops the leading whitespace and nothing else. */
  function TrimStart(s: string): (r: string)
    ensures |r| <= |s| && r == s[|s| - |r|..]
    ensures AllSpace(s[..|s| - |r|])
    ensures r == [] || !IsSpace(r[0])
  {
    if s != [] && IsSpace(s[0]) then
      var r := TrimStart(s[1..]);
      assert s[..|s| - |r|] == [s[0]] + s[1..][..|s| - 1 - |r|];
      r
    else s
  }

  /** `s.rstrip()`: drops the trailing whitespace and nothing else. */
  function TrimEnd(s: string): (r: string)
    ensures |r| <= |s| && r == s[..|r|]
    ensures AllSpace(s[|r|..])
    ensures r == [] || !IsSpace(r[|r| - 1])
  {
    if s != [] && IsSpace(s[|s| - 1]) then
      var r := TrimEnd(s[..|s| - 1]);
      assert s[|r|..] == s[..|s| - 1][|r|..] + [s[|s| - 1]];
      r
    else s
  }

  /** `s.strip()`: a whitespace-free-ended middle part of `s` whose
      surroundings are all whitespace. */
  function Strip(s: string): (r: string)
    ensures IsTrimmed(r)
    ensures exists i, j :: 0 <= i <= j <= |s| && r == s[i..j] && AllSpace(s[..i]) && AllSpace(s[j..])
  {
    var t := TrimStart(s);
    var r := TrimEnd(t);
    assert r == s[|s| - |t|..|s| - |t| + |r|];
    assert s[|s| - |t| + |r|..] == t[|r|..];
    r
  }

  lemma {:induction false} TrimStartOf(a: string, t: string)
    requires AllSpace(a)
    requires t == [] || !IsSpace(t[0])
    ensures TrimStart(a + t) == t
  {
    if a != [] {
      assert (a + t)[1..] == a[1..] + t;
      TrimStartOf(a[1..], t);
    }
  }

  lemma {:induction false} TrimEndOf(t: string, b: string)
    requires AllSpace(b)
    requires t == [] || !IsSpace(t[|t| - 1])
    ensures TrimEnd(t + b) == t
  {
    if b != [] {
      assert (t + b)[..|t + b| - 1] == t + b[..|b| - 1];
      TrimEndOf(t, b[..|b| - 1]);
    } else {
      assert t + b == t;
    }
  }

  /** Strip is determined by the whitespace around a trimmed middle part:
      whatever whitespace surrounds `m`, `strip()` gives back `m`. */
  lemma StripOf(a: string, m: string, b: string)
    requires AllSpace(a) && AllSpace(b) && IsTrimmed(m)
    ensures Strip(a + m + b) == m
  {
    if m == [] {
      assert a + m + b == (a + b) + [];
      TrimStartOf(a + b, []);
    } else {
      assert a + m + b == a + (m + b);
      TrimStartOf(a, m + b);
      TrimEndOf(m, b);
    }
  }

  /** `strip()` leaves a trimmed string alone, so it is idempotent. */
  lemma StripTrimmed(s: string)
    requires IsTrimmed(s)
    ensures Strip(s) == s
  {
    assert [] + s + [] == s;
    StripOf([], s, []);
  }

  /** `s.strip()` is empty exactly when `s` is whitespace only
      (Python's `s.strip() or fallback` idiom rests on this). */
  lemma StripEmptyIff(s: string)
    ensures Strip(s) == [] <==> AllSpace(s)
  {
    if AllSpace(s) {
      assert s + [] + [] == s;
      StripOf(s, [], []);
    } else {
      assert TrimStart(s) != [];
    }
  }

  /** `s.startswith(p)` */
  predicate StartsWith(s: string, p: string): (b: bool)
    ensures b <==> |p| <= |s| && forall k :: 0 <= k < |p| ==> s[k] == p[k]
  {
    |p| <= |s| && s[..|p|] == p
  }

  predicate OccursAt(s: string, p: string, i: nat) {
    i + |p| <= |s| && s[i..i + |p|] == p
  }

  /** `p in s` */
  predicate Contains(s: string, p: string) {
    exists i: nat :: i <= |s| && OccursAt(s, p, i)
  }

  /** `s.replace(p, "")`: one left-to-right pass that removes every
      non-overlapping occurrence of `p`. */
  function RemoveAll(s: string, p: string): (r: string)
    requires p != []
    ensures |r| <= |s|
    decreases |s|
  {
    if |s| < |p| then s
    else if s[..|p|] == p then RemoveAll(s[|p|..], p)
    else [s[0]] + RemoveAll(s[1..], p)
  }

  /** Removing a pattern that does not occur changes nothing. */
  lemma {:induction false} RemoveAllAbsent(s: string, p: string)
    requires p != [] && !Contains(s, p)
    ensures RemoveAll(s, p) == s
    decreases |s|
  {
    if |s| >= |p| {
      assert !OccursAt(s, p, 0);
      assert s[..|p|] != p;
      forall i: nat | i <= |s[1..]| && OccursAt(s[1..], p, i)
        ensures OccursAt(s, p, i + 1)
      {
        assert s[1..][i..i + |p|] == s[i + 1..i + 1 + |p|];
      }
      RemoveAllAbsent(s[1..], p);
      assert [s[0]] + s[1..] == s;
    }
  }

  /** The pass keeps everything before the leftmost occurrence of `p`,
      drops that occurrence and carries on right after it. */
  lemma {:induction false} RemoveAllFirstOccurrence(s: string, p: string, n: nat)
    requires p != [] && OccursAt(s, p, n)
    requires forall i: nat :: i < n ==> !OccursAt(s, p, i)
    ensures RemoveAll(s, p) == s[..n] + RemoveAll(s[n + |p|..], p)
    decreases n
  {
    if n == 0 {
      RemoveAllAtOccurrence(s, p);
    } else {
      var t := s[1..];
      RemoveAllStep(s, p);
      NoEarlierOccurrenceInTail(s, p, n);
      ShiftOccurrence(s, p, n - 1);
      RemoveAllFirstOccurrence(t, p, n - 1);
      PrependKept(s, n, |p|, RemoveAll(t, p), RemoveAll(s[n + |p|..], p));
    }
  }

  lemma PrependKept(s: string, n: nat, m: nat, r: string, rest: string)
    requires 0 < n && n + m <= |s|
    requires r == s[1..][..n - 1] + rest
    ensures [s[0]] + r == s[..n] + rest
  {
    assert [s[0]] + s[1..][..n - 1] == s[..n];
  }

  lemma RemoveAllAtOccurrence(s: string, p: string)
    requires p != [] && OccursAt(s, p, 0)
    ensures RemoveAll(s, p) == s[..0] + RemoveAll(s[|p|..], p)
  {
    assert s[..|p|] == p;
    assert s[..0] == [];
  }

  lemma RemoveAllStep(s: string, p: string)
    requires p != [] && |p| <= |s| && !OccursAt(s, p, 0)
    ensures RemoveAll(s, p) == [s[0]] + RemoveAll(s[1..], p)
  {
  }

  lemma NoEarlierOccurrenceInTail(s: string, p: string, n: nat)
    requires s != [] && n > 0
    requires forall i: nat :: i < n ==> !OccursAt(s, p, i)
    ensures forall i: nat :: i < n - 1 ==> !OccursAt(s[1..], p, i)
  {
    forall i: nat | i < n - 1
      ensures !OccursAt(s[1..], p, i)
    {
      ShiftOccurrence(s, p, i);
    }
  }

  lemma ShiftOccurrence(s: string, p: string, i: nat)
    requires s != []
    ensures OccursAt(s[1..], p, i) <==> OccursAt(s, p, i + 1)
  {
    if i + |p| <= |s[1..]| {
      assert s[1..][i..i + |p|] == s[i + 1..i + 1 + |p|];
    }
  }

  /** A leading occurrence of `p` disappears. */
  lemma RemoveAllPrefix(t: string, p: string)
    requires p != []
    ensures RemoveAll(p + t, p) == RemoveAll(t, p)
  {
    assert (p + t)[..|p|] == p;
    assert (p + t)[|p|..] == t;
  }

  /** `str.splitlines()` without `keepends`: the text between line
      boundaries, with no empty entry after a final boundary. */
  function FirstBreak(s: string): (i: nat)
    ensures i <= |s| && NoBreak(s[..i])
    ensures i < |s| ==> IsLineBreak(s[i])
  {
    if s == [] || IsLineBreak(s[0]) then 0 else 1 + FirstBreak(s[1..])
  }

  function SplitLines(s: string): (r: seq<string>)
    ensures forall k :: 0 <= k < |r| ==> NoBreak(r[k])
    ensures r == [] <==> s == []
    decreases |s|
  {
    if s == [] then []
    else
      var i := FirstBreak(s);
      if i == |s| then [s]
      else
        var next := if s[i] == '\r' && i + 1 < |s| && s[i + 1] == '\n' then i + 2 else i + 1;
        [s[..i]] + SplitLines(s[next..])
  }

  /** `"\n".join(lines)` */
  function JoinLines(lines: seq<string>): (r: string)
    ensures lines != [] ==> StartsWith(r, lines[0])
    ensures |lines| > 1 ==> |lines[0]| < |r| && r[|lines[0]|] == '\n'
  {
    if lines == [] then ""
    else if |lines| == 1 then lines[0]
    else lines[0] + "\n" + JoinLines(lines[1..])
  }

  lemma FirstBreakAt(a: string, c: char, t: string)
    requires NoBreak(a) && IsLineBreak(c)
    ensures FirstBreak(a + [c] + t) == |a|
  {
    var s := a + [c] + t;
    assert s[|a|] == c;
    assert forall k :: 0 <= k < |a| ==> s[k] == a[k];
  }

  /** A non-empty text without a line boundary is one line. */
  lemma SplitLinesOfOneLine(a: string)
    requires NoBreak(a) && a != []
    ensures SplitLines(a) == [a]
  {
    assert a[..|a|] == a;
  }

  /** A boundary character other than the `\r` of a `\r\n` pair ends the
      first line; the rest is split on its own. */
  lemma SplitLinesAtBreak(a: string, c: char, t: string)
    requires NoBreak(a) && IsLineBreak(c)
    requires !(c == '\r' && t != [] && t[0] == '\n')
    ensures SplitLines(a + [c] + t) == [a] + SplitLines(t)
  {
    var s := a + [c] + t;
    FirstBreakAt(a, c, t);
    assert s[|a|] == c;
    assert t != [] ==> s[|a| + 1] == t[0];
    assert s[..|a|] == a;
    assert s[|a| + 1..] == t;
  }

  /** `"\r\n"` is a single boundary: it ends the first line and no empty
      line follows it. */
  lemma SplitLinesAtCrLf(a: string, t: string)
    requires NoBreak(a)
    ensures SplitLines(a + "\r\n" + t) == [a] + SplitLines(t)
  {
    var s := a + "\r\n" + t;
    assert s == a + ['\r'] + (['\n'] + t);
    FirstBreakAt(a, '\r', ['\n'] + t);
    assert s[|a|] == '\r' && s[|a| + 1] == '\n';
    assert s[..|a|] == a;
    assert s[|a| + 2..] == t;
  }

  /** Splitting the `"\n"`-join of break-free lines gives the lines back,
      provided the last one is not empty (splitlines drops it). */
  lemma {:induction false} SplitLinesOfJoin(lines: seq<string>)
    requires forall k :: 0 <= k < |lines| ==> NoBreak(lines[k])
    requires lines == [] || lines[|lines| - 1] != ""
    ensures SplitLines(JoinLines(lines)) == lines
  {
    if |lines| == 1 {
      var l := lines[0];
      assert l[..|l|] == l;
      assert FirstBreak(l) == |l|;
    } else if |lines| > 1 {
      var l := lines[0];
      var rest := JoinLines(lines[1..]);
      var s := l + "\n" + rest;
      assert s == l + ['\n'] + rest;
      FirstBreakAt(l, '\n', rest);
      assert s[..|l|] == l;
      assert s[|l| + 1..] == rest;
      SplitLinesOfJoin(lines[1..]);
      assert [l] + lines[1..] == lines;
    }
  }
}
