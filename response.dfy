/** The marker protocol that turns a free-text completion into a subject
    and a body: a line starting with `BETREFF:` sets the subject, a line
    starting with `TEXT:` switches on body mode, and in body mode every
    other line is collected. */
module ResponseParser {
  import opened PyText

  const SubjectMarker: string := "BETREFF:"
  const BodyMarker: string := "TEXT:"

  datatype Draft = Draft(subject: string, body: string)

  predicate IsSubjectLine(line: string) {
    StartsWith(line, SubjectMarker)
  }

  predicate IsBodyStart(line: string) {
    StartsWith(line, BodyMarker)
  }

  predicate IsMarkerLine(line: string) {
    IsSubjectLine(line) || IsBodyStart(line)
  }

  /** The subject a subject line carries: every `BETREFF:` removed, then stripped. */
  function SubjectFrom(line: string): (r: string)
    ensures IsTrimmed(r)
  {
    Strip(RemoveAll(line, SubjectMarker))
  }

  /** The subject after reading `lines`: that of the last subject line, or "". */
  function SubjectOf(lines: seq<string>): (r: string)
    ensures IsTrimmed(r)
  {
    if lines == [] then ""
    else if IsSubjectLine(lines[|lines| - 1]) then SubjectFrom(lines[|lines| - 1])
    else SubjectOf(lines[..|lines| - 1])
  }

  /** The index of the first `TEXT:` line, or |lines| when there is none. */
  function BodyStart(lines: seq<string>): (i: nat)
    ensures i <= |lines|
    ensures forall k :: 0 <= k < i ==> !IsBodyStart(lines[k])
    ensures i < |lines| ==> IsBodyStart(lines[i])
  {
    if lines == [] || IsBodyStart(lines[0]) then 0 else 1 + BodyStart(lines[1..])
  }

  predicate HasBodyStart(lines: seq<string>) {
    BodyStart(lines) < |lines|
  }

  /** The lines that carry neither marker, in their original order. */
  function ContentLines(lines: seq<string>): (r: seq<string>)
    ensures |r| <= |lines|
    ensures forall k :: 0 <= k < |r| ==> !IsMarkerLine(r[k])
  {
    if lines == [] then []
    else (if IsMarkerLine(lines[0]) then [] else [lines[0]]) + ContentLines(lines[1..])
  }

  /** The body lines: the unmarked lines after the first `TEXT:` line. */
  function BodyLines(lines: seq<string>): (r: seq<string>)
    ensures !HasBodyStart(lines) ==> r == []
    ensures |r| < |lines| || r == []
    ensures forall k :: 0 <= k < |r| ==> !IsMarkerLine(r[k])
  {
    var i := BodyStart(lines);
    if i == |lines| then [] else ContentLines(lines[i + 1..])
  }

  /** What the parser makes of a completion. */
  function Parse(content: string): (d: Draft)
    ensures IsTrimmed(d.subject) && IsTrimmed(d.body)
  {
    var lines := SplitLines(content);
    Draft(SubjectOf(lines), Strip(JoinLines(BodyLines(lines))))
  }

  /** An empty reply gives an empty subject and body. */
  lemma ParseEmpty()
    ensures Parse("") == Draft("", "")
  {
    assert SplitLines("") == [];
    assert BodyLines([]) == [];
    assert Strip("") == "";
  }

  /** The loop over `content.splitlines()` with its `subject`, `in_body`
      and `body_lines` variables. */
  method ParseResponse(content: string) returns (subject: string, body: string)
    ensures Draft(subject, body) == Parse(content)
  {
    var lines := SplitLines(content);
    subject := "";
    var bodyLines: seq<string> := [];
    var inBody := false;
    for i := 0 to |lines|
      invariant subject == SubjectOf(lines[..i])
      invariant inBody == HasBodyStart(lines[..i])
      invariant bodyLines == BodyLines(lines[..i])
    {
      var line := lines[i];
      ghost var done := lines[..i];
      assert lines[..i + 1] == done + [line];
      SubjectOfSnoc(done, line);
      HasBodyStartSnoc(done, line);
      BodyLinesSnoc(done, line);
      if IsSubjectLine(line) {
        MarkersExclusive(line);
        subject := SubjectFrom(line);
      } else if IsBodyStart(line) {
        inBody := true;
      } else if inBody {
        bodyLines := bodyLines + [line];
      }
    }
    assert lines[..|lines|] == lines;
    body := Strip(JoinLines(bodyLines));
  }

  /** No line starts with both markers. */
  lemma MarkersExclusive(line: string)
    ensures !(IsSubjectLine(line) && IsBodyStart(line))
  {
    if IsSubjectLine(line) {
      assert line[0] == SubjectMarker[0] == 'B';
    }
  }

  lemma {:induction false} SubjectOfSnoc(lines: seq<string>, line: string)
    ensures SubjectOf(lines + [line]) == if IsSubjectLine(line) then SubjectFrom(line) else SubjectOf(lines)
  {
    assert (lines + [line])[..|lines|] == lines;
  }

  /** BodyStart is the only index with its three properties. */
  lemma {:induction false} BodyStartUnique(lines: seq<string>, i: nat)
    requires i <= |lines|
    requires forall k :: 0 <= k < i ==> !IsBodyStart(lines[k])
    requires i < |lines| ==> IsBodyStart(lines[i])
    ensures BodyStart(lines) == i
  {
  }

  lemma {:induction false} BodyStartSnoc(lines: seq<string>, line: string)
    ensures BodyStart(lines + [line]) ==
      if BodyStart(lines) < |lines| then BodyStart(lines)
      else if IsBodyStart(line) then |lines| else |lines| + 1
  {
    var ls := lines + [line];
    var j := BodyStart(lines);
    if j < |lines| {
      BodyStartUnique(ls, j);
    } else {
      BodyStartUnique(ls, if IsBodyStart(line) then |lines| else |lines| + 1);
    }
  }

  lemma {:induction false} HasBodyStartSnoc(lines: seq<string>, line: string)
    ensures HasBodyStart(lines + [line]) == (HasBodyStart(lines) || IsBodyStart(line))
  {
    BodyStartSnoc(lines, line);
  }

  lemma {:induction false} ContentLinesAppend(a: seq<string>, b: seq<string>)
    ensures ContentLines(a + b) == ContentLines(a) + ContentLines(b)
  {
    if a != [] {
      assert (a + b)[1..] == a[1..] + b;
      ContentLinesAppend(a[1..], b);
    } else {
      assert a + b == b;
    }
  }

  lemma {:induction false} BodyLinesSnoc(lines: seq<string>, line: string)
    ensures BodyLines(lines + [line]) ==
      if HasBodyStart(lines) && !IsMarkerLine(line) then BodyLines(lines) + [line]
      else BodyLines(lines)
  {
    var ls := lines + [line];
    var j := BodyStart(lines);
    BodyStartSnoc(lines, line);
    if j < |lines| {
      assert BodyStart(ls) == j;
      assert ls[j + 1..] == lines[j + 1..] + [line];
      ContentLinesAppend(lines[j + 1..], [line]);
      assert ContentLines([line]) == (if IsMarkerLine(line) then [] else [line]) + ContentLines([]);
    } else if IsBodyStart(line) {
      assert BodyStart(ls) == |lines|;
      assert ls[|lines| + 1..] == [];
    } else {
      assert BodyStart(ls) == |ls|;
    }
  }

  // ---- What the parser promises ----

  /** Without a subject line the subject stays empty. */
  lemma {:induction false} SubjectOfNone(lines: seq<string>)
    requires forall k :: 0 <= k < |lines| ==> !IsSubjectLine(lines[k])
    ensures SubjectOf(lines) == ""
  {
    if lines != [] {
      SubjectOfNone(lines[..|lines| - 1]);
    }
  }

  lemma {:induction false} NoSubjectLineMeansEmptySubject(content: string)
    requires forall k :: 0 <= k < |SplitLines(content)| ==> !IsSubjectLine(SplitLines(content)[k])
    ensures Parse(content).subject == ""
  {
    SubjectOfNone(SplitLines(content));
  }

  /** The subject is taken from the last line that starts with `BETREFF:`. */
  lemma {:induction false} SubjectIsFromLastSubjectLine(lines: seq<string>, k: nat)
    requires k < |lines| && IsSubjectLine(lines[k])
    requires forall j :: k < j < |lines| ==> !IsSubjectLine(lines[j])
    ensures SubjectOf(lines) == SubjectFrom(lines[k])
  {
    if k < |lines| - 1 {
      SubjectIsFromLastSubjectLine(lines[..|lines| - 1], k);
    }
  }

  /** Without a `TEXT:` line the body is empty. */
  lemma {:induction false} NoBodyStartMeansEmptyBody(content: string)
    requires forall k :: 0 <= k < |SplitLines(content)| ==> !IsBodyStart(SplitLines(content)[k])
    ensures Parse(content).body == ""
  {
    var lines := SplitLines(content);
    BodyStartUnique(lines, |lines|);
    assert BodyLines(lines) == [];
    assert Strip("") == "";
  }

  /** The body lines are exactly the unmarked lines after the first `TEXT:`
      line: nothing before it, and no marker line, ever reaches the body. */
  lemma {:induction false} BodyIsContentAfterFirstStart(before: seq<string>, start: string, after: seq<string>)
    requires forall k :: 0 <= k < |before| ==> !IsBodyStart(before[k])
    requires IsBodyStart(start)
    ensures BodyLines(before + [start] + after) == ContentLines(after)
  {
    var lines := before + [start] + after;
    BodyStartUnique(lines, |before|);
    assert lines[|before| + 1..] == after;
  }

  /** A `TEXT:` line after the first one only re-sets the flag and adds nothing. */
  lemma {:induction false} LaterBodyStartAddsNothing(a: seq<string>, line: string, b: seq<string>)
    requires HasBodyStart(a) && IsBodyStart(line)
    ensures BodyLines(a + [line] + b) == BodyLines(a + b)
  {
    var i := BodyStart(a);
    var tail := a[i + 1..];
    BodyLinesAfterStart(a, [line] + b);
    BodyLinesAfterStart(a, b);
    assert a + [line] + b == a + ([line] + b);
    ContentLinesSkipMarker(tail, line, b);
    assert tail + ([line] + b) == tail + [line] + b;
  }

  /** Once `a` holds a `TEXT:` line, what follows it in `a + c` is read in body mode. */
  lemma {:induction false} BodyLinesAfterStart(a: seq<string>, c: seq<string>)
    requires HasBodyStart(a)
    ensures BodyLines(a + c) == ContentLines(a[BodyStart(a) + 1..] + c)
  {
    var i := BodyStart(a);
    BodyStartUnique(a + c, i);
    assert (a + c)[i + 1..] == a[i + 1..] + c;
  }

  /** A marker line among the lines contributes nothing. */
  lemma {:induction false} ContentLinesSkipMarker(x: seq<string>, line: string, b: seq<string>)
    requires IsMarkerLine(line)
    ensures ContentLines(x + [line] + b) == ContentLines(x + b)
  {
    ContentLinesAppend(x + [line], b);
    ContentLinesAppend(x, [line]);
    ContentLinesAppend(x, b);
    assert ContentLines([line]) == [] + ContentLines([]);
  }

  /** Nothing is added: every collected line is one of the input lines. */
  lemma {:induction false} ContentLinesFromInput(lines: seq<string>)
    ensures forall k :: 0 <= k < |ContentLines(lines)| ==> ContentLines(lines)[k] in lines
  {
    if lines != [] {
      ContentLinesFromInput(lines[1..]);
      assert forall x :: x in lines[1..] ==> x in lines;
    }
  }

  /** Unmarked lines all pass through, in order. */
  lemma {:induction false} ContentLinesOfPlain(lines: seq<string>)
    requires forall k :: 0 <= k < |lines| ==> !IsMarkerLine(lines[k])
    ensures ContentLines(lines) == lines
  {
    if lines != [] {
      ContentLinesOfPlain(lines[1..]);
      assert [lines[0]] + lines[1..] == lines;
    }
  }

  /** A reply in exactly the format the prompt asks for:
      `BETREFF: <subject>`, a `TEXT:` line, then the body lines. */
  function Rendered(subject: string, bodyLines: seq<string>): string {
    JoinLines([SubjectMarker + " " + subject, BodyMarker] + bodyLines)
  }

  /** The subject line of a reply in the requested format. */
  lemma {:induction false} SubjectFromMarked(subject: string)
    requires IsTrimmed(subject) && !Contains(subject, SubjectMarker)
    ensures SubjectFrom(SubjectMarker + " " + subject) == subject
  {
    var rest := " " + subject;
    assert SubjectMarker + " " + subject == SubjectMarker + rest;
    RemoveAllPrefix(rest, SubjectMarker);
    forall i: nat | i <= |rest| && OccursAt(rest, SubjectMarker, i)
      ensures false
    {
      if i > 0 {
        assert rest[i..i + 8] == subject[i - 1..i - 1 + 8];
        assert OccursAt(subject, SubjectMarker, i - 1);
      }
    }
    RemoveAllAbsent(rest, SubjectMarker);
    assert rest == " " + subject + [];
    StripOf(" ", subject, []);
  }

  lemma {:induction false} RenderedLines(subject: string, bodyLines: seq<string>)
    requires NoBreak(subject)
    requires forall k :: 0 <= k < |bodyLines| ==> NoBreak(bodyLines[k])
    requires bodyLines == [] || bodyLines[|bodyLines| - 1] != ""
    ensures SplitLines(Rendered(subject, bodyLines)) == [SubjectMarker + " " + subject, BodyMarker] + bodyLines
  {
    var first := SubjectMarker + " " + subject;
    var lines := [first, BodyMarker] + bodyLines;
    assert forall k :: 0 <= k < |first| ==> first[k] == (if k < 9 then "BETREFF: "[k] else subject[k - 9]);
    assert NoBreak(first);
    assert NoBreak(BodyMarker);
    SplitLinesOfJoin(lines);
  }

  lemma {:induction false} RenderedSubject(subject: string, bodyLines: seq<string>)
    requires NoBreak(subject) && IsTrimmed(subject) && !Contains(subject, SubjectMarker)
    requires forall k :: 0 <= k < |bodyLines| ==> NoBreak(bodyLines[k]) && !IsMarkerLine(bodyLines[k])
    requires bodyLines == [] || bodyLines[|bodyLines| - 1] != ""
    ensures SubjectOf(SplitLines(Rendered(subject, bodyLines))) == subject
  {
    var lines := [SubjectMarker + " " + subject, BodyMarker] + bodyLines;
    RenderedLines(subject, bodyLines);
    assert BodyMarker[0] == 'T';
    SubjectIsFromLastSubjectLine(lines, 0);
    SubjectFromMarked(subject);
  }

  lemma {:induction false} RenderedBody(subject: string, bodyLines: seq<string>)
    requires NoBreak(subject)
    requires forall k :: 0 <= k < |bodyLines| ==> NoBreak(bodyLines[k]) && !IsMarkerLine(bodyLines[k])
    requires bodyLines == [] || bodyLines[|bodyLines| - 1] != ""
    requires IsTrimmed(JoinLines(bodyLines))
    ensures Strip(JoinLines(BodyLines(SplitLines(Rendered(subject, bodyLines))))) == JoinLines(bodyLines)
  {
    var first := SubjectMarker + " " + subject;
    var lines := [first, BodyMarker] + bodyLines;
    RenderedLines(subject, bodyLines);
    assert lines == [first] + [BodyMarker] + bodyLines;
    assert !IsBodyStart(first) by {
      assert first[0] == 'B';
    }
    BodyIsContentAfterFirstStart([first], BodyMarker, bodyLines);
    ContentLinesOfPlain(bodyLines);
    StripTrimmed(JoinLines(bodyLines));
  }

  /** A reply in the requested format is parsed back into its subject and body. */
  lemma {:induction false} ParseRendered(subject: string, bodyLines: seq<string>)
    requires NoBreak(subject) && IsTrimmed(subject) && !Contains(subject, SubjectMarker)
    requires forall k :: 0 <= k < |bodyLines| ==> NoBreak(bodyLines[k]) && !IsMarkerLine(bodyLines[k])
    requires bodyLines == [] || bodyLines[|bodyLines| - 1] != ""
    requires IsTrimmed(JoinLines(bodyLines))
    ensures Parse(Rendered(subject, bodyLines)) == Draft(subject, JoinLines(bodyLines))
  {
    RenderedSubject(subject, bodyLines);
    RenderedBody(subject, bodyLines);
  }

  /** A line that starts with neither `B` nor `T` carries no marker. */
  lemma UnmarkedByFirstChar(line: string)
    requires line != [] && line[0] != 'B' && line[0] != 'T'
    ensures !IsMarkerLine(line)
  {
    if |line| >= 5 {
      assert line[..5][0] == line[0];
    }
    if |line| >= 8 {
      assert line[..8][0] == line[0];
    }
  }

  lemma ExampleBody()
    ensures JoinLines(["Zeile1", "", "Zeile2"]) == "Zeile1\n\nZeile2"
    ensures IsTrimmed("Zeile1\n\nZeile2")
  {
    assert JoinLines(["Zeile2"]) == "Zeile2";
    assert JoinLines(["", "Zeile2"]) == "" + "\n" + "Zeile2";
    assert JoinLines(["Zeile1", "", "Zeile2"]) == "Zeile1" + "\n" + "\nZeile2";
    assert "Zeile1" + "\n" + "\nZeile2" == "Zeile1\n\nZeile2";
  }

  lemma ExampleRendered()
    ensures Rendered("Hallo", ["Zeile1", "", "Zeile2"]) == "BETREFF: Hallo\nTEXT:\nZeile1\n\nZeile2"
  {
    var bodyLines := ["Zeile1", "", "Zeile2"];
    ExampleBody();
    var all := ["BETREFF: Hallo", "TEXT:"] + bodyLines;
    assert SubjectMarker + " " + "Hallo" == "BETREFF: Hallo";
    assert all[1..] == ["TEXT:"] + bodyLines;
    assert all[1..][1..] == bodyLines;
    assert JoinLines(all[1..]) == "TEXT:" + "\n" + "Zeile1\n\nZeile2";
    assert JoinLines(all) == "BETREFF: Hallo" + "\n" + ("TEXT:" + "\n" + "Zeile1\n\nZeile2");
    assert "BETREFF: Hallo" + "\n" + ("TEXT:" + "\n" + "Zeile1\n\nZeile2") == "BETREFF: Hallo\nTEXT:\nZeile1\n\nZeile2";
  }

  lemma ExampleWellFormed()
    ensures NoBreak("Hallo") && IsTrimmed("Hallo") && !Contains("Hallo", SubjectMarker)
    ensures forall k :: 0 <= k < 3 ==> NoBreak(["Zeile1", "", "Zeile2"][k]) && !IsMarkerLine(["Zeile1", "", "Zeile2"][k])
  {
    UnmarkedByFirstChar("Zeile1");
    UnmarkedByFirstChar("Zeile2");
    assert !IsMarkerLine("");
  }

  /** The reply `BETREFF: Hallo / TEXT: / Zeile1 / (blank) / Zeile2`
      keeps its inner blank line. */
  lemma ParseExample()
    ensures Parse("BETREFF: Hallo\nTEXT:\nZeile1\n\nZeile2") == Draft("Hallo", "Zeile1\n\nZeile2")
  {
    var bodyLines := ["Zeile1", "", "Zeile2"];
    ExampleBody();
    ExampleRendered();
    ExampleWellFormed();
    ParseRendered("Hallo", bodyLines);
  }

  /** Only the last character of `BETREFF:` is a colon. */
  lemma ColonOnlyLast(k: nat)
    requires k < 7
    ensures SubjectMarker[k] != ':'
  {
  }

  /** `BETREFF:` cannot start inside `a` when `a` does not contain it: an
      occurrence that ran into the following marker would need a colon
      where the marker has a letter. */
  lemma NoMarkerBefore(a: string, b: string, i: nat)
    requires !Contains(a, SubjectMarker) && i < |a|
    ensures !OccursAt(a + SubjectMarker + b, SubjectMarker, i)
  {
    var p := SubjectMarker;
    var t := a + p + b;
    if OccursAt(t, p, i) {
      if i + |p| <= |a| {
        assert a[i..i + |p|] == t[i..i + |p|];
        assert OccursAt(a, p, i);
        assert false;
      } else {
        assert t[i + 7] == p[7] == ':';
        assert t[i + 7] == p[i + 7 - |a|];
        ColonOnlyLast(i + 7 - |a|);
        assert false;
      }
    }
  }

  /** Every `BETREFF:` in the subject line goes, not only the leading one:
      `BETREFF:<a>BETREFF:<b>` yields the stripped `<a><b>` for any `a`
      and `b` that do not themselves contain the marker. */
  lemma SubjectFromRemovesEveryMarker(a: string, b: string)
    requires !Contains(a, SubjectMarker) && !Contains(b, SubjectMarker)
    ensures SubjectFrom(SubjectMarker + a + SubjectMarker + b) == Strip(a + b)
  {
    var p := SubjectMarker;
    var t := a + p + b;
    assert p + a + p + b == p + t;
    RemoveAllPrefix(t, p);
    forall i: nat | i < |a| ensures !OccursAt(t, p, i) {
      NoMarkerBefore(a, b, i);
    }
    assert t[|a|..|a| + |p|] == p;
    RemoveAllFirstOccurrence(t, p, |a|);
    assert t[..|a|] == a && t[|a| + |p|..] == b;
    RemoveAllAbsent(b, p);
  }
}
