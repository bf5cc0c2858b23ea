/** The row loop of `main`: every input row is written once, in input
    order; rows with an email get a generated subject and body when the
    text service answers, all other rows are written as read. */
module Batch {
  import opened PyText
  import opened ResponseParser
  import opened Drafting

  /** One row as `csv.DictReader` yields it: column name to cell text. */
  type Row = map<string, string>

  /** `row.get(key, "")` */
  function Get(row: Row, key: string): (r: string)
    ensures r != "" ==> key in row && r == row[key]
    ensures key in row ==> r == row[key]
  {
    if key in row then row[key] else ""
  }

  /** `not email` is false: the email cell is present and non-empty.
      A whitespace-only email still counts as an email. */
  predicate HasEmail(row: Row): (b: bool)
    ensures b <==> "email" in row && row["email"] != ""
  {
    Get(row, "email") != ""
  }

  /** A call `generate_email(name, note)` made for the row at index `row`. */
  datatype Call = Call(row: nat, name: string, note: string)

  /** The row as it is written, given what `generate_email` did for it. */
  function WrittenRow(row: Row, outcome: Outcome): (w: Row)
    ensures row.Keys <= w.Keys <= row.Keys + {"subject", "body"}
    ensures forall k :: k in row && k != "subject" && k != "body" ==> w[k] == row[k]
  {
    if !HasEmail(row) then row
    else
      match outcome
      case Failed => row
      case Drafted(d) => row["subject" := d.subject]["body" := d.body]
  }

  /** A row without an email, or whose generation raised, is written as
      read; otherwise it gains exactly `subject` and `body` and every other
      column keeps its value. */
  lemma WrittenRowFields(row: Row, outcome: Outcome)
    ensures !HasEmail(row) || outcome.Failed? ==> WrittenRow(row, outcome) == row
    ensures HasEmail(row) && outcome.Drafted? ==>
      var w := WrittenRow(row, outcome);
      w.Keys == row.Keys + {"subject", "body"}
      && w["subject"] == outcome.draft.subject && w["body"] == outcome.draft.body
      && forall k :: k in row && k != "subject" && k != "body" ==> w[k] == row[k]
  {
  }

  /** The calls to `generate_email` the loop makes for `rows`: one per row
      with an email, in row order. */
  function CallsFor(rows: seq<Row>): (calls: seq<Call>)
    ensures |calls| <= |rows|
    ensures forall k :: 0 <= k < |calls| ==> calls[k].row < |rows|
    ensures forall k, l :: 0 <= k < l < |calls| ==> calls[k].row < calls[l].row
  {
    if rows == [] then []
    else
      var last := |rows| - 1;
      CallsFor(rows[..last])
      + (if HasEmail(rows[last]) then [Call(last, Get(rows[last], "name"), Get(rows[last], "notiz"))] else [])
  }

  /** Every call is for a row that has an email, with that row's `name`
      and `notiz` cells. */
  lemma {:induction false} CallsOnlyForRowsWithEmail(rows: seq<Row>)
    ensures forall k :: 0 <= k < |CallsFor(rows)| ==>
      var c := CallsFor(rows)[k];
      c.row < |rows| && HasEmail(rows[c.row])
      && c.name == Get(rows[c.row], "name") && c.note == Get(rows[c.row], "notiz")
  {
    if rows != [] {
      var last := |rows| - 1;
      CallsOnlyForRowsWithEmail(rows[..last]);
      assert forall j :: 0 <= j < last ==> rows[j] == rows[..last][j];
    }
  }

  /** Calls are made in input order, at most once per row. */
  lemma {:induction false} CallsInRowOrder(rows: seq<Row>)
    ensures forall k, l :: 0 <= k < l < |CallsFor(rows)| ==> CallsFor(rows)[k].row < CallsFor(rows)[l].row
  {
    if rows != [] {
      var last := |rows| - 1;
      CallsInRowOrder(rows[..last]);
    }
  }

  /** Some call in `calls` is for the row at index `i`. */
  predicate CallMadeFor(calls: seq<Call>, i: nat) {
    exists k :: 0 <= k < |calls| && calls[k].row == i
  }

  /** Every row that has an email gets a call. */
  lemma {:induction false} CallForEveryRowWithEmail(rows: seq<Row>)
    ensures forall i: nat :: i < |rows| && HasEmail(rows[i]) ==> CallMadeFor(CallsFor(rows), i)
  {
    if rows != [] {
      var last := |rows| - 1;
      var front := rows[..last];
      CallForEveryRowWithEmail(front);
      var before := CallsFor(front);
      var calls := CallsFor(rows);
      assert calls == before + (if HasEmail(rows[last]) then [Call(last, Get(rows[last], "name"), Get(rows[last], "notiz"))] else []);
      forall i: nat | i < |rows| && HasEmail(rows[i])
        ensures CallMadeFor(calls, i)
      {
        if i == last {
          assert calls[|before|].row == i;
        } else {
          assert front[i] == rows[i];
          assert CallMadeFor(before, i);
          var k :| 0 <= k < |before| && before[k].row == i;
          assert calls[k] == before[k];
        }
      }
    }
  }

  /** The loop over the reader's rows. `outcomes[i]` is what
      `generate_email` gives (a draft, or an exception) if it is called for
      row `i`; `calls` lists the calls the loop makes. */
  method ProcessRows(rows: seq<Row>, outcomes: seq<Outcome>) returns (written: seq<Row>, calls: seq<Call>)
    requires |outcomes| == |rows|
    ensures |written| == |rows|
    ensures forall i :: 0 <= i < |rows| ==> written[i] == WrittenRow(rows[i], outcomes[i])
    ensures calls == CallsFor(rows)
  {
    written := [];
    calls := [];
    for i := 0 to |rows|
      invariant |written| == i
      invariant forall j :: 0 <= j < i ==> written[j] == WrittenRow(rows[j], outcomes[j])
      invariant calls == CallsFor(rows[..i])
    {
      var row, called := HandleRow(rows[i], outcomes[i]);
      if called {
        calls := calls + [Call(i, Get(rows[i], "name"), Get(rows[i], "notiz"))];
      }
      assert rows[..i + 1][..i] == rows[..i];
      written := written + [row];
    }
    assert rows[..|rows|] == rows;
  }

  /** One pass of the loop body: skip a row without an email; otherwise
      call `generate_email` and, when it returns, set `subject` and `body`. */
  method HandleRow(row: Row, outcome: Outcome) returns (w: Row, called: bool)
    ensures called == HasEmail(row)
    ensures w == WrittenRow(row, outcome)
  {
    w := row;
    var email := Get(row, "email");
    called := email != "";
    if called {
      match outcome
      case Drafted(d) =>
        w := w["subject" := d.subject]["body" := d.body];
      case Failed =>
    }
  }

  /** Ties the loop to what the service answered: when each outcome is the
      one `GenerateEmail` gives for that row's reply, a row with an email
      whose call raised is written as read, and one that got a reply gains
      the subject and body parsed from that reply's content. */
  lemma WrittenRowsFromReplies(rows: seq<Row>, replies: seq<Completion>, outcomes: seq<Outcome>)
    requires |replies| == |rows| && |outcomes| == |rows|
    requires forall i :: 0 <= i < |rows| ==>
      (replies[i].Raised? <==> outcomes[i].Failed?)
      && (replies[i].Reply? ==> outcomes[i] == Drafted(DraftOf(replies[i].content)))
    ensures forall i :: 0 <= i < |rows| && replies[i].Raised? ==>
      WrittenRow(rows[i], outcomes[i]) == rows[i]
    ensures forall i :: 0 <= i < |rows| && HasEmail(rows[i]) && replies[i].Reply? ==>
      WrittenRow(rows[i], outcomes[i])
        == rows[i]["subject" := DraftOf(replies[i].content).subject]["body" := DraftOf(replies[i].content).body]
  {
    forall i | 0 <= i < |rows| && HasEmail(rows[i]) && replies[i].Reply?
      ensures WrittenRow(rows[i], outcomes[i])
        == rows[i]["subject" := DraftOf(replies[i].content).subject]["body" := DraftOf(replies[i].content).body]
    {
      WrittenRowOfDraft(rows[i], DraftOf(replies[i].content));
    }
  }

  /** A row with an email whose reply is in the requested format is
      written with exactly that subject and body. */
  lemma {:induction false} WrittenRowOfRenderedReply(row: Row, subject: string, bodyLines: seq<string>)
    requires HasEmail(row)
    requires NoBreak(subject) && IsTrimmed(subject) && !Contains(subject, SubjectMarker)
    requires forall k :: 0 <= k < |bodyLines| ==> NoBreak(bodyLines[k]) && !IsMarkerLine(bodyLines[k])
    requires bodyLines == [] || bodyLines[|bodyLines| - 1] != ""
    requires IsTrimmed(JoinLines(bodyLines))
    ensures WrittenRow(row, Drafted(DraftOf(Some(Rendered(subject, bodyLines)))))
      == row["subject" := subject]["body" := JoinLines(bodyLines)]
  {
    var text := Rendered(subject, bodyLines);
    ParseRendered(subject, bodyLines);
    assert DraftOf(Some(text)) == Draft(subject, JoinLines(bodyLines));
    WrittenRowOfDraft(row, Draft(subject, JoinLines(bodyLines)));
  }

  lemma WrittenRowOfDraft(row: Row, d: Draft)
    requires HasEmail(row)
    ensures WrittenRow(row, Drafted(d)) == row["subject" := d.subject]["body" := d.body]
  {
  }

  /** A reply without content gives a row with an empty subject and body. */
  lemma {:induction false} WrittenRowOfEmptyReply(row: Row)
    requires HasEmail(row)
    ensures WrittenRow(row, Drafted(DraftOf(None))) == row["subject" := ""]["body" := ""]
  {
    WrittenRowOfDraft(row, Draft("", ""));
  }
}
