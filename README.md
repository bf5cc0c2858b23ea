# Bar application drafts: verified model of the deterministic core

`generate_emails.py` reads bar contacts from a semicolon-separated CSV file.
For every contact with an email address, it asks a chat-completion service
for a German application email. It writes each row to an output CSV with
two new columns, `subject` and `body`. This project models the three
deterministic pieces of that script in Dafny and proves what they promise.

- **The marker protocol** (`response.dfy`, module `ResponseParser`). The
  service's reply is split into lines.
  - A line starting with `BETREFF:` sets the subject. Every `BETREFF:` is
    removed from it, then it is stripped.
  - A line starting with `TEXT:` switches on body mode.
  - In body mode, every other line is collected.
  - The collected lines are joined with `\n` and stripped.

  `ParseResponse` is the imperative loop, with its `subject`, `in_body` and
  `body_lines` variables. It is proved equal to the specification function
  `Parse`, and the protocol's properties are lemmas about `Parse`.
- **Python string semantics** (`pytext.dfy`, module `PyText`). These are
  the library operations the parser relies on, written out:
  - `str.isspace` with Python's full whitespace set;
  - `strip`;
  - `startswith`;
  - `replace(p, "")` as a left-to-right removal of non-overlapping
    occurrences;
  - `splitlines` with Python's full line-boundary set, counting `\r\n` as
    one boundary and giving no trailing empty line;
  - `"\n".join`.
- **The fallbacks and `generate_email`** (`drafting.dfy`, module
  `Drafting`). A whitespace-only note becomes `eine Bar in Wien`, and a
  whitespace-only name becomes `eurer Bar`. Otherwise the stripped value is
  used. `GenerateEmail` takes what the service answered as an input. That
  answer is a message whose content may be missing, or an exception.
- **The row loop of `main`** (`batch.dfy`, module `Batch`).
  - A row is a `map<string, string>`.
  - A row whose `email` cell is missing or empty is written as read, with
    no call. A whitespace-only email is not empty, so that row is not
    skipped and does get a call.
  - Any other row gets one `generate_email(name, notiz)` call. On success
    the row gains `subject` and `body`; when the call raises, the row is
    written as read.
  - `ProcessRows` builds the output sequence and the list of calls it
    makes. So count, order, and which rows are called for can all be stated.

## Model

| member | source | states |
|---|---|---|
| ResponseParser.ParseResponse | generate_emails.py:59-71 | the loop's final `subject` and `body` are exactly `Parse(content)`: the subject of the last `BETREFF:` line and the stripped join of the body lines |
| ResponseParser.Parse | generate_emails.py:65-70 | the parsed subject and body never have leading or trailing whitespace |
| ResponseParser.SubjectFrom | generate_emails.py:65 | the subject taken from a subject line is stripped |
| ResponseParser.SubjectOf | generate_emails.py:60-65 | the subject after any prefix of the lines is stripped (that it is "" before the first subject line is `SubjectOfNone`) |
| ResponseParser.BodyStart | generate_emails.py:62-67 | gives the index of the first `TEXT:` line: no earlier line starts with `TEXT:`, and the line at the index does; it gives the line count when there is no such line |
| ResponseParser.ContentLines | generate_emails.py:64-69 | no line that starts with either marker is ever collected, and the result is no longer than the input |
| ResponseParser.BodyLines | generate_emails.py:61-69 | the final `body_lines`: empty without a `TEXT:` line, otherwise shorter than the input and free of marker lines; `BodyIsContentAfterFirstStart` determines it |
| ResponseParser.ParseEmpty | generate_emails.py:59-71 | an empty reply gives an empty subject and an empty body |
| ResponseParser.NoSubjectLineMeansEmptySubject | generate_emails.py:60-65 | if no line of the content starts with `BETREFF:`, the subject is "" |
| ResponseParser.SubjectOfNone | generate_emails.py:60-65 | over lines with no subject line, the subject stays at its initial "" |
| ResponseParser.SubjectIsFromLastSubjectLine | generate_emails.py:63-65 | the subject is the one carried by the last line that starts with `BETREFF:`; earlier subject lines are overwritten |
| ResponseParser.NoMarkerBefore | generate_emails.py:65 | `BETREFF:` cannot start inside text that does not contain it and runs into a following `BETREFF:`, so `replace` meets the second marker where it stands |
| ResponseParser.SubjectFromRemovesEveryMarker | generate_emails.py:65 | every `BETREFF:` in the subject line is removed, not only the leading one: `BETREFF:<a>BETREFF:<b>` gives the stripped `<a><b>` for any `<a>` and `<b>` that do not themselves contain `BETREFF:` |
| ResponseParser.NoBodyStartMeansEmptyBody | generate_emails.py:62-70 | if no line of the content starts with `TEXT:`, the body is "" |
| ResponseParser.BodyIsContentAfterFirstStart | generate_emails.py:63-69 | the body lines are exactly the lines after the first `TEXT:` line that start with neither marker, in order; nothing before the first `TEXT:` line reaches the body |
| ResponseParser.LaterBodyStartAddsNothing | generate_emails.py:66-67 | once body mode is on, a further `TEXT:` line only sets the flag again and adds nothing to the body |
| ResponseParser.ContentLinesFromInput | generate_emails.py:68-69 | every collected line is one of the input lines: nothing is added |
| ResponseParser.ContentLinesOfPlain | generate_emails.py:68-69 | in body mode every unmarked line is collected unchanged and in order, blank lines included |
| ResponseParser.MarkersExclusive | generate_emails.py:64-66 | no line starts with both `BETREFF:` and `TEXT:`, so the order of the `if`/`elif` tests does not matter |
| ResponseParser.ParseRendered | generate_emails.py:42-46 | a reply in exactly the format the prompt asks for (`BETREFF: <subject>`, a `TEXT:` line, then the body lines) is parsed back into that subject and body |
| ResponseParser.ParseExample | generate_emails.py:59-71 | `BETREFF: Hallo\nTEXT:\nZeile1\n\nZeile2` parses to subject `Hallo` and body `Zeile1\n\nZeile2`, keeping the inner blank line |
| PyText.Strip | generate_emails.py:15-16 | the result is trimmed, and it is the input with only whitespace cut off at the two ends |
| PyText.StripOf | generate_emails.py:65 | `strip()` returns the trimmed middle part, whatever whitespace surrounds it |
| PyText.StripTrimmed | generate_emails.py:70 | `strip()` leaves an already trimmed string alone |
| PyText.StripEmptyIff | generate_emails.py:15-16 | `s.strip()` is empty exactly when `s` is whitespace only, in both directions |
| PyText.StartsWith | generate_emails.py:64-66 | `s.startswith(p)` holds exactly when `p` is no longer than `s` and agrees with it character by character |
| PyText.RemoveAll | generate_emails.py:65 | `replace(p, "")` never lengthens the text; `RemoveAllAbsent` and `RemoveAllFirstOccurrence` determine it |
| PyText.RemoveAllAbsent | generate_emails.py:65 | `replace(p, "")` leaves a string that does not contain `p` unchanged |
| PyText.RemoveAllFirstOccurrence | generate_emails.py:65 | `replace(p, "")` keeps everything before the first occurrence of `p`, drops that occurrence, and carries on right after it |
| PyText.FirstBreak | generate_emails.py:63 | gives the position of the first line boundary, with no boundary before it |
| PyText.SplitLines | generate_emails.py:63 | no produced line contains a line boundary; the result is empty exactly when the content is empty |
| PyText.SplitLinesOfOneLine | generate_emails.py:63 | a non-empty text with no line boundary is a single line |
| PyText.SplitLinesAtBreak | generate_emails.py:63 | any boundary character, other than a `\r` directly followed by `\n`, ends the first line, and the rest is split on its own; a final boundary therefore adds no empty line |
| PyText.SplitLinesAtCrLf | generate_emails.py:63 | `\r\n` is one boundary: it ends the first line with no empty line between `\r` and `\n` |
| PyText.JoinLines | generate_emails.py:70 | `"\n".join(lines)` starts with the first line, followed by a `\n` when there is more than one line; `SplitLinesOfJoin` is its inverse |
| PyText.SplitLinesOfJoin | generate_emails.py:63 | `splitlines` undoes `"\n".join` on break-free lines whose last line is non-empty |
| Drafting.NoteForPrompt | generate_emails.py:15 | a whitespace-only note becomes `eine Bar in Wien`; otherwise the stripped note is used; the result is never empty and is trimmed |
| Drafting.NameForPrompt | generate_emails.py:16 | a whitespace-only name becomes `eurer Bar`; otherwise the stripped name is used; the result is never empty and is trimmed |
| Drafting.StrippedOr | generate_emails.py:15-16 | `value.strip() or fallback`: the fallback exactly when the value is whitespace only, else the non-empty stripped value |
| Drafting.DraftOf | generate_emails.py:59 | the draft read from `content or ""`: subject and body are trimmed, and missing content gives an empty subject and body |
| Drafting.NormalisationIdempotent | generate_emails.py:15-16 | normalising a name or note that is already normalised changes nothing |
| Drafting.GenerateEmail | generate_emails.py:13-71 | the prompt carries the normalised name and note; the outcome fails exactly when the service raises; otherwise the draft is the parse of the content, with missing content read as "" |
| Batch.Get | generate_emails.py:83-85 | `row.get(key, "")`: the cell's value when the column is present; a non-empty result always comes from the row |
| Batch.HasEmail | generate_emails.py:87 | `not email` is false exactly when the `email` column is present and its cell is non-empty |
| Batch.WrittenRow | generate_emails.py:87-101 | the row handed to `writerow`: it keeps every column it was read with, and the value of every column other than `subject` and `body`; it gains at most those two columns, whose values a draft overwrites; `WrittenRowFields` gives the cases |
| Batch.CallsFor | generate_emails.py:82-94 | the calls to `generate_email`: no more calls than rows, each for a row that exists, in strictly increasing row order and so at most one per row; the three `Calls…` lemmas below characterise it |
| Batch.WrittenRowFields | generate_emails.py:87-101 | a row without an email, or whose generation raised, is written as read; otherwise it gains exactly `subject` and `body` with the drafted values, and every other column keeps its value |
| Batch.HandleRow | generate_emails.py:83-101 | generation is attempted exactly when the `email` cell is present and non-empty, and the written row is the one described by `WrittenRow` |
| Batch.ProcessRows | generate_emails.py:82-101 | one output row per input row in input order, each the written form of its input row; the calls made are exactly `CallsFor(rows)` |
| Batch.CallsOnlyForRowsWithEmail | generate_emails.py:83-94 | every call is for a row that has an email, and it passes that row's `name` and `notiz` cells, "" when absent |
| Batch.CallsInRowOrder | generate_emails.py:82-94 | calls are made in row order, at most one per row |
| Batch.CallForEveryRowWithEmail | generate_emails.py:84-94 | every row that has an email gets a call |
| Batch.WrittenRowsFromReplies | generate_emails.py:59-101 | when each row's outcome is what `GenerateEmail` gives for that row's reply, a row whose call raised is written as read, and a row with an email that got a reply gains the subject and body parsed from the reply's content |
| Batch.WrittenRowOfRenderedReply | generate_emails.py:59-96 | a row with an email whose reply is in the requested format is written with exactly that subject and body |
| Batch.WrittenRowOfEmptyReply | generate_emails.py:59-96 | a reply with no content gives the row an empty `subject` and `body` |

## Left out

- The chat-completion call (generate_emails.py:5,8,49-57) is a network call. Its answer is an input: a message with optional content, or an exception (`Completion` in `Drafting`). The row loop receives, for each row, what `generate_email` gives: a draft, or the exception it raised. It ignores that outcome for rows without an email. `Batch.WrittenRowsFromReplies` connects these outcomes to the service's replies through `GenerateEmail`'s contract.
- The prompt text (generate_emails.py:18-47) is fixed string interpolation. `Prompt` keeps only the two values placed into it.
- Opening files, `csv.DictReader`/`DictWriter` quoting and encoding, and `writeheader` (generate_emails.py:74-80) are I/O. Both files are opened as UTF-8. The model returns the rows in the order they are written.
- `csv.DictReader` puts `None` into the missing cells of a short row. `row.get` then returns `None` rather than "". Rows here are `map<string, string>`, so that case is not represented.
- The `print` calls and `time.sleep(1)` (generate_emails.py:88,92,98,100,103) are console output and timing only.
- `load_dotenv` and the API key read from the environment (generate_emails.py:4,7-8) are configuration.
- A data row with more cells than the header is not represented. `csv.DictReader` (generate_emails.py:77) stores the extra cells under the key `None`. `writerow` (generate_emails.py:89,97,101) then raises `ValueError` and ends the run, so for such a file there is not one output row per input row. A trailing `;` on a data row is enough. Rows here are `map<string, string>`, so `ProcessRows` assumes every row is writable.
- An exception raised inside the parsing code itself cannot happen for a string content, so only the service's exception is modelled.
