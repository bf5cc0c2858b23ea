/** `generate_email`: normalise the bar's name and note, ask the text
    service for a draft, and read subject and body out of its reply.
    The service itself is not modelled: what it answers is an input. */
module Drafting {
  import opened PyText
  import opened ResponseParser

  datatype Option<T> = None | Some(value: T)

  /** What the chat-completion call came back with: a message whose
      content may be missing, or an exception. */
  datatype Completion = Reply(content: Option<string>) | Raised

  /** The bar name and note as they are put into the prompt. */
  datatype Prompt = Prompt(barName: string, barNote: string)

  datatype Outcome = Drafted(draft: Draft) | Failed

  const NoteFallback: string := "eine Bar in Wien"
  const NameFallback: string := "eurer Bar"

  lemma FallbacksTrimmed()
    ensures NoteFallback != [] && IsTrimmed(NoteFallback)
    ensures NameFallback != [] && IsTrimmed(NameFallback)
  {
    assert NoteFallback[0] == 'e' && NoteFallback[|NoteFallback| - 1] == 'n';
    assert NameFallback[0] == 'e' && NameFallback[|NameFallback| - 1] == 'r';
  }

  /** Python's `value.strip() or fallback`. */
  function StrippedOr(value: string, fallback: string): (r: string)
    ensures AllSpace(value) ==> r == fallback
    ensures !AllSpace(value) ==> r == Strip(value) && r != []
  {
    StripEmptyIff(value);
    if Strip(value) == [] then fallback else Strip(value)
  }

  /** The note put into the prompt: the trimmed note, or the fallback
      phrase when the note is whitespace only. */
  function NoteForPrompt(note: string): (r: string)
    ensures r != [] && IsTrimmed(r)
    ensures AllSpace(note) ==> r == NoteFallback
    ensures !AllSpace(note) ==> r == Strip(note)
  {
    FallbacksTrimmed();
    StrippedOr(note, NoteFallback)
  }

  /** The bar name put into the prompt: the trimmed name, or the fallback
      phrase when the name is whitespace only. */
  function NameForPrompt(name: string): (r: string)
    ensures r != [] && IsTrimmed(r)
    ensures AllSpace(name) ==> r == NameFallback
    ensures !AllSpace(name) ==> r == Strip(name)
  {
    FallbacksTrimmed();
    StrippedOr(name, NameFallback)
  }

  /** The draft read out of `completion.choices[0].message.content or ""`. */
  function DraftOf(content: Option<string>): (d: Draft)
    ensures IsTrimmed(d.subject) && IsTrimmed(d.body)
    ensures content.None? ==> d == Draft("", "")
  {
    match content
    case Some(text) => Parse(text)
    case None => ParseEmpty(); Parse("")
  }

  /** Normalising twice changes nothing more. */
  lemma NormalisationIdempotent(name: string, note: string)
    ensures NameForPrompt(NameForPrompt(name)) == NameForPrompt(name)
    ensures NoteForPrompt(NoteForPrompt(note)) == NoteForPrompt(note)
  {
    var n := NameForPrompt(name);
    var m := NoteForPrompt(note);
    StripTrimmed(n);
    StripTrimmed(m);
    StripEmptyIff(n);
    StripEmptyIff(m);
  }

  /** Builds the prompt (always), then turns the service's reply into a
      draft; an exception from the service becomes Failed. */
  method GenerateEmail(name: string, note: string, reply: Completion) returns (prompt: Prompt, outcome: Outcome)
    ensures prompt == Prompt(NameForPrompt(name), NoteForPrompt(note))
    ensures reply.Raised? <==> outcome.Failed?
    ensures reply.Reply? ==> outcome == Drafted(DraftOf(reply.content))
  {
    prompt := Prompt(NameForPrompt(name), NoteForPrompt(note));
    match reply
    case Raised =>
      outcome := Failed;
    case Reply(content) =>
      var text := if content.Some? then content.value else "";
      var subject, body := ParseResponse(text);
      outcome := Drafted(Draft(subject, body));
  }
}
