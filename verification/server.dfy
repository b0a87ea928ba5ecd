/** The two routes of the HTTP server whose behaviour depends on the modelled
    logic: `GET /` (check an input for slang) and `POST /add` (append to the
    slang list). The rate limiter's decision, the Gemini call and the file
    system are inputs of the model. */
module Server {
  import opened Wrappers
  import opened Moderation
  import opened SlangList

  const StatusOK: int := 200
  const StatusTooManyRequests: int := 429
  const TooManyRequestsBody: string := "Too many requests. Please try again later."
  const AddedBody: string := "Added to the list"

  datatype HttpReply = HttpReply(status: int, body: string)

  /** How the server deals with one request: it sends a reply, or the handler
      panics. No recover middleware is installed, so the panic is not turned
      into a reply. */
  datatype Handled = Served(reply: HttpReply) | Crashed

  /** `GET /?input=...`. `allowed` is what `limiter.Allow()` answered and
      `outcome` what the Gemini client produced. A rejected request gets 429.
      An admitted one crashes the handler when the first candidate has no
      content, and otherwise gets 200 with either the input or an empty body;
      the body differs from the input only when the model actually answered
      with text that mentions "flag": every error returned by `Verify` echoes
      the input (fail open). */
  function HandleCheck(allowed: bool, input: string, outcome: ModelOutcome): (r: Handled)
    ensures !allowed ==> r == Served(HttpReply(StatusTooManyRequests, TooManyRequestsBody))
    ensures allowed ==> (r.Crashed? <==> ReadsNilContent(outcome))
    ensures allowed && r.Served? ==>
      r.reply.status == StatusOK && (r.reply.body == "" || r.reply.body == input)
    ensures allowed && r.Served? && r.reply.body != input ==>
      HasTextAnswer(outcome) && MentionsFlag(outcome.candidates[0].parts[0].text)
    ensures allowed && HasTextAnswer(outcome) && MentionsFlag(outcome.candidates[0].parts[0].text) ==>
      r == Served(HttpReply(StatusOK, ""))
  {
    if !allowed then
      Served(HttpReply(StatusTooManyRequests, TooManyRequestsBody))
    else
      match Verify(outcome)
      case Panicked => Crashed
      case Returned(response, _) => Served(HttpReply(StatusOK, Reply(response, input)))
  }

  /** Fail open: whenever `Verify` returns an error, an admitted request is
      answered with its own input. */
  lemma FailOpen(input: string, outcome: ModelOutcome)
    requires Verify(outcome).Returned? && Verify(outcome).err.Some?
    ensures HandleCheck(true, input, outcome) == Served(HttpReply(StatusOK, input))
  {
    assert !MentionsFlag("");
  }

  /** The result of `POST /add`: the slang file afterwards (None when it
      cannot be opened for appending) and the reply. */
  datatype AddResult = AddResult(file: Option<string>, reply: HttpReply)

  /** `POST /add?input=...`. `file` is the slang file's text, or None when
      `os.OpenFile` fails (it is opened without O_CREATE, so a missing file
      fails). The handler ignores the error of `Addtext` and always reports
      success. */
  function HandleAdd(file: Option<string>, input: string): (r: AddResult)
    ensures r.reply == HttpReply(StatusOK, AddedBody)
    ensures file.None? ==> r.file.None?
    ensures file.Some? ==>
      && r.file.Some? && |file.value| <= |r.file.value|
      && r.file.value[..|file.value|] == file.value
      && r.file.value[|file.value|..] == input + "\n"
    ensures file.Some? && Terminated(file.value) && Storable(input) && input != "" ==>
      AddedLast(Decode(file.value), Decode(r.file.value), input)
  {
    match file
    case None => AddResult(None, HttpReply(StatusOK, AddedBody))
    case Some(text) =>
      var r := AddResult(Some(AddLine(text, input)), HttpReply(StatusOK, AddedBody));
      if Terminated(text) && Storable(input) && input != "" then
        DecodeAfterAdd(text, input);
        r
      else
        r
  }

  /** The file is empty or its last line ends with a line feed. */
  predicate Terminated(text: string)
  {
    |text| == 0 || text[|text| - 1] == '\n'
  }

  /** `after` is `before` with `input` as a new last entry, possibly after
      some empty entries. */
  predicate AddedLast(before: seq<string>, after: seq<string>, input: string)
  {
    |after| > 0 && after[|after| - 1] == input && before <= after
  }
}
