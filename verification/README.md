# Slang moderation service — verified model of its text logic

The service (`main.go`) is a small Fiber HTTP server. `GET /?input=...` asks
the Gemini model whether the input contains slang from a list kept in
`slang.txt`; when the model answers "flag" the server replies with an empty
body, otherwise it echoes the input. `POST /add?input=...` appends one entry
to `slang.txt`. A token-bucket limiter from `golang.org/x/time/rate` guards
`GET /`.

This project models the pure logic of that program in Dafny:

- `Text` — Go's `strings.ReplaceAll(s, "\r\n", "\n")` (`Normalize`),
  `strings.Split(s, "\n")` (`Split`) and the `Join` that undoes it.
- `SlangList` — the slang-list codec. `Decode` is the text part of
  `Decodefile`: normalise line endings, split on line feeds, drop trailing
  empty entries. `DecodeEntries` is the same with the source's popping loop.
  `Line`, `AddLine` and `Encode` give the format `Addtext` writes: each entry
  followed by a line feed. The lemmas prove both round trips, the
  empty-list condition, and what one `Addtext` does to the decoded list.
- `Moderation` — the reply decision of `GET /`: ASCII `ToLower`,
  `strings.Contains`, `Reply`, and `Verify` with the Gemini call replaced by
  its outcome.
- `Server` — the two handlers. The limiter's `Allow()` answer, the Gemini
  outcome and the slang file's contents are inputs.

The rate limiting is not written in this code: it calls
`rate.NewLimiter(2, 5)` and `limiter.Allow()` from an external library
(`main.go:20-31`, `main.go:61-66`). The model treats the limiter's decision
as an input.

## Model

| member | source | states |
|---|---|---|
| `Text.NormalizeCounts` | main.go:136 | Replacing "\r\n" by "\n" deletes exactly one character per "\r\n" pair, and it keeps the count of every character other than '\r' |
| `Text.NormalizeFixedIff` | main.go:136 | The replacement leaves the text unchanged if and only if the text has no "\r\n" pair |
| `Text.NormalizeAppend` | main.go:136 | The replacement works piecewise on a concatenation, unless the cut separates a '\r' from the '\n' after it |
| `Text.NormalizeAllLineFeedsIff` | main.go:136 | The replacement yields only line feeds if and only if the text is made only of "\n" and "\r\n" |
| `Text.NormalizeSinglePass` | main.go:136 | The replacement is one pass: "\r\r\n" becomes "\r\n", which still holds a pair, so it is not idempotent |
| `Text.Split` | main.go:138 | Splitting on "\n" always gives at least one piece ("" splits to [""]), and no piece holds a line feed |
| `Text.SplitCount` | main.go:138 | There is one piece more than there are line feeds in the text |
| `Text.JoinSplit` | main.go:138 | Joining the pieces with "\n" gives the text back, so no character is lost by splitting |
| `Text.SplitJoin` | main.go:138 | Splitting undoes joining for any non-empty list of pieces without line feeds, so split is a bijection onto such lists |
| `Text.SplitAfterLineFeed` | main.go:138 | Splitting `a + "\n" + b` gives the pieces of `a` followed by the pieces of `b` |
| `Text.SplitAllEmptyIff` | main.go:138 | Every piece is empty if and only if the text is nothing but line feeds |
| `SlangList.TrimTrailingEmpty` | main.go:140-142 | The result is a prefix of the list, every dropped entry is "", and a non-empty result does not end in "" |
| `SlangList.TrimUnique` | main.go:140-142 | Those three properties determine the trimmed list: any list with them equals it |
| `SlangList.DecodeShape` | main.go:134-144 | No decoded entry holds a line feed; a non-empty result ends in a non-empty entry; the result is a prefix of the split normalised text and only empty entries are dropped, so interior blank lines stay |
| `SlangList.DecodeEntries` | main.go:134-144 | The loop that pops empty strings off the end computes exactly `Decode`, and its entries hold no line feed |
| `SlangList.LoadSlangs` | main.go:127-144 | When the file cannot be opened `os.ReadFile` returns nil bytes, which read as "", and the slang list is empty; otherwise it is the decoded text, which after a read error part-way is the decoded partial contents (`Some(partial)`) |
| `SlangList.DecodeEmptyIff` | main.go:134-142 | Text decodes to the empty list if and only if it is empty or made only of "\n" and "\r\n" |
| `SlangList.NormalizeEncode` | main.go:154-155 | The text written for entries without line feeds and without a final '\r' contains no "\r\n" to rewrite |
| `SlangList.DecodeEncode` | main.go:134-155 | Decoding the lines written for such entries gives the entries back, less any empty entries at the end |
| `SlangList.DecodeEncodeRoundTrip` | main.go:134-155 | Round trip: such entries whose last entry is non-empty decode back exactly |
| `SlangList.EncodeDecodeRoundTrip` | main.go:134-155 | Reverse round trip: text with no "\r\n" that is empty or ends with one line feed after a non-empty last line is re-encoded exactly |
| `SlangList.TrailingCarriageReturnLost` | main.go:134-155 | An entry ending in '\r' does not survive: ["a\r"] is written as "a\r\n" and decodes to ["a"] |
| `SlangList.DecodeAfterAdd` | main.go:134-155 | Appending a non-empty storable entry to a file whose last line is terminated makes it the last decoded entry, keeps all earlier entries in place, and turns the old file's trailing blank lines into empty entries before it |
| `SlangList.AddToUnterminatedMerges` | main.go:147-155 | Appending to a non-empty file that ends in neither a line feed nor a carriage return glues the new entry onto its last decoded entry instead of adding one |
| `Moderation.Contains` | main.go:117 | Substring test: true if and only if the pattern occurs at some position of the text |
| `Moderation.LowerContainsFlagIff` | main.go:117 | The lower-cased response contains "flag" if and only if the response spells "flag" in some mix of letter cases ("FLAG", "Flag", ...) |
| `Moderation.Reply` | main.go:117-120 | The reply body is "" or the input; it is "" whenever the response mentions "flag" in any case, and the input otherwise |
| `Moderation.Verify` | main.go:163-187 | The call panics if and only if the first candidate has no content (a nil `Content` pointer is dereferenced); otherwise every error return has an empty response, and the call succeeds if and only if the first part of the first candidate is text, and then returns that text |
| `Server.HandleCheck` | main.go:59-120 | A request the limiter refuses gets 429 with the fixed message. An admitted one crashes the handler if and only if the first candidate has no content; otherwise it gets 200 with "" or the input. The body differs from the input only when the model answered text mentioning "flag", and such an answer always gives "" |
| `Server.FailOpen` | main.go:113-120 | Whenever `Verify` returns an error (as opposed to panicking on a candidate without content), the admitted request is answered 200 with its own input: the check fails open |
| `Server.HandleAdd` | main.go:53-58 | The reply is always 200 "Added to the list", also when the file cannot be opened; an opened file keeps its text and gains exactly the entry followed by one line feed; a terminated file ends, once decoded, with the new entry and keeps the earlier ones |

## Left out

- The rate limiter (`main.go:19-32`, `main.go:61-66`). It is `golang.org/x/time/rate`, an external library whose source is not part of this model. It uses floating-point rates and the wall clock, and the `sync.Mutex` around it is a concurrency concern. `Server.HandleCheck` takes its `Allow()` answer as a boolean input.
- File I/O: `os.ReadFile`, `os.OpenFile` in append mode, `WriteString` and the error printing (`main.go:128-132`, `main.go:148-159`). Only the text transformation and the string `Addtext` writes are modelled. A file that cannot be opened for reading is the `None` input of `SlangList.LoadSlangs` (nil bytes); a read that fails part-way is `Some` of the bytes read so far, and a failed open is the `None` input of `Server.HandleAdd`. A failed write after a successful open is not modelled.
- The Gemini client inside `Verify` (`main.go:164-176`). It is a network call into an SDK whose source is not part of this model. `Moderation.Verify` takes the client's outcome as input: client creation failed, generation failed, or a list of candidates, each of which may lack content.
- Prompt construction, `fmt.Sprint` of the slang list and the system instruction (`main.go:46`, `main.go:70-112`). This is string templating. Because of it the model's response is an unconstrained input.
- What an unrecovered panic in the `GET /` handler does beyond that request (`main.go:41-45` installs only CORS, no recover middleware). `Server.HandleCheck` answers `Crashed` for it; whether the whole server process stops is Go and Fiber runtime behaviour and is not modelled.
- Fiber routing, CORS, the `/html` page, `godotenv` and `app.Listen` (`main.go:35-51`, `main.go:124`). This is framework plumbing.
- Moderation.Reply: letter case is folded for ASCII only (`Moderation.ToLower`). `strings.ToLower` folds all of Unicode and works on UTF-8 bytes. The model would differ only for a non-ASCII character that lower-cases to one of f, l, a or g, and such characters are not considered.
- The slang list is decoded once at start-up (`main.go:46`), so entries added through `/add` reach the prompt only after a restart. The model does not track server state across requests.
