/** The moderation decision of the `/` handler: the language model answers
    "flag" when the input holds slang, and the handler then replies with an
    empty body instead of echoing the input. */
module Moderation {
  import opened Wrappers

  /** `unicode.ToLower` restricted to ASCII: upper-case Latin letters map to
      their lower-case forms, every other character is unchanged. */
  function ToLowerChar(c: char): char
  {
    if 'A' <= c <= 'Z' then (c as int + 32) as char else c
  }

  /** `strings.ToLower` with ASCII case mapping, character by character. */
  function ToLower(s: string): string
  {
    seq(|s|, k requires 0 <= k < |s| => ToLowerChar(s[k]))
  }

  /** `sub` occurs in `s` starting at index `i`. */
  predicate OccursAt(s: string, sub: string, i: int)
  {
    0 <= i && i + |sub| <= |s| && s[i..i + |sub|] == sub
  }

  /** `strings.Contains(s, sub)`: try every starting position in turn. */
  function Contains(s: string, sub: string): (r: bool)
    ensures r <==> exists i :: OccursAt(s, sub, i)
    decreases |s|
  {
    if |sub| <= |s| && s[..|sub|] == sub then
      assert OccursAt(s, sub, 0);
      true
    else if |s| == 0 then
      assert forall i :: OccursAt(s, sub, i) ==> i == 0;
      false
    else
      var r := Contains(s[1..], sub);
      assert forall i :: OccursAt(s[1..], sub, i) ==> OccursAt(s, sub, i + 1) by {
        forall i | OccursAt(s[1..], sub, i) ensures OccursAt(s, sub, i + 1) {
          assert s[1..][i..i + |sub|] == s[i + 1..i + 1 + |sub|];
        }
      }
      assert forall i :: OccursAt(s, sub, i) ==> i == 0 || OccursAt(s[1..], sub, i - 1) by {
        forall i | OccursAt(s, sub, i) && i != 0 ensures OccursAt(s[1..], sub, i - 1) {
          assert s[1..][i - 1..i - 1 + |sub|] == s[i..i + |sub|];
        }
      }
      r
  }

  /** The word "flag" in any mix of upper and lower case starts at index `i`. */
  predicate FlagAt(s: string, i: int)
  {
    && 0 <= i && i + 4 <= |s|
    && (s[i] == 'f' || s[i] == 'F')
    && (s[i + 1] == 'l' || s[i + 1] == 'L')
    && (s[i + 2] == 'a' || s[i + 2] == 'A')
    && (s[i + 3] == 'g' || s[i + 3] == 'G')
  }

  /** The response mentions "flag", whatever the letter case. */
  predicate MentionsFlag(response: string)
  {
    exists i | 0 <= i < |response| :: FlagAt(response, i)
  }

  /** `strings.Contains(strings.ToLower(response), "flag")` holds exactly
      when the response spells "flag" in any letter case. */
  lemma LowerContainsFlagIff(response: string)
    ensures Contains(ToLower(response), "flag") <==> MentionsFlag(response)
  {
    var low := ToLower(response);
    if MentionsFlag(response) {
      var i :| 0 <= i < |response| && FlagAt(response, i);
      LowerFlagAt(response, i);
    }
    if Contains(low, "flag") {
      var i :| OccursAt(low, "flag", i);
      LowerFlagAt(response, i);
    }
  }

  /** At one position: the lower-cased text reads "flag" exactly when the
      original spells it in some letter case. */
  lemma LowerFlagAt(response: string, i: int)
    requires 0 <= i && i + 4 <= |response|
    ensures OccursAt(ToLower(response), "flag", i) <==> FlagAt(response, i)
  {
    var w := ToLower(response)[i..i + 4];
    var a, b, c, d := response[i], response[i + 1], response[i + 2], response[i + 3];
    assert w[0] == ToLowerChar(a) && w[1] == ToLowerChar(b);
    assert w[2] == ToLowerChar(c) && w[3] == ToLowerChar(d);
    FourLetters(w, [ToLowerChar(a), ToLowerChar(b), ToLowerChar(c), ToLowerChar(d)]);
    LowerWordIsFlag(a, b, c, d);
  }

  /** Two four-character strings are equal when their characters are. */
  lemma FourLetters(w: string, v: string)
    requires |w| == 4 && |v| == 4
    requires w[0] == v[0] && w[1] == v[1] && w[2] == v[2] && w[3] == v[3]
    ensures w == v
  {
    assert forall k :: 0 <= k < 4 ==> w[k] == v[k];
  }

  /** Four characters lower-case to "flag" exactly when they spell it in some
      letter case. */
  lemma LowerWordIsFlag(a: char, b: char, c: char, d: char)
    ensures [ToLowerChar(a), ToLowerChar(b), ToLowerChar(c), ToLowerChar(d)] == "flag"
        <==> (a == 'f' || a == 'F') && (b == 'l' || b == 'L') && (c == 'a' || c == 'A') && (d == 'g' || d == 'G')
  {
    LowerCharIs(a, 'f', 'F');
    LowerCharIs(b, 'l', 'L');
    LowerCharIs(c, 'a', 'A');
    LowerCharIs(d, 'g', 'G');
  }

  /** Exactly two characters lower-case to a given ASCII letter: itself and
      its upper-case form. */
  lemma LowerCharIs(c: char, lower: char, upper: char)
    requires 'a' <= lower <= 'z' && upper as int == lower as int - 32
    ensures ToLowerChar(c) == lower <==> c == lower || c == upper
  {
  }

  /** The body of the `/` reply once the model has answered: empty when the
      answer mentions "flag" in any case, otherwise the input unchanged. */
  function Reply(response: string, input: string): (r: string)
    ensures r == "" || r == input
    ensures MentionsFlag(response) ==> r == ""
    ensures !MentionsFlag(response) ==> r == input
  {
    LowerContainsFlagIff(response);
    if Contains(ToLower(response), "flag") then "" else input
  }

  /** One part of a candidate answer: text, or any other kind of content. */
  datatype Part = TextPart(text: string) | OtherPart

  /** One candidate answer: its content's parts, or `NoContent` when the
      candidate's `Content` pointer is nil. */
  datatype Candidate = Candidate(parts: seq<Part>) | NoContent

  /** What the Gemini client produced: the client could not be created,
      content generation failed, or a list of candidate answers. */
  datatype ModelOutcome =
    | ClientFailed(cause: string)
    | GenerateFailed(cause: string)
    | Generated(candidates: seq<Candidate>)

  /** How a call of `Verify` ends: it returns Go's `(string, error)` pair, or
      it panics dereferencing a nil pointer. */
  datatype Verdict = Returned(response: string, err: Option<string>) | Panicked

  /** The first part of the first candidate, when it is text. */
  predicate HasTextAnswer(outcome: ModelOutcome)
  {
    && outcome.Generated?
    && |outcome.candidates| > 0
    && outcome.candidates[0].Candidate?
    && |outcome.candidates[0].parts| > 0
    && outcome.candidates[0].parts[0].TextPart?
  }

  /** The first candidate exists but has no content: reading its parts
      dereferences a nil pointer. */
  predicate ReadsNilContent(outcome: ModelOutcome)
  {
    outcome.Generated? && |outcome.candidates| > 0 && outcome.candidates[0].NoContent?
  }

  /** `Verify` with the Gemini call replaced by its outcome: it panics exactly
      when the first candidate has no content; otherwise every error return
      carries an empty response, and it succeeds exactly when the first part
      of the first candidate is text, which it returns. */
  function Verify(outcome: ModelOutcome): (v: Verdict)
    ensures v.Panicked? <==> ReadsNilContent(outcome)
    ensures v.Returned? && v.err.Some? ==> v.response == ""
    ensures (v.Returned? && v.err.None?) <==> HasTextAnswer(outcome)
    ensures HasTextAnswer(outcome) ==> v == Returned(outcome.candidates[0].parts[0].text, None)
  {
    match outcome
    case ClientFailed(cause) =>
      Returned("", Some("error creating Gemini client: " + cause))
    case GenerateFailed(cause) =>
      Returned("", Some("error generating content: " + cause))
    case Generated(candidates) =>
      if |candidates| == 0 then
        Returned("", Some("unexpected response format from Gemini"))
      else
        match candidates[0]
        case NoContent => Panicked
        case Candidate(parts) =>
          if |parts| > 0 && parts[0].TextPart? then
            Returned(parts[0].text, None)
          else
            Returned("", Some("unexpected response format from Gemini"))
  }
}
