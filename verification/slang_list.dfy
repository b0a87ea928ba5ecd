/** The on-disk slang list: `Decodefile` turns the text of slang.txt into
    entries and `Addtext` appends one entry per line. Only the text
    transformation is modelled; reading and appending to the file are not. */
module SlangList {
  import opened Wrappers
  import opened Text

  /** The line `Addtext` writes for one entry: `fmt.Sprintln(input)`. */
  function Line(entry: string): string
  {
    entry + "\n"
  }

  /** The file text after `Addtext(input)` appended to a file holding `file`. */
  function AddLine(file: string, input: string): string
  {
    file + Line(input)
  }

  /** The file format for a list of entries: each entry followed by a line feed. */
  function Encode(entries: seq<string>): string
  {
    if |entries| == 0 then "" else Line(entries[0]) + Encode(entries[1..])
  }

  /** Drops every empty entry at the end of the list, and nothing else. */
  function TrimTrailingEmpty(xs: seq<string>): (r: seq<string>)
    ensures |r| <= |xs| && r == xs[..|r|]
    ensures forall i :: |r| <= i < |xs| ==> xs[i] == ""
    ensures |r| > 0 ==> r[|r| - 1] != ""
  {
    if |xs| > 0 && xs[|xs| - 1] == "" then TrimTrailingEmpty(xs[..|xs| - 1]) else xs
  }

  /** The three promises of TrimTrailingEmpty pin its result down: any list
      that is a prefix of `xs`, drops only empty entries and does not end in
      one is that result. */
  lemma TrimUnique(xs: seq<string>, r: seq<string>)
    requires |r| <= |xs| && r == xs[..|r|]
    requires forall i :: |r| <= i < |xs| ==> xs[i] == ""
    requires |r| > 0 ==> r[|r| - 1] != ""
    ensures TrimTrailingEmpty(xs) == r
  {
  }

  /** The text part of `Decodefile`: normalise "\r\n" to "\n", split on "\n",
      drop trailing empty entries. */
  function Decode(text: string): seq<string>
  {
    TrimTrailingEmpty(Split(Normalize(text)))
  }

  /** What decoding guarantees: no entry holds a line feed, the last entry is
      not empty, and the result is the split normalised text with only empty
      entries removed from its end (interior blank lines stay). */
  lemma DecodeShape(text: string)
    ensures var r := Decode(text);
      && (forall i :: 0 <= i < |r| ==> '\n' !in r[i])
      && (|r| > 0 ==> r[|r| - 1] != "")
      && r <= Split(Normalize(text))
      && (forall i :: |r| <= i < |Split(Normalize(text))| ==> Split(Normalize(text))[i] == "")
  {
  }

  /** `Decodefile` with the outcome of `os.ReadFile` as input: `None` when the
      file cannot be opened, whose nil contents read as "", so the list is
      empty; `Some` of the bytes read otherwise, which after an error part-way
      through are the bytes read so far. */
  function LoadSlangs(read: Option<string>): (r: seq<string>)
    ensures read.None? ==> r == []
    ensures read.Some? ==> r == Decode(read.value)
  {
    Decode(read.GetOr(""))
  }

  /** The loop of `Decodefile` that pops empty strings off the end of the
      split text, one at a time. */
  method DecodeEntries(text: string) returns (decoded: seq<string>)
    ensures decoded == Decode(text)
    ensures forall i :: 0 <= i < |decoded| ==> '\n' !in decoded[i]
  {
    var alltext := Normalize(text);
    decoded := Split(alltext);
    while |decoded| > 0 && decoded[|decoded| - 1] == ""
      invariant TrimTrailingEmpty(decoded) == TrimTrailingEmpty(Split(alltext))
      invariant forall i :: 0 <= i < |decoded| ==> '\n' !in decoded[i]
      decreases |decoded|
    {
      decoded := decoded[..|decoded| - 1];
    }
  }

  /** Text decodes to the empty list if and only if it is empty or made only
      of line breaks ("\n" or "\r\n"). */
  lemma DecodeEmptyIff(text: string)
    ensures Decode(text) == [] <==> OnlyLineBreaks(text)
  {
    var n := Normalize(text);
    TrimEmptyIff(Split(n));
    SplitAllEmptyIff(n);
    NormalizeAllLineFeedsIff(text);
  }

  /** The trim leaves nothing exactly when every entry is empty. */
  lemma TrimEmptyIff(xs: seq<string>)
    ensures TrimTrailingEmpty(xs) == [] <==> AllEmpty(xs)
  {
    var t := TrimTrailingEmpty(xs);
    if t != [] {
      assert xs[|t| - 1] == t[|t| - 1];
    }
  }

  /** When the split normalised text ends in one empty piece after `p`, the
      decoded list is `p` without its trailing empty entries. */
  lemma DecodeWhenSplit(text: string, p: seq<string>)
    requires Split(Normalize(text)) == p + [""]
    ensures Decode(text) == TrimTrailingEmpty(p)
  {
    assert (p + [""])[..|p|] == p;
  }

  /** A list that does not end in an empty entry is left alone by the trim. */
  lemma TrimKeeps(xs: seq<string>)
    requires |xs| > 0 ==> xs[|xs| - 1] != ""
    ensures TrimTrailingEmpty(xs) == xs
  {
  }

  /** The file format is the pieces of `Join` with one empty piece after the
      last line feed. */
  lemma {:induction false} EncodeAsJoin(entries: seq<string>)
    ensures Encode(entries) == Join(entries + [""])
  {
    if |entries| > 0 {
      EncodeAsJoin(entries[1..]);
      assert entries + [""] == [entries[0]] + (entries[1..] + [""]);
      JoinAppend([entries[0]], entries[1..] + [""]);
    }
  }

  /** Entries the format can carry: no line feed inside, and no carriage
      return at the end (it would pair with the line feed `Addtext` adds). */
  predicate Storable(entry: string)
  {
    '\n' !in entry && !(|entry| > 0 && entry[|entry| - 1] == '\r')
  }

  /** The line written for a storable entry has no "\r\n" to rewrite. */
  lemma NormalizeLine(entry: string)
    requires Storable(entry)
    ensures Normalize(Line(entry)) == Line(entry)
  {
    var l := Line(entry);
    forall i | 0 <= i < |l| ensures !CrLfAt(l, i) {
      if i + 1 < |entry| {
        assert l[i + 1] == entry[i + 1];
      } else if i + 1 == |entry| {
        assert l[i] == entry[i];
      }
    }
    NormalizeWithoutCrLf(l);
  }

  /** Normalize leaves the encoding of storable entries unchanged. */
  lemma {:induction false} NormalizeEncode(entries: seq<string>)
    requires forall i :: 0 <= i < |entries| ==> Storable(entries[i])
    ensures Normalize(Encode(entries)) == Encode(entries)
  {
    if |entries| > 0 {
      var l := Line(entries[0]);
      NormalizeEncode(entries[1..]);
      NormalizeLine(entries[0]);
      NormalizeAppend(l, Encode(entries[1..]));
    }
  }

  /** The pieces of the text written for storable entries: the entries and
      one empty piece after the final line feed. */
  lemma SplitEncode(entries: seq<string>)
    requires forall i :: 0 <= i < |entries| ==> Storable(entries[i])
    ensures Split(Normalize(Encode(entries))) == entries + [""]
  {
    var parts := entries + [""];
    assert Normalize(Encode(entries)) == Join(parts) by {
      NormalizeEncode(entries);
      EncodeAsJoin(entries);
    }
    assert forall i :: 0 <= i < |parts| ==> '\n' !in parts[i] by {
      forall i | 0 <= i < |parts| ensures '\n' !in parts[i] {
        if i < |entries| {
          assert parts[i] == entries[i] && Storable(entries[i]);
        }
      }
    }
    SplitJoin(parts);
  }

  /** Decoding what `Addtext` wrote for storable entries gives the entries
      back, less any empty entries at the end. */
  lemma DecodeEncode(entries: seq<string>)
    requires forall i :: 0 <= i < |entries| ==> Storable(entries[i])
    ensures Decode(Encode(entries)) == TrimTrailingEmpty(entries)
  {
    SplitEncode(entries);
    DecodeWhenSplit(Encode(entries), entries);
  }

  /** Round trip: storable entries whose last entry is not empty come back
      exactly. */
  lemma DecodeEncodeRoundTrip(entries: seq<string>)
    requires forall i :: 0 <= i < |entries| ==> Storable(entries[i])
    requires |entries| > 0 ==> entries[|entries| - 1] != ""
    ensures Decode(Encode(entries)) == entries
  {
    DecodeEncode(entries);
    TrimKeeps(entries);
  }

  /** Text in the form `Encode` produces: no "\r\n", and either empty or a
      last line that is non-empty and ends with a line feed. */
  predicate Canonical(text: string)
  {
    && !HasCrLf(text)
    && (|text| == 0 || (|text| >= 2 && text[|text| - 1] == '\n' && text[|text| - 2] != '\n'))
  }

  /** A terminating line feed adds one empty piece after the last one. */
  lemma SplitTerminated(m: string)
    ensures Split(m + "\n") == Split(m) + [""]
  {
    assert m + "\n" == m + "\n" + "";
    SplitAfterLineFeed(m, "");
  }

  /** Text that does not end with a line feed has a non-empty last piece. */
  lemma {:induction false} SplitLastPiece(m: string)
    requires |m| > 0 && m[|m| - 1] != '\n'
    ensures Split(m)[|Split(m)| - 1] != ""
  {
    var pieces := Split(m);
    JoinSplit(m);
    if |pieces| > 1 {
      var init := pieces[..|pieces| - 1];
      assert pieces == init + [pieces[|pieces| - 1]];
      JoinAppend(init, [pieces[|pieces| - 1]]);
    }
  }

  /** The other round trip: re-encoding the entries of canonical text gives
      the text back. */
  lemma EncodeDecodeRoundTrip(text: string)
    requires Canonical(text)
    ensures Encode(Decode(text)) == text
  {
    if |text| > 0 {
      var m := text[..|text| - 1];
      var pieces := Split(m);
      assert text == m + "\n";
      assert Decode(text) == pieces by {
        NormalizeWithoutCrLf(text);
        SplitTerminated(m);
        DecodeWhenSplit(text, pieces);
        SplitLastPiece(m);
        TrimKeeps(pieces);
      }
      assert Encode(pieces) == text by {
        EncodeAsJoin(pieces);
        JoinAppend(pieces, [""]);
        JoinSplit(m);
      }
    }
  }

  /** Appending a storable, non-empty entry with `Addtext` to a file whose
      last line is terminated makes that entry the last one decoded and keeps
      every earlier entry; trailing blank lines of the old file reappear as
      empty entries just before it. */
  lemma DecodeAfterAdd(file: string, input: string)
    requires |file| == 0 || file[|file| - 1] == '\n'
    requires Storable(input) && input != ""
    ensures var r := Decode(AddLine(file, input));
      && |r| > 0 && r[|r| - 1] == input
      && Decode(file) <= r
      && forall i :: |Decode(file)| <= i < |r| - 1 ==> r[i] == ""
  {
    var pieces := AddedPieces(file, input);
    TrimThenAppend(pieces, input);
  }

  /** The pieces both decodings share: the old file decodes to them without
      trailing empties, the new one to them followed by the entry. */
  lemma AddedPieces(file: string, input: string) returns (pieces: seq<string>)
    requires |file| == 0 || file[|file| - 1] == '\n'
    requires Storable(input) && input != ""
    ensures Decode(file) == TrimTrailingEmpty(pieces)
    ensures Decode(AddLine(file, input)) == pieces + [input]
  {
    if |file| == 0 {
      pieces := [];
      AddedToEmpty(file, input);
    } else {
      pieces := AddedToTerminated(file, input);
    }
  }

  /** `AddedPieces` for an empty file: nothing before, the entry after. */
  lemma AddedToEmpty(file: string, input: string)
    requires |file| == 0
    requires Storable(input) && input != ""
    ensures Decode(file) == []
    ensures Decode(AddLine(file, input)) == [input]
  {
    assert Split(Normalize(file)) == [] + [""];
    DecodeWhenSplit(file, []);
    assert AddLine(file, input) == Encode([input]);
    DecodeEncodeRoundTrip([input]);
  }

  /** `AddedPieces` for a non-empty file that ends in a line feed. */
  lemma AddedToTerminated(file: string, input: string) returns (pieces: seq<string>)
    requires |file| > 0 && file[|file| - 1] == '\n'
    requires Storable(input) && input != ""
    ensures Decode(file) == TrimTrailingEmpty(pieces)
    ensures Decode(AddLine(file, input)) == pieces + [input]
  {
    TerminatedPieces(file);
    var n := Normalize(file);
    var m := n[..|n| - 1];
    pieces := Split(m);
    DecodeWhenSplit(file, pieces);
    SplitAddedLine(file, input, m);
    DecodeWhenSplit(AddLine(file, input), pieces + [input]);
    TrimKeeps(pieces + [input]);
  }

  /** The pieces of a file whose last line is terminated: those of the text
      before the final line feed, then one empty piece. */
  lemma TerminatedPieces(file: string)
    requires |file| > 0 && file[|file| - 1] == '\n'
    ensures |Normalize(file)| > 0
    ensures var n := Normalize(file);
      && n == n[..|n| - 1] + "\n"
      && Split(n) == Split(n[..|n| - 1]) + [""]
  {
    NormalizeKeepsFinalLineFeed(file);
    var n := Normalize(file);
    var m := n[..|n| - 1];
    assert n == m + "\n";
    SplitTerminated(m);
  }

  /** The trimmed list is a prefix of the list with one more entry, and the
      entries between them are the dropped empty ones. */
  lemma TrimThenAppend(p: seq<string>, x: string)
    ensures var t := TrimTrailingEmpty(p);
      && t <= p + [x]
      && forall i :: |t| <= i < |p| ==> (p + [x])[i] == ""
  {
    var t := TrimTrailingEmpty(p);
    assert (p + [x])[..|t|] == p[..|t|];
  }

  /** The pieces of a terminated file with one more line appended. */
  lemma SplitAddedLine(file: string, input: string, m: string)
    requires |file| > 0 && file[|file| - 1] == '\n'
    requires Storable(input)
    requires Normalize(file) == m + "\n"
    ensures Split(Normalize(AddLine(file, input))) == (Split(m) + [input]) + [""]
  {
    NormalizeLine(input);
    NormalizeAppend(file, Line(input));
    assert Normalize(AddLine(file, input)) == m + "\n" + (input + "\n" + "");
    SplitAfterLineFeed(m, input + "\n" + "");
    SplitAfterLineFeed(input, "");
    SplitWithoutLineFeed(input);
  }

  /** `Addtext` does not start a new line: appended to a file whose last line
      has no terminating line feed, the new entry is glued onto that line. */
  lemma AddToUnterminatedMerges(file: string, input: string)
    requires |file| > 0 && file[|file| - 1] != '\n' && file[|file| - 1] != '\r'
    requires Storable(input)
    ensures var before := Decode(file);
      && |before| > 0
      && Decode(AddLine(file, input)) == before[..|before| - 1] + [before[|before| - 1] + input]
  {
    var p := UnterminatedPieces(file);
    var q := p[..|p| - 1] + [p[|p| - 1] + input];
    SplitAddedToUnterminated(file, input);
    DecodeWhenSplit(AddLine(file, input), q);
    TrimKeeps(q);
  }

  /** A file whose last character is neither a line feed nor a carriage
      return decodes to all of its pieces, the last one non-empty. */
  lemma UnterminatedPieces(file: string) returns (p: seq<string>)
    requires |file| > 0 && file[|file| - 1] != '\n' && file[|file| - 1] != '\r'
    ensures p == Split(Normalize(file))
    ensures Decode(file) == p && |p| > 0
  {
    var n := Normalize(file);
    p := Split(n);
    NormalizeKeepsFinalChar(file);
    SplitLastPiece(n);
    TrimKeeps(p);
  }

  /** The pieces of an unterminated file with one more line appended: the
      entry extends the last piece, and the new line feed adds an empty one. */
  lemma SplitAddedToUnterminated(file: string, input: string)
    requires |file| > 0 && file[|file| - 1] != '\r'
    requires Storable(input)
    ensures var p := Split(Normalize(file));
      Split(Normalize(AddLine(file, input))) == p[..|p| - 1] + [p[|p| - 1] + input] + [""]
  {
    var n := Normalize(file);
    NormalizeLine(input);
    NormalizeAppend(file, Line(input));
    assert Normalize(AddLine(file, input)) == (n + input) + "\n";
    SplitTerminated(n + input);
    SplitExtendLast(n, input);
  }

  /** Why `Storable` rules out a final carriage return: such an entry loses
      it on the way back. */
  lemma TrailingCarriageReturnLost()
    ensures Decode(Encode(["a\r"])) == ["a"]
  {
    var text := "a\r\n";
    assert Encode(["a\r"]) == text by {
      assert Encode(["a\r"]) == Line("a\r") + Encode([]);
    }
    assert Normalize(text) == "a" + "\n" by {
      assert text == "a" + "\r\n";
      NormalizeAppend("a", "\r\n");
      assert CrLfAt("\r\n", 0);
      assert "\r\n"[2..] == "";
      assert !CrLfAt("a", 0);
      assert "a"[1..] == "";
    }
    assert Split(Normalize(text)) == ["a"] + [""] by {
      SplitTerminated("a");
      SplitWithoutLineFeed("a");
    }
    DecodeWhenSplit(text, ["a"]);
  }
}
