/** Line-oriented text primitives of Go's `strings` package, specialised to
    the line-feed separator the slang list uses: `strings.ReplaceAll(s, "\r\n", "\n")`
    and `strings.Split(s, "\n")`, together with the `Join` that undoes `Split`. */
module Text {

  /** Number of occurrences of the character `c` in `s`. */
  function Count(s: string, c: char): nat
  {
    if |s| == 0 then 0 else (if s[0] == c then 1 else 0) + Count(s[1..], c)
  }

  /** A carriage return immediately followed by a line feed starts at index `i`. */
  predicate CrLfAt(s: string, i: int)
  {
    0 <= i && i + 1 < |s| && s[i] == '\r' && s[i + 1] == '\n'
  }

  predicate HasCrLf(s: string)
  {
    exists i | 0 <= i < |s| :: CrLfAt(s, i)
  }

  /** Number of "\r\n" pairs in `s`. Two pairs can never overlap. */
  function CrLfCount(s: string): nat
  {
    if |s| < 2 then 0
    else if s[0] == '\r' && s[1] == '\n' then 1 + CrLfCount(s[2..])
    else CrLfCount(s[1..])
  }

  /** Every piece is the empty string (vacuously true of []). */
  predicate AllEmpty(pieces: seq<string>)
  {
    forall i :: 0 <= i < |pieces| ==> pieces[i] == ""
  }

  /** Every character of `s` is a line feed (vacuously true of ""). */
  predicate AllLineFeeds(s: string)
  {
    forall i :: 0 <= i < |s| ==> s[i] == '\n'
  }

  /** `strings.ReplaceAll(s, "\r\n", "\n")`: one left-to-right pass that
      replaces each non-overlapping "\r\n" by "\n". The result is not rescanned,
      so "\r\r\n" becomes "\r\n". */
  function Normalize(s: string): string
    decreases |s|
  {
    if |s| == 0 then "" else StepOutput(s) + Normalize(s[StepLength(s)..])
  }

  /** How many characters one step of the scan consumes: the whole pair at a
      "\r\n", otherwise one character. */
  function StepLength(s: string): nat
  {
    if CrLfAt(s, 0) then 2 else 1
  }

  /** What one step of the scan emits. */
  function StepOutput(s: string): string
    requires |s| > 0
  {
    if CrLfAt(s, 0) then "\n" else [s[0]]
  }

  /** `strings.Join(parts, "\n")`. */
  function Join(parts: seq<string>): string
  {
    if |parts| == 0 then ""
    else if |parts| == 1 then parts[0]
    else parts[0] + "\n" + Join(parts[1..])
  }

  /** `strings.Split(s, "\n")`: the pieces between line feeds. Splitting ""
      gives [""], so there is always at least one piece. */
  function Split(s: string): (r: seq<string>)
    ensures |r| > 0
    ensures forall i :: 0 <= i < |r| ==> '\n' !in r[i]
  {
    if |s| == 0 then [""] else Prepend(s[0], Split(s[1..]))
  }

  /** The pieces of `[c] + t` from the pieces of `t`: a line feed opens a new
      empty first piece, any other character joins the first piece. */
  function Prepend(c: char, pieces: seq<string>): (r: seq<string>)
    requires |pieces| > 0
    ensures |r| > 0
    ensures (forall i :: 0 <= i < |pieces| ==> '\n' !in pieces[i]) ==>
      forall i :: 0 <= i < |r| ==> '\n' !in r[i]
  {
    if c == '\n' then [""] + pieces else [[c] + pieces[0]] + pieces[1..]
  }

  /** Prepending a character touches only the first piece. */
  lemma PrependAppend(c: char, x: seq<string>, y: seq<string>)
    requires |x| > 0
    ensures Prepend(c, x + y) == Prepend(c, x) + y
  {
    if c != '\n' {
      assert (x + y)[1..] == x[1..] + y;
    }
  }

  /** Joining the pieces with line feeds gives the text back. */
  lemma {:induction false} JoinSplit(s: string)
    ensures Join(Split(s)) == s
  {
    if |s| > 0 {
      JoinSplit(s[1..]);
      var rest := Split(s[1..]);
      var p := Split(s);
      if s[0] == '\n' {
        assert p[1..] == rest;
      } else if |rest| > 1 {
        assert p[1..] == rest[1..];
      }
    }
  }

  /** Normalize deletes exactly one character per "\r\n" pair, and that
      character is a carriage return: every other character keeps its count. */
  lemma {:induction false} NormalizeCounts(s: string)
    ensures |Normalize(s)| + CrLfCount(s) == |s|
    ensures forall c :: c != '\r' ==> Count(Normalize(s), c) == Count(s, c)
  {
    if |s| >= 2 && s[0] == '\r' && s[1] == '\n' {
      NormalizeCounts(s[2..]);
      assert s[1..][1..] == s[2..];
    } else if |s| > 0 {
      NormalizeCounts(s[1..]);
    }
  }

  /** There is one piece more than there are line feeds. */
  lemma {:induction false} SplitCount(s: string)
    ensures |Split(s)| == Count(s, '\n') + 1
  {
    if |s| > 0 {
      SplitCount(s[1..]);
    }
  }

  /** Text made only of "\n" and "\r\n" line breaks (including ""). */
  predicate OnlyLineBreaks(s: string)
    decreases |s|
  {
    || |s| == 0
    || (s[0] == '\n' && OnlyLineBreaks(s[1..]))
    || (|s| >= 2 && s[0] == '\r' && s[1] == '\n' && OnlyLineBreaks(s[2..]))
  }

  /** Text without a "\r\n" pair is left unchanged by Normalize, and text with
      one is not (it gets shorter). */
  lemma {:induction false} NormalizeFixedIff(s: string)
    ensures Normalize(s) == s <==> !HasCrLf(s)
  {
    if HasCrLf(s) {
      HasCrLfCounted(s);
      NormalizeCounts(s);
    } else {
      NormalizeWithoutCrLf(s);
    }
  }

  lemma {:induction false} HasCrLfCounted(s: string)
    requires HasCrLf(s)
    ensures CrLfCount(s) > 0
  {
    var i :| 0 <= i < |s| && CrLfAt(s, i);
    if s[0] == '\r' && s[1] == '\n' {
    } else {
      assert CrLfAt(s[1..], i - 1);
      HasCrLfCounted(s[1..]);
    }
  }

  lemma {:induction false} NormalizeWithoutCrLf(s: string)
    requires !HasCrLf(s)
    ensures Normalize(s) == s
  {
    if |s| > 0 {
      assert !CrLfAt(s, 0);
      forall i | 0 <= i < |s[1..]|
        ensures !CrLfAt(s[1..], i)
      {
        assert !CrLfAt(s, i + 1);
      }
      NormalizeWithoutCrLf(s[1..]);
    }
  }

  /** Normalize works piecewise as long as the cut does not separate the two
      halves of a "\r\n" pair. */
  lemma {:induction false} NormalizeAppend(a: string, b: string)
    requires !(|a| > 0 && a[|a| - 1] == '\r' && |b| > 0 && b[0] == '\n')
    ensures Normalize(a + b) == Normalize(a) + Normalize(b)
    decreases |a|
  {
    if |a| == 0 {
      assert a + b == b;
    } else {
      var k := StepLength(a);
      var rest := a[k..];
      assert |rest| > 0 ==> rest[|rest| - 1] == a[|a| - 1];
      calc {
        Normalize(a + b);
        == { NormalizeUnfold(a + b); SameFirstStep(a, b); }
        StepOutput(a) + Normalize((a + b)[k..]);
        == { assert (a + b)[k..] == rest + b; }
        StepOutput(a) + Normalize(rest + b);
        == { NormalizeAppend(rest, b); }
        StepOutput(a) + (Normalize(rest) + Normalize(b));
        == { ConcatAssoc(StepOutput(a), Normalize(rest), Normalize(b)); }
        (StepOutput(a) + Normalize(rest)) + Normalize(b);
        == { NormalizeUnfold(a); }
        Normalize(a) + Normalize(b);
      }
    }
  }

  /** One step of the scan, as an equation. */
  lemma NormalizeUnfold(s: string)
    requires |s| > 0
    ensures Normalize(s) == StepOutput(s) + Normalize(s[StepLength(s)..])
  {
  }

  lemma ConcatAssoc(x: string, y: string, z: string)
    ensures x + (y + z) == (x + y) + z
  {
  }

  /** The scan takes the same first step on `a + b` as on `a`, unless `a`
      ends in the carriage return of a pair that `b` completes. */
  lemma SameFirstStep(a: string, b: string)
    requires |a| > 0
    requires !(|a| > 0 && a[|a| - 1] == '\r' && |b| > 0 && b[0] == '\n')
    ensures StepLength(a + b) == StepLength(a)
    ensures StepOutput(a + b) == StepOutput(a)
  {
    var ab := a + b;
    assert ab[0] == a[0];
    if |a| >= 2 {
      assert ab[1] == a[1];
    }
    assert CrLfAt(ab, 0) == CrLfAt(a, 0);
  }

  /** A text whose last character is a line feed still ends with one after
      Normalize. */
  lemma {:induction false} NormalizeKeepsFinalLineFeed(s: string)
    requires |s| > 0 && s[|s| - 1] == '\n'
    ensures |Normalize(s)| > 0 && Normalize(s)[|Normalize(s)| - 1] == '\n'
    decreases |s|
  {
    var k := StepLength(s);
    var rest := s[k..];
    assert Normalize(s) == StepOutput(s) + Normalize(rest);
    if |rest| == 0 {
      assert StepOutput(s) == "\n";
    } else {
      assert rest[|rest| - 1] == '\n';
      NormalizeKeepsFinalLineFeed(rest);
    }
  }

  /** Normalize yields nothing but line feeds exactly when the text is made
      only of "\n" and "\r\n". */
  lemma {:induction false} NormalizeAllLineFeedsIff(s: string)
    ensures AllLineFeeds(Normalize(s)) <==> OnlyLineBreaks(s)
    decreases |s|
  {
    if |s| == 0 {
    } else if |s| >= 2 && s[0] == '\r' && s[1] == '\n' {
      NormalizeAllLineFeedsIff(s[2..]);
      assert Normalize(s) == "\n" + Normalize(s[2..]);
      assert AllLineFeeds(Normalize(s)) <==> AllLineFeeds(Normalize(s[2..])) by {
        if AllLineFeeds(Normalize(s[2..])) {
          forall i | 0 <= i < |Normalize(s)| ensures Normalize(s)[i] == '\n' {
            if i > 0 { assert Normalize(s)[i] == Normalize(s[2..])[i - 1]; }
          }
        }
        if AllLineFeeds(Normalize(s)) {
          forall i | 0 <= i < |Normalize(s[2..])| ensures Normalize(s[2..])[i] == '\n' {
            assert Normalize(s)[i + 1] == Normalize(s[2..])[i];
          }
        }
      }
    } else {
      NormalizeAllLineFeedsIff(s[1..]);
      assert Normalize(s) == [s[0]] + Normalize(s[1..]);
      assert AllLineFeeds(Normalize(s)) <==> s[0] == '\n' && AllLineFeeds(Normalize(s[1..])) by {
        if s[0] == '\n' && AllLineFeeds(Normalize(s[1..])) {
          forall i | 0 <= i < |Normalize(s)| ensures Normalize(s)[i] == '\n' {
            if i > 0 { assert Normalize(s)[i] == Normalize(s[1..])[i - 1]; }
          }
        }
        if AllLineFeeds(Normalize(s)) {
          assert Normalize(s)[0] == s[0];
          forall i | 0 <= i < |Normalize(s[1..])| ensures Normalize(s[1..])[i] == '\n' {
            assert Normalize(s)[i + 1] == Normalize(s[1..])[i];
          }
        }
      }
    }
  }

  /** Joining two non-empty runs of pieces puts one line feed between them. */
  lemma {:induction false} JoinAppend(a: seq<string>, b: seq<string>)
    requires |a| > 0 && |b| > 0
    ensures Join(a + b) == Join(a) + "\n" + Join(b)
  {
    if |a| == 1 {
      assert (a + b)[1..] == b;
    } else {
      assert (a + b)[1..] == a[1..] + b;
      JoinAppend(a[1..], b);
    }
  }

  /** Split undoes Join on pieces without line feeds; with JoinSplit this makes Split a bijection between texts and non-empty
      lists of line-feed-free pieces. */
  lemma {:induction false} SplitJoin(parts: seq<string>)
    requires |parts| > 0
    requires forall i :: 0 <= i < |parts| ==> '\n' !in parts[i]
    ensures Split(Join(parts)) == parts
  {
    var head := parts[0];
    assert '\n' !in head;
    if |parts| == 1 {
      SplitWithoutLineFeed(head);
    } else {
      var tail := parts[1..];
      assert Join(parts) == head + "\n" + Join(tail);
      assert Split(Join(tail)) == tail by {
        assert forall i :: 0 <= i < |tail| ==> '\n' !in tail[i] by {
          forall i | 0 <= i < |tail| ensures '\n' !in tail[i] {
            assert tail[i] == parts[i + 1];
          }
        }
        SplitJoin(tail);
      }
      SplitAfterLineFeed(head, Join(tail));
      SplitWithoutLineFeed(head);
      assert parts == [head] + tail;
    }
  }

  /** A text without line feeds is one piece. */
  lemma {:induction false} SplitWithoutLineFeed(s: string)
    requires '\n' !in s
    ensures Split(s) == [s]
  {
    if |s| > 0 {
      assert s[0] != '\n';
      assert s == [s[0]] + s[1..];
      SplitWithoutLineFeed(s[1..]);
    }
  }

  /** Splitting at a line feed splits the two sides independently. */
  lemma {:induction false} SplitAfterLineFeed(a: string, b: string)
    ensures Split(a + "\n" + b) == Split(a) + Split(b)
  {
    var t := a + "\n" + b;
    if |a| == 0 {
      assert t[0] == '\n' && t[1..] == b;
    } else {
      assert t[0] == a[0] && t[1..] == a[1..] + "\n" + b;
      SplitAfterLineFeed(a[1..], b);
      PrependAppend(a[0], Split(a[1..]), Split(b));
    }
  }

  /** All pieces are empty exactly when the text is nothing but line feeds. */
  lemma {:induction false} SplitAllEmptyIff(s: string)
    ensures AllEmpty(Split(s)) <==> AllLineFeeds(s)
  {
    if |s| > 0 {
      SplitAllEmptyIff(s[1..]);
      var rest := Split(s[1..]);
      if s[0] == '\n' {
        assert Split(s) == [""] + rest;
        if AllLineFeeds(s) {
          assert AllLineFeeds(s[1..]) by {
            forall i | 0 <= i < |s[1..]| ensures s[1..][i] == '\n' {
              assert s[i + 1] == '\n';
            }
          }
          forall i | 0 <= i < |Split(s)| ensures Split(s)[i] == "" {
            if i > 0 { assert Split(s)[i] == rest[i - 1]; }
          }
        }
        if AllEmpty(Split(s)) {
          forall i | 0 <= i < |rest| ensures rest[i] == "" {
            assert Split(s)[i + 1] == rest[i];
          }
          assert AllLineFeeds(s[1..]);
          forall i | 0 <= i < |s| ensures s[i] == '\n' {
            if i > 0 { assert s[i] == s[1..][i - 1]; }
          }
        }
      } else {
        assert Split(s)[0] == [s[0]] + rest[0];
      }
    }
  }

  /** A last character other than a line feed survives Normalize in last place. */
  lemma {:induction false} NormalizeKeepsFinalChar(s: string)
    requires |s| > 0 && s[|s| - 1] != '\n'
    ensures |Normalize(s)| > 0 && Normalize(s)[|Normalize(s)| - 1] == s[|s| - 1]
    decreases |s|
  {
    var k := StepLength(s);
    var rest := s[k..];
    assert Normalize(s) == StepOutput(s) + Normalize(rest);
    if |rest| == 0 {
      assert k == 1 && StepOutput(s) == [s[0]];
    } else {
      assert rest[|rest| - 1] == s[|s| - 1];
      NormalizeKeepsFinalChar(rest);
    }
  }

  /** Text without line feeds appended to `a` extends the last piece of `a`. */
  lemma {:induction false} SplitExtendLast(a: string, b: string)
    requires '\n' !in b
    ensures var p := Split(a);
      Split(a + b) == p[..|p| - 1] + [p[|p| - 1] + b]
  {
    var p := Split(a);
    var init, last := p[..|p| - 1], p[|p| - 1];
    assert '\n' !in last;
    assert Join(p) == a by { JoinSplit(a); }
    if |p| == 1 {
      assert a == last;
      SplitWithoutLineFeed(a + b);
    } else {
      var front := Join(init);
      assert a == front + "\n" + last by {
        assert p == init + [last];
        JoinAppend(init, [last]);
      }
      assert Split(front) == init by {
        SplitAfterLineFeed(front, last);
        SplitWithoutLineFeed(last);
        assert p == Split(front) + [last];
      }
      assert a + b == front + "\n" + (last + b);
      SplitAfterLineFeed(front, last + b);
      SplitWithoutLineFeed(last + b);
    }
  }

  /** Normalize is a single pass and not idempotent: "\r\r\n" becomes "\r\n",
      which still holds a pair. */
  lemma NormalizeSinglePass()
    ensures Normalize("\r\r\n") == "\r\n"
    ensures HasCrLf(Normalize("\r\r\n"))
    ensures Normalize(Normalize("\r\r\n")) != Normalize("\r\r\n")
  {
    assert "\r\r\n"[1..] == "\r\n";
    assert "\r\n"[2..] == "";
    assert CrLfAt("\r\n", 0);
  }
}
