/** The bounded tail of a child's output: the same however the output was cut into chunks. */
module OutputTails {
  import opened Splitting

  const MAX_LINES := 40
  const MAX_CHARACTERS := 4096

  predicate EndsLine(text: string) {
    text != "" && text[|text| - 1] == '\n'
  }

  /** The parts between newlines, less an empty last one. */
  function LineCount(text: string): nat {
    |Split(text, '\n')| - if text == "" || EndsLine(text) then 1 else 0
  }

  predicate Fits(text: string) {
    |text| <= MAX_CHARACTERS && LineCount(text) <= MAX_LINES
  }

  /** What is kept of an output: its longest suffix within both bounds. */
  function Tail(output: string): (tail: string) {
    if output == "" || Fits(output) then output else Tail(output[1..])
  }

  lemma {:induction false} TailIsLongest(output: string, start: nat)
    requires start <= |output| && |output[start..]| <= 4096 && LineCount(output[start..]) <= 40
    ensures |output[start..]| <= |Tail(output)|
  {
    if output != "" && !Fits(output) {
      assert start > 0 by {
        assert output[0..] == output;
      }
      assert output[1..][start - 1..] == output[start..];
      TailIsLongest(output[1..], start - 1);
    }
  }

  function Newlines(text: string): nat {
    if text == "" then 0 else (if text[0] == '\n' then 1 else 0) + Newlines(text[1..])
  }

  /** A line for every newline, and one more where text follows the last. */
  lemma LinesAreCounted(text: string)
    ensures LineCount(text) == Newlines(text) + if text != "" && text[|text| - 1] != '\n' then 1 else 0
  {
    PartsAreCounted(text);
  }

  lemma {:induction false} PartsAreCounted(text: string)
    ensures |Split(text, '\n')| == Newlines(text) + 1
  {
    if text != "" {
      PartsAreCounted(text[1..]);
    }
  }

  lemma {:induction false} TailFits(output: string)
    ensures Fits(Tail(output)) && |Tail(output)| <= |output|
    ensures Tail(output) == output[|output| - |Tail(output)|..]
  {
    if output != "" && !Fits(output) {
      TailFits(output[1..]);
      var n := |output| - |Tail(output)|;
      assert output[1..][n - 1..] == output[n..];
    }
  }

  lemma {:induction false} SplitCounts(a: string, b: string)
    ensures |Split(a + b, '\n')| == |Split(a, '\n')| + |Split(b, '\n')| - 1
  {
    if a == "" {
      assert a + b == b;
    } else {
      SplitCounts(a[1..], b);
      assert (a + b)[1..] == a[1..] + b;
    }
  }

  lemma {:induction false} EndedLines(text: string)
    requires EndsLine(text)
    ensures |Split(text, '\n')| >= 2
  {
    if |text| > 1 {
      assert text[1..][|text| - 2] == '\n';
      EndedLines(text[1..]);
    } else {
      assert text[1..] == "";
    }
  }

  /** What does not fit will not fit with more behind it. */
  lemma PrefixFits(a: string, b: string)
    requires Fits(a + b)
    ensures Fits(a)
  {
    SplitCounts(a, b);
    if b != "" {
      assert (a + b)[|a + b| - 1] == b[|b| - 1];
      if EndsLine(b) {
        EndedLines(b);
      }
    } else {
      assert a + b == a;
    }
  }

  /** Keeping the tail of a tail and more is keeping the tail of it all. */
  lemma {:induction false} TailOfTail(output: string, chunk: string)
    ensures Tail(Tail(output) + chunk) == Tail(output + chunk)
  {
    if output != "" && !Fits(output) {
      TailOfTail(output[1..], chunk);
      if Fits(output + chunk) {
        PrefixFits(output, chunk);
      }
      assert (output + chunk)[1..] == output[1..] + chunk;
    }
  }

  function Concat(chunks: seq<string>): string {
    if chunks == [] then "" else Concat(chunks[..|chunks| - 1]) + chunks[|chunks| - 1]
  }

  // ---------- the code ----------

  /** `slice(-n)`. */
  function LastOf<T>(items: seq<T>, n: nat): seq<T> {
    if |items| <= n then items else items[|items| - n..]
  }

  lemma {:induction false} CutToLength(output: string)
    ensures Tail(LastOf(output, MAX_CHARACTERS)) == Tail(output)
  {
    if |output| > MAX_CHARACTERS {
      CutToLength(output[1..]);
      assert LastOf(output[1..], MAX_CHARACTERS) == LastOf(output, MAX_CHARACTERS);
    }
  }

  lemma {:induction false} FewerPartsThanCharacters(text: string)
    ensures |Split(text, '\n')| <= |text| + 1
  {
    if text != "" {
      FewerPartsThanCharacters(text[1..]);
    }
  }

  lemma {:induction false} CutToLines(text: string, keep: nat)
    requires |text| <= MAX_CHARACTERS && keep == if EndsLine(text) then MAX_LINES + 1 else MAX_LINES
    ensures Join(LastOf(Split(text, '\n'), keep), '\n') == Tail(text)
  {
    var lines := Split(text, '\n');
    if |lines| <= keep {
      JoinUndoesSplit(text, '\n');
    } else {
      var rest := Split(text[1..], '\n');
      FewerPartsThanCharacters(text);
      assert EndsLine(text[1..]) == EndsLine(text);
      CutToLines(text[1..], keep);
      assert LastOf(lines, keep) == LastOf(rest, keep) by {
        assert lines[1..] == if text[0] == '\n' then rest else rest[1..];
      }
    }
  }

  class OutputTail {
    var text: string
    ghost var output: string

    /** The text kept is the tail of everything pushed. */
    ghost predicate Valid()
      reads this
    {
      text == Tail(output)
    }

    constructor ()
      ensures Valid() && output == ""
    {
      text, output := "", "";
    }

    method Push(chunk: string)
      requires Valid()
      modifies this
      ensures Valid() && output == old(output) + chunk
    {
      hide Tail, Join, Split, LastOf;
      var cut := LastOf(text + chunk, MAX_CHARACTERS);
      var lines := Split(cut, '\n');
      var keep: nat := if EndsLine(cut) then MAX_LINES + 1 else MAX_LINES;
      CutShort(text + chunk);
      CutToLines(cut, keep);
      CutToLength(text + chunk);
      TailOfTail(output, chunk);
      text := Join(LastOf(lines, keep), '\n');
      output := output + chunk;
    }
  }

  lemma CutShort(text: string)
    ensures |LastOf(text, MAX_CHARACTERS)| <= MAX_CHARACTERS
  {
  }

  /** Pushing chunks one after another leaves what pushing them all at once leaves: the longest suffix of the output
      within 4096 characters and 40 lines. */
  method Collect(chunks: seq<string>) returns (text: string)
    ensures text == Tail(Concat(chunks)) && |text| <= 4096 && LineCount(text) <= 40
    ensures exists start :: 0 <= start <= |Concat(chunks)| && text == Concat(chunks)[start..]
  {
    hide Tail, Split;
    var tail := new OutputTail();
    for i := 0 to |chunks|
      invariant tail.Valid() && tail.output == Concat(chunks[..i])
    {
      assert chunks[..i + 1][..i] == chunks[..i];
      tail.Push(chunks[i]);
    }
    assert chunks[..|chunks|] == chunks;
    TailFits(Concat(chunks));
    text := tail.text;
  }
}
