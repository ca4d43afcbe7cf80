/** Exactly which paths normalise once and for all, told from the path as it is given. */
module PolicyIdempotence {
  import opened PolicyPath
  import opened Sequences
  import opened Wrappers

  // ---------- what decoding can complete ----------

  /** The characters decoding reads at once: an escape or a single one. */
  function UnitLength(text: string, i: nat): (n: nat)
    requires i < |text|
    ensures 1 <= n <= |text| - i
  {
    if IsEscape(text, i) then 3 else 1
  }

  /** At `i` stands a hexadecimal digit or the escape of one. */
  predicate IsDigitUnit(text: string, i: int) {
    0 <= i < |text| && IsHex(if IsEscape(text, i) then EscapedChar(text[i + 1], text[i + 2]) else text[i])
  }

  function DigitAt(text: string, i: nat): (c: char)
    requires IsDigitUnit(text, i)
    ensures IsHex(c)
  {
    if IsEscape(text, i) then EscapedChar(text[i + 1], text[i + 2]) else text[i]
  }

  /** An escape decoding would rewrite: lower-case, or of an unreserved character. */
  predicate IsRewritten(high: char, low: char)
    requires IsHex(high) && IsHex(low)
  {
    high != Upper(high) || low != Upper(low) || IsUnreserved(EscapedChar(high, low))
  }

  /** A stray `%` at `i` and the two digits after it, once decoded, make an escape to rewrite. */
  predicate IsCompleted(text: string, i: int) {
    && 0 <= i < |text| && text[i] == '%' && !IsEscape(text, i) && IsDigitUnit(text, i + 1)
    && IsDigitUnit(text, i + 1 + UnitLength(text, i + 1))
    && IsRewritten(DigitAt(text, i + 1), DigitAt(text, i + 1 + UnitLength(text, i + 1)))
  }

  /** No stray `%` of the text is completed by what decoding makes of the characters after it. */
  predicate IsStable(text: string) {
    forall i | 0 <= i < |text| :: !IsCompleted(text, i)
  }

  lemma EscapeInTail(text: string, n: nat, i: int)
    requires n <= |text| && 0 <= i
    ensures IsEscape(text[n..], i) <==> IsEscape(text, n + i)
  {
  }

  lemma DigitInTail(text: string, n: nat, i: int)
    requires n <= |text| && 0 <= i
    ensures IsDigitUnit(text[n..], i) <==> IsDigitUnit(text, n + i)
    ensures IsDigitUnit(text[n..], i) ==>
              DigitAt(text[n..], i) == DigitAt(text, n + i) && UnitLength(text[n..], i) == UnitLength(text, n + i)
  {
    EscapeInTail(text, n, i);
  }

  lemma CompletedInTail(text: string, n: nat, i: int)
    requires n <= |text| && 0 <= i < |text| - n
    ensures IsCompleted(text[n..], i) <==> IsCompleted(text, n + i)
  {
    hide IsDigitUnit, DigitAt, IsEscape, IsRewritten;
    EscapeInTail(text, n, i);
    DigitInTail(text, n, i + 1);
    if IsDigitUnit(text, n + i + 1) {
      DigitInTail(text, n, i + 1 + UnitLength(text, n + i + 1));
    }
  }

  /** A text is stable when its tail is and its first unit completes nothing. */
  lemma StableByUnit(text: string, n: nat)
    requires text != [] && n == UnitLength(text, 0)
    ensures IsStable(text) <==> IsStable(text[n..]) && !IsCompleted(text, 0)
  {
    hide IsCompleted, IsEscape;
    forall i | 0 <= i < |text| - n
      ensures IsCompleted(text[n..], i) <==> IsCompleted(text, n + i)
    {
      CompletedInTail(text, n, i);
    }
    InsideIsComplete(text, n);
    if IsStable(text) {
      forall i | 0 <= i < |text[n..]|
        ensures !IsCompleted(text[n..], i)
      {
        assert !IsCompleted(text, n + i);
      }
    }
    if IsStable(text[n..]) && !IsCompleted(text, 0) {
      forall i | 0 <= i < |text|
        ensures !IsCompleted(text, i)
      {
        assert i >= n ==> !IsCompleted(text[n..], i - n);
      }
    }
  }

  lemma InsideIsComplete(text: string, n: nat)
    requires text != [] && n == UnitLength(text, 0)
    ensures forall i | 0 < i < n :: !IsCompleted(text, i)
  {
  }

  /** Decoding a digit unit yields its digit; decoding anything else yields no digit first. */
  lemma DecodedDigit(text: string)
    ensures var decoded := DecodeUnreserved(text);
            && (IsDigitUnit(text, 0) <==> decoded != "" && IsHex(decoded[0]))
            && (IsDigitUnit(text, 0) ==>
                  decoded[0] == DigitAt(text, 0) && decoded[1..] == DecodeUnreserved(text[UnitLength(text, 0)..]))
  {
  }

  /** A stray `%` before a decoded text begins an escape to rewrite exactly when the raw text completes it. */
  lemma CompletionDecodes(rest: string)
    requires !IsEscape("%" + rest, 0)
    ensures var text, decoded := "%" + rest, "%" + DecodeUnreserved(rest);
            IsCompleted(text, 0) <==> IsEscape(decoded, 0) && !IsSettledAt(decoded, 0)
  {
    var text, decoded := "%" + rest, "%" + DecodeUnreserved(rest);
    assert text[1..] == rest;
    DecodedDigit(rest);
    DigitInTail(text, 1, 0);
    if IsDigitUnit(rest, 0) {
      var n := UnitLength(rest, 0);
      DecodedDigit(rest[n..]);
      DigitInTail(rest, n, 0);
      DigitInTail(text, 1, n);
    }
  }

  lemma PutPercent(rest: string)
    ensures IsSettled("%" + rest) <==> IsSettled(rest) && (IsEscape("%" + rest, 0) ==> IsSettledAt("%" + rest, 0))
  {
    var all := "%" + rest;
    assert all[1..] == rest;
    if IsSettled(all) {
      TailIsSettled(all, 1);
    }
    if IsSettled(rest) && (IsEscape(all, 0) ==> IsSettledAt(all, 0)) {
      forall i | 0 <= i < |all| && IsEscape(all, i)
        ensures IsSettledAt(all, i)
      {
        if i > 0 {
          EscapeInTail(all, 1, i - 1);
          assert IsSettledAt(rest, i - 1);
        }
      }
    }
  }

  /** Decoding settles a text exactly when the text is stable. */
  lemma {:induction false} DecodedIsSettledIff(text: string)
    ensures IsSettled(DecodeUnreserved(text)) <==> IsStable(text)
    decreases |text|
  {
    if text != "" {
      var n := UnitLength(text, 0);
      var rest := DecodeUnreserved(text[n..]);
      DecodedIsSettledIff(text[n..]);
      StableByUnit(text, n);
      if IsEscape(text, 0) {
        FirstEscapeIsSettled(text);
      } else if text[0] != '%' {
        if IsSettled(rest) {
          PutChar(text[0], rest);
        }
        if IsSettled([text[0]] + rest) {
          DropFirst([text[0]], rest);
        }
      } else {
        assert text == "%" + text[1..];
        CompletionDecodes(text[1..]);
        PutPercent(rest);
      }
    }
  }

  lemma DropFirst(first: string, rest: string)
    requires IsSettled(first + rest)
    ensures IsSettled(rest)
  {
    TailIsSettled(first + rest, |first|);
    DropFront(first, rest);
  }

  lemma FirstEscapeIsSettled(text: string)
    requires IsEscape(text, 0)
    ensures IsSettled(DecodeUnreserved(text)) <==> IsSettled(DecodeUnreserved(text[3..]))
    ensures !IsCompleted(text, 0)
  {
    var rest, character := DecodeUnreserved(text[3..]), EscapedChar(text[1], text[2]);
    var first := if IsUnreserved(character) then [character] else ['%', Upper(text[1]), Upper(text[2])];
    if IsSettled(rest) {
      if IsUnreserved(character) {
        PutChar(character, rest);
      } else {
        PutEscape(Upper(text[1]), Upper(text[2]), rest);
      }
    }
    if IsSettled(first + rest) {
      DropFirst(first, rest);
    }
  }

  /** Decoding twice is decoding once exactly for stable texts. */
  lemma DecodeTwiceIff(text: string)
    ensures DecodeUnreserved(DecodeUnreserved(text)) == DecodeUnreserved(text) <==> IsStable(text)
  {
    DecodeFixes(DecodeUnreserved(text));
    DecodedIsSettledIff(text);
  }

  // ---------- decoding segment by segment ----------

  function DecodedAll(parts: seq<string>): (decoded: seq<string>)
    ensures |decoded| == |parts|
  {
    seq(|parts|, i requires 0 <= i < |parts| => DecodeUnreserved(parts[i]))
  }

  /** Something without a slash, put before a text, joins its first segment. */
  lemma {:induction false} SegmentsBehind(front: string, text: string)
    requires IsSegment(front)
    ensures SegmentsOf(front + text) == [front + SegmentsOf(text)[0]] + SegmentsOf(text)[1..]
  {
    if front == "" {
      assert front + text == text && "" + SegmentsOf(text)[0] == SegmentsOf(text)[0];
    } else {
      SegmentsBehind(front[1..], text);
      Uncons(front, text);
      Uncons(front, SegmentsOf(text)[0]);
      Prepend(front[1..] + SegmentsOf(text)[0], SegmentsOf(text)[1..]);
    }
  }

  lemma {:induction false} FirstSegmentBegins(text: string)
    ensures SegmentsOf(text)[0] <= text
  {
    if text != "" && text[0] != '/' {
      FirstSegmentBegins(text[1..]);
      assert text == [text[0]] + text[1..];
    }
  }

  lemma HeadDecodes(unit: string, text: string)
    requires unit != "" && |unit| == UnitLength(unit + text, 0)
    ensures DecodeUnreserved(unit + text) == DecodeUnreserved(unit) + DecodeUnreserved(text)
    ensures IsSegment(unit) ==> IsSegment(DecodeUnreserved(unit))
  {
    DropFront(unit, text);
    assert IsEscape(unit + text, 0) <==> IsEscape(unit, 0);
    assert unit[|unit|..] == "";
  }

  /** Decoding neither makes nor takes a slash. */
  lemma {:induction false} SegmentsDecode(text: string)
    ensures SegmentsOf(DecodeUnreserved(text)) == DecodedAll(SegmentsOf(text))
    decreases |text|
  {
    if text != "" {
      var n := UnitLength(text, 0);
      var unit, rest := text[..n], text[n..];
      Halves(text, n);
      SegmentsDecode(rest);
      HeadDecodes(unit, rest);
      var segments := SegmentsOf(rest);
      if text[0] == '/' {
        assert unit == "/";
        SlashDecodes(rest);
      } else {
        SegmentsBehind(unit, rest);
        SegmentsBehind(DecodeUnreserved(unit), DecodeUnreserved(rest));
        FirstSegmentBegins(rest);
        StillAUnit(text, n, segments[0]);
        HeadDecodes(unit, segments[0]);
        FirstDecodes(unit + segments[0], segments[1..]);
        FirstDecodes(segments[0], segments[1..]);
        Uncons(segments, []);
      }
    }
  }

  lemma SlashDecodes(rest: string)
    requires SegmentsOf(DecodeUnreserved(rest)) == DecodedAll(SegmentsOf(rest))
    ensures SegmentsOf(DecodeUnreserved("/" + rest)) == DecodedAll(SegmentsOf("/" + rest))
  {
    assert ("/" + rest)[1..] == rest && DecodeUnreserved("/" + rest) == "/" + DecodeUnreserved(rest);
    assert ("/" + DecodeUnreserved(rest))[1..] == DecodeUnreserved(rest);
    FirstDecodes("", SegmentsOf(rest));
  }

  lemma FirstDecodes(first: string, rest: seq<string>)
    ensures DecodedAll([first] + rest) == [DecodeUnreserved(first)] + DecodedAll(rest)
  {
  }

  /** A unit is one before whatever begins what followed it. */
  lemma StillAUnit(text: string, n: nat, first: string)
    requires text != "" && n == UnitLength(text, 0) && first <= text[n..]
    ensures UnitLength(text[..n] + first, 0) == n
  {
    var cut := text[..n] + first;
    assert forall i | 0 <= i < |cut| :: cut[i] == text[i];
  }

  // ---------- the segments that survive ----------

  /** One turn of the segment stack over a path as given: what a segment is decides, and what it was is kept. */
  function RawTurn(segment: string, isLast: bool, output: seq<string>): seq<string> {
    var decoded := DecodeUnreserved(segment);
    (if decoded == ".." then Popped(output) else if decoded == "." then output else output + [segment])
    + if isLast && IsDotted(decoded) then [""] else []
  }

  /** The raw segments left when the dot segments, however they are spelt, have been removed. */
  function Survivors(segments: seq<string>, output: seq<string>): seq<string> {
    if segments == [] then output
    else Survivors(segments[1..], RawTurn(segments[0], |segments| == 1, output))
  }

  lemma TurnDecodes(segment: string, isLast: bool, output: seq<string>)
    ensures DecodedAll(RawTurn(segment, isLast, output)) == Turn(DecodeUnreserved(segment), isLast, DecodedAll(output))
  {
    assert DecodeUnreserved("") == "";
  }

  lemma {:induction false} SurvivorsDecode(segments: seq<string>, output: seq<string>, escaped: bool)
    ensures DecodedAll(Survivors(segments, output)) == Resolve(DecodedAll(segments), DecodedAll(output), escaped).0
    decreases |segments|
  {
    if segments != [] {
      hide RawTurn, Turn, DecodeUnreserved;
      var isLast, decoded := |segments| == 1, DecodeUnreserved(segments[0]);
      TurnDecodes(segments[0], isLast, output);
      assert DecodedAll(segments)[1..] == DecodedAll(segments[1..]) && DecodedAll(segments)[0] == decoded;
      SurvivorsDecode(segments[1..], RawTurn(segments[0], isLast, output),
                      escaped || (decoded == ".." && DecodedAll(output) == []));
    }
  }

  predicate AreAllSettled(parts: seq<string>) {
    forall i | 0 <= i < |parts| :: IsSettled(parts[i])
  }

  predicate AreAllStable(parts: seq<string>) {
    forall i | 0 <= i < |parts| :: IsStable(parts[i])
  }

  lemma DecodedAllSettledIff(parts: seq<string>)
    ensures AreAllSettled(DecodedAll(parts)) <==> AreAllStable(parts)
  {
    hide IsSettled, IsStable, DecodeUnreserved;
    forall i | 0 <= i < |parts|
      ensures IsSettled(DecodedAll(parts)[i]) <==> IsStable(parts[i])
    {
      DecodedIsSettledIff(parts[i]);
    }
  }

  /** No escape spans a slash. */
  lemma {:induction false} SlashedIsSettledIff(parts: seq<string>)
    ensures IsSettled(Slashed(parts)) <==> AreAllSettled(parts)
  {
    hide IsSettled;
    if parts == [] {
      NothingIsSettled();
    } else {
      var first, rest := "/" + parts[0], Slashed(parts[1..]);
      SlashedIsSettledIff(parts[1..]);
      AllButFirst(parts);
      SlashIsSettled(parts[0]);
      SettledJoinIff(first, rest);
    }
  }

  lemma AllButFirst(parts: seq<string>)
    requires parts != []
    ensures AreAllSettled(parts) <==> IsSettled(parts[0]) && AreAllSettled(parts[1..])
  {
    hide IsSettled;
    assert forall i | 1 <= i < |parts| :: parts[i] == parts[1..][i - 1];
    assert forall i | 0 <= i < |parts| - 1 :: parts[1..][i] == parts[i + 1];
  }

  lemma SlashIsSettled(part: string)
    ensures IsSettled("/" + part) <==> IsSettled(part)
  {
    if IsSettled(part) {
      PutChar('/', part);
    }
    if IsSettled("/" + part) {
      DropFirst("/", part);
    }
  }

  lemma SettledJoinIff(a: string, b: string)
    requires b == "" || !IsHex(b[0])
    ensures IsSettled(a + b) <==> IsSettled(a) && IsSettled(b)
  {
    if IsSettled(a) && IsSettled(b) {
      JoinIsSettled(a, b);
    }
    if IsSettled(a + b) {
      HeadIsSettled(a + b, |a|);
      TailIsSettled(a + b, |a|);
      DropFront(a, b);
    }
  }

  // ---------- the condition ----------

  /** No segment that survives dot removal completes a stray `%`, and neither does the query. */
  predicate IsSteady(path: string)
    requires IsAbsolute(path)
  {
    && AreAllStable(Survivors(SegmentsOf(path[1..QueryAt(path)]), []))
    && IsStable(path[QueryAt(path)..])
  }

  /** The path part of a subject is its decoded survivors. */
  lemma DotFreeIsSurvivors(path: string)
    requires IsAbsolute(path)
    ensures var decoded := DecodeUnreserved(path);
            Rewrite(decoded, "", false).0 == Slashed(DecodedAll(Survivors(SegmentsOf(path[1..]), [])))
  {
    hide DecodeUnreserved, SegmentsOf, Rewrite, Resolve, Survivors, Slashed;
    var rest := path[1..];
    var segments := SegmentsOf(DecodeUnreserved(rest));
    LeadingSlashDecodes(path);
    SegmentsDecode(rest);
    SurvivorsDecode(SegmentsOf(rest), [], false);
    assert DecodedAll([]) == [];
    SplitJoins(DecodeUnreserved(rest));
    StackIsRewriting(segments, [], false);
    assert Slashed([]) == "" by { NothingSlashed(); }
  }

  lemma NothingSlashed()
    ensures Slashed([]) == ""
  {
  }

  lemma LeadingSlashDecodes(path: string)
    requires IsAbsolute(path)
    ensures DecodeUnreserved(path) == "/" + DecodeUnreserved(path[1..])
  {
  }

  /** Normalising twice is normalising once exactly for steady paths. */
  lemma NormalisesOnceIff(path: string)
    requires SubjectOf(path).Some?
    ensures SubjectOf(SubjectOf(path).value) == SubjectOf(path) <==> IsSteady(path)
  {
    hide DecodeUnreserved, Rewrite, SegmentsOf, HasNoDots, IsSettled, IsStable, Survivors, Slashed, AreAllStable,
         AreAllSettled;
    var subject, queryAt := SubjectOf(path).value, QueryAt(path);
    var at := QueryAt(subject);
    SubjectParts(path);
    DecodedIsAbsolute(path);
    FixedIffSettled(path);
    var survivors := Survivors(SegmentsOf(path[1..queryAt]), []);
    assert path[..queryAt][1..] == path[1..queryAt];
    DotFreeIsSurvivors(path[..queryAt]);
    SlashedIsSettledIff(DecodedAll(survivors));
    DecodedAllSettledIff(survivors);
    DecodedIsSettledIff(path[queryAt..]);
    DecodedQuery(path[queryAt..]);
    Halves(subject, at);
    SettledJoinIff(subject[..at], subject[at..]);
  }

  /** Well-formed escapes are not needed: a `%` that nothing completes stays as it is. */
  lemma StrayMayBeSteady()
    ensures !IsWellFormed("/%") && SubjectOf("/%") == Some("/%")
  {
    assert !IsEscape("/%", 1);
    OneSegment("/%", "/%");
  }
}
