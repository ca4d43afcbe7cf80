/** The subject of an HTTP action: unreserved escapes decoded, dot segments removed, climbing past the root refused. */
module PolicyPath {
  import opened Splitting
  import opened Wrappers

  // ---------- percent escapes ----------

  predicate IsHex(c: char) {
    '0' <= c <= '9' || 'A' <= c <= 'F' || 'a' <= c <= 'f'
  }

  function Upper(c: char): char {
    if 'a' <= c <= 'f' then ((c as int) - 32) as char else c
  }

  function HexValue(c: char): (v: nat)
    requires IsHex(c)
    ensures v < 16
  {
    if c <= '9' then c as int - '0' as int else Upper(c) as int - 'A' as int + 10
  }

  /** `%` and two hexadecimal digits at `i`. */
  predicate IsEscape(text: string, i: int) {
    0 <= i && i + 2 < |text| && text[i] == '%' && IsHex(text[i + 1]) && IsHex(text[i + 2])
  }

  function EscapedChar(high: char, low: char): char
    requires IsHex(high) && IsHex(low)
  {
    (16 * HexValue(high) + HexValue(low)) as char
  }

  /** Section 2.3 of RFC 3986. */
  predicate IsUnreserved(c: char) {
    'A' <= c <= 'Z' || 'a' <= c <= 'z' || '0' <= c <= '9' || c in "_.~-"
  }

  function DecodeUnreserved(text: string): string {
    if text == "" then ""
    else if IsEscape(text, 0) then
      var character := EscapedChar(text[1], text[2]);
      (if IsUnreserved(character) then [character] else ['%', Upper(text[1]), Upper(text[2])])
      + DecodeUnreserved(text[3..])
    else [text[0]] + DecodeUnreserved(text[1..])
  }

  /** What the escapes of a text stand for. */
  function Meaning(text: string): string {
    if text == "" then ""
    else if IsEscape(text, 0) then [EscapedChar(text[1], text[2])] + Meaning(text[3..])
    else [text[0]] + Meaning(text[1..])
  }

  /** Every `%` starts a well-formed escape. */
  predicate IsWellFormed(text: string) {
    forall i | 0 <= i < |text| && text[i] == '%' :: IsEscape(text, i)
  }

  /** Every escape is upper-case and of a reserved character. */
  predicate IsSettled(text: string) {
    forall i | 0 <= i < |text| :: IsEscape(text, i) ==> IsSettledAt(text, i)
  }

  predicate IsSettledAt(text: string, i: nat)
    requires IsEscape(text, i)
  {
    && text[i + 1] == Upper(text[i + 1]) && text[i + 2] == Upper(text[i + 2])
    && !IsUnreserved(EscapedChar(text[i + 1], text[i + 2]))
  }

  lemma EscapeInSlice(text: string, from: nat, to: nat, i: int)
    requires from <= to <= |text|
    ensures IsEscape(text[from..to], i) <==> 0 <= i && i + 2 < to - from && IsEscape(text, from + i)
  {
  }

  lemma SliceIsSettled(text: string, from: nat, to: nat)
    requires from <= to <= |text| && IsSettled(text)
    ensures IsSettled(text[from..to])
  {
    forall i | 0 <= i < to - from && IsEscape(text[from..to], i)
      ensures IsSettledAt(text[from..to], i)
    {
      EscapeInSlice(text, from, to, i);
      assert IsSettledAt(text, from + i);
    }
  }

  /** No escape spans a junction that is followed by something other than a digit. */
  lemma JoinIsSettled(a: string, b: string)
    requires IsSettled(a) && IsSettled(b) && (b == "" || !IsHex(b[0]))
    ensures IsSettled(a + b)
  {
    var ab := a + b;
    assert ab[0..|a|] == a && ab[|a|..|ab|] == b;
    assert b != "" ==> ab[|a|] == b[0];
    forall i | 0 <= i < |ab| && IsEscape(ab, i)
      ensures IsSettledAt(ab, i)
    {
      if i >= |a| {
        EscapeInSlice(ab, |a|, |ab|, i - |a|);
        assert IsSettledAt(b, i - |a|);
      } else {
        assert i + 2 < |a|;
        EscapeInSlice(ab, 0, |a|, i);
        assert IsSettledAt(a, i);
      }
    }
  }

  lemma WellFormedTail(text: string, n: nat)
    requires n <= |text| && IsWellFormed(text)
    ensures IsWellFormed(text[n..])
  {
    forall i | 0 <= i < |text| - n && text[n..][i] == '%'
      ensures IsEscape(text[n..], i)
    {
      assert IsEscape(text, n + i);
    }
  }

  lemma {:induction false} DecodedIsSettled(text: string)
    requires IsWellFormed(text)
    ensures IsSettled(DecodeUnreserved(text))
  {
    if text != "" {
      var n := if IsEscape(text, 0) then 3 else 1;
      WellFormedTail(text, n);
      var rest := DecodeUnreserved(text[n..]);
      DecodedIsSettled(text[n..]);
      if IsEscape(text, 0) && !IsUnreserved(EscapedChar(text[1], text[2])) {
        PutEscape(Upper(text[1]), Upper(text[2]), rest);
      } else {
        PutChar(if n == 3 then EscapedChar(text[1], text[2]) else text[0], rest);
      }
    }
  }

  lemma PutEscape(high: char, low: char, rest: string)
    requires IsSettled(rest) && IsHex(high) && IsHex(low)
    requires high == Upper(high) && low == Upper(low) && !IsUnreserved(EscapedChar(high, low))
    ensures IsSettled(['%', high, low] + rest)
  {
    var all := ['%', high, low] + rest;
    assert all[3..|all|] == rest;
    forall i | 0 <= i < |all| && IsEscape(all, i)
      ensures IsSettledAt(all, i)
    {
      if i >= 3 {
        EscapeInSlice(all, 3, |all|, i - 3);
        assert IsSettledAt(rest, i - 3);
      }
    }
  }

  lemma PutChar(c: char, rest: string)
    requires IsSettled(rest) && c != '%'
    ensures IsSettled([c] + rest)
  {
    var all := [c] + rest;
    assert all[1..|all|] == rest;
    forall i | 0 <= i < |all| && IsEscape(all, i)
      ensures IsSettledAt(all, i)
    {
      EscapeInSlice(all, 1, |all|, i - 1);
      assert IsSettledAt(rest, i - 1);
    }
  }

  /** Decoding leaves a text alone exactly when its escapes are settled. */
  lemma {:induction false} DecodeFixes(text: string)
    ensures |DecodeUnreserved(text)| <= |text|
    ensures DecodeUnreserved(text) == text <==> IsSettled(text)
  {
    if text != "" {
      var n := if IsEscape(text, 0) then 3 else 1;
      var rest := text[n..];
      DecodeFixes(rest);
      assert text == text[..n] + rest;
      if IsSettled(text) {
        TailIsSettled(text, n);
        if n == 3 {
          assert IsSettledAt(text, 0);
          assert text[..3] == ['%', text[1], text[2]];
        }
      }
      if DecodeUnreserved(text) == text {
        assert DecodeUnreserved(text)[n..] == rest;
        if n == 3 {
          assert DecodeUnreserved(text)[0] == '%' && text[..3] == ['%', text[1], text[2]];
          assert DecodeUnreserved(text)[1] == Upper(text[1]) && DecodeUnreserved(text)[2] == Upper(text[2]);
          PutEscape(text[1], text[2], rest);
        } else {
          HeadIsNoEscape(text);
        }
      }
    }
  }

  lemma HeadIsNoEscape(text: string)
    requires text != "" && !IsEscape(text, 0) && IsSettled(text[1..])
    ensures IsSettled(text)
  {
    forall i | 0 <= i < |text| && IsEscape(text, i)
      ensures IsSettledAt(text, i)
    {
      EscapeInSlice(text, 1, |text|, i - 1);
      assert text[1..|text|] == text[1..] && IsSettledAt(text[1..], i - 1);
    }
  }

  lemma MeaningOfChar(c: char, rest: string)
    requires c != '%'
    ensures Meaning([c] + rest) == [c] + Meaning(rest)
  {
    assert ([c] + rest)[1..] == rest;
  }

  lemma MeaningOfEscape(high: char, low: char, rest: string)
    requires IsHex(high) && IsHex(low)
    ensures Meaning(['%', high, low] + rest) == [EscapedChar(high, low)] + Meaning(rest)
  {
    assert (['%', high, low] + rest)[3..] == rest;
  }

  /** Decoding changes the spelling, not what is spelt. */
  lemma {:induction false} DecodeKeepsMeaning(text: string)
    requires IsWellFormed(text)
    ensures Meaning(DecodeUnreserved(text)) == Meaning(text)
  {
    if text != "" {
      var n := if IsEscape(text, 0) then 3 else 1;
      var rest := DecodeUnreserved(text[n..]);
      WellFormedTail(text, n);
      DecodeKeepsMeaning(text[n..]);
      if n == 1 {
        MeaningOfChar(text[0], rest);
      } else if IsUnreserved(EscapedChar(text[1], text[2])) {
        MeaningOfChar(EscapedChar(text[1], text[2]), rest);
      } else {
        MeaningOfEscape(Upper(text[1]), Upper(text[2]), rest);
      }
    }
  }

  lemma {:induction false} DecodeAvoids(text: string, c: char)
    requires c !in text && c != '%' && !IsHex(c) && !IsUnreserved(c)
    ensures c !in DecodeUnreserved(text)
  {
    if text != "" {
      DecodeAvoids(text[if IsEscape(text, 0) then 3 else 1..], c);
    }
  }

  // ---------- section 5.2.4 of RFC 3986 ----------

  /** The output buffer without its last segment and the `/` before it, if any. */
  function DropLastSegment(output: string): (shorter: string)
    ensures shorter <= output
  {
    if output == "" then ""
    else
      var front := output[..|output| - 1];
      if output[|output| - 1] == '/' then front else DropLastSegment(front)
  }

  function NextSlash(input: string, from: nat): (at: nat)
    requires from <= |input|
    ensures from <= at <= |input|
    decreases |input| - from
  {
    if from == |input| || input[from] == '/' then from else NextSlash(input, from + 1)
  }

  /** One of the steps 2A to 2E, from one pair of buffers to the next; the flag records that 2C met an empty output. */
  function Step(input: string, output: string, escaped: bool): (next: (string, string, bool))
    requires input != ""
    ensures |next.0| < |input|
  {
    if "../" <= input then (input[3..], output, escaped)
    else if "./" <= input then (input[2..], output, escaped)
    else if "/./" <= input then (input[2..], output, escaped)
    else if input == "/." then ("/", output, escaped)
    else if "/../" <= input then (input[3..], DropLastSegment(output), escaped || output == "")
    else if input == "/.." then ("/", DropLastSegment(output), escaped || output == "")
    else if input == "." || input == ".." then ("", output, escaped)
    else
      var end := NextSlash(input, 1);
      (input[end..], output + input[..end], escaped)
  }

  function Rewrite(input: string, output: string, escaped: bool): (string, bool)
    decreases |input|
  {
    if input == "" then (output, escaped)
    else
      var (restOfInput, moreOutput, climbed) := Step(input, output, escaped);
      Rewrite(restOfInput, moreOutput, climbed)
  }

  predicate IsAbsolute(path: string) {
    path != "" && path[0] == '/'
  }

  // ---------- segments ----------

  predicate IsSegment(text: string) {
    '/' !in text
  }

  predicate AreSegments(parts: seq<string>) {
    forall i | 0 <= i < |parts| :: IsSegment(parts[i])
  }

  predicate IsDotted(segment: string) {
    segment == "." || segment == ".."
  }

  predicate HasNoDots(parts: seq<string>) {
    forall i | 0 <= i < |parts| :: !IsDotted(parts[i])
  }

  function SegmentsOf(text: string): (parts: seq<string>)
    ensures |parts| > 0
  {
    Split(text, '/')
  }

  /** Each part behind a `/`. */
  function Slashed(parts: seq<string>): string {
    if parts == [] then "" else "/" + parts[0] + Slashed(parts[1..])
  }

  lemma {:induction false} JoinIsSlashed(parts: seq<string>)
    requires parts != []
    ensures "/" + Join(parts, '/') == Slashed(parts)
  {
    if |parts| > 1 {
      JoinIsSlashed(parts[1..]);
    }
  }

  lemma SlashedFirst(first: string, rest: seq<string>)
    ensures Slashed([first] + rest) == "/" + first + Slashed(rest)
  {
    assert ([first] + rest)[1..] == rest;
  }

  lemma {:induction false} SplitJoins(text: string)
    ensures Slashed(SegmentsOf(text)) == "/" + text && AreSegments(SegmentsOf(text))
  {
    if text != "" {
      SplitJoins(text[1..]);
      hide Slashed;
      var rest := SegmentsOf(text[1..]);
      if text[0] == '/' {
        SlashedFirst("", rest);
        assert "/" + "" + ("/" + text[1..]) == "/" + text;
      } else {
        SlashedFirst([text[0]] + rest[0], rest[1..]);
        SlashedFirst(rest[0], rest[1..]);
        assert [rest[0]] + rest[1..] == rest;
        TakeSlash(text, rest[0], Slashed(rest[1..]));
      }
    }
  }

  lemma TakeSlash(text: string, first: string, others: string)
    requires text != "" && "/" + first + others == "/" + text[1..]
    ensures "/" + ([text[0]] + first) + others == "/" + text
  {
    assert first + others == ("/" + first + others)[1..] == text[1..];
    assert "/" + ([text[0]] + first) + others == "/" + [text[0]] + (first + others);
  }

  lemma {:induction false} SplitOne(segment: string, rest: string)
    requires IsSegment(segment) && (rest == "" || rest[0] == '/')
    ensures SegmentsOf(segment + rest) == [segment] + if rest == "" then [] else SegmentsOf(rest[1..])
  {
    var text := segment + rest;
    if segment != "" {
      SplitOne(segment[1..], rest);
      assert text[1..] == segment[1..] + rest;
      var others := if rest == "" then [] else SegmentsOf(rest[1..]);
      assert ([segment[1..]] + others)[1..] == others;
      assert [segment[0]] + segment[1..] == segment;
    } else {
      assert text == rest;
      assert rest == "" ==> [segment] + [] == [""];
    }
  }

  lemma {:induction false} JoinSplits(parts: seq<string>)
    requires parts != [] && AreSegments(parts)
    ensures SegmentsOf(Slashed(parts)[1..]) == parts
  {
    var rest := Slashed(parts[1..]);
    assert Slashed(parts)[1..] == parts[0] + rest;
    SplitOne(parts[0], rest);
    if |parts| > 1 {
      JoinSplits(parts[1..]);
    }
  }

  lemma {:induction false} SlashedAppend(parts: seq<string>, last: string)
    ensures Slashed(parts + [last]) == Slashed(parts) + "/" + last
  {
    if parts == [] {
      assert parts + [last] == [last];
    } else {
      SlashedAppend(parts[1..], last);
      assert (parts + [last])[1..] == parts[1..] + [last];
    }
  }

  // ---------- the stack of segments ----------

  function Popped(output: seq<string>): seq<string> {
    if output == [] then [] else output[..|output| - 1]
  }

  /** The output after one segment. */
  function Turn(segment: string, isLast: bool, output: seq<string>): seq<string> {
    (if segment == ".." then Popped(output) else if segment == "." then output else output + [segment])
    + if isLast && IsDotted(segment) then [""] else []
  }

  function Resolve(segments: seq<string>, output: seq<string>, escaped: bool): (seq<string>, bool) {
    if segments == [] then (output, escaped)
    else
      Resolve(segments[1..], Turn(segments[0], |segments| == 1, output),
              escaped || (segments[0] == ".." && output == []))
  }

  lemma {:induction false} DropsOne(front: string, segment: string)
    requires IsSegment(segment)
    ensures DropLastSegment(front + "/" + segment) == front
  {
    var all := front + "/" + segment;
    if segment != "" {
      var shorter := segment[..|segment| - 1];
      assert all[..|all| - 1] == front + "/" + shorter;
      DropsOne(front, shorter);
    } else {
      assert all[..|all| - 1] == front;
    }
  }

  lemma DropIsPop(output: seq<string>)
    requires AreSegments(output)
    ensures DropLastSegment(Slashed(output)) == Slashed(Popped(output))
  {
    if output != [] {
      var front, last := Popped(output), output[|output| - 1];
      assert output == front + [last];
      SlashedAppend(front, last);
      DropsOne(Slashed(front), last);
    }
  }

  lemma {:induction false} SlashAfter(segment: string, rest: string, from: nat)
    requires IsSegment(segment) && (rest == "" || rest[0] == '/') && 1 <= from <= 1 + |segment|
    ensures NextSlash("/" + segment + rest, from) == 1 + |segment|
    decreases |segment| - from
  {
    if from <= |segment| {
      SlashAfter(segment, rest, from + 1);
    }
  }

  /** Which rule applies is decided by the first segment. */
  lemma RuleOf(segment: string, rest: string)
    requires IsSegment(segment) && (rest == "" || rest[0] == '/')
    ensures var input := "/" + segment + rest;
            && !("../" <= input) && !("./" <= input) && input != "." && input != ".."
            && ("/./" <= input <==> segment == "." && rest != "") && (input == "/." <==> segment == "." && rest == "")
            && ("/../" <= input <==> segment == ".." && rest != "")
            && (input == "/.." <==> segment == ".." && rest == "")
  {
    var input := "/" + segment + rest;
    assert |segment| >= 1 ==> input[1] == segment[0];
    assert |segment| >= 2 ==> input[2] == segment[1];
    assert rest != "" ==> input[1 + |segment|] == '/';
    assert rest == "" ==> |input| == 1 + |segment|;
    assert input[0] == '/';
    if "/./" <= input { assert input[1] == '.' && input[2] == '/'; }
    if "/../" <= input { assert input[1] == '.' && input[2] == '.' && input[3] == '/'; OnlyTwo(segment, rest); }
    if input == "/.." { OnlyTwo(segment, rest); }
  }

  lemma OnlyTwo(segment: string, rest: string)
    requires IsSegment(segment) && (rest == "" || rest[0] == '/')
    requires var input := "/" + segment + rest; "/.." <= input && (|input| == 3 || input[3] == '/')
    ensures segment == ".."
  {
    var input := "/" + segment + rest;
    assert input[1] == '.' && input[2] == '.';
    assert forall k | 0 <= k < |segment| :: input[1 + k] == segment[k];
    assert rest != "" ==> input[1 + |segment|] == rest[0];
  }

  lemma RewriteTurn(segments: seq<string>, output: seq<string>, escaped: bool)
    requires segments != [] && AreSegments(segments) && AreSegments(output)
    ensures Rewrite(Slashed(segments), Slashed(output), escaped)
            == Rewrite(Slashed(segments[1..]), Slashed(Turn(segments[0], |segments| == 1, output)),
                       escaped || (segments[0] == ".." && output == []))
  {
    var segment, rest := segments[0], Slashed(segments[1..]);
    var input := "/" + segment + rest;
    RuleOf(segment, rest);
    if IsDotted(segment) {
      var kept := if segment == ".." then Popped(output) else output;
      if segment == ".." {
        DropIsPop(output);
      }
      if rest == "" {
        assert kept + [""] == Turn(segment, true, output);
        RewriteSlash(kept, escaped || (segment == ".." && output == []));
      } else {
        assert input[1 + |segment|..] == rest;
        assert kept + [] == kept;
      }
    } else {
      SlashAfter(segment, rest, 1);
      assert input[1 + |segment|..] == rest && input[..1 + |segment|] == "/" + segment;
      SlashedAppend(output, segment);
      assert Slashed(output) + ("/" + segment) == Slashed(output) + "/" + segment;
      assert Turn(segment, |segments| == 1, output) == output + [segment];
    }
  }

  lemma RewriteSlash(kept: seq<string>, escaped: bool)
    ensures Rewrite("/", Slashed(kept), escaped) == Rewrite("", Slashed(kept + [""]), escaped)
  {
    SlashedAppend(kept, "");
    assert Slashed(kept) + "/" + "" == Slashed(kept) + "/";
    assert NextSlash("/", 1) == 1 && "/"[1..] == "" && "/"[..1] == "/";
  }

  /** The stack and the rewriting loop agree, on the path and on whether it climbed. */
  lemma {:induction false} StackIsRewriting(segments: seq<string>, output: seq<string>, escaped: bool)
    requires AreSegments(segments) && AreSegments(output)
    ensures var (kept, climbed) := Resolve(segments, output, escaped);
            Rewrite(Slashed(segments), Slashed(output), escaped) == (Slashed(kept), climbed)
    ensures AreSegments(Resolve(segments, output, escaped).0)
    decreases |segments|
  {
    if segments != [] {
      RewriteTurn(segments, output, escaped);
      StackIsRewriting(segments[1..], Turn(segments[0], |segments| == 1, output),
                       escaped || (segments[0] == ".." && output == []));
    } else {
      assert Slashed(segments) == "" && Resolve(segments, output, escaped) == (output, escaped);
    }
  }

  lemma {:induction false} StackHasNoDots(segments: seq<string>, output: seq<string>, escaped: bool)
    requires HasNoDots(output) && (segments != [] || output != [])
    ensures HasNoDots(Resolve(segments, output, escaped).0) && Resolve(segments, output, escaped).0 != []
    decreases |segments|
  {
    if segments != [] {
      var next := Turn(segments[0], |segments| == 1, output);
      var climbed := escaped || (segments[0] == ".." && output == []);
      if |segments| == 1 {
        assert Resolve(segments, output, escaped) == Resolve([], next, climbed);
      } else {
        StackHasNoDots(segments[1..], next, climbed);
      }
    }
  }

  lemma {:induction false} NothingToRemove(segments: seq<string>, output: seq<string>, escaped: bool)
    requires HasNoDots(segments)
    ensures Resolve(segments, output, escaped) == (output + segments, escaped)
    decreases |segments|
  {
    if segments != [] {
      assert Turn(segments[0], |segments| == 1, output) == output + [segments[0]];
      assert (output + [segments[0]]) + segments[1..] == output + segments;
      NothingToRemove(segments[1..], output + [segments[0]], escaped);
    } else {
      assert output + segments == output;
    }
  }

  /** How deep a run of segments leads: one down for a name, one up for `..`. */
  function Depth(segments: seq<string>): int {
    if segments == [] then 0
    else (if segments[0] == ".." then -1 else if segments[0] == "." then 0 else 1) + Depth(segments[1..])
  }

  ghost predicate Climbs(segments: seq<string>, from: nat) {
    exists k :: 0 <= k <= |segments| && from + Depth(segments[..k]) < 0
  }

  /** A path escapes exactly when some beginning of it leads above the root. */
  lemma {:induction false} EscapesIffClimbs(segments: seq<string>, output: seq<string>, escaped: bool)
    ensures Resolve(segments, output, escaped).1 <==> escaped || Climbs(segments, |output|)
    decreases |segments|
  {
    if segments == [] {
    } else {
      var next := Turn(segments[0], |segments| == 1, output);
      var climbed := escaped || (segments[0] == ".." && output == []);
      EscapesIffClimbs(segments[1..], next, climbed);
      forall k | 0 < k <= |segments|
        ensures Depth(segments[..k]) == Depth(segments[..1]) + Depth(segments[1..][..k - 1])
      {
        assert segments[..k][1..] == segments[1..][..k - 1] && segments[..1][1..] == [];
      }
      if segments[0] == ".." && output == [] {
        assert |output| + Depth(segments[..1]) < 0;
      } else if |segments| == 1 {
        assert !Climbs(segments[1..], |next|);
      } else {
        assert |next| == |output| + Depth(segments[..1]);
        if Climbs(segments, |output|) {
          var k :| 0 <= k <= |segments| && |output| + Depth(segments[..k]) < 0;
          assert |next| + Depth(segments[1..][..k - 1]) < 0;
        }
        if Climbs(segments[1..], |next|) {
          var k :| 0 <= k <= |segments| - 1 && |next| + Depth(segments[1..][..k]) < 0;
          assert segments[1..][..k] == segments[1..][..(k + 1) - 1];
          assert |output| + Depth(segments[..k + 1]) < 0;
        }
      }
    }
  }

  datatype DotFreePath = DotFreePath(path: string, escaped: bool)

  /** The loop as written gives the result of the standard's rewriting, and reports exactly its climbs. */
  method RemoveDotSegments(path: string) returns (r: DotFreePath)
    requires IsAbsolute(path)
    ensures (r.path, r.escaped) == Rewrite(path, "", false)
    ensures r.escaped <==> Climbs(SegmentsOf(path[1..]), 0)
    ensures IsAbsolute(r.path) && HasNoDots(SegmentsOf(r.path[1..]))
  {
    hide Split, SegmentsOf, Rewrite, Slashed, Join, Climbs, HasNoDots, AreSegments;
    var output: seq<string> := [];
    var isEscaped := false;
    var segments := SegmentsOf(path[1..]);
    for index := 0 to |segments|
      invariant Resolve(segments[index..], output, isEscaped) == Resolve(segments, [], false)
    {
      var segment := segments[index];
      var isLast := index == |segments| - 1;
      ghost var before, wasEscaped := output, isEscaped;
      if segment == ".." {
        isEscaped := isEscaped || |output| == 0;
        output := if |output| == 0 then [] else output[..|output| - 1];
      } else if segment != "." {
        output := output + [segment];
      }
      if isLast && (segment == "." || segment == "..") {
        output := output + [""];
      }
      assert segments[index..][1..] == segments[index + 1..];
      assert output == Turn(segment, isLast, before);
    }
    assert segments[|segments|..] == [];
    Finished(path, output, isEscaped);
    r := DotFreePath("/" + Join(output, '/'), isEscaped);
  }

  lemma Finished(path: string, output: seq<string>, escaped: bool)
    requires IsAbsolute(path) && Resolve(SegmentsOf(path[1..]), [], false) == (output, escaped)
    ensures ("/" + Join(output, '/'), escaped) == Rewrite(path, "", false)
    ensures escaped <==> Climbs(SegmentsOf(path[1..]), 0)
    ensures var segments := SegmentsOf(("/" + Join(output, '/'))[1..]); HasNoDots(segments) && segments == output
  {
    var segments := SegmentsOf(path[1..]);
    SplitJoins(path[1..]);
    assert "/" + path[1..] == path;
    StackIsRewriting(segments, [], false);
    StackHasNoDots(segments, [], false);
    EscapesIffClimbs(segments, [], false);
    JoinIsSlashed(output);
    JoinSplits(output);
  }

  // ---------- the subject ----------

  /** Where the query begins; the length when there is none. */
  function QueryAt(text: string): (at: nat)
    ensures at <= |text| && '?' !in text[..at] && (at < |text| ==> text[at] == '?')
  {
    if text == "" || text[0] == '?' then 0
    else
      var at := 1 + QueryAt(text[1..]);
      assert text[..at] == [text[0]] + text[1..][..at - 1];
      at
  }

  function SubjectOf(path: string): Option<string> {
    if !IsAbsolute(path) then None
    else
      var queryAt := QueryAt(path);
      var (dotFree, escaped) := Rewrite(DecodeUnreserved(path[..queryAt]), "", false);
      if escaped then None else Some(dotFree + DecodeUnreserved(path[queryAt..]))
  }

  lemma DecodedIsAbsolute(path: string)
    requires IsAbsolute(path)
    ensures IsAbsolute(path[..QueryAt(path)]) && IsAbsolute(DecodeUnreserved(path[..QueryAt(path)]))
  {
  }

  method Normalise(pathAndQuery: string) returns (r: DotFreePath)
    requires IsAbsolute(pathAndQuery)
    ensures SubjectOf(pathAndQuery) == if r.escaped then None else Some(r.path)
  {
    hide DecodeUnreserved, Rewrite;
    var queryAt := QueryAt(pathAndQuery);
    DecodedIsAbsolute(pathAndQuery);
    var dotFree := RemoveDotSegments(DecodeUnreserved(pathAndQuery[..queryAt]));
    r := DotFreePath(dotFree.path + DecodeUnreserved(pathAndQuery[queryAt..]), dotFree.escaped);
  }

  /** Refused exactly when the path is relative or, once decoded, leads above the root. */
  method HttpSubject(path: string) returns (subject: Option<string>)
    ensures subject == SubjectOf(path)
    ensures subject.None?
            <==> path == "" || path[0] != '/' || Climbs(SegmentsOf(DecodeUnreserved(path[..QueryAt(path)])[1..]), 0)
    ensures subject.Some? ==>
              IsAbsolute(subject.value) && HasNoDots(SegmentsOf(subject.value[1..QueryAt(subject.value)]))
  {
    hide DecodeUnreserved, Rewrite, Climbs, HasNoDots, Split, SegmentsOf;
    if !IsAbsolute(path) {
      return None;
    }
    var r := Normalise(path);
    SubjectDecides(path);
    if SubjectOf(path).Some? {
      SubjectParts(path);
    }
    subject := if r.escaped then None else Some(r.path);
  }

  lemma SubjectDecides(path: string)
    requires IsAbsolute(path)
    ensures SubjectOf(path).None? <==> Climbs(SegmentsOf(DecodeUnreserved(path[..QueryAt(path)])[1..]), 0)
  {
    DecodedIsAbsolute(path);
    var decoded := DecodeUnreserved(path[..QueryAt(path)]);
    Finished(decoded, Resolve(SegmentsOf(decoded[1..]), [], false).0, Resolve(SegmentsOf(decoded[1..]), [], false).1);
  }

  lemma {:induction false} RewriteAvoids(input: string, output: string, escaped: bool, c: char)
    requires c !in input && c !in output && c != '/'
    ensures c !in Rewrite(input, output, escaped).0
    decreases |input|
  {
    if input != "" {
      var next := Step(input, output, escaped);
      StepAvoids(input, output, escaped, c);
      RewriteAvoids(next.0, next.1, next.2, c);
    }
  }

  lemma StepAvoids(input: string, output: string, escaped: bool, c: char)
    requires input != "" && c !in input && c !in output && c != '/'
    ensures c !in Step(input, output, escaped).0 && c !in Step(input, output, escaped).1
  {
  }

  lemma {:induction false} QueryAfter(path: string, query: string)
    requires '?' !in path && (query == "" || query[0] == '?')
    ensures QueryAt(path + query) == |path|
  {
    if path == "" {
      assert path + query == query;
    } else {
      QueryAfter(path[1..], query);
      assert (path + query)[1..] == path[1..] + query;
    }
  }

  lemma DecodedQuery(query: string)
    requires query == "" || query[0] == '?'
    ensures DecodeUnreserved(query) == "" || DecodeUnreserved(query)[0] == '?'
  {
  }

  /** The subject splits where its query begins, and its path has no dot segment. */
  lemma SubjectParts(path: string)
    requires SubjectOf(path).Some?
    ensures var subject, queryAt := SubjectOf(path).value, QueryAt(path);
            var at := QueryAt(subject);
            && subject[..at] == Rewrite(DecodeUnreserved(path[..queryAt]), "", false).0
            && subject[at..] == DecodeUnreserved(path[queryAt..])
            && IsAbsolute(subject) && IsAbsolute(subject[..at]) && HasNoDots(SegmentsOf(subject[1..at]))
  {
    var queryAt := QueryAt(path);
    var decoded, query := DecodeUnreserved(path[..queryAt]), DecodeUnreserved(path[queryAt..]);
    var dotFree := Rewrite(decoded, "", false).0;
    DecodedIsAbsolute(path);
    DecodeAvoids(path[..queryAt], '?');
    RewriteAvoids(decoded, "", false, '?');
    DecodedQuery(path[queryAt..]);
    QueryAfter(dotFree, query);
    var output := Resolve(SegmentsOf(decoded[1..]), [], false).0;
    Finished(decoded, output, Resolve(SegmentsOf(decoded[1..]), [], false).1);
    assert (dotFree + query)[1..|dotFree|] == dotFree[1..];
    assert (dotFree + query)[..|dotFree|] == dotFree;
  }

  // ---------- fixed points ----------

  lemma StepShortens(input: string, output: string, escaped: bool)
    requires input != ""
    ensures var next := Step(input, output, escaped);
            && |next.0| + |next.1| <= |input| + |output|
            && (|next.0| + |next.1| == |input| + |output| ==> next.1 + next.0 == output + input)
  {
    var end := NextSlash(input, 1);
    assert output + input[..end] + input[end..] == output + input;
  }

  /** Rewriting never lengthens, and does nothing where it does not shorten. */
  lemma {:induction false} RewriteShortens(input: string, output: string, escaped: bool)
    ensures var r := Rewrite(input, output, escaped).0;
            |r| <= |input| + |output| && (|r| == |input| + |output| ==> r == output + input)
    decreases |input|
  {
    hide Step;
    if input == "" {
      assert output + input == output;
    } else {
      var next := Step(input, output, escaped);
      StepShortens(input, output, escaped);
      RewriteShortens(next.0, next.1, next.2);
    }
  }

  lemma RewriteKeepsClean(path: string)
    requires IsAbsolute(path) && HasNoDots(SegmentsOf(path[1..]))
    ensures Rewrite(path, "", false) == (path, false)
  {
    var segments := SegmentsOf(path[1..]);
    SplitJoins(path[1..]);
    assert "/" + path[1..] == path;
    StackIsRewriting(segments, [], false);
    NothingToRemove(segments, [], false);
    assert [] + segments == segments;
  }

  /** A subject is its own subject exactly when its escapes are settled. */
  lemma FixedIffSettled(path: string)
    requires SubjectOf(path).Some?
    ensures var subject := SubjectOf(path).value; SubjectOf(subject) == Some(subject) <==> IsSettled(subject)
  {
    hide DecodeUnreserved, Rewrite, Split, SegmentsOf, HasNoDots;
    SubjectParts(path);
    var subject := SubjectOf(path).value;
    var at := QueryAt(subject);
    var dotFree, query := subject[..at], subject[at..];
    assert subject == dotFree + query;
    DecodeFixes(dotFree);
    DecodeFixes(query);
    if IsSettled(subject) {
      HeadIsSettled(subject, at);
      TailIsSettled(subject, at);
      assert dotFree[1..] == subject[1..at];
      RewriteKeepsClean(dotFree);
    }
    if SubjectOf(subject) == Some(subject) {
      RewriteShortens(DecodeUnreserved(dotFree), "", false);
      var again := Rewrite(DecodeUnreserved(dotFree), "", false).0;
      assert subject == again + DecodeUnreserved(query);
      assert |again| == at;
      assert "" + DecodeUnreserved(dotFree) == DecodeUnreserved(dotFree);
      assert again == dotFree && DecodeUnreserved(query) == query by {
        assert subject[..at] == (again + DecodeUnreserved(query))[..at];
        assert subject[at..] == (again + DecodeUnreserved(query))[at..];
      }
      JoinIsSettled(dotFree, query);
    }
  }

  lemma StepKeepsSettled(input: string, output: string, escaped: bool)
    requires IsAbsolute(input) && IsSettled(input) && IsSettled(output)
    ensures var next := Step(input, output, escaped);
            (next.0 == "" || IsAbsolute(next.0)) && IsSettled(next.0) && IsSettled(next.1)
  {
    var shorter := DropLastSegment(output);
    HeadIsSettled(output, |shorter|);
    assert output[..|shorter|] == shorter;
    if "/./" <= input {
      TailIsSettled(input, 2);
    } else if "/../" <= input {
      TailIsSettled(input, 3);
    } else if input != "/." && input != "/.." {
      var end := NextSlash(input, 1);
      SlashAt(input, 1);
      HeadIsSettled(input, end);
      TailIsSettled(input, end);
      JoinIsSettled(output, input[..end]);
    }
  }

  lemma {:induction false} RewriteKeepsSettled(input: string, output: string, escaped: bool)
    requires (input == "" || IsAbsolute(input)) && IsSettled(input) && IsSettled(output)
    ensures IsSettled(Rewrite(input, output, escaped).0)
    decreases |input|
  {
    hide Step, IsSettled;
    if input != "" {
      var next := Step(input, output, escaped);
      StepKeepsSettled(input, output, escaped);
      RewriteKeepsSettled(next.0, next.1, next.2);
    }
  }

  lemma {:induction false} SlashAt(input: string, from: nat)
    requires from <= |input|
    ensures NextSlash(input, from) < |input| ==> input[NextSlash(input, from)] == '/'
    decreases |input| - from
  {
    if from < |input| && input[from] != '/' {
      SlashAt(input, from + 1);
    }
  }

  lemma HeadIsSettled(text: string, n: nat)
    requires n <= |text| && IsSettled(text)
    ensures IsSettled(text[..n])
  {
    SliceIsSettled(text, 0, n);
    assert text[0..n] == text[..n];
  }

  lemma TailIsSettled(text: string, n: nat)
    requires n <= |text| && IsSettled(text)
    ensures IsSettled(text[n..])
  {
    SliceIsSettled(text, n, |text|);
    assert text[n..|text|] == text[n..];
  }

  /** Normalising twice is normalising once, for every path whose escapes are well formed. */
  lemma NormalisingIsIdempotent(path: string)
    requires IsWellFormed(path) && SubjectOf(path).Some?
    ensures SubjectOf(SubjectOf(path).value) == SubjectOf(path)
  {
    hide DecodeUnreserved, Rewrite, Split, SegmentsOf, HasNoDots, IsSettled;
    var queryAt := QueryAt(path);
    WellFormedTail(path, queryAt);
    WellFormedHead(path, queryAt);
    DecodedIsSettled(path[..queryAt]);
    DecodedIsSettled(path[queryAt..]);
    DecodedIsAbsolute(path);
    DecodedQuery(path[queryAt..]);
    NothingIsSettled();
    RewriteKeepsSettled(DecodeUnreserved(path[..queryAt]), "", false);
    JoinIsSettled(Rewrite(DecodeUnreserved(path[..queryAt]), "", false).0, DecodeUnreserved(path[queryAt..]));
    FixedIffSettled(path);
  }

  lemma NothingIsSettled()
    ensures IsSettled("")
  {
  }

  /** The `?` where the head ends cuts no escape. */
  lemma WellFormedHead(path: string, n: nat)
    requires n <= |path| && IsWellFormed(path) && (n == |path| || path[n] == '?')
    ensures IsWellFormed(path[..n])
  {
    forall i | 0 <= i < n && path[..n][i] == '%'
      ensures IsEscape(path[..n], i)
    {
      assert IsEscape(path, i);
      assert path[i + 1] != '?' && path[i + 2] != '?';
      assert i + 2 < n;
    }
  }

  /** A malformed escape can be completed by decoding what follows it, so idempotence needs the hypothesis. */
  lemma NormalisingTwiceMayDiffer()
    ensures SubjectOf("/%4%31") == Some("/%41") && SubjectOf("/%41") == Some("/A")
  {
    hide Rewrite, Step, SubjectOf;
    assert DecodeUnreserved("/%4%31") == "/%4" + DecodeUnreserved("%31") by {
      assert "/%4%31"[1..] == "%4%31" && "%4%31"[1..] == "4%31" && "4%31"[1..] == "%31";
    }
    assert DecodeUnreserved("%31") == "1" by { assert "%31"[3..] == ""; }
    OneSegment("/%4%31", "/%41");
    assert DecodeUnreserved("/%41") == "/A" by {
      assert "/%41"[1..] == "%41" && "%41"[3..] == "";
    }
    OneSegment("/%41", "/A");
  }

  lemma OneSegment(path: string, decoded: string)
    requires IsAbsolute(path) && DecodeUnreserved(path) == decoded && '?' !in path
    requires |decoded| > 1 && decoded[0] == '/' && decoded[1] != '/' && decoded[1] != '.' && '/' !in decoded[1..]
    ensures SubjectOf(path) == Some(decoded)
  {
    QueryAfter(path, "");
    assert path + "" == path && path[..|path|] == path && path[|path|..] == "";
    SplitOne(decoded[1..], "");
    assert decoded[1..] + "" == decoded[1..];
    assert [decoded[1..]] + [] == [decoded[1..]];
    RewriteKeepsClean(decoded);
    assert decoded + "" == decoded;
  }

  // ---------- the characters decoded ----------

  /** Section 2.3 of RFC 3986: letters, digits, hyphen, period, underscore and tilde, and no other. */
  lemma UnreservedAre(c: char)
    ensures IsUnreserved(c) <==>
              || c in "ABCDEFGHIJKLMNOPQRSTUVWXYZ"
              || c in "abcdefghijklmnopqrstuvwxyz"
              || c in "0123456789-._~"
  {
    hide IsUnreserved;
    LettersAre(c);
    OthersAre(c);
  }

  lemma LettersAre(c: char)
    ensures 'A' <= c <= 'Z' <==> c in "ABCDEFGHIJKLMNOPQRSTUVWXYZ"
    ensures 'a' <= c <= 'z' <==> c in "abcdefghijklmnopqrstuvwxyz"
  {
  }

  lemma OthersAre(c: char)
    ensures IsUnreserved(c) <==> 'A' <= c <= 'Z' || 'a' <= c <= 'z' || c in "0123456789-._~"
  {
  }

  lemma DigitsMean(n: nat)
    requires n < 16
    ensures IsHex("0123456789ABCDEF"[n]) && HexValue("0123456789ABCDEF"[n]) == n
    ensures IsHex("0123456789abcdef"[n]) && HexValue("0123456789abcdef"[n]) == n
    ensures Upper("0123456789abcdef"[n]) == Upper("0123456789ABCDEF"[n]) == "0123456789ABCDEF"[n]
  {
    assert n == 0 || n == 1 || n == 2 || n == 3 || n == 4 || n == 5 || n == 6 || n == 7 || n == 8 || n == 9 || n == 10
           || n == 11 || n == 12 || n == 13 || n == 14 || n == 15;
  }

  /** The escape of a byte, in upper or lower case: the byte itself where its character is unreserved, and otherwise the
      escape in upper case. */
  lemma EscapeDecodes(n: nat)
    requires n < 256
    ensures var (upper, lower) := ("0123456789ABCDEF", "0123456789abcdef");
            var (high, low) := (n / 16, n % 16);
            var decoded := if IsUnreserved(n as char) then [n as char] else ['%', upper[high], upper[low]];
            && DecodeUnreserved(['%', upper[high], upper[low]]) == decoded
            && DecodeUnreserved(['%', lower[high], lower[low]]) == decoded
  {
    hide IsUnreserved, HexValue, IsHex, Upper;
    DigitsMean(n / 16);
    DigitsMean(n % 16);
    var upper, lower := "0123456789ABCDEF", "0123456789abcdef";
    OneEscape(upper[n / 16], upper[n % 16], n);
    OneEscape(lower[n / 16], lower[n % 16], n);
  }

  lemma OneEscape(high: char, low: char, n: nat)
    requires IsHex(high) && IsHex(low) && n < 256 && 16 * HexValue(high) + HexValue(low) == n
    ensures DecodeUnreserved(['%', high, low])
            == if IsUnreserved(n as char) then [n as char] else ['%', Upper(high), Upper(low)]
  {
    hide IsUnreserved, HexValue, IsHex, Upper;
    var text := ['%', high, low];
    assert IsEscape(text, 0) && text[3..] == "" && DecodeUnreserved("") == "";
  }
}
