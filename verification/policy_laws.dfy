/** What removing dot segments comes to, told as cancellation: the laws that leave only one way to do it. */
module PolicyLaws {
  import opened PolicyPath

  /** Segments resolved with more to come. */
  function Passed(segments: seq<string>, output: seq<string>, escaped: bool): (seq<string>, bool) {
    if segments == [] then (output, escaped)
    else
      Passed(segments[1..], Turn(segments[0], false, output), escaped || (segments[0] == ".." && output == []))
  }

  lemma {:induction false} ResolveJoins(before: seq<string>, after: seq<string>, output: seq<string>, escaped: bool)
    requires after != []
    ensures Resolve(before + after, output, escaped)
            == Resolve(after, Passed(before, output, escaped).0, Passed(before, output, escaped).1)
    decreases |before|
  {
    if before == [] {
      assert before + after == after;
    } else {
      var all := before + after;
      assert all[1..] == before[1..] + after;
      ResolveJoins(before[1..], after, Turn(before[0], false, output), escaped || (before[0] == ".." && output == []));
    }
  }

  /** The segments behind a dot segment; after the last there is an empty one. */
  function Behind(after: seq<string>): (rest: seq<string>)
    ensures rest != []
  {
    if after == [] then [""] else after
  }

  lemma OneTurn(first: string, after: seq<string>, output: seq<string>, escaped: bool)
    ensures Resolve([first] + after, output, escaped)
            == Resolve(after, Turn(first, after == [], output), escaped || (first == ".." && output == []))
  {
    assert ([first] + after)[1..] == after;
  }

  lemma NoneLeft(output: seq<string>, escaped: bool)
    ensures Resolve([], output, escaped) == (output, escaped)
    ensures Resolve([""], output, escaped) == (output + [""], escaped)
  {
    assert [""][1..] == [] && output + [""] + [] == output + [""];
  }

  lemma DotVanishes(after: seq<string>, output: seq<string>, escaped: bool)
    ensures Resolve(["."] + after, output, escaped) == Resolve(Behind(after), output, escaped)
  {
    hide Resolve;
    OneTurn(".", after, output, escaped);
    NoneLeft(output, escaped);
    NoneLeft(output + [""], escaped);
    assert output + [] == output;
  }

  lemma PairVanishes(segment: string, after: seq<string>, output: seq<string>, escaped: bool)
    requires !IsDotted(segment)
    ensures Resolve([segment, ".."] + after, output, escaped) == Resolve(Behind(after), output, escaped)
  {
    hide Resolve;
    var pushed := output + [segment];
    assert [segment, ".."] + after == [segment] + ([".."] + after);
    OneTurn(segment, [".."] + after, output, escaped);
    OneTurn("..", after, pushed, escaped);
    NoneLeft(output, escaped);
    NoneLeft(output + [""], escaped);
    assert pushed[..|pushed| - 1] == output;
    assert Turn(segment, false, output) == pushed;
    assert Turn("..", after == [], pushed) == output + if after == [] then [""] else [];
    assert output + [] == output;
  }

  lemma ClimbsOut(after: seq<string>)
    ensures Resolve([".."] + after, [], false) == Resolve(Behind(after), [], true)
  {
    hide Resolve;
    OneTurn("..", after, [], false);
    NoneLeft([], true);
    NoneLeft([""], true);
    assert Turn("..", after == [], []) == if after == [] then [""] else [];
    assert [] + [""] == [""];
  }

  lemma RewriteIs(segments: seq<string>)
    requires AreSegments(segments)
    ensures Rewrite(Slashed(segments), "", false)
            == (Slashed(Resolve(segments, [], false).0), Resolve(segments, [], false).1)
  {
    StackIsRewriting(segments, [], false);
    assert Slashed([]) == "";
  }

  lemma Joins(before: seq<string>, after: seq<string>)
    requires AreSegments(before) && AreSegments(after)
    ensures AreSegments(before + after)
  {
  }

  /** Anywhere in an absolute path `.` goes, and so does a segment that is no dot segment with the `..` behind it; at
      the end either leaves a slash. */
  lemma DotSegmentsCancel(before: seq<string>, segment: string, after: seq<string>)
    requires AreSegments(before) && AreSegments(after)
    requires '/' !in segment && segment != "." && segment != ".."
    ensures var kept := before + if after == [] then [""] else after;
            && Rewrite(Slashed(before + (["."] + after)), "", false) == Rewrite(Slashed(kept), "", false)
            && Rewrite(Slashed(before + ([segment, ".."] + after)), "", false) == Rewrite(Slashed(kept), "", false)
  {
    hide Resolve, Rewrite, Slashed;
    var dot, pair, kept := ["."] + after, [segment, ".."] + after, Behind(after);
    var (output, escaped) := Passed(before, [], false);
    Joins(before, dot);
    Joins(before, pair);
    Joins(before, kept);
    ResolveJoins(before, dot, [], false);
    ResolveJoins(before, pair, [], false);
    ResolveJoins(before, kept, [], false);
    DotVanishes(after, output, escaped);
    PairVanishes(segment, after, output, escaped);
    RewriteIs(before + dot);
    RewriteIs(before + pair);
    RewriteIs(before + kept);
  }

  /** A `..` at the root goes too, and leaves the mark of having climbed. */
  lemma ClimbingIsMarked(after: seq<string>)
    requires AreSegments(after)
    ensures var kept := if after == [] then [""] else after;
            Rewrite(Slashed([".."] + after), "", false) == (Rewrite(Slashed(kept), "", false).0, true)
  {
    hide Resolve, Rewrite, Slashed;
    ClimbsOut(after);
    Joins([".."], after);
    RewriteIs([".."] + after);
    RewriteIs(Behind(after));
    MarkStays(Behind(after), []);
  }

  lemma {:induction false} MarkStays(segments: seq<string>, output: seq<string>)
    ensures Resolve(segments, output, true).1
    ensures forall escaped: bool :: Resolve(segments, output, escaped).0 == Resolve(segments, output, true).0
    decreases |segments|
  {
    if segments != [] {
      MarkStays(segments[1..], Turn(segments[0], |segments| == 1, output));
    }
  }
}
