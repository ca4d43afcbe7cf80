/** The glob matcher of the action policies: a declarative language, and the two-buffer sweep that decides it. */
module PolicyGlob {
  import opened Sequences
  import opened Wrappers

  datatype PatternKind = Path | Command

  datatype Token = Literal(text: string) | Star | Double

  predicate IsSeparator(kind: PatternKind, c: char) {
    if kind == Path then c == '/' else c == '\n' || c == '\r'
  }

  predicate IsRun(kind: PatternKind, text: string) {
    forall i | 0 <= i < |text| :: !IsSeparator(kind, text[i])
  }

  // ---------- the language ----------

  /** What a pattern means, character by character: anchored at both ends, `*` any run without a separator and, in a
      path, `**` anything at all. */
  ghost predicate Matches(pattern: string, subject: string, kind: PatternKind)
    decreases |pattern|
  {
    if pattern == "" then subject == ""
    else if pattern[0] != '*' then
      subject != "" && subject[0] == pattern[0] && Matches(pattern[1..], subject[1..], kind)
    else if kind == Path && |pattern| > 1 && pattern[1] == '*' then
      exists k :: 0 <= k <= |subject| && Matches(pattern[2..], subject[k..], kind)
    else
      exists k :: 0 <= k <= |subject| && IsRun(kind, subject[..k]) && Matches(pattern[1..], subject[k..], kind)
  }

  predicate TokenMatches(token: Token, text: string, kind: PatternKind) {
    match token
    case Literal(literal) => text == literal
    case Star => IsRun(kind, text)
    case Double => true
  }

  ghost predicate TokensMatch(tokens: seq<Token>, subject: string, kind: PatternKind)
    decreases |tokens|
  {
    if tokens == [] then subject == ""
    else exists k :: 0 <= k <= |subject|
                     && TokenMatches(tokens[0], subject[..k], kind) && TokensMatch(tokens[1..], subject[k..], kind)
  }

  /** Where a matching subject splits between the first token and the others. */
  lemma SplitOf(tokens: seq<Token>, subject: string, kind: PatternKind) returns (k: nat)
    requires tokens != [] && TokensMatch(tokens, subject, kind)
    ensures k <= |subject|
    ensures TokenMatches(tokens[0], subject[..k], kind) && TokensMatch(tokens[1..], subject[k..], kind)
  {
    k :| 0 <= k <= |subject|
         && TokenMatches(tokens[0], subject[..k], kind) && TokensMatch(tokens[1..], subject[k..], kind);
  }

  lemma SplitAgain(tokens: seq<Token>, subject: string, kind: PatternKind, k: nat)
    requires tokens != [] && k <= |subject|
    requires TokenMatches(tokens[0], subject[..k], kind) && TokensMatch(tokens[1..], subject[k..], kind)
    ensures TokensMatch(tokens, subject, kind)
  {
  }

  // ---------- tokens ----------

  /** Pending literal characters, put before tokens that may themselves begin with a literal. */
  function Glue(literal: string, tokens: seq<Token>): seq<Token> {
    if literal == "" then tokens
    else if tokens != [] && tokens[0].Literal? then [Literal(literal + tokens[0].text)] + tokens[1..]
    else [Literal(literal)] + tokens
  }

  function Tokens(pattern: string, kind: PatternKind): seq<Token>
    decreases |pattern|
  {
    if pattern == "" then []
    else if pattern[0] != '*' then Glue([pattern[0]], Tokens(pattern[1..], kind))
    else if kind == Path && |pattern| > 1 && pattern[1] == '*' then [Double] + Tokens(pattern[2..], kind)
    else [Star] + Tokens(pattern[1..], kind)
  }

  /** The characters a token list was read from, one for each wildcard at least. */
  function Weight(tokens: seq<Token>): nat {
    if tokens == [] then 0 else (if tokens[0].Literal? then |tokens[0].text| else 1) + Weight(tokens[1..])
  }

  predicate NoEmptyLiteral(tokens: seq<Token>) {
    forall i | 0 <= i < |tokens| && tokens[i].Literal? :: tokens[i].text != ""
  }

  lemma {:induction false} GlueTwice(a: string, b: string, tokens: seq<Token>)
    ensures Glue(a, Glue(b, tokens)) == Glue(a + b, tokens)
  {
    if b == "" {
      assert a + b == a;
    } else if a == "" {
      assert a + b == b;
    } else if tokens != [] && tokens[0].Literal? {
      assert a + (b + tokens[0].text) == a + b + tokens[0].text;
    }
  }

  lemma {:induction false} TokensAreSound(pattern: string, kind: PatternKind)
    ensures NoEmptyLiteral(Tokens(pattern, kind)) && Weight(Tokens(pattern, kind)) <= |pattern|
    decreases |pattern|
  {
    if pattern != "" {
      var skip := if pattern[0] == '*' && kind == Path && |pattern| > 1 && pattern[1] == '*' then 2 else 1;
      TokensAreSound(pattern[skip..], kind);
      if pattern[0] != '*' {
        GlueWeighs([pattern[0]], Tokens(pattern[1..], kind));
      }
    }
  }

  lemma GlueWeighs(literal: string, tokens: seq<Token>)
    requires NoEmptyLiteral(tokens)
    ensures NoEmptyLiteral(Glue(literal, tokens)) && Weight(Glue(literal, tokens)) == |literal| + Weight(tokens)
  {
  }

  /** A literal pending before a wildcard is a token of its own. */
  lemma FlushBeforeWildcard(tokens: seq<Token>, literal: string, wildcard: Token, rest: seq<Token>)
    requires !wildcard.Literal?
    ensures tokens + Glue(literal, [wildcard] + rest)
            == (if |literal| > 0 then tokens + [Literal(literal)] else tokens) + [wildcard] + rest
  {
  }

  lemma TokensStep(pattern: string, index: nat, kind: PatternKind)
    requires index < |pattern|
    ensures var isDouble := kind == Path && index + 1 < |pattern| && pattern[index + 1] == '*';
            Tokens(pattern[index..], kind) ==
            if pattern[index] != '*' then Glue([pattern[index]], Tokens(pattern[index + 1..], kind))
            else if isDouble then [Double] + Tokens(pattern[index + 2..], kind)
            else [Star] + Tokens(pattern[index + 1..], kind)
  {
    assert pattern[index..][1..] == pattern[index + 1..];
    assert index + 1 < |pattern| ==> pattern[index..][2..] == pattern[index + 2..];
  }

  /** The loop as written: one pass, literals collected until a wildcard ends them. */
  method Tokenise(pattern: string, kind: PatternKind) returns (tokens: seq<Token>)
    ensures tokens == Tokens(pattern, kind)
  {
    hide Tokens, Glue;
    tokens := [];
    var literal := "";
    var index := 0;
    assert tokens + Glue(literal, Tokens(pattern[0..], kind)) == Tokens(pattern, kind) by {
      TokensBegin(pattern, kind);
    }
    while index < |pattern|
      invariant 0 <= index <= |pattern|
      invariant tokens + Glue(literal, Tokens(pattern[index..], kind)) == Tokens(pattern, kind)
    {
      var character := pattern[index];
      TokensStep(pattern, index, kind);
      if character != '*' {
        GlueTwice(literal, [character], Tokens(pattern[index + 1..], kind));
        literal := literal + [character];
        index := index + 1;
        continue;
      }
      var isDouble := kind == Path && index + 1 < |pattern| && pattern[index + 1] == '*';
      var wildcard := if isDouble then Double else Star;
      var next := index + if isDouble then 2 else 1;
      FlushBeforeWildcard(tokens, literal, wildcard, Tokens(pattern[next..], kind));
      if |literal| > 0 {
        tokens := tokens + [Literal(literal)];
        literal := "";
      }
      tokens := tokens + [wildcard];
      GlueNothing(tokens, Tokens(pattern[next..], kind));
      index := next;
    }
    TokensEnd(tokens, literal, pattern[index..], kind);
    if |literal| > 0 {
      tokens := tokens + [Literal(literal)];
    }
  }

  lemma TokensBegin(pattern: string, kind: PatternKind)
    ensures [] + Glue("", Tokens(pattern[0..], kind)) == Tokens(pattern, kind)
  {
    assert pattern[0..] == pattern;
  }

  lemma GlueNothing(tokens: seq<Token>, rest: seq<Token>)
    ensures tokens + Glue("", rest) == tokens + rest
  {
  }

  lemma TokensEnd(tokens: seq<Token>, literal: string, rest: string, kind: PatternKind)
    requires rest == ""
    ensures tokens + Glue(literal, Tokens(rest, kind)) == if |literal| > 0 then tokens + [Literal(literal)] else tokens
  {
  }

  lemma GlueSplits(literal: string, tokens: seq<Token>, subject: string, kind: PatternKind)
    requires TokensMatch(Glue(literal, tokens), subject, kind)
    ensures literal <= subject && TokensMatch(tokens, subject[|literal|..], kind)
  {
    hide TokensMatch;
    var glued := Glue(literal, tokens);
    if literal == "" {
      assert subject[0..] == subject;
    } else {
      var k := SplitOf(glued, subject, kind);
      if tokens != [] && tokens[0].Literal? {
        Prepend(Literal(literal + tokens[0].text), tokens[1..]);
        LiteralSplits(literal, tokens[0].text, subject, k);
        SplitAgain(tokens, subject[|literal|..], kind, |tokens[0].text|);
      } else {
        Prepend(Literal(literal), tokens);
      }
    }
  }

  lemma LiteralSplits(literal: string, text: string, subject: string, k: nat)
    requires k <= |subject| && subject[..k] == literal + text
    ensures literal <= subject && k == |literal| + |text|
    ensures subject[|literal|..][..|text|] == text && subject[|literal|..][|text|..] == subject[k..]
  {
    assert subject == literal + text + subject[k..];
  }

  lemma GlueJoins(literal: string, tokens: seq<Token>, subject: string, kind: PatternKind)
    requires literal <= subject && TokensMatch(tokens, subject[|literal|..], kind)
    ensures TokensMatch(Glue(literal, tokens), subject, kind)
  {
    var glued := Glue(literal, tokens);
    if literal == "" {
      assert subject[0..] == subject;
    } else if tokens != [] && tokens[0].Literal? {
      var k := SplitOf(tokens, subject[|literal|..], kind);
      assert glued[1..] == tokens[1..];
      assert subject[..|literal| + k] == literal + tokens[0].text;
      assert subject[|literal|..][k..] == subject[|literal| + k..];
      SplitAgain(glued, subject, kind, |literal| + k);
    } else {
      assert glued[1..] == tokens;
      SplitAgain(glued, subject, kind, |literal|);
    }
  }

  /** Tokenising keeps the meaning. */
  lemma {:induction false} TokensMean(pattern: string, subject: string, kind: PatternKind)
    ensures TokensMatch(Tokens(pattern, kind), subject, kind) <==> Matches(pattern, subject, kind)
    decreases |pattern|
  {
    if pattern == "" {
    } else if pattern[0] != '*' {
      if TokensMatch(Tokens(pattern, kind), subject, kind) {
        GlueSplits([pattern[0]], Tokens(pattern[1..], kind), subject, kind);
      }
      if subject != "" {
        TokensMean(pattern[1..], subject[1..], kind);
        if Matches(pattern, subject, kind) {
          GlueJoins([pattern[0]], Tokens(pattern[1..], kind), subject, kind);
        }
      }
    } else {
      var isDouble := kind == Path && |pattern| > 1 && pattern[1] == '*';
      var tokens, rest := Tokens(pattern, kind), pattern[if isDouble then 2 else 1..];
      assert tokens[1..] == Tokens(rest, kind);
      forall k | 0 <= k <= |subject|
        ensures TokensMatch(tokens[1..], subject[k..], kind) <==> Matches(rest, subject[k..], kind)
      {
        TokensMean(rest, subject[k..], kind);
      }
      if Matches(pattern, subject, kind) {
        var k :| 0 <= k <= |subject| && (isDouble || IsRun(kind, subject[..k])) && Matches(rest, subject[k..], kind);
        SplitAgain(tokens, subject, kind, k);
      }
      if TokensMatch(tokens, subject, kind) {
        var k := SplitOf(tokens, subject, kind);
        assert Matches(rest, subject[k..], kind);
      }
    }
  }

  // ---------- the sweep ----------

  /** A prefix of the subject the tokens read so far can account for. */
  ghost predicate EndsAt(tokens: seq<Token>, subject: string, kind: PatternKind, p: int) {
    0 <= p <= |subject| && TokensMatch(tokens, subject[..p], kind)
  }

  /** `p` is one more token away from a reached position. */
  predicate IsNext(reached: seq<bool>, subject: string, token: Token, kind: PatternKind, p: int)
    requires |reached| == |subject| + 1 && 0 <= p <= |subject|
  {
    exists q :: 0 <= q <= p && reached[q] && TokenMatches(token, subject[q..p], kind)
  }

  lemma {:induction false} SnocSplits(tokens: seq<Token>, last: Token, subject: string, kind: PatternKind)
    returns (k: nat)
    requires TokensMatch(tokens + [last], subject, kind)
    ensures EndsAt(tokens, subject, kind, k) && TokenMatches(last, subject[k..], kind)
  {
    var all := tokens + [last];
    var j := SplitOf(all, subject, kind);
    if tokens == [] {
      assert subject[0..] == subject[..j];
      k := 0;
    } else {
      assert all[1..] == tokens[1..] + [last];
      var m := SnocSplits(tokens[1..], last, subject[j..], kind);
      k := j + m;
      assert subject[..k][..j] == subject[..j] && subject[..k][j..] == subject[j..][..m];
      assert subject[j..][m..] == subject[k..];
      SplitAgain(tokens, subject[..k], kind, j);
    }
  }

  lemma {:induction false} SnocJoins(tokens: seq<Token>, last: Token, subject: string, kind: PatternKind, k: nat)
    requires EndsAt(tokens, subject, kind, k) && TokenMatches(last, subject[k..], kind)
    ensures TokensMatch(tokens + [last], subject, kind)
  {
    var all := tokens + [last];
    if tokens == [] {
      assert k == 0 && subject[0..] == subject[..|subject|];
      SplitAgain(all, subject, kind, |subject|);
    } else {
      var j := SplitOf(tokens, subject[..k], kind);
      assert subject[..k][..j] == subject[..j] && subject[..k][j..] == subject[j..][..k - j];
      assert subject[j..][k - j..] == subject[k..];
      SnocJoins(tokens[1..], last, subject[j..], kind, k - j);
      assert all[1..] == tokens[1..] + [last];
      SplitAgain(all, subject, kind, j);
    }
  }

  /** One sweep extends the set of reachable ends by one token. */
  lemma SweepIsExact(tokens: seq<Token>, last: Token, subject: string, kind: PatternKind, reached: seq<bool>, p: int)
    requires |reached| == |subject| + 1 && 0 <= p <= |subject|
    requires forall q | 0 <= q <= |subject| :: reached[q] <==> EndsAt(tokens, subject, kind, q)
    ensures IsNext(reached, subject, last, kind, p) <==> EndsAt(tokens + [last], subject, kind, p)
  {
    var prefix := subject[..p];
    if IsNext(reached, subject, last, kind, p) {
      var q :| 0 <= q <= p && reached[q] && TokenMatches(last, subject[q..p], kind);
      assert prefix[..q] == subject[..q] && prefix[q..] == subject[q..p];
      SnocJoins(tokens, last, prefix, kind, q);
    }
    if EndsAt(tokens + [last], subject, kind, p) {
      var q := SnocSplits(tokens, last, prefix, kind);
      assert prefix[..q] == subject[..q] && prefix[q..] == subject[q..p];
    }
  }

  /** Whether a run begun at some reached position is still open when the sweep arrives at `p`. */
  function IsOpenAt(reached: seq<bool>, subject: string, stopAt: Option<PatternKind>, p: nat): bool
    requires |reached| == |subject| + 1 && p <= |subject| + 1
  {
    p > 0 && (reached[p - 1] || IsOpenAt(reached, subject, stopAt, p - 1))
    && !(stopAt.Some? && p <= |subject| && IsSeparator(stopAt.value, subject[p - 1]))
  }

  function StopOf(token: Token, kind: PatternKind): Option<PatternKind> {
    if token.Star? then Some(kind) else None
  }

  lemma RunGrows(kind: PatternKind, text: string, c: char)
    ensures IsRun(kind, text + [c]) <==> IsRun(kind, text) && !IsSeparator(kind, c)
  {
    assert (text + [c])[|text|] == c;
    assert forall i | 0 <= i < |text| :: (text + [c])[i] == text[i];
  }

  lemma {:induction false} OpenMeansRun(reached: seq<bool>, subject: string, token: Token, kind: PatternKind, p: nat)
    requires !token.Literal? && |reached| == |subject| + 1 && p <= |subject|
    ensures reached[p] || IsOpenAt(reached, subject, StopOf(token, kind), p)
            <==> IsNext(reached, subject, token, kind, p)
  {
    assert subject[p..p] == "";
    if p > 0 {
      OpenMeansRun(reached, subject, token, kind, p - 1);
      forall q | 0 <= q < p
        ensures TokenMatches(token, subject[q..p], kind) <==>
                  TokenMatches(token, subject[q..p - 1], kind)
                  && !(token.Star? && IsSeparator(kind, subject[p - 1]))
      {
        assert subject[q..p] == subject[q..p - 1] + [subject[p - 1]];
        RunGrows(kind, subject[q..p - 1], subject[p - 1]);
      }
    }
  }

  /** `text` ends at `p` and begins at a reached position. */
  predicate IsAfter(reached: seq<bool>, subject: string, text: string, p: nat)
    requires |reached| == |subject| + 1 && p <= |subject|
  {
    |text| <= p && reached[p - |text|] && subject[p - |text|..p] == text
  }

  lemma AfterIsNext(reached: seq<bool>, subject: string, text: string, kind: PatternKind, p: nat)
    requires |reached| == |subject| + 1 && p <= |subject|
    ensures IsAfter(reached, subject, text, p) <==> IsNext(reached, subject, Literal(text), kind, p)
  {
    if IsAfter(reached, subject, text, p) {
      assert TokenMatches(Literal(text), subject[p - |text|..p], kind);
    }
  }

  lemma NoneBefore(reached: seq<bool>, subject: string, text: string)
    requires |reached| == |subject| + 1
    ensures forall p | 0 <= p <= |subject| && p < |text| :: !IsAfter(reached, subject, text, p)
  {
  }

  lemma OnceMore(n: nat, cost: nat)
    ensures (n + 1) * cost == n * cost + cost && n * (cost + 1) == n * cost + n && n * cost == cost * n
  {
  }

  lemma TextAt(reached: seq<bool>, subject: string, text: string, position: nat)
    requires |reached| == |subject| + 1 && position <= |subject|
    ensures reached[position] && text <= subject[position..] <==>
              position + |text| <= |subject| && IsAfter(reached, subject, text, position + |text|)
  {
    if text <= subject[position..] {
      assert subject[position..][..|text|] == subject[position..position + |text|];
    }
    if position + |text| <= |subject| && subject[position..position + |text|] == text {
      assert text == subject[position..][..|text|];
    }
  }

  /** The positions the pattern read so far can end at, over two buffers that swap roles. */
  class Reach {
    const subject: string
    var current: array<bool>
    var next: array<bool>
    ghost var steps: nat

    ghost predicate Valid()
      reads this
    {
      current.Length == |subject| + 1 && next.Length == |subject| + 1 && current != next
    }

    constructor (subject: string)
      ensures Valid() && fresh(current) && fresh(next) && this.subject == subject
      ensures current[..] == [true] + seq(|subject|, _ => false) && steps == 0
    {
      this.subject := subject;
      current := new bool[|subject| + 1](i => i == 0);
      next := new bool[|subject| + 1](_ => false);
      steps := 0;
      new;
      assert current[..] == [true] + seq(|subject|, _ => false);
    }

    /** `fill(0)`. */
    method Clear()
      requires Valid()
      modifies this`steps, next
      ensures forall p | 0 <= p <= |subject| :: !next[p]
      ensures steps == old(steps) + |subject| + 1
    {
      for i := 0 to |subject| + 1
        invariant forall p | 0 <= p < i :: !next[p]
        invariant steps == old(steps) + i
      {
        next[i] := false;
        steps := steps + 1;
      }
    }

    /** Every entry of the buffer swapped in is written by this sweep; none survives from an earlier one. */
    method Literal(text: string, ghost kind: PatternKind)
      requires Valid()
      modifies this`current, this`next, this`steps, current, next
      ensures Valid() && {current, next} == {old(current), old(next)}
      ensures forall p | 0 <= p <= |subject| ::
                current[p] <==> IsNext(old(current[..]), subject, Token.Literal(text), kind, p)
      ensures steps == old(steps) + (|text| + 2) * (|subject| + 1)
    {
      hide IsAfter, IsNext;
      ghost var was := current[..];
      Clear();
      NoneBefore(was, subject, text);
      assert current[..] == was;
      ghost var cost := |text| + 1;
      for position := 0 to |subject| + 1
        invariant current == old(current) && next == old(next) && current[..] == was
        invariant forall p | 0 <= p <= |subject| :: next[p] <==> p < position + |text| && IsAfter(was, subject, text, p)
        invariant steps == old(steps) + |subject| + 1 + position * cost
      {
        var isHere := current[position] && text <= subject[position..];
        TextAt(was, subject, text, position);
        if isHere {
          next[position + |text|] := true;
        }
        steps := steps + cost;
        OnceMore(position, cost);
      }
      OnceMore(|subject| + 1, cost);
      forall p | 0 <= p <= |subject|
        ensures next[p] <==> IsNext(was, subject, Token.Literal(text), kind, p)
      {
        AfterIsNext(was, subject, text, kind, p);
      }
      current, next := next, current;
    }

    method Wildcard(stopAt: Option<PatternKind>, ghost token: Token, ghost kind: PatternKind)
      requires Valid() && !token.Literal? && stopAt == StopOf(token, kind)
      modifies this`current, this`next, this`steps, current, next
      ensures Valid() && {current, next} == {old(current), old(next)}
      ensures forall p | 0 <= p <= |subject| :: current[p] <==> IsNext(old(current[..]), subject, token, kind, p)
      ensures steps == old(steps) + |subject| + 1
    {
      ghost var was := current[..];
      var isOpen := false;
      for position := 0 to |subject| + 1
        invariant current == old(current) && next == old(next) && current[..] == was
        invariant isOpen == IsOpenAt(was, subject, stopAt, position)
        invariant forall p | 0 <= p < position :: next[p] <==> IsNext(was, subject, token, kind, p)
        invariant steps == old(steps) + position
      {
        OpenMeansRun(was, subject, token, kind, position);
        isOpen := isOpen || current[position];
        next[position] := isOpen;
        if stopAt.Some? && position < |subject| && IsSeparator(stopAt.value, subject[position]) {
          isOpen := false;
        }
        steps := steps + 1;
      }
      current, next := next, current;
    }
  }

  // ---------- matching ----------

  /** The steps a token's sweep takes at each position of the subject. */
  function Cost(token: Token): nat {
    if token.Literal? then |token.text| + 2 else 1
  }

  function TotalCost(tokens: seq<Token>): nat {
    if tokens == [] then 0 else TotalCost(tokens[..|tokens| - 1]) + Cost(tokens[|tokens| - 1])
  }

  /** At most three a pattern character. */
  lemma {:induction false} CostWithinWeight(tokens: seq<Token>)
    requires NoEmptyLiteral(tokens)
    ensures TotalCost(tokens) <= 3 * Weight(tokens)
  {
    if tokens != [] {
      var front, last := tokens[..|tokens| - 1], tokens[|tokens| - 1];
      CostWithinWeight(front);
      WeightGrows(front, last);
      assert front + [last] == tokens;
    }
  }

  lemma {:induction false} WeightGrows(tokens: seq<Token>, last: Token)
    ensures Weight(tokens + [last]) == Weight(tokens) + if last.Literal? then |last.text| else 1
  {
    if tokens != [] {
      WeightGrows(tokens[1..], last);
      assert (tokens + [last])[1..] == tokens[1..] + [last];
    }
  }

  lemma Distributes(a: nat, b: nat, n: nat)
    ensures (a + b) * n == a * n + b * n
  {
  }

  lemma GrowsWith(a: nat, b: nat, n: nat)
    requires a <= b
    ensures a * n <= b * n
  {
  }

  ghost predicate Reaches(reached: seq<bool>, tokens: seq<Token>, subject: string, kind: PatternKind) {
    |reached| == |subject| + 1 && forall p | 0 <= p <= |subject| :: reached[p] <==> EndsAt(tokens, subject, kind, p)
  }

  lemma NothingReadYet(reached: seq<bool>, subject: string, kind: PatternKind)
    requires reached == [true] + seq(|subject|, _ => false)
    ensures Reaches(reached, [], subject, kind)
  {
  }

  lemma SweptByOne(was: seq<bool>, now: seq<bool>, tokens: seq<Token>, i: nat, subject: string, kind: PatternKind)
    requires i < |tokens| && Reaches(was, tokens[..i], subject, kind) && |now| == |subject| + 1
    requires forall p | 0 <= p <= |subject| :: now[p] <==> IsNext(was, subject, tokens[i], kind, p)
    ensures Reaches(now, tokens[..i + 1], subject, kind)
  {
    assert tokens[..i + 1] == tokens[..i] + [tokens[i]];
    forall p | 0 <= p <= |subject|
      ensures now[p] <==> EndsAt(tokens[..i + 1], subject, kind, p)
    {
      SweepIsExact(tokens[..i], tokens[i], subject, kind, was, p);
    }
  }

  lemma CostsOneMore(tokens: seq<Token>, i: nat, n: nat)
    requires i < |tokens|
    ensures TotalCost(tokens[..i + 1]) * n == TotalCost(tokens[..i]) * n + Cost(tokens[i]) * n
  {
    assert tokens[..i + 1][..i] == tokens[..i];
    Distributes(TotalCost(tokens[..i]), Cost(tokens[i]), n);
  }

  lemma WholePatternRead(reached: seq<bool>, pattern: string, subject: string, kind: PatternKind)
    requires Reaches(reached, Tokens(pattern, kind), subject, kind)
    ensures reached[|subject|] <==> Matches(pattern, subject, kind)
    ensures TotalCost(Tokens(pattern, kind)) * (|subject| + 1) <= 3 * |pattern| * (|subject| + 1)
  {
    assert subject[..|subject|] == subject;
    TokensMean(pattern, subject, kind);
    TokensAreSound(pattern, kind);
    CostWithinWeight(Tokens(pattern, kind));
    GrowsWith(TotalCost(Tokens(pattern, kind)), 3 * |pattern|, |subject| + 1);
  }

  method IsPatternMatch(pattern: string, subject: string, kind: PatternKind)
    returns (matched: bool, ghost steps: nat)
    ensures matched <==> Matches(pattern, subject, kind)
    ensures steps <= 3 * |pattern| * (|subject| + 1)
  {
    hide Tokens, Reaches, TokensMatch, EndsAt, IsNext, Matches, TotalCost, TokenMatches;
    var tokens := Tokenise(pattern, kind);
    var reach := new Reach(subject);
    NothingReadYet(reach.current[..], subject, kind);
    assert TotalCost(tokens[..0]) == 0 by { NothingCosts(tokens[..0]); }
    for i := 0 to |tokens|
      invariant fresh(reach) && fresh(reach.current) && fresh(reach.next)
      invariant reach.Valid() && reach.subject == subject
      invariant Reaches(reach.current[..], tokens[..i], subject, kind)
      invariant reach.steps == TotalCost(tokens[..i]) * (|subject| + 1)
    {
      ghost var was := reach.current[..];
      var token := tokens[i];
      if token.Literal? {
        reach.Literal(token.text, kind);
      } else {
        reach.Wildcard(StopOf(token, kind), token, kind);
      }
      SweptByOne(was, reach.current[..], tokens, i, subject, kind);
      CostsOneMore(tokens, i, |subject| + 1);
    }
    assert tokens[..|tokens|] == tokens;
    matched := reach.current[|subject|];
    steps := reach.steps;
    WholePatternRead(reach.current[..], pattern, subject, kind);
  }

  lemma NothingCosts(tokens: seq<Token>)
    requires tokens == []
    ensures TotalCost(tokens) == 0
  {
  }

  // ---------- commandPatternProblem ----------

  predicate IsAllStars(pattern: string) {
    forall i | 0 <= i < |pattern| :: pattern[i] == '*'
  }

  /** What the empty command tells about a pattern: that it is stars and nothing else. */
  lemma {:induction false} MatchesNothingIffAllStars(pattern: string)
    ensures Matches(pattern, "", Command) <==> IsAllStars(pattern)
  {
    if pattern != "" {
      MatchesNothingIffAllStars(pattern[1..]);
      assert IsAllStars(pattern) <==> pattern[0] == '*' && IsAllStars(pattern[1..]) by {
        assert forall i | 1 <= i < |pattern| :: pattern[i] == pattern[1..][i - 1];
      }
      assert ""[0..] == "";
    }
  }

  predicate IsOneLine(text: string) {
    forall i | 0 <= i < |text| :: text[i] != '\r' && text[i] != '\n'
  }

  lemma RunIsOneLine(text: string)
    ensures IsRun(Command, text) <==> IsOneLine(text)
  {
  }

  /** Such a pattern matches every one-line command and nothing else; the refusal's wording, "every command", is
      generous. */
  lemma {:induction false} AllStarsMatchOneLine(pattern: string, subject: string)
    requires pattern != "" && IsAllStars(pattern)
    ensures Matches(pattern, subject, Command)
            <==> forall i | 0 <= i < |subject| :: subject[i] != '\r' && subject[i] != '\n'
  {
    RunIsOneLine(subject);
    var rest := pattern[1..];
    if IsOneLine(subject) {
      MatchesNothingIffAllStars(rest);
      assert subject[..|subject|] == subject && subject[|subject|..] == "";
    }
    if Matches(pattern, subject, Command) {
      var k :| 0 <= k <= |subject| && IsRun(Command, subject[..k]) && Matches(rest, subject[k..], Command);
      RunIsOneLine(subject[..k]);
      if rest != "" {
        AllStarsMatchOneLine(rest, subject[k..]);
        LinesJoin(subject, k);
      } else {
        assert subject[..k] == subject;
      }
    }
  }

  lemma LinesJoin(text: string, k: nat)
    requires k <= |text|
    ensures IsOneLine(text) <==> IsOneLine(text[..k]) && IsOneLine(text[k..])
  {
    assert forall i | 0 <= i < |text| :: text[i] == if i < k then text[..k][i] else text[k..][i - k];
    assert forall i | 0 <= i < |text| - k :: text[k..][i] == text[k + i];
  }

  /** No wildcard of a command reaches past a line: what a one-line pattern matches is one line. */
  lemma {:induction false} CommandStaysOnItsLine(pattern: string, subject: string)
    requires IsOneLine(pattern) && Matches(pattern, subject, Command)
    ensures forall i | 0 <= i < |subject| :: subject[i] != '\r' && subject[i] != '\n'
  {
    if pattern != "" {
      LinesJoin(pattern, 1);
      if pattern[0] != '*' {
        CommandStaysOnItsLine(pattern[1..], subject[1..]);
        LinesJoin(subject, 1);
      } else {
        var k :| 0 <= k <= |subject| && IsRun(Command, subject[..k]) && Matches(pattern[1..], subject[k..], Command);
        CommandStaysOnItsLine(pattern[1..], subject[k..]);
        RunIsOneLine(subject[..k]);
        LinesJoin(subject, k);
      }
    }
  }

  // ---------- paths ----------

  function Slashes(text: string): nat {
    if text == "" then 0 else (if text[0] == '/' then 1 else 0) + Slashes(text[1..])
  }

  predicate HasDouble(pattern: string) {
    exists i :: 0 <= i < |pattern| - 1 && pattern[i] == '*' && pattern[i + 1] == '*'
  }

  lemma {:induction false} SlashesJoin(text: string, k: nat)
    requires k <= |text|
    ensures Slashes(text) == Slashes(text[..k]) + Slashes(text[k..])
  {
    if k == 0 {
      assert text[0..] == text;
    } else {
      SlashesJoin(text[1..], k - 1);
      assert text[..k][1..] == text[1..][..k - 1] && text[k..] == text[1..][k - 1..];
    }
  }

  lemma {:induction false} RunHasNoSlash(text: string)
    ensures IsRun(Path, text) <==> Slashes(text) == 0
  {
    if text != "" {
      RunHasNoSlash(text[1..]);
      assert IsRun(Path, text) <==> text[0] != '/' && IsRun(Path, text[1..]) by {
        assert forall i | 1 <= i < |text| :: text[i] == text[1..][i - 1];
      }
    }
  }

  lemma TailHasNoDouble(pattern: string)
    requires pattern != "" && !HasDouble(pattern)
    ensures !HasDouble(pattern[1..]) && !(|pattern| > 1 && pattern[0] == '*' && pattern[1] == '*')
  {
  }

  /** Without `**` a path pattern matches segment by segment: as many slashes as its own. */
  lemma {:induction false} PathKeepsItsSlashes(pattern: string, subject: string)
    requires !HasDouble(pattern) && Matches(pattern, subject, Path)
    ensures Slashes(subject) == Slashes(pattern)
  {
    if pattern != "" {
      TailHasNoDouble(pattern);
      if pattern[0] != '*' {
        PathKeepsItsSlashes(pattern[1..], subject[1..]);
      } else {
        var k :| 0 <= k <= |subject| && IsRun(Path, subject[..k]) && Matches(pattern[1..], subject[k..], Path);
        PathKeepsItsSlashes(pattern[1..], subject[k..]);
        RunHasNoSlash(subject[..k]);
        SlashesJoin(subject, k);
      }
    }
  }

  /** Alone, `*` matches any one segment, and `**` any path. */
  lemma WildcardsAlone(subject: string)
    ensures Matches("*", subject, Path) <==> '/' !in subject
    ensures Matches("**", subject, Path)
  {
    assert "*"[1..] == "" && "**"[2..] == "";
    assert subject[..|subject|] == subject && subject[|subject|..] == "";
    if k :| 0 <= k <= |subject| && IsRun(Path, subject[..k]) && Matches("*"[1..], subject[k..], Path) {
      assert subject[..k] == subject;
    }
  }

  /** A pattern without `*` matches itself and nothing else. */
  lemma {:induction false} PlainMatchesItself(pattern: string, subject: string, kind: PatternKind)
    requires '*' !in pattern
    ensures Matches(pattern, subject, kind) <==> subject == pattern
  {
    if pattern != "" {
      assert forall c | c in pattern[1..] :: c in pattern;
      if subject != "" {
        PlainMatchesItself(pattern[1..], subject[1..], kind);
        assert subject == [subject[0]] + subject[1..] && pattern == [pattern[0]] + pattern[1..];
      }
    }
  }

  /** What matches two patterns one after the other matches the two put together, unless the seam makes a `**`. */
  lemma {:induction false} MatchesTogether(a: string, b: string, s: string, t: string, kind: PatternKind)
    requires Matches(a, s, kind) && Matches(b, t, kind)
    requires a != "" && b != "" ==> a[|a| - 1] != '*' || b[0] != '*'
    ensures Matches(a + b, s + t, kind)
    decreases |a|
  {
    if a == "" {
      assert a + b == b && s + t == t;
    } else {
      var skip := if a[0] == '*' && kind == Path && |a| > 1 && a[1] == '*' then 2 else 1;
      assert (a + b)[skip..] == a[skip..] + b;
      if a[0] != '*' {
        MatchesTogether(a[1..], b, s[1..], t, kind);
        assert (s + t)[1..] == s[1..] + t;
      } else {
        var k :| 0 <= k <= |s| && (skip == 2 || IsRun(kind, s[..k])) && Matches(a[skip..], s[k..], kind);
        MatchesTogether(a[skip..], b, s[k..], t, kind);
        assert (s + t)[k..] == s[k..] + t && (s + t)[..k] == s[..k];
      }
    }
  }

  // ---------- the first open pattern ----------

  predicate IsFirstOpen(patterns: seq<string>, i: nat)
    requires i < |patterns|
  {
    && patterns[i] != "" && IsAllStars(patterns[i])
    && forall j | 0 <= j < i :: patterns[j] == "" || !IsAllStars(patterns[j])
  }

  /** Refused exactly when some pattern is a non-empty run of stars and `any_command` is off; the first is named. */
  method CommandPatternProblem(patterns: seq<string>, isAnyCommand: bool) returns (open: Option<string>)
    ensures open.None?
            <==> isAnyCommand || forall i | 0 <= i < |patterns| :: patterns[i] == "" || !IsAllStars(patterns[i])
    ensures open.Some? ==> exists i :: 0 <= i < |patterns| && open.value == patterns[i] && IsFirstOpen(patterns, i)
  {
    open := None;
    if isAnyCommand {
      return;
    }
    for i := 0 to |patterns|
      invariant forall j | 0 <= j < i :: patterns[j] == "" || !IsAllStars(patterns[j])
    {
      var matched, _ := IsPatternMatch(patterns[i], "", Command);
      MatchesNothingIffAllStars(patterns[i]);
      if |patterns[i]| > 0 && matched {
        assert IsFirstOpen(patterns, i);
        return Some(patterns[i]);
      }
    }
  }
}
