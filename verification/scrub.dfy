/** The scrubber's scan: longest variant first at each position, left to right, and the same table at byte level. */
module Scrub {
  import opened Sequences
  import opened Wrappers

  datatype Entry<T> = Entry(variant: seq<T>, marker: seq<T>)

  predicate AllNonEmpty<T>(entries: seq<Entry<T>>) {
    forall i | 0 <= i < |entries| :: entries[i].variant != []
  }

  // ---------- the reference: leftmost, longest, first listed ----------

  /** The longest variant `rest` starts with; among equal variants the first listed. */
  function Best<T(==)>(entries: seq<Entry<T>>, rest: seq<T>): (r: Option<Entry<T>>)
    ensures r.Some? ==> r.value in entries && r.value.variant <= rest
  {
    if entries == [] then None
    else
      var head, tail := entries[0], Best(entries[1..], rest);
      if head.variant <= rest && (tail.None? || |head.variant| >= |tail.value.variant|) then Some(head) else tail
  }

  lemma {:induction false} BestIsLongest<T>(entries: seq<Entry<T>>, rest: seq<T>)
    ensures var r := Best(entries, rest);
            if r.None? then forall e | e in entries :: !(e.variant <= rest)
            else forall e | e in entries && e.variant <= rest :: |e.variant| <= |r.value.variant|
  {
    if entries != [] {
      BestIsLongest(entries[1..], rest);
      assert forall e | e in entries :: e == entries[0] || e in entries[1..];
    }
  }

  /** Replace the best match at each position and resume after it; a marker is never scanned again. */
  function Scan<T(==)>(entries: seq<Entry<T>>, rest: seq<T>): seq<T>
    requires AllNonEmpty(entries)
    decreases |rest|
  {
    if rest == [] then []
    else
      var hit := Best(entries, rest);
      if hit.None? then [rest[0]] + Scan(entries, rest[1..])
      else hit.value.marker + Scan(entries, rest[|hit.value.variant|..])
  }

  // ---------- what the scan does to its input ----------

  datatype Piece<T> = Literal(item: T) | Hit(entry: Entry<T>)

  function Pieces<T(==)>(entries: seq<Entry<T>>, rest: seq<T>): seq<Piece<T>>
    requires AllNonEmpty(entries)
    decreases |rest|
  {
    if rest == [] then []
    else
      var hit := Best(entries, rest);
      if hit.None? then [Literal(rest[0])] + Pieces(entries, rest[1..])
      else [Hit(hit.value)] + Pieces(entries, rest[|hit.value.variant|..])
  }

  function Taken<T>(piece: Piece<T>): seq<T> {
    if piece.Literal? then [piece.item] else piece.entry.variant
  }

  function Left<T>(piece: Piece<T>): seq<T> {
    if piece.Literal? then [piece.item] else piece.entry.marker
  }

  function Before<T>(pieces: seq<Piece<T>>): seq<T> {
    if pieces == [] then [] else Taken(pieces[0]) + Before(pieces[1..])
  }

  function After<T>(pieces: seq<Piece<T>>): seq<T> {
    if pieces == [] then [] else Left(pieces[0]) + After(pieces[1..])
  }

  lemma PrependPiece<T>(piece: Piece<T>, pieces: seq<Piece<T>>)
    ensures Before([piece] + pieces) == Taken(piece) + Before(pieces)
    ensures After([piece] + pieces) == Left(piece) + After(pieces)
  {
    Prepend(piece, pieces);
  }

  /** The first piece: what it takes of the input and leaves in the output. */
  lemma FirstPiece<T>(entries: seq<Entry<T>>, rest: seq<T>) returns (n: nat)
    requires AllNonEmpty(entries) && rest != []
    ensures 0 < n <= |rest|
    ensures var pieces := Pieces(entries, rest);
            && pieces == [pieces[0]] + Pieces(entries, rest[n..]) && (pieces[0].Literal? ==> n == 1)
            && (pieces[0].Hit? ==> pieces[0].entry in entries) && rest[..n] == Taken(pieces[0])
            && Scan(entries, rest) == Left(pieces[0]) + Scan(entries, rest[n..])
  {
    var hit := Best(entries, rest);
    n := if hit.None? then 1 else |hit.value.variant|;
  }

  /** The input is cut into literals, copied unchanged, and whole variants, each replaced by its own marker. */
  lemma {:induction false} LiteralsAreCopied<T>(entries: seq<Entry<T>>, rest: seq<T>)
    requires AllNonEmpty(entries)
    ensures Before(Pieces(entries, rest)) == rest
    ensures After(Pieces(entries, rest)) == Scan(entries, rest)
    ensures forall p | p in Pieces(entries, rest) && p.Hit? :: p.entry in entries
    decreases |rest|
  {
    if rest != [] {
      var n := FirstPiece(entries, rest);
      LiteralsAreCopied(entries, rest[n..]);
      hide Pieces, Before, After, Scan, Taken, Left, AllNonEmpty;
      PrependPiece(Pieces(entries, rest)[0], Pieces(entries, rest[n..]));
      Halves(rest, n);
    }
  }

  /** Position `p` lies in a region the scan from `from` replaces. */
  predicate IsReplaced<T(==)>(entries: seq<Entry<T>>, input: seq<T>, from: nat, p: nat)
    requires AllNonEmpty(entries) && from <= |input|
    decreases |input| - from
  {
    if from == |input| || p < from then false
    else
      var hit := Best(entries, input[from..]);
      if hit.None? then IsReplaced(entries, input, from + 1, p)
      else p < from + |hit.value.variant| || IsReplaced(entries, input, from + |hit.value.variant|, p)
  }

  /** No variant survives: wherever one occurs in the input, the region replaced covers its first position. */
  lemma {:induction false} EveryOccurrenceIsHit<T>(entries: seq<Entry<T>>, input: seq<T>, from: nat, e: Entry<T>,
                                                   p: nat)
    requires AllNonEmpty(entries) && from <= p < |input| && e in entries && e.variant <= input[p..]
    ensures IsReplaced(entries, input, from, p)
    decreases |input| - from
  {
    var hit := Best(entries, input[from..]);
    BestIsLongest(entries, input[from..]);
    if hit.None? {
      EveryOccurrenceIsHit(entries, input, from + 1, e, p);
    } else if from + |hit.value.variant| <= p {
      EveryOccurrenceIsHit(entries, input, from + |hit.value.variant|, e, p);
    }
  }

  // ---------- the scan told by its occurrences ----------

  ghost predicate NoneBegins<T>(entries: seq<Entry<T>>, rest: seq<T>) {
    forall e | e in entries :: !(e.variant <= rest)
  }

  lemma OneCopied<T>(entries: seq<Entry<T>>, first: T, rest: seq<T>)
    requires AllNonEmpty(entries) && NoneBegins(entries, [first] + rest)
    ensures Scan(entries, [first] + rest) == [first] + Scan(entries, rest)
  {
    Prepend(first, rest);
    hide AllNonEmpty;
    assert Best(entries, [first] + rest).None?;
  }

  /** Where no variant begins, the scan copies. */
  lemma {:induction false} ScanCopies<T>(entries: seq<Entry<T>>, before: seq<T>, rest: seq<T>)
    requires AllNonEmpty(entries) && forall p | 0 <= p < |before| :: NoneBegins(entries, before[p..] + rest)
    ensures Scan(entries, before + rest) == before + Scan(entries, rest)
    decreases |before|
  {
    hide Scan, NoneBegins, AllNonEmpty;
    if before == [] {
      assert before + rest == rest && before + Scan(entries, rest) == Scan(entries, rest);
    } else {
      var first, others := before[0], before[1..];
      assert before[0..] + rest == before + rest == [first] + (others + rest);
      forall p | 0 <= p < |others|
        ensures NoneBegins(entries, others[p..] + rest)
      {
        assert others[p..] == before[p + 1..];
      }
      ScanCopies(entries, others, rest);
      OneCopied(entries, first, others + rest);
      assert [first] + (others + Scan(entries, rest)) == before + Scan(entries, rest);
    }
  }

  lemma OccurrencesAre<T>(entries: seq<Entry<T>>, before: seq<T>, rest: seq<T>)
    requires forall e, p | e in entries && 0 <= p < |before| :: !(e.variant <= (before + rest)[p..])
    ensures forall p | 0 <= p < |before| :: NoneBegins(entries, before[p..] + rest)
  {
    forall p | 0 <= p < |before|
      ensures NoneBegins(entries, before[p..] + rest)
    {
      assert (before + rest)[p..] == before[p..] + rest;
    }
  }

  /** A text in which no variant occurs is left as it is. */
  lemma NothingToScrub<T>(entries: seq<Entry<T>>, input: seq<T>)
    requires AllNonEmpty(entries) && forall e, p | e in entries && 0 <= p < |input| :: !(e.variant <= input[p..])
    ensures Scan(entries, input) == input
  {
    assert input + [] == input;
    OccurrencesAre(entries, input, []);
    ScanCopies(entries, input, []);
  }

  lemma SamePrefix<T>(a: seq<T>, b: seq<T>, rest: seq<T>)
    ensures a <= rest && b <= rest && |a| == |b| ==> a == b
  {
  }

  /** The first listed of the longest variants. */
  lemma {:induction false} BestIs<T>(entries: seq<Entry<T>>, rest: seq<T>, at: nat)
    requires at < |entries| && entries[at].variant <= rest
    requires forall i | 0 <= i < |entries| && entries[i].variant <= rest ::
               |entries[i].variant| <= |entries[at].variant|
    requires forall i | 0 <= i < at :: entries[i].variant != entries[at].variant
    ensures Best(entries, rest) == Some(entries[at])
  {
    if at > 0 {
      assert entries[1..][at - 1] == entries[at];
      assert forall i | 0 <= i < |entries| - 1 :: entries[1..][i] == entries[i + 1];
      BestIs(entries[1..], rest, at - 1);
      SamePrefix(entries[0].variant, entries[at].variant, rest);
    } else {
      BestIsLongest(entries[1..], rest);
    }
  }

  /** The leftmost occurrence, of the longest variant there, is replaced by the marker first listed for it, and the scan
      goes on behind it. */
  lemma {:induction false} LeftmostLongestIsReplaced<T>(entries: seq<Entry<T>>, before: seq<T>, at: nat, rest: seq<T>)
    requires AllNonEmpty(entries) && at < |entries|
    requires var input := before + (entries[at].variant + rest);
             && (forall e, p | e in entries && 0 <= p < |before| :: !(e.variant <= input[p..]))
             && (forall e | e in entries && e.variant <= entries[at].variant + rest ::
                   |e.variant| <= |entries[at].variant|)
    requires forall i | 0 <= i < at :: entries[i].variant != entries[at].variant
    ensures Scan(entries, before + (entries[at].variant + rest)) == before + (entries[at].marker + Scan(entries, rest))
  {
    var e := entries[at];
    OccurrencesAre(entries, before, e.variant + rest);
    ScanCopies(entries, before, e.variant + rest);
    BestIs(entries, e.variant + rest, at);
    ScanUnfolds(entries, e.variant + rest);
    hide Scan, Best, NoneBegins, AllNonEmpty;
    assert (e.variant + rest)[|e.variant|..] == rest;
  }

  // ---------- what is left in the output ----------

  ghost predicate IsLiteralRun<T>(pieces: seq<Piece<T>>, from: nat, to: nat) {
    from <= to <= |pieces| && forall i | from <= i < to :: pieces[i].Literal?
  }

  lemma {:induction false} AfterJoins<T>(a: seq<Piece<T>>, b: seq<Piece<T>>)
    ensures After(a + b) == After(a) + After(b)
  {
    if a == [] {
      assert a + b == b;
    } else {
      AfterJoins(a[1..], b);
      hide After;
      Uncons(a, b);
      PrependPiece(a[0], a[1..] + b);
      PrependPiece(a[0], a[1..]);
      Associates(Left(a[0]), After(a[1..]), After(b));
    }
  }

  /** Literals at the beginning are the beginning of the input. */
  lemma {:induction false} LeadingLiterals<T>(entries: seq<Entry<T>>, rest: seq<T>, n: nat)
    requires AllNonEmpty(entries) && IsLiteralRun(Pieces(entries, rest), 0, n)
    ensures n <= |rest| && After(Pieces(entries, rest)[..n]) == rest[..n]
  {
    var pieces := Pieces(entries, rest);
    if n > 0 {
      assert pieces[0].Literal? && pieces[1..] == Pieces(entries, rest[1..]);
      assert forall i | 0 <= i < n - 1 :: pieces[1..][i] == pieces[i + 1];
      LeadingLiterals(entries, rest[1..], n - 1);
      PrependPiece(pieces[0], pieces[1..][..n - 1]);
      assert pieces[..n] == [pieces[0]] + pieces[1..][..n - 1];
    }
  }

  lemma RunInTail<T>(first: Piece<T>, tail: seq<Piece<T>>, from: nat, to: nat)
    requires IsLiteralRun([first] + tail, from, to) && 0 < to
    ensures IsLiteralRun(tail, if from > 0 then from - 1 else 0, to - 1)
    ensures from > 0 ==> ([first] + tail)[from..to] == tail[from - 1..to - 1]
  {
    assert forall i | 0 <= i < |tail| :: tail[i] == ([first] + tail)[i + 1];
  }

  lemma NothingBestBegins<T>(entries: seq<Entry<T>>, rest: seq<T>, run: seq<T>, e: Entry<T>)
    requires AllNonEmpty(entries) && rest != [] && Pieces(entries, rest)[0].Literal? && run <= rest && e in entries
    ensures !(e.variant <= run)
  {
    BestIsLongest(entries, rest);
  }

  lemma SameSuffix<T>(s: seq<T>, to: nat, k: nat)
    requires 0 < k <= to <= |s|
    ensures s[1..][..to - 1][k - 1..] == s[..to][k..]
  {
  }

  lemma {:induction false} NoVariantInLead<T>(entries: seq<Entry<T>>, rest: seq<T>, to: nat, e: Entry<T>, k: nat)
    requires AllNonEmpty(entries) && IsLiteralRun(Pieces(entries, rest), 0, to) && e in entries && k <= to <= |rest|
    ensures !(e.variant <= rest[..to][k..])
  {
    if to > 0 {
      var n := FirstPiece(entries, rest);
      RunInTail(Pieces(entries, rest)[0], Pieces(entries, rest[n..]), 0, to);
      hide Pieces, IsLiteralRun, AllNonEmpty;
      if k == 0 {
        assert rest[..to][0..] == rest[..to];
        NothingBestBegins(entries, rest, rest[..to], e);
      } else {
        NoVariantInLead(entries, rest[1..], to - 1, e, k - 1);
        SameSuffix(rest, to, k);
      }
    }
  }

  lemma {:induction false} NoVariantInRun<T>(entries: seq<Entry<T>>, rest: seq<T>, from: nat, to: nat, e: Entry<T>,
                                             k: nat)
    requires AllNonEmpty(entries) && IsLiteralRun(Pieces(entries, rest), from, to) && e in entries
    requires k <= |After(Pieces(entries, rest)[from..to])|
    ensures !(e.variant <= After(Pieces(entries, rest)[from..to])[k..])
    decreases |rest|
  {
    if from == 0 {
      LeadingLiterals(entries, rest, to);
      hide Pieces, After, AllNonEmpty;
      assert Pieces(entries, rest)[0..to] == Pieces(entries, rest)[..to];
      NoVariantInLead(entries, rest, to, e, k);
    } else if from < to {
      var n := FirstPiece(entries, rest);
      hide Pieces, After, AllNonEmpty;
      RunInTail(Pieces(entries, rest)[0], Pieces(entries, rest[n..]), from, to);
      NoVariantInRun(entries, rest[n..], from - 1, to - 1, e, k);
    }
  }

  /** The output is markers and runs of copied literals, and no variant occurs anywhere inside such a run. */
  lemma LiteralRunsAreClean<T>(entries: seq<Entry<T>>, input: seq<T>, from: nat, to: nat)
    requires AllNonEmpty(entries) && IsLiteralRun(Pieces(entries, input), from, to)
    ensures var pieces := Pieces(entries, input);
            var run := After(pieces[from..to]);
            && Scan(entries, input) == After(pieces[..from]) + run + After(pieces[to..])
            && forall e, k | e in entries && 0 <= k <= |run| :: !(e.variant <= run[k..])
  {
    var pieces := Pieces(entries, input);
    LiteralsAreCopied(entries, input);
    hide Pieces, After, Scan, AllNonEmpty, IsLiteralRun;
    AfterJoins(pieces[..from], pieces[from..to]);
    AfterJoins(pieces[..to], pieces[to..]);
    Between(pieces, from, to);
    Halves(pieces, to);
    forall e, k | e in entries && 0 <= k <= |After(pieces[from..to])|
      ensures !(e.variant <= After(pieces[from..to])[k..])
    {
      NoVariantInRun(entries, input, from, to, e, k);
    }
  }

  // ---------- the guard band ----------

  datatype Decision<T> = Skipped | Copied | Replaced(entry: Entry<T>)

  /** Where the scan looks after `from`. */
  function NextAt<T(==)>(entries: seq<Entry<T>>, input: seq<T>, from: nat): (next: nat)
    requires AllNonEmpty(entries) && from < |input|
    ensures from < next <= |input|
  {
    var hit := Best(entries, input[from..]);
    if hit.None? then from + 1 else from + |hit.value.variant|
  }

  /** What the scan, started at `from`, decides at position `i`; Skipped when it never looks there. */
  function DecisionAt<T(==)>(entries: seq<Entry<T>>, input: seq<T>, from: nat, i: nat): Decision<T>
    requires AllNonEmpty(entries) && from <= |input|
    decreases |input| - from
  {
    if from == |input| || i < from then Skipped
    else
      if from == i then
        var hit := Best(entries, input[from..]);
        if hit.None? then Copied else Replaced(hit.value)
      else DecisionAt(entries, input, NextAt(entries, input, from), i)
  }

  /** `guardBytes`: the longest variant. */
  function Guard<T>(entries: seq<Entry<T>>): nat {
    if entries == [] then 0
    else
      var g := Guard(entries[1..]);
      if |entries[0].variant| > g then |entries[0].variant| else g
  }

  /** The guard is the length of a longest variant. */
  lemma {:induction false} GuardIsLongest<T>(entries: seq<Entry<T>>)
    ensures forall i | 0 <= i < |entries| :: |entries[i].variant| <= Guard(entries)
    ensures entries != [] ==> exists i :: 0 <= i < |entries| && |entries[i].variant| == Guard(entries)
  {
    if entries != [] {
      GuardIsLongest(entries[1..]);
      assert forall i | 1 <= i < |entries| :: entries[i] == entries[1..][i - 1];
      if |entries[0].variant| < Guard(entries) {
        var i :| 0 <= i < |entries[1..]| && |entries[1..][i].variant| == Guard(entries[1..]);
        assert entries[i + 1] == entries[1..][i];
      }
    }
  }

  lemma {:induction false} BestIsLocal<T>(entries: seq<Entry<T>>, short: seq<T>, long: seq<T>)
    requires short <= long && Guard(entries) <= |short|
    ensures Best(entries, short) == Best(entries, long)
  {
    if entries != [] {
      assert entries[0].variant <= short <==> entries[0].variant <= long;
      BestIsLocal(entries[1..], short, long);
    }
  }

  lemma CaptureMatchesAlike<T>(entries: seq<Entry<T>>, cut: seq<T>, stream: seq<T>, at: nat)
    requires cut <= stream && at + Guard(entries) <= |cut|
    ensures Best(entries, cut[at..]) == Best(entries, stream[at..])
  {
    assert cut[at..] <= stream[at..];
    BestIsLocal(entries, cut[at..], stream[at..]);
  }

  /** A capture cut short decides like the whole stream wherever a full guard band was still captured. */
  lemma {:induction false} CaptureDecidesAlike<T>(entries: seq<Entry<T>>, cut: seq<T>, stream: seq<T>, from: nat,
                                                  i: nat)
    requires AllNonEmpty(entries) && cut <= stream && from <= |cut| && i < |cut| && i + Guard(entries) <= |cut|
    ensures DecisionAt(entries, cut, from, i) == DecisionAt(entries, stream, from, i)
    decreases |cut| - from
  {
    if from <= i {
      CaptureMatchesAlike(entries, cut, stream, from);
      if from != i {
        CaptureDecidesAlike(entries, cut, stream, NextAt(entries, cut, from), i);
      }
    }
  }

  // ---------- the table ----------

  /** `entries.find`: the first entry whose variant `rest` starts with. */
  function FirstMatch<T(==)>(entries: seq<Entry<T>>, rest: seq<T>): Option<Entry<T>> {
    if entries == [] then None
    else if entries[0].variant <= rest then Some(entries[0])
    else FirstMatch(entries[1..], rest)
  }

  /** `toSorted` with a comparator on `key`, descending and stable. */
  function Insert<T>(e: Entry<T>, sorted: seq<Entry<T>>, key: seq<T> -> nat): (r: seq<Entry<T>>)
    ensures multiset(r) == multiset(sorted) + multiset{e}
  {
    if sorted == [] || key(e.variant) >= key(sorted[0].variant) then [e] + sorted
    else
      assert sorted == [sorted[0]] + sorted[1..];
      [sorted[0]] + Insert(e, sorted[1..], key)
  }

  function SortBy<T>(entries: seq<Entry<T>>, key: seq<T> -> nat): (r: seq<Entry<T>>)
    ensures multiset(r) == multiset(entries)
  {
    if entries == [] then []
    else
      assert entries == [entries[0]] + entries[1..];
      Insert(entries[0], SortBy(entries[1..], key), key)
  }

  predicate SortedBy<T>(entries: seq<Entry<T>>, key: seq<T> -> nat) {
    forall i, j | 0 <= i < j < |entries| :: key(entries[i].variant) >= key(entries[j].variant)
  }

  /** Among the variants `rest` starts with, `key` orders as length does. */
  ghost predicate KeyFits<T(!new)>(key: seq<T> -> nat, rest: seq<T>) {
    forall v, w | v <= rest && w <= rest :: |v| >= |w| <==> key(v) >= key(w)
  }

  lemma {:induction false} InsertSorts<T>(e: Entry<T>, sorted: seq<Entry<T>>, key: seq<T> -> nat)
    requires SortedBy(sorted, key)
    ensures SortedBy(Insert(e, sorted, key), key)
  {
    if sorted != [] && key(e.variant) < key(sorted[0].variant) {
      InsertSorts(e, sorted[1..], key);
      var r := Insert(e, sorted[1..], key);
      forall i | 0 <= i < |r|
        ensures key(sorted[0].variant) >= key(r[i].variant)
      {
        assert r[i] in multiset(r);
        assert r[i] == e || r[i] in sorted[1..];
      }
    }
  }

  lemma {:induction false} SortSorts<T>(entries: seq<Entry<T>>, key: seq<T> -> nat)
    ensures SortedBy(SortBy(entries, key), key)
  {
    if entries != [] {
      SortSorts(entries[1..], key);
      InsertSorts(entries[0], SortBy(entries[1..], key), key);
    }
  }

  /** Moving an entry past longer ones does not change which match is best. */
  lemma {:induction false} InsertKeepsBest<T(!new)>(e: Entry<T>, sorted: seq<Entry<T>>, key: seq<T> -> nat,
                                             rest: seq<T>)
    requires KeyFits(key, rest)
    ensures Best(Insert(e, sorted, key), rest) == Best([e] + sorted, rest)
  {
    Prepend(e, sorted);
    if sorted != [] && key(e.variant) < key(sorted[0].variant) {
      InsertKeepsBest(e, sorted[1..], key, rest);
      Prepend(e, sorted[1..]);
      Prepend(sorted[0], Insert(e, sorted[1..], key));
    }
  }

  lemma {:induction false} SortKeepsBest<T(!new)>(entries: seq<Entry<T>>, key: seq<T> -> nat, rest: seq<T>)
    requires KeyFits(key, rest)
    ensures Best(SortBy(entries, key), rest) == Best(entries, rest)
  {
    if entries != [] {
      SortKeepsBest(entries[1..], key, rest);
      var tail := SortBy(entries[1..], key);
      InsertKeepsBest(entries[0], tail, key, rest);
      assert ([entries[0]] + tail)[1..] == tail;
    }
  }

  lemma {:induction false} SortedFindsBest<T(!new)>(entries: seq<Entry<T>>, key: seq<T> -> nat, rest: seq<T>)
    requires KeyFits(key, rest) && SortedBy(entries, key)
    ensures FirstMatch(entries, rest) == Best(entries, rest)
  {
    if entries != [] {
      SortedFindsBest(entries[1..], key, rest);
      var tail := Best(entries[1..], rest);
      if entries[0].variant <= rest && tail.Some? {
        var k :| 0 <= k < |entries[1..]| && entries[1..][k] == tail.value;
        assert key(entries[0].variant) >= key(entries[k + 1].variant);
      }
    }
  }

  function Length<T>(v: seq<T>): nat {
    |v|
  }

  lemma LengthFits<T(!new)>(rest: seq<T>)
    ensures KeyFits(v => Length(v), rest)
  {
  }

  datatype Table<T> = Table(entries: seq<Entry<T>>, starts: set<T>)

  function TableOf<T(==)>(entries: seq<Entry<T>>): Table<T>
    requires AllNonEmpty(entries)
  {
    Table(entries, set i | 0 <= i < |entries| :: entries[i].variant[0])
  }

  predicate IsTable<T(==)>(table: Table<T>) {
    AllNonEmpty(table.entries) && SortedBy(table.entries, v => Length(v)) && table == TableOf(table.entries)
  }

  lemma TableFindsBest<T(!new)>(table: Table<T>, rest: seq<T>)
    requires IsTable(table)
    ensures FirstMatch(table.entries, rest) == Best(table.entries, rest)
  {
    LengthFits(rest);
    SortedFindsBest(table.entries, v => Length(v), rest);
  }

  /** A character no variant begins with cannot begin a match. */
  lemma {:induction false} StartsSuffice<T>(entries: seq<Entry<T>>, rest: seq<T>)
    requires AllNonEmpty(entries) && rest != [] && rest[0] !in TableOf(entries).starts
    ensures Best(entries, rest).None?
  {
    forall e | e in entries
      ensures !(e.variant <= rest)
    {
      assert e.variant[0] in TableOf(entries).starts;
    }
  }

  /** The shortcut: one set lookup where no variant can begin. */
  function LookUp<T(==, !new)>(table: Table<T>, rest: seq<T>): (hit: Option<Entry<T>>)
    requires IsTable(table) && rest != []
    ensures hit == Best(table.entries, rest)
    ensures hit.Some? ==> hit.value.variant != [] && hit.value.variant <= rest
  {
    TableFindsBest(table, rest);
    if rest[0] in table.starts then FirstMatch(table.entries, rest)
    else
      StartsSuffice(table.entries, rest);
      None
  }

  function Joined<T>(parts: seq<seq<T>>): seq<T> {
    if parts == [] then [] else Joined(parts[..|parts| - 1]) + parts[|parts| - 1]
  }

  lemma JoinedMore<T>(parts: seq<seq<T>>, part: seq<T>)
    ensures Joined(parts + [part]) == Joined(parts) + part
  {
    assert (parts + [part])[..|parts|] == parts;
  }

  /** What has been joined, what is pending and what the scan still yields. */
  function Total<T(==)>(entries: seq<Entry<T>>, parts: seq<seq<T>>, pending: seq<T>, rest: seq<T>): seq<T>
    requires AllNonEmpty(entries)
  {
    Joined(parts) + pending + Scan(entries, rest)
  }

  lemma ScanUnfolds<T>(entries: seq<Entry<T>>, rest: seq<T>)
    requires AllNonEmpty(entries) && rest != []
    ensures var hit := Best(entries, rest);
            && (hit.Some? ==> |hit.value.variant| <= |rest|)
            && Scan(entries, rest) == if hit.None? then [rest[0]] + Scan(entries, rest[1..])
                                      else hit.value.marker + Scan(entries, rest[|hit.value.variant|..])
  {
  }

  lemma TwoMore<T>(parts: seq<T>, x: T, y: T)
    ensures parts + [x] + [y] == parts + [x, y]
  {
  }

  lemma NothingMore<T>(s: seq<T>)
    ensures s + [] == s
  {
  }

  lemma CopyTurn<T>(entries: seq<Entry<T>>, parts: seq<seq<T>>, pending: seq<T>, rest: seq<T>)
    requires AllNonEmpty(entries) && rest != [] && Best(entries, rest).None?
    ensures Total(entries, parts, pending, rest) == Total(entries, parts, pending + [rest[0]], rest[1..])
  {
    ScanUnfolds(entries, rest);
    hide Scan, Best, Joined, AllNonEmpty;
    Associates(Joined(parts), pending, [rest[0]]);
    Associates(Joined(parts) + pending, [rest[0]], Scan(entries, rest[1..]));
  }

  lemma HitTurn<T>(entries: seq<Entry<T>>, parts: seq<seq<T>>, pending: seq<T>, rest: seq<T>)
    requires AllNonEmpty(entries) && rest != [] && Best(entries, rest).Some?
    ensures var e := Best(entries, rest).value;
            Total(entries, parts, pending, rest) == Total(entries, parts + [pending, e.marker], [], rest[|e.variant|..])
  {
    ScanUnfolds(entries, rest);
    hide Scan, Best, Joined, AllNonEmpty;
    var e := Best(entries, rest).value;
    JoinedMore(parts, pending);
    JoinedMore(parts + [pending], e.marker);
    TwoMore(parts, pending, e.marker);
    Associates(Joined(parts) + pending, e.marker, Scan(entries, rest[|e.variant|..]));
    NothingMore(Joined(parts) + pending + e.marker);
  }

  lemma TotalEnds<T>(entries: seq<Entry<T>>, parts: seq<seq<T>>, pending: seq<T>)
    requires AllNonEmpty(entries)
    ensures Total(entries, parts, pending, []) == Joined(parts + [pending])
  {
    JoinedMore(parts, pending);
  }

  lemma TotalBegins<T>(entries: seq<Entry<T>>, input: seq<T>)
    requires AllNonEmpty(entries)
    ensures Total(entries, [], input[0..0], input[0..]) == Scan(entries, input)
  {
    assert input[0..] == input;
  }

  lemma Slices<T>(input: seq<T>, from: nat, at: nat, n: nat)
    requires from <= at && at + n <= |input| && at < |input|
    ensures input[at..][0] == input[at] && input[at..][n..] == input[at + n..] && input[at + n..at + n] == []
    ensures input[from..at] + [input[at]] == input[from..at + 1]
  {
  }

  /** The scan as written: one set lookup per position, pieces of the input joined with markers. */
  method ScrubText<T(==, !new)>(table: Table<T>, input: seq<T>) returns (output: seq<T>)
    requires IsTable(table)
    ensures output == Scan(table.entries, input)
  {
    hide Total, Joined, Scan, Best, SortedBy, TableOf, AllNonEmpty;
    var parts: seq<seq<T>> := [];
    var literalFrom, index := 0, 0;
    TotalBegins(table.entries, input);
    while index < |input|
      invariant 0 <= literalFrom <= index <= |input|
      invariant Total(table.entries, parts, input[literalFrom..index], input[index..]) == Scan(table.entries, input)
    {
      var rest := input[index..];
      var hit := LookUp(table, rest);
      if hit.None? {
        CopyTurn(table.entries, parts, input[literalFrom..index], rest);
        Slices(input, literalFrom, index, 1);
        index := index + 1;
        continue;
      }
      HitTurn(table.entries, parts, input[literalFrom..index], rest);
      Slices(input, literalFrom, index, |hit.value.variant|);
      parts := parts + [input[literalFrom..index], hit.value.marker];
      index := index + |hit.value.variant|;
      literalFrom := index;
    }
    assert input[index..] == [] && input[literalFrom..] == input[literalFrom..index];
    TotalEnds(table.entries, parts, input[literalFrom..]);
    parts := parts + [input[literalFrom..]];
    output := Joined(parts);
  }
}
