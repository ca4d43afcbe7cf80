/** The scrubber's two tables: over UTF-16 units for text and over UTF-8 bytes for captured output. Scanning the
    encoding of a text is encoding the scan of the text, whichever encoding. */
module ScrubEncoding {
  import opened Scrub
  import opened Sequences
  import opened Wrappers

  type Rune = c: int | 0 <= c < 0xD800 || 0xE000 <= c < 0x11_0000 witness 0

  /** A character encoding: the code units of a scalar value, and the units one may begin with. */
  datatype Encoding = Encoding(of: Rune -> seq<int>, isLead: int -> bool)

  /** Where a character starts, and where it ends, is visible from its first unit. */
  ghost predicate SelfSynchronising(e: Encoding) {
    && (forall c :: e.of(c) != [] && e.isLead(e.of(c)[0]))
    && (forall c, j | 1 <= j < |e.of(c)| :: !e.isLead(e.of(c)[j]))
    && (forall c, d | e.of(c) != [] && e.of(d) != [] && e.of(c)[0] == e.of(d)[0] :: |e.of(c)| == |e.of(d)|)
    && (forall c, d | e.of(c) == e.of(d) :: c == d)
  }

  function Encode(e: Encoding, text: seq<Rune>): seq<int> {
    if text == [] then [] else e.of(text[0]) + Encode(e, text[1..])
  }

  function EncodeEntry(e: Encoding, entry: Entry<Rune>): Entry<int> {
    Entry(Encode(e, entry.variant), Encode(e, entry.marker))
  }

  function EncodeEntries(e: Encoding, entries: seq<Entry<Rune>>): (r: seq<Entry<int>>)
    ensures |r| == |entries|
  {
    if entries == [] then [] else [EncodeEntry(e, entries[0])] + EncodeEntries(e, entries[1..])
  }

  lemma {:induction false} EncodedAt(e: Encoding, entries: seq<Entry<Rune>>, i: nat)
    requires i < |entries|
    ensures EncodeEntries(e, entries)[i] == EncodeEntry(e, entries[i])
  {
    if i > 0 {
      EncodedAt(e, entries[1..], i - 1);
    }
  }

  lemma {:induction false} EncodeAppend(e: Encoding, a: seq<Rune>, b: seq<Rune>)
    ensures Encode(e, a + b) == Encode(e, a) + Encode(e, b)
  {
    if a == [] {
      assert a + b == b;
    } else {
      EncodeAppend(e, a[1..], b);
      assert (a + b)[1..] == a[1..] + b;
    }
  }

  /** An encoded string begins with an encoded variant exactly where the string begins with the variant. */
  lemma {:induction false} PrefixDecodes(e: Encoding, v: seq<Rune>, text: seq<Rune>)
    requires SelfSynchronising(e)
    ensures Encode(e, v) <= Encode(e, text) <==> v <= text
  {
    if v <= text {
      EncodeAppend(e, v, text[|v|..]);
      assert v + text[|v|..] == text;
    } else if v != [] && text != [] && Encode(e, v) <= Encode(e, text) {
      var a, b := e.of(v[0]), e.of(text[0]);
      assert a[0] == Encode(e, v)[0] == Encode(e, text)[0] == b[0];
      assert |a| == |b|;
      assert a == Encode(e, v)[..|a|] == Encode(e, text)[..|a|] == b;
      assert Encode(e, v[1..]) == Encode(e, v)[|a|..];
      assert Encode(e, text[1..]) == Encode(e, text)[|a|..];
      PrefixDecodes(e, v[1..], text[1..]);
    }
  }

  lemma {:induction false} LongerEncodesLonger(e: Encoding, v: seq<Rune>, w: seq<Rune>)
    requires SelfSynchronising(e) && v <= w
    ensures |v| < |w| ==> |Encode(e, v)| < |Encode(e, w)|
    ensures |v| == |w| ==> v == w
  {
    EncodeAppend(e, v, w[|v|..]);
    assert v + w[|v|..] == w;
  }

  /** Prefixes of one text compare alike by characters and by code units. */
  lemma LengthsAgree(e: Encoding, text: seq<Rune>, v: seq<Rune>, w: seq<Rune>)
    requires SelfSynchronising(e) && v <= text && w <= text
    ensures |v| >= |w| <==> |Encode(e, v)| >= |Encode(e, w)|
  {
    hide SelfSynchronising, Encode;
    if |v| <= |w| {
      LongerEncodesLonger(e, v, w);
    } else {
      LongerEncodesLonger(e, w, v);
    }
  }

  lemma EncodedLengthFits(e: Encoding, text: seq<Rune>)
    requires SelfSynchronising(e)
    ensures KeyFits(v => |Encode(e, v)|, text)
  {
    forall v, w | v <= text && w <= text
      ensures |v| >= |w| <==> |Encode(e, v)| >= |Encode(e, w)|
    {
      LengthsAgree(e, text, v, w);
    }
  }

  lemma {:induction false} BestIsPrefix<T>(entries: seq<Entry<T>>, text: seq<T>)
    requires Best(entries, text).Some?
    ensures Best(entries, text).value.variant <= text
  {
    if Best(entries[1..], text).Some? {
      BestIsPrefix(entries[1..], text);
    }
  }

  lemma {:induction false} BestCommutes(e: Encoding, entries: seq<Entry<Rune>>, text: seq<Rune>)
    requires SelfSynchronising(e)
    ensures Best(EncodeEntries(e, entries), Encode(e, text))
            == if Best(entries, text).None? then None else Some(EncodeEntry(e, Best(entries, text).value))
  {
    if entries != [] {
      var tail := Best(entries[1..], text);
      BestCommutes(e, entries[1..], text);
      hide SelfSynchronising, Encode;
      PrefixDecodes(e, entries[0].variant, text);
      assert EncodeEntries(e, entries)[1..] == EncodeEntries(e, entries[1..]);
      if entries[0].variant <= text && tail.Some? {
        BestIsPrefix(entries[1..], text);
        LengthsAgree(e, text, entries[0].variant, tail.value.variant);
      }
    }
  }

  lemma {:induction false} EncodedNonEmpty(e: Encoding, entries: seq<Entry<Rune>>)
    requires SelfSynchronising(e) && AllNonEmpty(entries)
    ensures AllNonEmpty(EncodeEntries(e, entries))
    ensures forall i | 0 <= i < |entries| :: e.isLead(EncodeEntries(e, entries)[i].variant[0])
  {
    forall i | 0 <= i < |entries|
      ensures EncodeEntries(e, entries)[i].variant != [] && e.isLead(EncodeEntries(e, entries)[i].variant[0])
    {
      EncodedAt(e, entries, i);
    }
  }

  /** Inside a character no variant can begin: those positions are copied one by one. */
  lemma {:induction false} InteriorIsCopied(e: Encoding, entries: seq<Entry<Rune>>, inside: seq<int>, rest: seq<int>)
    requires SelfSynchronising(e) && AllNonEmpty(entries) && AllNonEmpty(EncodeEntries(e, entries))
    requires forall j | 0 <= j < |inside| :: !e.isLead(inside[j])
    ensures Scan(EncodeEntries(e, entries), inside + rest) == inside + Scan(EncodeEntries(e, entries), rest)
  {
    var table := EncodeEntries(e, entries);
    if inside == [] {
      assert inside + rest == rest;
    } else {
      EncodedNonEmpty(e, entries);
      assert Best(table, inside + rest).None?;
      hide Best, Scan;
      InteriorIsCopied(e, entries, inside[1..], rest);
      FirstUnitIsCopied(table, inside, rest);
    }
  }

  lemma FirstUnitIsCopied(table: seq<Entry<int>>, units: seq<int>, rest: seq<int>)
    requires AllNonEmpty(table) && units != [] && Best(table, units + rest).None?
    requires Scan(table, units[1..] + rest) == units[1..] + Scan(table, rest)
    ensures Scan(table, units + rest) == units + Scan(table, rest)
  {
    ScanUnfolds(table, units + rest);
    hide Scan, Best, AllNonEmpty;
    Uncons(units, rest);
    Associates([units[0]], units[1..], Scan(table, rest));
  }

  lemma CharacterIsCopied(e: Encoding, entries: seq<Entry<Rune>>, c: Rune, rest: seq<int>)
    requires SelfSynchronising(e) && AllNonEmpty(entries) && AllNonEmpty(EncodeEntries(e, entries))
    requires Best(EncodeEntries(e, entries), e.of(c) + rest).None?
    ensures Scan(EncodeEntries(e, entries), e.of(c) + rest) == e.of(c) + Scan(EncodeEntries(e, entries), rest)
  {
    hide Scan, Best;
    InteriorIsCopied(e, entries, e.of(c)[1..], rest);
    FirstUnitIsCopied(EncodeEntries(e, entries), e.of(c), rest);
  }

  lemma EncodeCons(e: Encoding, c: Rune, text: seq<Rune>)
    ensures Encode(e, [c] + text) == e.of(c) + Encode(e, text)
  {
    Prepend(c, text);
  }

  lemma CopyCommutes(e: Encoding, entries: seq<Entry<Rune>>, text: seq<Rune>)
    requires SelfSynchronising(e) && AllNonEmpty(entries) && AllNonEmpty(EncodeEntries(e, entries))
    requires text != [] && Best(entries, text).None? && Best(EncodeEntries(e, entries), Encode(e, text)).None?
    requires Scan(EncodeEntries(e, entries), Encode(e, text[1..])) == Encode(e, Scan(entries, text[1..]))
    ensures Scan(EncodeEntries(e, entries), Encode(e, text)) == Encode(e, Scan(entries, text))
  {
    hide SelfSynchronising, Best;
    CharacterIsCopied(e, entries, text[0], Encode(e, text[1..]));
    EncodeCons(e, text[0], Scan(entries, text[1..]));
  }

  lemma HitCommutes(e: Encoding, entries: seq<Entry<Rune>>, text: seq<Rune>)
    requires SelfSynchronising(e) && AllNonEmpty(entries) && AllNonEmpty(EncodeEntries(e, entries))
    requires text != [] && Best(entries, text).Some?
    requires Best(EncodeEntries(e, entries), Encode(e, text)) == Some(EncodeEntry(e, Best(entries, text).value))
    requires var n := |Best(entries, text).value.variant|;
             Scan(EncodeEntries(e, entries), Encode(e, text[n..])) == Encode(e, Scan(entries, text[n..]))
    ensures Scan(EncodeEntries(e, entries), Encode(e, text)) == Encode(e, Scan(entries, text))
  {
    hide Best, SelfSynchronising, AllNonEmpty, EncodeEntries, Encode, Scan;
    var hit := Best(entries, text).value;
    var n := |hit.variant|;
    BestIsPrefix(entries, text);
    EncodeAppend(e, hit.variant, text[n..]);
    Halves(text, n);
    assert hit.variant == text[..n];
    DropFront(Encode(e, hit.variant), Encode(e, text[n..]));
    ScanUnfolds(entries, text);
    EncodedUnits(e, text);
    ScanUnfolds(EncodeEntries(e, entries), Encode(e, text));
    EncodeAppend(e, hit.marker, Scan(entries, text[n..]));
  }

  lemma EncodedUnits(e: Encoding, text: seq<Rune>)
    requires SelfSynchronising(e) && text != []
    ensures Encode(e, text) != []
  {
  }

  /** Scrubbing commutes with the encoding. */
  lemma {:induction false} ScanCommutes(e: Encoding, entries: seq<Entry<Rune>>, text: seq<Rune>)
    requires SelfSynchronising(e) && AllNonEmpty(entries) && AllNonEmpty(EncodeEntries(e, entries))
    ensures Scan(EncodeEntries(e, entries), Encode(e, text)) == Encode(e, Scan(entries, text))
    decreases |text|
  {
    var table := EncodeEntries(e, entries);
    if text != [] {
      BestCommutes(e, entries, text);
      var hit := Best(entries, text);
      if hit.None? {
        ScanCommutes(e, entries, text[1..]);
        CopyCommutes(e, entries, text);
      } else {
        ScanCommutes(e, entries, text[|hit.value.variant|..]);
        HitCommutes(e, entries, text);
      }
    }
  }

  /** The order of a table sorted by a fitting key does not matter. */
  lemma {:induction false} SortKeepsScan<T(!new)>(entries: seq<Entry<T>>, key: seq<T> -> nat, rest: seq<T>)
    requires AllNonEmpty(entries) && AllNonEmpty(SortBy(entries, key))
    requires forall r: seq<T> :: KeyFits(key, r)
    ensures Scan(SortBy(entries, key), rest) == Scan(entries, rest)
    decreases |rest|
  {
    if rest != [] {
      assert KeyFits(key, rest);
      SortKeepsBest(entries, key, rest);
      var hit := Best(entries, rest);
      SortKeepsScan(entries, key, rest[if hit.None? then 1 else |hit.value.variant|..]);
    }
  }

  lemma SortKeepsNonEmpty<T>(entries: seq<Entry<T>>, key: seq<T> -> nat)
    requires AllNonEmpty(entries)
    ensures AllNonEmpty(SortBy(entries, key))
  {
    var sorted := SortBy(entries, key);
    forall i | 0 <= i < |sorted|
      ensures sorted[i].variant != []
    {
      assert sorted[i] in multiset(sorted);
      assert sorted[i] in entries;
    }
  }

  // ---------- UTF-8 and UTF-16 ----------

  function Utf8Of(c: Rune): (r: seq<int>)
    ensures 1 <= |r| <= 4
    ensures r[0] < 0xC0 ==> |r| == 1 && r[0] < 0x80
    ensures 0xC0 <= r[0] < 0xE0 ==> |r| == 2
    ensures 0xE0 <= r[0] < 0xF0 ==> |r| == 3
    ensures 0xF0 <= r[0] ==> |r| == 4
    ensures forall j | 1 <= j < |r| :: 0x80 <= r[j] < 0xC0
  {
    if c < 0x80 then [c]
    else if c < 0x800 then [0xC0 + c / 64, 0x80 + c % 64]
    else if c < 0x1_0000 then [0xE0 + c / 4096, 0x80 + c / 64 % 64, 0x80 + c % 64]
    else [0xF0 + c / 26_2144, 0x80 + c / 4096 % 64, 0x80 + c / 64 % 64, 0x80 + c % 64]
  }

  function Utf16Of(c: Rune): seq<int> {
    if c < 0x1_0000 then [c] else [0xD800 + (c - 0x1_0000) / 1024, 0xDC00 + (c - 0x1_0000) % 1024]
  }

  const Utf8 := Encoding((c: Rune) => Utf8Of(c), u => u < 0x80 || u >= 0xC0)
  const Utf16 := Encoding((c: Rune) => Utf16Of(c), u => !(0xDC00 <= u < 0xE000))

  /** The scalar value a well-formed sequence stands for (section 3 of RFC 3629). */
  function FromUtf8(r: seq<int>): int
    requires 1 <= |r| <= 4
  {
    if |r| == 1 then r[0]
    else if |r| == 2 then (r[0] - 0xC0) * 64 + (r[1] - 0x80)
    else if |r| == 3 then ((r[0] - 0xE0) * 64 + (r[1] - 0x80)) * 64 + (r[2] - 0x80)
    else (((r[0] - 0xF0) * 64 + (r[1] - 0x80)) * 64 + (r[2] - 0x80)) * 64 + (r[3] - 0x80)
  }

  lemma Utf8Decodes(c: Rune)
    ensures FromUtf8(Utf8Of(c)) == c
  {
    var q := c / 64;
    var p := q / 64;
    assert c / 4096 == p && c / 26_2144 == p / 64;
  }

  lemma Utf8Synchronises()
    ensures SelfSynchronising(Utf8)
  {
    hide Utf8Of, FromUtf8;
    forall c, d | Utf8.of(c) == Utf8.of(d)
      ensures c == d
    {
      Utf8Decodes(c);
      Utf8Decodes(d);
    }
  }

  lemma Utf16Synchronises()
    ensures SelfSynchronising(Utf16)
  {
  }

  /** Section 3 of RFC 3629: the marks of its table, the bits of the character in order, and the shortest form. */
  lemma Utf8IsStandard(c: Rune)
    ensures var u := Utf8Of(c);
            if c <= 0x7F then u == [c]
            else if c <= 0x7FF then
              && |u| == 2 && 0xC0 <= u[0] < 0xE0 && 0x80 <= u[1] < 0xC0
              && c == (u[0] - 0xC0) * 0x40 + (u[1] - 0x80)
            else if c <= 0xFFFF then
              && |u| == 3 && 0xE0 <= u[0] < 0xF0 && 0x80 <= u[1] < 0xC0 && 0x80 <= u[2] < 0xC0
              && c == (u[0] - 0xE0) * 0x1000 + (u[1] - 0x80) * 0x40 + (u[2] - 0x80)
            else
              && |u| == 4 && 0xF0 <= u[0] < 0xF8 && 0x80 <= u[1] < 0xC0 && 0x80 <= u[2] < 0xC0 && 0x80 <= u[3] < 0xC0
              && c == (u[0] - 0xF0) * 0x4_0000 + (u[1] - 0x80) * 0x1000 + (u[2] - 0x80) * 0x40 + (u[3] - 0x80)
  {
    hide FromUtf8;
    var q := c / 64;
    var p := q / 64;
    assert c / 4096 == p && c / 26_2144 == p / 64;
  }

  /** Section 2.1 of RFC 2781: one unit as far as it reaches, and beyond that two surrogates with the bits in order. */
  lemma Utf16IsStandard(c: Rune)
    ensures var u := Utf16Of(c);
            if c <= 0xFFFF then u == [c]
            else
              && |u| == 2 && 0xD800 <= u[0] < 0xDC00 && 0xDC00 <= u[1] < 0xE000
              && c == 0x1_0000 + (u[0] - 0xD800) * 0x400 + (u[1] - 0xDC00)
  {
    hide Utf8Of;
    var over := c - 0x1_0000;
    assert over == 1024 * (over / 1024) + over % 1024;
  }

  // ---------- createScrubber ----------

  function UnitLength(v: seq<Rune>): nat {
    |Encode(Utf16, v)|
  }

  /** The injected variants, longest first as JavaScript measures strings. */
  function Ordered(entries: seq<Entry<Rune>>): seq<Entry<Rune>> {
    SortBy(entries, v => UnitLength(v))
  }

  /** The text table, over UTF-16 units. */
  function Characters(entries: seq<Entry<Rune>>): seq<Entry<int>> {
    EncodeEntries(Utf16, Ordered(entries))
  }

  /** The byte table, over UTF-8 bytes, sorted again by byte length. */
  function Raw(entries: seq<Entry<Rune>>): seq<Entry<int>> {
    SortBy(EncodeEntries(Utf8, Ordered(entries)), v => Length(v))
  }

  lemma TablesNonEmpty(entries: seq<Entry<Rune>>)
    requires AllNonEmpty(entries)
    ensures AllNonEmpty(Ordered(entries)) && AllNonEmpty(EncodeEntries(Utf8, Ordered(entries)))
    ensures AllNonEmpty(Characters(entries)) && AllNonEmpty(Raw(entries))
  {
    SortKeepsNonEmpty(entries, v => UnitLength(v));
    Utf8Synchronises();
    Utf16Synchronises();
    EncodedNonEmpty(Utf16, Ordered(entries));
    EncodedNonEmpty(Utf8, Ordered(entries));
    SortKeepsNonEmpty(EncodeEntries(Utf8, Ordered(entries)), v => Length(v));
  }

  lemma TablesSorted(entries: seq<Entry<Rune>>)
    ensures SortedBy(Characters(entries), v => Length(v)) && SortedBy(Raw(entries), v => Length(v))
  {
    SortSorts(entries, v => UnitLength(v));
    SortSorts(EncodeEntries(Utf8, Ordered(entries)), v => Length(v));
    var ordered, units := Ordered(entries), Characters(entries);
    forall i, j | 0 <= i < j < |units|
      ensures |units[i].variant| >= |units[j].variant|
    {
      EncodedAt(Utf16, ordered, i);
      EncodedAt(Utf16, ordered, j);
      assert UnitLength(ordered[i].variant) >= UnitLength(ordered[j].variant);
    }
  }

  lemma {:induction false} GuardOfSorted<T>(entries: seq<Entry<T>>, key: seq<T> -> nat)
    ensures Guard(SortBy(entries, key)) == Guard(entries)
  {
    if entries != [] {
      GuardOfSorted(entries[1..], key);
      GuardOfInsert(entries[0], SortBy(entries[1..], key), key);
    }
  }

  lemma {:induction false} GuardOfInsert<T>(e: Entry<T>, sorted: seq<Entry<T>>, key: seq<T> -> nat)
    ensures Guard(Insert(e, sorted, key)) == if |e.variant| > Guard(sorted) then |e.variant| else Guard(sorted)
  {
    assert ([e] + sorted)[1..] == sorted;
    if sorted != [] && key(e.variant) < key(sorted[0].variant) {
      GuardOfInsert(e, sorted[1..], key);
      assert ([sorted[0]] + Insert(e, sorted[1..], key))[1..] == Insert(e, sorted[1..], key);
    }
  }

  method CreateScrubber(entries: seq<Entry<Rune>>) returns (characters: Table<int>, raw: Table<int>, guardBytes: nat)
    requires AllNonEmpty(entries)
    ensures IsTable(characters) && characters.entries == Characters(entries)
    ensures IsTable(raw) && raw.entries == Raw(entries)
    ensures guardBytes == Guard(raw.entries)
  {
    TablesNonEmpty(entries);
    TablesSorted(entries);
    var table := Ordered(entries);
    guardBytes := Guard(EncodeEntries(Utf8, table));
    GuardOfSorted(EncodeEntries(Utf8, table), v => Length(v));
    characters := TableOf(EncodeEntries(Utf16, table));
    raw := TableOf(SortBy(EncodeEntries(Utf8, table), v => Length(v)));
  }

  lemma OrderDoesNotMatter(entries: seq<Entry<Rune>>, text: seq<Rune>)
    requires AllNonEmpty(entries) && AllNonEmpty(Ordered(entries))
    ensures Scan(Ordered(entries), text) == Scan(entries, text)
  {
    hide Scan, AllNonEmpty, SelfSynchronising, Encode, SortBy;
    Utf16Synchronises();
    var key: seq<Rune> -> nat := v => UnitLength(v);
    forall r: seq<Rune>
      ensures KeyFits(key, r)
    {
      EncodedLengthFits(Utf16, r);
      assert forall v: seq<Rune>, w: seq<Rune> | v <= r && w <= r :: |v| >= |w| <==> UnitLength(v) >= UnitLength(w);
    }
    SortKeepsScan(entries, key, text);
  }

  lemma ByteOrderDoesNotMatter(table: seq<Entry<int>>, bytes: seq<int>)
    requires AllNonEmpty(table) && AllNonEmpty(SortBy(table, v => Length(v)))
    ensures Scan(SortBy(table, v => Length(v)), bytes) == Scan(table, bytes)
  {
    hide Scan, AllNonEmpty, SortBy;
    var key: seq<int> -> nat := v => Length(v);
    forall r: seq<int>
      ensures KeyFits(key, r)
    {
      LengthFits(r);
    }
    SortKeepsScan(table, key, bytes);
  }

  /** For well-formed text and values, scrubbing the text and scrubbing its bytes yield one and the same text, although
      the two tables are ordered by different lengths and the scans visit positions inside characters. */
  lemma ScrubbingCommutesWithUtf8(entries: seq<Entry<Rune>>, text: seq<Rune>)
    requires AllNonEmpty(entries)
    ensures AllNonEmpty(Characters(entries)) && AllNonEmpty(Raw(entries))
    ensures Scan(Characters(entries), Encode(Utf16, text)) == Encode(Utf16, Scan(entries, text))
    ensures Scan(Raw(entries), Encode(Utf8, text)) == Encode(Utf8, Scan(entries, text))
  {
    hide Scan, AllNonEmpty, SelfSynchronising, Encode, EncodeEntries, SortBy;
    var ordered := Ordered(entries);
    TablesNonEmpty(entries);
    Utf8Synchronises();
    Utf16Synchronises();
    OrderDoesNotMatter(entries, text);
    ByteOrderDoesNotMatter(EncodeEntries(Utf8, ordered), Encode(Utf8, text));
    ScanCommutes(Utf16, ordered, text);
    ScanCommutes(Utf8, ordered, text);
  }

  // ---------- base64 output ----------

  function Base64Room(maxBytes: nat): nat {
    maxBytes / 4 * 3
  }

  /** The characters of the padded base64 of `n` bytes (section 4 of RFC 4648). */
  function Base64Length(n: nat): nat {
    (n + 2) / 3 * 4
  }

  /** The room is exactly the longest prefix whose encoding still fits. */
  lemma RoomIsExact(n: nat, maxBytes: nat)
    ensures Base64Length(n) <= maxBytes <==> n <= Base64Room(maxBytes)
  {
  }
}
