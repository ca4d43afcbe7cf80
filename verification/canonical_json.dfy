/** Canonical JSON: two documents print to the same text exactly when they are the same document. */
module CanonicalJson {
  import opened Sequences
  import opened TextOrder
  import opened Wrappers

  /** A number stands as its numeral; a property may hold `undefined`. */
  datatype Json =
    | Null
    | Bool(value: bool)
    | Num(numeral: string)
    | Str(text: string)
    | Arr(items: seq<Json>)
    | Obj(fields: seq<Field>)

  datatype Field = Field(key: string, value: Option<Json>)

  predicate IsNumeral(text: string) {
    text != "" && (text[0] == '-' || '0' <= text[0] <= '9')
    && forall i | 0 <= i < |text| :: '0' <= text[i] <= '9' || text[i] in "+-.e"
  }

  ghost predicate HasKeys(fields: seq<Field>) {
    forall i, j | 0 <= i < j < |fields| :: fields[i].key != fields[j].key
  }

  ghost predicate IsDocument(json: Json) {
    match json
    case Num(numeral) => IsNumeral(numeral)
    case Arr(items) => forall i | 0 <= i < |items| :: IsDocument(items[i])
    case Obj(fields) =>
      HasKeys(fields) && forall i | 0 <= i < |fields| && fields[i].value.Some? :: IsDocument(fields[i].value.value)
    case _ => true
  }

  /** The value of a property; none when it is absent or `undefined`. */
  function At(fields: seq<Field>, key: string): (value: Option<Json>)
    ensures value.Some? ==> Field(key, value) in fields && (fields decreases to value.value)
  {
    if fields == [] then None
    else if fields[0].key == key then fields[0].value
    else At(fields[1..], key)
  }

  /** The same document: order of keys and `undefined` properties aside, order of items included. */
  ghost predicate Same(a: Json, b: Json)
    decreases a
  {
    match (a, b)
    case (Arr(xs), Arr(ys)) => |xs| == |ys| && forall i | 0 <= i < |xs| :: Same(xs[i], ys[i])
    case (Obj(f), Obj(g)) =>
      forall key: string ::
        && (At(f, key).Some? <==> At(g, key).Some?)
        && (At(f, key).Some? ==> Same(At(f, key).value, At(g, key).value))
    case _ => a == b
  }

  // ---------- printing ----------

  function HexDigit(n: nat): char
    requires n < 16
  {
    "0123456789abcdef"[n]
  }

  function Escaped(c: char): (text: string)
    ensures text != "" && text[0] != '"' && (|text| == 1 ==> text[0] == c != '\\') && (|text| > 1 ==> text[0] == '\\')
  {
    if c == '"' then "\\\""
    else if c == '\\' then "\\\\"
    else if c as int == 8 then "\\b"
    else if c == '\t' then "\\t"
    else if c == '\n' then "\\n"
    else if c as int == 12 then "\\f"
    else if c == '\r' then "\\r"
    else if c as int < 32 then "\\u00" + [HexDigit(c as int / 16), HexDigit(c as int % 16)]
    else [c]
  }

  function EscapedAll(text: string): string {
    if text == "" then "" else Escaped(text[0]) + EscapedAll(text[1..])
  }

  function Quoted(text: string): string {
    "\"" + EscapedAll(text) + "\""
  }

  datatype Entry = Entry(key: string, text: string)

  function Insert(entry: Entry, entries: seq<Entry>): seq<Entry> {
    if entries == [] || Less(entry.key, entries[0].key) then [entry] + entries
    else [entries[0]] + Insert(entry, entries[1..])
  }

  function Sorted(entries: seq<Entry>): seq<Entry> {
    if entries == [] then [] else Insert(entries[0], Sorted(entries[1..]))
  }

  function Members(entries: seq<Entry>): (parts: seq<string>)
    ensures |parts| == |entries|
  {
    seq(|entries|, i requires 0 <= i < |entries| => Quoted(entries[i].key) + ":" + entries[i].text)
  }

  function Commas(parts: seq<string>): string {
    if parts == [] then ""
    else parts[0] + if |parts| == 1 then "" else "," + Commas(parts[1..])
  }

  /** Writing the values before the keys are sorted or after makes no difference. */
  function Canonical(json: Json): string {
    match json
    case Null => "null"
    case Bool(value) => if value then "true" else "false"
    case Num(numeral) => numeral
    case Str(text) => Quoted(text)
    case Arr(items) => "[" + Commas(seq(|items|, i requires 0 <= i < |items| => Canonical(items[i]))) + "]"
    case Obj(fields) => "{" + Commas(Members(Sorted(Entries(fields)))) + "}"
  }

  function Entries(fields: seq<Field>): seq<Entry> {
    if fields == [] then []
    else
      (if fields[0].value.Some? then [Entry(fields[0].key, Canonical(fields[0].value.value))] else [])
      + Entries(fields[1..])
  }

  function Texts(items: seq<Json>): (texts: seq<string>)
    ensures |texts| == |items|
  {
    seq(|items|, i requires 0 <= i < |items| => Canonical(items[i]))
  }

  // ---------- sorting ----------

  function LookUp(entries: seq<Entry>, key: string): Option<string> {
    if entries == [] then None
    else if entries[0].key == key then Some(entries[0].text)
    else LookUp(entries[1..], key)
  }

  ghost predicate IsAscending(entries: seq<Entry>) {
    forall i, j | 0 <= i < j < |entries| :: Less(entries[i].key, entries[j].key)
  }

  lemma {:induction false} LookUpInsert(entry: Entry, entries: seq<Entry>, key: string)
    requires IsAscending(entries) && LookUp(entries, entry.key).None?
    ensures LookUp(Insert(entry, entries), key) == if key == entry.key then Some(entry.text) else LookUp(entries, key)
  {
    if entries != [] && !Less(entry.key, entries[0].key) {
      LookUpInsert(entry, entries[1..], key);
    }
  }

  lemma {:induction false} InsertHolds(entry: Entry, entries: seq<Entry>, any: Entry)
    ensures any in Insert(entry, entries) <==> any == entry || any in entries
  {
    if entries != [] && !Less(entry.key, entries[0].key) {
      InsertHolds(entry, entries[1..], any);
      assert any in entries <==> any == entries[0] || any in entries[1..];
    }
  }

  lemma {:induction false} InsertAscends(entry: Entry, entries: seq<Entry>)
    requires IsAscending(entries) && LookUp(entries, entry.key).None?
    ensures IsAscending(Insert(entry, entries))
  {
    if entries == [] {
    } else if Less(entry.key, entries[0].key) {
      forall i | 0 <= i < |entries|
        ensures Less(entry.key, entries[i].key)
      {
        if i > 0 {
          LessTransitive(entry.key, entries[0].key, entries[i].key);
        }
      }
    } else {
      LessTotal(entry.key, entries[0].key);
      InsertAscends(entry, entries[1..]);
      var rest := Insert(entry, entries[1..]);
      forall i | 0 <= i < |rest|
        ensures Less(entries[0].key, rest[i].key)
      {
        InsertHolds(entry, entries[1..], rest[i]);
        if rest[i] in entries[1..] {
          var j :| 0 <= j < |entries[1..]| && entries[1..][j] == rest[i];
          assert Less(entries[0].key, entries[j + 1].key);
        }
      }
    }
  }

  lemma {:induction false} NoSuchKey(entries: seq<Entry>, key: string)
    requires forall i | 0 <= i < |entries| :: entries[i].key != key
    ensures LookUp(entries, key).None?
  {
    if entries != [] {
      NoSuchKey(entries[1..], key);
    }
  }

  /** The sorted entries ascend and give every property its text. */
  lemma {:induction false} SortedEntries(fields: seq<Field>, key: string)
    requires HasKeys(fields)
    ensures IsAscending(Sorted(Entries(fields)))
    ensures var value := At(fields, key);
            LookUp(Sorted(Entries(fields)), key) == if value.Some? then Some(Canonical(value.value)) else None
  {
    if fields != [] {
      SortedEntries(fields[1..], key);
      SortedEntries(fields[1..], fields[0].key);
      NotAt(fields[1..], fields[0].key);
      var rest := Sorted(Entries(fields[1..]));
      if fields[0].value.Some? {
        var entry := Entry(fields[0].key, Canonical(fields[0].value.value));
        assert Entries(fields)[1..] == Entries(fields[1..]);
        InsertAscends(entry, rest);
        LookUpInsert(entry, rest, key);
      } else {
        assert Entries(fields) == Entries(fields[1..]);
      }
    }
  }

  lemma {:induction false} NotAt(fields: seq<Field>, key: string)
    requires forall i | 0 <= i < |fields| :: fields[i].key != key
    ensures At(fields, key).None?
  {
    if fields != [] {
      NotAt(fields[1..], key);
    }
  }

  lemma {:induction false} SortedHolds(entries: seq<Entry>, any: Entry)
    ensures any in Sorted(entries) <==> any in entries
  {
    if entries != [] {
      SortedHolds(entries[1..], any);
      InsertHolds(entries[0], Sorted(entries[1..]), any);
      assert any in entries <==> any == entries[0] || any in entries[1..];
    }
  }

  /** Every entry was written from a property. */
  lemma {:induction false} SourceOf(fields: seq<Field>, entry: Entry) returns (i: nat)
    requires entry in Entries(fields)
    ensures i < |fields| && fields[i].value.Some? && entry == Entry(fields[i].key, Canonical(fields[i].value.value))
  {
    var first := if fields[0].value.Some? then [Entry(fields[0].key, Canonical(fields[0].value.value))] else [];
    if entry in first {
      i := 0;
    } else {
      assert entry in Entries(fields[1..]);
      var j := SourceOf(fields[1..], entry);
      i := j + 1;
    }
  }

  lemma {:induction false} AscendingIsUnique(a: seq<Entry>, b: seq<Entry>)
    requires IsAscending(a) && IsAscending(b) && forall key :: LookUp(a, key) == LookUp(b, key)
    ensures a == b
  {
    if a == [] {
      assert b == [] by {
        assert b != [] ==> LookUp(a, b[0].key) == LookUp(b, b[0].key);
      }
    } else {
      assert LookUp(a, a[0].key) == LookUp(b, a[0].key);
      assert b != [];
      assert LookUp(a, b[0].key) == LookUp(b, b[0].key);
      LowestIsFirst(a, b[0].key);
      LowestIsFirst(b, a[0].key);
      LessTotal(a[0].key, b[0].key);
      assert a[0] == b[0];
      forall key
        ensures LookUp(a[1..], key) == LookUp(b[1..], key)
      {
        assert LookUp(a, key) == LookUp(b, key);
        TailLooksUp(a, key);
        TailLooksUp(b, key);
      }
      AscendingIsUnique(a[1..], b[1..]);
      assert a == [a[0]] + a[1..] && b == [b[0]] + b[1..];
    }
  }

  lemma {:induction false} KeyOf(entries: seq<Entry>, key: string) returns (i: nat)
    requires LookUp(entries, key).Some?
    ensures i < |entries| && entries[i] == Entry(key, LookUp(entries, key).value)
  {
    if entries[0].key == key {
      i := 0;
    } else {
      var j := KeyOf(entries[1..], key);
      i := j + 1;
    }
  }

  lemma LowestIsFirst(entries: seq<Entry>, key: string)
    requires IsAscending(entries) && LookUp(entries, key).Some?
    ensures key == entries[0].key || Less(entries[0].key, key)
  {
    var i := KeyOf(entries, key);
  }

  lemma TailLooksUp(entries: seq<Entry>, key: string)
    requires IsAscending(entries) && entries != []
    ensures LookUp(entries[1..], key) == if key == entries[0].key then None else LookUp(entries, key)
  {
    if key == entries[0].key {
      forall i | 0 <= i < |entries| - 1
        ensures entries[1..][i].key != key
      {
        LessTotal(key, key);
        assert Less(entries[0].key, entries[i + 1].key);
      }
      NoSuchKey(entries[1..], key);
    }
  }

  // ---------- reading back without ambiguity ----------

  /** What can follow a value. */
  predicate Stops(text: string) {
    text == "" || text[0] in ",]}"
  }

  predicate IsJoin(t: string, x: string, u: string, y: string) {
    t + x == u + y
  }

  /** Whatever follows, neither text is the beginning of the other. */
  ghost predicate Apart(t: string, u: string) {
    forall x, y | Stops(x) && Stops(y) && IsJoin(t, x, u, y) :: t == u
  }

  predicate Begins(text: string) {
    text != "" && text[0] !in ",]}"
  }

  lemma ApartByHead(t: string, u: string)
    requires t != "" && u != "" && t[0] != u[0]
    ensures Apart(t, u)
  {
    forall x, y
      ensures !IsJoin(t, x, u, y)
    {
      assert (t + x)[0] == t[0] && (u + y)[0] == u[0];
    }
  }

  lemma EscapesDiffer(c: char, d: char, x: string, y: string)
    requires Escaped(c) + x == Escaped(d) + y
    ensures c == d && x == y
  {
    var t, u := Escaped(c), Escaped(d);
    assert (t + x)[0] == t[0] && (u + y)[0] == u[0];
    if |t| > 1 && |u| > 1 {
      assert (t + x)[1] == t[1] && (u + y)[1] == u[1];
      if |t| == 6 && |u| == 6 {
        assert (t + x)[4..6] == t[4..6] && (u + y)[4..6] == u[4..6];
      }
    }
    EscapesDecide(c, d);
    Cancel(t, x, y);
  }

  lemma HexDigitsDiffer(m: nat, n: nat)
    requires m < 16 && n < 16 && HexDigit(m) == HexDigit(n)
    ensures m == n
  {
  }

  /** Only a control character without a short form is escaped by number. */
  lemma LongEscape(c: char)
    requires |Escaped(c)| == 6
    ensures c as int < 32 && Escaped(c)[4..6] == [HexDigit(c as int / 16), HexDigit(c as int % 16)]
  {
    hide HexDigit;
  }

  lemma SameNumber(c: char, d: char)
    requires |Escaped(c)| == 6 && |Escaped(d)| == 6 && Escaped(c)[4..6] == Escaped(d)[4..6]
    ensures c == d
  {
    LongEscape(c);
    LongEscape(d);
    hide Escaped, HexDigit;
    var x, y := Escaped(c)[4..6], Escaped(d)[4..6];
    assert x[0] == y[0] && x[1] == y[1];
    HexDigitsDiffer(c as int / 16, d as int / 16);
    HexDigitsDiffer(c as int % 16, d as int % 16);
  }

  lemma EscapesDecide(c: char, d: char)
    requires var t, u := Escaped(c), Escaped(d);
             && t[0] == u[0] && (|t| > 1 && |u| > 1 ==> t[1] == u[1])
             && (|t| == 6 && |u| == 6 ==> t[4..6] == u[4..6])
    ensures c == d
  {
    hide HexDigit;
    if |Escaped(c)| == 6 && |Escaped(d)| == 6 {
      SameNumber(c, d);
    }
  }

  lemma FirstEscape(a: string, x: string)
    ensures a == "" ==> EscapedAll(a) + "\"" + x == "\"" + x
    ensures a != "" ==> EscapedAll(a) + "\"" + x == Escaped(a[0]) + (EscapedAll(a[1..]) + "\"" + x)
    ensures (EscapedAll(a) + "\"" + x)[0] == '"' <==> a == ""
  {
    hide Escaped;
    if a != "" {
      Regroup(Escaped(a[0]), EscapedAll(a[1..]), "\"", x);
    }
  }

  lemma {:induction false} QuotesEnd(a: string, b: string, x: string, y: string)
    requires EscapedAll(a) + "\"" + x == EscapedAll(b) + "\"" + y
    ensures a == b && x == y
  {
    hide Escaped, EscapedAll;
    FirstEscape(a, x);
    FirstEscape(b, y);
    if a == "" {
      Cancel("\"", x, y);
    } else {
      EscapesDiffer(a[0], b[0], EscapedAll(a[1..]) + "\"" + x, EscapedAll(b[1..]) + "\"" + y);
      QuotesEnd(a[1..], b[1..], x, y);
      assert a == [a[0]] + a[1..] && b == [b[0]] + b[1..];
    }
  }

  lemma QuotedEnds(a: string, b: string, x: string, y: string)
    requires Quoted(a) + x == Quoted(b) + y
    ensures a == b && x == y
  {
    hide EscapedAll;
    Regroup("\"", EscapedAll(a), "\"", x);
    Regroup("\"", EscapedAll(b), "\"", y);
    Cancel("\"", EscapedAll(a) + "\"" + x, EscapedAll(b) + "\"" + y);
    QuotesEnd(a, b, x, y);
  }

  lemma NumeralsApart(m: string, n: string)
    requires IsNumeral(m) && IsNumeral(n)
    ensures Apart(m, n)
  {
    forall x, y | Stops(x) && Stops(y) && IsJoin(m, x, n, y)
      ensures m == n
    {
      assert m + x == n + y;
      assert forall i | 0 <= i < |m| :: (m + x)[i] == m[i];
      assert forall i | 0 <= i < |n| :: (n + y)[i] == n[i];
      assert x != "" ==> (m + x)[|m|] == x[0];
      assert y != "" ==> (n + y)[|n|] == y[0];
      assert |m| == |n|;
    }
  }

  lemma StringsApart(a: string, b: string)
    ensures Apart(Quoted(a), Quoted(b))
  {
    forall x, y | Stops(x) && Stops(y) && IsJoin(Quoted(a), x, Quoted(b), y)
      ensures Quoted(a) == Quoted(b)
    {
      QuotedEnds(a, b, x, y);
    }
  }

  lemma MembersApart(a: Entry, b: Entry)
    requires Apart(a.text, b.text)
    ensures Apart(Quoted(a.key) + ":" + a.text, Quoted(b.key) + ":" + b.text)
  {
    hide Quoted;
    var t, u := Quoted(a.key) + ":" + a.text, Quoted(b.key) + ":" + b.text;
    forall x, y | Stops(x) && Stops(y) && IsJoin(t, x, u, y)
      ensures t == u
    {
      MembersEnd(a, b, x, y);
      assert IsJoin(a.text, x, b.text, y);
    }
  }

  lemma MembersEnd(a: Entry, b: Entry, x: string, y: string)
    requires Quoted(a.key) + ":" + a.text + x == Quoted(b.key) + ":" + b.text + y
    ensures a.key == b.key && a.text + x == b.text + y
  {
    hide Quoted;
    Regroup(Quoted(a.key), ":", a.text, x);
    Regroup(Quoted(b.key), ":", b.text, y);
    QuotedEnds(a.key, b.key, ":" + a.text + x, ":" + b.text + y);
    assert ":" + a.text + x == ":" + (a.text + x) && ":" + b.text + y == ":" + (b.text + y);
    Cancel(":", a.text + x, b.text + y);
  }

  ghost predicate AreApart(ts: seq<string>, us: seq<string>) {
    && (forall i | 0 <= i < |ts| :: Begins(ts[i]))
    && (forall j | 0 <= j < |us| :: Begins(us[j]))
    && (forall i, j | 0 <= i < |ts| && 0 <= j < |us| :: Apart(ts[i], us[j]))
  }

  /** The rest of a bracketed list and what follows it. */
  function Closed(ts: seq<string>, close: char, x: string): string {
    Commas(ts) + [close] + x
  }

  function After(ts: seq<string>, close: char, x: string): string
    requires ts != []
  {
    if |ts| == 1 then [close] + x else "," + Closed(ts[1..], close, x)
  }

  lemma ClosedNothing(close: char, x: string)
    ensures Closed([], close, x) == [close] + x
  {
  }

  lemma ClosedByHead(ts: seq<string>, close: char, x: string)
    requires ts != []
    ensures Closed(ts, close, x) == ts[0] + After(ts, close, x)
  {
    CommasByHead(ts);
    hide Commas;
    if |ts| == 1 {
      Associates(ts[0], [close], x);
    } else {
      Regroup(ts[0], "," + Commas(ts[1..]), [close], x);
      Regroup(",", Commas(ts[1..]), [close], x);
    }
  }

  lemma CommasByHead(ts: seq<string>)
    requires ts != []
    ensures Commas(ts) == if |ts| == 1 then ts[0] else ts[0] + ("," + Commas(ts[1..]))
  {
  }

  lemma AfterStops(ts: seq<string>, close: char, x: string)
    requires ts != [] && close in "]}"
    ensures Stops(After(ts, close, x)) && After(ts, close, x)[0] == if |ts| == 1 then close else ','
  {
    hide Closed;
  }

  lemma ClosedBegins(ts: seq<string>, close: char, x: string)
    requires close in "]}" && forall i | 0 <= i < |ts| :: Begins(ts[i])
    ensures Closed(ts, close, x) != "" && (Closed(ts, close, x)[0] == close <==> ts == [])
  {
    if ts == [] {
      ClosedNothing(close, x);
    } else {
      ClosedByHead(ts, close, x);
      hide Closed, After;
    }
  }

  /** A bracketed list is read back part by part. */
  lemma {:induction false} ListsEnd(ts: seq<string>, us: seq<string>, close: char, x: string, y: string)
    requires AreApart(ts, us) && close in "]}" && Closed(ts, close, x) == Closed(us, close, y)
    ensures ts == us && x == y
    decreases |ts|, 1
  {
    hide Closed, After, Apart;
    ClosedBegins(ts, close, x);
    ClosedBegins(us, close, y);
    if ts == [] {
      ClosedNothing(close, x);
      ClosedNothing(close, y);
      Cancel([close], x, y);
    } else {
      ClosedByHead(ts, close, x);
      ClosedByHead(us, close, y);
      AfterStops(ts, close, x);
      AfterStops(us, close, y);
      HeadsAgree(ts[0], After(ts, close, x), us[0], After(us, close, y));
      TailsEnd(ts, us, close, x, y);
    }
  }

  lemma HeadsAgree(t: string, x: string, u: string, y: string)
    requires Apart(t, u) && Stops(x) && Stops(y) && t + x == u + y
    ensures t == u && x == y
  {
    assert IsJoin(t, x, u, y);
    Cancel(t, x, y);
  }

  lemma {:induction false} TailsEnd(ts: seq<string>, us: seq<string>, close: char, x: string, y: string)
    requires AreApart(ts, us) && close in "]}" && ts != [] && us != [] && ts[0] == us[0]
    requires After(ts, close, x) == After(us, close, y)
    ensures ts == us && x == y
    decreases |ts|, 0
  {
    hide Closed, Apart;
    AfterStops(ts, close, x);
    AfterStops(us, close, y);
    Uncons(ts, []);
    Uncons(us, []);
    if |ts| == 1 {
      Cancel([close], x, y);
    } else {
      Cancel(",", Closed(ts[1..], close, x), Closed(us[1..], close, y));
      TailsApart(ts, us);
      ListsEnd(ts[1..], us[1..], close, x, y);
    }
  }

  lemma TailsApart(ts: seq<string>, us: seq<string>)
    requires AreApart(ts, us) && ts != [] && us != []
    ensures AreApart(ts[1..], us[1..])
  {
  }

  lemma ListsApart(ts: seq<string>, us: seq<string>, open: string, close: char)
    requires AreApart(ts, us) && close in "]}"
    ensures Apart(open + Commas(ts) + [close], open + Commas(us) + [close])
  {
    hide Commas, AreApart, Stops;
    var t, u := open + Commas(ts) + [close], open + Commas(us) + [close];
    forall x, y | Stops(x) && Stops(y) && IsJoin(t, x, u, y)
      ensures t == u
    {
      Regroup(open, Commas(ts), [close], x);
      Regroup(open, Commas(us), [close], y);
      Cancel(open, Closed(ts, close, x), Closed(us, close, y));
      ListsEnd(ts, us, close, x, y);
    }
  }

  function Head(json: Json): char
    requires IsDocument(json)
  {
    match json
    case Null => 'n'
    case Bool(value) => if value then 't' else 'f'
    case Num(numeral) => numeral[0]
    case Str(_) => '"'
    case Arr(_) => '['
    case Obj(_) => '{'
  }

  lemma CanonicalBegins(json: Json)
    requires IsDocument(json)
    ensures Canonical(json) != "" && Canonical(json)[0] == Head(json) && Begins(Canonical(json))
  {
  }

  /** No canonical text begins another, whatever may follow it. */
  lemma {:induction false} DocumentsApart(a: Json, b: Json)
    requires IsDocument(a) && IsDocument(b)
    ensures Apart(Canonical(a), Canonical(b))
    decreases a
  {
    CanonicalBegins(a);
    CanonicalBegins(b);
    if Head(a) != Head(b) {
      ApartByHead(Canonical(a), Canonical(b));
    } else if a.Num? {
      NumeralsApart(a.numeral, b.numeral);
    } else if a.Str? {
      StringsApart(a.text, b.text);
    } else if a.Arr? {
      ItemsApart(a.items, b.items);
      ListsApart(Texts(a.items), Texts(b.items), "[", ']');
    } else if a.Obj? {
      var es, fs := Sorted(Entries(a.fields)), Sorted(Entries(b.fields));
      FieldsApart(a.fields, b.fields);
      ListsApart(Members(es), Members(fs), "{", '}');
    }
  }

  lemma {:induction false} ItemsApart(xs: seq<Json>, ys: seq<Json>)
    requires IsDocument(Arr(xs)) && IsDocument(Arr(ys))
    ensures AreApart(Texts(xs), Texts(ys))
    decreases xs
  {
    forall i | 0 <= i < |xs|
      ensures Begins(Texts(xs)[i])
    {
      CanonicalBegins(xs[i]);
    }
    forall i | 0 <= i < |ys|
      ensures Begins(Texts(ys)[i])
    {
      CanonicalBegins(ys[i]);
    }
    forall i, j | 0 <= i < |xs| && 0 <= j < |ys|
      ensures Apart(Texts(xs)[i], Texts(ys)[j])
    {
      DocumentsApart(xs[i], ys[j]);
    }
  }

  lemma {:induction false} FieldsApart(fields: seq<Field>, others: seq<Field>)
    requires IsDocument(Obj(fields)) && IsDocument(Obj(others))
    ensures AreApart(Members(Sorted(Entries(fields))), Members(Sorted(Entries(others))))
    decreases fields
  {
    var es, fs := Sorted(Entries(fields)), Sorted(Entries(others));
    forall i, j | 0 <= i < |es| && 0 <= j < |fs|
      ensures Apart(Members(es)[i], Members(fs)[j])
    {
      SortedHolds(Entries(fields), es[i]);
      SortedHolds(Entries(others), fs[j]);
      var k := SourceOf(fields, es[i]);
      var m := SourceOf(others, fs[j]);
      assert fields decreases to fields[k].value.value;
      DocumentsApart(fields[k].value.value, others[m].value.value);
      MembersApart(es[i], fs[j]);
    }
  }

  lemma MembersDecide(es: seq<Entry>, fs: seq<Entry>)
    requires Members(es) == Members(fs)
    ensures es == fs
  {
    assert |es| == |Members(es)| == |Members(fs)| == |fs|;
    forall i | 0 <= i < |es|
      ensures es[i] == fs[i]
    {
      assert Members(es)[i] == Members(fs)[i];
      assert Members(es)[i] == Quoted(es[i].key) + (":" + es[i].text);
      assert Members(fs)[i] == Quoted(fs[i].key) + (":" + fs[i].text);
      QuotedEnds(es[i].key, fs[i].key, ":" + es[i].text, ":" + fs[i].text);
      Cancel(":", es[i].text, fs[i].text);
    }
  }

  lemma SameLists(ts: seq<string>, us: seq<string>, open: string, close: char)
    requires AreApart(ts, us) && close in "]}"
    requires open + Commas(ts) + [close] == open + Commas(us) + [close]
    ensures ts == us
  {
    hide Commas, AreApart;
    Regroup(open, Commas(ts), [close], "");
    Regroup(open, Commas(us), [close], "");
    Cancel(open, Closed(ts, close, ""), Closed(us, close, ""));
    ListsEnd(ts, us, close, "", "");
  }

  // ---------- the theorem ----------

  lemma {:induction false} TextDecides(a: Json, b: Json)
    requires IsDocument(a) && IsDocument(b) && Canonical(a) == Canonical(b)
    ensures Same(a, b)
    decreases a
  {
    CanonicalBegins(a);
    CanonicalBegins(b);
    if a.Str? {
      QuotedEnds(a.text, b.text, "", "");
    } else if a.Arr? {
      ItemsApart(a.items, b.items);
      SameLists(Texts(a.items), Texts(b.items), "[", ']');
      assert |a.items| == |Texts(a.items)| == |b.items|;
      forall i | 0 <= i < |a.items|
        ensures Same(a.items[i], b.items[i])
      {
        assert Texts(a.items)[i] == Texts(b.items)[i];
        TextDecides(a.items[i], b.items[i]);
      }
    } else if a.Obj? {
      FieldsApart(a.fields, b.fields);
      var es, fs := Sorted(Entries(a.fields)), Sorted(Entries(b.fields));
      SameLists(Members(es), Members(fs), "{", '}');
      MembersDecide(es, fs);
      forall key: string
        ensures && (At(a.fields, key).Some? <==> At(b.fields, key).Some?)
                && (At(a.fields, key).Some? ==> Same(At(a.fields, key).value, At(b.fields, key).value))
      {
        SortedEntries(a.fields, key);
        SortedEntries(b.fields, key);
        if At(a.fields, key).Some? {
          TextDecides(At(a.fields, key).value, At(b.fields, key).value);
        }
      }
    }
  }

  lemma {:induction false} SameIsOneText(a: Json, b: Json)
    requires IsDocument(a) && IsDocument(b) && Same(a, b)
    ensures Canonical(a) == Canonical(b)
    decreases a
  {
    if a.Arr? {
      forall i | 0 <= i < |a.items|
        ensures Texts(a.items)[i] == Texts(b.items)[i]
      {
        SameIsOneText(a.items[i], b.items[i]);
      }
      assert Texts(a.items) == Texts(b.items);
    } else if a.Obj? {
      SortedEntries(a.fields, "");
      SortedEntries(b.fields, "");
      var es, fs := Sorted(Entries(a.fields)), Sorted(Entries(b.fields));
      forall key: string
        ensures LookUp(es, key) == LookUp(fs, key)
      {
        SortedEntries(a.fields, key);
        SortedEntries(b.fields, key);
        assert At(a.fields, key).Some? <==> At(b.fields, key).Some?;
        if At(a.fields, key).Some? {
          SameIsOneText(At(a.fields, key).value, At(b.fields, key).value);
        }
      }
      AscendingIsUnique(es, fs);
    }
  }

  /** Comparing the texts is comparing the documents. */
  lemma CanonicalIffSame(a: Json, b: Json)
    requires IsDocument(a) && IsDocument(b)
    ensures Canonical(a) == Canonical(b) <==> Same(a, b)
  {
    if Canonical(a) == Canonical(b) {
      TextDecides(a, b);
    }
    if Same(a, b) {
      SameIsOneText(a, b);
    }
  }

  // ---------- changed fields ----------

  /** `undefined` prints to no text at all. */
  function TextOf(value: Option<Json>): Option<string> {
    if value.Some? then Some(Canonical(value.value)) else None
  }

  ghost predicate IsChanged(before: Option<Json>, after: Option<Json>) {
    !(before.None? && after.None?) && !(before.Some? && after.Some? && Same(before.value, after.value))
  }

  ghost predicate AreDocuments(fields: seq<Field>) {
    IsDocument(Obj(fields))
  }

  function ChangedFields(editable: seq<string>, before: seq<Field>, changes: seq<Field>): (changed: seq<string>) {
    if editable == [] then []
    else
      (if TextOf(At(before, editable[0])) != TextOf(At(changes, editable[0])) then [editable[0]] else [])
      + ChangedFields(editable[1..], before, changes)
  }

  /** An edit's record names exactly the fields whose documents differ. */
  lemma {:induction false} ChangedFieldsAreExact(editable: seq<string>, before: seq<Field>, changes: seq<Field>,
                                                 name: string)
    requires AreDocuments(before) && AreDocuments(changes)
    ensures name in ChangedFields(editable, before, changes)
            <==> name in editable && IsChanged(At(before, name), At(changes, name))
  {
    if editable != [] {
      ChangedFieldsAreExact(editable[1..], before, changes, name);
      assert name in editable <==> name == editable[0] || name in editable[1..];
      var was, now := At(before, editable[0]), At(changes, editable[0]);
      if was.Some? && now.Some? {
        CanonicalIffSame(was.value, now.value);
      }
    }
  }
}
