/** A reader of JSON texts without white space (RFC 8259), and that it reads every canonical text as the document it was
    printed from. */
module JsonReading {
  import opened CanonicalJson
  import opened Sequences
  import opened TextOrder
  import opened Wrappers

  datatype Read<T> = Read(value: T, rest: string)

  // ---------- strings ----------

  function DigitValue(c: char): Option<nat> {
    if '0' <= c <= '9' then Some(c as int - '0' as int)
    else if 'a' <= c <= 'f' then Some(c as int - 'a' as int + 10)
    else if 'A' <= c <= 'F' then Some(c as int - 'A' as int + 10)
    else None
  }

  /** The number four hexadecimal digits spell. */
  function FourDigits(text: string): Option<nat> {
    if |text| < 4 then None
    else
      var (a, b, c, d) := (DigitValue(text[0]), DigitValue(text[1]), DigitValue(text[2]), DigitValue(text[3]));
      if a.Some? && b.Some? && c.Some? && d.Some?
      then Some(((a.value * 16 + b.value) * 16 + c.value) * 16 + d.value) else None
  }

  /** One character of a string (section 7): plain, or escaped; surrogates are not read. */
  function ReadChar(text: string): (r: Option<Read<char>>)
    ensures r.Some? ==> |r.value.rest| < |text|
  {
    if text == "" || text[0] == '"' || text[0] as int < 32 then None
    else if text[0] != '\\' then Some(Read(text[0], text[1..]))
    else if |text| < 2 then None
    else
      var rest := text[2..];
      match text[1]
      case '"' => Some(Read('"', rest))
      case '\\' => Some(Read('\\', rest))
      case '/' => Some(Read('/', rest))
      case 'b' => Some(Read(8 as char, rest))
      case 'f' => Some(Read(12 as char, rest))
      case 'n' => Some(Read('\n', rest))
      case 'r' => Some(Read('\r', rest))
      case 't' => Some(Read('\t', rest))
      case 'u' =>
        var number := FourDigits(rest);
        if number.Some? && number.value < 0xD800 then Some(Read(number.value as char, rest[4..])) else None
      case _ => None
  }

  /** Up to the closing quote. */
  function ReadChars(text: string): (r: Option<Read<string>>)
    ensures r.Some? ==> |r.value.rest| < |text|
    decreases |text|
  {
    if text != "" && text[0] == '"' then Some(Read("", text[1..]))
    else
      var first := ReadChar(text);
      if first.None? then None
      else
        var more := ReadChars(first.value.rest);
        if more.None? then None else Some(Read([first.value.value] + more.value.value, more.value.rest))
  }

  function ReadString(text: string): (r: Option<Read<string>>)
    ensures r.Some? ==> |r.value.rest| < |text|
  {
    if text != "" && text[0] == '"' then ReadChars(text[1..]) else None
  }

  // ---------- values ----------

  predicate IsNumeralChar(c: char) {
    '0' <= c <= '9' || c in "+-.e"
  }

  function ReadNumeral(text: string): (r: Read<string>)
    ensures |r.rest| + |r.value| == |text|
  {
    if text == "" || !IsNumeralChar(text[0]) then Read("", text)
    else
      var more := ReadNumeral(text[1..]);
      Read([text[0]] + more.value, more.rest)
  }

  function ReadValue(text: string): (r: Option<Read<Json>>)
    ensures r.Some? ==> |r.value.rest| < |text|
    decreases |text|, 0
  {
    if "null" <= text then Some(Read(Null, text[4..]))
    else if "true" <= text then Some(Read(Bool(true), text[4..]))
    else if "false" <= text then Some(Read(Bool(false), text[5..]))
    else if text == "" then None
    else if text[0] == '"' then
      var s := ReadString(text);
      if s.None? then None else Some(Read(Str(s.value.value), s.value.rest))
    else if text[0] == '[' then
      if |text| > 1 && text[1] == ']' then Some(Read(Arr([]), text[2..]))
      else
        var items := ReadItems(text[1..]);
        if items.None? then None else Some(Read(Arr(items.value.value), items.value.rest))
    else if text[0] == '{' then
      if |text| > 1 && text[1] == '}' then Some(Read(Obj([]), text[2..]))
      else
        var members := ReadMembers(text[1..]);
        if members.None? then None else Some(Read(Obj(members.value.value), members.value.rest))
    else
      var numeral := ReadNumeral(text);
      if IsNumeral(numeral.value) then Some(Read(Num(numeral.value), numeral.rest)) else None
  }

  /** The items of an array, up to its end. */
  function ReadItems(text: string): (r: Option<Read<seq<Json>>>)
    ensures r.Some? ==> |r.value.rest| < |text|
    decreases |text|, 1
  {
    var first := ReadValue(text);
    if first.None? || first.value.rest == "" then None
    else
      var rest := first.value.rest;
      if rest[0] == ']' then Some(Read([first.value.value], rest[1..]))
      else if rest[0] != ',' then None
      else
        var more := ReadItems(rest[1..]);
        if more.None? then None else Some(Read([first.value.value] + more.value.value, more.value.rest))
  }

  /** The members of an object, up to its end. */
  function ReadMembers(text: string): (r: Option<Read<seq<Field>>>)
    ensures r.Some? ==> |r.value.rest| < |text|
    decreases |text|, 1
  {
    var key := ReadString(text);
    if key.None? || key.value.rest == "" || key.value.rest[0] != ':' then None
    else
      var value := ReadValue(key.value.rest[1..]);
      if value.None? || value.value.rest == "" then None
      else
        var member, rest := Field(key.value.value, Some(value.value.value)), value.value.rest;
        if rest[0] == '}' then Some(Read([member], rest[1..]))
        else if rest[0] != ',' then None
        else
          var more := ReadMembers(rest[1..]);
          if more.None? then None else Some(Read([member] + more.value.value, more.value.rest))
  }

  // ---------- strings read back ----------

  lemma HexDigitReads(n: nat)
    requires n < 16
    ensures DigitValue(HexDigit(n)) == Some(n)
  {
    assert n == 0 || n == 1 || n == 2 || n == 3 || n == 4 || n == 5 || n == 6 || n == 7 || n == 8 || n == 9 || n == 10
           || n == 11 || n == 12 || n == 13 || n == 14 || n == 15;
  }

  lemma ControlReads(c: char, rest: string)
    requires c as int < 32
    ensures FourDigits("00" + [HexDigit(c as int / 16), HexDigit(c as int % 16)] + rest) == Some(c as int)
  {
    hide HexDigit;
    HexDigitReads(0);
    HexDigitReads(c as int / 16);
    HexDigitReads(c as int % 16);
  }

  /** The escape of a character is read as that character. */
  lemma CharReads(c: char, rest: string)
    ensures ReadChar(Escaped(c) + rest) == Some(Read(c, rest))
    ensures (Escaped(c) + rest)[0] != '"'
  {
    var text := Escaped(c) + rest;
    if c as int < 32 && |Escaped(c)| == 6 {
      var digits := [HexDigit(c as int / 16), HexDigit(c as int % 16)];
      assert text[2..] == "00" + digits + rest;
      ControlReads(c, rest);
      assert text[2..][4..] == rest;
    } else {
      assert text[|Escaped(c)|..] == rest;
    }
  }

  /** No other spelling of a character is shorter, and none of its digits is a capital. */
  lemma EscapesAreShortest(c: char, spelling: string)
    requires ReadChar(spelling) == Some(Read(c, ""))
    ensures |Escaped(c)| <= |spelling|
    ensures |Escaped(c)| > 1 ==> forall i | 0 <= i < |Escaped(c)| :: !('A' <= Escaped(c)[i] <= 'Z')
  {
    if c as int < 32 {
      HexDigitReads(c as int / 16);
      HexDigitReads(c as int % 16);
    }
  }

  lemma CharThenChars(c: char, others: string, s: string, rest: string)
    requires ReadChars(others) == Some(Read(s, rest))
    ensures ReadChars(Escaped(c) + others) == Some(Read([c] + s, rest))
  {
    CharReads(c, others);
    hide Escaped, ReadChar;
  }

  lemma {:induction false} CharsRead(s: string, rest: string)
    ensures ReadChars(EscapedAll(s) + ("\"" + rest)) == Some(Read(s, rest))
  {
    hide Escaped, ReadChars;
    if s == "" {
      CharsEnd(rest);
    } else {
      CharsRead(s[1..], rest);
      Associates(Escaped(s[0]), EscapedAll(s[1..]), "\"" + rest);
      CharThenChars(s[0], EscapedAll(s[1..]) + ("\"" + rest), s[1..], rest);
      assert s == [s[0]] + s[1..];
    }
  }

  lemma CharsEnd(rest: string)
    ensures ReadChars(EscapedAll("") + ("\"" + rest)) == Some(Read("", rest))
  {
    assert EscapedAll("") + ("\"" + rest) == "\"" + rest;
  }

  lemma StringReads(s: string, rest: string)
    ensures ReadString(Quoted(s) + rest) == Some(Read(s, rest))
  {
    hide EscapedAll, ReadChars;
    CharsRead(s, rest);
    var text := Quoted(s) + rest;
    assert text == "\"" + (EscapedAll(s) + ("\"" + rest));
    assert text[1..] == EscapedAll(s) + ("\"" + rest);
  }

  lemma {:induction false} NumeralReads(m: string, rest: string)
    requires (forall i | 0 <= i < |m| :: IsNumeralChar(m[i])) && (rest == "" || !IsNumeralChar(rest[0]))
    ensures ReadNumeral(m + rest) == Read(m, rest)
  {
    if m == "" {
      assert m + rest == rest;
    } else {
      NumeralReads(m[1..], rest);
      Uncons(m, rest);
    }
  }

  // ---------- documents read back ----------

  /** Before anything that can follow a value, the text is read as the same document. */
  ghost predicate ReadsAs(text: string, json: Json) {
    forall rest: string | Stops(rest) :: IsReadAs(text, json, rest)
  }

  ghost predicate IsReadAs(text: string, json: Json, rest: string) {
    var r := ReadValue(text + rest);
    r.Some? && r.value.rest == rest && Same(r.value.value, json)
  }

  lemma {:induction false} ItemsRead(texts: seq<string>, jsons: seq<Json>, rest: string)
    requires |texts| == |jsons| > 0 && forall i | 0 <= i < |texts| :: ReadsAs(texts[i], jsons[i])
    ensures var r := ReadItems(Closed(texts, ']', rest));
            && r.Some? && r.value.rest == rest && |r.value.value| == |jsons|
            && forall i | 0 <= i < |jsons| :: Same(r.value.value[i], jsons[i])
  {
    hide ReadValue, Same, Commas, Closed;
    ClosedByHead(texts, ']', rest);
    AfterStops(texts, ']', rest);
    var follows := After(texts, ']', rest);
    assert ReadsAs(texts[0], jsons[0]);
    assert IsReadAs(texts[0], jsons[0], follows);
    if |texts| > 1 {
      ItemsRead(texts[1..], jsons[1..], rest);
      var more := ReadItems(Closed(texts[1..], ']', rest)).value.value;
      assert follows[0] == ',' && follows[1..] == Closed(texts[1..], ']', rest);
      forall i | 0 <= i < |jsons|
        ensures Same(ReadItems(Closed(texts, ']', rest)).value.value[i], jsons[i])
      {
        assert i > 0 ==> Same(more[i - 1], jsons[1..][i - 1]);
      }
    }
  }

  ghost predicate AreReadAs(members: seq<Field>, es: seq<Entry>, jsons: seq<Json>)
    requires |es| == |jsons|
  {
    && |members| == |es|
    && forall i | 0 <= i < |es| ::
         members[i].key == es[i].key && members[i].value.Some? && Same(members[i].value.value, jsons[i])
  }

  lemma MemberReads(entry: Entry, json: Json, rest: string)
    requires ReadsAs(entry.text, json) && Stops(rest)
    ensures var text := Quoted(entry.key) + ":" + entry.text + rest;
            var key := ReadString(text);
            && key == Some(Read(entry.key, ":" + entry.text + rest))
            && IsReadAs(entry.text, json, rest) && key.value.rest[1..] == entry.text + rest
  {
    hide ReadString, ReadValue, Quoted;
    StringReads(entry.key, ":" + entry.text + rest);
    Regroup(Quoted(entry.key), ":", entry.text, rest);
    Associates(":", entry.text, rest);
    assert (":" + (entry.text + rest))[1..] == entry.text + rest;
  }

  lemma MembersByHead(es: seq<Entry>)
    requires es != []
    ensures Members(es) != [] && Members(es)[0] == Quoted(es[0].key) + ":" + es[0].text
    ensures Members(es)[1..] == Members(es[1..])
  {
  }

  lemma {:induction false} MembersRead(es: seq<Entry>, jsons: seq<Json>, rest: string)
    requires |es| == |jsons| > 0 && forall i | 0 <= i < |es| :: ReadsAs(es[i].text, jsons[i])
    ensures var r := ReadMembers(Closed(Members(es), '}', rest));
            r.Some? && r.value.rest == rest && AreReadAs(r.value.value, es, jsons)
  {
    hide ReadValue, ReadString, Same, Commas, Closed, ReadsAs, Members, Quoted;
    var parts := Members(es);
    MembersByHead(es);
    ClosedByHead(parts, '}', rest);
    AfterStops(parts, '}', rest);
    var follows := After(parts, '}', rest);
    MemberReads(es[0], jsons[0], follows);
    if |es| > 1 {
      MembersRead(es[1..], jsons[1..], rest);
      var more := ReadMembers(Closed(parts[1..], '}', rest)).value.value;
      assert follows[0] == ',' && follows[1..] == Closed(parts[1..], '}', rest);
      MembersJoin(es, jsons, ReadMembers(Closed(parts, '}', rest)).value.value, more);
    }
  }

  lemma MembersJoin(es: seq<Entry>, jsons: seq<Json>, all: seq<Field>, more: seq<Field>)
    requires |es| == |jsons| > 0 && AreReadAs(more, es[1..], jsons[1..]) && all != [] && all == [all[0]] + more
    requires all[0].key == es[0].key && all[0].value.Some? && Same(all[0].value.value, jsons[0])
    ensures AreReadAs(all, es, jsons)
  {
    hide Same;
    forall i | 0 <= i < |es|
      ensures all[i].key == es[i].key && all[i].value.Some? && Same(all[i].value.value, jsons[i])
    {
      assert i > 0 ==> all[i] == more[i - 1] && es[1..][i - 1] == es[i] && jsons[1..][i - 1] == jsons[i];
    }
  }

  // ---------- objects ----------

  lemma {:induction false} LookUpAt(es: seq<Entry>, i: nat)
    requires IsAscending(es) && i < |es|
    ensures LookUp(es, es[i].key) == Some(es[i].text)
  {
    if i > 0 {
      LessTotal(es[0].key, es[0].key);
      assert Less(es[0].key, es[i].key);
      LookUpAt(es[1..], i - 1);
    }
  }

  /** The values the entries of an object were printed from. */
  lemma ValuesOf(fields: seq<Field>) returns (jsons: seq<Json>)
    requires HasKeys(fields)
    ensures var es := Sorted(Entries(fields));
            && |jsons| == |es|
            && forall i | 0 <= i < |es| ::
                 At(fields, es[i].key) == Some(jsons[i]) && es[i].text == Canonical(jsons[i])
  {
    hide Canonical, Entries, Sorted, HasKeys;
    var es := Sorted(Entries(fields));
    jsons := [];
    while |jsons| < |es|
      invariant |jsons| <= |es|
      invariant forall i | 0 <= i < |jsons| ::
                  At(fields, es[i].key) == Some(jsons[i]) && es[i].text == Canonical(jsons[i])
    {
      SortedEntries(fields, es[|jsons|].key);
      LookUpAt(es, |jsons|);
      jsons := jsons + [At(fields, es[|jsons|].key).value];
    }
  }

  lemma {:induction false} AtMembers(members: seq<Field>, es: seq<Entry>, jsons: seq<Json>, key: string)
    requires |es| == |jsons| && AreReadAs(members, es, jsons) && IsAscending(es)
    ensures At(members, key).Some? <==> LookUp(es, key).Some?
    ensures At(members, key).Some? ==>
              exists i :: 0 <= i < |es| && es[i].key == key && At(members, key) == members[i].value
  {
    hide Same;
    if es != [] && es[0].key != key {
      AtMembers(members[1..], es[1..], jsons[1..], key);
      if At(members[1..], key).Some? {
        var i :| 0 <= i < |es[1..]| && es[1..][i].key == key && At(members[1..], key) == members[1..][i].value;
        assert es[i + 1].key == key && At(members, key) == members[i + 1].value;
      }
    }
  }

  /** What was read of an object is the object. */
  lemma MembersAreSame(members: seq<Field>, fields: seq<Field>, jsons: seq<Json>)
    requires HasKeys(fields)
    requires var es := Sorted(Entries(fields));
             && |jsons| == |es| && AreReadAs(members, es, jsons)
             && forall i | 0 <= i < |es| :: At(fields, es[i].key) == Some(jsons[i])
    ensures Same(Obj(members), Obj(fields))
  {
    var es := Sorted(Entries(fields));
    forall key: string
      ensures At(members, key).Some? <==> At(fields, key).Some?
      ensures At(members, key).Some? ==> Same(At(members, key).value, At(fields, key).value)
    {
      hide Same, Canonical, Entries, Sorted, HasKeys;
      SortedEntries(fields, key);
      AtMembers(members, es, jsons, key);
    }
  }

  // ---------- the theorem ----------

  lemma WordReads(json: Json, rest: string)
    requires json.Null? || json.Bool?
    ensures IsReadAs(Canonical(json), json, rest)
  {
    hide ReadString, ReadItems, ReadMembers, ReadNumeral;
    var word := Canonical(json);
    DropFront(word, rest);
    assert word <= word + rest && (word + rest)[0] == word[0];
  }

  lemma NumberReads(numeral: string, rest: string)
    requires IsNumeral(numeral) && Stops(rest)
    ensures IsReadAs(Canonical(Num(numeral)), Num(numeral), rest)
  {
    NumeralReads(numeral, rest);
    hide ReadString, ReadItems, ReadMembers, ReadNumeral;
    var text := numeral + rest;
    assert text[0] == numeral[0] && text[0] !in "ntf\"[{";
  }

  lemma TextReads(s: string, rest: string)
    ensures IsReadAs(Canonical(Str(s)), Str(s), rest)
  {
    hide Quoted, ReadString, ReadItems, ReadMembers, ReadNumeral;
    StringReads(s, rest);
    QuotedBegins(s);
    var text := Quoted(s) + rest;
    assert text[0] == '"';
  }

  lemma ScalarReads(json: Json, rest: string)
    requires IsDocument(json) && Stops(rest) && !json.Arr? && !json.Obj?
    ensures IsReadAs(Canonical(json), json, rest)
  {
    hide IsReadAs, Canonical;
    match json
    case Num(numeral) => NumberReads(numeral, rest);
    case Str(s) => TextReads(s, rest);
    case _ => WordReads(json, rest);
  }

  lemma ArrayOpens(more: string)
    requires more != ""
    ensures var (r, items) := (ReadValue("[" + more), ReadItems(more));
            r == if more[0] == ']' then Some(Read(Arr([]), more[1..]))
                 else if items.None? then None else Some(Read(Arr(items.value.value), items.value.rest))
  {
    hide ReadItems;
    Prepend('[', more);
    assert ("[" + more)[2..] == more[1..];
  }

  lemma ObjectOpens(more: string)
    requires more != ""
    ensures var (r, members) := (ReadValue("{" + more), ReadMembers(more));
            r == if more[0] == '}' then Some(Read(Obj([]), more[1..]))
                 else if members.None? then None else Some(Read(Obj(members.value.value), members.value.rest))
  {
    hide ReadMembers;
    Prepend('{', more);
    assert ("{" + more)[2..] == more[1..];
  }

  lemma ArrayReads(items: seq<Json>, rest: string)
    requires IsDocument(Arr(items)) && Stops(rest)
    requires forall i | 0 <= i < |items| :: ReadsAs(Canonical(items[i]), items[i])
    ensures IsReadAs(Canonical(Arr(items)), Arr(items), rest)
  {
    hide ReadItems, Commas, ReadsAs, ReadValue;
    var texts := Texts(items);
    var more := Closed(texts, ']', rest);
    assert Canonical(Arr(items)) + rest == "[" + more by { Regroup("[", Commas(texts), "]", rest); }
    ArrayOpens(more);
    if items == [] {
      ClosedNothing(']', rest);
      assert more[1..] == rest;
    } else {
      ItemsRead(texts, items, rest);
      ClosedByHead(texts, ']', rest);
      CanonicalBegins(items[0]);
      assert more[0] == texts[0][0];
    }
  }

  lemma ObjectReads(fields: seq<Field>, jsons: seq<Json>, rest: string)
    requires IsDocument(Obj(fields)) && Stops(rest)
    requires var es := Sorted(Entries(fields));
             && |jsons| == |es|
             && forall i | 0 <= i < |es| :: At(fields, es[i].key) == Some(jsons[i]) && ReadsAs(es[i].text, jsons[i])
    ensures IsReadAs(Canonical(Obj(fields)), Obj(fields), rest)
  {
    hide ReadMembers, Commas, ReadsAs, ReadValue, Sorted, Entries, Same, Quoted;
    var es := Sorted(Entries(fields));
    var parts := Members(es);
    var more := Closed(parts, '}', rest);
    assert Canonical(Obj(fields)) + rest == "{" + more by { Regroup("{", Commas(parts), "}", rest); }
    ObjectOpens(more);
    if es == [] {
      ClosedNothing('}', rest);
      assert more[1..] == rest;
      MembersAreSame([], fields, jsons);
    } else {
      MembersRead(es, jsons, rest);
      ClosedByHead(parts, '}', rest);
      QuotedBegins(es[0].key);
      assert more[0] == parts[0][0] == '"';
      MembersAreSame(ReadMembers(more).value.value, fields, jsons);
    }
  }

  lemma QuotedBegins(s: string)
    ensures Quoted(s) != "" && Quoted(s)[0] == '"'
  {
  }

  /** Every canonical text is a JSON text of its document, whatever follows it. */
  lemma {:induction false} CanonicalReadsBack(json: Json)
    requires IsDocument(json)
    ensures ReadsAs(Canonical(json), json)
    decreases json
  {
    var jsons: seq<Json> := [];
    if json.Arr? {
      forall i | 0 <= i < |json.items|
        ensures ReadsAs(Canonical(json.items[i]), json.items[i])
      {
        CanonicalReadsBack(json.items[i]);
      }
    } else if json.Obj? {
      jsons := ValuesOf(json.fields);
      var es := Sorted(Entries(json.fields));
      forall i | 0 <= i < |es|
        ensures ReadsAs(es[i].text, jsons[i])
      {
        PropertyIsDocument(json.fields, es[i].key);
        CanonicalReadsBack(jsons[i]);
      }
    }
    forall rest: string | Stops(rest)
      ensures IsReadAs(Canonical(json), json, rest)
    {
      hide ReadsAs, IsReadAs, Canonical;
      if json.Arr? {
        ArrayReads(json.items, rest);
      } else if json.Obj? {
        ObjectReads(json.fields, jsons, rest);
      } else {
        ScalarReads(json, rest);
      }
    }
  }

  lemma PropertyIsDocument(fields: seq<Field>, key: string)
    requires IsDocument(Obj(fields)) && At(fields, key).Some?
    ensures IsDocument(At(fields, key).value) && (Obj(fields) decreases to At(fields, key).value)
  {
    var i :| 0 <= i < |fields| && fields[i] == Field(key, At(fields, key));
    assert Obj(fields) decreases to fields;
  }

  /** Read whole, it is the document and nothing is left. */
  lemma CanonicalIsJson(json: Json)
    requires IsDocument(json)
    ensures var r := ReadValue(Canonical(json)); r.Some? && r.value.rest == "" && Same(r.value.value, json)
  {
    hide ReadValue, Canonical;
    CanonicalReadsBack(json);
    assert IsReadAs(Canonical(json), json, "");
    assert Canonical(json) + "" == Canonical(json);
  }
}
