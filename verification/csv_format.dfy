/** The CSV lines of an audit export, and a reader of section 2 of RFC 4180 that gets every field back. */
module CsvFormat {
  import opened Sequences
  import opened Splitting
  import opened Wrappers

  /** A value to print: absent, or the text it prints as. */
  datatype Cell = Missing | Text(text: string)

  function TextOf(cell: Cell): string {
    if cell.Missing? then "" else cell.text
  }

  predicate IsSpecial(c: char) {
    c == '"' || c == ',' || c == '\r' || c == '\n'
  }

  predicate NeedsQuoting(text: string) {
    exists i :: 0 <= i < |text| && IsSpecial(text[i])
  }

  /** Every double quote doubled. */
  function Doubled(text: string): string {
    if text == "" then ""
    else (if text[0] == '"' then "\"\"" else [text[0]]) + Doubled(text[1..])
  }

  function CsvField(cell: Cell): string {
    var text := TextOf(cell);
    if NeedsQuoting(text) then "\"" + Doubled(text) + "\"" else text
  }

  const CSV_LINE_END := "\r\n"

  function FieldsOf(cells: seq<Cell>): (fields: seq<string>)
    ensures |fields| == |cells|
  {
    seq(|cells|, i requires 0 <= i < |cells| => CsvField(cells[i]))
  }

  /** One record as one line, its cells in column order. */
  function Line(cells: seq<Cell>): string {
    Join(FieldsOf(cells), ',') + CSV_LINE_END
  }

  function Lines(records: seq<seq<Cell>>): string {
    if records == [] then "" else Line(records[0]) + Lines(records[1..])
  }

  // ---------- the reader ----------

  datatype Read<T> = Read(value: T, rest: string)

  /** Up to the next separator or line break. */
  function ReadPlain(text: string): (r: Read<string>)
    ensures |r.rest| <= |text|
  {
    if text == "" || text[0] == ',' || text[0] == '"' || text[0] == '\r' || text[0] == '\n' then Read("", text)
    else
      var r := ReadPlain(text[1..]);
      Read([text[0]] + r.value, r.rest)
  }

  /** After an opening quote: up to the quote that is not doubled. */
  function ReadQuoted(text: string): (r: Option<Read<string>>)
    ensures r.Some? ==> |r.value.rest| < |text|
  {
    if text == "" then None
    else if text[0] != '"' then
      var r := ReadQuoted(text[1..]);
      if r.Some? then Some(Read([text[0]] + r.value.value, r.value.rest)) else None
    else if |text| > 1 && text[1] == '"' then
      var r := ReadQuoted(text[2..]);
      if r.Some? then Some(Read(['"'] + r.value.value, r.value.rest)) else None
    else Some(Read("", text[1..]))
  }

  function ReadField(text: string): (r: Option<Read<string>>)
    ensures r.Some? ==> |r.value.rest| <= |text|
  {
    if text != "" && text[0] == '"' then ReadQuoted(text[1..]) else Some(ReadPlain(text))
  }

  function ReadRecord(text: string): (r: Option<Read<seq<string>>>)
    ensures r.Some? ==> |r.value.rest| < |text|
    decreases |text|
  {
    var field := ReadField(text);
    if field.None? then None
    else
      var rest := field.value.rest;
      if rest != "" && rest[0] == ',' then
        var more := ReadRecord(rest[1..]);
        if more.Some? then Some(Read([field.value.value] + more.value.value, more.value.rest)) else None
      else if "\r\n" <= rest then Some(Read([field.value.value], rest[2..]))
      else None
  }

  function ReadAll(text: string): Option<seq<seq<string>>>
    decreases |text|
  {
    if text == "" then Some([])
    else
      var record := ReadRecord(text);
      if record.None? then None
      else
        var more := ReadAll(record.value.rest);
        if more.Some? then Some([record.value.value] + more.value) else None
  }

  // ---------- the round trip ----------

  /** What follows a field in a file. */
  predicate EndsField(rest: string) {
    rest != "" && (rest[0] == ',' || rest[0] == '\r')
  }

  lemma {:induction false} PlainReads(text: string, rest: string)
    requires !NeedsQuoting(text) && EndsField(rest)
    ensures ReadPlain(text + rest) == Read(text, rest)
  {
    if text == "" {
      assert text + rest == rest;
    } else {
      assert !IsSpecial(text[0]);
      forall i | 0 <= i < |text| - 1
        ensures !IsSpecial(text[1..][i])
      {
        assert !IsSpecial(text[i + 1]);
      }
      PlainReads(text[1..], rest);
      assert (text + rest)[1..] == text[1..] + rest && [text[0]] + text[1..] == text;
    }
  }

  lemma {:induction false} QuotedReads(text: string, rest: string)
    requires EndsField(rest)
    ensures ReadQuoted(Doubled(text) + "\"" + rest) == Some(Read(text, rest))
  {
    if text == "" {
      assert Doubled(text) + "\"" == "\"";
      QuoteEnds(rest);
    } else {
      var first := if text[0] == '"' then "\"\"" else [text[0]];
      QuotedReads(text[1..], rest);
      Regroup(first, Doubled(text[1..]), "\"", rest);
      Uncons(text, "");
      ReadsOne(text[0], Doubled(text[1..]) + "\"" + rest);
    }
  }

  lemma QuoteEnds(rest: string)
    requires EndsField(rest)
    ensures ReadQuoted("\"" + rest) == Some(Read("", rest))
  {
    Prepend('"', rest);
  }

  /** One character of a quoted field. */
  lemma ReadsOne(c: char, others: string)
    requires ReadQuoted(others).Some?
    ensures var r := ReadQuoted(others).value;
            ReadQuoted((if c == '"' then "\"\"" else [c]) + others) == Some(Read([c] + r.value, r.rest))
  {
    if c == '"' {
      DropFront("\"\"", others);
    } else {
      Prepend(c, others);
    }
  }

  lemma FieldReads(cell: Cell, rest: string)
    requires EndsField(rest)
    ensures ReadField(CsvField(cell) + rest) == Some(Read(TextOf(cell), rest))
  {
    var text := TextOf(cell);
    if NeedsQuoting(text) {
      var all := "\"" + Doubled(text) + "\"" + rest;
      assert all[1..] == Doubled(text) + "\"" + rest;
      QuotedReads(text, rest);
    } else {
      PlainReads(text, rest);
      assert text != "" ==> !IsSpecial(text[0]) && (text + rest)[0] == text[0];
      assert text == "" ==> text + rest == rest;
    }
  }

  function TextsOf(cells: seq<Cell>): (texts: seq<string>)
    ensures |texts| == |cells|
  {
    seq(|cells|, i requires 0 <= i < |cells| => TextOf(cells[i]))
  }

  lemma LineStarts(cells: seq<Cell>, rest: string)
    requires cells != []
    ensures Line(cells) + rest
            == CsvField(cells[0]) + ((if |cells| == 1 then CSV_LINE_END else "," + Line(cells[1..])) + rest)
  {
    hide CsvField;
    assert FieldsOf(cells)[1..] == FieldsOf(cells[1..]) && FieldsOf(cells)[0] == CsvField(cells[0]);
    if |cells| > 1 {
      assert Line(cells) == CsvField(cells[0]) + ("," + Line(cells[1..]));
    }
  }

  lemma {:induction false} LineReads(cells: seq<Cell>, rest: string)
    requires cells != []
    ensures ReadRecord(Line(cells) + rest) == Some(Read(TextsOf(cells), rest))
  {
    hide CsvField, ReadField;
    var field := CsvField(cells[0]);
    var after := (if |cells| == 1 then CSV_LINE_END else "," + Line(cells[1..])) + rest;
    LineStarts(cells, rest);
    FieldReads(cells[0], after);
    if |cells| > 1 {
      LineReads(cells[1..], rest);
      assert after[1..] == Line(cells[1..]) + rest;
      assert [TextOf(cells[0])] + TextsOf(cells[1..]) == TextsOf(cells);
    } else {
      assert after[2..] == rest && TextsOf(cells) == [TextOf(cells[0])];
    }
  }

  /** Every export reads back, record by record and column by column, whatever the cells hold; only the difference
      between an absent cell and an empty one is lost. */
  lemma {:induction false} ExportReadsBack(records: seq<seq<Cell>>)
    requires forall i | 0 <= i < |records| :: records[i] != []
    ensures ReadAll(Lines(records)) == Some(seq(|records|, i requires 0 <= i < |records| => TextsOf(records[i])))
  {
    var texts := seq(|records|, i requires 0 <= i < |records| => TextsOf(records[i]));
    if records != [] {
      LineReads(records[0], Lines(records[1..]));
      ExportReadsBack(records[1..]);
      assert texts == [TextsOf(records[0])] + texts[1..];
      assert texts[1..] == seq(|records| - 1, i requires 0 <= i < |records| - 1 => TextsOf(records[1..][i]));
      assert Lines(records) != "";
    }
  }

  // ---------- what a field looks like ----------

  function QuotesIn(text: string): nat {
    if text == "" then 0 else (if text[0] == '"' then 1 else 0) + QuotesIn(text[1..])
  }

  lemma {:induction false} DoubledLength(text: string)
    ensures |Doubled(text)| == |text| + QuotesIn(text)
  {
    if text != "" {
      DoubledLength(text[1..]);
    }
  }

  /** A field is printed as it is, unless a comma, a double quote or a line break in it makes quotes necessary. */
  lemma QuotedOnlyWhereNeeded(text: string)
    ensures CsvField(Text(text)) == text <==> ',' !in text && '"' !in text && '\r' !in text && '\n' !in text
    ensures CsvField(Text(text)) != text ==>
              var field := CsvField(Text(text));
              |field| == |text| + QuotesIn(text) + 2 && field[0] == '"' == field[|field| - 1]
    ensures CsvField(Missing) == ""
  {
    DoubledLength(text);
  }
}
